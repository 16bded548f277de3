/** Rendering of the changelog text: bullet entries with their issue marker
    and footnote, section and title headings with their underlines, the
    footnote block, and the assembled, stripped document. */
module Render {
  import opened Failures
  import opened PyStr
  import opened Sorting
  import opened Dicts
  import opened Fragments
  import opened Grouping
  import SemVer

  // ---------------------------------------------------------------- issue numbers

  /** `re.match(r'\A([0-9]+)', name).group(0)`: the run of digits the
      fragment name starts with, if any. */
  function IssueNumber(name: string): (r: Option<string>)
    ensures r.None? <==> name == [] || !IsDigit(name[0])
    ensures r.Some? ==> r.value != [] && |r.value| <= |name| && name[..|r.value|] == r.value
    ensures r.Some? ==> forall i :: 0 <= i < |r.value| ==> IsDigit(r.value[i])
    ensures r.Some? ==> |r.value| == |name| || !IsDigit(name[|r.value|])
  {
    if name == [] || !IsDigit(name[0]) then None else Some(name[..DigitRun(name, 0)])
  }

  // ---------------------------------------------------------------- tracker % number

  /** `template % arg` with a single string argument: `%s` inserts the
      argument, `%r` and `%a` its quoted form, `%%` a percent sign; the
      argument must be used exactly once and no other directive may occur. */
  function Percent(template: string, arg: string): (r: Result<string>)
    ensures r.Err? ==> r.error == FormatError(template)
    ensures r.Ok? ==> '%' in template
  {
    Substitute(template, template, arg, false)
  }

  /** The rest t of the template, once the argument has been used or not. */
  function Substitute(template: string, t: string, arg: string, used: bool): (r: Result<string>)
    ensures r.Err? ==> r.error == FormatError(template)
    ensures r.Ok? && !used ==> '%' in t
    decreases |t|
  {
    if t == [] then
      if used then Ok([]) else Err(FormatError(template))
    else if t[0] != '%' then
      var rest :- Substitute(template, t[1..], arg, used);
      Ok([t[0]] + rest)
    else if |t| == 1 then Err(FormatError(template))
    else if t[1] == '%' then
      var rest :- Substitute(template, t[2..], arg, used);
      Ok("%" + rest)
    else if t[1] == 's' && !used then
      var rest :- Substitute(template, t[2..], arg, true);
      Ok(arg + rest)
    else if (t[1] == 'r' || t[1] == 'a') && !used then
      var rest :- Substitute(template, t[2..], arg, true);
      Ok("'" + arg + "'" + rest)
    else Err(FormatError(template))
  }

  /** Text without `%` passes through unchanged, and is an error when the
      argument has not been used. */
  lemma {:induction false} SubstitutePlain(template: string, t: string, arg: string, used: bool)
    requires '%' !in t
    ensures Substitute(template, t, arg, used) == if used then Ok(t) else Err(FormatError(template))
    decreases |t|
  {
    if t != [] {
      SubstitutePlain(template, t[1..], arg, used);
      assert [t[0]] + t[1..] == t;
    }
  }

  /** Text without `%` in front of the rest is copied in front of its result. */
  lemma {:induction false} SubstituteAfter(template: string, before: string, t: string, arg: string, used: bool)
    requires '%' !in before
    ensures Substitute(template, before + t, arg, used) ==
      match Substitute(template, t, arg, used)
      case Ok(s) => Ok(before + s)
      case Err(e) => Err(e)
    decreases |before|
  {
    if before != [] {
      SubstituteAfter(template, before[1..], t, arg, used);
      assert (before + t)[0] == before[0] && (before + t)[1..] == before[1..] + t;
      assert before[0] != '%' && '%' !in before[1..];
      var u := before + t;
      assert u != [] && u[0] != '%';
      assert Substitute(template, u, arg, used) ==
        match Substitute(template, u[1..], arg, used)
        case Ok(s) => Ok([u[0]] + s)
        case Err(e) => Err(e);
      match Substitute(template, t, arg, used)
      case Ok(s) =>
        assert [before[0]] + (before[1..] + s) == before + s;
      case Err(e) =>
    } else {
      assert before + t == t;
      match Substitute(template, t, arg, used)
      case Ok(s) =>
        assert before + s == s;
      case Err(e) =>
    }
  }

  /** A tracker URL with one `%s` and no other `%` puts the issue number in
      its place. */
  lemma TrackerUrl(before: string, after: string, number: string)
    requires '%' !in before && '%' !in after
    ensures Percent(before + "%s" + after, number) == Ok(before + number + after)
  {
    var t := before + "%s" + after;
    var rest := "%s" + after;
    assert rest[0] == '%' && rest[1] == 's' && rest[2..] == after;
    SubstitutePlain(t, after, number, true);
    assert Substitute(t, rest, number, false) == Ok(number + after);
    SubstituteAfter(t, before, rest, number, false);
    assert t == before + rest;
    assert before + (number + after) == before + number + after;
  }

  /** A tracker URL without any `%` cannot take the number: Python raises
      "not all arguments converted". */
  lemma TrackerUrlWithoutPlaceholder(url: string, number: string)
    requires '%' !in url
    ensures Percent(url, number) == Err(FormatError(url))
  {
    SubstitutePlain(url, url, number, false);
  }

  // ---------------------------------------------------------------- entries

  /** One bullet of a section and the footnote it asks for. */
  datatype Entry = Entry(chunk: string, reference: Option<string>)

  /** The reStructuredText reference written in front of an entry. */
  function Marker(key: string): string
  {
    "`" + key + "`_: "
  }

  /** The footnote target that resolves that reference. */
  function Target(key: string, url: string): string
  {
    ".. _" + key + ": " + url
  }

  /** The body of a fragment, its lines joined so that continuation lines
      are indented under the bullet. */
  function BodyText(body: string): (r: string)
    ensures body == [] ==> r == []
    ensures body != [] && NoLineBreak(body) ==> r == body
  {
    SplitLinesSingle(body);
    Join(SplitLines(body), "\n  ")
  }

  /** The bullet and footnote of one fragment. */
  function RenderEntry(prefix: string, tracker: Option<string>, f: Fragment): (r: Result<Entry>)
    ensures r.Err? <==> tracker.Some? && IssueNumber(f.name).Some?
                        && Percent(tracker.value, IssueNumber(f.name).value).Err?
    ensures r.Err? ==> r.error == FormatError(tracker.value)
  {
    match IssueNumber(f.name)
    case None => Ok(Entry("- " + BodyText(f.body), None))
    case Some(number) =>
      var key := prefix + number;
      var chunk := "- " + Marker(key) + BodyText(f.body);
      if tracker.None? then Ok(Entry(chunk, None))
      else
        match Percent(tracker.value, number)
        case Err(_) => Err(FormatError(tracker.value))
        case Ok(url) => Ok(Entry(chunk, Some(Target(key, url))))
  }

  /** A fragment renders to a bullet `- ` + body; with an issue number the
      bullet carries the `` `key`_: `` marker and, when a tracker is set, a
      footnote for that key whose URL is the tracker template applied to
      the number; only a tracker that cannot take the number fails. */
  lemma RenderEntrySpec(prefix: string, tracker: Option<string>, f: Fragment)
    ensures var r := RenderEntry(prefix, tracker, f);
      && (r.Err? <==> tracker.Some? && IssueNumber(f.name).Some?
                      && Percent(tracker.value, IssueNumber(f.name).value).Err?)
      && (r.Err? ==> r.error == FormatError(tracker.value))
      && (r.Ok? ==> (r.value.reference.Some? <==> tracker.Some? && IssueNumber(f.name).Some?))
      && (r.Ok? && IssueNumber(f.name).None? ==> r.value.chunk == "- " + BodyText(f.body))
      && (r.Ok? && IssueNumber(f.name).Some? ==>
            var key := prefix + IssueNumber(f.name).value;
            && r.value.chunk == "- " + Marker(key) + BodyText(f.body)
            && (tracker.Some? ==>
                  r.value.reference == Some(Target(key, Percent(tracker.value, IssueNumber(f.name).value).value))))
  {
  }

  /** The lines after the first, indented by two spaces. */
  function Indent(lines: seq<string>): (r: seq<string>)
    ensures |r| == |lines|
    ensures forall i :: 0 <= i < |lines| ==> r[i] == "  " + lines[i]
  {
    seq(|lines|, i requires 0 <= i < |lines| => "  " + lines[i])
  }

  lemma {:induction false} JoinIndented(lines: seq<string>)
    requires lines != []
    ensures Join(lines, "\n  ") == Join([lines[0]] + Indent(lines[1..]), "\n")
  {
    if |lines| > 1 {
      var tail := lines[1..];
      JoinIndented(tail);
      var shown := [tail[0]] + Indent(tail[1..]);
      JoinPrepend("  ", shown, "\n");
      assert [shown[0]] + shown[1..] == shown;
      assert ["  " + shown[0]] + shown[1..] == Indent(tail);
      assert ([lines[0]] + Indent(tail))[1..] == Indent(tail);
      var x := Join(shown, "\n");
      assert lines[0] + "\n  " + x == lines[0] + "\n" + ("  " + x);
    } else {
      assert [lines[0]] + Indent(lines[1..]) == [lines[0]];
    }
  }

  /** The lines a bullet is made of: the lead glued to the first body line,
      then the other body lines indented. */
  function BulletLines(lead: string, lines: seq<string>): seq<string>
  {
    if lines == [] then [lead] else [lead + lines[0]] + Indent(lines[1..])
  }

  lemma BulletText(lead: string, lines: seq<string>)
    ensures lead + Join(lines, "\n  ") == Join(BulletLines(lead, lines), "\n")
  {
    if lines == [] {
      assert lead + Join(lines, "\n  ") == lead;
    } else {
      JoinIndented(lines);
      var shown := [lines[0]] + Indent(lines[1..]);
      JoinPrepend(lead, shown, "\n");
      assert [lead + shown[0]] + shown[1..] == BulletLines(lead, lines);
    }
  }

  lemma BulletLinesUnbroken(lead: string, lines: seq<string>)
    requires NoLineBreak(lead)
    requires forall i :: 0 <= i < |lines| ==> NoLineBreak(lines[i])
    ensures forall i :: 0 <= i < |BulletLines(lead, lines)| ==> NoLineBreak(BulletLines(lead, lines)[i])
  {
    var all := BulletLines(lead, lines);
    forall i | 0 <= i < |all| ensures NoLineBreak(all[i]) {
      if lines == [] {
      } else if i > 0 {
        assert all[i] == "  " + lines[1..][i - 1];
        NoLineBreakConcat("  ", lines[1..][i - 1]);
      } else {
        NoLineBreakConcat(lead, lines[0]);
      }
    }
  }

  /** A bullet reads as one list item: its first line is the dash, the
      marker and the first body line, and every other body line follows on
      a line of its own indented by two spaces. */
  lemma EntryLines(lead: string, body: string)
    requires NoLineBreak(lead) && lead != []
    ensures SplitLines(lead + BodyText(body)) == BulletLines(lead, SplitLines(body))
  {
    var lines := SplitLines(body);
    var all := BulletLines(lead, lines);
    BulletText(lead, lines);
    BulletLinesUnbroken(lead, lines);
    assert all[|all| - 1] != [];
    SplitLinesOfJoin(all);
  }

  // ---------------------------------------------------------------- headings

  /** `text + '\n' + c * len(text)`: a heading and its underline. */
  function Heading(text: string, c: char): (r: string)
    ensures |r| == 2 * |text| + 1
    ensures r[..|text|] == text && r[|text|] == '\n'
    ensures forall i :: |text| < i < |r| ==> r[i] == c
  {
    text + "\n" + Repeat(c, |text|)
  }

  /** A heading is two lines, the underline exactly as long as the text. */
  lemma HeadingLines(text: string, c: char)
    requires text != [] && NoLineBreak(text) && !IsLineBreak(c)
    ensures SplitLines(Heading(text, c)) == [text, Repeat(c, |text|)]
    ensures |SplitLines(Heading(text, c))[1]| == |SplitLines(Heading(text, c))[0]|
  {
    var lines := [text, Repeat(c, |text|)];
    assert lines[1..] == [Repeat(c, |text|)];
    assert Join(lines, "\n") == Heading(text, c);
    SplitLinesOfJoin(lines);
  }

  /** `'{} ({})'.format(next_version, today)`. */
  function TitleText(v: SemVer.Version, today: string): (r: string)
    ensures SemVer.ParseVersion(r) == Ok(v)
  {
    var rest := " (" + today + ")";
    SemVer.ParseFormatted(v, rest);
    SemVer.FormatVersion(v) + rest
  }

  /** The release heading opens with a digit of the version and closes
      with its underline: it neither starts nor ends with
      whitespace. */
  lemma TitleHeadingEnds(v: SemVer.Version, today: string)
    ensures var t := Heading(TitleText(v, today), '=');
      t != [] && !IsSpace(t[0]) && !IsSpace(t[|t| - 1])
  {
    var text := TitleText(v, today);
    assert text != [] && IsDigit(text[0]);
    var t := Heading(text, '=');
    assert t[..|text|][0] == t[0];
    assert t[|t| - 1] == '=';
  }

  /** `'\n'.join([header_title, header_line, section_content])`: the title
      heading, underlined with `-`, then the bullets separated by blank
      lines. */
  function Section(title: string, chunks: seq<string>): (r: string)
    ensures r == Heading(title, '-') + "\n" + Join(chunks, "\n\n")
  {
    var parts := [title, Repeat('-', |title|), Join(chunks, "\n\n")];
    assert parts[1..][1..] == [Join(chunks, "\n\n")];
    assert Join(parts[1..], "\n") == Repeat('-', |title|) + "\n" + Join(chunks, "\n\n");
    Join(parts, "\n")
  }

  // ---------------------------------------------------------------- sections

  function Chunks(entries: seq<Entry>): (r: seq<string>)
    ensures |r| == |entries|
    ensures forall i :: 0 <= i < |entries| ==> r[i] == entries[i].chunk
  {
    seq(|entries|, i requires 0 <= i < |entries| => entries[i].chunk)
  }

  function References(entries: seq<Entry>): (r: seq<Option<string>>)
    ensures |r| == |entries|
    ensures forall i :: 0 <= i < |entries| ==> r[i] == entries[i].reference
  {
    seq(|entries|, i requires 0 <= i < |entries| => entries[i].reference)
  }

  /** One more entry adds its chunk and its reference at the end. */
  lemma EntriesAppend(entries: seq<Entry>, e: Entry)
    ensures Chunks(entries + [e]) == Chunks(entries) + [e.chunk]
    ensures References(entries + [e]) == References(entries) + [e.reference]
  {
    var all := entries + [e];
    assert all[|entries|] == e;
    forall i | 0 <= i < |entries| ensures all[i] == entries[i] { }
  }

  /** The entries of a group's fragments, in order; the first fragment
      whose footnote cannot be formatted stops the rendering. */
  function RenderEntries(prefix: string, tracker: Option<string>, frs: seq<Fragment>): (r: Result<seq<Entry>>)
    ensures r.Ok? ==> |r.value| == |frs|
  {
    if frs == [] then Ok([])
    else
      var prev :- RenderEntries(prefix, tracker, frs[..|frs| - 1]);
      var e :- RenderEntry(prefix, tracker, frs[|frs| - 1]);
      Ok(prev + [e])
  }

  /** Rendering succeeds exactly when every fragment renders, and then gives
      each fragment's entry in turn. */
  lemma {:induction false} RenderEntriesSpec(prefix: string, tracker: Option<string>, frs: seq<Fragment>)
    ensures RenderEntries(prefix, tracker, frs).Ok? <==>
      forall k :: 0 <= k < |frs| ==> RenderEntry(prefix, tracker, frs[k]).Ok?
    ensures RenderEntries(prefix, tracker, frs).Ok? ==>
      forall k :: 0 <= k < |frs| ==> RenderEntry(prefix, tracker, frs[k]) == Ok(RenderEntries(prefix, tracker, frs).value[k])
  {
    if frs != [] {
      var n := |frs| - 1;
      var init := frs[..n];
      RenderEntriesSpec(prefix, tracker, init);
      var prev, last := RenderEntries(prefix, tracker, init), RenderEntry(prefix, tracker, frs[n]);
      if prev.Ok? && last.Ok? {
        var all := prev.value + [last.value];
        assert RenderEntries(prefix, tracker, frs) == Ok(all);
        forall k | 0 <= k < |frs| ensures RenderEntry(prefix, tracker, frs[k]) == Ok(all[k]) {
          if k < n {
            assert frs[k] == init[k] && all[k] == prev.value[k];
          }
        }
      } else if prev.Err? {
        var k :| 0 <= k < n && RenderEntry(prefix, tracker, init[k]).Err?;
        assert frs[k] == init[k];
      }
    }
  }

  /** The only way a fragment's entry fails is a tracker template that
      cannot take the issue number. */
  lemma {:induction false} RenderEntriesError(prefix: string, tracker: Option<string>, frs: seq<Fragment>)
    requires RenderEntries(prefix, tracker, frs).Err?
    ensures tracker.Some? && RenderEntries(prefix, tracker, frs).error == FormatError(tracker.value)
  {
    var init := frs[..|frs| - 1];
    if RenderEntries(prefix, tracker, init).Err? {
      RenderEntriesError(prefix, tracker, init);
    } else {
      RenderEntrySpec(prefix, tracker, frs[|frs| - 1]);
    }
  }

  /** One more fragment that renders adds its entry. */
  lemma RenderEntriesAdd(prefix: string, tracker: Option<string>, frs: seq<Fragment>, k: nat, e: Entry)
    requires k < |frs| && RenderEntries(prefix, tracker, frs[..k]).Ok?
    requires RenderEntry(prefix, tracker, frs[k]) == Ok(e)
    ensures RenderEntries(prefix, tracker, frs[..k + 1]) == Ok(RenderEntries(prefix, tracker, frs[..k]).value + [e])
  {
    assert frs[..k + 1][..k] == frs[..k];
  }

  /** One more fragment that fails stops the rendering of the whole list
      with its error. */
  lemma RenderEntriesFail(prefix: string, tracker: Option<string>, frs: seq<Fragment>, k: nat)
    requires k < |frs| && RenderEntries(prefix, tracker, frs[..k]).Ok?
    requires RenderEntry(prefix, tracker, frs[k]).Err?
    ensures RenderEntries(prefix, tracker, frs) == Err(RenderEntry(prefix, tracker, frs[k]).error)
  {
    assert frs[..k + 1][..k] == frs[..k];
    RenderEntriesStops(prefix, tracker, frs, k + 1);
  }

  /** Once a prefix of the fragments fails, the whole list fails with the
      same error: the loop stops at the first failing fragment. */
  lemma {:induction false} RenderEntriesStops(prefix: string, tracker: Option<string>, frs: seq<Fragment>, k: nat)
    requires k <= |frs| && RenderEntries(prefix, tracker, frs[..k]).Err?
    ensures RenderEntries(prefix, tracker, frs) == RenderEntries(prefix, tracker, frs[..k])
    decreases |frs|
  {
    if k < |frs| {
      var init := frs[..|frs| - 1];
      assert init[..k] == frs[..k];
      RenderEntriesStops(prefix, tracker, init, k);
    } else {
      assert frs[..k] == frs;
    }
  }

  /** `footer.append(reference)` for each reference that is set and not yet
      in the footer. */
  function AddReferences(footer: seq<string>, refs: seq<Option<string>>): (r: seq<string>)
    ensures |footer| <= |r| <= |footer| + |refs|
  {
    if refs == [] then footer
    else
      var f := AddReferences(footer, refs[..|refs| - 1]);
      match refs[|refs| - 1]
      case None => f
      case Some(x) => if x in f then f else f + [x]
  }

  /** The footer only grows; it ends up holding what it held and every
      reference that is set, each once if it held each once. */
  lemma {:induction false} AddReferencesSpec(footer: seq<string>, refs: seq<Option<string>>)
    ensures var r := AddReferences(footer, refs);
      |footer| <= |r| && r[..|footer|] == footer
    ensures forall x :: x in AddReferences(footer, refs) <==> x in footer || Some(x) in refs
    ensures Distinct(footer) ==> Distinct(AddReferences(footer, refs))
  {
    if refs != [] {
      var init := refs[..|refs| - 1];
      AddReferencesSpec(footer, init);
      assert refs == init + [refs[|refs| - 1]];
    }
  }

  /** What the group loop has produced so far: the sections and the
      footnotes, in first-seen order. */
  datatype Rendered = Rendered(sections: seq<string>, footer: seq<string>)

  /** The loop over the groups: each group becomes a section under its
      configured title, and its footnotes join the footer. */
  function RenderGroups(prefix: string, tracker: Option<string>, titles: Dict, gs: seq<Group>): (r: Result<Rendered>)
    ensures r.Ok? ==> |r.value.sections| == |gs|
  {
    if gs == [] then Ok(Rendered([], []))
    else
      var done :- RenderGroups(prefix, tracker, titles, gs[..|gs| - 1]);
      var g := gs[|gs| - 1];
      var title := Get(titles, g.changeType);
      if title.None? then Err(MissingTitle(g.changeType))
      else
        var entries :- RenderEntries(prefix, tracker, g.fragments);
        Ok(Rendered(done.sections + [Section(title.value, Chunks(entries))],
                    AddReferences(done.footer, References(entries))))
  }

  /** No footnote is printed twice. */
  lemma {:induction false} RenderGroupsFooter(prefix: string, tracker: Option<string>, titles: Dict, gs: seq<Group>)
    requires RenderGroups(prefix, tracker, titles, gs).Ok?
    ensures Distinct(RenderGroups(prefix, tracker, titles, gs).value.footer)
  {
    if gs != [] {
      var init := gs[..|gs| - 1];
      RenderGroupsFooter(prefix, tracker, titles, init);
      var done := RenderGroups(prefix, tracker, titles, init).value;
      var es := RenderEntries(prefix, tracker, gs[|gs| - 1].fragments).value;
      AddReferencesSpec(done.footer, References(es));
    }
  }

  /** Some fragment of the list renders with footnote x. */
  ghost predicate GroupFootnote(prefix: string, tracker: Option<string>, frs: seq<Fragment>, x: string)
  {
    exists k :: 0 <= k < |frs| && RenderEntry(prefix, tracker, frs[k]).Ok?
                && RenderEntry(prefix, tracker, frs[k]).value.reference == Some(x)
  }

  /** Some fragment of some group renders with footnote x. */
  ghost predicate Footnote(prefix: string, tracker: Option<string>, gs: seq<Group>, x: string)
  {
    exists i :: 0 <= i < |gs| && GroupFootnote(prefix, tracker, gs[i].fragments, x)
  }

  /** The footer holds exactly the footnotes of the fragments of all the
      groups. */
  lemma {:induction false} RenderGroupsFooterContents(prefix: string, tracker: Option<string>, titles: Dict, gs: seq<Group>)
    requires RenderGroups(prefix, tracker, titles, gs).Ok?
    ensures forall x :: x in RenderGroups(prefix, tracker, titles, gs).value.footer <==> Footnote(prefix, tracker, gs, x)
  {
    if gs != [] {
      var n := |gs| - 1;
      var init := gs[..n];
      RenderGroupsFooterContents(prefix, tracker, titles, init);
      var done := RenderGroups(prefix, tracker, titles, init).value;
      var es := RenderEntries(prefix, tracker, gs[n].fragments).value;
      assert RenderGroups(prefix, tracker, titles, gs).value.footer == AddReferences(done.footer, References(es));
      AddReferencesSpec(done.footer, References(es));
      forall x ensures Footnote(prefix, tracker, gs, x) <==>
                       Footnote(prefix, tracker, init, x) || Some(x) in References(es) {
        FootnoteStep(prefix, tracker, gs, x);
        EntriesFootnote(prefix, tracker, gs[n].fragments, x);
      }
    }
  }

  /** A footnote of the groups is one of the earlier groups or of the last. */
  lemma FootnoteStep(prefix: string, tracker: Option<string>, gs: seq<Group>, x: string)
    requires gs != []
    ensures Footnote(prefix, tracker, gs, x) <==>
      Footnote(prefix, tracker, gs[..|gs| - 1], x) || GroupFootnote(prefix, tracker, gs[|gs| - 1].fragments, x)
  {
    var n := |gs| - 1;
    assert forall i :: 0 <= i < n ==> gs[..n][i] == gs[i];
  }

  /** The references of a list's entries are its fragments' footnotes. */
  lemma EntriesFootnote(prefix: string, tracker: Option<string>, frs: seq<Fragment>, x: string)
    requires RenderEntries(prefix, tracker, frs).Ok?
    ensures Some(x) in References(RenderEntries(prefix, tracker, frs).value) <==> GroupFootnote(prefix, tracker, frs, x)
  {
    var es := RenderEntries(prefix, tracker, frs).value;
    RenderEntriesSpec(prefix, tracker, frs);
    if GroupFootnote(prefix, tracker, frs, x) {
      var k :| 0 <= k < |frs| && RenderEntry(prefix, tracker, frs[k]).Ok?
               && RenderEntry(prefix, tracker, frs[k]).value.reference == Some(x);
      assert References(es)[k] == Some(x);
    }
  }

  /** Rendering the groups fails only on a tracker template that cannot
      take an issue number, or on a group whose type has no title. */
  lemma {:induction false} RenderGroupsError(prefix: string, tracker: Option<string>, titles: Dict, gs: seq<Group>)
    requires RenderGroups(prefix, tracker, titles, gs).Err?
    ensures var e := RenderGroups(prefix, tracker, titles, gs).error;
      || (tracker.Some? && e == FormatError(tracker.value))
      || (e.MissingTitle? && e.changeType !in Keys(titles) && e.changeType in Types(gs))
  {
    var init := gs[..|gs| - 1];
    var g := gs[|gs| - 1];
    if RenderGroups(prefix, tracker, titles, init).Err? {
      RenderGroupsError(prefix, tracker, titles, init);
      assert forall i :: 0 <= i < |init| ==> init[i] == gs[i];
    } else if Get(titles, g.changeType).None? {
      FindInKeys(titles, g.changeType);
      assert Types(gs)[|gs| - 1] == g.changeType;
    } else {
      RenderEntriesError(prefix, tracker, g.fragments);
    }
  }

  /** One more group whose title is configured and whose entries render:
      its section and footnotes are added. */
  lemma RenderGroupsAdd(prefix: string, tracker: Option<string>, titles: Dict, gs: seq<Group>, j: nat,
                        title: string, es: seq<Entry>)
    requires j < |gs| && RenderGroups(prefix, tracker, titles, gs[..j]).Ok?
    requires Get(titles, gs[j].changeType) == Some(title)
    requires RenderEntries(prefix, tracker, gs[j].fragments) == Ok(es)
    ensures var done := RenderGroups(prefix, tracker, titles, gs[..j]).value;
      RenderGroups(prefix, tracker, titles, gs[..j + 1])
        == Ok(Rendered(done.sections + [Section(title, Chunks(es))], AddReferences(done.footer, References(es))))
  {
    var upto := gs[..j + 1];
    assert upto[..|upto| - 1] == gs[..j] && upto[|upto| - 1] == gs[j];
  }

  /** One more group whose title is missing, or whose entries fail, stops
      the rendering of the whole list with that error. */
  lemma RenderGroupsFail(prefix: string, tracker: Option<string>, titles: Dict, gs: seq<Group>, j: nat, e: Error)
    requires j < |gs| && RenderGroups(prefix, tracker, titles, gs[..j]).Ok?
    requires || (Get(titles, gs[j].changeType).None? && e == MissingTitle(gs[j].changeType))
             || (Get(titles, gs[j].changeType).Some? && RenderEntries(prefix, tracker, gs[j].fragments) == Err(e))
    ensures RenderGroups(prefix, tracker, titles, gs) == Err(e)
  {
    assert gs[..j + 1][..j] == gs[..j];
    assert RenderGroups(prefix, tracker, titles, gs[..j + 1]) == Err(e);
    RenderGroupsStops(prefix, tracker, titles, gs, j + 1);
  }

  /** Once a prefix of the groups fails, the whole list fails with the same
      error. */
  lemma {:induction false} RenderGroupsStops(prefix: string, tracker: Option<string>, titles: Dict, gs: seq<Group>, k: nat)
    requires k <= |gs| && RenderGroups(prefix, tracker, titles, gs[..k]).Err?
    ensures RenderGroups(prefix, tracker, titles, gs) == RenderGroups(prefix, tracker, titles, gs[..k])
    decreases |gs|
  {
    if k < |gs| {
      var init := gs[..|gs| - 1];
      assert init[..k] == gs[..k];
      RenderGroupsStops(prefix, tracker, titles, init, k);
    } else {
      assert gs[..k] == gs;
    }
  }

  /** The section printed for group g: the heading of the group's configured
      title, then the bullets of its fragments separated by blank lines. */
  ghost predicate SectionOf(prefix: string, tracker: Option<string>, titles: Dict, g: Group, section: string)
  {
    && Get(titles, g.changeType).Some?
    && RenderEntries(prefix, tracker, g.fragments).Ok?
    && section == Heading(Get(titles, g.changeType).value, '-') + "\n"
                  + Join(Chunks(RenderEntries(prefix, tracker, g.fragments).value), "\n\n")
  }

  /** Every section is the heading of its group's configured title followed
      by the bullets of the group's fragments. */
  lemma {:induction false} RenderGroupsSpec(prefix: string, tracker: Option<string>, titles: Dict, gs: seq<Group>)
    requires RenderGroups(prefix, tracker, titles, gs).Ok?
    ensures forall i :: 0 <= i < |gs| ==>
      SectionOf(prefix, tracker, titles, gs[i], RenderGroups(prefix, tracker, titles, gs).value.sections[i])
  {
    if gs != [] {
      var n := |gs| - 1;
      var init := gs[..n];
      RenderGroupsSpec(prefix, tracker, titles, init);
      var before := RenderGroups(prefix, tracker, titles, init).value.sections;
      var sections := RenderGroups(prefix, tracker, titles, gs).value.sections;
      RenderGroupsLast(prefix, tracker, titles, gs);
      forall i | 0 <= i < |gs| ensures SectionOf(prefix, tracker, titles, gs[i], sections[i]) {
        if i < n {
          SectionKept(prefix, tracker, titles, init[i], gs[i], before[i], sections[i]);
        } else {
          SectionKept(prefix, tracker, titles, gs[n], gs[i], sections[n], sections[i]);
        }
      }
    }
  }

  lemma SectionKept(prefix: string, tracker: Option<string>, titles: Dict, g: Group, h: Group, s1: string, s2: string)
    requires SectionOf(prefix, tracker, titles, g, s1) && g == h && s1 == s2
    ensures SectionOf(prefix, tracker, titles, h, s2)
  {
  }

  /** The sections of a list of groups are those of all but the last, then
      the last group's section. */
  lemma RenderGroupsLast(prefix: string, tracker: Option<string>, titles: Dict, gs: seq<Group>)
    requires gs != [] && RenderGroups(prefix, tracker, titles, gs).Ok?
    ensures var n := |gs| - 1;
      && RenderGroups(prefix, tracker, titles, gs[..n]).Ok?
      && RenderGroups(prefix, tracker, titles, gs).value.sections
           == RenderGroups(prefix, tracker, titles, gs[..n]).value.sections + [RenderGroups(prefix, tracker, titles, gs).value.sections[n]]
      && SectionOf(prefix, tracker, titles, gs[n], RenderGroups(prefix, tracker, titles, gs).value.sections[n])
  {
    var n := |gs| - 1;
    var title := Get(titles, gs[n].changeType).value;
    var es := RenderEntries(prefix, tracker, gs[n].fragments).value;
    var done := RenderGroups(prefix, tracker, titles, gs[..n]).value;
    var sections := RenderGroups(prefix, tracker, titles, gs).value.sections;
    assert sections == done.sections + [Section(title, Chunks(es))];
    assert sections[n] == Section(title, Chunks(es));
  }

  // ---------------------------------------------------------------- document

  /** `('\n\n'.join(content) + '\n\n' + '\n'.join(sorted(footer))).strip()`
      with `content` the title block followed by the sections. */
  function Document(title: string, sections: seq<string>, footer: seq<string>): (doc: string)
    ensures Stripped(doc)
  {
    Strip(Join([title] + sections, "\n\n") + "\n\n" + Join(SortStrings(footer), "\n"))
  }

  /** The footnotes are printed in sorted order, each once. */
  lemma FooterOrder(footer: seq<string>)
    requires Distinct(footer)
    ensures forall i, j :: 0 <= i < j < |SortStrings(footer)| ==>
      LexLe(SortStrings(footer)[i], SortStrings(footer)[j]) && SortStrings(footer)[i] != SortStrings(footer)[j]
    ensures forall x :: x in SortStrings(footer) <==> x in footer
  {
    var sorted := SortStrings(footer);
    DistinctPermutation(footer, sorted);
    assert forall x :: x in sorted <==> x in multiset(footer);
  }

  /** The printed document is the title, the sections and the sorted
      footnotes, separated as `run` joins them, with only the trailing
      whitespace stripped: nothing inside is touched. */
  lemma DocumentLayout(title: string, sections: seq<string>, footer: seq<string>)
    requires title != [] && !IsSpace(title[0])
    ensures var full := Join([title] + sections, "\n\n") + "\n\n" + Join(SortStrings(footer), "\n");
      var doc := Document(title, sections, footer);
      0 < |doc| <= |full| && doc == full[..|doc|] && AllSpace(full[|doc|..])
  {
    var body := Join([title] + sections, "\n\n");
    var full := body + "\n\n" + Join(SortStrings(footer), "\n");
    JoinEnds([title] + sections, "\n\n");
    assert full[0] == body[0] == title[0];
    StripOpen(full);
  }

  /** When every footnote ends with a non-blank character, the document is
      exactly the joined parts, the sorted footnotes last. */
  lemma DocumentWhole(title: string, sections: seq<string>, footer: seq<string>)
    requires title != [] && !IsSpace(title[0])
    requires footer != [] && forall x :: x in footer ==> x != [] && !IsSpace(x[|x| - 1])
    ensures Document(title, sections, footer)
      == Join([title] + sections, "\n\n") + "\n\n" + Join(SortStrings(footer), "\n")
  {
    FooterBlockCloses(footer);
    var block := Join(SortStrings(footer), "\n");
    var full := Join([title] + sections, "\n\n") + "\n\n" + block;
    assert full[|full| - 1] == block[|block| - 1];
    DocumentLayout(title, sections, footer);
    TrimmedWhole(Document(title, sections, footer), full);
  }

  /** The printed footnote block closes with a non-blank character when
      every footnote does. */
  lemma FooterBlockCloses(footer: seq<string>)
    requires footer != [] && forall x :: x in footer ==> x != [] && !IsSpace(x[|x| - 1])
    ensures var b := Join(SortStrings(footer), "\n"); b != [] && !IsSpace(b[|b| - 1])
  {
    var last := SortedLast(footer);
    JoinClosesWith(SortStrings(footer), "\n", last);
  }

  /** The last of the sorted footnotes is one of the footnotes. */
  lemma SortedLast(footer: seq<string>) returns (last: string)
    requires footer != []
    ensures SortStrings(footer) != [] && last == SortStrings(footer)[|SortStrings(footer)| - 1]
    ensures last in footer
  {
    var notes := SortStrings(footer);
    assert |notes| == |multiset(notes)| == |multiset(footer)| == |footer|;
    last := notes[|notes| - 1];
    assert last in multiset(notes);
  }

  /** A title that neither starts nor ends with whitespace opens the printed
      document unchanged. */
  lemma DocumentOpensWithTitle(title: string, sections: seq<string>, footer: seq<string>)
    requires title != [] && !IsSpace(title[0]) && !IsSpace(title[|title| - 1])
    ensures |title| <= |Document(title, sections, footer)|
    ensures Document(title, sections, footer)[..|title|] == title
  {
    var body, notes := Join([title] + sections, "\n\n"), Join(SortStrings(footer), "\n");
    var tail := if sections == [] then [] else "\n\n" + Join(sections, "\n\n");
    JoinHead(title, sections, "\n\n");
    ConcatHead(body, title, tail, "\n\n", notes);
    StripKeepsHead(title, tail + ("\n\n" + notes));
  }
}

/** The `changelog` setup command: its options, their finalisation, and the
    run that builds the text of the next release's changelog from the
    fragments directory. The directory listing, the file contents, the
    project version and today's date are parameters; the printed text is
    the result. */
module Changelog {
  import opened Failures
  import opened PyStr
  import opened Sorting
  import opened Dicts
  import opened SemVer
  import opened Fragments
  import opened Grouping
  import opened Render
  import opened Options

  // ---------------------------------------------------------------- options

  /** The command's option attributes; `all` is `all_changes_types`. */
  datatype Configuration = Configuration(
    fragmentsPath: Option<string>,
    issuePrefix: string,
    issueTracker: Option<string>,
    major: ChangesTypes,
    minor: ChangesTypes,
    patch: ChangesTypes,
    all: Option<Dict>)

  /** What `finalize_options` leaves behind when it completes: a path and
      three parsed buckets with their union. */
  predicate Finalized(c: Configuration)
  {
    c.fragmentsPath.Some? && c.major.Mapping? && c.minor.Mapping? && c.patch.Mapping? && c.all.Some?
  }

  ghost predicate WellFormedConfiguration(c: Configuration)
  {
    WellFormed(c.major) && WellFormed(c.minor) && WellFormed(c.patch)
    && (c.all.Some? ==> UniqueKeys(c.all.value))
  }

  /** `finalize_options`: the path must be set; each bucket in turn is
      replaced by its parsed form, so a failure leaves the earlier buckets
      parsed and the later ones as they were; the union is stored only once
      the buckets pass the check. */
  function Finalize(c: Configuration): (r: (Configuration, Option<Error>))
    ensures r.0.fragmentsPath == c.fragmentsPath && r.0.issuePrefix == c.issuePrefix
    ensures r.0.issueTracker == c.issueTracker
    ensures c.fragmentsPath.None? ==> r == (c, Some(MissingFragmentsPath))
    ensures r.1.None? <==>
      && c.fragmentsPath.Some?
      && ParsedChangesTypes(c.major).Ok? && ParsedChangesTypes(c.minor).Ok? && ParsedChangesTypes(c.patch).Ok?
      && MergeChangesTypes(ParsedChangesTypes(c.major).value, ParsedChangesTypes(c.minor).value,
                           ParsedChangesTypes(c.patch).value).Ok?
    ensures r.1.None? ==> Finalized(r.0)
    ensures r.1.None? ==> MergeChangesTypes(r.0.major.dict, r.0.minor.dict, r.0.patch.dict) == Ok(r.0.all.value)
    ensures r.1.Some? ==> r.0.all == c.all
    ensures WellFormedConfiguration(c) ==> WellFormedConfiguration(r.0)
    // Bucket by bucket: a bucket that parses is stored parsed, and the
    // first one that fails gives the error and leaves the later ones as
    // they were.
    ensures c.fragmentsPath.Some? ==>
      var m := ParsedChangesTypes(c.major);
      && (m.Err? ==> r == (c, Some(m.error)))
      && (m.Ok? ==> r.0.major == Mapping(m.value))
    ensures c.fragmentsPath.Some? && ParsedChangesTypes(c.major).Ok? ==>
      var n := ParsedChangesTypes(c.minor);
      && (n.Err? ==> r.1 == Some(n.error) && r.0.minor == c.minor && r.0.patch == c.patch)
      && (n.Ok? ==> r.0.minor == Mapping(n.value))
    ensures c.fragmentsPath.Some? && ParsedChangesTypes(c.major).Ok? && ParsedChangesTypes(c.minor).Ok? ==>
      var p := ParsedChangesTypes(c.patch);
      && (p.Err? ==> r.1 == Some(p.error) && r.0.patch == c.patch)
      && (p.Ok? ==> r.0.patch == Mapping(p.value))
    // Once all three parse, only a patch bucket without a minor one fails.
    ensures c.fragmentsPath.Some? && ParsedChangesTypes(c.major).Ok? && ParsedChangesTypes(c.minor).Ok?
            && ParsedChangesTypes(c.patch).Ok? ==>
      (r.1.Some? <==> ParsedChangesTypes(c.patch).value != [] && ParsedChangesTypes(c.minor).value == [])
      && (r.1.Some? ==> r.1.value == OptionError(PatchWithoutMinor))
  {
    if c.fragmentsPath.None? then (c, Some(MissingFragmentsPath))
    else
      match ParsedChangesTypes(c.major)
      case Err(e) => (c, Some(e))
      case Ok(major) =>
        var c1 := c.(major := Mapping(major));
        match ParsedChangesTypes(c.minor)
        case Err(e) => (c1, Some(e))
        case Ok(minor) =>
          var c2 := c1.(minor := Mapping(minor));
          match ParsedChangesTypes(c.patch)
          case Err(e) => (c2, Some(e))
          case Ok(patch) =>
            var c3 := c2.(patch := Mapping(patch));
            match MergeChangesTypes(major, minor, patch)
            case Err(e) => (c3, Some(e))
            case Ok(all) => (c3.(all := Some(all)), None)
  }

  /** Finalising twice changes nothing the second time. */
  lemma FinalizeIdempotent(c: Configuration)
    requires Finalize(c).1.None?
    ensures Finalize(Finalize(c).0) == Finalize(c)
  {
  }

  /** The options `run` works with, once finalised. */
  datatype Settings = Settings(
    fragmentsPath: string,
    issuePrefix: string,
    issueTracker: Option<string>,
    major: Dict,
    minor: Dict,
    patch: Dict,
    all: Dict)

  function SettingsOf(c: Configuration): Settings
    requires Finalized(c)
  {
    Settings(c.fragmentsPath.value, c.issuePrefix, c.issueTracker,
             c.major.dict, c.minor.dict, c.patch.dict, c.all.value)
  }

  /** `list(chain(major, minor, patch))`: the known types in priority
      order. */
  function ChangesTypesOrder(s: Settings): (order: seq<string>)
    ensures forall t :: t in order <==> t in Keys(s.major) || t in Keys(s.minor) || t in Keys(s.patch)
  {
    Keys(s.major) + Keys(s.minor) + Keys(s.patch)
  }

  /** After a successful finalisation every known type has a title, and it
      is the one of the last bucket that names the type. */
  lemma FinalizedTitles(c: Configuration, t: string)
    requires WellFormedConfiguration(c) && Finalize(c).1.None?
    ensures var s := SettingsOf(Finalize(c).0);
      && (t in ChangesTypesOrder(s) <==> t in Keys(s.all))
      && Get(s.all, t) ==
           if t in Keys(s.patch) then Get(s.patch, t)
           else if t in Keys(s.minor) then Get(s.minor, t)
           else Get(s.major, t)
  {
    var f := Finalize(c).0;
    MergeLookup(f.major.dict, f.minor.dict, f.patch.dict, t);
  }

  // ---------------------------------------------------------------- run

  /** The fragment paths: the sorted listing's `.rst` entries joined to
      the fragments directory. */
  function FragmentPaths(s: Settings, listing: seq<string>): seq<string>
  {
    RstPaths(s.fragmentsPath, SortStrings(listing))
  }

  /** The bump the first group's type calls for: its bucket, looked up in
      the order major, minor, patch. */
  function BumpLevel(s: Settings, t: string): (r: Option<Level>)
    ensures r == Some(Major) <==> t in Keys(s.major)
    ensures r == Some(Minor) <==> t !in Keys(s.major) && t in Keys(s.minor)
    ensures r == Some(Patch) <==> t !in Keys(s.major) && t !in Keys(s.minor) && t in Keys(s.patch)
    ensures r.None? <==> t !in ChangesTypesOrder(s)
  {
    if t in Keys(s.major) then Some(Major)
    else if t in Keys(s.minor) then Some(Minor)
    else if t in Keys(s.patch) then Some(Patch)
    else None
  }

  /** The bump the fragments call for, stated over all of them: major if
      any fragment has a major type, else minor if any has a minor type,
      else patch. */
  function HighestLevel(s: Settings, frs: seq<Fragment>): Level
  {
    if AnyOfType(frs, Keys(s.major)) then Major
    else if AnyOfType(frs, Keys(s.minor)) then Minor
    else Patch
  }

  /** Some fragment has one of the given types. */
  predicate AnyOfType(frs: seq<Fragment>, types: seq<string>)
  {
    exists k :: 0 <= k < |frs| && frs[k].changeType in types
  }

  /** The text `run` prints, or the exception that stops it. */
  function NewChanges(s: Settings, listing: seq<string>, files: Files,
                      version: string, today: string): (r: Result<string>)
    ensures r.Ok? ==> Stripped(r.value)
  {
    ChangesOf(s, FragmentPaths(s, listing), files, version, today)
  }

  /** `run` from the fragment paths on: load the fragments, parse the
      version, group, bump, render. */
  function ChangesOf(s: Settings, paths: seq<string>, files: Files,
                     version: string, today: string): (r: Result<string>)
    ensures r.Ok? ==> Stripped(r.value)
  {
    var frs :- LoadFragments(paths, files);
    var current :- ParseVersion(version);
    var gs :- GroupByType(frs, ChangesTypesOrder(s));
    Release(s, current, gs, today)
  }

  /** `run` from the groups on: the bump loop, the title, the sections and
      the footer. */
  function Release(s: Settings, current: Version, gs: seq<Group>, today: string): (r: Result<string>)
    ensures r.Ok? ==> Stripped(r.value)
  {
    if gs == [] then Err(MissingNextVersion)
    else
      match BumpLevel(s, gs[0].changeType)
      case None => Err(MissingNextVersion)
      case Some(level) =>
        var title := Heading(TitleText(Bump(current, level), today), '=');
        var done :- RenderGroups(s.issuePrefix, s.issueTracker, s.all, gs);
        Ok(Document(title, done.sections, done.footer))
  }

  // ---------------------------------------------------------------- the command

  /** The command object: its option attributes, set from setup.cfg, then
      finalised in place. */
  class ChangeLog {
    var fragmentsPath: Option<string>
    var issuePrefix: string
    var issueTracker: Option<string>
    var majorChangesTypes: ChangesTypes
    var minorChangesTypes: ChangesTypes
    var patchChangesTypes: ChangesTypes
    var allChangesTypes: Option<Dict>

    function Snapshot(): Configuration
      reads this
    {
      Configuration(fragmentsPath, issuePrefix, issueTracker,
                    majorChangesTypes, minorChangesTypes, patchChangesTypes, allChangesTypes)
    }

    /** The command with its options as setup.cfg sets them;
        `all_changes_types` starts unset. */
    constructor (fragmentsPath: Option<string>, issuePrefix: string, issueTracker: Option<string>,
                 major: ChangesTypes, minor: ChangesTypes, patch: ChangesTypes)
      ensures Snapshot() == Configuration(fragmentsPath, issuePrefix, issueTracker, major, minor, patch, None)
    {
      this.fragmentsPath := fragmentsPath;
      this.issuePrefix := issuePrefix;
      this.issueTracker := issueTracker;
      majorChangesTypes := major;
      minorChangesTypes := minor;
      patchChangesTypes := patch;
      allChangesTypes := None;
    }

    /** `_parse_changes_types`. */
    static method ParseChangesTypes(changesTypes: ChangesTypes) returns (r: Result<Dict>)
      ensures r == ParsedChangesTypes(changesTypes)
    {
      match changesTypes
      case Unset =>
        return Err(UnsetOption);
      case Mapping(d) =>
        return Ok(d);
      case Text(text) =>
        var stripped := Strip(text);
        if stripped == [] {
          return Ok([]);
        }
        var acc := CollectPairs(SplitLines(stripped));
        if acc.Err? {
          return Err(acc.error);
        }
        return Ok(Update([], acc.value));
    }

    /** The loop of `_parse_changes_types`: one pair appended to `acc` per
        line, the first line without `=` raising. */
    static method CollectPairs(lines: seq<string>) returns (r: Result<seq<(string, string)>>)
      ensures r == PairsOf(lines)
    {
      var acc: seq<(string, string)> := [];
      var i := 0;
      while i < |lines|
        invariant 0 <= i <= |lines|
        invariant PairsOf(lines[..i]) == Ok(acc)
      {
        var line := lines[i];
        var parts := SplitOnce(line, '=');
        if parts.None? {
          PairsOfFail(lines, i);
          return Err(NotEnoughValues(line));
        }
        var pair := (Strip(parts.value.0), Strip(parts.value.1));
        PairsOfAdd(lines, i, pair);
        acc := acc + [pair];
        i := i + 1;
      }
      assert lines[..i] == lines;
      return Ok(acc);
    }

    /** `finalize_options`. */
    method FinalizeOptions() returns (err: Option<Error>)
      modifies this
      ensures (Snapshot(), err) == Finalize(old(Snapshot()))
    {
      if fragmentsPath.None? {
        return Some(MissingFragmentsPath);
      }
      var major, minor, patch;
      err, major, minor, patch := ParseBuckets();
      if err.Some? {
        return;
      }
      if patch != [] && minor == [] {
        return Some(OptionError(PatchWithoutMinor));
      }
      var all: Dict := [];
      all := Update(all, major);
      all := Update(all, minor);
      all := Update(all, patch);
      allChangesTypes := Some(all);
      return None;
    }

    /** The three assignments of `finalize_options` that parse the buckets
        in turn; the first failure stops them. */
    method ParseBuckets() returns (err: Option<Error>, major: Dict, minor: Dict, patch: Dict)
      requires fragmentsPath.Some?
      modifies this
      ensures err.Some? ==> (Snapshot(), err) == Finalize(old(Snapshot()))
      ensures err.None? ==>
        && ParsedChangesTypes(old(majorChangesTypes)) == Ok(major)
        && ParsedChangesTypes(old(minorChangesTypes)) == Ok(minor)
        && ParsedChangesTypes(old(patchChangesTypes)) == Ok(patch)
        && Snapshot() == old(Snapshot()).(major := Mapping(major), minor := Mapping(minor), patch := Mapping(patch))
    {
      var parsed := ParseChangesTypes(majorChangesTypes);
      if parsed.Err? {
        return Some(parsed.error), [], [], [];
      }
      major := parsed.value;
      majorChangesTypes := Mapping(major);
      parsed := ParseChangesTypes(minorChangesTypes);
      if parsed.Err? {
        return Some(parsed.error), major, [], [];
      }
      minor := parsed.value;
      minorChangesTypes := Mapping(minor);
      parsed := ParseChangesTypes(patchChangesTypes);
      if parsed.Err? {
        return Some(parsed.error), major, minor, [];
      }
      patch := parsed.value;
      patchChangesTypes := Mapping(patch);
      return None, major, minor, patch;
    }

    /** `run`. */
    method Run(listing: seq<string>, files: Files, version: string, today: string)
      returns (r: Result<string>)
      requires Finalized(Snapshot())
      ensures r == NewChanges(SettingsOf(Snapshot()), listing, files, version, today)
    {
      var s := SettingsOf(Snapshot());
      var loaded := LoadFragments(FragmentPaths(s, listing), files);
      if loaded.Err? {
        return Err(loaded.error);
      }
      var current := ParseVersion(version);
      if current.Err? {
        return Err(current.error);
      }
      var grouped := GroupByType(loaded.value, ChangesTypesOrder(s));
      if grouped.Err? {
        return Err(grouped.error);
      }
      var nextVersion := NextVersion(s, current.value, grouped.value);
      if nextVersion.None? {
        return Err(MissingNextVersion);
      }
      var title := TitleText(nextVersion.value, today);
      title := title + "\n" + Repeat('=', |title|);
      var content := [title];
      var rendered := RenderSections(s.issuePrefix, s.issueTracker, s.all, grouped.value);
      if rendered.Err? {
        return Err(rendered.error);
      }
      content := content + rendered.value.sections;
      var newChanges := Join(content, "\n\n");
      newChanges := newChanges + "\n\n" + Join(SortStrings(rendered.value.footer), "\n");
      return Ok(Strip(newChanges));
    }
  }

  /** The bump loop of `run`: the first group's type picks the bump and
      the loop stops; no group, no next version. */
  method NextVersion(s: Settings, current: Version, groups: seq<Group>) returns (next: Option<Version>)
    ensures groups == [] ==> next.None?
    ensures groups != [] ==> next == match BumpLevel(s, groups[0].changeType)
                                     case None => None
                                     case Some(level) => Some(Bump(current, level))
  {
    next := None;
    var i := 0;
    var stop := false;
    while i < |groups| && !stop
      invariant 0 <= i <= 1 && i <= |groups| && (stop <==> i == 1)
      invariant i == 0 ==> next.None?
      invariant i == 1 ==> next == match BumpLevel(s, groups[0].changeType)
                                   case None => None
                                   case Some(level) => Some(Bump(current, level))
    {
      var chtype := groups[i].changeType;
      if chtype in Keys(s.major) {
        next := Some(Bump(current, Major));
      } else if chtype in Keys(s.minor) {
        next := Some(Bump(current, Minor));
      } else if chtype in Keys(s.patch) {
        next := Some(Bump(current, Patch));
      }
      stop := true;
      i := i + 1;
    }
  }

  /** The group loop of `run`: a section per group under its title, and
      each group's new footnotes appended to the footer. */
  method RenderSections(prefix: string, tracker: Option<string>, titles: Dict, groups: seq<Group>)
    returns (r: Result<Rendered>)
    ensures r == RenderGroups(prefix, tracker, titles, groups)
  {
    var sections: seq<string> := [];
    var footer: seq<string> := [];
    var j := 0;
    while j < |groups|
      invariant 0 <= j <= |groups|
      invariant RenderGroups(prefix, tracker, titles, groups[..j]) == Ok(Rendered(sections, footer))
    {
      var next := RenderGroupAt(prefix, tracker, titles, groups, j, sections, footer);
      if next.Err? {
        return next;
      }
      sections, footer := next.value.sections, next.value.footer;
      j := j + 1;
    }
    assert groups[..j] == groups;
    return Ok(Rendered(sections, footer));
  }

  /** One pass of the group loop: the section of group j under its title,
      and its new footnotes appended to the footer; a missing title or a
      failing entry ends the whole rendering with that error. */
  method RenderGroupAt(prefix: string, tracker: Option<string>, titles: Dict, groups: seq<Group>, j: nat,
                       sections: seq<string>, footer: seq<string>)
    returns (r: Result<Rendered>)
    requires j < |groups| && RenderGroups(prefix, tracker, titles, groups[..j]) == Ok(Rendered(sections, footer))
    ensures r.Err? ==> r == RenderGroups(prefix, tracker, titles, groups)
    ensures r.Ok? ==> r == RenderGroups(prefix, tracker, titles, groups[..j + 1])
  {
    var group := groups[j];
    var headerTitle := Get(titles, group.changeType);
    if headerTitle.None? {
      RenderGroupsFail(prefix, tracker, titles, groups, j, MissingTitle(group.changeType));
      return Err(MissingTitle(group.changeType));
    }
    var entries := RenderFragments(prefix, tracker, group.fragments);
    if entries.Err? {
      RenderGroupsFail(prefix, tracker, titles, groups, j, entries.error);
      return Err(entries.error);
    }
    var title, chunks, references := headerTitle.value, entries.value.0, entries.value.1;
    RenderGroupsNext(prefix, tracker, titles, groups, j, title, sections, footer);
    var more := AppendReferences(footer, references);
    return Ok(Rendered(sections + [Section(title, chunks)], more));
  }

  /** One group rendered without error extends the sections and the footer
      of the groups before it. */
  lemma RenderGroupsNext(prefix: string, tracker: Option<string>, titles: Dict, gs: seq<Group>, j: nat,
                         title: string, sections: seq<string>, footer: seq<string>)
    requires j < |gs| && RenderGroups(prefix, tracker, titles, gs[..j]) == Ok(Rendered(sections, footer))
    requires Get(titles, gs[j].changeType) == Some(title)
    requires RenderEntries(prefix, tracker, gs[j].fragments).Ok?
    ensures var es := RenderEntries(prefix, tracker, gs[j].fragments).value;
      RenderGroups(prefix, tracker, titles, gs[..j + 1])
        == Ok(Rendered(sections + [Section(title, Chunks(es))], AddReferences(footer, References(es))))
  {
    RenderGroupsAdd(prefix, tracker, titles, gs, j, title, RenderEntries(prefix, tracker, gs[j].fragments).value);
  }

  /** The fragment loop of `run`: a chunk and a reference per fragment. */
  method RenderFragments(prefix: string, tracker: Option<string>, frs: seq<Fragment>)
    returns (r: Result<(seq<string>, seq<Option<string>>)>)
    ensures r.Err? <==> RenderEntries(prefix, tracker, frs).Err?
    ensures r.Err? ==> r.error == RenderEntries(prefix, tracker, frs).error
    ensures r.Ok? ==> r.value == (Chunks(RenderEntries(prefix, tracker, frs).value),
                                  References(RenderEntries(prefix, tracker, frs).value))
  {
    var chunks: seq<string> := [];
    var references: seq<Option<string>> := [];
    ghost var es: seq<Entry> := [];
    var k := 0;
    while k < |frs|
      invariant 0 <= k <= |frs|
      invariant RenderEntries(prefix, tracker, frs[..k]) == Ok(es)
      invariant chunks == Chunks(es) && references == References(es)
    {
      var entry := RenderEntry(prefix, tracker, frs[k]);
      if entry.Err? {
        RenderEntriesFail(prefix, tracker, frs, k);
        return Err(entry.error);
      }
      var e := entry.value;
      RenderEntriesAdd(prefix, tracker, frs, k, e);
      EntriesAppend(es, e);
      chunks := chunks + [e.chunk];
      references := references + [e.reference];
      es := es + [e];
      k := k + 1;
    }
    assert frs[..k] == frs;
    return Ok((chunks, references));
  }

  /** The footer loop of `run`: each reference that is set and not yet in
      the footer is appended to it. */
  method AppendReferences(footer: seq<string>, references: seq<Option<string>>) returns (r: seq<string>)
    ensures r == AddReferences(footer, references)
  {
    r := footer;
    var m := 0;
    while m < |references|
      invariant 0 <= m <= |references|
      invariant r == AddReferences(footer, references[..m])
    {
      var reference := references[m];
      assert references[..m + 1][..m] == references[..m];
      if reference.Some? && reference.value !in r {
        r := r + [reference.value];
      }
      m := m + 1;
    }
    assert references[..m] == references;
  }

  // ---------------------------------------------------------------- properties of run

  /** `sorted(os.listdir(...))`: the order in which the directory lists its
      entries does not matter. */
  lemma ListingOrderIrrelevant(s: Settings, a: seq<string>, b: seq<string>, files: Files,
                               version: string, today: string)
    requires multiset(a) == multiset(b)
    ensures NewChanges(s, a, files, version, today) == NewChanges(s, b, files, version, today)
  {
    SortedUnique(SortStrings(a), SortStrings(b));
  }

  /** In a concatenation, a type comes from the first part exactly when
      its first position lies there. */
  lemma PositionSplit(a: seq<string>, b: seq<string>, t: string)
    requires t in a + b
    ensures t in a <==> Position(a + b, t) < |a|
  {
    var p := Position(a + b, t);
    if t in a {
      var q :| 0 <= q < |a| && a[q] == t;
      assert (a + b)[q] == t;
    }
    if p < |a| {
      assert (a + b)[p] == a[p];
    }
  }

  /** A known type's place in the priority order tells its bucket: the
      major keys come first, then the minor ones. */
  lemma OrderPosition(s: Settings, t: string)
    requires t in ChangesTypesOrder(s)
    ensures t in Keys(s.major) <==> Position(ChangesTypesOrder(s), t) < |Keys(s.major)|
    ensures t in Keys(s.major) || t in Keys(s.minor)
      <==> Position(ChangesTypesOrder(s), t) < |Keys(s.major)| + |Keys(s.minor)|
  {
    var km, kn, kp := Keys(s.major), Keys(s.minor), Keys(s.patch);
    assert ChangesTypesOrder(s) == km + (kn + kp);
    PositionSplit(km, kn + kp, t);
    PositionSplit(km + kn, kp, t);
  }

  /** The bump of a type that is a fragment's own and comes first in the
      priority order among all the fragments' types is the highest impact
      of the fragments. */
  lemma {:induction false} FirstTypeLevel(s: Settings, frs: seq<Fragment>, t0: string, k0: nat)
    requires k0 < |frs| && frs[k0].changeType == t0
    requires forall k :: 0 <= k < |frs| ==> frs[k].changeType in ChangesTypesOrder(s)
    requires forall k :: 0 <= k < |frs| ==>
      Position(ChangesTypesOrder(s), t0) <= Position(ChangesTypesOrder(s), frs[k].changeType)
    ensures BumpLevel(s, t0) == Some(HighestLevel(s, frs))
  {
    var level := BumpLevel(s, t0);
    assert t0 in ChangesTypesOrder(s) && level.Some?;
    if AnyOfType(frs, Keys(s.major)) {
      var k :| 0 <= k < |frs| && frs[k].changeType in Keys(s.major);
      EarlierBucket(s, t0, frs[k].changeType);
      assert level == Some(Major);
    } else if AnyOfType(frs, Keys(s.minor)) {
      var k :| 0 <= k < |frs| && frs[k].changeType in Keys(s.minor);
      EarlierBucket(s, t0, frs[k].changeType);
      assert t0 !in Keys(s.major);
      assert level == Some(Minor);
    } else {
      assert t0 !in Keys(s.major) && t0 !in Keys(s.minor);
      assert level == Some(Patch);
    }
  }

  /** A known type no later in the priority order than a major (minor) type
      is a major (major or minor) type itself. */
  lemma EarlierBucket(s: Settings, t0: string, t: string)
    requires t0 in ChangesTypesOrder(s) && t in ChangesTypesOrder(s)
    requires Position(ChangesTypesOrder(s), t0) <= Position(ChangesTypesOrder(s), t)
    ensures t in Keys(s.major) ==> t0 in Keys(s.major)
    ensures t in Keys(s.minor) ==> t0 in Keys(s.major) || t0 in Keys(s.minor)
  {
    OrderPosition(s, t0);
    OrderPosition(s, t);
  }

  /** The first group of a grouping in priority order has the highest
      impact of all fragments: the bump loop, which looks at it alone,
      applies the bump the whole set of fragments calls for. */
  lemma {:induction false} FirstGroupLevel(s: Settings, frs: seq<Fragment>, gs: seq<Group>)
    requires GroupsOf(ChangesTypesOrder(s), frs, gs) && gs != []
    ensures frs != []
    ensures BumpLevel(s, gs[0].changeType) == Some(HighestLevel(s, frs))
  {
    var order := ChangesTypesOrder(s);
    var t0 := gs[0].changeType;
    var f0 := gs[0].fragments[0];
    assert f0 in OfType(frs, t0);
    var k0 :| 0 <= k0 < |frs| && frs[k0] == f0;
    FirstGroupFirstType(order, frs, gs);
    FirstTypeLevel(s, frs, t0, k0);
  }

  /** The printed text opens with the title `"{version} ({today})"`
      underlined with `=`, where the version is the current one bumped once,
      by the highest impact among the fragments; there is at least one
      fragment. */
  lemma NewChangesTitle(s: Settings, listing: seq<string>, files: Files, version: string, today: string)
    requires NewChanges(s, listing, files, version, today).Ok?
    ensures LoadFragments(FragmentPaths(s, listing), files).Ok? && ParseVersion(version).Ok?
    ensures var frs := LoadFragments(FragmentPaths(s, listing), files).value;
      var title := Heading(TitleText(Bump(ParseVersion(version).value, HighestLevel(s, frs)), today), '=');
      var out := NewChanges(s, listing, files, version, today).value;
      frs != [] && |title| <= |out| && out[..|title|] == title
  {
    ChangesTitle(s, FragmentPaths(s, listing), files, version, today);
  }

  lemma ChangesTitle(s: Settings, paths: seq<string>, files: Files, version: string, today: string)
    requires ChangesOf(s, paths, files, version, today).Ok?
    ensures LoadFragments(paths, files).Ok? && ParseVersion(version).Ok?
    ensures var frs := LoadFragments(paths, files).value;
      var title := Heading(TitleText(Bump(ParseVersion(version).value, HighestLevel(s, frs)), today), '=');
      var out := ChangesOf(s, paths, files, version, today).value;
      frs != [] && |title| <= |out| && out[..|title|] == title
  {
    var frs := LoadFragments(paths, files).value;
    var current := ParseVersion(version).value;
    var order := ChangesTypesOrder(s);
    var gs := GroupByType(frs, order).value;
    assert ChangesOf(s, paths, files, version, today) == Release(s, current, gs, today);
    ReleaseTitle(s, current, gs, today);
    GroupByTypeGroups(frs, order);
    FirstGroupLevel(s, frs, gs);
  }

  /** The release text opens with the title of the version bumped by the
      first group's type. */
  lemma ReleaseTitle(s: Settings, current: Version, gs: seq<Group>, today: string)
    requires Release(s, current, gs, today).Ok?
    ensures gs != [] && BumpLevel(s, gs[0].changeType).Some?
    ensures var title := Heading(TitleText(Bump(current, BumpLevel(s, gs[0].changeType).value), today), '=');
      var out := Release(s, current, gs, today).value;
      |title| <= |out| && out[..|title|] == title
  {
    var v := Bump(current, BumpLevel(s, gs[0].changeType).value);
    var title := Heading(TitleText(v, today), '=');
    var done := RenderGroups(s.issuePrefix, s.issueTracker, s.all, gs).value;
    assert Release(s, current, gs, today) == Ok(Document(title, done.sections, done.footer));
    TitleHeadingEnds(v, today);
    DocumentOpensWithTitle(title, done.sections, done.footer);
  }

  /** The release text is the title, then each group's section in group
      order, then the sorted footnotes, with only trailing whitespace
      stripped. */
  lemma ReleaseLayout(s: Settings, current: Version, gs: seq<Group>, today: string)
    requires Release(s, current, gs, today).Ok?
    ensures gs != [] && BumpLevel(s, gs[0].changeType).Some?
    ensures RenderGroups(s.issuePrefix, s.issueTracker, s.all, gs).Ok?
    ensures var title := Heading(TitleText(Bump(current, BumpLevel(s, gs[0].changeType).value), today), '=');
      var done := RenderGroups(s.issuePrefix, s.issueTracker, s.all, gs).value;
      var full := Join([title] + done.sections, "\n\n") + "\n\n" + Join(SortStrings(done.footer), "\n");
      var out := Release(s, current, gs, today).value;
      |out| <= |full| && out == full[..|out|] && AllSpace(full[|out|..])
  {
    var v := Bump(current, BumpLevel(s, gs[0].changeType).value);
    var title := Heading(TitleText(v, today), '=');
    var done := RenderGroups(s.issuePrefix, s.issueTracker, s.all, gs).value;
    assert Release(s, current, gs, today) == Ok(Document(title, done.sections, done.footer));
    TitleHeadingEnds(v, today);
    DocumentLayout(title, done.sections, done.footer);
  }

  /** What the release text is made of: section i renders group i, and the
      footnote block holds each footnote of the fragments exactly once, in
      strictly increasing order. */
  lemma ReleaseParts(s: Settings, current: Version, gs: seq<Group>, today: string)
    requires Release(s, current, gs, today).Ok?
    ensures RenderGroups(s.issuePrefix, s.issueTracker, s.all, gs).Ok?
    ensures var done := RenderGroups(s.issuePrefix, s.issueTracker, s.all, gs).value;
      forall i :: 0 <= i < |gs| ==> SectionOf(s.issuePrefix, s.issueTracker, s.all, gs[i], done.sections[i])
    ensures var notes := SortStrings(RenderGroups(s.issuePrefix, s.issueTracker, s.all, gs).value.footer);
      && (forall i, j :: 0 <= i < j < |notes| ==> LexLe(notes[i], notes[j]) && notes[i] != notes[j])
      && (forall x :: x in notes <==> Footnote(s.issuePrefix, s.issueTracker, gs, x))
  {
    ReleaseTitle(s, current, gs, today);
    var footer := RenderGroups(s.issuePrefix, s.issueTracker, s.all, gs).value.footer;
    RenderGroupsSpec(s.issuePrefix, s.issueTracker, s.all, gs);
    RenderGroupsFooter(s.issuePrefix, s.issueTracker, s.all, gs);
    RenderGroupsFooterContents(s.issuePrefix, s.issueTracker, s.all, gs);
    FooterOrder(footer);
  }

  /** A successful run is the release of the loaded fragments' groups, from
      the parsed current version. */
  lemma NewChangesRelease(s: Settings, listing: seq<string>, files: Files, version: string, today: string)
    requires NewChanges(s, listing, files, version, today).Ok?
    ensures LoadFragments(FragmentPaths(s, listing), files).Ok? && ParseVersion(version).Ok?
    ensures GroupByType(LoadFragments(FragmentPaths(s, listing), files).value, ChangesTypesOrder(s)).Ok?
    ensures var frs := LoadFragments(FragmentPaths(s, listing), files).value;
      var gs := GroupByType(frs, ChangesTypesOrder(s)).value;
      && GroupsOf(ChangesTypesOrder(s), frs, gs)
      && NewChanges(s, listing, files, version, today) == Release(s, ParseVersion(version).value, gs, today)
  {
    ChangesOfRelease(s, FragmentPaths(s, listing), files, version, today);
  }

  /** The same, from the fragment paths on. */
  lemma ChangesOfRelease(s: Settings, paths: seq<string>, files: Files, version: string, today: string)
    requires ChangesOf(s, paths, files, version, today).Ok?
    ensures LoadFragments(paths, files).Ok? && ParseVersion(version).Ok?
    ensures GroupByType(LoadFragments(paths, files).value, ChangesTypesOrder(s)).Ok?
    ensures var frs := LoadFragments(paths, files).value;
      var gs := GroupByType(frs, ChangesTypesOrder(s)).value;
      && GroupsOf(ChangesTypesOrder(s), frs, gs)
      && ChangesOf(s, paths, files, version, today) == Release(s, ParseVersion(version).value, gs, today)
  {
    var frs := LoadFragments(paths, files).value;
    GroupByTypeGroups(frs, ChangesTypesOrder(s));
  }

  /** Without any `.rst` entry there is no fragment, hence no next version,
      and that is the only way to reach this error once the version
      parses. */
  lemma NoFragmentsNoVersion(s: Settings, listing: seq<string>, files: Files, version: string, today: string)
    requires ParseVersion(version).Ok?
    ensures NewChanges(s, listing, files, version, today) == Err(MissingNextVersion)
      <==> forall x :: x in listing ==> !EndsWith(x, ".rst")
  {
    var items := SortStrings(listing);
    assert forall x :: x in items <==> x in listing by {
      assert forall x :: x in items <==> x in multiset(listing);
    }
    ChangesMissingVersion(s, FragmentPaths(s, listing), files, version, today);
    if RstItems(items) != [] {
      assert RstItems(items)[0] in RstItems(items);
    }
  }

  /** From the paths on: the next version is missing exactly when there is
      no fragment path at all. */
  lemma ChangesMissingVersion(s: Settings, paths: seq<string>, files: Files, version: string, today: string)
    requires ParseVersion(version).Ok?
    ensures ChangesOf(s, paths, files, version, today) == Err(MissingNextVersion) <==> paths == []
  {
    var current := ParseVersion(version).value;
    var order := ChangesTypesOrder(s);
    var loaded := LoadFragments(paths, files);
    if loaded.Err? {
      LoadFragmentsFirstError(paths, files);
    } else {
      var frs := loaded.value;
      if GroupByType(frs, order).Ok? {
        assert ChangesOf(s, paths, files, version, today) == Release(s, current, GroupByType(frs, order).value, today);
        GroupsMissingVersion(s, current, frs, today);
      }
    }
  }

  /** From the fragments on: once they are grouped, the next version is
      missing exactly when there is no fragment. */
  lemma GroupsMissingVersion(s: Settings, current: Version, frs: seq<Fragment>, today: string)
    requires GroupByType(frs, ChangesTypesOrder(s)).Ok?
    ensures var gs := GroupByType(frs, ChangesTypesOrder(s)).value;
      Release(s, current, gs, today) == Err(MissingNextVersion) <==> frs == []
  {
    var order := ChangesTypesOrder(s);
    var gs := GroupByType(frs, order).value;
    GroupByTypeGroups(frs, order);
    assert gs == [] <==> frs == [] by {
      if gs != [] {
        assert gs[0].fragments[0] in OfType(frs, gs[0].changeType);
      }
      if frs != [] {
        assert frs[0].changeType in Types(gs);
      }
    }
    GroupTypesKnown(frs, order);
    ReleaseMissingVersion(s, current, gs, today);
  }

  /** Every group has one of the known types. */
  lemma GroupTypesKnown(frs: seq<Fragment>, order: seq<string>)
    requires GroupByType(frs, order).Ok?
    ensures var gs := GroupByType(frs, order).value;
      forall i :: 0 <= i < |gs| ==> gs[i].changeType in order
  {
    GroupByTypeGroups(frs, order);
  }

  /** From the groups on: the rendering fails for lack of a fragment, for a
      tracker template or for a known type without a title. */
  lemma ReleaseErrors(s: Settings, current: Version, gs: seq<Group>, today: string)
    requires forall i :: 0 <= i < |gs| ==> gs[i].changeType in ChangesTypesOrder(s)
    requires Release(s, current, gs, today).Err?
    ensures var e := Release(s, current, gs, today).error;
      || e == MissingNextVersion
      || (s.issueTracker.Some? && e == FormatError(s.issueTracker.value))
      || (e.MissingTitle? && e.changeType in ChangesTypesOrder(s) && e.changeType !in Keys(s.all))
  {
    if gs != [] && BumpLevel(s, gs[0].changeType).Some? {
      var rendered := RenderGroups(s.issuePrefix, s.issueTracker, s.all, gs);
      RenderGroupsError(s.issuePrefix, s.issueTracker, s.all, gs);
      if rendered.error.MissingTitle? {
        var i :| 0 <= i < |gs| && Types(gs)[i] == rendered.error.changeType;
      }
    }
  }

  /** From the groups on: the next version is missing exactly when there is
      no group, as long as every group has a known type. */
  lemma ReleaseMissingVersion(s: Settings, current: Version, gs: seq<Group>, today: string)
    requires forall i :: 0 <= i < |gs| ==> gs[i].changeType in ChangesTypesOrder(s)
    ensures Release(s, current, gs, today) == Err(MissingNextVersion) <==> gs == []
  {
    if gs != [] && RenderGroups(s.issuePrefix, s.issueTracker, s.all, gs).Err? {
      RenderGroupsError(s.issuePrefix, s.issueTracker, s.all, gs);
    }
  }

  /** A `.rst` entry whose name does not have exactly two dots stops the
      command with `InvalidFragment` and the name message: `a.b.c.rst`
      is refused. */
  lemma BadlyNamedFragment(s: Settings, listing: seq<string>, files: Files, version: string,
                           today: string, item: string)
    requires forall x :: x in listing ==> '/' !in x
    requires item in listing && EndsWith(item, ".rst") && multiset(item)['.'] != 2
    ensures var r := NewChanges(s, listing, files, version, today);
      r.Err? && r.error.InvalidFragment? && r.error.message == NameMessage
      && r.error.path in FragmentPaths(s, listing)
  {
    var items := SortStrings(listing);
    var paths := FragmentPaths(s, listing);
    assert item in items by {
      assert item in multiset(listing);
    }
    var rst := RstItems(items);
    assert item in rst;
    var k :| 0 <= k < |rst| && rst[k] == item;
    assert paths[k] == JoinPath(s.fragmentsPath, item);
    BasenameOfJoin(s.fragmentsPath, item);
    assert FromPath(paths[k], files).Err?;
    LoadFragmentsOk(paths, files);
    LoadFragmentsFirstError(paths, files);
  }

  /** A fragment whose type no bucket names stops the command with
      `InvalidFragment` for the first such fragment in sorted order. */
  lemma UnknownFragmentType(s: Settings, listing: seq<string>, files: Files, version: string,
                            today: string, k: nat)
    requires LoadFragments(FragmentPaths(s, listing), files).Ok? && ParseVersion(version).Ok?
    requires var frs := LoadFragments(FragmentPaths(s, listing), files).value;
      k < |frs| && frs[k].changeType !in ChangesTypesOrder(s)
    ensures var frs := LoadFragments(FragmentPaths(s, listing), files).value;
      var u := FirstUnknown(ChangesTypesOrder(s), frs);
      u <= k && NewChanges(s, listing, files, version, today)
        == Err(InvalidFragment(frs[u].path, UnknownMessage(frs[u].changeType)))
  {
    var paths, order := FragmentPaths(s, listing), ChangesTypesOrder(s);
    var frs := LoadFragments(paths, files).value;
    var u := FirstUnknown(order, frs);
    assert u <= k;
    var grouped := GroupByType(frs, order);
    assert grouped == Err(InvalidFragment(frs[u].path, UnknownMessage(frs[u].changeType)));
    assert ChangesOf(s, paths, files, version, today) == Err(grouped.error);
  }

  /** Every way `run` can fail: a badly named or mistyped fragment (naming
      one of the fragment paths), a version that is not `major.minor[.patch]`,
      no fragment at all, a tracker template that cannot take an issue
      number, or a known type without a title. */
  lemma NewChangesErrors(s: Settings, listing: seq<string>, files: Files, version: string, today: string)
    requires NewChanges(s, listing, files, version, today).Err?
    ensures var e := NewChanges(s, listing, files, version, today).error;
      || (e.InvalidFragment? && e.path in FragmentPaths(s, listing))
      || e == VersionError(version)
      || e == MissingNextVersion
      || (s.issueTracker.Some? && e == FormatError(s.issueTracker.value))
      || (e.MissingTitle? && e.changeType in ChangesTypesOrder(s) && e.changeType !in Keys(s.all))
  {
    var paths := FragmentPaths(s, listing);
    var order := ChangesTypesOrder(s);
    var loaded := LoadFragments(paths, files);
    if loaded.Err? {
      LoadFragmentsFirstError(paths, files);
    } else if ParseVersion(version).Ok? {
      var frs := loaded.value;
      var grouped := GroupByType(frs, order);
      if grouped.Err? {
        var u := FirstUnknown(order, frs);
        LoadFragmentsValues(paths, files);
        assert Ok(frs[u]) == FromPath(paths[u], files);
      } else {
        var gs := grouped.value;
        assert NewChanges(s, listing, files, version, today) == Release(s, ParseVersion(version).value, gs, today);
        GroupTypesKnown(frs, order);
        ReleaseErrors(s, ParseVersion(version).value, gs, today);
      }
    }
  }

  /** Once the options are finalised, a section title is never missing. */
  lemma TitlesNeverMissing(c: Configuration, listing: seq<string>, files: Files, version: string,
                           today: string)
    requires WellFormedConfiguration(c) && Finalize(c).1.None?
    ensures var r := NewChanges(SettingsOf(Finalize(c).0), listing, files, version, today);
      !(r.Err? && r.error.MissingTitle?)
  {
    var s := SettingsOf(Finalize(c).0);
    var r := NewChanges(s, listing, files, version, today);
    if r.Err? {
      NewChangesErrors(s, listing, files, version, today);
      if r.error.MissingTitle? {
        FinalizedTitles(c, r.error.changeType);
      }
    }
  }
}

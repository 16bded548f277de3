/** The change-type options: the text form `key = value` lines that
    setup.cfg gives, its parsing into an ordered mapping, and the check and
    union of the major, minor and patch buckets. */
module Options {
  import opened Failures
  import opened PyStr
  import opened Dicts

  /** What a `*_changes_types` attribute holds: nothing yet (`None`), a
      mapping (set from code, or already parsed), or the text of setup.cfg. */
  datatype ChangesTypes = Unset | Mapping(dict: Dict) | Text(text: string)

  /** A Python dict never repeats a key. */
  ghost predicate WellFormed(ct: ChangesTypes)
  {
    ct.Mapping? ==> UniqueKeys(ct.dict)
  }

  /** `key, value = map(str.strip, line.split('=', 1))`. */
  function ParseLine(line: string): (r: Result<(string, string)>)
    ensures r.Err? <==> '=' !in line
    ensures r.Err? ==> r.error == NotEnoughValues(line)
    ensures r.Ok? ==> Stripped(r.value.0) && Stripped(r.value.1)
  {
    var parts := SplitOnce(line, '=');
    if parts.None? then Err(NotEnoughValues(line))
    else Ok((Strip(parts.value.0), Strip(parts.value.1)))
  }

  /** The key is what precedes the first `=`, the value everything after
      it, both stripped of surrounding whitespace. */
  lemma ParseLineParts(line: string, before: string, after: string)
    requires '=' !in before && line == before + "=" + after
    ensures ParseLine(line) == Ok((Strip(before), Strip(after)))
  {
    assert line[|before|] == '=';
    var i := IndexOf(line, '=');
    assert i == |before|;
    var parts := SplitOnce(line, '=').value;
    assert parts.0 == line[..|before|] == before;
    assert parts.1 == line[|before| + 1..] == after;
  }

  /** A key without `=` and a value, neither with surrounding whitespace,
      written as `key=value`, are read back unchanged. */
  lemma ParseLineOf(key: string, value: string)
    requires '=' !in key && Stripped(key) && Stripped(value)
    ensures ParseLine(key + "=" + value) == Ok((key, value))
  {
    ParseLineParts(key + "=" + value, key, value);
    StripStripped(key);
    StripStripped(value);
  }

  /** The loop over the lines: each gives a pair, in order, and the first
      line without `=` stops it. */
  function PairsOf(lines: seq<string>): (r: Result<seq<(string, string)>>)
    ensures r.Ok? ==> |r.value| == |lines|
    ensures r.Err? ==> exists k :: 0 <= k < |lines| && '=' !in lines[k] && r.error == NotEnoughValues(lines[k])
  {
    if lines == [] then Ok([])
    else
      var init := lines[..|lines| - 1];
      var prev :- PairsOf(init);
      assert forall k :: 0 <= k < |init| ==> init[k] == lines[k];
      var pair :- ParseLine(lines[|lines| - 1]);
      Ok(prev + [pair])
  }

  /** The loop succeeds exactly when every line holds a `=`, and then pair
      k is what line k parses to; otherwise its error names the first line
      without `=`. */
  lemma PairsOfSpec(lines: seq<string>)
    ensures PairsOf(lines).Ok? <==> EachAssigns(lines)
    ensures PairsOf(lines).Ok? ==>
      forall k :: 0 <= k < |lines| ==> ParseLine(lines[k]) == Ok(PairsOf(lines).value[k])
    ensures PairsOf(lines).Err? ==> FailsAtFirstBadLine(lines, PairsOf(lines).error)
  {
    PairsOfOk(lines);
    if PairsOf(lines).Ok? {
      PairsOfItems(lines);
    } else {
      PairsOfError(lines);
    }
  }

  lemma {:induction false} PairsOfOk(lines: seq<string>)
    ensures PairsOf(lines).Ok? <==> EachAssigns(lines)
  {
    if lines != [] {
      var n := |lines| - 1;
      PairsOfOk(lines[..n]);
      EachAssignsStep(lines);
    }
  }

  /** Every line holds a `=`. */
  ghost predicate EachAssigns(lines: seq<string>)
  {
    forall k :: 0 <= k < |lines| ==> '=' in lines[k]
  }

  lemma EachAssignsStep(lines: seq<string>)
    requires lines != []
    ensures EachAssigns(lines) <==> EachAssigns(lines[..|lines| - 1]) && '=' in lines[|lines| - 1]
  {
    var n := |lines| - 1;
    assert forall k :: 0 <= k < n ==> lines[..n][k] == lines[k];
  }

  lemma PairsOfItems(lines: seq<string>)
    requires PairsOf(lines).Ok?
    ensures forall k :: 0 <= k < |lines| ==> ParseLine(lines[k]) == Ok(PairsOf(lines).value[k])
  {
    PairsOfOk(lines);
    var pairs := seq(|lines|, k requires 0 <= k < |lines| => ParseLine(lines[k]).value);
    forall k | 0 <= k < |lines| ensures ParseLine(lines[k]) == Ok(pairs[k]) {
      assert '=' in lines[k];
    }
    PairsOfParsed(lines, pairs);
  }

  lemma {:induction false} PairsOfError(lines: seq<string>)
    requires PairsOf(lines).Err?
    ensures FailsAtFirstBadLine(lines, PairsOf(lines).error)
  {
    var n := |lines| - 1;
    var init := lines[..n];
    assert forall k :: 0 <= k < n ==> init[k] == lines[k];
    if PairsOf(init).Err? {
      PairsOfError(init);
      var k :| 0 <= k < n && FirstBadLine(init, k) && PairsOf(init).error == NotEnoughValues(init[k]);
      assert FirstBadLine(lines, k);
    } else {
      PairsOfOk(init);
      assert FirstBadLine(lines, n);
    }
  }

  /** Line k is the first line without `=`. */
  ghost predicate FirstBadLine(lines: seq<string>, k: nat)
  {
    k < |lines| && '=' !in lines[k] && forall j :: 0 <= j < k ==> '=' in lines[j]
  }

  /** The error of a loop that stops at the first line without `=`. */
  ghost predicate FailsAtFirstBadLine(lines: seq<string>, e: Error)
  {
    exists k :: 0 <= k < |lines| && FirstBadLine(lines, k) && e == NotEnoughValues(lines[k])
  }

  /** Once a prefix of the lines fails, all of them fail with the same
      error: the loop stops at the first line without `=`. */
  lemma {:induction false} PairsOfStops(lines: seq<string>, k: nat)
    requires k <= |lines| && PairsOf(lines[..k]).Err?
    ensures PairsOf(lines) == PairsOf(lines[..k])
    decreases |lines|
  {
    if k < |lines| {
      var init := lines[..|lines| - 1];
      assert init[..k] == lines[..k];
      PairsOfStops(init, k);
    } else {
      assert lines[..k] == lines;
    }
  }

  /** One more line that parses adds its pair. */
  lemma PairsOfAdd(lines: seq<string>, i: nat, pair: (string, string))
    requires i < |lines| && PairsOf(lines[..i]).Ok?
    requires ParseLine(lines[i]) == Ok(pair)
    ensures PairsOf(lines[..i + 1]) == Ok(PairsOf(lines[..i]).value + [pair])
  {
    assert lines[..i + 1][..i] == lines[..i];
  }

  /** A line without `=` after lines that parse is the error of all of them. */
  lemma PairsOfFail(lines: seq<string>, i: nat)
    requires i < |lines| && PairsOf(lines[..i]).Ok?
    requires '=' !in lines[i]
    ensures PairsOf(lines) == Err(NotEnoughValues(lines[i]))
  {
    assert lines[..i + 1][..i] == lines[..i];
    assert PairsOf(lines[..i + 1]) == Err(NotEnoughValues(lines[i]));
    PairsOfStops(lines, i + 1);
  }

  /** `_parse_changes_types(changes_types)`. */
  function ParsedChangesTypes(ct: ChangesTypes): (r: Result<Dict>)
    ensures ct.Unset? <==> r == Err(UnsetOption)
    ensures ct.Mapping? ==> r == Ok(ct.dict)
    ensures ct.Text? && Strip(ct.text) == [] ==> r == Ok([])
    ensures WellFormed(ct) && r.Ok? ==> UniqueKeys(r.value)
  {
    match ct
    case Unset => Err(UnsetOption)
    case Mapping(d) => Ok(d)
    case Text(text) =>
      var s := Strip(text);
      if s == [] then Ok([])
      else
        var pairs :- PairsOf(SplitLines(s));
        Ok(Update([], pairs))
  }

  /** Text that is not blank is stripped and split into lines; it parses
      exactly when every line holds a `=`, and each key then maps to the
      value of the last line that names it; otherwise the error names the
      first line without `=`. */
  lemma ParsedTextSpec(text: string)
    requires Strip(text) != []
    ensures var lines := SplitLines(Strip(text));
      var r := ParsedChangesTypes(Text(text));
      && (r.Ok? <==> EachAssigns(lines))
      && (r.Err? ==> FailsAtFirstBadLine(lines, r.error))
      && (r.Ok? ==> UniqueKeys(r.value) && r.value == Update([], PairsOf(lines).value))
      && (r.Ok? ==> forall key :: Get(r.value, key) == LastValue(PairsOf(lines).value, key))
      && (r.Ok? ==> forall k :: 0 <= k < |lines| ==> ParseLine(lines[k]) == Ok(PairsOf(lines).value[k]))
  {
    PairsOfSpec(SplitLines(Strip(text)));
  }

  // ---------------------------------------------------------------- round trip

  /** A bucket written out as setup.cfg text, one `key=value` line per item. */
  function Serialize(d: Dict): (r: seq<string>)
    ensures |r| == |d|
    ensures forall i :: 0 <= i < |d| ==> r[i] == d[i].0 + "=" + d[i].1
  {
    seq(|d|, i requires 0 <= i < |d| => d[i].0 + "=" + d[i].1)
  }

  /** The items a parser can give back: keys without `=`, keys and values
      without surrounding whitespace or line breaks. */
  predicate Writable(d: Dict)
  {
    forall i :: 0 <= i < |d| ==>
      && '=' !in d[i].0 && Stripped(d[i].0) && Stripped(d[i].1)
      && NoLineBreak(d[i].0) && NoLineBreak(d[i].1)
  }

  /** The lines of a writable bucket parse back to its pairs. */
  lemma PairsOfSerialized(d: Dict)
    requires Writable(d)
    ensures PairsOf(Serialize(d)) == Ok(d)
  {
    var lines := Serialize(d);
    forall i | 0 <= i < |d| ensures ParseLine(lines[i]) == Ok(d[i]) {
      ParseLineOf(d[i].0, d[i].1);
    }
    PairsOfParsed(lines, d);
  }

  /** A line of a writable bucket is not empty and holds no boundary. */
  lemma SerializedLine(d: Dict, i: nat)
    requires Writable(d) && i < |d|
    ensures NoLineBreak(Serialize(d)[i]) && Serialize(d)[i] != []
  {
    NoLineBreakConcat(d[i].0, "=");
    NoLineBreakConcat(d[i].0 + "=", d[i].1);
  }

  /** The text of a writable bucket: lines without boundaries, the last
      one not empty, and nothing to strip around them. */
  lemma SerializedText(d: Dict)
    requires d != [] && Writable(d)
    ensures forall i :: 0 <= i < |d| ==> NoLineBreak(Serialize(d)[i]) && Serialize(d)[i] != []
    ensures Stripped(Join(Serialize(d), "\n"))
  {
    forall i | 0 <= i < |d| ensures NoLineBreak(Serialize(d)[i]) && Serialize(d)[i] != [] {
      SerializedLine(d, i);
    }
    var lines := Serialize(d);
    var n := |d| - 1;
    AssignmentStripped(d[0].0, d[0].1, lines[0]);
    AssignmentStripped(d[n].0, d[n].1, lines[n]);
    JoinEnds(lines, "\n");
  }

  /** `key=value` opens and closes with a non-space when neither side has
      surrounding whitespace. */
  lemma AssignmentStripped(key: string, value: string, line: string)
    requires Stripped(key) && Stripped(value) && line == key + "=" + value
    ensures line != [] && !IsSpace(line[0]) && !IsSpace(line[|line| - 1])
  {
    if key == [] {
      assert line[0] == '=';
    } else {
      assert line[0] == key[0];
    }
    if value == [] {
      assert line[|line| - 1] == '=';
    } else {
      assert line[|line| - 1] == value[|value| - 1];
    }
  }

  /** Text with nothing to strip parses to the update by the pairs of its
      lines. */
  lemma ParsedText(text: string, pairs: seq<(string, string)>)
    requires text != [] && Strip(text) == text
    requires PairsOf(SplitLines(text)) == Ok(pairs)
    ensures ParsedChangesTypes(Text(text)) == Ok(Update([], pairs))
  {
  }

  /** Writing a bucket out as text and parsing it again gives it back. */
  lemma ParseSerialized(d: Dict)
    requires d != [] && UniqueKeys(d) && Writable(d)
    ensures ParsedChangesTypes(Text(Join(Serialize(d), "\n"))) == Ok(d)
  {
    var lines := Serialize(d);
    var text := Join(lines, "\n");
    assert text != [] && Strip(text) == text by {
      SerializedText(d);
      StripStripped(text);
      JoinEnds(lines, "\n");
    }
    assert PairsOf(SplitLines(text)) == Ok(d) by {
      SerializedText(d);
      SplitLinesOfJoin(lines);
      PairsOfSerialized(d);
    }
    ParsedText(text, d);
    FromUniqueItems(d);
  }

  // ---------------------------------------------------------------- padded text

  /** The whitespace a hand-written line may carry: before the key,
      between the key and `=`, between `=` and the value, after the value. */
  datatype Padding = Padding(beforeKey: string, afterKey: string, beforeValue: string, afterValue: string)

  /** Whitespace within a line: no line boundary among it. */
  predicate InlineSpace(s: string)
  {
    AllSpace(s) && NoLineBreak(s)
  }

  predicate InlinePadding(p: Padding)
  {
    InlineSpace(p.beforeKey) && InlineSpace(p.afterKey) && InlineSpace(p.beforeValue) && InlineSpace(p.afterValue)
  }

  /** An item written out with whitespace around its key, `=` and value. */
  function PaddedLine(item: (string, string), p: Padding): string
  {
    p.beforeKey + item.0 + p.afterKey + "=" + p.beforeValue + item.1 + p.afterValue
  }

  function PaddedLines(d: Dict, pads: seq<Padding>): (r: seq<string>)
    requires |pads| == |d|
    ensures |r| == |d|
    ensures forall i :: 0 <= i < |d| ==> r[i] == PaddedLine(d[i], pads[i])
  {
    seq(|d|, i requires 0 <= i < |d| => PaddedLine(d[i], pads[i]))
  }

  /** However a line is padded, its key and value are read back. */
  lemma PaddedLineParses(item: (string, string), p: Padding)
    requires '=' !in item.0 && Stripped(item.0) && Stripped(item.1) && InlinePadding(p)
    ensures ParseLine(PaddedLine(item, p)) == Ok(item)
  {
    var before := p.beforeKey + item.0 + p.afterKey;
    var after := p.beforeValue + item.1 + p.afterValue;
    assert PaddedLine(item, p) == before + "=" + after;
    assert '=' !in before by {
      assert forall i :: 0 <= i < |p.beforeKey| ==> before[i] == p.beforeKey[i];
      assert forall i :: |p.beforeKey| <= i < |p.beforeKey| + |item.0| ==> before[i] == item.0[i - |p.beforeKey|];
      assert forall i :: |p.beforeKey| + |item.0| <= i < |before| ==> before[i] == p.afterKey[i - |p.beforeKey| - |item.0|];
    }
    ParseLineParts(PaddedLine(item, p), before, after);
    StripAround(p.beforeKey, item.0, p.afterKey);
    StripStripped(item.0);
    StripAround(p.beforeValue, item.1, p.afterValue);
    StripStripped(item.1);
  }

  /** A padded line of a writable item holds no boundary. */
  lemma PaddedLineUnbroken(item: (string, string), p: Padding)
    requires NoLineBreak(item.0) && NoLineBreak(item.1) && InlinePadding(p)
    ensures NoLineBreak(PaddedLine(item, p)) && PaddedLine(item, p) != []
  {
    var line := PaddedLine(item, p);
    NoLineBreakConcat(p.beforeKey, item.0);
    NoLineBreakConcat(p.beforeKey + item.0, p.afterKey);
    NoLineBreakConcat(p.beforeKey + item.0 + p.afterKey, "=");
    NoLineBreakConcat(p.beforeKey + item.0 + p.afterKey + "=", p.beforeValue);
    NoLineBreakConcat(p.beforeKey + item.0 + p.afterKey + "=" + p.beforeValue, item.1);
    NoLineBreakConcat(p.beforeKey + item.0 + p.afterKey + "=" + p.beforeValue + item.1, p.afterValue);
    assert line[|p.beforeKey + item.0 + p.afterKey|] == '=';
  }

  lemma PairsOfPadded(d: Dict, pads: seq<Padding>)
    requires Writable(d) && |pads| == |d|
    requires forall i :: 0 <= i < |pads| ==> InlinePadding(pads[i])
    ensures PairsOf(PaddedLines(d, pads)) == Ok(d)
  {
    var lines := PaddedLines(d, pads);
    forall i | 0 <= i < |d| ensures ParseLine(lines[i]) == Ok(d[i]) {
      PaddedLineParses(d[i], pads[i]);
    }
    PairsOfParsed(lines, d);
  }

  /** Lines that each parse give their pairs, in order. */
  lemma {:induction false} PairsOfParsed(lines: seq<string>, pairs: seq<(string, string)>)
    requires |lines| == |pairs|
    requires forall i :: 0 <= i < |lines| ==> ParseLine(lines[i]) == Ok(pairs[i])
    ensures PairsOf(lines) == Ok(pairs)
  {
    if lines != [] {
      var n := |lines| - 1;
      var init, before := lines[..n], pairs[..n];
      forall i | 0 <= i < n ensures ParseLine(init[i]) == Ok(before[i]) {
        assert init[i] == lines[i] && before[i] == pairs[i];
      }
      PairsOfParsed(init, before);
      LastSplit(pairs, n);
      assert PairsOf(lines) == Ok(before + [pairs[n]]);
    }
  }

  /** The first line once the whitespace that opens the text is cut off:
      nothing before the key, and nothing before `=` when the key is empty. */
  function Opened(item: (string, string), p: Padding): Padding
  {
    p.(beforeKey := [], afterKey := if item.0 == [] then [] else p.afterKey)
  }

  function OpeningSpace(item: (string, string), p: Padding): string
  {
    p.beforeKey + if item.0 == [] then p.afterKey else []
  }

  /** The last line once the whitespace that closes the text is cut off. */
  function Closed(item: (string, string), p: Padding): Padding
  {
    p.(afterValue := [], beforeValue := if item.1 == [] then [] else p.beforeValue)
  }

  function ClosingSpace(item: (string, string), p: Padding): string
  {
    (if item.1 == [] then p.beforeValue else []) + p.afterValue
  }

  lemma OpenedLine(item: (string, string), p: Padding)
    ensures PaddedLine(item, p) == OpeningSpace(item, p) + PaddedLine(item, Opened(item, p))
  {
    if item.0 == [] {
      assert PaddedLine(item, p) == p.beforeKey + p.afterKey + ("=" + p.beforeValue + item.1 + p.afterValue);
    } else {
      assert PaddedLine(item, p) == p.beforeKey + (item.0 + p.afterKey + "=" + p.beforeValue + item.1 + p.afterValue);
    }
  }

  lemma ClosedLine(item: (string, string), p: Padding)
    ensures PaddedLine(item, p) == PaddedLine(item, Closed(item, p)) + ClosingSpace(item, p)
  {
    if item.1 == [] {
      assert PaddedLine(item, p) == (p.beforeKey + item.0 + p.afterKey + "=") + p.beforeValue + p.afterValue;
    } else {
      assert PaddedLine(item, p) == (p.beforeKey + item.0 + p.afterKey + "=" + p.beforeValue + item.1) + p.afterValue;
    }
  }

  /** The paddings of a text with the whitespace that opens and closes it
      cut off. */
  function Trimmed(d: Dict, pads: seq<Padding>): (r: seq<Padding>)
    requires |pads| == |d| && d != []
    ensures |r| == |d|
  {
    var n := |d| - 1;
    var front := pads[0 := Opened(d[0], pads[0])];
    front[n := Closed(d[n], front[n])]
  }

  /** The joined lines are the trimmed lines between the opening and the
      closing whitespace. */
  lemma TrimmedText(d: Dict, pads: seq<Padding>)
    requires |pads| == |d| && d != []
    ensures var n := |d| - 1;
      Join(PaddedLines(d, pads), "\n")
        == OpeningSpace(d[0], pads[0]) + Join(PaddedLines(d, Trimmed(d, pads)), "\n")
           + ClosingSpace(d[n], pads[0 := Opened(d[0], pads[0])][n])
  {
    var n := |d| - 1;
    var front := pads[0 := Opened(d[0], pads[0])];
    var c0, c1 := OpeningSpace(d[0], pads[0]), ClosingSpace(d[n], front[n]);
    var j, j1, j2 := Join(PaddedLines(d, pads), "\n"), Join(PaddedLines(d, front), "\n"), Join(PaddedLines(d, Trimmed(d, pads)), "\n");
    TrimmedFront(d, pads, front);
    TrimmedBack(d, front, Trimmed(d, pads), n);
    assert j == c0 + (j2 + c1);
    assert c0 + (j2 + c1) == c0 + j2 + c1;
  }

  /** Cutting the opening whitespace off the first line. */
  lemma TrimmedFront(d: Dict, pads: seq<Padding>, front: seq<Padding>)
    requires |pads| == |d| && d != [] && front == pads[0 := Opened(d[0], pads[0])]
    ensures Join(PaddedLines(d, pads), "\n") == OpeningSpace(d[0], pads[0]) + Join(PaddedLines(d, front), "\n")
  {
    var lines, l1 := PaddedLines(d, pads), PaddedLines(d, front);
    OpenedLine(d[0], pads[0]);
    assert lines[0] == OpeningSpace(d[0], pads[0]) + l1[0];
    forall k | 0 <= k < |d| - 1 ensures lines[1..][k] == l1[1..][k] {
      assert front[k + 1] == pads[k + 1];
    }
    assert lines[1..] == l1[1..];
    JoinFront(lines, l1, OpeningSpace(d[0], pads[0]), "\n");
  }

  /** Cutting the closing whitespace off the last line. */
  lemma TrimmedBack(d: Dict, front: seq<Padding>, trimmed: seq<Padding>, n: nat)
    requires |front| == |d| && n + 1 == |d| && trimmed == front[n := Closed(d[n], front[n])]
    ensures Join(PaddedLines(d, front), "\n") == Join(PaddedLines(d, trimmed), "\n") + ClosingSpace(d[n], front[n])
  {
    var l1, l2 := PaddedLines(d, front), PaddedLines(d, trimmed);
    ClosedLine(d[n], front[n]);
    assert l1[n] == l2[n] + ClosingSpace(d[n], front[n]);
    forall k | 0 <= k < n ensures l1[..n][k] == l2[..n][k] {
      assert trimmed[k] == front[k];
    }
    assert l1[..n] == l2[..n];
    JoinBack(l1, l2, ClosingSpace(d[n], front[n]), "\n");
  }

  /** Trimming keeps the padding within lines. */
  lemma TrimmedInline(d: Dict, pads: seq<Padding>)
    requires |pads| == |d| && d != []
    requires forall i :: 0 <= i < |pads| ==> InlinePadding(pads[i])
    ensures forall i :: 0 <= i < |d| ==> InlinePadding(Trimmed(d, pads)[i])
    ensures AllSpace(OpeningSpace(d[0], pads[0]))
    ensures AllSpace(ClosingSpace(d[|d| - 1], pads[0 := Opened(d[0], pads[0])][|d| - 1]))
  {
    var n := |d| - 1;
    var front := pads[0 := Opened(d[0], pads[0])];
    assert forall i :: 0 <= i < |d| ==> InlinePadding(front[i]);
    var p, q := pads[0], front[n];
    assert AllSpace(p.beforeKey + if d[0].0 == [] then p.afterKey else []);
    assert AllSpace((if d[n].1 == [] then q.beforeValue else []) + q.afterValue);
  }

  /** The trimmed text neither opens nor closes with whitespace. */
  lemma TrimmedStripped(d: Dict, pads: seq<Padding>)
    requires |pads| == |d| && d != [] && Writable(d)
    ensures var t := Join(PaddedLines(d, Trimmed(d, pads)), "\n"); t != [] && Stripped(t)
  {
    var n := |d| - 1;
    var ls := PaddedLines(d, Trimmed(d, pads));
    JoinEnds(ls, "\n");
    OpenedStarts(d[0], Trimmed(d, pads)[0]);
    ClosedEnds(d[n], Trimmed(d, pads)[n]);
  }

  /** A line with nothing before its key, and nothing before `=` when the
      key is empty, opens with a non-space. */
  lemma OpenedStarts(item: (string, string), p: Padding)
    requires p.beforeKey == [] && (item.0 == [] ==> p.afterKey == []) && Stripped(item.0)
    ensures var l := PaddedLine(item, p); l != [] && !IsSpace(l[0])
  {
    var l := PaddedLine(item, p);
    if item.0 == [] {
      assert l == "=" + p.beforeValue + item.1 + p.afterValue;
    } else {
      assert l == item.0 + (p.afterKey + "=" + p.beforeValue + item.1 + p.afterValue);
    }
  }

  /** A line with nothing after its value, and nothing after `=` when the
      value is empty, closes with a non-space. */
  lemma ClosedEnds(item: (string, string), p: Padding)
    requires p.afterValue == [] && (item.1 == [] ==> p.beforeValue == []) && Stripped(item.1)
    ensures var l := PaddedLine(item, p); l != [] && !IsSpace(l[|l| - 1])
  {
    var l := PaddedLine(item, p);
    if item.1 == [] {
      assert l == p.beforeKey + item.0 + p.afterKey + "=";
    } else {
      assert l == (p.beforeKey + item.0 + p.afterKey + "=" + p.beforeValue) + item.1;
    }
  }

  lemma ParsePadded(d: Dict, pads: seq<Padding>, lead: string, trail: string)
    requires d != [] && Writable(d) && |pads| == |d|
    requires forall i :: 0 <= i < |pads| ==> InlinePadding(pads[i])
    requires AllSpace(lead) && AllSpace(trail)
    ensures ParsedChangesTypes(Text(lead + Join(PaddedLines(d, pads), "\n") + trail)) == Ok(Update([], d))
    ensures UniqueKeys(d) ==> ParsedChangesTypes(Text(lead + Join(PaddedLines(d, pads), "\n") + trail)) == Ok(d)
  {
    var lines := PaddedLines(d, Trimmed(d, pads));
    StripPadded(d, pads, lead, trail);
    TrimmedInline(d, pads);
    TrimmedStripped(d, pads);
    TrimmedLines(d, Trimmed(d, pads));
    PairsOfPadded(d, Trimmed(d, pads));
    ParsedCore(lead + Join(PaddedLines(d, pads), "\n") + trail, lines, d);
    if UniqueKeys(d) {
      FromUniqueItems(d);
    }
  }

  /** Stripping the padded text leaves the trimmed lines. */
  lemma StripPadded(d: Dict, pads: seq<Padding>, lead: string, trail: string)
    requires d != [] && Writable(d) && |pads| == |d|
    requires forall i :: 0 <= i < |pads| ==> InlinePadding(pads[i])
    requires AllSpace(lead) && AllSpace(trail)
    ensures Strip(lead + Join(PaddedLines(d, pads), "\n") + trail) == Join(PaddedLines(d, Trimmed(d, pads)), "\n")
  {
    var n := |d| - 1;
    TrimmedText(d, pads);
    TrimmedInline(d, pads);
    TrimmedStripped(d, pads);
    StripBetween(lead, OpeningSpace(d[0], pads[0]), Join(PaddedLines(d, Trimmed(d, pads)), "\n"),
                 ClosingSpace(d[n], pads[0 := Opened(d[0], pads[0])][n]), trail);
  }

  /** Stripping removes the whitespace on both sides of stripped text. */
  lemma StripBetween(lead: string, c0: string, core: string, c1: string, trail: string)
    requires AllSpace(lead) && AllSpace(c0) && AllSpace(c1) && AllSpace(trail)
    requires Stripped(core)
    ensures Strip(lead + (c0 + core + c1) + trail) == core
  {
    assert lead + (c0 + core + c1) + trail == (lead + c0) + core + (c1 + trail);
    assert AllSpace(lead + c0);
    assert AllSpace(c1 + trail);
    StripAround(lead + c0, core, c1 + trail);
    StripStripped(core);
  }

  /** The trimmed lines hold no boundary, and the last is not empty. */
  lemma TrimmedLines(d: Dict, pads: seq<Padding>)
    requires d != [] && Writable(d) && |pads| == |d|
    requires forall i :: 0 <= i < |pads| ==> InlinePadding(pads[i])
    ensures forall i :: 0 <= i < |d| ==> NoLineBreak(PaddedLines(d, pads)[i])
    ensures PaddedLines(d, pads)[|d| - 1] != []
  {
    forall i | 0 <= i < |d| ensures NoLineBreak(PaddedLines(d, pads)[i]) {
      PaddedLineUnbroken(d[i], pads[i]);
    }
    PaddedLineUnbroken(d[|d| - 1], pads[|d| - 1]);
  }

  /** Text that strips to lines joined by `\n` parses to their pairs. */
  lemma ParsedCore(text: string, lines: seq<string>, d: Dict)
    requires lines != [] && Strip(text) == Join(lines, "\n") && Strip(text) != []
    requires forall i :: 0 <= i < |lines| ==> NoLineBreak(lines[i])
    requires lines[|lines| - 1] != []
    requires PairsOf(lines) == Ok(d)
    ensures ParsedChangesTypes(Text(text)) == Ok(Update([], d))
  {
    SplitLinesOfJoin(lines);
  }

  // ---------------------------------------------------------------- buckets

  const PatchWithoutMinor: string := "Patch changes are defined while minor are not."

  /** The check and union of `finalize_options` once the three buckets are
      parsed: a patch bucket needs a minor bucket, and later buckets win on
      a repeated key. */
  function MergeChangesTypes(major: Dict, minor: Dict, patch: Dict): (r: Result<Dict>)
    ensures r.Err? <==> patch != [] && minor == []
    ensures r.Err? ==> r.error == OptionError(PatchWithoutMinor)
    ensures r.Ok? ==> forall k :: k in Keys(r.value) <==> k in Keys(major) || k in Keys(minor) || k in Keys(patch)
  {
    if patch != [] && minor == [] then Err(OptionError(PatchWithoutMinor))
    else Ok(Update(Update(Update([], major), minor), patch))
  }

  /** In the union, a type's title is the one of the last bucket that names
      it. */
  lemma MergeLookup(major: Dict, minor: Dict, patch: Dict, k: string)
    requires UniqueKeys(major) && UniqueKeys(minor) && UniqueKeys(patch)
    requires MergeChangesTypes(major, minor, patch).Ok?
    ensures Get(MergeChangesTypes(major, minor, patch).value, k) ==
      if k in Keys(patch) then Get(patch, k)
      else if k in Keys(minor) then Get(minor, k)
      else Get(major, k)
  {
    LastValueUnique(major, k);
    LastValueUnique(minor, k);
    LastValueUnique(patch, k);
    FindInKeys(major, k);
    FindInKeys(minor, k);
    FindInKeys(patch, k);
  }
}

/** The Python `str` operations the changelog command relies on: `strip`,
    `splitlines`, `split`, `join`, `endswith` and the `[0-9]` character class.
    Strings are sequences of code points, as Python 3 `str` values are. */
module PyStr {
  import opened Failures

  /** `c.isspace()`: Python's whitespace code points. */
  predicate IsSpace(c: char)
  {
    var n := c as int;
    (9 <= n <= 13) || (28 <= n <= 32) || n == 0x85 || n == 0xA0 || n == 0x1680
    || (0x2000 <= n <= 0x200A) || n == 0x2028 || n == 0x2029 || n == 0x202F
    || n == 0x205F || n == 0x3000
  }

  /** The line boundaries `str.splitlines` splits on (`\r\n` counts as one). */
  predicate IsLineBreak(c: char)
  {
    var n := c as int;
    (10 <= n <= 13) || (28 <= n <= 30) || n == 0x85 || n == 0x2028 || n == 0x2029
  }

  predicate NoLineBreak(s: string)
  {
    forall i :: 0 <= i < |s| ==> !IsLineBreak(s[i])
  }

  /** The regular-expression class `[0-9]`. */
  predicate IsDigit(c: char)
  {
    '0' <= c <= '9'
  }

  /** `s.endswith(suffix)`. */
  predicate EndsWith(s: string, suffix: string)
  {
    |suffix| <= |s| && s[|s| - |suffix|..] == suffix
  }

  /** s ends with suffix exactly when it is some text followed by suffix. */
  lemma EndsWithConcat(s: string, suffix: string)
    ensures EndsWith(s, suffix) <==> exists p :: s == p + suffix
  {
    if EndsWith(s, suffix) {
      assert s == s[..|s| - |suffix|] + suffix;
    }
    forall p | s == p + suffix ensures EndsWith(s, suffix) {
      assert s[|p|..] == suffix;
    }
  }

  /** `c * n`. */
  function Repeat(c: char, n: nat): (r: string)
    ensures |r| == n
    ensures forall i :: 0 <= i < n ==> r[i] == c
  {
    seq(n, _ => c)
  }

  /** `sep.join(parts)`: the parts in order with sep between neighbours,
      so the text opens with the first part and closes with the last. */
  function Join(parts: seq<string>, sep: string): (r: string)
    ensures parts == [] ==> r == []
    ensures parts != [] ==> |parts[0]| <= |r| && r[..|parts[0]|] == parts[0]
  {
    if parts == [] then []
    else if |parts| == 1 then parts[0]
    else parts[0] + sep + Join(parts[1..], sep)
  }

  /** The joined text starts as its first part and ends as its last. */
  lemma {:induction false} JoinEnds(parts: seq<string>, sep: string)
    requires parts != []
    ensures parts[0] != [] ==> Join(parts, sep) != [] && Join(parts, sep)[0] == parts[0][0]
    ensures var j, last := Join(parts, sep), parts[|parts| - 1];
      last != [] ==> j != [] && j[|j| - 1] == last[|last| - 1]
  {
    var j := Join(parts, sep);
    if parts[0] != [] {
      assert j[..|parts[0]|][0] == parts[0][0];
    }
    if |parts| > 1 {
      var rest := Join(parts[1..], sep);
      JoinEnds(parts[1..], sep);
      assert parts[1..][|parts| - 2] == parts[|parts| - 1];
      assert j == parts[0] + sep + rest;
      if rest != [] {
        assert j[|j| - 1] == rest[|rest| - 1];
      }
    }
  }

  /** Joining a list with a first item puts that item in front. */
  /** A join whose last part closes with a non-blank character closes with
      it too. */
  lemma JoinClosesWith(parts: seq<string>, sep: string, last: string)
    requires parts != [] && last == parts[|parts| - 1]
    requires last != [] && !IsSpace(last[|last| - 1])
    ensures var j := Join(parts, sep); j != [] && !IsSpace(j[|j| - 1])
  {
    JoinEnds(parts, sep);
  }

  lemma JoinHead(first: string, others: seq<string>, sep: string)
    ensures Join([first] + others, sep) == first + if others == [] then [] else sep + Join(others, sep)
  {
    assert ([first] + others)[1..] == others;
  }

  /** Text that opens with h, followed by more text, opens with h. */
  lemma ConcatHead(x: string, h: string, t: string, a: string, b: string)
    requires x == h + t
    ensures x + a + b == h + (t + (a + b))
  {
  }

  /** Putting text in front of a joined list puts it in front of the first
      item. */
  lemma JoinPrepend(p: string, items: seq<string>, sep: string)
    requires items != []
    ensures p + Join(items, sep) == Join([p + items[0]] + items[1..], sep)
  {
    var r := [p + items[0]] + items[1..];
    assert r[1..] == items[1..];
  }

  /** Putting text after a joined list puts it after the last item. */
  lemma {:induction false} JoinAppend(items: seq<string>, q: string, sep: string)
    requires items != []
    ensures Join(items, sep) + q == Join(items[..|items| - 1] + [items[|items| - 1] + q], sep)
    decreases |items|
  {
    var n := |items| - 1;
    var r := items[..n] + [items[n] + q];
    if n == 0 {
      assert r == [items[0] + q];
    } else {
      JoinAppend(items[1..], q, sep);
      assert r[1..] == items[1..][..n - 1] + [items[1..][n - 1] + q];
      assert r[0] == items[0];
    }
  }

  /** Text put in front of the first item. */
  lemma JoinFront(items: seq<string>, other: seq<string>, c: string, sep: string)
    requires items != [] && |other| == |items|
    requires items[0] == c + other[0] && items[1..] == other[1..]
    ensures Join(items, sep) == c + Join(other, sep)
  {
    JoinPrepend(c, other, sep);
    assert [c + other[0]] + other[1..] == items;
  }

  /** Text put after the last item. */
  lemma JoinBack(items: seq<string>, other: seq<string>, c: string, sep: string)
    requires items != [] && |other| == |items|
    requires items[|items| - 1] == other[|items| - 1] + c && items[..|items| - 1] == other[..|items| - 1]
    ensures Join(items, sep) == Join(other, sep) + c
  {
    var n := |items| - 1;
    JoinAppend(other, c, sep);
    assert other[..n] + [other[n] + c] == items;
  }

  // ---------------------------------------------------------------- strip

  /** How many whitespace characters open s. */
  function LeadingSpaces(s: string): (n: nat)
    ensures n <= |s|
    ensures forall i :: 0 <= i < n ==> IsSpace(s[i])
    ensures n < |s| ==> !IsSpace(s[n])
  {
    if s == [] || !IsSpace(s[0]) then 0 else 1 + LeadingSpaces(s[1..])
  }

  /** How many whitespace characters close s. */
  function TrailingSpaces(s: string): (n: nat)
    ensures n <= |s|
    ensures forall i :: |s| - n <= i < |s| ==> IsSpace(s[i])
    ensures n < |s| ==> !IsSpace(s[|s| - 1 - n])
  {
    if s == [] || !IsSpace(s[|s| - 1]) then 0 else 1 + TrailingSpaces(s[..|s| - 1])
  }

  /** `s.strip()`: the longest stretch of s that neither starts nor ends
      with whitespace and outside which there is only whitespace. */
  function Strip(s: string): (r: string)
    ensures r == [] || (!IsSpace(r[0]) && !IsSpace(r[|r| - 1]))
    ensures LeadingSpaces(s) + |r| <= |s|
    ensures r == s[LeadingSpaces(s)..LeadingSpaces(s) + |r|]
    ensures forall i :: 0 <= i < LeadingSpaces(s) ==> IsSpace(s[i])
    ensures forall i :: LeadingSpaces(s) + |r| <= i < |s| ==> IsSpace(s[i])
  {
    var t := s[LeadingSpaces(s)..];
    t[..|t| - TrailingSpaces(t)]
  }

  predicate Stripped(s: string)
  {
    s == [] || (!IsSpace(s[0]) && !IsSpace(s[|s| - 1]))
  }

  lemma StripStripped(s: string)
    requires Stripped(s)
    ensures Strip(s) == s
  {
    assert LeadingSpaces(s) == 0;
    assert TrailingSpaces(s) == 0;
  }

  /** A prefix followed by nothing but whitespace is the whole text when the
      text closes with a non-blank character. */
  lemma TrimmedWhole(t: string, s: string)
    requires |t| <= |s| && t == s[..|t|] && AllSpace(s[|t|..])
    requires s != [] && !IsSpace(s[|s| - 1])
    ensures t == s
  {
  }

  /** Nothing but whitespace. */
  predicate AllSpace(s: string)
  {
    forall i :: 0 <= i < |s| ==> IsSpace(s[i])
  }

  /** Whitespace around text is what strip removes: the text is left as it
      is once stripped itself. */
  lemma StripAround(a: string, x: string, b: string)
    requires AllSpace(a) && AllSpace(b)
    ensures Strip(a + x + b) == Strip(x)
  {
    if AllSpace(x) {
      StripAllSpace(x);
      assert AllSpace(a + x + b);
      StripAllSpace(a + x + b);
    } else {
      var k :| 0 <= k < |x| && !IsSpace(x[k]);
      StripAroundAt(a, x, b, k);
    }
  }

  lemma StripAroundAt(a: string, x: string, b: string, k: nat)
    requires AllSpace(a) && AllSpace(b) && k < |x| && !IsSpace(x[k])
    ensures Strip(a + x + b) == Strip(x)
  {
    StripAroundShape(a, x, b, k);
    StripMiddle(a, x, b);
  }

  /** What strip keeps of x, found in a + x + b where strip starts and
      with the length it keeps there, is what strip keeps of a + x + b. */
  lemma StripMiddle(a: string, x: string, b: string)
    requires LeadingSpaces(a + x + b) == |a| + LeadingSpaces(x)
    requires |Strip(a + x + b)| == |Strip(x)|
    ensures Strip(a + x + b) == Strip(x)
  {
    var s, t, m := a + x + b, Strip(x), LeadingSpaces(x);
    var lo, hi := |a| + m, |a| + m + |t|;
    MiddleSlice(a, x, b, m, m + |t|, lo, hi, t);
    StripAt(s, lo, hi, t);
  }

  /** Around text that is not all whitespace, whitespace moves where the
      text opens and leaves the length strip keeps. */
  lemma StripAroundShape(a: string, x: string, b: string, k: nat)
    requires AllSpace(a) && AllSpace(b) && k < |x| && !IsSpace(x[k])
    ensures LeadingSpaces(a + x + b) == |a| + LeadingSpaces(x)
    ensures |Strip(a + x + b)| == |Strip(x)|
  {
    var s := a + x + b;
    var t, m := Strip(x), LeadingSpaces(x);
    StripBounds(x, k);
    SpacesAround(a, x, b, m, |t|);
    LeadingSpacesAt(s, |a| + m);
    StripLength(s, |a| + m, |t|);
  }

  /** Text that is not all whitespace keeps something once stripped, and
      the stretch kept opens and closes on a non-space. */
  lemma StripBounds(x: string, k: nat)
    requires k < |x| && !IsSpace(x[k])
    ensures var t, m := Strip(x), LeadingSpaces(x);
      && 0 < |t| && m + |t| <= |x|
      && (forall i :: 0 <= i < m ==> IsSpace(x[i]))
      && (forall i :: m + |t| <= i < |x| ==> IsSpace(x[i]))
      && !IsSpace(x[m]) && !IsSpace(x[m + |t| - 1])
  {
    var t, m := Strip(x), LeadingSpaces(x);
    assert m <= k < m + |t|;
    assert x[m + |t| - 1] == t[|t| - 1];
  }

  /** Where x opens and closes, a + x + b does too, when a and b are
      whitespace. */
  lemma SpacesAround(a: string, x: string, b: string, m: nat, len: nat)
    requires AllSpace(a) && AllSpace(b) && 0 < len && m + len <= |x|
    requires forall i :: 0 <= i < m ==> IsSpace(x[i])
    requires forall i :: m + len <= i < |x| ==> IsSpace(x[i])
    requires !IsSpace(x[m]) && !IsSpace(x[m + len - 1])
    ensures var s := a + x + b;
      && (forall i :: 0 <= i < |a| + m ==> IsSpace(s[i]))
      && (forall i :: |a| + m + len <= i < |s| ==> IsSpace(s[i]))
      && !IsSpace(s[|a| + m]) && !IsSpace(s[|a| + m + len - 1])
  {
    var s := a + x + b;
    assert forall i :: 0 <= i < |a| ==> s[i] == a[i];
    assert forall i :: |a| <= i < |a| + |x| ==> s[i] == x[i - |a|];
    assert forall i :: |a| + |x| <= i < |s| ==> s[i] == b[i - |a| - |x|];
  }

  /** A stretch of the middle piece of a + x + b. */
  lemma MiddleSlice(a: string, x: string, b: string, i: nat, j: nat, lo: nat, hi: nat, t: string)
    requires i <= j <= |x| && lo == |a| + i && hi == |a| + j && x[i..j] == t
    ensures (a + x + b)[lo..hi] == t
  {
    var s := a + x + b;
    assert forall k :: i <= k < j ==> s[|a| + k] == x[k];
    assert s[lo..hi] == x[i..j];
  }

  /** What strip keeps is where the text opens, as long as it keeps. */
  lemma StripAt(s: string, n: nat, e: nat, t: string)
    requires n == LeadingSpaces(s) && |Strip(s)| == |t| && e == n + |t| <= |s| && s[n..e] == t
    ensures Strip(s) == t
  {
  }

  lemma StripAllSpace(s: string)
    requires AllSpace(s)
    ensures Strip(s) == []
  {
  }

  /** Whitespace up to position k, and none at k: k is where the text opens. */
  lemma LeadingSpacesAt(s: string, k: nat)
    requires k < |s| && !IsSpace(s[k]) && forall i :: 0 <= i < k ==> IsSpace(s[i])
    ensures LeadingSpaces(s) == k
  {
  }

  /** A stretch from where the text opens to a non-space, followed only by
      whitespace, is what strip keeps. */
  lemma StripLength(s: string, n: nat, len: nat)
    requires n == LeadingSpaces(s) && 0 < len && n + len <= |s| && !IsSpace(s[n + len - 1])
    requires forall i :: n + len <= i < |s| ==> IsSpace(s[i])
    ensures |Strip(s)| == len
  {
    var r := Strip(s);
    assert len <= |r|;
    assert r[|r| - 1] == s[n + |r| - 1];
  }

  /** Text that starts with `head`, whose last character is not whitespace,
      keeps `head` in front once stripped. */
  /** Text that opens with a non-blank character loses only its trailing
      whitespace to strip. */
  lemma StripOpen(s: string)
    requires s != [] && !IsSpace(s[0])
    ensures var r := Strip(s);
      0 < |r| <= |s| && r == s[..|r|] && AllSpace(s[|r|..])
  {
    assert LeadingSpaces(s) == 0;
    var r := Strip(s);
    forall i | 0 <= i < |s| - |r| ensures IsSpace(s[|r|..][i]) {
      assert s[|r|..][i] == s[|r| + i];
    }
  }

  lemma {:induction false} StripKeepsHead(head: string, tail: string)
    requires head != [] && !IsSpace(head[0]) && !IsSpace(head[|head| - 1])
    ensures |head| <= |Strip(head + tail)|
    ensures Strip(head + tail)[..|head|] == head
  {
    var s := head + tail;
    assert s[0] == head[0];
    assert LeadingSpaces(s) == 0;
    assert !IsSpace(s[|head| - 1]);
    var r := Strip(s);
    assert |head| <= |r|;
    assert r[..|head|] == s[..|head|];
  }

  // ---------------------------------------------------------------- split

  /** Where c first occurs in s, or |s|. */
  function IndexOf(s: string, c: char): (i: nat)
    ensures i <= |s|
    ensures i < |s| ==> s[i] == c
    ensures forall j :: 0 <= j < i ==> s[j] != c
  {
    if s == [] || s[0] == c then 0 else 1 + IndexOf(s[1..], c)
  }

  /** `s.split(c, 1)` when it has two parts: the text before and after the
      first c; None when c does not occur (a one-element list in Python). */
  function SplitOnce(s: string, c: char): (r: Option<(string, string)>)
    ensures r.None? <==> c !in s
    ensures r.Some? ==> c !in r.value.0 && r.value.0 + [c] + r.value.1 == s
  {
    var i := IndexOf(s, c);
    if i == |s| then None
    else
      assert s[..i] + [c] + s[i + 1..] == s;
      Some((s[..i], s[i + 1..]))
  }

  /** `s.split(c)` (and `s.rsplit(c)`, which splits at the same places when
      no limit is given): the pieces between the occurrences of c. */
  function Split(s: string, c: char): (parts: seq<string>)
    ensures |parts| == multiset(s)[c] + 1
    ensures forall i :: 0 <= i < |parts| ==> c !in parts[i]
    ensures Join(parts, [c]) == s
    decreases |s|
  {
    var i := IndexOf(s, c);
    if i == |s| then
      assert c !in s;
      [s]
    else
      var rest := Split(s[i + 1..], c);
      SplitAt(s, c, i, rest);
      [s[..i]] + rest
  }

  /** The piece before the first c, followed by the pieces of what comes
      after it. */
  lemma SplitAt(s: string, c: char, i: nat, rest: seq<string>)
    requires i < |s| && s[i] == c && forall j :: 0 <= j < i ==> s[j] != c
    requires |rest| == multiset(s[i + 1..])[c] + 1
    requires forall k :: 0 <= k < |rest| ==> c !in rest[k]
    requires Join(rest, [c]) == s[i + 1..]
    ensures |[s[..i]] + rest| == multiset(s)[c] + 1
    ensures forall k :: 0 <= k < |[s[..i]] + rest| ==> c !in ([s[..i]] + rest)[k]
    ensures Join([s[..i]] + rest, [c]) == s
  {
    var parts := [s[..i]] + rest;
    assert s == s[..i] + [c] + s[i + 1..];
    assert multiset(s)[c] == multiset(s[..i])[c] + 1 + multiset(s[i + 1..])[c] by {
      assert multiset(s) == multiset(s[..i]) + multiset{c} + multiset(s[i + 1..]);
    }
    assert c !in s[..i];
    assert forall k :: 0 < k < |parts| ==> parts[k] == rest[k - 1];
    assert parts[1..] == rest;
  }

  // ---------------------------------------------------------------- splitlines

  /** Where the first line boundary of s is, or |s|. */
  function FirstLineBreak(s: string): (i: nat)
    ensures i <= |s|
    ensures i < |s| ==> IsLineBreak(s[i])
    ensures forall j :: 0 <= j < i ==> !IsLineBreak(s[j])
  {
    if s == [] || IsLineBreak(s[0]) then 0 else 1 + FirstLineBreak(s[1..])
  }

  /** A line terminator `splitlines` recognises: `\r\n`, or one boundary. */
  predicate IsTerminator(t: string)
  {
    t == "\r\n" || (|t| == 1 && IsLineBreak(t[0]))
  }

  /** The lines, each followed by its terminator. */
  function Terminate(lines: seq<string>, ends: seq<string>): string
    requires |ends| == |lines|
  {
    if lines == [] then [] else lines[0] + ends[0] + Terminate(lines[1..], ends[1..])
  }

  /** Lines and terminators as `splitlines` reads them: no line holds a
      boundary; every line but the last is terminated; the last one may
      lack a terminator, and is then not empty; and a lone `\r` is never
      followed by an empty line ended by `\n`, since that pair is one
      `\r\n`. */
  ghost predicate Terminated(lines: seq<string>, ends: seq<string>)
  {
    && |ends| == |lines|
    && (forall i :: 0 <= i < |lines| ==> NoLineBreak(lines[i]))
    && (forall i :: 0 <= i < |lines| - 1 ==> IsTerminator(ends[i]))
    && (lines != [] ==> IsTerminator(ends[|lines| - 1]) || (ends[|lines| - 1] == [] && lines[|lines| - 1] != []))
    && (forall i :: 0 <= i < |lines| - 1 && ends[i] == "\r" && lines[i + 1] == [] ==> ends[i + 1] != "\n")
  }

  /** `s.splitlines()`: the lines of s without their terminators; a final
      terminator does not open an empty line. */
  function SplitLines(s: string): (lines: seq<string>)
    ensures forall i :: 0 <= i < |lines| ==> NoLineBreak(lines[i])
    decreases |s|
  {
    if s == [] then []
    else
      var i := FirstLineBreak(s);
      if i == |s| then [s]
      else
        var next := if s[i] == '\r' && i + 1 < |s| && s[i + 1] == '\n' then i + 2 else i + 1;
        assert NoLineBreak(s[..i]);
        [s[..i]] + SplitLines(s[next..])
  }

  /** The lines of s, each put back with the terminator it had, rebuild s;
      those terminators are ones `splitlines` recognises. */
  /** Non-empty text without a line boundary is a single line. */
  lemma SplitLinesSingle(s: string)
    ensures s != [] && NoLineBreak(s) ==> SplitLines(s) == [s]
  {
    if s != [] && NoLineBreak(s) {
      assert FirstLineBreak(s) == |s|;
    }
  }

  lemma {:induction false} SplitLinesRebuilds(s: string)
    ensures exists ends :: Terminated(SplitLines(s), ends) && Terminate(SplitLines(s), ends) == s
    decreases |s|
  {
    var i := FirstLineBreak(s);
    if s == [] {
      assert SplitLines(s) == [];
      assert Terminated([], []) && Terminate([], []) == s;
    } else if i == |s| {
      SplitLinesUnbroken(s);
    } else {
      var next := if s[i] == '\r' && i + 1 < |s| && s[i + 1] == '\n' then i + 2 else i + 1;
      assert SplitLines(s) == [s[..i]] + SplitLines(s[next..]);
      SplitLinesRebuilds(s[next..]);
      SplitLinesStep(s, i, next, SplitLines(s[next..]));
    }
  }

  /** Text without a boundary is one unterminated line. */
  lemma SplitLinesUnbroken(s: string)
    requires s != [] && FirstLineBreak(s) == |s|
    ensures Terminated(SplitLines(s), [[]]) && Terminate(SplitLines(s), [[]]) == s
  {
    assert SplitLines(s) == [s];
    assert Terminate([s], [[]]) == s + [] + [];
  }

  /** The first line and its terminator, put in front of the lines of the
      rest, rebuild s. */
  lemma SplitLinesStep(s: string, i: nat, next: nat, rest: seq<string>)
    requires i < |s| && IsLineBreak(s[i]) && NoLineBreak(s[..i])
    requires next == if s[i] == '\r' && i + 1 < |s| && s[i + 1] == '\n' then i + 2 else i + 1
    requires exists ends :: Terminated(rest, ends) && Terminate(rest, ends) == s[next..]
    ensures exists ends :: Terminated([s[..i]] + rest, ends) && Terminate([s[..i]] + rest, ends) == s
  {
    var ends :| Terminated(rest, ends) && Terminate(rest, ends) == s[next..];
    var t := s[i..next];
    assert s == s[..i] + t + s[next..];
    assert t == "\r" && rest != [] && rest[0] == [] ==> ends[0] != "\n";
    TerminatedCons(s[..i], t, rest, ends);
    assert ([s[..i]] + rest)[1..] == rest;
    assert ([t] + ends)[1..] == ends;
    assert Terminate([s[..i]] + rest, [t] + ends) == s;
  }

  /** A terminated line put in front of terminated lines. */
  lemma TerminatedCons(line: string, t: string, rest: seq<string>, ends: seq<string>)
    requires NoLineBreak(line) && IsTerminator(t) && Terminated(rest, ends)
    requires t == "\r" && rest != [] && rest[0] == [] ==> ends[0] != "\n"
    ensures Terminated([line] + rest, [t] + ends)
  {
    var ls, es := [line] + rest, [t] + ends;
    assert forall i :: 0 < i < |ls| ==> ls[i] == rest[i - 1] && es[i] == ends[i - 1];
  }

  /** The lines of terminated lines are those lines. */
  lemma TerminatedTail(lines: seq<string>, ends: seq<string>)
    requires lines != [] && Terminated(lines, ends)
    ensures Terminated(lines[1..], ends[1..])
  {
    assert forall i :: 0 <= i < |lines| - 1 ==> lines[1..][i] == lines[i + 1] && ends[1..][i] == ends[i + 1];
  }

  /** What follows a terminator never starts with `\n` when that
      terminator is a lone `\r`. */
  lemma AfterTerminator(lines: seq<string>, ends: seq<string>)
    requires lines != [] && Terminated(lines, ends) && ends[0] == "\r"
    ensures var u := Terminate(lines[1..], ends[1..]); u == [] || u[0] != '\n'
  {
    TerminatedTail(lines, ends);
    var ls, es := lines[1..], ends[1..];
    if ls != [] {
      var u := Terminate(ls, es);
      assert u == ls[0] + es[0] + Terminate(ls[1..], es[1..]);
      if ls[0] != [] {
        assert u[0] == ls[0][0];
      } else {
        assert es[0] != [];
        assert u[0] == es[0][0];
      }
    }
  }

  /** A line and its terminator are split off as the first line, when a
      lone `\r` is not followed by `\n`. */
  lemma SplitLinesFront(line: string, t: string, u: string)
    requires NoLineBreak(line) && IsTerminator(t)
    requires t == "\r" ==> u == [] || u[0] != '\n'
    ensures SplitLines(line + t + u) == [line] + SplitLines(u)
  {
    var s := line + t + u;
    assert s[|line|] == t[0];
    assert FirstLineBreak(s) == |line|;
    assert s[..|line|] == line;
    if t == "\r\n" {
      assert s[|line| + 2..] == u;
    } else {
      assert s[|line| + 1..] == u;
    }
  }

  /** `splitlines` gives back every list of lines written out with
      terminators it recognises: it undoes Terminate. */
  lemma {:induction false} SplitLinesOfTerminated(lines: seq<string>, ends: seq<string>)
    requires Terminated(lines, ends)
    ensures SplitLines(Terminate(lines, ends)) == lines
    decreases |lines|
  {
    if lines != [] {
      var u := Terminate(lines[1..], ends[1..]);
      if ends[0] == [] {
        assert Terminate(lines, ends) == lines[0];
        assert FirstLineBreak(lines[0]) == |lines[0]|;
      } else {
        if ends[0] == "\r" {
          AfterTerminator(lines, ends);
        }
        SplitLinesFront(lines[0], ends[0], u);
        TerminatedTail(lines, ends);
        SplitLinesOfTerminated(lines[1..], ends[1..]);
        HeadSplit(lines);
      }
    }
  }

  lemma NoLineBreakConcat(a: string, b: string)
    requires NoLineBreak(a) && NoLineBreak(b)
    ensures NoLineBreak(a + b)
  {
    assert forall i :: |a| <= i < |a + b| ==> (a + b)[i] == b[i - |a|];
  }

  /** A line followed by `\n` is split off as the first line. */
  lemma SplitLinesAfterLine(line: string, rest: string)
    requires NoLineBreak(line)
    ensures SplitLines(line + "\n" + rest) == [line] + SplitLines(rest)
  {
    var s := line + "\n" + rest;
    var i := FirstLineBreak(s);
    assert s[|line|] == '\n';
    assert i == |line|;
    assert s[..i] == line;
    assert s[i + 1..] == rest;
  }

  /** Joining lines with `\n` and splitting them again gives them back, when
      no line holds a boundary and the last one is not empty. */
  lemma {:induction false} SplitLinesOfJoin(lines: seq<string>)
    requires forall i :: 0 <= i < |lines| ==> NoLineBreak(lines[i])
    requires lines == [] || lines[|lines| - 1] != []
    ensures SplitLines(Join(lines, "\n")) == lines
  {
    if |lines| == 1 {
      var s := lines[0];
      assert FirstLineBreak(s) == |s|;
    } else if |lines| > 1 {
      SplitLinesAfterLine(lines[0], Join(lines[1..], "\n"));
      SplitLinesOfJoin(lines[1..]);
      assert [lines[0]] + lines[1..] == lines;
    }
  }

  // ---------------------------------------------------------------- digits

  /** The end of the run of `[0-9]` characters that starts at i. */
  function DigitRun(s: string, i: nat): (j: nat)
    requires i <= |s|
    ensures i <= j <= |s|
    ensures forall k :: i <= k < j ==> IsDigit(s[k])
    ensures j < |s| ==> !IsDigit(s[j])
    decreases |s| - i
  {
    if i < |s| && IsDigit(s[i]) then DigitRun(s, i + 1) else i
  }

  /** A non-empty sequence is its first element and its tail. */
  lemma HeadSplit<T>(s: seq<T>)
    requires s != []
    ensures [s[0]] + s[1..] == s
  {
  }

  /** A non-empty sequence is its prefix and its last element. */
  lemma LastSplit<T>(s: seq<T>, n: nat)
    requires n + 1 == |s|
    ensures s[..n] + [s[n]] == s
  {
  }
}

/** The project version: parsing it with the regular expression
    `^(0|[1-9][0-9]*)\.(0|[1-9][0-9]*)(?:\.(0|[1-9][0-9]*))?` (item 2 of
    Semantic Versioning 2.0.0: no leading zeros), writing it back as
    `major.minor.patch`, and the three bumps of items 6 to 8. */
module SemVer {
  import opened Failures
  import opened PyStr

  datatype Version = Version(major: nat, minor: nat, patch: nat)

  /** Which component a bump increments. */
  datatype Level = Major | Minor | Patch

  function DigitValue(c: char): (d: nat)
    requires IsDigit(c)
    ensures d < 10
  {
    (c as int) - ('0' as int)
  }

  function DigitChar(d: nat): (c: char)
    requires d < 10
    ensures IsDigit(c) && DigitValue(c) == d
  {
    (('0' as int) + d) as char
  }

  /** The number a string of decimal digits denotes. */
  function DigitsValue(s: string): nat
    requires forall i :: 0 <= i < |s| ==> IsDigit(s[i])
  {
    if s == [] then 0 else 10 * DigitsValue(s[..|s| - 1]) + DigitValue(s[|s| - 1])
  }

  /** `str(n)`: decimal digits without a leading zero. */
  function NatToString(n: nat): (s: string)
    ensures s != []
    ensures forall i :: 0 <= i < |s| ==> IsDigit(s[i])
    ensures s[0] == '0' <==> n == 0
    ensures n == 0 ==> s == "0"
    ensures DigitsValue(s) == n
  {
    if n < 10 then [DigitChar(n)]
    else
      var s := NatToString(n / 10) + [DigitChar(n % 10)];
      assert s[..|s| - 1] == NatToString(n / 10);
      s
  }

  /** Digits without a leading zero are the printed form of the number
      they denote, and that number is not 0. */
  lemma {:induction false} DigitsRoundTrip(d: string)
    requires d != [] && d[0] != '0'
    requires forall i :: 0 <= i < |d| ==> IsDigit(d[i])
    ensures DigitsValue(d) > 0 && NatToString(DigitsValue(d)) == d
  {
    if |d| == 1 {
      assert DigitChar(DigitValue(d[0])) == d[0];
    } else {
      var init, last := d[..|d| - 1], d[|d| - 1];
      assert init + [last] == d;
      DigitsRoundTrip(init);
      var q, r := DigitsValue(init), DigitValue(last);
      assert DigitsValue(d) == 10 * q + r;
      NatToStringStep(q, r);
      assert DigitChar(r) == last;
    }
  }

  /** Printing a number with one more digit appends that digit. */
  lemma NatToStringStep(q: nat, r: nat)
    requires q > 0 && r < 10
    ensures 10 * q + r > 0 && NatToString(10 * q + r) == NatToString(q) + [DigitChar(r)]
  {
    DivideByTen(q, r);
  }

  lemma DivideByTen(q: nat, r: nat)
    requires r < 10
    ensures (10 * q + r) / 10 == q && (10 * q + r) % 10 == r
  {
  }

  /** `major.minor.patch`, the form `semver` prints; it parses back to the
      version. */
  function FormatVersion(v: Version): (r: string)
    ensures ParseVersion(r) == Ok(v)
  {
    var r := NatToString(v.major) + "." + NatToString(v.minor) + "." + NatToString(v.patch);
    ParsePrinted(v, []);
    assert r + [] == r;
    r
  }

  /** The sub-expression `0|[1-9][0-9]*` matched at position i: the number
      its digits denote and the position after them. A `0` is read alone;
      any other first digit takes every digit that follows. */
  function NumberAt(s: string, i: nat): (r: Option<(nat, nat)>)
    requires i <= |s|
    ensures r.Some? <==> i < |s| && IsDigit(s[i])
    ensures r.Some? ==> i < r.value.1 <= |s| && forall k :: i <= k < r.value.1 ==> IsDigit(s[k])
    ensures r.Some? ==> r.value.0 == DigitsValue(s[i..r.value.1])
    ensures r.Some? && s[i] == '0' ==> r.value == (0, i + 1)
    ensures r.Some? && s[i] != '0' ==> r.value.1 == |s| || !IsDigit(s[r.value.1])
  {
    if i < |s| && s[i] == '0' then
      assert DigitsValue(s[i..i + 1]) == 0 by {
        assert s[i..i + 1][..0] == [];
      }
      Some((0, i + 1))
    else if i < |s| && IsDigit(s[i]) then
      var j := DigitRun(s, i);
      Some((DigitsValue(s[i..j]), j))
    else None
  }

  /** s opens with a match of the version expression whose groups denote v:
      the major number, a dot and the minor number, each written without a
      leading zero, the minor taking every digit that follows unless it is
      0 (the `0` alternative is tried first and nothing after the match has
      to fit); then, when a dot and a digit follow, the patch number read
      the same way, otherwise a patch of 0. */
  ghost predicate Denotes(s: string, v: Version)
  {
    OpensWith(s, NatToString(v.major), NatToString(v.minor), NatToString(v.patch))
  }

  /** s opens with `a.b` and, when a dot and a digit follow, with `a.b.c`;
      otherwise c is `0`. */
  ghost predicate OpensWith(s: string, a: string, b: string, c: string)
  {
    HeadIs(s, a, b) && PatchIs(s, |a| + 1 + |b|, c)
  }

  /** s opens with `a.b`, and b is not followed by a digit unless it is `0`. */
  ghost predicate HeadIs(s: string, a: string, b: string)
  {
    var j := |a| + 1 + |b|;
    && j <= |s| && s[..j] == a + "." + b
    && (b == "0" || j == |s| || !IsDigit(s[j]))
  }

  /** When a dot and a digit follow position j, c stands after the dot and
      is not followed by a digit unless it is `0`; otherwise c is `0`. */
  ghost predicate PatchIs(s: string, j: nat, c: string)
  {
    if j + 1 < |s| && s[j] == '.' && IsDigit(s[j + 1]) then
      && j + 1 + |c| <= |s| && s[j + 1..j + 1 + |c|] == c
      && (c == "0" || j + 1 + |c| == |s| || !IsDigit(s[j + 1 + |c|]))
    else c == "0"
  }

  /** The version regular expression matched at the start of s, the
      missing patch read as 0 and any text after the match ignored. */
  function ParseVersion(s: string): (r: Result<Version>)
    ensures r.Err? ==> r.error == VersionError(s)
    ensures r.Ok? ==> s != [] && IsDigit(s[0])
  {
    var first := NumberAt(s, 0);
    if first.None? then Err(VersionError(s))
    else
      var i := first.value.1;
      if !(i < |s| && s[i] == '.') then Err(VersionError(s))
      else
        var second := NumberAt(s, i + 1);
        if second.None? then Err(VersionError(s))
        else
          var j := second.value.1;
          var patch := if j < |s| && s[j] == '.' then NumberAt(s, j + 1) else None;
          Ok(Version(first.value.0, second.value.0, if patch.Some? then patch.value.0 else 0))
  }

  /** `semver.bump_major`, `bump_minor`, `bump_patch`: a later version that
      raises the bumped component and keeps the ones above it. */
  function Bump(v: Version, level: Level): (r: Version)
    ensures Precedes(v, r) && Raises(v, level, r)
    ensures level != Major ==> r.major == v.major
    ensures level == Patch ==> r.minor == v.minor
  {
    match level
    case Major => Version(v.major + 1, 0, 0)
    case Minor => Version(v.major, v.minor + 1, 0)
    case Patch => Version(v.major, v.minor, v.patch + 1)
  }

  /** Precedence of release versions (item 11 of Semantic Versioning 2.0.0). */
  predicate Precedes(a: Version, b: Version)
  {
    a.major < b.major
    || (a.major == b.major && a.minor < b.minor)
    || (a.major == b.major && a.minor == b.minor && a.patch < b.patch)
  }

  /** w raises the component a bump of that level increments: a greater
      major number for a major bump, a later `major.minor` for a minor one,
      any later version for a patch one. */
  predicate Raises(v: Version, level: Level, w: Version)
  {
    match level
    case Major => w.major > v.major
    case Minor => Precedes(v, w) && (w.major, w.minor) != (v.major, v.minor)
    case Patch => Precedes(v, w)
  }

  /** Each bump raises its component, and no version that raises it comes
      before the bump. */
  lemma BumpIsLeast(v: Version, level: Level, w: Version)
    ensures Precedes(v, Bump(v, level))
    ensures Raises(v, level, Bump(v, level))
    ensures Raises(v, level, w) ==> !Precedes(w, Bump(v, level))
  {
  }

  /** The least version raising the bumped component is unique, so it is the
      bump: a major bump is `(M+1).0.0`, a minor one `M.(m+1).0` and a patch
      one `M.m.(p+1)`. */
  lemma BumpUnique(v: Version, level: Level, w: Version)
    requires Raises(v, level, w)
    requires forall u :: Raises(v, level, u) ==> !Precedes(u, w)
    ensures w == Bump(v, level)
  {
    var b := Bump(v, level);
    BumpIsLeast(v, level, w);
    assert Raises(v, level, b) && !Precedes(b, w);
    PrecedesTotal(w, b);
  }

  /** Precedence is a total order on versions. */
  lemma PrecedesTotal(a: Version, b: Version)
    requires !Precedes(a, b) && !Precedes(b, a)
    ensures a == b
  {
  }

  // ---------------------------------------------------------------- round trip

  /** What ParseVersion returns once the numbers in s are known. */
  lemma ParseVersionOf(s: string, major: nat, i: nat, minor: nat, j: nat, patch: Option<(nat, nat)>)
    requires NumberAt(s, 0) == Some((major, i))
    requires i < |s| && s[i] == '.'
    requires NumberAt(s, i + 1) == Some((minor, j))
    requires patch == if j < |s| && s[j] == '.' then NumberAt(s, j + 1) else None
    ensures ParseVersion(s) == Ok(Version(major, minor, if patch.Some? then patch.value.0 else 0))
  {
  }

  /** What ParseVersion returns for three numbers separated by dots. */
  lemma ParseVersionOfThree(s: string, major: nat, i: nat, minor: nat, j: nat, patch: nat, k: nat)
    requires NumberAt(s, 0) == Some((major, i))
    requires i < |s| && s[i] == '.'
    requires NumberAt(s, i + 1) == Some((minor, j))
    requires j < |s| && s[j] == '.'
    requires NumberAt(s, j + 1) == Some((patch, k))
    ensures ParseVersion(s) == Ok(Version(major, minor, patch))
  {
    ParseVersionOf(s, major, i, minor, j, Some((patch, k)));
  }

  /** The printed form of n is matched whole after p when no digit
      follows it. */
  lemma NumberAtPrintedIn(s: string, p: string, n: nat, t: string)
    requires s == p + NatToString(n) + t && (t == [] || !IsDigit(t[0]))
    ensures NumberAt(s, |p|) == Some((n, |p| + |NatToString(n)|))
  {
    var d, i := NatToString(n), |p|;
    assert s[i..i + |d|] == d;
    assert i + |d| < |s| ==> s[i + |d|] == t[0];
    NumberAtOf(s, i, n, d);
  }

  lemma MajorPrinted(s: string, a: string, rest: string, major: nat)
    requires a == NatToString(major) && s == a + rest && rest != [] && rest[0] == '.'
    ensures NumberAt(s, 0) == Some((major, |a|)) && |a| < |s| && s[|a|] == '.'
  {
    assert s == [] + a + rest;
    NumberAtPrintedIn(s, [], major, rest);
  }

  lemma MinorPrinted(s: string, p: string, b: string, rest: string, minor: nat, i: nat, j: nat)
    requires b == NatToString(minor) && s == p + b + rest && rest != [] && rest[0] == '.'
    requires |p| == i + 1 && j == i + 1 + |b|
    ensures NumberAt(s, i + 1) == Some((minor, j)) && j < |s| && s[j] == '.'
  {
    NumberAtPrintedIn(s, p, minor, rest);
  }

  lemma PatchPrinted(s: string, p: string, c: string, rest: string, patch: nat, j: nat, k: nat)
    requires c == NatToString(patch) && s == p + c + rest && (rest == [] || !IsDigit(rest[0]))
    requires |p| == j + 1 && k == j + 1 + |c|
    ensures NumberAt(s, j + 1) == Some((patch, k))
  {
    NumberAtPrintedIn(s, p, patch, rest);
  }

  /** The printed components of v, followed by anything that does not
      start with a digit, parse back to v. */
  lemma ParsePrinted(v: Version, rest: string)
    requires rest == [] || !IsDigit(rest[0])
    ensures ParseVersion(NatToString(v.major) + "." + NatToString(v.minor) + "." + NatToString(v.patch) + rest) == Ok(v)
  {
    var a, b, c := NatToString(v.major), NatToString(v.minor), NatToString(v.patch);
    var s := a + "." + b + "." + c + rest;
    var i, j, k := |a|, |a| + 1 + |b|, |a| + 1 + |b| + 1 + |c|;
    Regroup(a, ".", b, ".", c, rest);
    MajorPrinted(s, a, "." + b + "." + c + rest, v.major);
    MinorPrinted(s, a + ".", b, "." + c + rest, v.minor, i, j);
    PatchPrinted(s, a + "." + b + ".", c, rest, v.patch, j, k);
    ParseVersionOfThree(s, v.major, i, v.minor, j, v.patch, k);
  }

  /** The ways of cutting `a.b.c` + rest that the printed-form lemmas use. */
  lemma Regroup<T>(a: seq<T>, d: seq<T>, b: seq<T>, e: seq<T>, c: seq<T>, rest: seq<T>)
    ensures a + d + b + e + c + rest == a + (d + b + e + c + rest)
    ensures a + d + b + e + c + rest == (a + d) + b + (e + c + rest)
  {
  }

  /** Writing a version out and parsing it again gives it back, whatever
      follows it as long as that does not start with a digit: the text
      `qual_version` hands to `semver` loses nothing. */
  lemma ParseFormatted(v: Version, rest: string)
    requires rest == [] || !IsDigit(rest[0])
    ensures ParseVersion(FormatVersion(v) + rest) == Ok(v)
  {
    ParsePrinted(v, rest);
  }

  /** The minor number of `major.minor`, followed by text that starts with
      neither a digit nor a dot, is read where it stands, and no patch
      number follows. */
  lemma MinorLast(s: string, p: string, b: string, rest: string, minor: nat, i: nat, j: nat)
    requires b == NatToString(minor) && s == p + b + rest
    requires rest == [] || (!IsDigit(rest[0]) && rest[0] != '.')
    requires |p| == i + 1 && j == i + 1 + |b|
    ensures NumberAt(s, i + 1) == Some((minor, j)) && !(j < |s| && s[j] == '.')
  {
    NumberAtPrintedIn(s, p, minor, rest);
    assert j < |s| ==> s[j] == rest[0];
  }

  /** A version written with two components has patch 0. */
  lemma {:induction false} ParseWithoutPatch(major: nat, minor: nat, rest: string)
    requires rest == [] || (!IsDigit(rest[0]) && rest[0] != '.')
    ensures ParseVersion(NatToString(major) + "." + NatToString(minor) + rest) == Ok(Version(major, minor, 0))
  {
    var a, b := NatToString(major), NatToString(minor);
    var s := a + "." + b + rest;
    var i, j := |a|, |a| + 1 + |b|;
    assert s == a + ("." + b + rest);
    MajorPrinted(s, a, "." + b + rest, major);
    assert s == (a + ".") + b + rest;
    MinorLast(s, a + ".", b, rest, minor, i, j);
    ParseVersionOf(s, major, i, minor, j, None);
  }

  /** A major component with a leading zero is refused, and so is text that
      does not start with a digit. */
  lemma RejectsLeadingZero(s: string)
    requires (|s| >= 2 && s[0] == '0' && IsDigit(s[1])) || s == [] || !IsDigit(s[0])
    ensures ParseVersion(s) == Err(VersionError(s))
  {
  }

  /** The printed form d of n, standing at position i and not followed by a
      digit unless n is 0, is the number NumberAt reads there. */
  lemma NumberAtOf(s: string, i: nat, n: nat, d: string)
    requires d == NatToString(n)
    requires i + |d| <= |s| && s[i..i + |d|] == d
    requires d == "0" || i + |d| == |s| || !IsDigit(s[i + |d|])
    ensures NumberAt(s, i) == Some((n, i + |d|))
  {
    assert s[i] == d[0];
    if d != "0" {
      assert n != 0;
      assert forall k :: i <= k < i + |d| ==> IsDigit(s[k]) by {
        forall k | i <= k < i + |d| ensures IsDigit(s[k]) {
          assert s[k] == d[k - i];
        }
      }
      var j := DigitRun(s, i);
      assert j == i + |d|;
    }
  }

  /** The number NumberAt reads is written at its position in printed form. */
  lemma NumberAtPrintedForm(s: string, i: nat)
    requires i <= |s| && NumberAt(s, i).Some?
    ensures var r := NumberAt(s, i).value; s[i..r.1] == NatToString(r.0)
  {
    var r := NumberAt(s, i).value;
    if s[i] != '0' {
      DigitsRoundTrip(s[i..r.1]);
    }
  }

  lemma PrintedAt(s: string, i: nat, n: nat, j: nat)
    requires i <= |s| && NumberAt(s, i) == Some((n, j))
    ensures i <= j <= |s| && s[i..j] == NatToString(n) && j == i + |NatToString(n)|
  {
    NumberAtPrintedForm(s, i);
  }

  /** The opening `major.minor` of a text, cut at the dot. */
  lemma HeadParts(s: string, a: string, b: string)
    requires |a| + 1 + |b| <= |s| && s[..|a| + 1 + |b|] == a + "." + b
    ensures s[0..|a|] == a && s[|a|] == '.' && s[|a| + 1..|a| + 1 + |b|] == b
  {
    var j := |a| + 1 + |b|;
    assert s[..j][..|a|] == s[0..|a|];
    assert s[..j][|a| + 1..] == s[|a| + 1..j];
  }

  /** A text whose opening match denotes v parses to v. */
  lemma DenotesParse(s: string, v: Version)
    requires Denotes(s, v)
    ensures ParseVersion(s) == Ok(v)
  {
    OpensWithParse(s, NatToString(v.major), NatToString(v.minor), NatToString(v.patch), v);
  }

  lemma OpensWithParse(s: string, a: string, b: string, c: string, v: Version)
    requires a == NatToString(v.major) && b == NatToString(v.minor) && c == NatToString(v.patch)
    requires OpensWith(s, a, b, c)
    ensures ParseVersion(s) == Ok(v)
  {
    var j := |a| + 1 + |b|;
    HeadNumbers(s, a, b, v.major, v.minor);
    var patch := if j < |s| && s[j] == '.' then NumberAt(s, j + 1) else None;
    PatchNumber(s, j, c, v.patch);
    ParseVersionOf(s, v.major, |a|, v.minor, j, patch);
  }

  /** The numbers of an opening `a.b` are read where they stand. */
  lemma HeadNumbers(s: string, a: string, b: string, major: nat, minor: nat)
    requires a == NatToString(major) && b == NatToString(minor)
    requires HeadIs(s, a, b)
    ensures NumberAt(s, 0) == Some((major, |a|)) && |a| < |s| && s[|a|] == '.'
    ensures NumberAt(s, |a| + 1) == Some((minor, |a| + 1 + |b|))
  {
    HeadMajor(s, a, b, major);
    HeadMinor(s, a, b, minor);
  }

  lemma HeadMajor(s: string, a: string, b: string, major: nat)
    requires a == NatToString(major) && HeadIs(s, a, b)
    ensures NumberAt(s, 0) == Some((major, |a|)) && |a| < |s| && s[|a|] == '.'
  {
    HeadParts(s, a, b);
    NumberAtOf(s, 0, major, a);
  }

  lemma HeadMinor(s: string, a: string, b: string, minor: nat)
    requires b == NatToString(minor) && HeadIs(s, a, b)
    ensures NumberAt(s, |a| + 1) == Some((minor, |a| + 1 + |b|))
  {
    HeadParts(s, a, b);
    NumberAtOf(s, |a| + 1, minor, b);
  }

  /** The patch number after position j is c's, or 0 without a dot and a
      digit there. */
  lemma PatchNumber(s: string, j: nat, c: string, patch: nat)
    requires c == NatToString(patch) && j <= |s| && PatchIs(s, j, c)
    ensures var p := if j < |s| && s[j] == '.' then NumberAt(s, j + 1) else None;
      (if p.Some? then p.value.0 else 0) == patch
  {
    if j + 1 < |s| && s[j] == '.' && IsDigit(s[j + 1]) {
      NumberAtOf(s, j + 1, patch, c);
    } else {
      PatchAbsent(s, j, c, patch);
    }
  }

  /** Without a dot and a digit after the minor number, the patch is 0. */
  lemma PatchAbsent(s: string, j: nat, c: string, patch: nat)
    requires c == NatToString(patch) && j <= |s|
    requires !(j + 1 < |s| && s[j] == '.' && IsDigit(s[j + 1])) && c == "0"
    ensures patch == 0 && (j < |s| && s[j] == '.' ==> NumberAt(s, j + 1).None?)
  {
  }

  /** What a parse returns is denoted by the text's opening match. */
  lemma ParseDenotes(s: string)
    requires ParseVersion(s).Ok?
    ensures Denotes(s, ParseVersion(s).value)
  {
    var i := NumberAt(s, 0).value.1;
    var j := NumberAt(s, i + 1).value.1;
    var patch := if j < |s| && s[j] == '.' then NumberAt(s, j + 1) else None;
    var v := Version(NumberAt(s, 0).value.0, NumberAt(s, i + 1).value.0, if patch.Some? then patch.value.0 else 0);
    ParseVersionOf(s, v.major, i, v.minor, j, patch);
    NumbersDenote(s, v, i, j, patch);
  }

  /** Numbers read as the parse reads them denote the version they form. */
  lemma NumbersDenote(s: string, v: Version, i: nat, j: nat, patch: Option<(nat, nat)>)
    requires NumberAt(s, 0) == Some((v.major, i))
    requires i < |s| && s[i] == '.'
    requires NumberAt(s, i + 1) == Some((v.minor, j))
    requires patch == if j < |s| && s[j] == '.' then NumberAt(s, j + 1) else None
    requires v.patch == if patch.Some? then patch.value.0 else 0
    ensures Denotes(s, v)
  {
    var a, b, c := NatToString(v.major), NatToString(v.minor), NatToString(v.patch);
    PrintedAt(s, 0, v.major, i);
    PrintedAt(s, i + 1, v.minor, j);
    HeadOfNumbers(s, i, j, a, b);
    PatchOfNumber(s, j, patch, v.patch);
    OpensWithDenotes(s, v, a, b, c, j);
  }

  lemma OpensWithDenotes(s: string, v: Version, a: string, b: string, c: string, j: nat)
    requires a == NatToString(v.major) && b == NatToString(v.minor) && c == NatToString(v.patch)
    requires j == |a| + 1 + |b|
    requires HeadIs(s, a, b)
    requires PatchIs(s, j, c)
    ensures Denotes(s, v)
  {
  }

  /** A number read at the start of a text, a dot, and a second number
      read after it form an opening `a.b`. */
  lemma HeadOfNumbers(s: string, i: nat, j: nat, a: string, b: string)
    requires i < |s| && s[i] == '.' && NumberAt(s, i + 1).Some? && NumberAt(s, i + 1).value.1 == j
    requires a == s[0..i] && b == s[i + 1..j]
    ensures HeadIs(s, a, b)
  {
    HeadJoined(s, a, b);
  }

  /** The parts of an opening `a.b`, put together. */
  lemma HeadJoined(s: string, a: string, b: string)
    requires |a| + 1 + |b| <= |s| && s[0..|a|] == a && s[|a|] == '.'
    requires s[|a| + 1..|a| + 1 + |b|] == b
    ensures s[..|a| + 1 + |b|] == a + "." + b
  {
    var j := |a| + 1 + |b|;
    assert s[..j] == s[0..|a|] + [s[|a|]] + s[|a| + 1..j];
  }

  /** The patch a parse reads after position j is written there in printed
      form, or is 0 when none is read. */
  lemma PatchOfNumber(s: string, j: nat, patch: Option<(nat, nat)>, p: nat)
    requires j <= |s| && patch == (if j < |s| && s[j] == '.' then NumberAt(s, j + 1) else None)
    requires p == if patch.Some? then patch.value.0 else 0
    ensures PatchIs(s, j, NatToString(p))
  {
    if j + 1 < |s| && s[j] == '.' && IsDigit(s[j + 1]) {
      NumberAtPrintedForm(s, j + 1);
    }
  }

  /** The parse gives v exactly when the text opens with a match that
      denotes v, and fails exactly when it opens with no match at all. */
  lemma ParseVersionDenotes(s: string, v: Version)
    ensures ParseVersion(s) == Ok(v) <==> Denotes(s, v)
    ensures ParseVersion(s).Err? <==> forall w :: !Denotes(s, w)
  {
    if Denotes(s, v) {
      DenotesParse(s, v);
    }
    if ParseVersion(s).Ok? {
      ParseDenotes(s);
    } else {
      forall w ensures !Denotes(s, w) {
        if Denotes(s, w) {
          DenotesParse(s, w);
        }
      }
    }
  }

  /** A major number alone, a dot without a minor number, and text that
      does not open with a digit are refused. */
  lemma ParseVersionRefuses()
    ensures ParseVersion("1").Err? && ParseVersion("1.").Err? && ParseVersion("1.x").Err?
    ensures ParseVersion("v1.2").Err?
  {
  }

  /** A second dot not followed by a digit ends the match early with
      patch 0. */
  lemma ParseVersionStopsEarly()
    ensures ParseVersion("1.2.x") == Ok(Version(1, 2, 0))
  {
    assert "1.2.x"[2..3] == "2";
  }

  /** A minor number with a leading zero is read as 0 and ends the match. */
  lemma ParseVersionZeroMinor()
    ensures ParseVersion("1.01") == Ok(Version(1, 0, 0))
  {
    assert "1.01"[2..3] == "0";
  }

  /** Text after a full match is ignored. */
  lemma ParseVersionIgnoresRest()
    ensures ParseVersion("1.2.3rc1") == Ok(Version(1, 2, 3))
  {
    ParsePrinted(Version(1, 2, 3), "rc1");
    assert NatToString(1) == "1" && NatToString(2) == "2" && NatToString(3) == "3";
    assert "1" + "." == "1.";
    assert "1." + "2" == "1.2";
    assert "1.2" + "." == "1.2.";
    assert "1.2." + "3" == "1.2.3";
    assert "1.2.3" + "rc1" == "1.2.3rc1";
  }
}

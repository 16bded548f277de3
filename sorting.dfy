/** Python's ordering of `str` values (lexicographic by code point) and
    `sorted` on lists of strings, as used for the directory listing and for
    the footnote block. */
module Sorting {

  /** `a <= b` on Python strings. */
  predicate LexLe(a: string, b: string)
  {
    a == [] || (b != [] && (a[0] < b[0] || (a[0] == b[0] && LexLe(a[1..], b[1..]))))
  }

  lemma {:induction false} LexLeReflexive(a: string)
    ensures LexLe(a, a)
  {
    if a != [] {
      LexLeReflexive(a[1..]);
    }
  }

  lemma {:induction false} LexLeTotal(a: string, b: string)
    ensures LexLe(a, b) || LexLe(b, a)
  {
    if a != [] && b != [] && a[0] == b[0] {
      LexLeTotal(a[1..], b[1..]);
    }
  }

  lemma {:induction false} LexLeTransitive(a: string, b: string, c: string)
    requires LexLe(a, b) && LexLe(b, c)
    ensures LexLe(a, c)
  {
    if a != [] && a[0] == b[0] && b[0] == c[0] {
      LexLeTransitive(a[1..], b[1..], c[1..]);
    }
  }

  lemma {:induction false} LexLeAntisymmetric(a: string, b: string)
    requires LexLe(a, b) && LexLe(b, a)
    ensures a == b
  {
    if a != [] && b != [] {
      LexLeAntisymmetric(a[1..], b[1..]);
      assert a == [a[0]] + a[1..];
      assert b == [b[0]] + b[1..];
    }
  }

  predicate Sorted(s: seq<string>)
  {
    forall i, j :: 0 <= i < j < |s| ==> LexLe(s[i], s[j])
  }

  ghost predicate Distinct<T>(s: seq<T>)
  {
    forall i, j :: 0 <= i < j < |s| ==> s[i] != s[j]
  }

  lemma SortedCons(x: string, s: seq<string>)
    requires Sorted(s)
    requires forall z :: z in s ==> LexLe(x, z)
    ensures Sorted([x] + s)
  {
    var r := [x] + s;
    forall i, j | 0 <= i < j < |r| ensures LexLe(r[i], r[j]) {
      if i > 0 {
        assert r[i] == s[i - 1] && r[j] == s[j - 1];
      } else {
        assert r[j] in s;
      }
    }
  }

  /** Puts x in front of the first element it does not exceed. */
  function Insert(x: string, s: seq<string>): (r: seq<string>)
    requires Sorted(s)
    ensures Sorted(r)
    ensures multiset(r) == multiset(s) + multiset{x}
  {
    if s == [] then [x]
    else if LexLe(x, s[0]) then
      InsertFirst(x, s);
      [x] + s
    else
      LexLeTotal(x, s[0]);
      SortedRest(s);
      var r := Insert(x, s[1..]);
      InsertLater(x, s, r);
      [s[0]] + r
  }

  lemma SortedRest(s: seq<string>)
    requires s != [] && Sorted(s)
    ensures Sorted(s[1..])
  {
    assert forall i :: 0 <= i < |s| - 1 ==> s[1..][i] == s[i + 1];
  }

  /** x goes first when it does not exceed the first element. */
  lemma InsertFirst(x: string, s: seq<string>)
    requires s != [] && Sorted(s) && LexLe(x, s[0])
    ensures Sorted([x] + s)
  {
    forall z | z in s ensures LexLe(x, z) {
      if z != s[0] {
        var k :| 0 <= k < |s| && s[k] == z;
        assert LexLe(s[0], s[k]);
        LexLeTransitive(x, s[0], z);
      }
    }
    SortedCons(x, s);
  }

  /** x goes after the first element, into the rest. */
  lemma InsertLater(x: string, s: seq<string>, r: seq<string>)
    requires s != [] && Sorted(s) && LexLe(s[0], x)
    requires Sorted(r) && multiset(r) == multiset(s[1..]) + multiset{x}
    ensures Sorted([s[0]] + r)
    ensures multiset([s[0]] + r) == multiset(s) + multiset{x}
  {
    assert Sorted([s[0]] + r) by {
      forall z | z in r ensures LexLe(s[0], z) {
        assert z in multiset(r);
        if z != x {
          assert z in multiset(s[1..]);
          var k :| 0 <= k < |s[1..]| && s[1..][k] == z;
          assert s[k + 1] == z;
        }
      }
      SortedCons(s[0], r);
    }
    assert multiset([s[0]] + r) == multiset(s) + multiset{x} by {
      assert s == [s[0]] + s[1..];
    }
  }

  /** `sorted(xs)` for a list of strings. */
  function SortStrings(xs: seq<string>): (r: seq<string>)
    ensures Sorted(r)
    ensures multiset(r) == multiset(xs)
  {
    if xs == [] then []
    else
      assert xs == [xs[0]] + xs[1..];
      Insert(xs[0], SortStrings(xs[1..]))
  }

  /** Two sorted arrangements of the same strings open with the same one:
      each first string is at most the other. */
  lemma SameHead(a: seq<string>, b: seq<string>)
    requires Sorted(a) && Sorted(b)
    requires multiset(a) == multiset(b)
    requires a != []
    ensures b != [] && a[0] == b[0]
  {
    assert a[0] in multiset(b) && b != [];
    assert b[0] in multiset(a);
    var i :| 0 <= i < |b| && b[i] == a[0];
    var j :| 0 <= j < |a| && a[j] == b[0];
    assert LexLe(b[0], a[0]) by {
      if i > 0 {
        assert LexLe(b[0], b[i]);
      } else {
        LexLeReflexive(a[0]);
      }
    }
    assert LexLe(a[0], b[0]) by {
      if j > 0 {
        assert LexLe(a[0], a[j]);
      } else {
        LexLeReflexive(a[0]);
      }
    }
    LexLeAntisymmetric(a[0], b[0]);
  }

  /** Two sorted arrangements of the same strings are the same list: the
      result of `sorted` does not depend on the order it was given. */
  lemma {:induction false} SortedUnique(a: seq<string>, b: seq<string>)
    requires Sorted(a) && Sorted(b)
    requires multiset(a) == multiset(b)
    ensures a == b
  {
    if a != [] {
      SameHead(a, b);
      var ta, tb := a[1..], b[1..];
      SortedRest(a);
      SortedRest(b);
      TailMultiset(a, ta);
      TailMultiset(b, tb);
      SortedUnique(ta, tb);
      assert a == [a[0]] + ta && b == [b[0]] + tb;
    } else {
      assert |b| == |multiset(b)| == 0;
    }
  }

  /** The tail of a sequence holds all its elements but the first. */
  lemma TailMultiset<T>(s: seq<T>, tail: seq<T>)
    requires s != [] && tail == s[1..]
    ensures multiset(tail) == multiset(s) - multiset{s[0]}
  {
    assert s == [s[0]] + tail;
  }

  lemma {:induction false} DistinctCount<T>(s: seq<T>, x: T)
    requires Distinct(s)
    ensures multiset(s)[x] <= 1
  {
    if s != [] {
      var init := s[..|s| - 1];
      assert s == init + [s[|s| - 1]];
      DistinctCount(init, x);
      if s[|s| - 1] == x {
        assert x !in init;
      }
    }
  }

  /** A rearrangement of a list without repetitions has none either. */
  lemma DistinctPermutation<T>(a: seq<T>, b: seq<T>)
    requires Distinct(a)
    requires multiset(a) == multiset(b)
    ensures Distinct(b)
  {
    forall i, j | 0 <= i < j < |b| ensures b[i] != b[j] {
      if b[i] == b[j] {
        var x := b[i];
        assert b == b[..j] + b[j..];
        assert x in b[..j] && x == b[j..][0];
        assert multiset(b[..j])[x] >= 1 && multiset(b[j..])[x] >= 1;
        DistinctCount(a, x);
        assert false;
      }
    }
  }

  /** Sorted and without repetitions: each string is strictly below the next. */
  lemma StrictlySorted(s: seq<string>)
    requires Sorted(s) && Distinct(s)
    ensures forall i, j :: 0 <= i < j < |s| ==> LexLe(s[i], s[j]) && !LexLe(s[j], s[i])
  {
    forall i, j | 0 <= i < j < |s| ensures !LexLe(s[j], s[i]) {
      if LexLe(s[j], s[i]) {
        LexLeAntisymmetric(s[i], s[j]);
      }
    }
  }
}

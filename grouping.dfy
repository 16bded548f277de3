/** `group_by_type`: fragments stable-sorted by the position of their type in
    the list of known change types (major keys, then minor, then patch), then
    cut into runs of one type as `itertools.groupby` does. */
module Grouping {
  import opened Failures
  import opened Fragments

  /** One `(type, fragments)` pair that `groupby` yields. */
  datatype Group = Group(changeType: string, fragments: seq<Fragment>)

  /** `known.index(t)`, with |known| standing for the `ValueError`. */
  function Position(known: seq<string>, t: string): (i: nat)
    ensures i <= |known|
    ensures i < |known| <==> t in known
    ensures i < |known| ==> known[i] == t
    ensures forall j :: 0 <= j < i ==> known[j] != t
  {
    if known == [] || known[0] == t then 0 else 1 + Position(known[1..], t)
  }

  function UnknownMessage(t: string): string
  {
    "Unknown fragment type " + t + ". Misconfiguration or just a typo?"
  }

  /** The index of the first fragment whose type is not known, or |frs|:
      `sorted` computes every key before it orders anything, so this is the
      fragment whose key raises. */
  function FirstUnknown(known: seq<string>, frs: seq<Fragment>): (i: nat)
    ensures i <= |frs|
    ensures i < |frs| ==> frs[i].changeType !in known
    ensures forall j :: 0 <= j < i ==> frs[j].changeType in known
  {
    if frs == [] || frs[0].changeType !in known then 0 else 1 + FirstUnknown(known, frs[1..])
  }

  /** The fragments of type t, in their order in s. */
  function OfType(s: seq<Fragment>, t: string): (r: seq<Fragment>)
    ensures forall f :: f in r ==> f in s && f.changeType == t
    ensures (forall i :: 0 <= i < |s| ==> s[i].changeType != t) ==> r == []
  {
    if s == [] then []
    else if s[0].changeType == t then [s[0]] + OfType(s[1..], t)
    else OfType(s[1..], t)
  }

  predicate SortedByPosition(known: seq<string>, s: seq<Fragment>)
  {
    forall i, j :: 0 <= i < j < |s| ==> Position(known, s[i].changeType) <= Position(known, s[j].changeType)
  }

  /** Puts f in front of the first fragment whose key is not smaller, so
      that f precedes the fragments of its own type. */
  function InsertByPosition(known: seq<string>, f: Fragment, s: seq<Fragment>): (r: seq<Fragment>)
    requires SortedByPosition(known, s)
    ensures SortedByPosition(known, r)
    ensures multiset(r) == multiset(s) + multiset{f}
  {
    if s == [] || Position(known, f.changeType) <= Position(known, s[0].changeType) then
      InsertFront(known, f, s);
      [f] + s
    else
      SortedTail(known, s);
      var rest := InsertByPosition(known, f, s[1..]);
      InsertBehind(known, f, s, rest);
      [s[0]] + rest
  }

  lemma SortedTail(known: seq<string>, s: seq<Fragment>)
    requires s != [] && SortedByPosition(known, s)
    ensures SortedByPosition(known, s[1..])
  {
    assert forall i :: 0 <= i < |s| - 1 ==> s[1..][i] == s[i + 1];
  }

  /** The first fragment of a sorted list comes no later than any other. */
  lemma SortedHead(known: seq<string>, s: seq<Fragment>)
    requires s != [] && SortedByPosition(known, s)
    ensures forall y :: y in s ==> Position(known, s[0].changeType) <= Position(known, y.changeType)
  {
    forall y | y in s ensures Position(known, s[0].changeType) <= Position(known, y.changeType) {
      var k :| 0 <= k < |s| && s[k] == y;
      assert k == 0 || Position(known, s[0].changeType) <= Position(known, s[k].changeType);
    }
  }

  /** f goes first when it does not come after the first fragment. */
  lemma InsertFront(known: seq<string>, f: Fragment, s: seq<Fragment>)
    requires SortedByPosition(known, s)
    requires s == [] || Position(known, f.changeType) <= Position(known, s[0].changeType)
    ensures SortedByPosition(known, [f] + s)
    ensures multiset([f] + s) == multiset(s) + multiset{f}
  {
    if s != [] {
      SortedHead(known, s);
    }
    SortedPrepend(known, f, s);
  }

  /** f goes after the first fragment, into the rest. */
  lemma InsertBehind(known: seq<string>, f: Fragment, s: seq<Fragment>, rest: seq<Fragment>)
    requires s != [] && SortedByPosition(known, s)
    requires Position(known, s[0].changeType) < Position(known, f.changeType)
    requires SortedByPosition(known, rest) && multiset(rest) == multiset(s[1..]) + multiset{f}
    ensures SortedByPosition(known, [s[0]] + rest)
    ensures multiset([s[0]] + rest) == multiset(s) + multiset{f}
  {
    assert SortedByPosition(known, [s[0]] + rest) by {
      SortedHead(known, s);
      forall y | y in rest ensures Position(known, s[0].changeType) <= Position(known, y.changeType) {
        assert y in multiset(rest);
        if y != f {
          assert y in multiset(s[1..]);
          assert y in s;
        }
      }
      SortedPrepend(known, s[0], rest);
    }
    assert multiset([s[0]] + rest) == multiset(s) + multiset{f} by {
      assert s == [s[0]] + s[1..];
    }
  }

  lemma SortedPrepend(known: seq<string>, x: Fragment, s: seq<Fragment>)
    requires SortedByPosition(known, s)
    requires forall y :: y in s ==> Position(known, x.changeType) <= Position(known, y.changeType)
    ensures SortedByPosition(known, [x] + s)
  {
    var r := [x] + s;
    forall i, j | 0 <= i < j < |r| ensures Position(known, r[i].changeType) <= Position(known, r[j].changeType) {
      if i > 0 {
        assert r[i] == s[i - 1] && r[j] == s[j - 1];
      } else {
        assert r[j] in s;
      }
    }
  }

  /** Inserting f adds it in front of the fragments of its type and leaves
      the fragments of every other type as they were. */
  lemma {:induction false} InsertOfType(known: seq<string>, f: Fragment, s: seq<Fragment>, t: string)
    requires SortedByPosition(known, s)
    ensures OfType(InsertByPosition(known, f, s), t) == if f.changeType == t then [f] + OfType(s, t) else OfType(s, t)
  {
    if !(s == [] || Position(known, f.changeType) <= Position(known, s[0].changeType)) {
      InsertOfType(known, f, s[1..], t);
      var rest := InsertByPosition(known, f, s[1..]);
      assert InsertByPosition(known, f, s) == [s[0]] + rest;
      assert s[0].changeType != f.changeType;
    }
  }

  /** `sorted(fragments, key=by_order)`: a stable sort, so fragments of one
      type keep the order they were listed in. */
  function SortByPosition(known: seq<string>, s: seq<Fragment>): (r: seq<Fragment>)
    ensures SortedByPosition(known, r)
    ensures multiset(r) == multiset(s)
  {
    if s == [] then []
    else
      assert s == [s[0]] + s[1..];
      InsertByPosition(known, s[0], SortByPosition(known, s[1..]))
  }

  /** The sort is stable: the fragments of each type stay in list order. */
  lemma {:induction false} SortOfType(known: seq<string>, s: seq<Fragment>, t: string)
    ensures OfType(SortByPosition(known, s), t) == OfType(s, t)
  {
    if s != [] {
      SortOfType(known, s[1..], t);
      InsertOfType(known, s[0], SortByPosition(known, s[1..]), t);
    }
  }

  function Flatten(gs: seq<Group>): seq<Fragment>
  {
    if gs == [] then [] else gs[0].fragments + Flatten(gs[1..])
  }

  function Types(gs: seq<Group>): (ts: seq<string>)
    ensures |ts| == |gs|
    ensures forall i :: 0 <= i < |gs| ==> ts[i] == gs[i].changeType
  {
    seq(|gs|, i requires 0 <= i < |gs| => gs[i].changeType)
  }

  /** A group as `groupby` yields it: non-empty, every fragment of its type. */
  predicate Uniform(g: Group)
  {
    g.fragments != [] && forall f :: f in g.fragments ==> f.changeType == g.changeType
  }

  /** gs cuts s into runs: the groups flatten back to s, each holds
      fragments of its own type only, and neighbouring groups differ in
      type. */
  predicate IsRuns(s: seq<Fragment>, gs: seq<Group>)
  {
    && Flatten(gs) == s
    && (forall i :: 0 <= i < |gs| ==> Uniform(gs[i]))
    && (forall i :: 0 <= i < |gs| - 1 ==> gs[i].changeType != gs[i + 1].changeType)
  }

  /** `itertools.groupby(s, key=by_type)`: maximal runs of one type. */
  function Runs(s: seq<Fragment>): (gs: seq<Group>)
    ensures IsRuns(s, gs)
    ensures s == [] <==> gs == []
    ensures s != [] ==> gs[0].changeType == s[0].changeType
  {
    if s == [] then []
    else
      var rest := Runs(s[1..]);
      if rest != [] && rest[0].changeType == s[0].changeType then
        RunsJoin(s, rest);
        [Group(s[0].changeType, [s[0]] + rest[0].fragments)] + rest[1..]
      else
        RunsOpen(s, rest);
        [Group(s[0].changeType, [s[0]])] + rest
  }

  /** The first fragment joins the first run of the rest. */
  lemma RunsJoin(s: seq<Fragment>, rest: seq<Group>)
    requires s != [] && IsRuns(s[1..], rest)
    requires rest != [] && rest[0].changeType == s[0].changeType
    ensures IsRuns(s, [Group(s[0].changeType, [s[0]] + rest[0].fragments)] + rest[1..])
  {
    var g := Group(s[0].changeType, [s[0]] + rest[0].fragments);
    var gs := [g] + rest[1..];
    assert Flatten(gs) == s by {
      assert Flatten(rest) == rest[0].fragments + Flatten(rest[1..]);
      assert s == [s[0]] + s[1..];
    }
    assert Uniform(g) by {
      assert Uniform(rest[0]);
    }
    assert forall i :: 0 < i < |gs| ==> gs[i] == rest[i];
  }

  /** The first fragment opens a run of its own. */
  lemma RunsOpen(s: seq<Fragment>, rest: seq<Group>)
    requires s != [] && IsRuns(s[1..], rest)
    requires rest == [] || rest[0].changeType != s[0].changeType
    ensures IsRuns(s, [Group(s[0].changeType, [s[0]])] + rest)
  {
    var gs := [Group(s[0].changeType, [s[0]])] + rest;
    assert Flatten(gs) == s by {
      assert s == [s[0]] + s[1..];
    }
    assert forall i :: 0 < i < |gs| ==> gs[i] == rest[i - 1];
  }

  /** Every fragment's type is the type of one of its runs. */
  lemma {:induction false} RunsCover(s: seq<Fragment>)
    ensures forall k :: 0 <= k < |s| ==> s[k].changeType in Types(Runs(s))
  {
    if s != [] {
      RunsCover(s[1..]);
      var rest, gs := Runs(s[1..]), Runs(s);
      assert gs[0].changeType == s[0].changeType;
      forall k | 1 <= k < |s| ensures s[k].changeType in Types(gs) {
        assert s[k] == s[1..][k - 1];
        var i :| 0 <= i < |rest| && Types(rest)[i] == s[k].changeType;
        if rest[0].changeType == s[0].changeType {
          assert i == 0 || gs[i] == rest[i];
        } else {
          assert gs[i + 1] == rest[i];
        }
      }
    }
  }

  /** Every group has a known type, and the groups come in strictly
      increasing position of their types. */
  predicate Increasing(known: seq<string>, gs: seq<Group>)
  {
    && (forall i :: 0 <= i < |gs| ==> gs[i].changeType in known)
    && (forall i, j :: 0 <= i < j < |gs| ==>
          Position(known, gs[i].changeType) < Position(known, gs[j].changeType))
  }

  /** A group that takes the place of the first one, with the same type. */
  lemma IncreasingJoin(known: seq<string>, g: Group, rest: seq<Group>)
    requires rest != [] && Increasing(known, rest) && g.changeType == rest[0].changeType
    ensures Increasing(known, [g] + rest[1..])
  {
    var gs := [g] + rest[1..];
    forall i | 0 <= i < |gs| ensures gs[i].changeType in known {
      assert i == 0 || gs[i] == rest[i];
    }
    forall i, j | 0 <= i < j < |gs|
      ensures Position(known, gs[i].changeType) < Position(known, gs[j].changeType)
    {
      assert gs[j] == rest[j];
      if i > 0 {
        assert gs[i] == rest[i];
      } else {
        assert gs[i].changeType == rest[0].changeType;
      }
    }
  }

  /** A group in front, of a known type that comes before the first one. */
  lemma IncreasingOpen(known: seq<string>, g: Group, rest: seq<Group>)
    requires g.changeType in known && Increasing(known, rest)
    requires rest != [] ==> Position(known, g.changeType) < Position(known, rest[0].changeType)
    ensures Increasing(known, [g] + rest)
  {
    var gs := [g] + rest;
    forall i | 0 <= i < |gs| ensures gs[i].changeType in known {
      if i > 0 {
        assert gs[i] == rest[i - 1];
      }
    }
    forall i, j | 0 <= i < j < |gs|
      ensures Position(known, gs[i].changeType) < Position(known, gs[j].changeType)
    {
      assert gs[j] == rest[j - 1];
      if i > 0 {
        assert gs[i] == rest[i - 1];
      } else if j > 1 {
        assert Position(known, rest[0].changeType) < Position(known, rest[j - 1].changeType);
      }
    }
  }

  /** The runs of a list sorted by position come in strictly increasing
      order of the known types. */
  lemma {:induction false} RunsIncreasing(known: seq<string>, s: seq<Fragment>)
    requires SortedByPosition(known, s)
    requires forall k :: 0 <= k < |s| ==> s[k].changeType in known
    ensures Increasing(known, Runs(s))
  {
    if s != [] {
      var t, tail := s[0].changeType, s[1..];
      SortedTail(known, s);
      forall k | 0 <= k < |tail| ensures tail[k].changeType in known {
        assert tail[k] == s[k + 1];
      }
      RunsIncreasing(known, tail);
      var rest := Runs(tail);
      if rest != [] && rest[0].changeType == t {
        var g := Group(t, [s[0]] + rest[0].fragments);
        assert Runs(s) == [g] + rest[1..];
        IncreasingJoin(known, g, rest);
      } else {
        var g := Group(t, [s[0]]);
        assert Runs(s) == [g] + rest;
        if rest != [] {
          assert tail[0] == s[1] && rest[0].changeType == tail[0].changeType;
          assert Position(known, t) <= Position(known, s[1].changeType);
        }
        IncreasingOpen(known, g, rest);
      }
    }
  }

  /** Each run of a list sorted by position holds every fragment of its
      type, in list order. */
  lemma {:induction false} RunsOfSorted(known: seq<string>, s: seq<Fragment>)
    requires SortedByPosition(known, s)
    requires forall k :: 0 <= k < |s| ==> s[k].changeType in known
    ensures forall i :: 0 <= i < |Runs(s)| ==> Runs(s)[i].fragments == OfType(s, Runs(s)[i].changeType)
  {
    if s != [] {
      var tail := s[1..];
      assert SortedByPosition(known, tail) && forall k :: 0 <= k < |tail| ==> tail[k].changeType in known by {
        assert forall k :: 0 <= k < |tail| ==> tail[k] == s[k + 1];
      }
      RunsOfSorted(known, tail);
      var rest := Runs(tail);
      if rest != [] && rest[0].changeType == s[0].changeType {
        RunsOfSortedJoin(known, s);
      } else {
        RunsOfSortedOpen(known, s);
      }
    }
  }

  /** The step of RunsOfSorted where the first fragment joins the first run
      of the rest. */
  lemma {:induction false} RunsOfSortedJoin(known: seq<string>, s: seq<Fragment>)
    requires s != [] && SortedByPosition(known, s[1..])
    requires forall k :: 0 <= k < |s| - 1 ==> s[1..][k].changeType in known
    requires Runs(s[1..]) != [] && Runs(s[1..])[0].changeType == s[0].changeType
    requires forall i :: 0 <= i < |Runs(s[1..])| ==>
      Runs(s[1..])[i].fragments == OfType(s[1..], Runs(s[1..])[i].changeType)
    ensures forall i :: 0 <= i < |Runs(s)| ==> Runs(s)[i].fragments == OfType(s, Runs(s)[i].changeType)
  {
    var t, tail := s[0].changeType, s[1..];
    var rest, gs := Runs(tail), Runs(s);
    RunsIncreasing(known, tail);
    assert gs[0].fragments == OfType(s, t);
    forall i | 0 < i < |gs| ensures gs[i].fragments == OfType(s, gs[i].changeType) {
      assert gs[i] == rest[i];
    }
  }

  /** The step of RunsOfSorted where the first fragment opens a run of its
      own. */
  lemma {:induction false} RunsOfSortedOpen(known: seq<string>, s: seq<Fragment>)
    requires s != [] && SortedByPosition(known, s)
    requires forall k :: 0 <= k < |s| ==> s[k].changeType in known
    requires Runs(s[1..]) == [] || Runs(s[1..])[0].changeType != s[0].changeType
    requires forall i :: 0 <= i < |Runs(s[1..])| ==>
      Runs(s[1..])[i].fragments == OfType(s[1..], Runs(s[1..])[i].changeType)
    ensures forall i :: 0 <= i < |Runs(s)| ==> Runs(s)[i].fragments == OfType(s, Runs(s)[i].changeType)
  {
    var t, tail := s[0].changeType, s[1..];
    var rest, gs := Runs(tail), Runs(s);
    OpenTypeAbsent(known, s);
    assert gs[0].fragments == OfType(s, t);
    forall i | 0 < i < |gs| ensures gs[i].fragments == OfType(s, gs[i].changeType) {
      assert gs[i] == rest[i - 1];
      assert Uniform(rest[i - 1]);
    }
  }

  /** A fragment that opens a run of its own is the only one of its type in
      a list sorted by position. */
  lemma OpenTypeAbsent(known: seq<string>, s: seq<Fragment>)
    requires s != [] && SortedByPosition(known, s)
    requires forall k :: 0 <= k < |s| ==> s[k].changeType in known
    requires Runs(s[1..]) == [] || Runs(s[1..])[0].changeType != s[0].changeType
    ensures OfType(s[1..], s[0].changeType) == []
  {
    var t, tail := s[0].changeType, s[1..];
    if tail != [] {
      assert Runs(tail)[0].changeType == s[1].changeType;
      assert Position(known, t) < Position(known, s[1].changeType) by {
        assert Position(known, t) <= Position(known, s[1].changeType);
      }
      forall k | 0 <= k < |tail| ensures tail[k].changeType != t {
        assert tail[k] == s[k + 1];
        assert k == 0 || Position(known, s[1].changeType) <= Position(known, s[k + 1].changeType);
      }
    }
  }

  /** The runs of a list sorted by position: one group per type, the groups
      in the order of the known types, each holding every fragment of its
      type in list order, and no fragment left without its group. */
  predicate GroupsOf(known: seq<string>, s: seq<Fragment>, gs: seq<Group>)
  {
    && (forall i :: 0 <= i < |gs| ==> Uniform(gs[i]) && gs[i].changeType in known)
    && (forall i :: 0 <= i < |gs| ==> gs[i].fragments == OfType(s, gs[i].changeType))
    && (forall i, j :: 0 <= i < j < |gs| ==>
          Position(known, gs[i].changeType) < Position(known, gs[j].changeType))
    && (forall k :: 0 <= k < |s| ==> s[k].changeType in Types(gs))
  }

  /** The type of the first group is known and comes first among the
      types of all the fragments. */
  lemma FirstGroupFirstType(known: seq<string>, s: seq<Fragment>, gs: seq<Group>)
    requires GroupsOf(known, s, gs) && gs != []
    ensures forall k :: 0 <= k < |s| ==>
      s[k].changeType in known && Position(known, gs[0].changeType) <= Position(known, s[k].changeType)
  {
    forall k | 0 <= k < |s|
      ensures s[k].changeType in known && Position(known, gs[0].changeType) <= Position(known, s[k].changeType)
    {
      var i :| 0 <= i < |gs| && Types(gs)[i] == s[k].changeType;
      assert i == 0 || Position(known, gs[0].changeType) < Position(known, gs[i].changeType);
    }
  }

  /** `group_by_type(fragments, changes_types)`: the first fragment (in
      list order) whose type is unknown raises. */
  function GroupByType(frs: seq<Fragment>, known: seq<string>): (r: Result<seq<Group>>)
    ensures r.Err? <==> FirstUnknown(known, frs) < |frs|
    ensures r.Err? ==> r.error == InvalidFragment(frs[FirstUnknown(known, frs)].path,
                                      UnknownMessage(frs[FirstUnknown(known, frs)].changeType))
  {
    var u := FirstUnknown(known, frs);
    if u < |frs| then Err(InvalidFragment(frs[u].path, UnknownMessage(frs[u].changeType)))
    else Ok(Runs(SortByPosition(known, frs)))
  }

  /** The runs of a list sorted by position, all of whose types are known,
      are its groups. */
  lemma RunsGroups(known: seq<string>, s: seq<Fragment>)
    requires SortedByPosition(known, s)
    requires forall k :: 0 <= k < |s| ==> s[k].changeType in known
    ensures GroupsOf(known, s, Runs(s))
  {
    RunsIncreasing(known, s);
    RunsOfSorted(known, s);
    RunsCover(s);
  }

  /** Groups of a list are groups of any rearrangement of it that keeps the
      fragments of each type in order. */
  lemma GroupsOfRearranged(known: seq<string>, s: seq<Fragment>, u: seq<Fragment>, gs: seq<Group>)
    requires GroupsOf(known, s, gs)
    requires multiset(s) == multiset(u)
    requires forall t :: OfType(s, t) == OfType(u, t)
    ensures GroupsOf(known, u, gs)
  {
    forall i | 0 <= i < |gs| ensures gs[i].fragments == OfType(u, gs[i].changeType) {
      assert OfType(s, gs[i].changeType) == OfType(u, gs[i].changeType);
    }
    forall k | 0 <= k < |u| ensures u[k].changeType in Types(gs) {
      assert u[k] in multiset(s);
      var m :| 0 <= m < |s| && s[m] == u[k];
    }
  }

  /** When every type is known, the grouping has one group per type that
      occurs, in the order of the known types, each holding every fragment
      of its type in list order, and it rearranges the fragments without
      losing or adding any. */
  lemma GroupByTypeGroups(frs: seq<Fragment>, known: seq<string>)
    requires GroupByType(frs, known).Ok?
    ensures GroupsOf(known, frs, GroupByType(frs, known).value)
    ensures multiset(Flatten(GroupByType(frs, known).value)) == multiset(frs)
  {
    var sorted := SortByPosition(known, frs);
    var gs := Runs(sorted);
    assert GroupByType(frs, known).value == gs;
    assert forall k :: 0 <= k < |sorted| ==> sorted[k].changeType in known by {
      forall k | 0 <= k < |sorted| ensures sorted[k].changeType in known {
        assert sorted[k] in multiset(frs);
      }
    }
    RunsGroups(known, sorted);
    forall t ensures OfType(sorted, t) == OfType(frs, t) {
      SortOfType(known, frs, t);
    }
    GroupsOfRearranged(known, sorted, frs, gs);
  }
}

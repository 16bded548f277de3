/** Python dictionaries as the changelog command uses them: insertion-ordered
    mappings from change-type tags to section titles. A dictionary is the
    list of its (key, value) items in insertion order. */
module Dicts {
  import opened Failures

  type Dict = seq<(string, string)>

  function Keys(d: Dict): (ks: seq<string>)
    ensures |ks| == |d|
    ensures forall i :: 0 <= i < |d| ==> ks[i] == d[i].0
  {
    seq(|d|, i requires 0 <= i < |d| => d[i].0)
  }

  ghost predicate UniqueKeys(d: Dict)
  {
    forall i, j :: 0 <= i < j < |d| ==> d[i].0 != d[j].0
  }

  /** The position of key k in d, or |d| when k is absent. */
  function Find(d: Dict, k: string): (i: nat)
    ensures i <= |d|
    ensures i < |d| ==> d[i].0 == k
    ensures forall j :: 0 <= j < i ==> d[j].0 != k
  {
    if d == [] || d[0].0 == k then 0 else 1 + Find(d[1..], k)
  }

  lemma FindInKeys(d: Dict, k: string)
    ensures Find(d, k) < |d| <==> k in Keys(d)
  {
    if k in Keys(d) {
      var i :| 0 <= i < |d| && Keys(d)[i] == k;
      assert d[i].0 == k;
    }
  }

  /** Find is determined by its contract: the first position holding k. */
  lemma FindIsFirst(d: Dict, k: string, i: nat)
    requires i <= |d|
    requires i < |d| ==> d[i].0 == k
    requires forall j :: 0 <= j < i ==> d[j].0 != k
    ensures Find(d, k) == i
  {
  }

  lemma FindSameKeys(d: Dict, e: Dict, k: string)
    requires Keys(d) == Keys(e)
    ensures Find(d, k) == Find(e, k)
  {
    var a := Find(d, k);
    assert forall j :: 0 <= j < |d| ==> d[j].0 == Keys(d)[j] == Keys(e)[j] == e[j].0;
    FindIsFirst(e, k, a);
  }

  /** `d.get(k)`: the value of the first item with key k, if there is one. */
  function Get(d: Dict, k: string): (r: Option<string>)
    ensures r.Some? <==> k in Keys(d)
    ensures r.Some? ==> (k, r.value) in d
  {
    FindInKeys(d, k);
    var i := Find(d, k);
    if i < |d| then Some(d[i].1) else None
  }

  /** `d[k] = v`: an existing key keeps its position and takes the new
      value; a new key is added at the end. */
  function Put(d: Dict, k: string, v: string): (r: Dict)
    ensures Get(r, k) == Some(v)
    ensures forall j :: j != k ==> Get(r, j) == Get(d, j)
    ensures Keys(r) == if k in Keys(d) then Keys(d) else Keys(d) + [k]
    ensures UniqueKeys(d) ==> UniqueKeys(r)
  {
    FindInKeys(d, k);
    var i := Find(d, k);
    if i < |d| then
      var r := d[i := (k, v)];
      assert Keys(r) == Keys(d);
      assert forall j :: Find(r, j) == Find(d, j) by {
        forall j ensures Find(r, j) == Find(d, j) {
          FindSameKeys(r, d, j);
        }
      }
      r
    else
      var r := d + [(k, v)];
      assert forall m :: 0 <= m < |d| ==> r[m] == d[m];
      assert Keys(r) == Keys(d) + [k];
      FindIsFirst(r, k, |d|);
      assert forall j :: j != k ==> Get(r, j) == Get(d, j) by {
        forall j | j != k ensures Get(r, j) == Get(d, j) {
          if Find(d, j) < |d| {
            FindIsFirst(r, j, Find(d, j));
          } else {
            FindIsFirst(r, j, |r|);
          }
        }
      }
      r
  }

  /** The value the last item with key k carries in a list of items, as
      building a dictionary from that list keeps it. */
  function LastValue(items: seq<(string, string)>, k: string): Option<string>
  {
    if items == [] then None
    else if items[|items| - 1].0 == k then Some(items[|items| - 1].1)
    else LastValue(items[..|items| - 1], k)
  }

  /** `d.update(items)`, and with an empty d, `OrderedDict(items)`: the items
      are put one after the other. */
  function Update(d: Dict, items: seq<(string, string)>): (r: Dict)
    ensures forall k :: Get(r, k) == if LastValue(items, k).Some? then LastValue(items, k) else Get(d, k)
    ensures |d| <= |r| && Keys(r)[..|d|] == Keys(d)
    ensures forall k :: k in Keys(r) <==> k in Keys(d) || k in Keys(items)
    ensures AppendedInOrder(d, items, r)
    ensures UniqueKeys(d) ==> UniqueKeys(r)
  {
    if items == [] then d
    else
      var init := items[..|items| - 1];
      var last := items[|items| - 1];
      var prev := Update(d, init);
      KeysLast(items);
      var r := Put(prev, last.0, last.1);
      UpdateStep(d, items, prev, r);
      r
  }

  /** The keys that follow d's own in r are new to d, come from items, and
      stand in the order of their first occurrence in items. */
  ghost predicate AppendedInOrder(d: Dict, items: seq<(string, string)>, r: Dict)
    requires |d| <= |r|
  {
    && (forall i :: |d| <= i < |r| ==> r[i].0 !in Keys(d) && r[i].0 in Keys(items))
    && (forall i, j :: |d| <= i < j < |r| ==> Find(items, r[i].0) < Find(items, r[j].0))
  }

  /** Putting the last item keeps the new keys in first-occurrence order. */
  lemma UpdateStep(d: Dict, items: seq<(string, string)>, prev: Dict, r: Dict)
    requires items != []
    requires |d| <= |prev| && Keys(prev)[..|d|] == Keys(d)
    requires forall k :: k in Keys(prev) <==> k in Keys(d) || k in Keys(items[..|items| - 1])
    requires AppendedInOrder(d, items[..|items| - 1], prev)
    requires r == Put(prev, items[|items| - 1].0, items[|items| - 1].1)
    ensures |d| <= |r| && AppendedInOrder(d, items, r)
  {
    var k := items[|items| - 1].0;
    PutKeys(prev, k, items[|items| - 1].1);
    UpdateStepFresh(d, items, prev, r);
    if k !in Keys(prev) {
      FindLast(items);
    }
    UpdateStepOrder(d, items, prev, r);
  }

  /** The keys put after d's own are new to d and come from the items. */
  lemma UpdateStepFresh(d: Dict, items: seq<(string, string)>, prev: Dict, r: Dict)
    requires items != []
    requires |d| <= |prev|
    requires forall k :: k in Keys(prev) <==> k in Keys(d) || k in Keys(items[..|items| - 1])
    requires AppendedInOrder(d, items[..|items| - 1], prev)
    requires r == Put(prev, items[|items| - 1].0, items[|items| - 1].1)
    ensures |d| <= |r|
    ensures forall i :: |d| <= i < |r| ==> r[i].0 !in Keys(d) && r[i].0 in Keys(items)
  {
    KeysLast(items);
    PutKeys(prev, items[|items| - 1].0, items[|items| - 1].1);
    forall i | |d| <= i < |r| ensures r[i].0 !in Keys(d) && r[i].0 in Keys(items) {
      if i < |prev| {
        assert r[i].0 == prev[i].0;
      }
    }
  }

  /** The keys put after d's own follow their first occurrence in the items:
      r holds prev's keys in place and perhaps the last item's key after them. */
  lemma UpdateStepOrder(d: Dict, items: seq<(string, string)>, prev: Dict, r: Dict)
    requires items != []
    requires |d| <= |prev| <= |r|
    requires AppendedInOrder(d, items[..|items| - 1], prev)
    requires forall i :: 0 <= i < |prev| ==> r[i].0 == prev[i].0
    requires |r| != |prev| ==>
      |r| == |prev| + 1 && r[|prev|].0 == items[|items| - 1].0 && Find(items, r[|prev|].0) == |items| - 1
    ensures forall i, j :: |d| <= i < j < |r| ==> Find(items, r[i].0) < Find(items, r[j].0)
  {
    var init := items[..|items| - 1];
    forall i, j | |d| <= i < j < |r| ensures Find(items, r[i].0) < Find(items, r[j].0) {
      var x := r[i].0;
      assert x == prev[i].0 && x in Keys(init);
      FindInPrefix(items, x);
      if j < |prev| {
        var y := r[j].0;
        assert y == prev[j].0 && y in Keys(init);
        UpdateStepPair(items, x, y);
        assert Find(items, x) < Find(items, y);
      } else {
        assert j == |prev| && Find(items, r[j].0) == |items| - 1;
      }
    }
  }

  /** Two keys of the earlier items keep their order of first occurrence
      once the last item is added. */
  lemma UpdateStepPair(items: seq<(string, string)>, x: string, y: string)
    requires items != [] && x in Keys(items[..|items| - 1]) && y in Keys(items[..|items| - 1])
    requires Find(items[..|items| - 1], x) < Find(items[..|items| - 1], y)
    ensures Find(items, x) < Find(items, y)
  {
    FindInPrefix(items, x);
    FindInPrefix(items, y);
  }

  /** A key new in the last item is first found there. */
  lemma FindLast(items: seq<(string, string)>)
    requires items != [] && items[|items| - 1].0 !in Keys(items[..|items| - 1])
    ensures Find(items, items[|items| - 1].0) == |items| - 1
  {
    var init, k := items[..|items| - 1], items[|items| - 1].0;
    FindInKeys(init, k);
    assert Find(init, k) == |init|;
    forall j | 0 <= j < |init| ensures items[j].0 != k {
      var x := init[j];
      assert x.0 != k && x == items[j];
    }
    FindIsFirst(items, k, |init|);
  }

  lemma KeysLast(items: seq<(string, string)>)
    requires items != []
    ensures Keys(items) == Keys(items[..|items| - 1]) + [items[|items| - 1].0]
  {
  }

  /** Extending a list keeps the first position of every key it held. */
  lemma FindInPrefix(items: seq<(string, string)>, x: string)
    requires items != [] && x in Keys(items[..|items| - 1])
    ensures Find(items, x) == Find(items[..|items| - 1], x) < |items| - 1
  {
    var init := items[..|items| - 1];
    FindInKeys(init, x);
    FindIsFirst(items, x, Find(init, x));
  }

  /** Put keeps every key where it stands and adds a new one at the end. */
  lemma PutKeys(d: Dict, k: string, v: string)
    ensures var r := Put(d, k, v);
      && |d| <= |r|
      && (forall i :: 0 <= i < |d| ==> r[i].0 == d[i].0)
      && (k in Keys(d) ==> |r| == |d|)
      && (k !in Keys(d) ==> |r| == |d| + 1 && r[|d|].0 == k)
  {
    var r := Put(d, k, v);
    assert forall i :: 0 <= i < |d| ==> Keys(r)[i] == Keys(d)[i];
    if k !in Keys(d) {
      assert Keys(r)[|d|] == k;
    }
  }

  /** For a list with each key once, the last value of a key is its only one. */
  lemma {:induction false} LastValueUnique(items: seq<(string, string)>, k: string)
    requires UniqueKeys(items)
    ensures LastValue(items, k) == Get(items, k)
  {
    if items != [] {
      var init := items[..|items| - 1];
      LastValueUnique(init, k);
      var n := |items| - 1;
      if items[n].0 == k {
        assert Find(items, k) == n;
      } else {
        assert Find(items, k) == Find(init, k) || (Find(init, k) == |init| && Find(items, k) == |items|);
      }
    }
  }

  /** `OrderedDict(items)` of a list in which every key occurs once is that
      list, in that order. */
  lemma {:induction false} FromUniqueItems(items: seq<(string, string)>)
    requires UniqueKeys(items)
    ensures Update([], items) == items
  {
    if items != [] {
      var init, last := items[..|items| - 1], items[|items| - 1];
      assert items == init + [last];
      assert UniqueKeys(init) && last.0 !in Keys(init) by {
        assert forall i :: 0 <= i < |init| ==> init[i] == items[i];
      }
      FromUniqueItems(init);
      assert Update([], items) == Put(init, last.0, last.1);
      PutNew(init, last.0, last.1);
    }
  }

  /** A key not yet present is added at the end. */
  lemma PutNew(d: Dict, k: string, v: string)
    requires k !in Keys(d)
    ensures Put(d, k, v) == d + [(k, v)]
  {
    FindInKeys(d, k);
  }
}

/**
 * The search agenda: candidate paths with their accumulated cost, kept in
 * order of cost by a stable sort, so that among equal costs the entry that
 * was on the agenda first stays first.
 */
module Agenda {
  import opened Osm

  /** A candidate path and its accumulated cost. */
  datatype Entry = Entry(path: seq<NodeId>, cost: real)

  predicate SortedByCost(s: seq<Entry>)
  {
    forall i, j :: 0 <= i < j < |s| ==> s[i].cost <= s[j].cost
  }

  /** The entries of `s` whose cost is `c`, in their order in `s`. */
  function WithCost(s: seq<Entry>, c: real): seq<Entry>
  {
    if s == [] then []
    else (if s[0].cost == c then [s[0]] else []) + WithCost(s[1..], c)
  }

  /**
   * Where a stable insertion puts `e`: after every entry that costs no
   * more than it, before every entry that costs more.
   */
  function InsertionPoint(s: seq<Entry>, e: Entry): (k: nat)
    requires SortedByCost(s)
    ensures k <= |s|
    ensures forall i :: 0 <= i < k ==> s[i].cost <= e.cost
    ensures forall i :: k <= i < |s| ==> e.cost < s[i].cost
    decreases |s|
  {
    if s == [] || e.cost < s[0].cost then 0 else 1 + InsertionPoint(s[1..], e)
  }

  /** Places `e` into a sorted agenda at its insertion point. */
  function Insert(s: seq<Entry>, e: Entry): (r: seq<Entry>)
    requires SortedByCost(s)
    ensures SortedByCost(r)
    ensures multiset(r) == multiset(s) + multiset{e}
  {
    var k := InsertionPoint(s, e);
    assert s == s[..k] + s[k..];
    s[..k] + [e] + s[k..]
  }

  /** Stable sort by cost (insertion sort). */
  function SortByCost(s: seq<Entry>): (r: seq<Entry>)
    ensures SortedByCost(r)
    ensures multiset(r) == multiset(s)
    decreases |s|
  {
    if s == [] then []
    else
      assert s == s[..|s| - 1] + [s[|s| - 1]];
      Insert(SortByCost(s[..|s| - 1]), s[|s| - 1])
  }

  /** Inserting `e` adds it after every entry of equal cost. */
  lemma InsertWithCost(s: seq<Entry>, e: Entry, c: real)
    requires SortedByCost(s)
    ensures WithCost(Insert(s, e), c) == WithCost(s, c) + (if e.cost == c then [e] else [])
  {
    var k := InsertionPoint(s, e);
    assert s == s[..k] + s[k..];
    SpliceWithCost(s[..k], e, s[k..], c);
  }

  lemma SpliceWithCost(lo: seq<Entry>, e: Entry, hi: seq<Entry>, c: real)
    requires forall i :: 0 <= i < |hi| ==> e.cost < hi[i].cost
    ensures WithCost(lo + [e] + hi, c) == WithCost(lo + hi, c) + (if e.cost == c then [e] else [])
  {
    var mid := if e.cost == c then [e] else [];
    assert WithCost([e] + hi, c) == mid + WithCost(hi, c) by {
      assert ([e] + hi)[1..] == hi;
    }
    assert lo + [e] + hi == lo + ([e] + hi);
    WithCostAppend(lo, [e] + hi, c);
    WithCostAppend(lo, hi, c);
    if e.cost == c {
      WithCostNone(hi, c);
      assert WithCost(lo, c) + (mid + []) == (WithCost(lo, c) + []) + mid;
    } else {
      assert WithCost(lo, c) + ([] + WithCost(hi, c)) == (WithCost(lo, c) + WithCost(hi, c)) + [];
    }
  }

  /** Nothing in `s` costs `c`. */
  lemma {:induction false} WithCostNone(s: seq<Entry>, c: real)
    requires forall i :: 0 <= i < |s| ==> s[i].cost != c
    ensures WithCost(s, c) == []
    decreases |s|
  {
    if s != [] {
      WithCostNone(s[1..], c);
    }
  }

  lemma {:induction false} WithCostAppend(s: seq<Entry>, u: seq<Entry>, c: real)
    ensures WithCost(s + u, c) == WithCost(s, c) + WithCost(u, c)
    decreases |s|
  {
    if s == [] {
      assert s + u == u;
    } else {
      assert (s + u)[1..] == s[1..] + u;
      WithCostAppend(s[1..], u, c);
    }
  }

  /**
   * The sort is stable: for every cost, the entries of that cost appear in
   * the result in the order they had in the input.
   */
  lemma {:induction false} SortByCostStable(s: seq<Entry>, c: real)
    ensures WithCost(SortByCost(s), c) == WithCost(s, c)
    decreases |s|
  {
    if s != [] {
      var init, last := s[..|s| - 1], s[|s| - 1];
      assert s == init + [last];
      assert SortByCost(s) == Insert(SortByCost(init), last);
      SortByCostStable(init, c);
      InsertWithCost(SortByCost(init), last, c);
      WithCostAppend(init, [last], c);
      assert WithCost([last], c) == (if last.cost == c then [last] else []) by {
        assert [last][1..] == [];
      }
    }
  }

  /** Sorting an agenda that is already in order leaves it unchanged. */
  lemma {:induction false} SortByCostSorted(s: seq<Entry>)
    requires SortedByCost(s)
    ensures SortByCost(s) == s
    decreases |s|
  {
    if s != [] {
      var init, last := s[..|s| - 1], s[|s| - 1];
      assert SortedByCost(init);
      SortByCostSorted(init);
      assert forall i :: 0 <= i < |init| ==> init[i].cost <= last.cost;
      InsertAtEnd(init, last);
      assert s == init + [last];
    }
  }

  lemma InsertAtEnd(s: seq<Entry>, e: Entry)
    requires SortedByCost(s)
    requires forall i :: 0 <= i < |s| ==> s[i].cost <= e.cost
    ensures Insert(s, e) == s + [e]
  {
    assert s == [] || s[|s| - 1].cost <= e.cost;
    assert InsertionPoint(s, e) == |s|;
    assert s[..|s|] == s;
  }
}

/**
 * The shortest-path search over node ids: a uniform-cost search whose
 * agenda holds (path, cost) entries, re-sorted by cost after every
 * expansion, with a set of expanded nodes that are never expanded twice.
 */
module PathSearch {
  import opened Osm
  import opened Options
  import opened RoadGraph
  import opened Agenda

  /** `e`'s path extended by `u`, at `e`'s cost plus the distance of the step. */
  function Extend(t: NodeTable, dist: Distance, e: Entry, u: NodeId): (r: Entry)
    requires |e.path| > 0
    ensures |r.path| == |e.path| + 1 && r.path[..|e.path|] == e.path && Last(r.path) == u
    ensures e.cost == PathCost(t, dist, e.path) ==> r.cost == PathCost(t, dist, r.path)
    ensures NonNegative(dist) ==> r.cost >= e.cost
  {
    PathCostAppend(t, dist, e.path, u);
    Entry(e.path + [u], e.cost + Weight(t, dist, Last(e.path), u))
  }

  /**
   * The entries one expansion adds: `e` extended by each child of the
   * expanded node, in children order, that is not yet expanded.
   */
  function Extensions(t: NodeTable, dist: Distance, e: Entry, children: seq<NodeId>,
                      expanded: set<NodeId>): (r: seq<Entry>)
    requires |e.path| > 0
    ensures forall x :: x in r ==>
              exists u :: u in children && u !in expanded && x == Extend(t, dist, e, u)
    ensures forall u :: u in children && u !in expanded ==> Extend(t, dist, e, u) in r
  {
    if children == [] then []
    else
      var rest := Extensions(t, dist, e, children[1..], expanded);
      var u := children[0];
      assert forall w :: w in children <==> w == u || w in children[1..];
      if u in expanded then rest
      else [Extend(t, dist, e, u)] + rest
  }

  // ---------------------------------------------------------------------
  // The loop invariant
  // ---------------------------------------------------------------------

  /**
   * An agenda entry: a walk from `start` whose cost is its path cost, that
   * repeats no node, all of whose nodes but the last are expanded, and whose
   * last node is a key of the table or the goal.
   */
  ghost predicate EntryOk(t: NodeTable, dist: Distance, start: NodeId, goal: NodeId,
                          expanded: set<NodeId>, e: Entry)
  {
    && IsPath(t, e.path) && e.path[0] == start
    && e.cost == PathCost(t, dist, e.path)
    && Distinct(e.path)
    && (forall i :: 0 <= i < |e.path| - 1 ==> e.path[i] in expanded)
    && (Last(e.path) in t.data || Last(e.path) == goal)
  }

  ghost predicate EntriesOk(t: NodeTable, dist: Distance, start: NodeId, goal: NodeId,
                            expanded: set<NodeId>, agenda: seq<Entry>)
  {
    forall j :: 0 <= j < |agenda| ==> EntryOk(t, dist, start, goal, expanded, agenda[j])
  }

  /** Some entry of the agenda ends at `u` and costs at most `c`. */
  ghost predicate Offers(agenda: seq<Entry>, u: NodeId, c: real)
  {
    exists j :: 0 <= j < |agenda| && |agenda[j].path| > 0 && Last(agenda[j].path) == u && agenda[j].cost <= c
  }

  /**
   * Every node next to the settled ones is on offer: the start until it is
   * expanded, and each unexpanded child of an expanded node at no more than
   * the cost of reaching it through that node.
   */
  ghost predicate Frontier(t: NodeTable, dist: Distance, start: NodeId, agenda: seq<Entry>,
                           settled: map<NodeId, real>)
  {
    && (start !in settled ==> Offers(agenda, start, 0.0))
    && (forall v, u :: v in settled && Edge(t, v, u) && u !in settled ==>
          Offers(agenda, u, settled[v] + Weight(t, dist, v, u)))
  }

  /** The cost at which each expanded node was expanded is the least cost of any walk to it. */
  ghost predicate SettledOptimal(t: NodeTable, dist: Distance, start: NodeId, settled: map<NodeId, real>)
  {
    forall q :: IsPath(t, q) && q[0] == start && Last(q) in settled ==>
      settled[Last(q)] <= PathCost(t, dist, q)
  }

  /**
   * The search state between iterations; `settled` records, for each
   * expanded node, the cost of the entry that expanded it.
   */
  ghost predicate Inv(t: NodeTable, dist: Distance, start: NodeId, goal: NodeId,
                      agenda: seq<Entry>, expanded: set<NodeId>, settled: map<NodeId, real>)
  {
    && SortedByCost(agenda)
    && EntriesOk(t, dist, start, goal, expanded, agenda)
    && expanded <= t.data.Keys
    && goal !in expanded
    && settled.Keys == expanded
    && Frontier(t, dist, start, agenda, settled)
    && SettledOptimal(t, dist, start, settled)
  }

  // ---------------------------------------------------------------------
  // Lemmas about the invariant
  // ---------------------------------------------------------------------

  lemma Initially(t: NodeTable, dist: Distance, start: NodeId, goal: NodeId)
    requires start in t.data || start == goal
    ensures Inv(t, dist, start, goal, [Entry([start], 0.0)], {}, map[])
  {
    assert Last([Entry([start], 0.0)][0].path) == start;
  }

  /** A walk that leaves a set of nodes has a step from inside to outside it. */
  lemma {:induction false} StepOut(q: seq<NodeId>, s: set<NodeId>) returns (i: nat)
    requires |q| > 0 && q[0] in s && Last(q) !in s
    ensures 0 < i < |q| && q[i - 1] in s && q[i] !in s
    decreases |q|
  {
    if q[|q| - 2] in s {
      i := |q| - 1;
    } else {
      i := StepOut(q[..|q| - 1], s);
    }
  }

  /** The head of a sorted agenda costs no more than anything on offer. */
  lemma HeadCostsLeast(agenda: seq<Entry>, u: NodeId, c: real)
    requires SortedByCost(agenda)
    requires Offers(agenda, u, c)
    ensures agenda != [] && agenda[0].cost <= c
  {
    var j :| 0 <= j < |agenda| && |agenda[j].path| > 0 && Last(agenda[j].path) == u && agenda[j].cost <= c;
    assert agenda[0].cost <= agenda[j].cost;
  }

  /**
   * The cheapest entry costs no more than any walk from the start to a node
   * that is not yet expanded.
   */
  lemma {:induction false} CheapestFirst(t: NodeTable, dist: Distance, start: NodeId, goal: NodeId,
                                         agenda: seq<Entry>, expanded: set<NodeId>, settled: map<NodeId, real>,
                                         q: seq<NodeId>)
    requires NonNegative(dist)
    requires Inv(t, dist, start, goal, agenda, expanded, settled)
    requires IsPath(t, q) && q[0] == start && Last(q) !in expanded
    ensures agenda != [] && agenda[0].cost <= PathCost(t, dist, q)
  {
    PathCostNonNegative(t, dist, q);
    if start !in expanded {
      HeadCostsLeast(agenda, start, 0.0);
    } else {
      var i := StepOut(q, expanded);
      var v, u := q[i - 1], q[i];
      PathPrefix(t, q, i);
      assert Last(q[..i]) == v;
      assert settled[v] <= PathCost(t, dist, q[..i]);
      assert Edge(t, v, u);
      assert Offers(agenda, u, settled[v] + Weight(t, dist, v, u));
      CheaperThanStepOut(t, dist, agenda, q, i, settled[v]);
    }
  }

  /**
   * If the agenda offers the step `q[i - 1]` to `q[i]` at no more than the
   * cost of `q` up to it, the head costs no more than the whole of `q`.
   */
  lemma CheaperThanStepOut(t: NodeTable, dist: Distance, agenda: seq<Entry>, q: seq<NodeId>, i: nat, c: real)
    requires NonNegative(dist)
    requires SortedByCost(agenda)
    requires 0 < i < |q| && c <= PathCost(t, dist, q[..i])
    requires Offers(agenda, q[i], c + Weight(t, dist, q[i - 1], q[i]))
    ensures agenda != [] && agenda[0].cost <= PathCost(t, dist, q)
  {
    HeadCostsLeast(agenda, q[i], c + Weight(t, dist, q[i - 1], q[i]));
    assert Last(q[..i]) == q[i - 1];
    PathCostAppend(t, dist, q[..i], q[i]);
    assert q[..i] + [q[i]] == q[..i + 1];
    PathCostPrefix(t, dist, q, i + 1);
  }

  /** Dropping an entry whose last node is already expanded keeps the invariant. */
  lemma SkipKeepsInv(t: NodeTable, dist: Distance, start: NodeId, goal: NodeId,
                     agenda: seq<Entry>, expanded: set<NodeId>, settled: map<NodeId, real>)
    requires Inv(t, dist, start, goal, agenda, expanded, settled)
    requires agenda != [] && Last(agenda[0].path) in expanded
    ensures Inv(t, dist, start, goal, agenda[1..], expanded, settled)
  {
    forall u, c | u !in expanded && Offers(agenda, u, c)
      ensures Offers(agenda[1..], u, c)
    {
      OfferSurvivesPop(agenda, [], u, c);
      assert agenda[1..] + [] == agenda[1..];
    }
  }

  lemma EntriesOkPermuted(t: NodeTable, dist: Distance, start: NodeId, goal: NodeId,
                          expanded: set<NodeId>, a: seq<Entry>, b: seq<Entry>)
    requires multiset(a) == multiset(b)
    requires EntriesOk(t, dist, start, goal, expanded, a)
    ensures EntriesOk(t, dist, start, goal, expanded, b)
  {
    forall j | 0 <= j < |b|
      ensures EntryOk(t, dist, start, goal, expanded, b[j])
    {
      assert b[j] in multiset(a);
      var k :| 0 <= k < |a| && a[k] == b[j];
    }
  }

  lemma OffersPermuted(a: seq<Entry>, b: seq<Entry>, u: NodeId, c: real)
    requires multiset(a) == multiset(b)
    requires Offers(a, u, c)
    ensures Offers(b, u, c)
  {
    var j :| 0 <= j < |a| && |a[j].path| > 0 && Last(a[j].path) == u && a[j].cost <= c;
    assert a[j] in multiset(b);
    var k :| 0 <= k < |b| && b[k] == a[j];
  }

  /** Extending an entry whose last node was just expanded by an unexpanded child gives an entry. */
  lemma ExtendOk(t: NodeTable, dist: Distance, start: NodeId, goal: NodeId,
                 expanded: set<NodeId>, e: Entry, u: NodeId)
    requires Closed(t)
    requires EntryOk(t, dist, start, goal, expanded, e)
    requires Last(e.path) in t.data && u in t.data[Last(e.path)].children
    requires u !in expanded + {Last(e.path)}
    ensures EntryOk(t, dist, start, goal, expanded + {Last(e.path)}, Extend(t, dist, e, u))
  {
    var p, v := e.path, Last(e.path);
    var p' := p + [u];
    assert Edge(t, v, u);
    assert forall i :: 0 <= i < |p'| - 1 ==> p'[i] in expanded + {v} by {
      forall i | 0 <= i < |p'| - 1
        ensures p'[i] in expanded + {v}
      {
        if i < |p| - 1 {
          assert p'[i] == p[i];
        }
      }
    }
    assert forall i :: 0 <= i < |p| ==> p[i] != u by {
      forall i | 0 <= i < |p|
        ensures p[i] != u
      {
        if i < |p| - 1 {
          assert p[i] in expanded;
        }
      }
    }
    PathCostAppend(t, dist, p, u);
  }

  /** After an expansion every remaining and every new entry is an entry. */
  lemma ExpandEntries(t: NodeTable, dist: Distance, start: NodeId, goal: NodeId,
                      agenda: seq<Entry>, expanded: set<NodeId>, settled: map<NodeId, real>)
    requires Closed(t)
    requires Inv(t, dist, start, goal, agenda, expanded, settled)
    requires agenda != [] && Last(agenda[0].path) !in expanded && Last(agenda[0].path) != goal
    ensures
      var e := agenda[0];
      var v := Last(e.path);
      EntriesOk(t, dist, start, goal, expanded + {v},
                agenda[1..] + Extensions(t, dist, e, t.data[v].children, expanded + {v}))
  {
    var e := agenda[0];
    var v := Last(e.path);
    assert EntryOk(t, dist, start, goal, expanded, e);
    var ext := Extensions(t, dist, e, t.data[v].children, expanded + {v});
    var a := agenda[1..] + ext;
    forall j | 0 <= j < |a|
      ensures EntryOk(t, dist, start, goal, expanded + {v}, a[j])
    {
      if j < |agenda| - 1 {
        assert a[j] == agenda[j + 1];
        assert EntryOk(t, dist, start, goal, expanded, agenda[j + 1]);
      } else {
        assert a[j] in ext;
        var u :| u in t.data[v].children && u !in expanded + {v} && a[j] == Extend(t, dist, e, u);
        ExtendOk(t, dist, start, goal, expanded, e, u);
      }
    }
  }

  /** After an expansion the start and every unexpanded neighbour of a settled node are still on offer. */
  lemma ExpandFrontier(t: NodeTable, dist: Distance, start: NodeId, goal: NodeId,
                       agenda: seq<Entry>, expanded: set<NodeId>, settled: map<NodeId, real>)
    requires Inv(t, dist, start, goal, agenda, expanded, settled)
    requires agenda != [] && Last(agenda[0].path) !in expanded && Last(agenda[0].path) != goal
    ensures
      var e := agenda[0];
      var v := Last(e.path);
      Frontier(t, dist, start,
               agenda[1..] + Extensions(t, dist, e, t.data[v].children, expanded + {v}),
               settled[v := e.cost])
  {
    var e := agenda[0];
    var v := Last(e.path);
    var ext := Extensions(t, dist, e, t.data[v].children, expanded + {v});
    var a := agenda[1..] + ext;
    var settled' := settled[v := e.cost];
    if start !in settled' {
      OfferSurvivesPop(agenda, ext, start, 0.0);
    }
    forall w, u | w in settled' && Edge(t, w, u) && u !in settled'
      ensures Offers(a, u, settled'[w] + Weight(t, dist, w, u))
    {
      if w == v {
        ExtensionOffered(t, dist, e, t.data[v].children, expanded + {v}, agenda[1..], u);
      } else {
        OfferSurvivesPop(agenda, ext, u, settled[w] + Weight(t, dist, w, u));
      }
    }
  }

  /** Popping the head keeps every offer of a node other than the head's last one. */
  lemma OfferSurvivesPop(agenda: seq<Entry>, ext: seq<Entry>, u: NodeId, c: real)
    requires agenda != [] && |agenda[0].path| > 0 && Last(agenda[0].path) != u
    requires Offers(agenda, u, c)
    ensures Offers(agenda[1..] + ext, u, c)
  {
    var j :| 0 <= j < |agenda| && |agenda[j].path| > 0 && Last(agenda[j].path) == u && agenda[j].cost <= c;
    assert (agenda[1..] + ext)[j - 1] == agenda[j];
  }

  /** An expansion offers each unexpanded child at the expanded entry's cost plus the step. */
  lemma ExtensionOffered(t: NodeTable, dist: Distance, e: Entry, children: seq<NodeId>,
                         expanded: set<NodeId>, rest: seq<Entry>, u: NodeId)
    requires |e.path| > 0 && u in children && u !in expanded
    ensures Offers(rest + Extensions(t, dist, e, children, expanded), u,
                   e.cost + Weight(t, dist, Last(e.path), u))
  {
    var ext := Extensions(t, dist, e, children, expanded);
    var x := Extend(t, dist, e, u);
    assert x in ext;
    var k :| 0 <= k < |ext| && ext[k] == x;
    assert (rest + ext)[|rest| + k] == x;
  }

  /** The entry that expands `v` costs no more than any walk to `v`. */
  lemma ExpandSettled(t: NodeTable, dist: Distance, start: NodeId, goal: NodeId,
                      agenda: seq<Entry>, expanded: set<NodeId>, settled: map<NodeId, real>)
    requires NonNegative(dist)
    requires Inv(t, dist, start, goal, agenda, expanded, settled)
    requires agenda != [] && Last(agenda[0].path) !in expanded
    ensures SettledOptimal(t, dist, start, settled[Last(agenda[0].path) := agenda[0].cost])
  {
    var v := Last(agenda[0].path);
    forall q | IsPath(t, q) && q[0] == start && Last(q) == v
      ensures agenda[0].cost <= PathCost(t, dist, q)
    {
      CheapestFirst(t, dist, start, goal, agenda, expanded, settled, q);
    }
  }

  /** Expanding the cheapest entry and re-sorting keeps the invariant. */
  lemma ExpandKeepsInv(t: NodeTable, dist: Distance, start: NodeId, goal: NodeId,
                       agenda: seq<Entry>, expanded: set<NodeId>, settled: map<NodeId, real>)
    requires NonNegative(dist) && Closed(t)
    requires Inv(t, dist, start, goal, agenda, expanded, settled)
    requires agenda != [] && Last(agenda[0].path) !in expanded && Last(agenda[0].path) != goal
    ensures
      var e := agenda[0];
      var v := Last(e.path);
      Inv(t, dist, start, goal,
          SortByCost(agenda[1..] + Extensions(t, dist, e, t.data[v].children, expanded + {v})),
          expanded + {v}, settled[v := e.cost])
  {
    var e := agenda[0];
    var v := Last(e.path);
    assert EntryOk(t, dist, start, goal, expanded, e);
    var a := agenda[1..] + Extensions(t, dist, e, t.data[v].children, expanded + {v});
    var sorted := SortByCost(a);
    var settled' := settled[v := e.cost];
    ExpandEntries(t, dist, start, goal, agenda, expanded, settled);
    EntriesOkPermuted(t, dist, start, goal, expanded + {v}, a, sorted);
    ExpandFrontier(t, dist, start, goal, agenda, expanded, settled);
    forall u, c | Offers(a, u, c)
      ensures Offers(sorted, u, c)
    {
      OffersPermuted(a, sorted, u, c);
    }
    ExpandSettled(t, dist, start, goal, agenda, expanded, settled);
  }

  /** An entry that reaches the goal first is a shortest route to it. */
  lemma GoalFound(t: NodeTable, dist: Distance, start: NodeId, goal: NodeId,
                  agenda: seq<Entry>, expanded: set<NodeId>, settled: map<NodeId, real>)
    requires NonNegative(dist)
    requires Inv(t, dist, start, goal, agenda, expanded, settled)
    requires agenda != [] && Last(agenda[0].path) == goal
    ensures ShortestRoute(t, dist, agenda[0].path, start, goal) && Distinct(agenda[0].path)
  {
    assert EntryOk(t, dist, start, goal, expanded, agenda[0]);
    forall q | IsRoute(t, q, start, goal)
      ensures agenda[0].cost <= PathCost(t, dist, q)
    {
      CheapestFirst(t, dist, start, goal, agenda, expanded, settled, q);
    }
  }

  /** When the agenda runs out, every node reachable from the start has been expanded. */
  lemma Exhausted(t: NodeTable, dist: Distance, start: NodeId, goal: NodeId,
                  expanded: set<NodeId>, settled: map<NodeId, real>)
    requires Inv(t, dist, start, goal, [], expanded, settled)
    ensures forall q :: IsPath(t, q) && q[0] == start ==> Last(q) in expanded
  {
    forall q | IsPath(t, q) && q[0] == start
      ensures Last(q) in expanded
    {
      if Last(q) !in expanded {
        var i := StepOut(q, expanded);
      }
    }
  }

  /** A walk from a node back to itself that repeats no node is that node alone. */
  lemma DistinctLoop(p: seq<NodeId>)
    requires |p| > 0 && Distinct(p) && p[0] == Last(p)
    ensures p == [p[0]]
  {
  }

  /**
   * Uniform-cost search from `start` to `goal`: pops the cheapest entry,
   * skips it if its last node is already expanded, returns its path if that
   * node is the goal, and otherwise expands the node and re-sorts the agenda.
   * The start must be a key of the table unless it is also the goal; every
   * child must be a key too.
   */
  method FindShortPathNodes(t: NodeTable, dist: Distance, start: NodeId, goal: NodeId)
    returns (r: Option<seq<NodeId>>)
    requires NonNegative(dist)
    requires Closed(t)
    requires start in t.data || start == goal
    ensures start == goal ==> r == Some([start])
    ensures r.Some? ==> ShortestRoute(t, dist, r.value, start, goal) && Distinct(r.value)
    ensures r.None? <==> !Reachable(t, start, goal)
  {
    var agenda := [Entry([start], 0.0)];
    var expanded: set<NodeId> := {};
    ghost var settled: map<NodeId, real> := map[];
    Initially(t, dist, start, goal);
    while agenda != []
      invariant Inv(t, dist, start, goal, agenda, expanded, settled)
      decreases t.data.Keys - expanded, |agenda|
    {
      var e := agenda[0];
      var v := Last(e.path);
      if v in expanded {
        SkipKeepsInv(t, dist, start, goal, agenda, expanded, settled);
        agenda := agenda[1..];
        continue;
      } else if v == goal {
        GoalFound(t, dist, start, goal, agenda, expanded, settled);
        if start == goal {
          DistinctLoop(e.path);
        }
        return Some(e.path);
      }
      assert EntryOk(t, dist, start, goal, expanded, e);
      ExpandKeepsInv(t, dist, start, goal, agenda, expanded, settled);
      var ext := Extensions(t, dist, e, t.data[v].children, expanded + {v});
      agenda := SortByCost(agenda[1..] + ext);
      expanded := expanded + {v};
      settled := settled[v := e.cost];
    }
    Exhausted(t, dist, start, goal, expanded, settled);
    return None;
  }
}

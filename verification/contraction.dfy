/**
 * Contraction of a cycle into the new node `length` (graph.py:50-77): the
 * edges of the contracted graph, the map back to the edges they stand for,
 * and the one edge per (origin, target) pair handed to the recursion.
 */
module Contraction {
  import opened Wrappers
  import opened Graphs
  import opened Counting

  /** `any(e.origin == origin and e.target == target and e.cost < cost for e in contracted_edges)` */
  predicate Dominated(es: seq<Edge>, origin: int, target: int, cost: int)
  {
    exists e <- es :: e.origin == origin && e.target == target && e.cost < cost
  }

  ghost predicate Leaving(e: Edge, cycleNodes: seq<int>)
  {
    e.origin in cycleNodes && e.target !in cycleNodes
  }

  ghost predicate Entering(e: Edge, cycleNodes: seq<int>)
  {
    e.origin !in cycleNodes && e.target in cycleNodes
  }

  ghost predicate Outside(e: Edge, cycleNodes: seq<int>)
  {
    e.origin !in cycleNodes && e.target !in cycleNodes
  }

  ghost predicate Inside(e: Edge, cycleNodes: seq<int>)
  {
    e.origin in cycleNodes && e.target in cycleNodes
  }

  /** The nodes of the cycle are nodes that have a chosen incoming edge. */
  ghost predicate CycleNodesOf(g: Graph, me: seq<Option<Edge>>, cycleNodes: seq<int>)
  {
    && |me| == NodeCount(g)
    && forall c <- cycleNodes :: 1 <= c < g.length && me[c - 1].Some?
  }

  /**
   * The cost subtracted from an edge entering cycle node t: that of the first
   * edge with the origin and target of t's chosen edge (`get_edge`), which is
   * t's chosen edge itself only when no parallel edge comes before it.
   */
  function BaseCost(g: Graph, me: seq<Option<Edge>>, t: int): int
  {
    if 1 <= t <= |me| && me[t - 1].Some? then
      match GetEdge(g, Some(me[t - 1].value.origin), Some(t), None)
      case Some(e) => e.cost
      case None => 0  // not reached: t's chosen edge itself matches
    else 0  // not reached: only cycle nodes, which have a chosen edge, are asked for
  }

  /** How edge x of the contracted graph stands for the original edge o. */
  ghost predicate ProjectionOf(g: Graph, me: seq<Option<Edge>>, cycleNodes: seq<int>, nextId: nat, x: Edge, o: Edge)
    requires CycleNodesOf(g, me, cycleNodes)
  {
    || (Outside(o, cycleNodes) && x == o)
    || (Leaving(o, cycleNodes) && x.id >= nextId
        && x == Edge(x.id, g.length, o.target, o.cost, o.relation))
    || (Entering(o, cycleNodes) && x.id >= nextId
        && x == Edge(x.id, o.origin, g.length, o.cost - BaseCost(g, me, o.target), o.relation))
  }

  /** Every contracted edge is recorded in `old_edges` and stands for an original edge. */
  ghost predicate Traced(g: Graph, me: seq<Option<Edge>>, cycleNodes: seq<int>, nextId: nat,
                         contracted: seq<Edge>, oldEdges: map<nat, Edge>)
    requires CycleNodesOf(g, me, cycleNodes)
  {
    forall x <- contracted :: x.id in oldEdges && oldEdges[x.id] in g.edges
      && ProjectionOf(g, me, cycleNodes, nextId, x, oldEdges[x.id])
  }

  /** Original edge e is accounted for in the contracted list (kept, or represented by a projection no dearer). */
  ghost predicate Covered(g: Graph, me: seq<Option<Edge>>, cycleNodes: seq<int>, contracted: seq<Edge>, e: Edge)
  {
    && (Outside(e, cycleNodes) ==> e in contracted)
    && (Leaving(e, cycleNodes) ==>
          exists x <- contracted :: x.origin == g.length && x.target == e.target && x.cost <= e.cost)
    && (Entering(e, cycleNodes) ==>
          exists x <- contracted :: x.origin == e.origin && x.target == g.length
                                    && x.cost <= e.cost - BaseCost(g, me, e.target))
  }

  /** Covered edges stay covered when the contracted list grows. */
  lemma CoveredGrows(g: Graph, me: seq<Option<Edge>>, cycleNodes: seq<int>, contracted: seq<Edge>, x: Edge, e: Edge)
    requires Covered(g, me, cycleNodes, contracted, e)
    ensures Covered(g, me, cycleNodes, contracted + [x], e)
  {
    assert forall y <- contracted :: y in contracted + [x];
  }

  /** The loop invariant of the contraction loop after the first i edges. */
  ghost predicate ContractInv(g: Graph, me: seq<Option<Edge>>, cycleNodes: seq<int>, nextId: nat, i: nat,
                              contracted: seq<Edge>, oldEdges: map<nat, Edge>, next: nat, seenInside: bool)
    requires CycleNodesOf(g, me, cycleNodes)
  {
    && i <= |g.edges|
    && Traced(g, me, cycleNodes, nextId, contracted, oldEdges)
    && CoveredUpTo(g, me, cycleNodes, i, contracted)
    && DistinctIds(contracted) && nextId <= next
    && IdsFrom(g, nextId, i, contracted, next)
    && SeenUpTo(g, cycleNodes, i, seenInside)
    && |contracted| + (if seenInside then 1 else 0) <= i
  }

  /** The first i original edges are covered. */
  ghost predicate CoveredUpTo(g: Graph, me: seq<Option<Edge>>, cycleNodes: seq<int>, i: nat, contracted: seq<Edge>)
    requires i <= |g.edges|
  {
    forall j :: 0 <= j < i ==> Covered(g, me, cycleNodes, contracted, g.edges[j])
  }

  /** Contracted ids are below next, and those below nextId are original edges among the first i. */
  ghost predicate IdsFrom(g: Graph, nextId: nat, i: nat, contracted: seq<Edge>, next: nat)
    requires i <= |g.edges|
  {
    forall x <- contracted :: x.id < next && (x.id < nextId ==> x in g.edges[..i])
  }

  /** seenInside records whether one of the first i edges lies inside the cycle. */
  ghost predicate SeenUpTo(g: Graph, cycleNodes: seq<int>, i: nat, seenInside: bool)
    requires i <= |g.edges|
  {
    seenInside <==> exists j :: 0 <= j < i && Inside(g.edges[j], cycleNodes)
  }

  lemma CoveredUpToStep(g: Graph, me: seq<Option<Edge>>, cycleNodes: seq<int>, i: nat, contracted: seq<Edge>)
    requires i < |g.edges| && CoveredUpTo(g, me, cycleNodes, i, contracted)
    requires Covered(g, me, cycleNodes, contracted, g.edges[i])
    ensures CoveredUpTo(g, me, cycleNodes, i + 1, contracted)
  {
  }

  lemma CoveredUpToGrows(g: Graph, me: seq<Option<Edge>>, cycleNodes: seq<int>, i: nat, contracted: seq<Edge>, x: Edge)
    requires i <= |g.edges| && CoveredUpTo(g, me, cycleNodes, i, contracted)
    ensures CoveredUpTo(g, me, cycleNodes, i, contracted + [x])
  {
    forall j | 0 <= j < i ensures Covered(g, me, cycleNodes, contracted + [x], g.edges[j]) {
      CoveredGrows(g, me, cycleNodes, contracted, x, g.edges[j]);
    }
  }

  lemma IdsFromStep(g: Graph, nextId: nat, i: nat, contracted: seq<Edge>, next: nat)
    requires i < |g.edges| && IdsFrom(g, nextId, i, contracted, next)
    ensures IdsFrom(g, nextId, i + 1, contracted, next)
  {
    assert g.edges[..i + 1] == g.edges[..i] + [g.edges[i]];
  }

  lemma SeenUpToStep(g: Graph, cycleNodes: seq<int>, i: nat, seenInside: bool)
    requires i < |g.edges| && SeenUpTo(g, cycleNodes, i, seenInside)
    ensures SeenUpTo(g, cycleNodes, i + 1, seenInside || Inside(g.edges[i], cycleNodes))
  {
  }

  /** Appending a projection with a fresh id keeps the invariant. */
  lemma ProjectStep(g: Graph, me: seq<Option<Edge>>, cycleNodes: seq<int>, nextId: nat, i: nat,
                    contracted: seq<Edge>, oldEdges: map<nat, Edge>, next: nat, seenInside: bool, x: Edge)
    requires WellFormed(g) && IdsBelow(g.edges, nextId) && CycleNodesOf(g, me, cycleNodes)
    requires i < |g.edges|
    requires ContractInv(g, me, cycleNodes, nextId, i, contracted, oldEdges, next, seenInside)
    requires x.id == next && ProjectionOf(g, me, cycleNodes, nextId, x, g.edges[i])
    requires !Outside(g.edges[i], cycleNodes)
    ensures ContractInv(g, me, cycleNodes, nextId, i + 1, contracted + [x], oldEdges[x.id := g.edges[i]], next + 1, seenInside)
  {
    var c' := contracted + [x];
    CoveredUpToGrows(g, me, cycleNodes, i, contracted, x);
    assert x in c';
    assert Covered(g, me, cycleNodes, c', g.edges[i]);
    CoveredUpToStep(g, me, cycleNodes, i, c');
    IdsFromStep(g, nextId, i, contracted, next);
    SeenUpToStep(g, cycleNodes, i, seenInside);
  }

  /** Skipping a dominated projection keeps the invariant. */
  lemma SkipStep(g: Graph, me: seq<Option<Edge>>, cycleNodes: seq<int>, nextId: nat, i: nat,
                 contracted: seq<Edge>, oldEdges: map<nat, Edge>, next: nat, seenInside: bool)
    requires CycleNodesOf(g, me, cycleNodes)
    requires i < |g.edges|
    requires ContractInv(g, me, cycleNodes, nextId, i, contracted, oldEdges, next, seenInside)
    requires Leaving(g.edges[i], cycleNodes) ==> Dominated(contracted, g.length, g.edges[i].target, g.edges[i].cost)
    requires Entering(g.edges[i], cycleNodes) ==>
               Dominated(contracted, g.edges[i].origin, g.length, g.edges[i].cost - BaseCost(g, me, g.edges[i].target))
    requires !Outside(g.edges[i], cycleNodes) && !Inside(g.edges[i], cycleNodes)
    ensures ContractInv(g, me, cycleNodes, nextId, i + 1, contracted, oldEdges, next, seenInside)
  {
    assert Covered(g, me, cycleNodes, contracted, g.edges[i]);
    CoveredUpToStep(g, me, cycleNodes, i, contracted);
    IdsFromStep(g, nextId, i, contracted, next);
    SeenUpToStep(g, cycleNodes, i, seenInside);
  }

  /** Keeping an edge outside the cycle keeps the invariant. */
  lemma KeepStep(g: Graph, me: seq<Option<Edge>>, cycleNodes: seq<int>, nextId: nat, i: nat,
                 contracted: seq<Edge>, oldEdges: map<nat, Edge>, next: nat, seenInside: bool)
    requires WellFormed(g) && IdsBelow(g.edges, nextId) && CycleNodesOf(g, me, cycleNodes)
    requires i < |g.edges|
    requires ContractInv(g, me, cycleNodes, nextId, i, contracted, oldEdges, next, seenInside)
    requires Outside(g.edges[i], cycleNodes)
    ensures ContractInv(g, me, cycleNodes, nextId, i + 1, contracted + [g.edges[i]],
                        oldEdges[g.edges[i].id := g.edges[i]], next, seenInside)
  {
    var e := g.edges[i];
    var c' := contracted + [e];
    CoveredUpToGrows(g, me, cycleNodes, i, contracted, e);
    assert e in c';
    CoveredUpToStep(g, me, cycleNodes, i, c');
    SeenUpToStep(g, cycleNodes, i, seenInside);
    assert g.edges[..i + 1] == g.edges[..i] + [e];
    forall y | y in contracted ensures y.id != e.id {
      if y.id < nextId {
        var j :| 0 <= j < i && g.edges[j] == y;
      }
    }
  }

  /** Dropping an edge inside the cycle keeps the invariant. */
  lemma DropStep(g: Graph, me: seq<Option<Edge>>, cycleNodes: seq<int>, nextId: nat, i: nat,
                 contracted: seq<Edge>, oldEdges: map<nat, Edge>, next: nat, seenInside: bool)
    requires CycleNodesOf(g, me, cycleNodes)
    requires i < |g.edges|
    requires ContractInv(g, me, cycleNodes, nextId, i, contracted, oldEdges, next, seenInside)
    requires Inside(g.edges[i], cycleNodes)
    ensures ContractInv(g, me, cycleNodes, nextId, i + 1, contracted, oldEdges, next, true)
  {
    CoveredUpToStep(g, me, cycleNodes, i, contracted);
    IdsFromStep(g, nextId, i, contracted, next);
    SeenUpToStep(g, cycleNodes, i, seenInside);
  }

  /** The invariant after the last edge gives the contraction's postcondition. */
  lemma ContractDone(g: Graph, me: seq<Option<Edge>>, cycleNodes: seq<int>, nextId: nat,
                     contracted: seq<Edge>, oldEdges: map<nat, Edge>, next: nat, seenInside: bool)
    requires CycleNodesOf(g, me, cycleNodes)
    requires ContractInv(g, me, cycleNodes, nextId, |g.edges|, contracted, oldEdges, next, seenInside)
    ensures forall e <- g.edges :: Covered(g, me, cycleNodes, contracted, e)
    ensures IdsBelow(contracted, next)
    ensures (exists e <- g.edges :: Inside(e, cycleNodes)) ==> |contracted| < |g.edges|
  {
  }

  /**
   * The contraction loop (graph.py:54-68): edges leaving the cycle start at
   * the new node, edges entering it end there with a reduced cost, edges
   * outside it are kept, edges inside it are dropped; a projection is skipped
   * when a strictly cheaper one for the same pair is already listed.
   */
  method Contract(g: Graph, me: seq<Option<Edge>>, cycleNodes: seq<int>, nextId: nat)
    returns (contracted: seq<Edge>, oldEdges: map<nat, Edge>, next: nat)
    requires WellFormed(g) && IdsBelow(g.edges, nextId)
    requires CycleNodesOf(g, me, cycleNodes)
    ensures Traced(g, me, cycleNodes, nextId, contracted, oldEdges)
    ensures forall e <- g.edges :: Covered(g, me, cycleNodes, contracted, e)
    ensures DistinctIds(contracted) && IdsBelow(contracted, next) && nextId <= next
    ensures (exists e <- g.edges :: Inside(e, cycleNodes)) ==> |contracted| < |g.edges|
  {
    contracted, oldEdges, next := [], map[], nextId;
    ghost var seenInside := false;
    for i := 0 to |g.edges|
      invariant ContractInv(g, me, cycleNodes, nextId, i, contracted, oldEdges, next, seenInside)
    {
      contracted, oldEdges, next, seenInside := ContractEdge(g, me, cycleNodes, nextId, i, contracted, oldEdges, next, seenInside);
    }
    ContractDone(g, me, cycleNodes, nextId, contracted, oldEdges, next, seenInside);
  }

  /**
   * One pass of the contraction loop (graph.py:55-68) over edge i: a leaving
   * edge is projected to start at the new node and an entering one to end
   * there with its reduced cost, unless a strictly cheaper projection of the
   * same pair is listed; an outside edge is kept and an inside edge dropped.
   */
  method ContractEdge(g: Graph, me: seq<Option<Edge>>, cycleNodes: seq<int>, nextId: nat, i: nat,
                      contracted: seq<Edge>, oldEdges: map<nat, Edge>, next: nat, ghost seenInside: bool)
    returns (contracted': seq<Edge>, oldEdges': map<nat, Edge>, next': nat, ghost seenInside': bool)
    requires WellFormed(g) && IdsBelow(g.edges, nextId)
    requires CycleNodesOf(g, me, cycleNodes) && i < |g.edges|
    requires ContractInv(g, me, cycleNodes, nextId, i, contracted, oldEdges, next, seenInside)
    ensures ContractInv(g, me, cycleNodes, nextId, i + 1, contracted', oldEdges', next', seenInside')
  {
    var newNode := g.length;
    var edge := g.edges[i];
    contracted', oldEdges', next', seenInside' := contracted, oldEdges, next, seenInside;
    if edge.origin in cycleNodes && edge.target !in cycleNodes {
      if !Dominated(contracted, newNode, edge.target, edge.cost) {
        var cycleEdge := Edge(next, newNode, edge.target, edge.cost, edge.relation);
        ProjectStep(g, me, cycleNodes, nextId, i, contracted, oldEdges, next, seenInside, cycleEdge);
        contracted' := contracted + [cycleEdge];
        oldEdges' := oldEdges[cycleEdge.id := edge];
        next' := next + 1;
      } else {
        SkipStep(g, me, cycleNodes, nextId, i, contracted, oldEdges, next, seenInside);
      }
    } else if edge.origin !in cycleNodes && edge.target in cycleNodes {
      var cost := edge.cost - BaseCost(g, me, edge.target);
      if !Dominated(contracted, edge.origin, newNode, cost) {
        var cycleEdge := Edge(next, edge.origin, newNode, cost, edge.relation);
        ProjectStep(g, me, cycleNodes, nextId, i, contracted, oldEdges, next, seenInside, cycleEdge);
        contracted' := contracted + [cycleEdge];
        oldEdges' := oldEdges[cycleEdge.id := edge];
        next' := next + 1;
      } else {
        SkipStep(g, me, cycleNodes, nextId, i, contracted, oldEdges, next, seenInside);
      }
    } else if edge.origin !in cycleNodes && edge.target !in cycleNodes {
      KeepStep(g, me, cycleNodes, nextId, i, contracted, oldEdges, next, seenInside);
      contracted' := contracted + [edge];
      oldEdges' := oldEdges[edge.id := edge];
    } else {
      DropStep(g, me, cycleNodes, nextId, i, contracted, oldEdges, next, seenInside);
      seenInside' := true;
    }
  }

  /**
   * No edge of the contracted graph enters a cycle node, and only edges
   * entering the cycle reach the new node, with their cost reduced by the
   * `get_edge` baseline of the cycle node they entered.
   */
  lemma TracedAvoidsCycle(g: Graph, me: seq<Option<Edge>>, cycleNodes: seq<int>, nextId: nat,
                          contracted: seq<Edge>, oldEdges: map<nat, Edge>)
    requires WellFormed(g) && CycleNodesOf(g, me, cycleNodes)
    requires Traced(g, me, cycleNodes, nextId, contracted, oldEdges)
    ensures forall x <- contracted :: x.target !in cycleNodes
    ensures forall x <- contracted :: x.target == g.length ==>
              Entering(oldEdges[x.id], cycleNodes) && x.cost == oldEdges[x.id].cost - BaseCost(g, me, oldEdges[x.id].target)
  {
    forall x <- contracted
      ensures x.target !in cycleNodes
      ensures x.target == g.length ==> Entering(oldEdges[x.id], cycleNodes)
    {
      var o := oldEdges[x.id];
      assert o in g.edges;
      assert 0 <= o.target < g.length;
    }
  }

  /** Edge e comes before f when listed by origin, then target (graph.py:73-77). */
  predicate Precedes(e: Edge, f: Edge)
  {
    e.origin < f.origin || (e.origin == f.origin && e.target < f.target)
  }

  /** Some edge of `es` joins the same pair as x at no greater cost. */
  ghost predicate HasPair(es: seq<Edge>, x: Edge)
  {
    exists j :: 0 <= j < |es| && es[j].origin == x.origin && es[j].target == x.target && es[j].cost <= x.cost
  }

  /** No edge of `contracted` joining the pair of y is cheaper than y. */
  ghost predicate Cheapest(contracted: seq<Edge>, y: Edge)
  {
    forall x <- contracted :: x.origin == y.origin && x.target == y.target ==> y.cost <= x.cost
  }

  lemma HasPairGrows(es: seq<Edge>, z: Edge, x: Edge)
    requires HasPair(es, x)
    ensures HasPair(es + [z], x)
  {
    var j :| 0 <= j < |es| && es[j].origin == x.origin && es[j].target == x.target && es[j].cost <= x.cost;
    assert (es + [z])[j] == es[j];
  }

  /** Pair (x.origin, x.target) has been visited once the loops reached (origin, target). */
  predicate Visited(x: Edge, origin: int, target: int)
  {
    x.origin < origin || (x.origin == origin && x.target <= target)
  }

  ghost predicate Sorted(es: seq<Edge>)
  {
    forall i, j :: 0 <= i < j < |es| ==> Precedes(es[i], es[j])
  }

  /** Every listed edge comes from `contracted`, lies in range and has been visited. */
  ghost predicate Members(contracted: seq<Edge>, es: seq<Edge>, length: nat, origin: int, target: int)
  {
    forall y <- es :: y in contracted && 0 <= y.origin && 1 <= y.target <= length && Visited(y, origin, target)
  }

  /** Every listed edge is the cheapest of its pair. */
  ghost predicate AllCheapest(contracted: seq<Edge>, es: seq<Edge>)
  {
    forall y <- es :: Cheapest(contracted, y)
  }

  /** Every visited in-range pair of `contracted` is represented in `es`. */
  ghost predicate Covers(contracted: seq<Edge>, es: seq<Edge>, length: nat, origin: int, target: int)
  {
    forall x <- contracted :: 0 <= x.origin && 1 <= x.target <= length && Visited(x, origin, target)
      ==> HasPair(es, x)
  }

  /** The invariant of the pair loops of `new_edges_min` at (origin, target). */
  ghost predicate PairInv(contracted: seq<Edge>, es: seq<Edge>, length: nat, origin: int, target: int)
  {
    && Members(contracted, es, length, origin, target)
    && Sorted(es)
    && AllCheapest(contracted, es)
    && Covers(contracted, es, length, origin, target)
  }

  lemma MembersFound(contracted: seq<Edge>, es: seq<Edge>, length: nat, origin: int, target: int, y: Edge)
    requires 0 <= origin && 0 <= target < length
    requires Members(contracted, es, length, origin, target)
    requires y in contracted && y.origin == origin && y.target == target + 1
    ensures Members(contracted, es + [y], length, origin, target + 1)
  {
    forall z | z in es + [y]
      ensures z in contracted && 0 <= z.origin && 1 <= z.target <= length && Visited(z, origin, target + 1)
    {
      if z != y { assert z in es; }
    }
  }

  lemma SortedFound(contracted: seq<Edge>, es: seq<Edge>, length: nat, origin: int, target: int, y: Edge)
    requires Members(contracted, es, length, origin, target)
    requires Sorted(es)
    requires y.origin == origin && y.target == target + 1
    ensures Sorted(es + [y])
  {
    var es' := es + [y];
    forall i, j | 0 <= i < j < |es'| ensures Precedes(es'[i], es'[j]) {
      if j == |es| {
        assert es'[i] in es;
      } else {
        assert es'[i] == es[i] && es'[j] == es[j];
      }
    }
  }

  lemma CheapestFound(contracted: seq<Edge>, es: seq<Edge>, y: Edge)
    requires AllCheapest(contracted, es)
    requires Cheapest(contracted, y)
    ensures AllCheapest(contracted, es + [y])
  {
    forall z | z in es + [y] ensures Cheapest(contracted, z) {
      if z != y { assert z in es; }
    }
  }

  lemma CoversFound(contracted: seq<Edge>, es: seq<Edge>, length: nat, origin: int, target: int, y: Edge)
    requires Covers(contracted, es, length, origin, target)
    requires Cheapest(contracted, y) && y.origin == origin && y.target == target + 1
    ensures Covers(contracted, es + [y], length, origin, target + 1)
  {
    forall x | x in contracted && 0 <= x.origin && 1 <= x.target <= length && Visited(x, origin, target + 1)
      ensures HasPair(es + [y], x)
    {
      if x.origin == origin && x.target == target + 1 {
        assert (es + [y])[|es|] == y;
      } else {
        HasPairGrows(es, y, x);
      }
    }
  }

  /** Appending the least-cost edge of pair (origin, target + 1) keeps the invariant. */
  lemma PairFound(contracted: seq<Edge>, es: seq<Edge>, length: nat, origin: int, target: int, y: Edge)
    requires 0 <= origin && 0 <= target < length
    requires PairInv(contracted, es, length, origin, target)
    requires y in contracted && y.origin == origin && y.target == target + 1 && Cheapest(contracted, y)
    ensures PairInv(contracted, es + [y], length, origin, target + 1)
  {
    MembersFound(contracted, es, length, origin, target, y);
    SortedFound(contracted, es, length, origin, target, y);
    CheapestFound(contracted, es, y);
    CoversFound(contracted, es, length, origin, target, y);
  }

  /** When no edge joins (origin, target + 1) the invariant moves on unchanged. */
  lemma PairAbsent(contracted: seq<Edge>, es: seq<Edge>, length: nat, origin: int, target: int)
    requires 0 <= origin && 0 <= target < length
    requires PairInv(contracted, es, length, origin, target)
    requires MinMatch(contracted, Some(origin), Some(target + 1)).None?
    ensures PairInv(contracted, es, length, origin, target + 1)
  {
    forall x | x in contracted && 0 <= x.origin && 1 <= x.target <= length && Visited(x, origin, target + 1)
      ensures HasPair(es, x)
    {
      assert !Matches(x, Some(origin), Some(target + 1));
    }
  }

  /**
   * `new_edges_min` (graph.py:70-77): for every origin 0 .. length and target
   * 1 .. length, in that order, one least-cost contracted edge joining them.
   */
  method MinPerPair(contracted: seq<Edge>, length: nat) returns (es: seq<Edge>)
    ensures forall y <- es :: y in contracted && 0 <= y.origin <= length && 1 <= y.target <= length
    ensures Sorted(es)
    ensures forall y <- es :: Cheapest(contracted, y)
    ensures forall x <- contracted :: 0 <= x.origin <= length && 1 <= x.target <= length ==> HasPair(es, x)
    ensures |es| <= |contracted|
  {
    es := [];
    for origin := 0 to length + 1
      invariant PairInv(contracted, es, length, origin, 0)
    {
      for target := 0 to length
        invariant PairInv(contracted, es, length, origin, target)
      {
        var k := MinMatch(contracted, Some(origin), Some(target + 1));
        if k.Some? {
          PairFound(contracted, es, length, origin, target, contracted[k.value]);
          es := es + [contracted[k.value]];
        } else {
          PairAbsent(contracted, es, length, origin, target);
        }
      }
    }
    assert Distinct(es);
    DistinctWithin(es, contracted);
  }
}

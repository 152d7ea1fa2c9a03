/**
 * `Graph.cle` (graph.py:27-90): the Chu-Liu-Edmonds decoder. Choose the
 * cheapest incoming edge per node; if the choices close a cycle, contract
 * the cycle into a new node, decode the contracted graph recursively, and
 * expand the new node again.
 */
module Decoder {
  import opened Wrappers
  import opened Graphs
  import opened Counting
  import opened CycleSearch
  import opened Contraction

  /** The position of the first occurrence of x in xs. */
  function IndexOf(xs: seq<Edge>, x: Edge): (k: nat)
    requires x in xs
    ensures k < |xs| && xs[k] == x && x !in xs[..k]
  {
    if xs[0] == x then 0
    else
      var k := 1 + IndexOf(xs[1..], x);
      assert xs[..k] == [xs[0]] + xs[1..][..k - 1];
      k
  }

  /** `list.remove(x)`: the list without the first occurrence of x, unchanged when x is absent. */
  function RemoveFirst(xs: seq<Edge>, x: Edge): (r: seq<Edge>)
    ensures x !in xs ==> r == xs
    ensures x in xs ==> r == xs[..IndexOf(xs, x)] + xs[IndexOf(xs, x) + 1..]
    ensures multiset(r) == multiset(xs) - multiset{x}
  {
    if x in xs then
      var k := IndexOf(xs, x);
      assert xs == xs[..k] + [x] + xs[k + 1..];
      xs[..k] + xs[k + 1..]
    else
      assert multiset(xs)[x] == 0;
      xs
  }

  /** The edges as entries of a result list, all present. */
  function Wrap(es: seq<Edge>): (r: seq<Option<Edge>>)
    ensures |r| == |es| && forall k :: 0 <= k < |es| ==> r[k] == Some(es[k])
  {
    seq(|es|, k requires 0 <= k < |es| => Some(es[k]))
  }

  /** `filter(None, xs)`: the edges of the present entries, in order. */
  function Present(xs: seq<Option<Edge>>): (r: seq<Edge>)
    ensures |r| <= |xs|
    ensures forall e :: e in r <==> Some(e) in xs
  {
    if xs == [] then []
    else
      assert xs == [xs[0]] + xs[1..];
      match xs[0]
      case None => Present(xs[1..])
      case Some(e) => [e] + Present(xs[1..])
  }

  /** When every entry is an edge, `filter(None, ...)` keeps them all, in order. */
  lemma {:induction false} PresentValues(xs: seq<Option<Edge>>)
    requires forall k :: 0 <= k < |xs| ==> xs[k].Some?
    ensures |Present(xs)| == |xs| && forall k :: 0 <= k < |xs| ==> Present(xs)[k] == xs[k].value
  {
    if xs != [] {
      PresentValues(xs[1..]);
    }
  }

  /** Wrapping edges and filtering the entries again gives the edges back. */
  lemma PresentWrap(es: seq<Edge>)
    ensures Present(Wrap(es)) == es
  {
    PresentValues(Wrap(es));
  }

  /** Entries whose edges enter distinct nodes filter to edges entering distinct nodes. */
  lemma {:induction false} PresentDistinct(xs: seq<Option<Edge>>)
    requires forall i, j :: 0 <= i < j < |xs| && xs[i].Some? && xs[j].Some? ==> xs[i].value.target != xs[j].value.target
    ensures DistinctTargets(Present(xs))
  {
    if xs != [] {
      assert xs == [xs[0]] + xs[1..];
      PresentDistinct(xs[1..]);
      if xs[0].Some? {
        var rest := Present(xs[1..]);
        assert Present(xs) == [xs[0].value] + rest;
        forall j | 0 <= j < |rest| ensures rest[j].target != xs[0].value.target {
          assert Some(rest[j]) in xs[1..];
          var k :| 0 <= k < |xs[1..]| && xs[1..][k] == Some(rest[j]);
          assert xs[k + 1] == Some(rest[j]);
        }
      }
    }
  }

  /**
   * Without a cycle, the chosen incoming edges (graph.py:44-47) form a
   * branching: one edge into every non-root node that has an incoming edge.
   */
  lemma MinEdgesBranching(g: Graph)
    requires WellFormed(g)
    ensures Branching(g, Present(MinEdges(g)))
  {
    var me := MinEdges(g);
    MinEdgesIndexed(g);
    PresentDistinct(me);
    forall e <- Present(me) ensures e in g.edges && 1 <= e.target < g.length {
      assert Some(e) in me;
      var i :| 0 <= i < |me| && me[i] == Some(e);
      MinEdgesMember(g, i);
    }
    forall t | 1 <= t < g.length && Enters(g.edges, t) ensures Enters(Present(me), t) {
      assert me[t - 1].Some?;
      assert me[t - 1].value in Present(me);
    }
  }

  /** The edges passed to the recursion form a graph on one node more, with fresh ids below `next`. */
  lemma NewGraphWellFormed(contracted: seq<Edge>, es: seq<Edge>, length: nat, next: nat)
    requires DistinctIds(contracted) && IdsBelow(contracted, next)
    requires forall y <- es :: y in contracted && 0 <= y.origin <= length && 1 <= y.target <= length
    requires Sorted(es)
    ensures WellFormed(Graph(length + 1, es)) && IdsBelow(es, next)
  {
    forall i, j | 0 <= i < j < |es| ensures es[i].id != es[j].id {
      assert Precedes(es[i], es[j]);
      var a :| 0 <= a < |contracted| && contracted[a] == es[i];
      var b :| 0 <= b < |contracted| && contracted[b] == es[j];
      assert a != b;
      if a < b {
        assert contracted[a].id != contracted[b].id;
      } else {
        assert contracted[b].id != contracted[a].id;
      }
    }
  }

  /** The targets of the recorded cycle are nodes whose chosen edges are the cycle's edges. */
  lemma CycleNodes(g: Graph, me: seq<Option<Edge>>, n: int, cycle: seq<Edge>)
    requires me == MinEdges(g) && Indexed(me, g.length) && 1 <= n < g.length
    requires IsCycleFrom(me, n, cycle)
    ensures forall k :: 0 <= k < |cycle| ==>
              1 <= cycle[k].target < g.length && me[cycle[k].target - 1] == Some(cycle[k]) && cycle[k] in g.edges
  {
    forall k | 0 <= k < |cycle|
      ensures 1 <= cycle[k].target < g.length && me[cycle[k].target - 1] == Some(cycle[k]) && cycle[k] in g.edges
    {
      ChainInMinEdges(g, me, n, k);
    }
  }

  lemma ChainInMinEdges(g: Graph, me: seq<Option<Edge>>, n: int, k: nat)
    requires me == MinEdges(g) && Indexed(me, g.length) && 1 <= n < g.length
    requires ChainEdge(me, n, k).Some?
    ensures var e := ChainEdge(me, n, k).value;
      1 <= e.target < g.length && me[e.target - 1] == Some(e) && e in g.edges
  {
    var j := Walk(me, n - 1, k).value;
    assert 0 <= j < |me| && me[j] == ChainEdge(me, n, k);
    MinEdgesMember(g, j);
  }

  /**
   * The targets of the recorded cycle are nodes with chosen edges, and the
   * last edge of the cycle, which leaves node n, lies inside the cycle.
   */
  lemma Contractible(g: Graph, me: seq<Option<Edge>>, n: int, cycle: seq<Edge>, cycleNodes: seq<int>)
    requires me == MinEdges(g) && Indexed(me, g.length) && 1 <= n < g.length
    requires IsCycleFrom(me, n, cycle)
    requires |cycleNodes| == |cycle| && forall k :: 0 <= k < |cycle| ==> cycleNodes[k] == cycle[k].target
    ensures CycleNodesOf(g, me, cycleNodes)
    ensures forall c <- cycleNodes :: me[c - 1].value in g.edges
    ensures exists e <- g.edges :: Inside(e, cycleNodes)
  {
    CycleNodes(g, me, n, cycle);
    assert ChainEdge(me, n, 0) == Some(cycle[0]) && Walk(me, n - 1, 0) == Some(n - 1);
    var last := cycle[|cycle| - 1];
    assert cycleNodes[0] == n && cycleNodes[|cycle| - 1] == last.target;
    assert Inside(last, cycleNodes);
  }

  /** Every edge returned by the recursion can be mapped back, and one entering the new node maps to a cycle node. */
  ghost predicate Restorable(g: Graph, me: seq<Option<Edge>>, cycleNodes: seq<int>, oldEdges: map<nat, Edge>,
                             subtree: seq<Edge>)
  {
    && |me| == NodeCount(g)
    && (forall c <- cycleNodes :: 1 <= c < g.length && me[c - 1].Some? && me[c - 1].value in g.edges)
    && forall e <- subtree :: e.id in oldEdges && oldEdges[e.id] in g.edges
         && (e.target == g.length ==> oldEdges[e.id].target in cycleNodes)
  }

  /** An edge returned by the recursion that does not enter the new node maps back to an edge with its own target, outside the cycle. */
  ghost predicate TargetsKept(g: Graph, cycleNodes: seq<int>, oldEdges: map<nat, Edge>, subtree: seq<Edge>)
  {
    forall e <- subtree :: e.target != g.length ==>
      e.id in oldEdges && oldEdges[e.id].target == e.target && e.target !in cycleNodes
  }

  lemma TracedRestorable(g: Graph, me: seq<Option<Edge>>, cycleNodes: seq<int>, nextId: nat,
                         contracted: seq<Edge>, oldEdges: map<nat, Edge>, subtree: seq<Edge>)
    requires WellFormed(g) && CycleNodesOf(g, me, cycleNodes)
    requires forall c <- cycleNodes :: me[c - 1].value in g.edges
    requires Traced(g, me, cycleNodes, nextId, contracted, oldEdges)
    requires forall e <- subtree :: e in contracted
    ensures Restorable(g, me, cycleNodes, oldEdges, subtree)
    ensures TargetsKept(g, cycleNodes, oldEdges, subtree)
  {
    forall e <- subtree ensures e.id in oldEdges && oldEdges[e.id] in g.edges
      && (e.target == g.length ==> oldEdges[e.id].target in cycleNodes)
      && (e.target != g.length ==> oldEdges[e.id].target == e.target && e.target !in cycleNodes)
    {
      assert e in contracted;
      var o := oldEdges[e.id];
      assert ProjectionOf(g, me, cycleNodes, nextId, e, o);
      assert o in g.edges;
    }
  }

  lemma RestorableSub(g: Graph, me: seq<Option<Edge>>, cycleNodes: seq<int>, oldEdges: map<nat, Edge>,
                      es: seq<Edge>, subtree: seq<Edge>)
    requires Restorable(g, me, cycleNodes, oldEdges, es) && TargetsKept(g, cycleNodes, oldEdges, es)
    requires forall e <- subtree :: e in es
    ensures Restorable(g, me, cycleNodes, oldEdges, subtree) && TargetsKept(g, cycleNodes, oldEdges, subtree)
  {
  }

  /**
   * The contracted graph handed to the recursion (graph.py:50-80): the cycle
   * is contracted and one cheapest edge kept per pair of nodes.
   */
  method Reduce(g: Graph, me: seq<Option<Edge>>, cycleNodes: seq<int>, nextId: nat)
    returns (newEdges: seq<Edge>, oldEdges: map<nat, Edge>, next: nat)
    requires WellFormed(g) && IdsBelow(g.edges, nextId) && CycleNodesOf(g, me, cycleNodes)
    requires forall c <- cycleNodes :: me[c - 1].value in g.edges
    requires exists e <- g.edges :: Inside(e, cycleNodes)
    ensures WellFormed(Graph(g.length + 1, newEdges)) && IdsBelow(newEdges, next)
    ensures |newEdges| < |g.edges|
    ensures Restorable(g, me, cycleNodes, oldEdges, newEdges) && TargetsKept(g, cycleNodes, oldEdges, newEdges)
    ensures OnePerPair(newEdges)
    ensures forall t :: 1 <= t < g.length && t !in cycleNodes && Enters(g.edges, t) ==> Enters(newEdges, t)
  {
    var contracted;
    contracted, oldEdges, next := Contract(g, me, cycleNodes, nextId);
    newEdges := MinPerPair(contracted, g.length);
    NewGraphWellFormed(contracted, newEdges, g.length, next);
    TracedRestorable(g, me, cycleNodes, nextId, contracted, oldEdges, newEdges);
    SortedOnePerPair(newEdges);
    OutsideReached(g, me, cycleNodes, contracted, newEdges);
  }

  /** Edges listed by origin, then target, join distinct pairs. */
  lemma SortedOnePerPair(es: seq<Edge>)
    requires Sorted(es)
    ensures OnePerPair(es)
  {
    forall i, j | 0 <= i < j < |es| ensures es[i].origin != es[j].origin || es[i].target != es[j].target {
      assert Precedes(es[i], es[j]);
    }
  }

  /** A node outside the cycle that the graph enters is still entered by the edges passed to the recursion. */
  lemma OutsideReached(g: Graph, me: seq<Option<Edge>>, cycleNodes: seq<int>, contracted: seq<Edge>, newEdges: seq<Edge>)
    requires WellFormed(g)
    requires forall e <- g.edges :: Covered(g, me, cycleNodes, contracted, e)
    requires forall x <- contracted :: 0 <= x.origin <= g.length && 1 <= x.target <= g.length ==> HasPair(newEdges, x)
    ensures forall t :: 1 <= t < g.length && t !in cycleNodes && Enters(g.edges, t) ==> Enters(newEdges, t)
  {
    forall t | 1 <= t < g.length && t !in cycleNodes && Enters(g.edges, t) ensures Enters(newEdges, t) {
      var o :| o in g.edges && o.target == t;
      assert Covered(g, me, cycleNodes, contracted, o);
      var x: Edge;
      if o.origin in cycleNodes {
        assert Leaving(o, cycleNodes);
        x :| x in contracted && x.origin == g.length && x.target == t && x.cost <= o.cost;
      } else {
        assert Outside(o, cycleNodes);
        x := o;
      }
      assert HasPair(newEdges, x);
      var j :| 0 <= j < |newEdges| && newEdges[j].origin == x.origin && newEdges[j].target == x.target && newEdges[j].cost <= x.cost;
      assert newEdges[j] in newEdges;
    }
  }

  /** The original edges of the decoded subtree, in order (`[old_edges[e] for e in subtree]`, graph.py:83). */
  function Images(oldEdges: map<nat, Edge>, subtree: seq<Edge>): (r: seq<Edge>)
    requires forall e <- subtree :: e.id in oldEdges
    ensures |r| == |subtree| && forall k :: 0 <= k < |subtree| ==> r[k] == oldEdges[subtree[k].id]
  {
    seq(|subtree|, k requires 0 <= k < |subtree| => oldEdges[subtree[k].id])
  }

  /** The chosen incoming edges of the cycle nodes, in order (graph.py:84-85). */
  function CycleChoices(me: seq<Option<Edge>>, cycleNodes: seq<int>): (r: seq<Edge>)
    requires forall c <- cycleNodes :: 1 <= c <= |me| && me[c - 1].Some?
    ensures |r| == |cycleNodes|
    ensures forall k :: 0 <= k < |cycleNodes| ==> cycleNodes[k] in cycleNodes && r[k] == me[cycleNodes[k] - 1].value
  {
    seq(|cycleNodes|, k requires 0 <= k < |cycleNodes| => assert cycleNodes[k] in cycleNodes; me[cycleNodes[k] - 1].value)
  }

  /**
   * The edge the removal loop (graph.py:86-89) takes out of base, scanning the
   * subtree from position i: for the first edge into the new node whose
   * cycle node's `get_edge` result lies in base, that result; otherwise none.
   */
  function Removal(g: Graph, me: seq<Option<Edge>>, cycleNodes: seq<int>, oldEdges: map<nat, Edge>,
                   subtree: seq<Edge>, base: seq<Edge>, i: nat): (r: Option<Edge>)
    requires Restorable(g, me, cycleNodes, oldEdges, subtree) && i <= |subtree|
    ensures r.Some? ==> r.value in base
    decreases |subtree| - i
  {
    if i == |subtree| then None
    else
      var edge := subtree[i];
      assert edge in subtree;
      if edge.target == g.length then
        var oldNode := oldEdges[edge.id].target;
        var chosen := GetEdge(g, Some(me[oldNode - 1].value.origin), Some(oldNode), None);
        if chosen.Some? && chosen.value in base then chosen
        else Removal(g, me, cycleNodes, oldEdges, subtree, base, i + 1)
      else Removal(g, me, cycleNodes, oldEdges, subtree, base, i + 1)
  }

  /**
   * `restored_edges` (graph.py:83-90): the images of the subtree, then the
   * chosen edges of the cycle nodes, less the first occurrence of the edge
   * the removal loop picks, if any.
   */
  function Expansion(g: Graph, me: seq<Option<Edge>>, cycleNodes: seq<int>, oldEdges: map<nat, Edge>,
                     subtree: seq<Edge>): seq<Edge>
    requires Restorable(g, me, cycleNodes, oldEdges, subtree)
  {
    var base := Images(oldEdges, subtree) + CycleChoices(me, cycleNodes);
    match Removal(g, me, cycleNodes, oldEdges, subtree, base, 0)
    case None => base
    case Some(x) => RemoveFirst(base, x)
  }

  /** An edge the removal loop picks enters a cycle node and is an edge of the graph. */
  lemma {:induction false} RemovalEnters(g: Graph, me: seq<Option<Edge>>, cycleNodes: seq<int>, oldEdges: map<nat, Edge>,
                                         subtree: seq<Edge>, base: seq<Edge>, i: nat)
    requires Restorable(g, me, cycleNodes, oldEdges, subtree) && i <= |subtree|
    ensures var r := Removal(g, me, cycleNodes, oldEdges, subtree, base, i);
            r.Some? ==> r.value.target in cycleNodes && r.value in g.edges
    decreases |subtree| - i
  {
    if i < |subtree| {
      RemovalEnters(g, me, cycleNodes, oldEdges, subtree, base, i + 1);
      var edge := subtree[i];
      assert edge in subtree;
      if edge.target == g.length {
        var oldNode := oldEdges[edge.id].target;
        var chosen := GetEdge(g, Some(me[oldNode - 1].value.origin), Some(oldNode), None);
        if chosen.Some? {
          var k :| 0 <= k < |g.edges| && g.edges[k] == chosen.value && Matches(chosen.value, Some(me[oldNode - 1].value.origin), Some(oldNode));
          assert chosen.value in g.edges;
        }
      }
    }
  }

  /** The images of the subtree and the cycle choices are edges of the graph. */
  lemma BaseEdges(g: Graph, me: seq<Option<Edge>>, cycleNodes: seq<int>, oldEdges: map<nat, Edge>, subtree: seq<Edge>)
    requires Restorable(g, me, cycleNodes, oldEdges, subtree)
    ensures forall e <- Images(oldEdges, subtree) + CycleChoices(me, cycleNodes) :: e in g.edges
  {
    var base := Images(oldEdges, subtree) + CycleChoices(me, cycleNodes);
    forall e <- base ensures e in g.edges {
      var k :| 0 <= k < |base| && base[k] == e;
      if k < |subtree| {
        assert subtree[k] in subtree;
      } else {
        assert cycleNodes[k - |subtree|] in cycleNodes;
      }
    }
  }

  /**
   * The expansion holds only edges of the graph: the images and the cycle
   * choices, and of those every one but at most a single removed edge, which
   * enters a cycle node.
   */
  lemma ExpansionShape(g: Graph, me: seq<Option<Edge>>, cycleNodes: seq<int>, oldEdges: map<nat, Edge>,
                       subtree: seq<Edge>)
    requires Restorable(g, me, cycleNodes, oldEdges, subtree)
    ensures var base := Images(oldEdges, subtree) + CycleChoices(me, cycleNodes);
            var r := Expansion(g, me, cycleNodes, oldEdges, subtree);
            && (forall e <- r :: e in g.edges)
            && match Removal(g, me, cycleNodes, oldEdges, subtree, base, 0)
               case None => r == base
               case Some(x) => x.target in cycleNodes && |r| == |base| - 1 && multiset(r) + multiset{x} == multiset(base)
  {
    var base := Images(oldEdges, subtree) + CycleChoices(me, cycleNodes);
    RemovalEnters(g, me, cycleNodes, oldEdges, subtree, base, 0);
    BaseEdges(g, me, cycleNodes, oldEdges, subtree);
    var r := Expansion(g, me, cycleNodes, oldEdges, subtree);
    match Removal(g, me, cycleNodes, oldEdges, subtree, base, 0)
    case None =>
    case Some(x) =>
      assert multiset(r) == multiset(base) - multiset{x};
      assert x in multiset(base);
      forall e <- r ensures e in g.edges {
        assert e in multiset(r);
      }
  }

  /** From position i on no edge enters the new node, so the removal loop removes nothing. */
  lemma {:induction false} RemovalNone(g: Graph, me: seq<Option<Edge>>, cycleNodes: seq<int>, oldEdges: map<nat, Edge>,
                                       subtree: seq<Edge>, base: seq<Edge>, i: nat)
    requires Restorable(g, me, cycleNodes, oldEdges, subtree) && i <= |subtree|
    requires forall k :: i <= k < |subtree| ==> subtree[k].target != g.length
    ensures Removal(g, me, cycleNodes, oldEdges, subtree, base, i) == None
    decreases |subtree| - i
  {
    if i < |subtree| {
      RemovalNone(g, me, cycleNodes, oldEdges, subtree, base, i + 1);
    }
  }

  /**
   * The edge at position p is the first into the new node from position i on,
   * and the `get_edge` result x for its cycle node lies in base: the removal
   * loop removes x.
   */
  lemma {:induction false} RemovalAt(g: Graph, me: seq<Option<Edge>>, cycleNodes: seq<int>, oldEdges: map<nat, Edge>,
                                     subtree: seq<Edge>, base: seq<Edge>, i: nat, p: nat, x: Edge)
    requires Restorable(g, me, cycleNodes, oldEdges, subtree) && i <= p < |subtree|
    requires subtree[p].target == g.length && forall k :: i <= k < p ==> subtree[k].target != g.length
    requires subtree[p] in subtree && oldEdges[subtree[p].id].target in cycleNodes
    requires var c := oldEdges[subtree[p].id].target;
             GetEdge(g, Some(me[c - 1].value.origin), Some(c), None) == Some(x)
    requires x in base
    ensures Removal(g, me, cycleNodes, oldEdges, subtree, base, i) == Some(x)
    decreases p - i
  {
    if i < p {
      assert subtree[i].target != g.length;
      RemovalAt(g, me, cycleNodes, oldEdges, subtree, base, i + 1, p, x);
    }
  }

  /** With one edge per pair, `get_edge` finds the chosen edge of node c from its origin. */
  lemma GetEdgeChosen(g: Graph, c: int)
    requires WellFormed(g) && OnePerPair(g.edges) && 1 <= c < g.length && MinEdges(g)[c - 1].Some?
    ensures var e := MinEdges(g)[c - 1].value;
            GetEdge(g, Some(e.origin), Some(c), None) == Some(e)
  {
    var e := MinEdges(g)[c - 1].value;
    MinEdgesMember(g, c - 1);
    var r := GetEdge(g, Some(e.origin), Some(c), None);
    assert Matches(e, Some(e.origin), Some(c));
    var k :| 0 <= k < |g.edges| && g.edges[k] == r.value && Matches(r.value, Some(e.origin), Some(c));
    var k' :| 0 <= k' < |g.edges| && g.edges[k'] == e;
  }

  /**
   * Where the entries of base point, for base the images of the subtree
   * followed by the cycle choices: the image of an edge into the new node
   * enters a cycle node, any other image enters the edge's own target outside
   * the cycle, and the k-th choice enters the k-th cycle node.
   */
  ghost predicate Aimed(base: seq<Edge>, subtree: seq<Edge>, cycleNodes: seq<int>, newNode: int)
  {
    && |base| == |subtree| + |cycleNodes|
    && (forall k :: 0 <= k < |subtree| && subtree[k].target == newNode ==> base[k].target in cycleNodes)
    && (forall k :: 0 <= k < |subtree| && subtree[k].target != newNode ==>
          base[k].target == subtree[k].target && base[k].target !in cycleNodes)
    && (forall k :: |subtree| <= k < |base| ==> base[k].target == cycleNodes[k - |subtree|])
  }

  lemma BaseTargets(g: Graph, me: seq<Option<Edge>>, cycleNodes: seq<int>, oldEdges: map<nat, Edge>, subtree: seq<Edge>)
    requires Indexed(me, g.length) && Restorable(g, me, cycleNodes, oldEdges, subtree)
    requires TargetsKept(g, cycleNodes, oldEdges, subtree)
    ensures Aimed(Images(oldEdges, subtree) + CycleChoices(me, cycleNodes), subtree, cycleNodes, g.length)
  {
    var base := Images(oldEdges, subtree) + CycleChoices(me, cycleNodes);
    forall k | 0 <= k < |subtree| ensures subtree[k] in subtree && base[k] == oldEdges[subtree[k].id] {
    }
    forall k | |subtree| <= k < |base| ensures base[k].target == cycleNodes[k - |subtree|] {
      var c := cycleNodes[k - |subtree|];
      assert c in cycleNodes;
    }
  }

  /** With no edge of the subtree into the new node, the entries of base enter distinct nodes. */
  lemma AimedDistinct(base: seq<Edge>, subtree: seq<Edge>, cycleNodes: seq<int>, newNode: int)
    requires Aimed(base, subtree, cycleNodes, newNode)
    requires forall i, j :: 0 <= i < j < |cycleNodes| ==> cycleNodes[i] != cycleNodes[j]
    requires DistinctTargets(subtree)
    requires forall k :: 0 <= k < |subtree| ==> subtree[k].target != newNode
    ensures DistinctTargets(base)
  {
    var n := |subtree|;
    forall i, j | 0 <= i < j < |base| ensures base[i].target != base[j].target {
      if j < n {
        assert subtree[i].target != subtree[j].target;
      } else if i < n {
        assert cycleNodes[j - n] in cycleNodes;
      } else {
        assert cycleNodes[i - n] != cycleNodes[j - n];
      }
    }
  }

  /**
   * When the edge at position p of the subtree enters the new node and its
   * image enters the q-th cycle node, positions p and |subtree| + q are the
   * only two entries of base that enter the same node.
   */
  lemma AimedClash(base: seq<Edge>, subtree: seq<Edge>, cycleNodes: seq<int>, newNode: int, p: nat, q: nat)
    requires Aimed(base, subtree, cycleNodes, newNode)
    requires forall i, j :: 0 <= i < j < |cycleNodes| ==> cycleNodes[i] != cycleNodes[j]
    requires DistinctTargets(subtree)
    requires p < |subtree| && subtree[p].target == newNode && q < |cycleNodes| && base[p].target == cycleNodes[q]
    ensures forall i, j :: 0 <= i < j < |base| && base[i].target == base[j].target ==> i == p && j == |subtree| + q
    ensures forall k :: 0 <= k < |base| && base[k].target == cycleNodes[q] ==> k == p || k == |subtree| + q
  {
    var n := |subtree|;
    forall k | 0 <= k < |subtree| && k != p ensures subtree[k].target != newNode {
      if k < p {
        assert subtree[k].target != subtree[p].target;
      } else {
        assert subtree[p].target != subtree[k].target;
      }
    }
    forall k | 0 <= k < |base| && k != p && k != n + q ensures base[k].target != cycleNodes[q] {
      if k >= n {
        if k - n < q {
          assert cycleNodes[k - n] != cycleNodes[q];
        } else {
          assert cycleNodes[q] != cycleNodes[k - n];
        }
      }
    }
    forall i, j | 0 <= i < j < |base| && !(i == p && j == n + q) ensures base[i].target != base[j].target {
      if j < n {
        if i != p && j != p {
          assert subtree[i].target != subtree[j].target;
        }
      } else if i >= n {
        assert cycleNodes[i - n] != cycleNodes[j - n];
      } else if i == p {
        if j - n < q {
          assert cycleNodes[j - n] != cycleNodes[q];
        } else {
          assert cycleNodes[q] != cycleNodes[j - n];
        }
      } else {
        assert cycleNodes[j - n] in cycleNodes;
      }
    }
  }

  /**
   * Every cycle node is entered by base at position |subtree| + m, and every
   * other node the subtree enters by base at the position of the subtree's edge.
   */
  lemma AimedReaches(base: seq<Edge>, subtree: seq<Edge>, cycleNodes: seq<int>, newNode: int, t: int) returns (j: nat)
    requires Aimed(base, subtree, cycleNodes, newNode)
    requires t in cycleNodes || (t != newNode && Enters(subtree, t))
    ensures j < |base| && base[j].target == t
    ensures t in cycleNodes ==> j >= |subtree| && cycleNodes[j - |subtree|] == t
    ensures t !in cycleNodes ==> j < |subtree| && subtree[j].target == t
  {
    if t in cycleNodes {
      var m :| 0 <= m < |cycleNodes| && cycleNodes[m] == t;
      j := |subtree| + m;
    } else {
      var e :| e in subtree && e.target == t;
      j :| 0 <= j < |subtree| && subtree[j] == e;
    }
  }

  /**
   * Removing position k, one of the only two positions a and b whose edges
   * enter the same node, leaves no node entered twice.
   */
  lemma RemoveClash(xs: seq<Edge>, a: nat, b: nat, k: nat)
    requires a < b < |xs| && (k == a || k == b)
    requires forall i, j :: 0 <= i < j < |xs| && xs[i].target == xs[j].target ==> i == a && j == b
    ensures DistinctTargets(xs[..k] + xs[k + 1..])
  {
    var r := xs[..k] + xs[k + 1..];
    forall i, j | 0 <= i < j < |r| ensures r[i].target != r[j].target {
      var i' := if i < k then i else i + 1;
      var j' := if j < k then j else j + 1;
      assert r[i] == xs[i'] && r[j] == xs[j'];
    }
  }

  /** Removing position k keeps the entry at every other position. */
  lemma RemoveKeeps(xs: seq<Edge>, k: nat, j: nat)
    requires k < |xs| && j < |xs| && j != k
    ensures xs[j] in xs[..k] + xs[k + 1..]
  {
    var r := xs[..k] + xs[k + 1..];
    if j < k {
      assert r[j] == xs[j];
    } else {
      assert r[j - 1] == xs[j];
    }
  }

  /**
   * The expansion selects one incoming edge per node of g when no edge of
   * the subtree enters the new node: nothing is removed.
   */
  lemma ExpansionWhole(g: Graph, me: seq<Option<Edge>>, cycleNodes: seq<int>, oldEdges: map<nat, Edge>, subtree: seq<Edge>)
    requires WellFormed(g) && me == MinEdges(g)
    requires Restorable(g, me, cycleNodes, oldEdges, subtree) && TargetsKept(g, cycleNodes, oldEdges, subtree)
    requires forall i, j :: 0 <= i < j < |cycleNodes| ==> cycleNodes[i] != cycleNodes[j]
    requires DistinctTargets(subtree)
    requires forall t :: 1 <= t < g.length && t !in cycleNodes && Enters(g.edges, t) ==> Enters(subtree, t)
    requires forall k :: 0 <= k < |subtree| ==> subtree[k].target != g.length
    ensures Branching(g, Expansion(g, me, cycleNodes, oldEdges, subtree))
  {
    MinEdgesIndexed(g);
    ExpansionShape(g, me, cycleNodes, oldEdges, subtree);
    BaseTargets(g, me, cycleNodes, oldEdges, subtree);
    var base := Images(oldEdges, subtree) + CycleChoices(me, cycleNodes);
    RemovalNone(g, me, cycleNodes, oldEdges, subtree, base, 0);
    assert Expansion(g, me, cycleNodes, oldEdges, subtree) == base;
    AimedDistinct(base, subtree, cycleNodes, g.length);
    forall t | 1 <= t < g.length && Enters(g.edges, t) ensures Enters(base, t) {
      var j := AimedReaches(base, subtree, cycleNodes, g.length, t);
      assert base[j] in base;
    }
  }

  /**
   * The image at position p of an edge into the new node enters a cycle node,
   * the q-th, whose choice x sits right after the images.
   */
  lemma ChoiceAt(me: seq<Option<Edge>>, cycleNodes: seq<int>, oldEdges: map<nat, Edge>, subtree: seq<Edge>, p: nat)
    returns (q: nat, x: Edge)
    requires forall c <- cycleNodes :: 1 <= c <= |me| && me[c - 1].Some?
    requires forall e <- subtree :: e.id in oldEdges
    requires p < |subtree| && oldEdges[subtree[p].id].target in cycleNodes
    ensures q < |cycleNodes| && cycleNodes[q] == oldEdges[subtree[p].id].target && x == me[cycleNodes[q] - 1].value
    ensures var base := Images(oldEdges, subtree) + CycleChoices(me, cycleNodes);
            base[p].target == cycleNodes[q] && |subtree| + q < |base| && base[|subtree| + q] == x && x in base
  {
    var images, choices := Images(oldEdges, subtree), CycleChoices(me, cycleNodes);
    var c := oldEdges[subtree[p].id].target;
    q :| 0 <= q < |cycleNodes| && cycleNodes[q] == c;
    x := me[c - 1].value;
    assert choices[q] == x;
    assert (images + choices)[p] == images[p];
    assert (images + choices)[|subtree| + q] == x;
  }

  /**
   * The removal when the edge at position p of the subtree enters the new
   * node: with one edge per pair in g, the loop removes the chosen edge x of
   * the cycle node c that the edge's original enters, and x is at position
   * |subtree| + q of the images followed by the choices, c the q-th cycle node.
   */
  lemma CutEdge(g: Graph, me: seq<Option<Edge>>, cycleNodes: seq<int>, oldEdges: map<nat, Edge>,
                subtree: seq<Edge>, p: nat) returns (q: nat, x: Edge)
    requires WellFormed(g) && OnePerPair(g.edges) && me == MinEdges(g)
    requires Restorable(g, me, cycleNodes, oldEdges, subtree)
    requires DistinctTargets(subtree)
    requires p < |subtree| && subtree[p].target == g.length
    ensures var base := Images(oldEdges, subtree) + CycleChoices(me, cycleNodes);
            && q < |cycleNodes| && base[p].target == cycleNodes[q]
            && |subtree| + q < |base| && base[|subtree| + q] == x && x.target == cycleNodes[q]
            && Removal(g, me, cycleNodes, oldEdges, subtree, base, 0) == Some(x)
  {
    assert subtree[p] in subtree;
    q, x := ChoiceAt(me, cycleNodes, oldEdges, subtree, p);
    assert x.target == cycleNodes[q] by { MinEdgesIndexed(g); }
    var c := cycleNodes[q];
    assert c in cycleNodes && me[c - 1] == Some(x);
    var base := Images(oldEdges, subtree) + CycleChoices(me, cycleNodes);
    assert x in base;
    CutChoice(g, me, cycleNodes, oldEdges, subtree, base, p, c, x);
  }

  /** The removal loop takes out the chosen edge x of the cycle node c that the first subtree edge into the new node stands for. */
  lemma CutChoice(g: Graph, me: seq<Option<Edge>>, cycleNodes: seq<int>, oldEdges: map<nat, Edge>,
                  subtree: seq<Edge>, base: seq<Edge>, p: nat, c: int, x: Edge)
    requires WellFormed(g) && OnePerPair(g.edges) && me == MinEdges(g)
    requires Restorable(g, me, cycleNodes, oldEdges, subtree)
    requires DistinctTargets(subtree) && p < |subtree| && subtree[p].target == g.length
    requires subtree[p] in subtree && c == oldEdges[subtree[p].id].target && 1 <= c < g.length && me[c - 1] == Some(x)
    requires x in base
    ensures Removal(g, me, cycleNodes, oldEdges, subtree, base, 0) == Some(x)
  {
    GetEdgeChosen(g, c);
    FirstInto(subtree, p);
    RemovalAt(g, me, cycleNodes, oldEdges, subtree, base, 0, p, x);
  }

  /** With distinct targets, no edge before position p enters the node the edge at p enters. */
  lemma FirstInto(subtree: seq<Edge>, p: nat)
    requires DistinctTargets(subtree) && p < |subtree|
    ensures forall k :: 0 <= k < p ==> subtree[k].target != subtree[p].target
  {
  }

  /**
   * Removing position k of base, which enters the same cycle node as the
   * image at position p of the subtree's edge into the new node, leaves no
   * node entered twice, and every cycle node and every other node the
   * subtree enters still entered.
   */
  lemma CutResult(base: seq<Edge>, subtree: seq<Edge>, cycleNodes: seq<int>, newNode: int, p: nat, q: nat, k: nat)
    requires Aimed(base, subtree, cycleNodes, newNode)
    requires forall i, j :: 0 <= i < j < |cycleNodes| ==> cycleNodes[i] != cycleNodes[j]
    requires DistinctTargets(subtree)
    requires p < |subtree| && subtree[p].target == newNode && q < |cycleNodes| && base[p].target == cycleNodes[q]
    requires k < |base| && base[k].target == cycleNodes[q]
    ensures DistinctTargets(base[..k] + base[k + 1..])
    ensures forall t :: t in cycleNodes || (t != newNode && Enters(subtree, t)) ==> Enters(base[..k] + base[k + 1..], t)
  {
    var n := |subtree|;
    var r := base[..k] + base[k + 1..];
    AimedClash(base, subtree, cycleNodes, newNode, p, q);
    RemoveClash(base, p, n + q, k);
    forall t | t in cycleNodes || (t != newNode && Enters(subtree, t)) ensures Enters(r, t) {
      var j := AimedReaches(base, subtree, cycleNodes, newNode, t);
      if j == k {
        var j' := if k == p then n + q else p;
        RemoveKeeps(base, k, j');
        assert base[j'] in r;
      } else {
        RemoveKeeps(base, k, j);
        assert base[j] in r;
      }
    }
  }

  /** The position `list.remove(x)` takes out. */
  lemma RemovedAt(xs: seq<Edge>, x: Edge) returns (k: nat)
    requires x in xs
    ensures k < |xs| && xs[k] == x && RemoveFirst(xs, x) == xs[..k] + xs[k + 1..]
  {
    k := IndexOf(xs, x);
  }

  /** When the removal loop picks x, the expansion is the images and choices without their first x. */
  lemma ExpansionRemoves(g: Graph, me: seq<Option<Edge>>, cycleNodes: seq<int>, oldEdges: map<nat, Edge>,
                         subtree: seq<Edge>, base: seq<Edge>, x: Edge)
    requires Restorable(g, me, cycleNodes, oldEdges, subtree)
    requires base == Images(oldEdges, subtree) + CycleChoices(me, cycleNodes)
    requires Removal(g, me, cycleNodes, oldEdges, subtree, base, 0) == Some(x)
    ensures Expansion(g, me, cycleNodes, oldEdges, subtree) == RemoveFirst(base, x)
  {
  }

  /** The expansion selects one incoming edge per node of g when the edge at position p of the subtree enters the new node. */
  lemma ExpansionCut(g: Graph, me: seq<Option<Edge>>, cycleNodes: seq<int>, oldEdges: map<nat, Edge>,
                     subtree: seq<Edge>, p: nat)
    requires WellFormed(g) && OnePerPair(g.edges) && me == MinEdges(g)
    requires Restorable(g, me, cycleNodes, oldEdges, subtree) && TargetsKept(g, cycleNodes, oldEdges, subtree)
    requires forall i, j :: 0 <= i < j < |cycleNodes| ==> cycleNodes[i] != cycleNodes[j]
    requires DistinctTargets(subtree)
    requires forall t :: 1 <= t < g.length && t !in cycleNodes && Enters(g.edges, t) ==> Enters(subtree, t)
    requires p < |subtree| && subtree[p].target == g.length
    ensures Branching(g, Expansion(g, me, cycleNodes, oldEdges, subtree))
  {
    var base := Images(oldEdges, subtree) + CycleChoices(me, cycleNodes);
    var r := Expansion(g, me, cycleNodes, oldEdges, subtree);
    var q, x := CutEdge(g, me, cycleNodes, oldEdges, subtree, p);
    assert x in base;
    ExpansionRemoves(g, me, cycleNodes, oldEdges, subtree, base, x);
    var k := RemovedAt(base, x);
    assert forall e <- r :: e in g.edges && 1 <= e.target < g.length by {
      ExpansionShape(g, me, cycleNodes, oldEdges, subtree);
    }
    assert DistinctTargets(r) && forall t :: t in cycleNodes || (t != g.length && Enters(subtree, t)) ==> Enters(r, t) by {
      MinEdgesIndexed(g);
      BaseTargets(g, me, cycleNodes, oldEdges, subtree);
      CutResult(base, subtree, cycleNodes, g.length, p, q, k);
    }
  }

  /**
   * The expansion selects one incoming edge per node of g whenever g has one
   * edge per pair, the cycle nodes are distinct, and the subtree enters
   * distinct nodes, among them every node outside the cycle that g enters.
   */
  lemma ExpansionBranching(g: Graph, me: seq<Option<Edge>>, cycleNodes: seq<int>, oldEdges: map<nat, Edge>, subtree: seq<Edge>)
    requires WellFormed(g) && OnePerPair(g.edges) && me == MinEdges(g)
    requires Restorable(g, me, cycleNodes, oldEdges, subtree) && TargetsKept(g, cycleNodes, oldEdges, subtree)
    requires forall i, j :: 0 <= i < j < |cycleNodes| ==> cycleNodes[i] != cycleNodes[j]
    requires DistinctTargets(subtree)
    requires forall t :: 1 <= t < g.length && t !in cycleNodes && Enters(g.edges, t) ==> Enters(subtree, t)
    ensures Branching(g, Expansion(g, me, cycleNodes, oldEdges, subtree))
  {
    if p :| 0 <= p < |subtree| && subtree[p].target == g.length {
      ExpansionCut(g, me, cycleNodes, oldEdges, subtree, p);
    } else {
      ExpansionWhole(g, me, cycleNodes, oldEdges, subtree);
    }
  }

  /**
   * The expansion of the new node (graph.py:83-90): the original edges of the
   * decoded contracted graph plus the cycle's chosen edges, less the chosen
   * edge of the cycle node that the first matching edge into the new node enters.
   */
  method Expand(g: Graph, me: seq<Option<Edge>>, cycleNodes: seq<int>, oldEdges: map<nat, Edge>,
                newEdges: seq<Edge>, sub: seq<Option<Edge>>) returns (restored: seq<Edge>)
    requires Restorable(g, me, cycleNodes, oldEdges, newEdges) && TargetsKept(g, cycleNodes, oldEdges, newEdges)
    requires forall k :: 0 <= k < |sub| && sub[k].Some? ==> sub[k].value in newEdges
    ensures Restorable(g, me, cycleNodes, oldEdges, Present(sub)) && TargetsKept(g, cycleNodes, oldEdges, Present(sub))
    ensures restored == Expansion(g, me, cycleNodes, oldEdges, Present(sub))
  {
    var subtree := Present(sub);
    RestorableSub(g, me, cycleNodes, oldEdges, newEdges, subtree);
    var base := RestoreAll(g, me, cycleNodes, oldEdges, subtree);
    restored := RemoveEntered(g, me, cycleNodes, oldEdges, subtree, base);
  }

  /** The images of the subtree followed by the chosen edges of the cycle nodes (graph.py:83-85). */
  method RestoreAll(g: Graph, me: seq<Option<Edge>>, cycleNodes: seq<int>, oldEdges: map<nat, Edge>,
                    subtree: seq<Edge>) returns (restored: seq<Edge>)
    requires Restorable(g, me, cycleNodes, oldEdges, subtree)
    ensures restored == Images(oldEdges, subtree) + CycleChoices(me, cycleNodes)
  {
    restored := seq(|subtree|, k requires 0 <= k < |subtree| => oldEdges[subtree[k].id]);
    for i := 0 to |cycleNodes|
      invariant |restored| == |subtree| + i && restored[..|subtree|] == Images(oldEdges, subtree)
      invariant forall k :: 0 <= k < i ==> cycleNodes[k] in cycleNodes && restored[|subtree| + k] == me[cycleNodes[k] - 1].value
    {
      assert cycleNodes[i] in cycleNodes;
      restored := restored + [me[cycleNodes[i] - 1].value];
    }
  }

  /** The removal loop (graph.py:86-89): at most one edge, the one `Removal` names, leaves the list. */
  method RemoveEntered(g: Graph, me: seq<Option<Edge>>, cycleNodes: seq<int>, oldEdges: map<nat, Edge>,
                       subtree: seq<Edge>, base: seq<Edge>) returns (restored: seq<Edge>)
    requires Restorable(g, me, cycleNodes, oldEdges, subtree)
    ensures restored == match Removal(g, me, cycleNodes, oldEdges, subtree, base, 0)
                        case None => base
                        case Some(x) => RemoveFirst(base, x)
  {
    restored := base;
    for i := 0 to |subtree|
      invariant restored == base
      invariant Removal(g, me, cycleNodes, oldEdges, subtree, base, 0) == Removal(g, me, cycleNodes, oldEdges, subtree, base, i)
    {
      var edge := subtree[i];
      assert edge in subtree;
      if edge.target == g.length {
        var oldNode := oldEdges[edge.id].target;
        var chosen := GetEdge(g, Some(me[oldNode - 1].value.origin), Some(oldNode), None);
        if chosen.Some? && chosen.value in restored {
          restored := RemoveFirst(restored, chosen.value);
          return;
        }
      }
    }
  }

  /**
   * `cle`: returns the chosen incoming edges when they close no cycle, and
   * otherwise the expansion of the decoded contracted graph. Ids of edges
   * made during the call start at `nextId`.
   */
  method Cle(g: Graph, nextId: nat) returns (r: seq<Option<Edge>>)
    requires WellFormed(g) && IdsBelow(g.edges, nextId)
    ensures forall k :: 0 <= k < |r| && r[k].Some? ==> r[k].value in g.edges
    ensures (forall m :: 1 <= m < g.length ==> !Returns(MinEdges(g), m)) ==> r == MinEdges(g)
    ensures r == MinEdges(g) || forall k :: 0 <= k < |r| ==> r[k].Some?
    ensures OnePerPair(g.edges) ==> Branching(g, Present(r))
    decreases |g.edges|, 1
  {
    var me := MinEdges(g);
    MinEdgesIndexed(g);
    var cycle, n := FindCycle(g, me);
    if cycle == [] {
      forall k | 0 <= k < |me| && me[k].Some? ensures me[k].value in g.edges {
        MinEdgesMember(g, k);
      }
      MinEdgesBranching(g);
      return me;
    }
    var restored, cycleNodes, oldEdges, newEdges, sub := Resolve(g, me, n, cycle, nextId);
    r := Wrap(restored);
    PresentWrap(restored);
  }

  /** `cycle_nodes` (graph.py:50): the targets of the cycle's edges, in order. */
  method NodesOf(g: Graph, me: seq<Option<Edge>>, ghost n: int, cycle: seq<Edge>) returns (cycleNodes: seq<int>)
    requires me == MinEdges(g) && Indexed(me, g.length) && 1 <= n < g.length
    requires IsCycleFrom(me, n, cycle)
    ensures |cycleNodes| == |cycle| && forall k :: 0 <= k < |cycle| ==> cycleNodes[k] == cycle[k].target
    ensures CycleNodesOf(g, me, cycleNodes)
    ensures forall c <- cycleNodes :: me[c - 1].value in g.edges
    ensures exists e <- g.edges :: Inside(e, cycleNodes)
  {
    cycleNodes := seq(|cycle|, k requires 0 <= k < |cycle| => cycle[k].target);
    Contractible(g, me, n, cycle, cycleNodes);
  }

  /**
   * The cycle case of `cle` (graph.py:50-90): contract, decode the contracted
   * graph, expand. The ghost results name the contraction and the decoded
   * contracted graph the expansion starts from.
   */
  method Resolve(g: Graph, me: seq<Option<Edge>>, ghost n: int, cycle: seq<Edge>, nextId: nat)
    returns (restored: seq<Edge>, ghost cycleNodes: seq<int>, ghost oldEdges: map<nat, Edge>,
             ghost newEdges: seq<Edge>, ghost sub: seq<Option<Edge>>)
    requires WellFormed(g) && IdsBelow(g.edges, nextId)
    requires me == MinEdges(g) && Indexed(me, g.length) && 1 <= n < g.length
    requires IsCycleFrom(me, n, cycle)
    requires forall i, j :: 0 <= i < j < |cycle| ==> cycle[i].target != cycle[j].target
    ensures |cycleNodes| == |cycle| && forall k :: 0 <= k < |cycle| ==> cycleNodes[k] == cycle[k].target
    ensures CycleNodesOf(g, me, cycleNodes)
    ensures WellFormed(Graph(g.length + 1, newEdges)) && OnePerPair(newEdges) && |newEdges| < |g.edges|
    ensures Restorable(g, me, cycleNodes, oldEdges, Present(sub))
    ensures Branching(Graph(g.length + 1, newEdges), Present(sub))
    ensures restored == Expansion(g, me, cycleNodes, oldEdges, Present(sub))
    ensures forall e <- restored :: e in g.edges
    ensures OnePerPair(g.edges) ==> Branching(g, restored)
    decreases |g.edges|, 0
  {
    var nodes := NodesOf(g, me, n, cycle);
    var contracted, origins, next := Reduce(g, me, nodes, nextId);
    var decoded := Cle(Graph(g.length + 1, contracted), next);
    restored := Expand(g, me, nodes, origins, contracted, decoded);
    cycleNodes, oldEdges, newEdges, sub := nodes, origins, contracted, decoded;
    ExpansionShape(g, me, cycleNodes, oldEdges, Present(sub));
    if OnePerPair(g.edges) {
      forall t | 1 <= t < g.length && t !in cycleNodes && Enters(g.edges, t) ensures Enters(Present(sub), t) {
        assert Enters(newEdges, t);
      }
      ExpansionBranching(g, me, cycleNodes, oldEdges, Present(sub));
    }
  }
}

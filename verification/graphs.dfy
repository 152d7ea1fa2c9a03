/**
 * Edges and graphs of the decoder (graph.py): a directed multigraph over the
 * nodes 0 .. length-1, node 0 being the artificial root.  Python relies on the
 * identity of `Edge` objects; here every edge carries an explicit `id`.
 */
module Graphs {
  import opened Wrappers

  /** A relation label; Python's `None` relation is `None`. */
  type Label = Option<string>

  datatype Edge = Edge(id: nat, origin: int, target: int, cost: int, relation: Label)

  /** `length` counts the root; `edges` keeps the order in which they were given. */
  datatype Graph = Graph(length: nat, edges: seq<Edge>)

  /** Distinct ids stand for distinct Python objects. */
  ghost predicate DistinctIds(es: seq<Edge>)
  {
    forall i, j :: 0 <= i < j < |es| ==> es[i].id != es[j].id
  }

  ghost predicate IdsBelow(es: seq<Edge>, bound: nat)
  {
    forall e <- es :: e.id < bound
  }

  /** Every endpoint is a node index, no edge enters the root, and ids are distinct. */
  ghost predicate WellFormed(g: Graph)
  {
    && (forall e <- g.edges :: 0 <= e.origin < g.length && 1 <= e.target < g.length)
    && DistinctIds(g.edges)
  }

  /** No two edges join the same (origin, target) pair. */
  ghost predicate OnePerPair(es: seq<Edge>)
  {
    forall i, j :: 0 <= i < j < |es| ==> es[i].origin != es[j].origin || es[i].target != es[j].target
  }

  /** Some edge of es enters node t. */
  ghost predicate Enters(es: seq<Edge>, t: int)
  {
    exists e <- es :: e.target == t
  }

  /** No two edges of es enter the same node. */
  ghost predicate DistinctTargets(es: seq<Edge>)
  {
    forall i, j :: 0 <= i < j < |es| ==> es[i].target != es[j].target
  }

  /**
   * The edges es select one incoming edge per node of g: each is an edge of g
   * into a node other than the root, no node is entered twice, and every node
   * that g enters at all is entered.
   */
  ghost predicate Branching(g: Graph, es: seq<Edge>)
  {
    && (forall e <- es :: e in g.edges && 1 <= e.target < g.length)
    && DistinctTargets(es)
    && (forall t :: 1 <= t < g.length && Enters(g.edges, t) ==> Enters(es, t))
  }

  /** The test of `get_edge`: a `None` origin or target is a wildcard. */
  predicate Matches(e: Edge, origin: Option<int>, target: Option<int>)
  {
    (origin.None? || e.origin == origin.value) && (target.None? || e.target == target.value)
  }

  /** Index of the first edge of `es` that matches. */
  function FirstMatch(es: seq<Edge>, origin: Option<int>, target: Option<int>): (k: Option<nat>)
    ensures k.None? <==> forall j :: 0 <= j < |es| ==> !Matches(es[j], origin, target)
    ensures k.Some? ==> k.value < |es| && Matches(es[k.value], origin, target)
    ensures k.Some? ==> forall j :: 0 <= j < k.value ==> !Matches(es[j], origin, target)
  {
    if es == [] then None
    else if Matches(es[0], origin, target) then Some(0)
    else
      match FirstMatch(es[1..], origin, target)
      case None => None
      case Some(k) => Some(k + 1)
  }

  /** The list `get_edge` searches: `edges or self.edges`, so `None` and `[]` both fall back. */
  function SearchList(g: Graph, edges: Option<seq<Edge>>): seq<Edge>
  {
    if edges.None? || edges.value == [] then g.edges else edges.value
  }

  /** `Graph.get_edge`: the first edge, in list order, with the given origin and target. */
  function GetEdge(g: Graph, origin: Option<int>, target: Option<int>, edges: Option<seq<Edge>>): (r: Option<Edge>)
    ensures r.None? <==> forall e <- SearchList(g, edges) :: !Matches(e, origin, target)
    ensures r.Some? ==>
              exists k :: 0 <= k < |SearchList(g, edges)| && SearchList(g, edges)[k] == r.value
                          && Matches(r.value, origin, target)
                          && forall j :: 0 <= j < k ==> !Matches(SearchList(g, edges)[j], origin, target)
  {
    var es := SearchList(g, edges);
    match FirstMatch(es, origin, target)
    case None => None
    case Some(k) => Some(es[k])
  }

  /**
   * Index of Python's `min(..., key=cost)` over the matching edges: the first
   * edge of least cost, since `min` only replaces its candidate by a strictly
   * cheaper one.
   */
  function MinMatch(es: seq<Edge>, origin: Option<int>, target: Option<int>): (k: Option<nat>)
    ensures k.None? <==> forall j :: 0 <= j < |es| ==> !Matches(es[j], origin, target)
    ensures k.Some? ==> k.value < |es| && Matches(es[k.value], origin, target)
    ensures k.Some? ==> forall j :: 0 <= j < |es| && Matches(es[j], origin, target) ==> es[k.value].cost <= es[j].cost
    ensures k.Some? ==> forall j :: 0 <= j < k.value && Matches(es[j], origin, target) ==> es[k.value].cost < es[j].cost
  {
    if es == [] then None
    else
      var rest := MinMatch(es[1..], origin, target);
      if !Matches(es[0], origin, target) then
        (if rest.None? then None else Some(rest.value + 1))
      else if rest.Some? && es[rest.value + 1].cost < es[0].cost then Some(rest.value + 1)
      else Some(0)
  }

  /** `e` is the first least-cost edge of `es` entering `t`. */
  ghost predicate IsFirstMinInto(es: seq<Edge>, t: int, e: Edge)
  {
    exists k :: 0 <= k < |es| && es[k] == e && e.target == t
      && (forall j :: 0 <= j < |es| && es[j].target == t ==> e.cost <= es[j].cost)
      && (forall j :: 0 <= j < k && es[j].target == t ==> e.cost < es[j].cost)
  }

  /** Number of entries of `min_edges`: `range(length - 1)`. */
  function NodeCount(g: Graph): nat
  {
    if g.length == 0 then 0 else g.length - 1
  }

  /** `min_edges`: entry i is the chosen incoming edge of node i + 1, or `None`. */
  function MinEdges(g: Graph): (r: seq<Option<Edge>>)
    ensures |r| == NodeCount(g)
    ensures forall i :: 0 <= i < |r| ==> (r[i].None? <==> forall e <- g.edges :: e.target != i + 1)
    ensures forall i :: 0 <= i < |r| && r[i].Some? ==> IsFirstMinInto(g.edges, i + 1, r[i].value)
  {
    seq(NodeCount(g), i requires 0 <= i < NodeCount(g) => MinInto(g.edges, i + 1))
  }

  function MinInto(es: seq<Edge>, t: int): (r: Option<Edge>)
    ensures r.None? <==> forall e <- es :: e.target != t
    ensures r.Some? ==> IsFirstMinInto(es, t, r.value)
  {
    match MinMatch(es, None, Some(t))
    case None => None
    case Some(k) => Some(es[k])
  }

  /** The chosen edge of node i + 1 is an edge of the graph entering node i + 1. */
  lemma MinEdgesMember(g: Graph, i: int)
    requires 0 <= i < NodeCount(g) && MinEdges(g)[i].Some?
    ensures MinEdges(g)[i].value in g.edges && MinEdges(g)[i].value.target == i + 1
  {
    assert IsFirstMinInto(g.edges, i + 1, MinEdges(g)[i].value);
  }
}

/**
 * The cycle search of `Graph.cle` (graph.py:35-48): from every node n, follow
 * the origins of the chosen incoming edges until the chain ends, repeats an
 * edge, or reaches an edge whose origin is n.
 */
module CycleSearch {
  import opened Wrappers
  import opened Graphs
  import opened Counting

  /**
   * The index `origin - 1` into `min_edges`; Python reads index -1, the last
   * entry, for origin 0, so the root behaves like the last node.
   */
  function OriginIndex(origin: int, count: nat): int
  {
    if origin == 0 then count - 1 else origin - 1
  }

  /** The `min_edges` index reached after k steps from index i, or None once the chain has ended. */
  ghost function Walk(me: seq<Option<Edge>>, i: int, k: nat): Option<int>
  {
    if k == 0 then Some(i)
    else
      match Walk(me, i, k - 1)
      case None => None
      case Some(j) =>
        if 0 <= j < |me| && me[j].Some? then Some(OriginIndex(me[j].value.origin, |me|)) else None
  }

  /** The k-th entry of the chain that starts at node n (`path[k]` in the source). */
  ghost function ChainEdge(me: seq<Option<Edge>>, n: int, k: nat): Option<Edge>
  {
    match Walk(me, n - 1, k)
    case None => None
    case Some(j) => if 0 <= j < |me| then me[j] else None
  }

  /** After k steps from node n the chain meets an edge whose origin is n. */
  ghost predicate ReturnsAt(me: seq<Option<Edge>>, n: int, k: nat)
  {
    ChainEdge(me, n, k).Some? && ChainEdge(me, n, k).value.origin == n
  }

  /** The chain of chosen edges from node n comes back to n. */
  ghost predicate Returns(me: seq<Option<Edge>>, n: int)
  {
    exists k: nat :: ReturnsAt(me, n, k)
  }

  /** Entry i of `min_edges`, when present, enters node i + 1 and has a node as origin. */
  ghost predicate Indexed(me: seq<Option<Edge>>, length: nat)
  {
    && |me| == (if length == 0 then 0 else length - 1)
    && forall i :: 0 <= i < |me| && me[i].Some? ==>
         me[i].value.target == i + 1 && 0 <= me[i].value.origin < length
  }

  lemma MinEdgesIndexed(g: Graph)
    requires WellFormed(g)
    ensures Indexed(MinEdges(g), g.length)
  {
    var me := MinEdges(g);
    forall i | 0 <= i < |me| && me[i].Some?
      ensures me[i].value.target == i + 1 && 0 <= me[i].value.origin < g.length
    {
      assert IsFirstMinInto(g.edges, i + 1, me[i].value);
    }
  }

  /** `cycle` is the path recorded for node n: the chain from n up to its first edge with origin n. */
  ghost predicate IsCycleFrom(me: seq<Option<Edge>>, n: int, cycle: seq<Edge>)
  {
    && |cycle| >= 1
    && (forall k :: 0 <= k < |cycle| ==> ChainEdge(me, n, k) == Some(cycle[k]))
    && (forall k :: 0 <= k < |cycle| - 1 ==> cycle[k].origin != n)
    && cycle[|cycle| - 1].origin == n
  }

  lemma WalkSplit(me: seq<Option<Edge>>, i: int, a: nat, b: nat)
    ensures Walk(me, i, a + b) == match Walk(me, i, a) case None => None case Some(j) => Walk(me, j, b)
    decreases b
  {
    if b > 0 {
      WalkSplit(me, i, a, b - 1);
    }
  }

  /** Once the chain has ended it stays ended. */
  lemma {:induction false} EndedStaysEnded(me: seq<Option<Edge>>, n: int, p: nat, k: nat)
    requires ChainEdge(me, n, p).None?
    requires p <= k
    ensures ChainEdge(me, n, k).None?
    decreases k - p
  {
    if p < k {
      assert Walk(me, n - 1, p + 1).None?;
      EndedStaysEnded(me, n, p + 1, k);
    }
  }

  /** A chain that revisits an index never meets its start again if it has not done so before. */
  lemma {:induction false} PeriodicNoReturn(me: seq<Option<Edge>>, n: int, p: nat, q: nat, k: nat)
    requires p < q && Walk(me, n - 1, p) == Walk(me, n - 1, q)
    requires forall k' :: 0 <= k' < q ==> !ReturnsAt(me, n, k')
    ensures !ReturnsAt(me, n, k)
    decreases k
  {
    if k >= q {
      WalkSplit(me, n - 1, q, k - q);
      WalkSplit(me, n - 1, p, k - q);
      assert Walk(me, n - 1, k) == Walk(me, n - 1, p + (k - q));
      PeriodicNoReturn(me, n, p, q, p + (k - q));
    }
  }

  /** Distinct chosen edges enter distinct nodes, so a path of them is no longer than `min_edges`. */
  lemma PathTargets(me: seq<Option<Edge>>, length: nat, path: seq<Option<Edge>>)
    requires Indexed(me, length)
    requires forall k :: 0 <= k < |path| ==> path[k].Some? && path[k] in me
    requires Distinct(path)
    ensures forall i, j :: 0 <= i < j < |path| ==> path[i].value.target != path[j].value.target
    ensures |path| <= |me|
  {
    var targets := seq(|path|, k requires 0 <= k < |path| => path[k].value.target - 1);
    forall i, j | 0 <= i < j < |path| ensures path[i].value.target != path[j].value.target {
      var a :| 0 <= a < |me| && me[a] == path[i];
      var b :| 0 <= b < |me| && me[b] == path[j];
      assert a != b;
    }
    assert Distinct(targets);
    forall k | 0 <= k < |path| ensures 0 <= targets[k] < |me| {
      var a :| 0 <= a < |me| && me[a] == path[k];
    }
    DistinctInRange(targets, 0, |me|);
  }

  /** Following the chosen edge of the chain's last entry gives the next entry. */
  lemma ChainStep(me: seq<Option<Edge>>, length: nat, n: int, k: nat)
    requires Indexed(me, length) && 1 <= n < length
    requires ChainEdge(me, n, k).Some?
    ensures 0 <= OriginIndex(ChainEdge(me, n, k).value.origin, |me|) < |me|
    ensures ChainEdge(me, n, k + 1) == me[OriginIndex(ChainEdge(me, n, k).value.origin, |me|)]
    ensures ChainEdge(me, n, k) in me
  {
  }

  /** The edges of a path whose entries are all present. */
  function Values(path: seq<Option<Edge>>): (r: seq<Edge>)
    requires forall k :: 0 <= k < |path| ==> path[k].Some?
    ensures |r| == |path| && forall k :: 0 <= k < |path| ==> path[k] == Some(r[k])
  {
    seq(|path|, k requires 0 <= k < |path| => path[k].value)
  }

  /** A path that ends at an edge with origin m is the cycle recorded for m. */
  lemma PathReturns(me: seq<Option<Edge>>, length: nat, m: int, path: seq<Option<Edge>>)
    requires Indexed(me, length) && 1 <= m < length && 1 <= |path|
    requires forall k :: 0 <= k < |path| ==> path[k] == ChainEdge(me, m, k)
    requires forall k :: 0 <= k < |path| - 1 ==> path[k].Some? && path[k].value.origin != m
    requires path[|path| - 1].Some? && path[|path| - 1].value.origin == m
    requires Distinct(path)
    ensures Returns(me, m) && IsCycleFrom(me, m, Values(path))
    ensures forall i, j :: 0 <= i < j < |path| ==> Values(path)[i].target != Values(path)[j].target
  {
    assert ReturnsAt(me, m, |path| - 1);
    forall k | 0 <= k < |path| ensures path[k].Some? && path[k] in me {
      ChainStep(me, length, m, k);
    }
    PathTargets(me, length, path);
  }

  /** A path that ended, or repeated an edge, without meeting origin m shows that m's chain never returns. */
  lemma PathEnds(me: seq<Option<Edge>>, length: nat, m: int, path: seq<Option<Edge>>)
    requires Indexed(me, length) && 1 <= m < length && 1 <= |path|
    requires forall k :: 0 <= k < |path| ==> path[k] == ChainEdge(me, m, k)
    requires forall k :: 0 <= k < |path| - 1 ==> path[k].Some? && path[k].value.origin != m
    requires path[|path| - 1].None? || path[|path| - 1] in path[..|path| - 1]
    ensures !Returns(me, m)
  {
    var last := |path| - 1;
    if path[last].None? {
      forall k: nat ensures !ReturnsAt(me, m, k) {
        if k >= last {
          EndedStaysEnded(me, m, last, k);
        }
      }
    } else {
      var p :| 0 <= p < last && path[p] == path[last];
      ChainStep(me, length, m, p);
      ChainStep(me, length, m, last);
      assert Walk(me, m - 1, p) == Walk(me, m - 1, last);
      forall k: nat ensures !ReturnsAt(me, m, k) {
        PeriodicNoReturn(me, m, p, last, k);
      }
    }
  }

  /**
   * The search loop of `cle`: the path recorded for the first node whose chain
   * returns to it, or the empty list when no chain returns.
   */
  method FindCycle(g: Graph, me: seq<Option<Edge>>) returns (cycle: seq<Edge>, ghost n: int)
    requires Indexed(me, g.length)
    ensures cycle == [] <==> forall m :: 1 <= m < g.length ==> !Returns(me, m)
    ensures cycle != [] ==> 1 <= n < g.length && IsCycleFrom(me, n, cycle)
    ensures cycle != [] ==> forall m :: 1 <= m < n ==> !Returns(me, m)
    ensures cycle != [] ==> forall i, j :: 0 <= i < j < |cycle| ==> cycle[i].target != cycle[j].target
  {
    cycle, n := [], 0;
    var m := 1;
    while m < g.length
      invariant 1 <= m && cycle == []
      invariant forall m' :: 1 <= m' < m ==> !Returns(me, m')
    {
      cycle := TraceFrom(g, me, m);
      if cycle != [] {
        n := m;
        return;
      }
      m := m + 1;
    }
  }

  /** One step of the walk: a path of distinct edges that has not closed is no longer than me and extends by the chosen edge of the last origin. */
  lemma TraceStep(me: seq<Option<Edge>>, length: nat, m: int, path: seq<Option<Edge>>)
    requires Indexed(me, length) && 1 <= m < length && 1 <= |path|
    requires forall k :: 0 <= k < |path| ==> path[k] == ChainEdge(me, m, k) && path[k].Some?
    requires Distinct(path[..|path| - 1])
    requires path[|path| - 1] !in path[..|path| - 1]
    ensures Distinct(path) && |path| <= |me|
    ensures 0 <= OriginIndex(path[|path| - 1].value.origin, |me|) < |me|
    ensures ChainEdge(me, m, |path|) == me[OriginIndex(path[|path| - 1].value.origin, |me|)]
    ensures Distinct((path + [ChainEdge(me, m, |path|)])[..|path|])
  {
    forall k | 0 <= k < |path| ensures path[k].Some? && path[k] in me {
      ChainStep(me, length, m, k);
    }
    forall i, j | 0 <= i < j < |path| ensures path[i] != path[j] {
      if j < |path| - 1 {
        assert path[..|path| - 1][i] == path[i] && path[..|path| - 1][j] == path[j];
      } else {
        assert path[i] == path[..|path| - 1][i];
      }
    }
    PathTargets(me, length, path);
    ChainStep(me, length, m, |path| - 1);
    assert (path + [ChainEdge(me, m, |path|)])[..|path|] == path;
  }

  /**
   * The walk from node m along the chosen incoming edges (graph.py:38-47):
   * it stops at a missing edge, at an edge already on the path, or when it
   * comes back to m, and only the last gives a cycle.
   */
  method TraceFrom(g: Graph, me: seq<Option<Edge>>, m: int) returns (cycle: seq<Edge>)
    requires Indexed(me, g.length) && 1 <= m < g.length
    ensures cycle == [] <==> !Returns(me, m)
    ensures cycle != [] ==> IsCycleFrom(me, m, cycle)
    ensures cycle != [] ==> forall i, j :: 0 <= i < j < |cycle| ==> cycle[i].target != cycle[j].target
  {
    var path := [me[m - 1]];
    while path[|path| - 1].Some? && path[|path| - 1] !in path[..|path| - 1]
      invariant 1 <= |path|
      invariant forall k :: 0 <= k < |path| ==> path[k] == ChainEdge(me, m, k)
      invariant forall k :: 0 <= k < |path| - 1 ==> path[k].Some? && path[k].value.origin != m
      invariant Distinct(path[..|path| - 1])
      decreases |me| + 1 - |path|
    {
      TraceStep(me, g.length, m, path);
      var origin := path[|path| - 1].value.origin;
      if origin == m {
        PathReturns(me, g.length, m, path);
        return Values(path);
      }
      path := path + [me[OriginIndex(origin, |me|)]];
    }
    PathEnds(me, g.length, m, path);
    return [];
  }
}

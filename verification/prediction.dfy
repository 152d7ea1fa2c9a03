/**
 * What `predict` computes (model.py:26-45): one scored edge per candidate
 * pair of the sentence, in the order of the loops over heads and dependents,
 * the decoder's tree over those edges, and the copy of the sentence whose
 * tokens take head and relation from the edges of the tree.
 */
module Prediction {
  import opened Wrappers
  import opened Graphs
  import opened Corpus
  import opened CycleSearch
  import opened Decoder
  import opened Training

  /**
   * The cost and the label `predict` computes for a pair from its feature ids
   * (model.py:33-39); how they follow from the weight tables is not modelled.
   */
  type Scorer = seq<int> -> (int, Label)

  /** The edge list of `predict` (model.py:28-40): edge k joins the k-th pair of ps. */
  function Arcs(ps: seq<(nat, nat)>, features: FeatureMap, score: Scorer): seq<Edge>
    requires forall p <- ps :: (p.0, p.1) in features
  {
    seq(|ps|, k requires 0 <= k < |ps| =>
      var sc := score(features[(ps[k].0, ps[k].1)]);
      Edge(k, ps[k].0, ps[k].1, sc.0, sc.1))
  }

  /** The edges the inner loop of `predict` appends for head h and the dependents below d, numbered from base. */
  function RowArcs(tokens: seq<Token>, features: FeatureMap, score: Scorer, h: nat, d: nat, base: nat): seq<Edge>
    requires HasPairs(tokens, features) && h < |tokens| && d <= |tokens|
  {
    if d <= 1 then []
    else
      var r := RowArcs(tokens, features, score, h, d - 1, base);
      if d - 1 == h then r
      else
        assert IsPair(|tokens|, h, d - 1);
        var sc := score(features[(h, d - 1)]);
        r + [Edge(base + |r|, h, d - 1, sc.0, sc.1)]
  }

  /** The edges of the pairs before (h, d) are those before head h followed by the row of h so far. */
  lemma {:induction false} RowArcsPrefix(tokens: seq<Token>, features: FeatureMap, score: Scorer, h: nat, d: nat)
    requires HasPairs(tokens, features) && h < |tokens| && 1 <= d <= |tokens|
    ensures forall q <- Rows(|tokens|, h) :: (q.0, q.1) in features
    ensures forall q <- Rows(|tokens|, h) + Row(h, d) :: (q.0, q.1) in features
    ensures Arcs(Rows(|tokens|, h) + Row(h, d), features, score)
            == Arcs(Rows(|tokens|, h), features, score) + RowArcs(tokens, features, score, h, d, |Rows(|tokens|, h)|)
  {
    var n := |tokens|;
    PrefixKeys(tokens, features, h, d);
    PrefixKeys(tokens, features, h, 1);
    var rows: seq<(nat, nat)> := Rows(n, h);
    var a := Arcs(rows, features, score);
    if d == 1 {
      assert rows + Row(h, d) == rows;
      assert a + RowArcs(tokens, features, score, h, d, |rows|) == a;
    } else {
      var k: nat := d - 1;
      RowArcsPrefix(tokens, features, score, h, k);
      RowArcsExtend(tokens, features, score, h, k);
    }
  }

  /** If the edges of the pairs before (h, k) split into rows and row, so do those before (h, k + 1). */
  lemma RowArcsExtend(tokens: seq<Token>, features: FeatureMap, score: Scorer, h: nat, k: nat)
    requires HasPairs(tokens, features) && h < |tokens| && 1 <= k < |tokens|
    requires forall q <- Rows(|tokens|, h) + Row(h, k) :: (q.0, q.1) in features
    requires forall q <- Rows(|tokens|, h) :: (q.0, q.1) in features
    requires Arcs(Rows(|tokens|, h) + Row(h, k), features, score)
             == Arcs(Rows(|tokens|, h), features, score) + RowArcs(tokens, features, score, h, k, |Rows(|tokens|, h)|)
    ensures forall q <- Rows(|tokens|, h) + Row(h, k + 1) :: (q.0, q.1) in features
    ensures Arcs(Rows(|tokens|, h) + Row(h, k + 1), features, score)
            == Arcs(Rows(|tokens|, h), features, score) + RowArcs(tokens, features, score, h, k + 1, |Rows(|tokens|, h)|)
  {
    var rows: seq<(nat, nat)> := Rows(|tokens|, h);
    if k == h {
      RowArcsAtHead(tokens, features, score, h, k, rows);
    } else {
      RowArcsAtPair(tokens, features, score, h, k, rows);
    }
  }

  /** The dependent equal to the head adds no edge. */
  lemma RowArcsAtHead(tokens: seq<Token>, features: FeatureMap, score: Scorer, h: nat, k: nat, rows: seq<(nat, nat)>)
    requires HasPairs(tokens, features) && h < |tokens| && 1 <= k < |tokens|
    requires forall q <- rows + Row(h, k) :: (q.0, q.1) in features
    requires forall q <- rows :: (q.0, q.1) in features
    requires Arcs(rows + Row(h, k), features, score) == Arcs(rows, features, score) + RowArcs(tokens, features, score, h, k, |rows|)
    requires k == h
    ensures forall q <- rows + Row(h, k + 1) :: (q.0, q.1) in features
    ensures Arcs(rows + Row(h, k + 1), features, score) == Arcs(rows, features, score) + RowArcs(tokens, features, score, h, k + 1, |rows|)
  {
    assert Row(h, k + 1) == Row(h, k);
  }

  /** Any other dependent adds the edge of the pair (h, k), numbered after those before it. */
  lemma RowArcsAtPair(tokens: seq<Token>, features: FeatureMap, score: Scorer, h: nat, k: nat, rows: seq<(nat, nat)>)
    requires HasPairs(tokens, features) && h < |tokens| && 1 <= k < |tokens|
    requires forall q <- rows + Row(h, k) :: (q.0, q.1) in features
    requires forall q <- rows :: (q.0, q.1) in features
    requires Arcs(rows + Row(h, k), features, score) == Arcs(rows, features, score) + RowArcs(tokens, features, score, h, k, |rows|)
    requires k != h
    ensures forall q <- rows + Row(h, k + 1) :: (q.0, q.1) in features
    ensures Arcs(rows + Row(h, k + 1), features, score) == Arcs(rows, features, score) + RowArcs(tokens, features, score, h, k + 1, |rows|)
  {
    var ps: seq<(nat, nat)> := rows + Row(h, k);
    var r := RowArcs(tokens, features, score, h, k, |rows|);
    assert IsPair(|tokens|, h, k);
    assert rows + Row(h, k + 1) == ps + [(h, k)];
    RowArcsStep(tokens, features, score, h, k, |rows|);
    ArcsAppendOne(rows, ps, r, (h, k), features, score);
  }

  /** If the edges of ps are those of rows followed by r, one more pair appends its edge after r. */
  lemma ArcsAppendOne(rows: seq<(nat, nat)>, ps: seq<(nat, nat)>, r: seq<Edge>, p: (nat, nat),
                      features: FeatureMap, score: Scorer)
    requires forall q <- ps :: (q.0, q.1) in features
    requires forall q <- rows :: (q.0, q.1) in features
    requires (p.0, p.1) in features
    requires Arcs(ps, features, score) == Arcs(rows, features, score) + r
    ensures forall q <- ps + [p] :: (q.0, q.1) in features
    ensures var sc := score(features[(p.0, p.1)]);
            Arcs(ps + [p], features, score) == Arcs(rows, features, score) + (r + [Edge(|rows| + |r|, p.0, p.1, sc.0, sc.1)])
  {
    ArcsSnoc(ps, p, features, score);
    var a := Arcs(rows, features, score);
    assert |ps| == |rows| + |r| by {
      assert |Arcs(ps, features, score)| == |ps|;
      assert |a| == |rows|;
    }
    var sc := score(features[(p.0, p.1)]);
    var e := Edge(|ps|, p.0, p.1, sc.0, sc.1);
    assert a + r + [e] == a + (r + [e]);
  }

  /** Unfolds `RowArcs` once at a dependent k other than the head. */
  lemma RowArcsStep(tokens: seq<Token>, features: FeatureMap, score: Scorer, h: nat, k: nat, base: nat)
    requires HasPairs(tokens, features) && h < |tokens| && 1 <= k < |tokens| && k != h
    ensures IsPair(|tokens|, h, k)
    ensures var r := RowArcs(tokens, features, score, h, k, base);
            var sc := score(features[(h, k)]);
            RowArcs(tokens, features, score, h, k + 1, base) == r + [Edge(base + |r|, h, k, sc.0, sc.1)]
  {
  }

  /** The pairs the loops of `predict` have visited before (h, d) all have features. */
  lemma PrefixKeys(tokens: seq<Token>, features: FeatureMap, h: nat, d: nat)
    requires HasPairs(tokens, features) && h < |tokens| && d <= |tokens|
    ensures forall q <- Rows(|tokens|, h) + Row(h, d) :: (q.0, q.1) in features
  {
    RowsSound(|tokens|, h);
    RowSound(h, d);
  }

  /** `Graph(len(s), edges)` (model.py:41) over every candidate pair of the sentence. */
  function PredictGraph(tokens: seq<Token>, features: FeatureMap, score: Scorer): Graph
    requires HasPairs(tokens, features)
  {
    PairsObservable(tokens, features, |tokens|);
    Graph(|tokens|, Arcs(Pairs(|tokens|), features, score))
  }

  /** The graph of `predict` is one the decoder accepts: node indices in range and distinct ids below the number of edges. */
  lemma PredictGraphWellFormed(tokens: seq<Token>, features: FeatureMap, score: Scorer)
    requires HasPairs(tokens, features)
    ensures var g := PredictGraph(tokens, features, score);
            WellFormed(g) && IdsBelow(g.edges, |g.edges|)
  {
    PredictGraphScores(tokens, features, score);
  }

  /** Every edge of the graph of `predict` joins a candidate pair and carries the score of the pair's features. */
  lemma PredictGraphScores(tokens: seq<Token>, features: FeatureMap, score: Scorer)
    requires HasPairs(tokens, features)
    ensures var g := PredictGraph(tokens, features, score);
            && (forall e <- g.edges :: IsPair(|tokens|, e.origin, e.target))
            && (forall e <- g.edges :: (e.origin, e.target) in features && (e.cost, e.relation) == score(features[(e.origin, e.target)]))
  {
    var n := |tokens|;
    var ps := Pairs(n);
    var g := PredictGraph(tokens, features, score);
    RowsSound(n, n);
    forall e <- g.edges ensures IsPair(n, e.origin, e.target) {
      var k :| 0 <= k < |g.edges| && g.edges[k] == e;
      assert ps[k] in ps;
    }
  }

  /**
   * The graph of `predict` has an edge from h to d exactly for the candidate
   * pairs (h, d), and (n - 1)^2 edges for n >= 1 tokens.
   */
  lemma PredictGraphPairs(tokens: seq<Token>, features: FeatureMap, score: Scorer)
    requires HasPairs(tokens, features)
    ensures var g := PredictGraph(tokens, features, score);
            && (forall h, d :: IsPair(|tokens|, h, d) <==> exists e <- g.edges :: e.origin == h && e.target == d)
            && (|tokens| >= 1 ==> |g.edges| == (|tokens| - 1) * (|tokens| - 1))
  {
    var n := |tokens|;
    var ps := Pairs(n);
    var g := PredictGraph(tokens, features, score);
    PairsExact(n);
    PredictGraphWellFormed(tokens, features, score);
    forall h, d | IsPair(n, h, d) ensures exists e <- g.edges :: e.origin == h && e.target == d {
      var p: (nat, nat) := (h, d);
      assert p in ps;
      var k :| 0 <= k < |ps| && ps[k] == p;
      assert g.edges[k] in g.edges;
    }
    if n >= 1 {
      PairsCount(n);
    }
  }

  /** The graph of `predict` joins each candidate pair by one edge only, as the loop visits each pair once. */
  lemma PredictGraphOnePerPair(tokens: seq<Token>, features: FeatureMap, score: Scorer)
    requires HasPairs(tokens, features)
    ensures OnePerPair(PredictGraph(tokens, features, score).edges)
  {
    var ps := Pairs(|tokens|);
    var es := PredictGraph(tokens, features, score).edges;
    PairsExact(|tokens|);
    forall i, j | 0 <= i < j < |es| ensures es[i].origin != es[j].origin || es[i].target != es[j].target {
      assert PairLess(ps[i], ps[j]);
    }
  }

  /** The position of the edge into t that comes from h, among the edges of `predict`. */
  lemma ArcIndex(tokens: seq<Token>, features: FeatureMap, score: Scorer, k: nat, j: nat)
    requires HasPairs(tokens, features)
    requires var es := PredictGraph(tokens, features, score).edges;
             k < |es| && j < |es| && es[j].target == es[k].target && es[j].origin < es[k].origin
    ensures j < k
  {
    PairsExact(|tokens|);
  }

  /** The index, among the edges of `predict`, of the edge `min_edges` chooses for dependent t. */
  lemma ChosenArc(tokens: seq<Token>, features: FeatureMap, score: Scorer, t: int) returns (k: nat)
    requires HasPairs(tokens, features) && 1 <= t < |tokens|
    ensures var g := PredictGraph(tokens, features, score);
            var me := MinEdges(g);
            && me[t - 1].Some? && k < |g.edges| && g.edges[k] == me[t - 1].value && g.edges[k].target == t
            && (forall j :: 0 <= j < |g.edges| && g.edges[j].target == t ==> g.edges[k].cost <= g.edges[j].cost)
            && (forall j :: 0 <= j < k && g.edges[j].target == t ==> g.edges[k].cost < g.edges[j].cost)
  {
    var g := PredictGraph(tokens, features, score);
    PredictGraphPairs(tokens, features, score);
    assert IsPair(|tokens|, 0, t);
    var me := MinEdges(g);
    var e := me[t - 1].value;
    assert IsFirstMinInto(g.edges, t, e);
    k :| 0 <= k < |g.edges| && g.edges[k] == e && e.target == t
      && (forall j :: 0 <= j < |g.edges| && g.edges[j].target == t ==> e.cost <= g.edges[j].cost)
      && (forall j :: 0 <= j < k && g.edges[j].target == t ==> e.cost < g.edges[j].cost);
  }

  /** The edge of `predict` for the candidate pair (h, t), and its position. */
  lemma ArcOf(tokens: seq<Token>, features: FeatureMap, score: Scorer, h: int, t: int) returns (j: nat)
    requires HasPairs(tokens, features) && IsPair(|tokens|, h, t)
    ensures var es := PredictGraph(tokens, features, score).edges;
            && j < |es| && es[j].origin == h && es[j].target == t
            && es[j].cost == score(features[(h, t)]).0
  {
    var ps := Pairs(|tokens|);
    PairsExact(|tokens|);
    var p: (nat, nat) := (h, t);
    assert p in ps;
    j :| 0 <= j < |ps| && ps[j] == p;
  }

  /**
   * The edge `min_edges` chooses for a dependent t of the graph of `predict`:
   * it exists, comes from a candidate head, carries the pair's score, and its
   * cost is the least among the candidate heads of t, and strictly below that
   * of every candidate head before it in the loop order.
   */
  lemma GreedyHead(tokens: seq<Token>, features: FeatureMap, score: Scorer, t: int)
    requires HasPairs(tokens, features) && 1 <= t < |tokens|
    ensures var me := MinEdges(PredictGraph(tokens, features, score));
            && me[t - 1].Some?
            && var e := me[t - 1].value;
            && IsPair(|tokens|, e.origin, t) && e.target == t
            && (e.cost, e.relation) == score(features[(e.origin, t)])
            && (forall h :: IsPair(|tokens|, h, t) ==> e.cost <= score(features[(h, t)]).0)
            && (forall h :: IsPair(|tokens|, h, t) && h < e.origin ==> e.cost < score(features[(h, t)]).0)
  {
    var g := PredictGraph(tokens, features, score);
    var n := |tokens|;
    var k := ChosenArc(tokens, features, score, t);
    PredictGraphScores(tokens, features, score);
    var e := g.edges[k];
    assert e in g.edges;
    forall h | IsPair(n, h, t) ensures e.cost <= score(features[(h, t)]).0 {
      var j := ArcOf(tokens, features, score, h, t);
    }
    forall h | IsPair(n, h, t) && h < e.origin ensures e.cost < score(features[(h, t)]).0 {
      var j := ArcOf(tokens, features, score, h, t);
      ArcIndex(tokens, features, score, k, j);
    }
  }

  /**
   * The tokens after `prediction[e.target].head = e.origin` and
   * `prediction[e.target].relation = e.label` for the edges of tree in order
   * (model.py:42-44).
   */
  function Annotate(tokens: seq<Token>, tree: seq<Edge>): (r: seq<Token>)
    requires forall e <- tree :: 0 <= e.target < |tokens|
    ensures |r| == |tokens|
  {
    if tree == [] then tokens
    else
      var e := tree[|tree| - 1];
      assert e in tree;
      var a := Annotate(tokens, tree[..|tree| - 1]);
      a[e.target := a[e.target].(head := Some(e.origin), relation := e.relation)]
  }

  /** The token after `head = h` and `relation = relation` (model.py:43-44). */
  function Headed(tok: Token, h: int, relation: Label): Token
  {
    tok.(head := Some(h), relation := relation)
  }

  /** The last edge of tree entering node i. */
  function LastInto(tree: seq<Edge>, i: int): (r: Option<Edge>)
    ensures r.Some? ==> r.value in tree && r.value.target == i
    ensures r.None? <==> forall e <- tree :: e.target != i
  {
    if tree == [] then None
    else if tree[|tree| - 1].target == i then Some(tree[|tree| - 1])
    else
      var r := LastInto(tree[..|tree| - 1], i);
      assert tree == tree[..|tree| - 1] + [tree[|tree| - 1]];
      r
  }

  /** Token i of the annotated tokens takes head and relation from the last edge of tree into i, if any. */
  lemma {:induction false} AnnotateEntry(tokens: seq<Token>, tree: seq<Edge>, i: int)
    requires forall e <- tree :: 0 <= e.target < |tokens|
    requires 0 <= i < |tokens|
    ensures Annotate(tokens, tree)[i] == match LastInto(tree, i)
                                         case None => tokens[i]
                                         case Some(e) => tokens[i].(head := Some(e.origin), relation := e.relation)
  {
    if tree != [] {
      var init := tree[..|tree| - 1];
      AnnotateEntry(tokens, init, i);
    }
  }

  /** Annotating with one more edge writes its origin and relation into its target. */
  lemma AnnotateSnoc(tokens: seq<Token>, tree: seq<Edge>, e: Edge)
    requires forall f <- tree :: 0 <= f.target < |tokens|
    requires 0 <= e.target < |tokens|
    ensures forall f <- tree + [e] :: 0 <= f.target < |tokens|
    ensures var a := Annotate(tokens, tree);
            Annotate(tokens, tree + [e]) == a[e.target := a[e.target].(head := Some(e.origin), relation := e.relation)]
  {
    assert (tree + [e])[..|tree|] == tree;
  }

  /** `filter(None, ...)` of a concatenation is the concatenation of the filtered parts. */
  lemma {:induction false} PresentAppend(xs: seq<Option<Edge>>, ys: seq<Option<Edge>>)
    ensures Present(xs + ys) == Present(xs) + Present(ys)
  {
    if xs != [] {
      PresentAppend(xs[1..], ys);
      assert (xs + ys)[1..] == xs[1..] + ys;
    } else {
      assert xs + ys == ys;
    }
  }

  /** The edge list of `predict` grows by one scored edge per candidate pair. */
  lemma ArcsSnoc(ps: seq<(nat, nat)>, p: (nat, nat), features: FeatureMap, score: Scorer)
    requires forall q <- ps :: (q.0, q.1) in features
    requires (p.0, p.1) in features
    ensures forall q <- ps + [p] :: (q.0, q.1) in features
    ensures var sc := score(features[(p.0, p.1)]);
            Arcs(ps + [p], features, score) == Arcs(ps, features, score) + [Edge(|ps|, p.0, p.1, sc.0, sc.1)]
  {
  }

  /** The head a branching gives a non-root token, as a witness. */
  lemma BranchingHead(tokens: seq<Token>, features: FeatureMap, score: Scorer, tree: seq<Edge>, t: int) returns (h: int)
    requires HasPairs(tokens, features) && Branching(PredictGraph(tokens, features, score), tree)
    requires 1 <= t < |tokens|
    ensures IsPair(|tokens|, h, t)
    ensures Annotate(Copied(tokens), tree)[t] == Headed(Unannotated(tokens[t]), h, score(features[(h, t)]).1)
  {
    BranchingToken(tokens, features, score, tree, t);
    var e :| e in tree && e.target == t && IsPair(|tokens|, e.origin, t)
             && Annotate(Copied(tokens), tree)[t] == Headed(Unannotated(tokens[t]), e.origin, score(features[(e.origin, t)]).1);
    h := e.origin;
  }

  /**
   * Annotating the copy with a branching of the graph of `predict`: the root
   * is left as copied, and every other token t takes as head and relation
   * the origin and label of the one edge of the tree into t, which joins a
   * candidate pair (h, t) and carries the label the scorer gives the pair.
   */
  lemma BranchingToken(tokens: seq<Token>, features: FeatureMap, score: Scorer, tree: seq<Edge>, t: int)
    requires HasPairs(tokens, features) && Branching(PredictGraph(tokens, features, score), tree)
    requires 0 <= t < |tokens|
    ensures forall e <- tree :: 0 <= e.target < |Copied(tokens)|
    ensures t == 0 ==> Annotate(Copied(tokens), tree)[t] == Copied(tokens)[t]
    ensures t >= 1 ==> exists e <- tree ::
              && e.target == t && IsPair(|tokens|, e.origin, t) && (forall f <- tree :: f.target == t ==> f == e)
              && Annotate(Copied(tokens), tree)[t] == Headed(Unannotated(tokens[t]), e.origin, score(features[(e.origin, t)]).1)
  {
    PredictGraphScores(tokens, features, score);
    AnnotateEntry(Copied(tokens), tree, t);
    if t >= 1 {
      var e := BranchingInto(tokens, features, score, tree, t);
      assert LastInto(tree, t) == Some(e);
    }
  }

  /** A branching of the graph of `predict` has exactly one edge into every non-root token. */
  lemma BranchingInto(tokens: seq<Token>, features: FeatureMap, score: Scorer, tree: seq<Edge>, t: int) returns (e: Edge)
    requires HasPairs(tokens, features) && Branching(PredictGraph(tokens, features, score), tree)
    requires 1 <= t < |tokens|
    ensures e in tree && e.target == t && IsPair(|tokens|, e.origin, t)
    ensures forall f <- tree :: f.target == t ==> f == e
  {
    var g := PredictGraph(tokens, features, score);
    PredictGraphPairs(tokens, features, score);
    assert IsPair(|tokens|, 0, t);
    assert Enters(g.edges, t);
    e := LastInto(tree, t).value;
    assert IsPair(|tokens|, e.origin, t) by { PredictGraphScores(tokens, features, score); }
    OnlyInto(tree, e);
  }

  /** With distinct targets, an edge of es is the only one entering its target. */
  lemma OnlyInto(es: seq<Edge>, e: Edge)
    requires DistinctTargets(es) && e in es
    ensures forall f <- es :: f.target == e.target ==> f == e
  {
    forall f <- es | f.target == e.target ensures f == e {
      var i :| 0 <= i < |es| && es[i] == f;
      var j :| 0 <= j < |es| && es[j] == e;
      assert !(i < j || j < i);
    }
  }


  /**
   * When the decoder returns the entries of `min_edges` as they are, every
   * dependent t takes its head and relation from its chosen edge and the
   * root is left as it was.
   */
  lemma AnnotateChosen(tokens: seq<Token>, me: seq<Option<Edge>>, t: int)
    requires |tokens| == |me| + 1 && Indexed(me, |tokens|)
    requires forall k :: 0 <= k < |me| ==> me[k].Some?
    requires 0 <= t < |tokens|
    ensures forall e <- Present(me) :: 0 <= e.target < |tokens|
    ensures t == 0 ==> Annotate(tokens, Present(me))[t] == tokens[t]
    ensures t >= 1 ==> Annotate(tokens, Present(me))[t]
                       == tokens[t].(head := Some(me[t - 1].value.origin), relation := me[t - 1].value.relation)
  {
    var tree := Present(me);
    forall e <- tree ensures 0 <= e.target < |tokens| {
      var k :| 0 <= k < |me| && me[k] == Some(e);
    }
    AnnotateEntry(tokens, tree, t);
    if t >= 1 {
      var e := me[t - 1].value;
      assert e in tree;
      var l := LastInto(tree, t).value;
      var k :| 0 <= k < |me| && me[k] == Some(l);
    }
  }

  /** Every node but the root has a chosen incoming edge in the graph of `predict`. */
  lemma ChosenEverywhere(tokens: seq<Token>, features: FeatureMap, score: Scorer)
    requires HasPairs(tokens, features)
    ensures var g := PredictGraph(tokens, features, score);
            && Indexed(MinEdges(g), g.length)
            && forall k :: 0 <= k < |MinEdges(g)| ==> MinEdges(g)[k].Some?
  {
    var g := PredictGraph(tokens, features, score);
    PredictGraphWellFormed(tokens, features, score);
    PredictGraphPairs(tokens, features, score);
    MinEdgesIndexed(g);
    forall k | 0 <= k < |MinEdges(g)| ensures MinEdges(g)[k].Some? {
      assert IsPair(|tokens|, 0, k + 1);
    }
  }

  /**
   * What the decoder returns for the graph of `predict` is a list of edges of
   * the graph, with no missing entry, each entering a non-root token.
   */
  lemma DecodedTree(tokens: seq<Token>, features: FeatureMap, score: Scorer, r: seq<Option<Edge>>)
    requires HasPairs(tokens, features)
    requires var g := PredictGraph(tokens, features, score);
             && (forall k :: 0 <= k < |r| && r[k].Some? ==> r[k].value in g.edges)
             && (r == MinEdges(g) || forall k :: 0 <= k < |r| ==> r[k].Some?)
    ensures forall k :: 0 <= k < |r| ==> r[k].Some? && 1 <= r[k].value.target < |tokens|
    ensures forall e <- Present(r) :: e in PredictGraph(tokens, features, score).edges && 0 <= e.target < |Copied(tokens)|
  {
    var g := PredictGraph(tokens, features, score);
    PredictGraphWellFormed(tokens, features, score);
    ChosenEverywhere(tokens, features, score);
    forall k | 0 <= k < |r| ensures r[k].Some? && 1 <= r[k].value.target < |tokens| {
      assert r[k].value in g.edges;
    }
  }

  /**
   * The prediction made from the chosen edges as they are: every non-root
   * token of the copy takes the origin of its chosen edge as head and the
   * edge's label as relation; the root is left as copied.
   */
  lemma ChosenPrediction(tokens: seq<Token>, features: FeatureMap, score: Scorer, t: int)
    requires HasPairs(tokens, features) && 0 <= t < |tokens|
    ensures var me := MinEdges(PredictGraph(tokens, features, score));
            && (forall e <- Present(me) :: 0 <= e.target < |Copied(tokens)|)
            && (t == 0 ==> Annotate(Copied(tokens), Present(me))[t] == Copied(tokens)[t])
            && (t >= 1 ==> me[t - 1].Some?
                           && Annotate(Copied(tokens), Present(me))[t]
                              == Unannotated(tokens[t]).(head := Some(me[t - 1].value.origin), relation := me[t - 1].value.relation))
  {
    ChosenEverywhere(tokens, features, score);
    var me := MinEdges(PredictGraph(tokens, features, score));
    AnnotateChosen(Copied(tokens), me, t);
  }
}

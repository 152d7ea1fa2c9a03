/**
 * `Model` (model.py): the two weight tables filled by training, the ratio of
 * their totals, prediction of a dependency tree for a sentence with the
 * decoder, and evaluation of the predictions against a gold corpus.
 */
module ParserModel {
  import opened Wrappers
  import opened Graphs
  import opened Corpus
  import opened Tables
  import opened CycleSearch
  import opened Decoder
  import opened Training
  import opened Prediction
  import opened Evaluation

  /** The feature maps of the sentences of a corpus. */
  function FeatureMaps(corpus: seq<Sentence>): (r: seq<FeatureMap>)
    reads set s <- corpus
    ensures |r| == |corpus| && forall k :: 0 <= k < |corpus| ==> r[k] == corpus[k].features
  {
    if corpus == [] then [] else FeatureMaps(corpus[..|corpus| - 1]) + [corpus[|corpus| - 1].features]
  }

  /** Every sentence of the corpus has features for all of its candidate pairs. */
  ghost predicate Prepared(corpus: seq<Sentence>)
    reads set s <- corpus
  {
    forall k :: 0 <= k < |corpus| ==> HasPairs(corpus[k].tokens, corpus[k].features)
  }

  /**
   * pred is what `predict` makes of a sentence: its unannotated copy,
   * annotated by a branching of the graph over its candidate pairs, which is
   * the chosen incoming edges themselves when those close no cycle.
   */
  ghost predicate Predicted(tokens: seq<Token>, features: FeatureMap, score: Scorer, pred: seq<Token>)
    requires HasPairs(tokens, features)
  {
    exists tree: seq<Edge> :: PredictedBy(tokens, features, score, pred, tree)
  }

  /** pred is the copy of tokens annotated by tree, a decoding of the graph of `predict`. */
  ghost predicate PredictedBy(tokens: seq<Token>, features: FeatureMap, score: Scorer, pred: seq<Token>, tree: seq<Edge>)
    requires HasPairs(tokens, features)
  {
    && (forall e <- tree :: 0 <= e.target < |Copied(tokens)|)
    && Decodes(PredictGraph(tokens, features, score), tree)
    && pred == Annotate(Copied(tokens), tree)
  }

  /** tree is what the decoder makes of g: a branching, and the chosen edges themselves when no chain of them returns. */
  ghost predicate Decodes(g: Graph, tree: seq<Edge>)
  {
    && Branching(g, tree)
    && ((forall m :: 1 <= m < g.length ==> !Returns(MinEdges(g), m)) ==> tree == Present(MinEdges(g)))
  }

  /** tok is token t, unannotated, then given a head h of a candidate pair (h, t) and the label the scorer gives that pair. */
  ghost predicate PairHeaded(tokens: seq<Token>, features: FeatureMap, score: Scorer, tok: Token, t: int)
    requires HasPairs(tokens, features) && 0 <= t < |tokens|
  {
    exists h :: IsPair(|tokens|, h, t) && tok == Headed(Unannotated(tokens[t]), h, score(features[(h, t)]).1)
  }

  /** What a prediction holds: the root as copied, and every other token headed by a candidate pair. */
  lemma PredictedHeads(tokens: seq<Token>, features: FeatureMap, score: Scorer, pred: seq<Token>)
    requires HasPairs(tokens, features) && Predicted(tokens, features, score, pred)
    ensures |pred| == |Copied(tokens)|
    ensures |tokens| >= 1 ==> pred[0] == Copied(tokens)[0]
    ensures forall t :: 1 <= t < |tokens| ==> PairHeaded(tokens, features, score, pred[t], t)
  {
    var tree: seq<Edge> :| PredictedBy(tokens, features, score, pred, tree);
    assert pred == Annotate(Copied(tokens), tree);
    if |tokens| >= 1 {
      BranchingToken(tokens, features, score, tree, 0);
      assert pred[0] == Copied(tokens)[0];
    }
    forall t | 1 <= t < |tokens|
      ensures PairHeaded(tokens, features, score, pred[t], t)
    {
      var h := BranchingHead(tokens, features, score, tree, t);
      assert IsPair(|tokens|, h, t) && pred[t] == Headed(Unannotated(tokens[t]), h, score(features[(h, t)]).1);
    }
  }

  /** preds[k] is what `predict` makes of the k-th sentence, for every k. */
  ghost predicate AllPredicted(golds: seq<seq<Token>>, maps: seq<FeatureMap>, score: Scorer, preds: seq<seq<Token>>)
  {
    && |golds| == |maps| == |preds|
    && forall k :: 0 <= k < |golds| ==> HasPairs(golds[k], maps[k]) && Predicted(golds[k], maps[k], score, preds[k])
  }

  /** Adding one predicted sentence. */
  lemma AllPredictedSnoc(golds: seq<seq<Token>>, maps: seq<FeatureMap>, score: Scorer, preds: seq<seq<Token>>,
                         gold: seq<Token>, features: FeatureMap, pred: seq<Token>)
    requires AllPredicted(golds, maps, score, preds)
    requires HasPairs(gold, features) && Predicted(gold, features, score, pred)
    ensures AllPredicted(golds + [gold], maps + [features], score, preds + [pred])
  {
    var golds', maps', preds' := golds + [gold], maps + [features], preds + [pred];
    forall k | 0 <= k < |golds'| ensures HasPairs(golds'[k], maps'[k]) && Predicted(golds'[k], maps'[k], score, preds'[k]) {
      if k < |golds| {
        assert golds'[k] == golds[k] && maps'[k] == maps[k] && preds'[k] == preds[k];
      }
    }
  }

  /**
   * The counters of `test` (model.py:49-53) after the sentences golds, with
   * feature maps maps, have been predicted as preds.
   */
  ghost predicate Tallied(golds: seq<seq<Token>>, maps: seq<FeatureMap>, score: Scorer, preds: seq<seq<Token>>,
                          tokUnlabeled: nat, tokLabeled: nat, tokTotal: nat, sentUnlabeled: nat, sentLabeled: nat)
  {
    && Aligned(golds, preds) && AllPredicted(golds, maps, score, preds)
    && tokUnlabeled == UnlabeledTotal(golds, preds) && tokLabeled == LabeledTotal(golds, preds)
    && tokTotal == TokenTotal(golds)
    && sentUnlabeled == SentencesUnlabeled(golds, preds) && sentLabeled == SentencesLabeled(golds, preds)
  }

  /** Predicting one more sentence adds its counts to the counters of `test` (model.py:60-70). */
  lemma TalliedSnoc(golds: seq<seq<Token>>, maps: seq<FeatureMap>, score: Scorer, preds: seq<seq<Token>>,
                    tokUnlabeled: nat, tokLabeled: nat, tokTotal: nat, sentUnlabeled: nat, sentLabeled: nat,
                    gold: seq<Token>, features: FeatureMap, pred: seq<Token>)
    requires Tallied(golds, maps, score, preds, tokUnlabeled, tokLabeled, tokTotal, sentUnlabeled, sentLabeled)
    requires HasPairs(gold, features) && |gold| <= |pred| && Predicted(gold, features, score, pred)
    ensures Tallied(golds + [gold], maps + [features], score, preds + [pred],
                    tokUnlabeled + UnlabeledUpTo(gold, pred, |gold|), tokLabeled + LabeledUpTo(gold, pred, |gold|),
                    tokTotal + Scored(|gold|),
                    sentUnlabeled + (if CompleteUnlabeled(gold, pred) then 1 else 0),
                    sentLabeled + (if CompleteLabeled(gold, pred) then 1 else 0))
  {
    TotalsSnoc(golds, preds, gold, pred);
    AllPredictedSnoc(golds, maps, score, preds, gold, features, pred);
  }

  /** Appending one element after a concatenation. */
  lemma AppendAssoc<T>(xs: seq<T>, ys: seq<T>, x: T)
    ensures xs + (ys + [x]) == xs + ys + [x]
  {
  }

  /** A prefix one longer is the prefix and the next element. */
  lemma TakeNext<T>(xs: seq<T>, k: nat)
    requires k < |xs|
    ensures xs[..k + 1] == xs[..k] + [xs[k]]
  {
  }

  class Model {
    var weightsPos: WeightTable
    var weightsNeg: WeightTable
    /** `ratio`, the negative total over the positive total. */
    var ratio: Fraction

    /** `Model()` (model.py:6-9): empty tables and a ratio of 1. */
    constructor ()
      ensures weightsPos == map[] && weightsNeg == map[] && ratio == Fraction(1, 1)
    {
      weightsPos := map[];
      weightsNeg := map[];
      ratio := Fraction(1, 1);
    }

    /** The two tables as one value. */
    function Learned(): Weights
      reads this
    {
      Weights(weightsPos, weightsNeg)
    }

    /** `_train_(s, h, d)` (model.py:19-24): count the features of the pair in the table its gold-ness selects. */
    method TrainPair(s: Sentence, h: nat, d: nat)
      requires d < |s.tokens| && (h, d) in s.features
      modifies this
      ensures Learned() == Observe(old(Learned()), s.tokens, s.features, h, d)
      ensures ratio == old(ratio)
    {
      var fs := s.features[(h, d)];
      ghost var w := Learned();
      for i := 0 to |fs|
        invariant ratio == old(ratio)
        invariant Gold(s.tokens, h, d) ==> Learned() == w.(pos := BumpAll(w.pos, fs[..i], s.tokens[d].relation))
        invariant !Gold(s.tokens, h, d) ==> Learned() == w.(neg := BumpAll(w.neg, fs[..i], s.tokens[d].relation))
      {
        var t := s.At(d);
        assert fs[..i + 1][..i] == fs[..i];
        if t.head == Some(h) {
          weightsPos := Bump(weightsPos, fs[i], t.relation);
        } else {
          weightsNeg := Bump(weightsNeg, fs[i], t.relation);
        }
      }
      assert fs[..|fs|] == fs;
    }

    /** The loops of `train` over the candidate pairs of one sentence (model.py:13-16). */
    method TrainSentence(s: Sentence)
      requires HasPairs(s.tokens, s.features)
      modifies this
      ensures Learned() == ObserveSentence(old(Learned()), s.tokens, s.features)
      ensures ratio == old(ratio)
    {
      var n := s.Length();
      ghost var start := Learned();
      for h := 0 to n
        invariant Observable(s.tokens, s.features, Rows(n, h))
        invariant Learned() == ObserveAll(start, s.tokens, s.features, Rows(n, h))
        invariant ratio == old(ratio)
      {
        ghost var rowStart := Learned();
        for d := 1 to n
          invariant Observable(s.tokens, s.features, Row(h, d))
          invariant Learned() == ObserveAll(rowStart, s.tokens, s.features, Row(h, d))
          invariant ratio == old(ratio)
        {
          RowObservable(s.tokens, s.features, h, d + 1);
          ObserveRowStep(rowStart, s.tokens, s.features, h, d);
          if h != d {
            TrainPair(s, h, d);
          }
        }
        ObserveAllAppend(start, s.tokens, s.features, Rows(n, h), Row(h, n));
        PairsObservable(s.tokens, s.features, h + 1);
      }
    }

    /**
     * `train` (model.py:11-17): count every candidate pair of every sentence,
     * then set the ratio to the negative total over the positive total. A zero
     * positive total is Python's division by zero: the tables keep the counts
     * and the ratio is not changed.
     */
    method Train(corpus: seq<Sentence>) returns (status: Result<()>)
      requires Prepared(corpus)
      modifies this
      ensures Learned() == ObserveCorpus(old(Learned()), corpus)
      ensures status.Err? <==> Total(weightsPos) == 0
      ensures status.Err? ==> status.error == ZeroDivision && ratio == old(ratio)
      ensures status.Ok? ==> ratio == Fraction(Total(weightsNeg), Total(weightsPos))
    {
      for i := 0 to |corpus|
        invariant Learned() == ObserveCorpus(old(Learned()), corpus[..i])
        invariant ratio == old(ratio)
      {
        TrainSentence(corpus[i]);
        assert corpus[..i + 1][..i] == corpus[..i];
      }
      assert corpus[..|corpus|] == corpus;
      var negTotal := TableTotal(weightsNeg);
      var posTotal := TableTotal(weightsPos);
      if posTotal == 0 {
        return Err(ZeroDivision);
      }
      ratio := Fraction(negTotal, posTotal);
      return Ok(());
    }

    /**
     * The edge list of `predict` (model.py:28-40): one edge per candidate
     * pair, in loop order, with the pair's score; its position is its id.
     */
    method ScoreEdges(s: Sentence, score: Scorer) returns (edges: seq<Edge>)
      requires HasPairs(s.tokens, s.features)
      ensures PredictGraph(s.tokens, s.features, score) == Graph(|s.tokens|, edges)
    {
      var n := s.Length();
      edges := [];
      ghost var tokens, features := s.tokens, s.features;
      for h := 0 to n
        invariant Observable(tokens, features, Rows(n, h))
        invariant edges == Arcs(Rows(n, h), features, score)
      {
        edges := ScoreRow(s, score, h, edges);
        RowArcsPrefix(tokens, features, score, h, n);
        assert Rows(n, h + 1) == Rows(n, h) + Row(h, n);
        PairsObservable(tokens, features, h + 1);
      }
    }

    /**
     * The inner loop of `predict` over the dependents of head h
     * (model.py:30-40): the edges of row h are appended, numbered on from
     * the edges already listed.
     */
    method ScoreRow(s: Sentence, score: Scorer, h: nat, edges: seq<Edge>) returns (edges': seq<Edge>)
      requires HasPairs(s.tokens, s.features) && h < |s.tokens|
      ensures edges' == edges + RowArcs(s.tokens, s.features, score, h, |s.tokens|, |edges|)
    {
      var n := s.Length();
      edges' := edges;
      ghost var tokens, features := s.tokens, s.features;
      for d := 1 to n
        invariant edges' == edges + RowArcs(tokens, features, score, h, d, |edges|)
      {
        if h != d {
          assert IsPair(n, h, d);
          var sc := score(s.features[(h, d)]);
          ghost var r := RowArcs(tokens, features, score, h, d, |edges|);
          AppendAssoc(edges, r, Edge(|edges'|, h, d, sc.0, sc.1));
          edges' := edges' + [Edge(|edges'|, h, d, sc.0, sc.1)];
        }
      }
    }

    /**
     * `predict` (model.py:26-45): decode the graph of scored candidate pairs
     * and annotate an unannotated copy of the sentence with the edges of the
     * tree, in order. Every entry of the decoder's result is an edge, and when
     * the chosen incoming edges close no cycle the tree is exactly those edges.
     */
    method Predict(s: Sentence, score: Scorer) returns (prediction: Sentence, ghost tree: seq<Edge>)
      requires HasPairs(s.tokens, s.features)
      ensures fresh(prediction) && prediction.features == map[]
      ensures forall e <- tree :: e in PredictGraph(s.tokens, s.features, score).edges && 0 <= e.target < |Copied(s.tokens)|
      ensures prediction.tokens == Annotate(Copied(s.tokens), tree)
      ensures Branching(PredictGraph(s.tokens, s.features, score), tree)
      ensures var g := PredictGraph(s.tokens, s.features, score);
              (forall m :: 1 <= m < g.length ==> !Returns(MinEdges(g), m)) ==> tree == Present(MinEdges(g))
    {
      prediction := new Sentence(s);
      var edges := ScoreEdges(s, score);
      PredictGraphWellFormed(s.tokens, s.features, score);
      PredictGraphOnePerPair(s.tokens, s.features, score);
      var r := Cle(Graph(s.Length(), edges), |edges|);
      DecodedTree(s.tokens, s.features, score, r);
      tree := WriteTree(prediction, r);
    }

    /** The loop of `predict` that writes each edge of the tree into the copy (model.py:42-44). */
    method WriteTree(prediction: Sentence, r: seq<Option<Edge>>) returns (ghost tree: seq<Edge>)
      requires forall k :: 0 <= k < |r| ==> r[k].Some? && 0 <= r[k].value.target < |prediction.tokens|
      modifies prediction
      ensures tree == Present(r)
      ensures forall e <- tree :: 0 <= e.target < |old(prediction.tokens)|
      ensures prediction.tokens == Annotate(old(prediction.tokens), tree)
      ensures prediction.features == old(prediction.features)
    {
      tree := [];
      ghost var tokens := prediction.tokens;
      for i := 0 to |r|
        invariant |tree| == i && forall k :: 0 <= k < i ==> tree[k] == r[k].value
        invariant forall e <- tree :: 0 <= e.target < |tokens|
        invariant prediction.tokens == Annotate(tokens, tree)
        invariant prediction.features == old(prediction.features)
      {
        var e := r[i].value;
        AnnotateSnoc(tokens, tree, e);
        prediction.tokens := prediction.tokens[e.target := prediction.tokens[e.target].(head := Some(e.origin), relation := e.relation)];
        tree := tree + [e];
      }
      PresentValues(r);
    }

    /**
     * The scoring loop of `test` over one sentence (model.py:55-68): how
     * many scored tokens have the gold head, the gold head and relation, how
     * many tokens are scored, and whether some head or some label is wrong.
     */
    method TestSentence(gold: seq<Token>, pred: seq<Token>)
      returns (unlabeled: nat, labeled: nat, scored: nat, incorrectHead: bool, incorrectLabel: bool)
      requires |gold| <= |pred|
      ensures unlabeled == UnlabeledUpTo(gold, pred, |gold|) && labeled == LabeledUpTo(gold, pred, |gold|)
      ensures scored == Scored(|gold|)
      ensures incorrectHead <==> !CompleteUnlabeled(gold, pred)
      ensures incorrectLabel <==> !CompleteLabeled(gold, pred)
    {
      unlabeled, labeled, scored := 0, 0, 0;
      incorrectHead, incorrectLabel := false, false;
      if |gold| == 0 {
        return;
      }
      for i := 1 to |gold|
        invariant unlabeled == UnlabeledUpTo(gold, pred, i) && labeled == LabeledUpTo(gold, pred, i)
        invariant scored == i - 1
        invariant incorrectHead <==> exists j :: 1 <= j < i && !HeadRight(gold, pred, j)
        invariant incorrectLabel <==> exists j :: 1 <= j < i && !LabelRight(gold, pred, j)
      {
        if pred[i].head == gold[i].head {
          unlabeled := unlabeled + 1;
          if pred[i].relation == gold[i].relation {
            labeled := labeled + 1;
          } else {
            incorrectLabel := true;
          }
        } else {
          incorrectHead := true;
          incorrectLabel := true;
        }
        scored := scored + 1;
      }
    }

    /**
     * One pass of the loop of `test` (model.py:55-68): predict the sentence
     * and score the prediction against it.
     */
    method TestOne(s: Sentence, score: Scorer)
      returns (unlabeled: nat, labeled: nat, scored: nat, incorrectHead: bool, incorrectLabel: bool, ghost pred: seq<Token>)
      requires HasPairs(s.tokens, s.features)
      ensures |s.tokens| <= |pred| && Predicted(s.tokens, s.features, score, pred)
      ensures unlabeled == UnlabeledUpTo(s.tokens, pred, |s.tokens|) && labeled == LabeledUpTo(s.tokens, pred, |s.tokens|)
      ensures scored == Scored(|s.tokens|)
      ensures incorrectHead <==> !CompleteUnlabeled(s.tokens, pred)
      ensures incorrectLabel <==> !CompleteLabeled(s.tokens, pred)
    {
      var prediction;
      ghost var tree;
      prediction, tree := Predict(s, score);
      assert PredictedBy(s.tokens, s.features, score, prediction.tokens, tree);
      unlabeled, labeled, scored, incorrectHead, incorrectLabel := TestSentence(s.tokens, prediction.tokens);
      pred := prediction.tokens;
    }

    /**
     * One pass of the loop of `test` (model.py:55-70): predict sentence s and
     * add its counts to the running totals over the sentences before it.
     */
    method TestStep(s: Sentence, score: Scorer, ghost golds: seq<seq<Token>>, ghost maps: seq<FeatureMap>,
                    ghost preds: seq<seq<Token>>, tokUnlabeled: nat, tokLabeled: nat, tokTotal: nat,
                    sentUnlabeled: nat, sentLabeled: nat)
      returns (tokUnlabeled': nat, tokLabeled': nat, tokTotal': nat, sentUnlabeled': nat, sentLabeled': nat,
               ghost preds': seq<seq<Token>>)
      requires HasPairs(s.tokens, s.features)
      requires Tallied(golds, maps, score, preds, tokUnlabeled, tokLabeled, tokTotal, sentUnlabeled, sentLabeled)
      ensures Tallied(golds + [s.tokens], maps + [s.features], score, preds',
                      tokUnlabeled', tokLabeled', tokTotal', sentUnlabeled', sentLabeled')
    {
      var unlabeled, labeled, scored, incorrectHead, incorrectLabel;
      ghost var pred;
      unlabeled, labeled, scored, incorrectHead, incorrectLabel, pred := TestOne(s, score);
      tokUnlabeled' := tokUnlabeled + unlabeled;
      tokLabeled' := tokLabeled + labeled;
      tokTotal' := tokTotal + scored;
      sentUnlabeled' := sentUnlabeled + (if incorrectHead then 0 else 1);
      sentLabeled' := sentLabeled + (if incorrectLabel then 0 else 1);
      TalliedSnoc(golds, maps, score, preds, tokUnlabeled, tokLabeled, tokTotal, sentUnlabeled, sentLabeled,
                  s.tokens, s.features, pred);
      preds' := preds + [pred];
    }

    /**
     * `test` (model.py:47-74): predict every sentence and report UAS, LAS,
     * UCM and LCM over the corpus; no scored token at all is Python's division
     * by zero.
     */
    method Test(corpus: seq<Sentence>, score: Scorer) returns (r: Result<Scores>, ghost predictions: seq<seq<Token>>)
      requires Prepared(corpus)
      ensures Aligned(Golds(corpus), predictions)
      ensures AllPredicted(Golds(corpus), FeatureMaps(corpus), score, predictions)
      ensures r == Report(Golds(corpus), predictions)
    {
      var tokUnlabeled, tokLabeled, tokTotal := 0, 0, 0;
      var sentUnlabeled, sentLabeled := 0, 0;
      var sentTotal := |corpus|;
      ghost var golds := Golds(corpus);
      ghost var maps := FeatureMaps(corpus);
      predictions := [];
      for k := 0 to |corpus|
        invariant Tallied(golds[..k], maps[..k], score, predictions, tokUnlabeled, tokLabeled, tokTotal, sentUnlabeled, sentLabeled)
      {
        var s := corpus[k];
        assert golds[k] == s.tokens && maps[k] == s.features && HasPairs(s.tokens, s.features);
        TakeNext(golds, k);
        TakeNext(maps, k);
        tokUnlabeled, tokLabeled, tokTotal, sentUnlabeled, sentLabeled, predictions :=
          TestStep(s, score, golds[..k], maps[..k], predictions, tokUnlabeled, tokLabeled, tokTotal, sentUnlabeled, sentLabeled);
      }
      assert golds[..|corpus|] == golds && maps[..|corpus|] == maps;
      if tokTotal == 0 {
        return Err(ZeroDivision), predictions;
      }
      r := Ok(Scores(Fraction(tokUnlabeled, tokTotal), Fraction(tokLabeled, tokTotal),
                     Fraction(sentUnlabeled, sentTotal), Fraction(sentLabeled, sentTotal)));
    }
  }
}

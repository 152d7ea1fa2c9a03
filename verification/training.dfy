/**
 * What training does to the two weight tables (model.py:11-24): for every
 * candidate pair (h, d) of every sentence, each feature id of the pair is
 * counted once, with the relation of the dependent d, in the positive table
 * when the gold annotation attaches d to h and in the negative table
 * otherwise.
 */
module Training {
  import opened Wrappers
  import opened Graphs
  import opened Corpus
  import opened Tables

  /** `weights_pos` and `weights_neg` (model.py:7-8). */
  datatype Weights = Weights(pos: WeightTable, neg: WeightTable)

  /** The feature ids of every (head, dependent) pair of a sentence. */
  type FeatureMap = map<(int, int), seq<int>>

  /** Every pair of ps has a dependent inside the sentence and an entry in the feature map. */
  predicate Observable(tokens: seq<Token>, features: FeatureMap, ps: seq<(nat, nat)>)
  {
    forall p <- ps :: p.1 < |tokens| && (p.0, p.1) in features
  }

  /** The gold annotation attaches dependent d to head h (`s[d].head == h`, model.py:21). */
  predicate Gold(tokens: seq<Token>, h: int, d: nat)
    requires d < |tokens|
  {
    tokens[d].head == Some(h)
  }

  /** `_train_(s, h, d)` (model.py:19-24): every feature id of the pair, with the relation of d. */
  function Observe(w: Weights, tokens: seq<Token>, features: FeatureMap, h: nat, d: nat): Weights
    requires d < |tokens| && (h, d) in features
  {
    var fs := features[(h, d)];
    var l := tokens[d].relation;
    if Gold(tokens, h, d) then w.(pos := BumpAll(w.pos, fs, l)) else w.(neg := BumpAll(w.neg, fs, l))
  }

  /** `_train_` on every pair of ps, in order. */
  function ObserveAll(w: Weights, tokens: seq<Token>, features: FeatureMap, ps: seq<(nat, nat)>): Weights
    requires Observable(tokens, features, ps)
  {
    if ps == [] then w
    else
      var p := ps[|ps| - 1];
      assert p in ps;
      Observe(ObserveAll(w, tokens, features, ps[..|ps| - 1]), tokens, features, p.0, p.1)
  }

  /** The candidate pairs of a sentence whose feature map covers them can all be observed. */
  lemma PairsObservable(tokens: seq<Token>, features: FeatureMap, h: nat)
    requires HasPairs(tokens, features) && h <= |tokens|
    ensures Observable(tokens, features, Rows(|tokens|, h))
  {
    RowsSound(|tokens|, h);
  }

  /** The pairs of one row of the loops can all be observed. */
  lemma RowObservable(tokens: seq<Token>, features: FeatureMap, h: nat, d: nat)
    requires HasPairs(tokens, features) && h < |tokens| && d <= |tokens|
    ensures Observable(tokens, features, Row(h, d))
  {
    RowSound(h, d);
  }

  /** One step of the inner loop of `train`: the pair (h, d) is observed unless h == d. */
  lemma ObserveRowStep(w: Weights, tokens: seq<Token>, features: FeatureMap, h: nat, d: nat)
    requires d >= 1 && Observable(tokens, features, Row(h, d + 1))
    ensures Observable(tokens, features, Row(h, d))
    ensures h != d ==> d < |tokens| && (h, d) in features
    ensures h != d ==> ObserveAll(w, tokens, features, Row(h, d + 1))
                       == Observe(ObserveAll(w, tokens, features, Row(h, d)), tokens, features, h, d)
    ensures h == d ==> ObserveAll(w, tokens, features, Row(h, d + 1)) == ObserveAll(w, tokens, features, Row(h, d))
  {
    var row := Row(h, d + 1);
    if h != d {
      assert row == Row(h, d) + [(h, d)];
      assert row[|row| - 1] == (h, d);
      assert row[..|row| - 1] == Row(h, d);
    } else {
      assert row == Row(h, d) + [];
      assert row == Row(h, d);
    }
  }

  /** The loops of `train` over one sentence (model.py:13-16). */
  function ObserveSentence(w: Weights, tokens: seq<Token>, features: FeatureMap): Weights
    requires HasPairs(tokens, features)
  {
    PairsObservable(tokens, features, |tokens|);
    ObserveAll(w, tokens, features, Pairs(|tokens|))
  }

  /** The loops of `train` over a corpus (model.py:12-16). */
  function ObserveCorpus(w: Weights, corpus: seq<Sentence>): Weights
    reads set s <- corpus
    requires forall k :: 0 <= k < |corpus| ==> HasPairs(corpus[k].tokens, corpus[k].features)
  {
    if corpus == [] then w
    else
      var s := corpus[|corpus| - 1];
      ObserveSentence(ObserveCorpus(w, corpus[..|corpus| - 1]), s.tokens, s.features)
  }

  /** Observing ps and then qs is observing ps + qs. */
  lemma {:induction false} ObserveAllAppend(w: Weights, tokens: seq<Token>, features: FeatureMap,
                                            ps: seq<(nat, nat)>, qs: seq<(nat, nat)>)
    requires Observable(tokens, features, ps) && Observable(tokens, features, qs)
    ensures Observable(tokens, features, ps + qs)
    ensures ObserveAll(w, tokens, features, ps + qs) == ObserveAll(ObserveAll(w, tokens, features, ps), tokens, features, qs)
  {
    if qs == [] {
      assert ps + qs == ps;
    } else {
      var init := qs[..|qs| - 1];
      ObserveAllAppend(w, tokens, features, ps, init);
      assert (ps + qs)[..|ps + qs| - 1] == ps + init;
    }
  }

  /**
   * How often feature f occurs among the feature ids of those pairs of ps
   * whose gold-ness is `gold` and whose dependent has relation l.
   */
  function Occurrences(tokens: seq<Token>, features: FeatureMap, ps: seq<(nat, nat)>, gold: bool, f: int, l: Label): nat
    requires Observable(tokens, features, ps)
  {
    if ps == [] then 0
    else
      var p := ps[|ps| - 1];
      assert p in ps;
      Occurrences(tokens, features, ps[..|ps| - 1], gold, f, l)
      + (if Gold(tokens, p.0, p.1) == gold && tokens[p.1].relation == l then multiset(features[(p.0, p.1)])[f] else 0)
  }

  /** The number of feature ids of the pairs of ps. */
  function FeatureCount(features: FeatureMap, ps: seq<(nat, nat)>): nat
    requires forall p <- ps :: (p.0, p.1) in features
  {
    if ps == [] then 0
    else
      var p := ps[|ps| - 1];
      assert p in ps;
      FeatureCount(features, ps[..|ps| - 1]) + |features[(p.0, p.1)]|
  }

  /**
   * One call of `_train_` adds, for each feature and label, the occurrences of
   * the feature in the pair to the table the pair's gold-ness selects, when the
   * label is the dependent's relation, and leaves every other count alone.
   */
  lemma ObserveCounts(w: Weights, tokens: seq<Token>, features: FeatureMap, h: nat, d: nat, f: int, l: Label)
    requires d < |tokens| && (h, d) in features
    ensures var r := Observe(w, tokens, features, h, d);
            var n := if tokens[d].relation == l then multiset(features[(h, d)])[f] else 0;
            && Count(r.pos, f, l) == Count(w.pos, f, l) + (if Gold(tokens, h, d) then n else 0)
            && Count(r.neg, f, l) == Count(w.neg, f, l) + (if Gold(tokens, h, d) then 0 else n)
  {
    var fs := features[(h, d)];
    BumpAllCount(w.pos, fs, tokens[d].relation, f, l);
    BumpAllCount(w.neg, fs, tokens[d].relation, f, l);
  }

  /**
   * After training on the pairs ps, the positive count of (f, l) has grown by
   * the occurrences of f in gold pairs whose dependent has relation l, and the
   * negative count by those in the other pairs.
   */
  lemma {:induction false} ObserveAllCounts(w: Weights, tokens: seq<Token>, features: FeatureMap,
                                            ps: seq<(nat, nat)>, f: int, l: Label)
    requires Observable(tokens, features, ps)
    ensures Count(ObserveAll(w, tokens, features, ps).pos, f, l)
            == Count(w.pos, f, l) + Occurrences(tokens, features, ps, true, f, l)
    ensures Count(ObserveAll(w, tokens, features, ps).neg, f, l)
            == Count(w.neg, f, l) + Occurrences(tokens, features, ps, false, f, l)
  {
    if ps != [] {
      var init := ps[..|ps| - 1];
      var p := ps[|ps| - 1];
      assert p in ps;
      ObserveAllCounts(w, tokens, features, init, f, l);
      ObserveCounts(ObserveAll(w, tokens, features, init), tokens, features, p.0, p.1, f, l);
    }
  }

  /** Training on the pairs ps adds their number of feature ids to the two totals together. */
  lemma {:induction false} ObserveAllTotal(w: Weights, tokens: seq<Token>, features: FeatureMap, ps: seq<(nat, nat)>)
    requires Observable(tokens, features, ps)
    ensures var r := ObserveAll(w, tokens, features, ps);
            Total(r.pos) + Total(r.neg) == Total(w.pos) + Total(w.neg) + FeatureCount(features, ps)
  {
    if ps != [] {
      var init := ps[..|ps| - 1];
      var p := ps[|ps| - 1];
      assert p in ps;
      ObserveAllTotal(w, tokens, features, init);
      var v := ObserveAll(w, tokens, features, init);
      TotalBumpAll(v.pos, features[(p.0, p.1)], tokens[p.1].relation);
      TotalBumpAll(v.neg, features[(p.0, p.1)], tokens[p.1].relation);
    }
  }
}

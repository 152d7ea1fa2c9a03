/**
 * The scores `test` reports (model.py:47-74): attachment scores over the
 * non-root tokens (UAS: right head; LAS: right head and relation) and
 * complete-match scores over sentences (UCM, LCM), each kept as a numerator
 * and a denominator.
 */
module Evaluation {
  import opened Wrappers
  import opened Corpus

  /** A quotient, numerator over denominator. */
  datatype Fraction = Fraction(num: nat, den: nat)

  /** The dictionary `test` returns (model.py:71-74). */
  datatype Scores = Scores(uas: Fraction, las: Fraction, ucm: Fraction, lcm: Fraction)

  /** Token i of the prediction has the gold head (model.py:59). */
  predicate HeadRight(gold: seq<Token>, pred: seq<Token>, i: nat)
    requires i < |gold| && i < |pred|
  {
    pred[i].head == gold[i].head
  }

  /** Token i of the prediction has the gold head and the gold relation (model.py:59-61). */
  predicate LabelRight(gold: seq<Token>, pred: seq<Token>, i: nat)
    requires i < |gold| && i < |pred|
  {
    HeadRight(gold, pred, i) && pred[i].relation == gold[i].relation
  }

  /** The number of tokens 1 .. i - 1 with the gold head. */
  function UnlabeledUpTo(gold: seq<Token>, pred: seq<Token>, i: nat): nat
    requires i <= |gold| <= |pred|
  {
    if i <= 1 then 0 else UnlabeledUpTo(gold, pred, i - 1) + (if HeadRight(gold, pred, i - 1) then 1 else 0)
  }

  /** The number of tokens 1 .. i - 1 with the gold head and relation. */
  function LabeledUpTo(gold: seq<Token>, pred: seq<Token>, i: nat): nat
    requires i <= |gold| <= |pred|
  {
    if i <= 1 then 0 else LabeledUpTo(gold, pred, i - 1) + (if LabelRight(gold, pred, i - 1) then 1 else 0)
  }

  /** Every non-root token has the gold head (`not incorrect_head`, model.py:69). */
  predicate CompleteUnlabeled(gold: seq<Token>, pred: seq<Token>)
    requires |gold| <= |pred|
  {
    forall i :: 1 <= i < |gold| ==> HeadRight(gold, pred, i)
  }

  /** Every non-root token has the gold head and relation (`not incorrect_label`, model.py:70). */
  predicate CompleteLabeled(gold: seq<Token>, pred: seq<Token>)
    requires |gold| <= |pred|
  {
    forall i :: 1 <= i < |gold| ==> LabelRight(gold, pred, i)
  }

  /** The number of tokens of a sentence of n tokens that `test` scores: `range(1, n)`. */
  function Scored(n: nat): nat
  {
    if n == 0 then 0 else n - 1
  }

  /** One prediction per gold sentence, each at least as long. */
  predicate Aligned(golds: seq<seq<Token>>, preds: seq<seq<Token>>)
  {
    |golds| == |preds| && forall k :: 0 <= k < |golds| ==> |golds[k]| <= |preds[k]|
  }

  /** `tok_total` (model.py:68). */
  function TokenTotal(golds: seq<seq<Token>>): nat
  {
    if golds == [] then 0 else TokenTotal(golds[..|golds| - 1]) + Scored(|golds[|golds| - 1]|)
  }

  /** `tok_unlabeled_correct` (model.py:60). */
  function UnlabeledTotal(golds: seq<seq<Token>>, preds: seq<seq<Token>>): nat
    requires Aligned(golds, preds)
  {
    if golds == [] then 0
    else
      var k := |golds| - 1;
      UnlabeledTotal(golds[..k], preds[..k]) + UnlabeledUpTo(golds[k], preds[k], |golds[k]|)
  }

  /** `tok_labeled_correct` (model.py:62). */
  function LabeledTotal(golds: seq<seq<Token>>, preds: seq<seq<Token>>): nat
    requires Aligned(golds, preds)
  {
    if golds == [] then 0
    else
      var k := |golds| - 1;
      LabeledTotal(golds[..k], preds[..k]) + LabeledUpTo(golds[k], preds[k], |golds[k]|)
  }

  /** `sent_unlabeled_correct` (model.py:69). */
  function SentencesUnlabeled(golds: seq<seq<Token>>, preds: seq<seq<Token>>): nat
    requires Aligned(golds, preds)
  {
    if golds == [] then 0
    else
      var k := |golds| - 1;
      SentencesUnlabeled(golds[..k], preds[..k]) + (if CompleteUnlabeled(golds[k], preds[k]) then 1 else 0)
  }

  /** `sent_labeled_correct` (model.py:70). */
  function SentencesLabeled(golds: seq<seq<Token>>, preds: seq<seq<Token>>): nat
    requires Aligned(golds, preds)
  {
    if golds == [] then 0
    else
      var k := |golds| - 1;
      SentencesLabeled(golds[..k], preds[..k]) + (if CompleteLabeled(golds[k], preds[k]) then 1 else 0)
  }

  /** The result of `test` (model.py:71-74): the four quotients, or the division by a zero `tok_total`. */
  function Report(golds: seq<seq<Token>>, preds: seq<seq<Token>>): Result<Scores>
    requires Aligned(golds, preds)
  {
    var total := TokenTotal(golds);
    if total == 0 then Err(ZeroDivision)
    else
      Ok(Scores(Fraction(UnlabeledTotal(golds, preds), total), Fraction(LabeledTotal(golds, preds), total),
                Fraction(SentencesUnlabeled(golds, preds), |golds|), Fraction(SentencesLabeled(golds, preds), |golds|)))
  }

  /** The counts over a corpus grow by the counts of its last sentence. */
  lemma TotalsSnoc(golds: seq<seq<Token>>, preds: seq<seq<Token>>, gold: seq<Token>, pred: seq<Token>)
    requires Aligned(golds, preds) && |gold| <= |pred|
    ensures Aligned(golds + [gold], preds + [pred])
    ensures TokenTotal(golds + [gold]) == TokenTotal(golds) + Scored(|gold|)
    ensures UnlabeledTotal(golds + [gold], preds + [pred]) == UnlabeledTotal(golds, preds) + UnlabeledUpTo(gold, pred, |gold|)
    ensures LabeledTotal(golds + [gold], preds + [pred]) == LabeledTotal(golds, preds) + LabeledUpTo(gold, pred, |gold|)
    ensures SentencesUnlabeled(golds + [gold], preds + [pred])
            == SentencesUnlabeled(golds, preds) + (if CompleteUnlabeled(gold, pred) then 1 else 0)
    ensures SentencesLabeled(golds + [gold], preds + [pred])
            == SentencesLabeled(golds, preds) + (if CompleteLabeled(gold, pred) then 1 else 0)
  {
    assert (golds + [gold])[..|golds|] == golds;
    assert (preds + [pred])[..|preds|] == preds;
  }

  /** Within a sentence, right labels are among right heads, which are among the scored tokens. */
  lemma {:induction false} UpToBounds(gold: seq<Token>, pred: seq<Token>, i: nat)
    requires i <= |gold| <= |pred|
    ensures LabeledUpTo(gold, pred, i) <= UnlabeledUpTo(gold, pred, i) <= Scored(i)
  {
    if i > 1 {
      UpToBounds(gold, pred, i - 1);
    }
  }

  /** A sentence counts as a complete match exactly when all its scored tokens are right. */
  lemma {:induction false} CompleteIffAllRight(gold: seq<Token>, pred: seq<Token>, i: nat)
    requires i <= |gold| <= |pred|
    ensures UnlabeledUpTo(gold, pred, i) == Scored(i) <==> forall j :: 1 <= j < i ==> HeadRight(gold, pred, j)
    ensures LabeledUpTo(gold, pred, i) == Scored(i) <==> forall j :: 1 <= j < i ==> LabelRight(gold, pred, j)
  {
    if i > 1 {
      CompleteIffAllRight(gold, pred, i - 1);
      UpToBounds(gold, pred, i - 1);
    }
  }

  /** The same bounds over a corpus, for tokens and for sentences. */
  lemma {:induction false} TotalBounds(golds: seq<seq<Token>>, preds: seq<seq<Token>>)
    requires Aligned(golds, preds)
    ensures LabeledTotal(golds, preds) <= UnlabeledTotal(golds, preds) <= TokenTotal(golds)
    ensures SentencesLabeled(golds, preds) <= SentencesUnlabeled(golds, preds) <= |golds|
  {
    if golds != [] {
      var k := |golds| - 1;
      TotalBounds(golds[..k], preds[..k]);
      UpToBounds(golds[k], preds[k], |golds[k]|);
      if CompleteLabeled(golds[k], preds[k]) {
        forall i | 1 <= i < |golds[k]| ensures HeadRight(golds[k], preds[k], i) {
          assert LabelRight(golds[k], preds[k], i);
        }
      }
    }
  }

  /**
   * `test` fails with a division by zero exactly when no token is scored;
   * otherwise every score lies between 0 and 1, LAS is at most UAS, LCM at
   * most UCM, and the sentence denominator is positive.
   */
  lemma ReportFacts(golds: seq<seq<Token>>, preds: seq<seq<Token>>)
    requires Aligned(golds, preds)
    ensures Report(golds, preds).Err? <==> TokenTotal(golds) == 0
    ensures Report(golds, preds).Ok? ==>
              var r := Report(golds, preds).value;
              && 0 < r.uas.den == r.las.den && r.las.num <= r.uas.num <= r.uas.den
              && 0 < r.ucm.den == r.lcm.den && r.lcm.num <= r.ucm.num <= r.ucm.den
  {
    TotalBounds(golds, preds);
  }

  /** A prediction that agrees with the gold heads and relations on every scored token. */
  predicate Perfect(golds: seq<seq<Token>>, preds: seq<seq<Token>>)
    requires Aligned(golds, preds)
  {
    forall k, i :: 0 <= k < |golds| && 1 <= i < |golds[k]| ==> LabelRight(golds[k], preds[k], i)
  }

  /** A perfect prediction scores every token and every sentence as right. */
  lemma {:induction false} PerfectTotals(golds: seq<seq<Token>>, preds: seq<seq<Token>>)
    requires Aligned(golds, preds) && Perfect(golds, preds)
    ensures LabeledTotal(golds, preds) == UnlabeledTotal(golds, preds) == TokenTotal(golds)
    ensures SentencesLabeled(golds, preds) == SentencesUnlabeled(golds, preds) == |golds|
  {
    if golds != [] {
      var k := |golds| - 1;
      assert Perfect(golds[..k], preds[..k]);
      PerfectTotals(golds[..k], preds[..k]);
      CompleteIffAllRight(golds[k], preds[k], |golds[k]|);
      UpToBounds(golds[k], preds[k], |golds[k]|);
    }
  }
}

/**
 * Tokens and sentences (corpus.py): a token carries its word form, lemma and
 * part of speech and, when annotated, the position of its head and the kind
 * of dependency relation; a sentence is a list of tokens whose first entry is
 * the artificial root, together with the feature ids of every candidate
 * (head, dependent) pair.
 */
module Corpus {
  import opened Wrappers

  /** (h, d) is a candidate pair of a sentence of n tokens: distinct, and d is not the root. */
  predicate IsPair(n: nat, h: int, d: int)
  {
    0 <= h < n && 0 < d < n && h != d
  }

  /** Every candidate pair of the sentence has an entry in its feature map. */
  ghost predicate HasPairs(tokens: seq<Token>, features: map<(int, int), seq<int>>)
  {
    forall h, d :: IsPair(|tokens|, h, d) ==> (h, d) in features
  }

  /** The pairs (h, d') with 1 <= d' < d and d' != h, in increasing d'. */
  function Row(h: nat, d: nat): (r: seq<(nat, nat)>)
  {
    if d <= 1 then [] else Row(h, d - 1) + (if d - 1 != h then [(h, d - 1)] else [])
  }

  /** The candidate pairs with a head below h, in the order of the loops over h and then d. */
  function Rows(n: nat, h: nat): (r: seq<(nat, nat)>)
    requires h <= n
  {
    if h == 0 then [] else Rows(n, h - 1) + Row(h - 1, n)
  }

  /**
   * The candidate pairs of a sentence of n tokens in the order of the loops
   * `for h in range(n): for d in range(1, n): if h != d` (model.py:13-15, 29-32).
   */
  function Pairs(n: nat): seq<(nat, nat)>
  {
    Rows(n, n)
  }

  /** Pair p comes strictly before pair q in the loop order. */
  predicate PairLess(p: (nat, nat), q: (nat, nat))
  {
    p.0 < q.0 || (p.0 == q.0 && p.1 < q.1)
  }

  lemma {:induction false} RowSound(h: nat, d: nat)
    ensures forall p <- Row(h, d) :: p.0 == h && 1 <= p.1 < d && p.1 != h
  {
    if d > 1 {
      RowSound(h, d - 1);
    }
  }

  lemma {:induction false} RowsSound(n: nat, h: nat)
    requires h <= n
    ensures forall p <- Rows(n, h) :: IsPair(n, p.0, p.1) && p.0 < h
  {
    if h > 0 {
      RowsSound(n, h - 1);
      RowSound(h - 1, n);
    }
  }

  lemma {:induction false} RowComplete(h: nat, d: nat, d': nat)
    requires 1 <= d' < d && d' != h
    ensures (h, d') in Row(h, d)
  {
    if d' < d - 1 {
      RowComplete(h, d - 1, d');
    }
  }

  lemma {:induction false} RowIncreasing(h: nat, d: nat)
    ensures forall i, j :: 0 <= i < j < |Row(h, d)| ==> Row(h, d)[i].1 < Row(h, d)[j].1
  {
    if d > 1 {
      RowIncreasing(h, d - 1);
      RowSound(h, d - 1);
      var r := Row(h, d - 1);
      assert forall i :: 0 <= i < |r| ==> r[i] in r;
    }
  }

  lemma {:induction false} RowsComplete(n: nat, h: nat, h': nat, d': nat)
    requires IsPair(n, h', d') && h' < h <= n
    ensures (h', d') in Rows(n, h)
  {
    var earlier, last := Rows(n, h - 1), Row(h - 1, n);
    assert Rows(n, h) == earlier + last;
    if h' < h - 1 {
      RowsComplete(n, h - 1, h', d');
      assert (h', d') in earlier;
    } else {
      RowComplete(h', n, d');
      assert (h', d') in last;
    }
  }

  lemma {:induction false} RowsIncreasing(n: nat, h: nat)
    requires h <= n
    ensures forall i, j :: 0 <= i < j < |Rows(n, h)| ==> PairLess(Rows(n, h)[i], Rows(n, h)[j])
  {
    if h > 0 {
      var k: nat := h - 1;
      var a: seq<(nat, nat)> := Rows(n, k);
      var b: seq<(nat, nat)> := Row(k, n);
      RowsIncreasing(n, k);
      RowIncreasing(k, n);
      RowsSound(n, k);
      RowSound(k, n);
      ConcatIncreasing(a, b, k);
    }
  }

  /** Two increasing runs, the first wholly before the second, concatenate into an increasing run. */
  lemma ConcatIncreasing(a: seq<(nat, nat)>, b: seq<(nat, nat)>, h: nat)
    requires forall i, j :: 0 <= i < j < |a| ==> PairLess(a[i], a[j])
    requires forall i, j :: 0 <= i < j < |b| ==> b[i].1 < b[j].1
    requires forall p <- a :: p.0 < h
    requires forall p <- b :: p.0 == h
    ensures forall i, j :: 0 <= i < j < |a + b| ==> PairLess((a + b)[i], (a + b)[j])
  {
    var r := a + b;
    forall i, j | 0 <= i < j < |r| ensures PairLess(r[i], r[j]) {
      if j < |a| {
        assert r[i] == a[i] && r[j] == a[j];
      } else if i < |a| {
        assert r[i] == a[i] && a[i] in a;
        assert r[j] == b[j - |a|] && b[j - |a|] in b;
      } else {
        assert r[i] == b[i - |a|] && r[j] == b[j - |a|];
        assert b[i - |a|] in b && b[j - |a|] in b;
      }
    }
  }

  /** `Pairs(n)` lists every candidate pair exactly once, in strictly increasing loop order. */
  lemma PairsExact(n: nat)
    ensures forall p :: p in Pairs(n) <==> IsPair(n, p.0, p.1)
    ensures forall i, j :: 0 <= i < j < |Pairs(n)| ==> PairLess(Pairs(n)[i], Pairs(n)[j])
  {
    forall p: (nat, nat) | IsPair(n, p.0, p.1) ensures p in Pairs(n) {
      RowsComplete(n, n, p.0, p.1);
    }
    RowsIncreasing(n, n);
    RowsSound(n, n);
  }

  lemma {:induction false} RowCount(h: nat, d: nat)
    requires d >= 1
    ensures |Row(h, d)| == d - 1 - (if 1 <= h < d then 1 else 0)
  {
    if d > 1 {
      RowCount(h, d - 1);
    }
  }

  lemma {:induction false} RowsCount(n: nat, h: nat)
    requires 1 <= h <= n
    ensures |Rows(n, h)| == (n - 1) + (h - 1) * (n - 2)
  {
    RowCount(h - 1, n);
    if h > 1 {
      RowsCount(n, h - 1);
    }
  }

  /** A sentence of n >= 1 tokens has (n - 1)^2 candidate pairs (model.py:29-40). */
  lemma PairsCount(n: nat)
    requires n >= 1
    ensures |Pairs(n)| == (n - 1) * (n - 1)
  {
    RowsCount(n, n);
  }

  /** `Token` (corpus.py:1-10); `head` and `relation` are `None` when the token is not annotated. */
  datatype Token = Token(form: string, head: Option<int>, relation: Option<string>, lem: string, pos: string)

  /** Python's `x or default` on an optional string: `None` and "" are both falsy. */
  function OrDefault(x: Option<string>, default: string): string
  {
    if x.Some? && x.value != "" then x.value else default
  }

  /** `Token.__init__` (corpus.py:5-10): a falsy lemma becomes "(none)" and a falsy POS "(NONE)". */
  function NewToken(form: string, head: Option<int>, relation: Option<string>,
                    lem: Option<string>, pos: Option<string>): (t: Token)
    ensures t.form == form && t.head == head && t.relation == relation
    ensures Normal(t)
    ensures lem.Some? && lem.value != "" ==> t.lem == lem.value
    ensures lem.None? || lem.value == "" ==> t.lem == "(none)"
    ensures pos.Some? && pos.value != "" ==> t.pos == pos.value
    ensures pos.None? || pos.value == "" ==> t.pos == "(NONE)"
  {
    Token(form, head, relation, OrDefault(lem, "(none)"), OrDefault(pos, "(NONE)"))
  }

  /** Every token built by `Token.__init__` has a non-empty lemma and POS. */
  predicate Normal(t: Token)
  {
    t.lem != "" && t.pos != ""
  }

  /** The token that starts a fresh sentence (corpus.py:20). */
  function RootToken(): (t: Token)
    ensures t.form == "ROOT" && t.pos == "(ROOT)" && t.lem == "(none)"
    ensures t.head.None? && t.relation.None? && Normal(t)
  {
    NewToken("ROOT", None, None, None, Some("(ROOT)"))
  }

  /** The copy of a token made by `Sentence(source)` (corpus.py:18): form, lemma and POS without head and relation. */
  function Unannotated(t: Token): (u: Token)
    ensures Normal(t) ==> u == t.(head := None, relation := None)
  {
    NewToken(t.form, None, None, Some(t.lem), Some(t.pos))
  }

  /**
   * The tokens of `Sentence(source)` (corpus.py:17-20): the tokens of a
   * non-empty source without head and relation, or the root alone.
   */
  function Copied(tokens: seq<Token>): (r: seq<Token>)
    ensures tokens != [] ==> |r| == |tokens| && forall i :: 0 <= i < |tokens| ==> r[i] == Unannotated(tokens[i])
    ensures tokens == [] ==> r == [RootToken()]
    ensures forall t <- r :: Normal(t) && t.head.None? && t.relation.None?
  {
    if tokens == [] then [RootToken()]
    else seq(|tokens|, i requires 0 <= i < |tokens| => Unannotated(tokens[i]))
  }

  /** Copying an already unannotated normal token gives the token back. */
  lemma UnannotatedIdempotent(t: Token)
    ensures Unannotated(Unannotated(t)) == Unannotated(t)
  {
    assert Normal(Unannotated(t));
  }

  /** The token lists of the sentences of a corpus, the gold annotation when the corpus is annotated. */
  function Golds(corpus: seq<Sentence>): (r: seq<seq<Token>>)
    reads set s <- corpus
    ensures |r| == |corpus| && forall k :: 0 <= k < |corpus| ==> r[k] == corpus[k].tokens
  {
    if corpus == [] then [] else Golds(corpus[..|corpus| - 1]) + [corpus[|corpus| - 1].tokens]
  }

  /**
   * `Sentence` (corpus.py:12-30): the token list and the map from a
   * (head, dependent) pair to the sorted ids of its features.
   */
  class Sentence {
    var tokens: seq<Token>
    var features: map<(int, int), seq<int>>

    /** Every token of the sentence has a lemma and a POS. */
    ghost predicate Valid()
      reads this
    {
      forall t <- tokens :: Normal(t)
    }

    /**
     * `Sentence(source)` (corpus.py:16-21): a source is copied without its
     * annotation (the root alone when it is empty); no source gives the root
     * alone.
     */
    constructor (source: Sentence?)
      ensures source != null ==> tokens == Copied(source.tokens)
      ensures source == null ==> tokens == [RootToken()]
      ensures features == map[]
      ensures Valid()
    {
      if source != null && |source.tokens| > 0 {
        tokens := seq(|source.tokens|, i requires 0 <= i < |source.tokens| reads source => Unannotated(source.tokens[i]));
      } else {
        tokens := [RootToken()];
      }
      features := map[];
    }

    /** `__len__` (corpus.py:23-24). */
    function Length(): (n: nat)
      reads this
      ensures n == |tokens|
    {
      |tokens|
    }

    /** `__getitem__` (corpus.py:26-27), with Python's negative indices counting from the end. */
    function At(n: int): (t: Token)
      reads this
      requires -|tokens| <= n < |tokens|
      ensures t in tokens
      ensures 0 <= n ==> t == tokens[n]
      ensures n < 0 ==> t == tokens[|tokens| + n]
    {
      if 0 <= n then tokens[n] else tokens[|tokens| + n]
    }

    /** `append` (corpus.py:29-30): the token becomes the new last entry; nothing else changes. */
    method Append(t: Token)
      modifies this
      ensures tokens == old(tokens) + [t]
      ensures features == old(features)
      ensures old(Valid()) && Normal(t) ==> Valid()
    {
      tokens := tokens + [t];
    }
  }
}

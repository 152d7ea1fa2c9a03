/** Cardinality facts (pigeonhole arguments) that the decoder's termination and cycle proofs use. */
module Counting {

  ghost predicate Distinct<T>(xs: seq<T>)
  {
    forall i, j :: 0 <= i < j < |xs| ==> xs[i] != xs[j]
  }

  ghost function Elements<T>(xs: seq<T>): set<T>
  {
    set x <- xs
  }

  lemma {:induction false} SubsetCard<T>(a: set<T>, b: set<T>)
    requires a <= b
    ensures |a| <= |b|
  {
    if a != {} {
      var x :| x in a;
      SubsetCard(a - {x}, b - {x});
    }
  }

  lemma {:induction false} ElementsCard<T>(xs: seq<T>)
    ensures |Elements(xs)| <= |xs|
    ensures Distinct(xs) ==> |Elements(xs)| == |xs|
  {
    if xs != [] {
      var last := xs[|xs| - 1];
      var init := xs[..|xs| - 1];
      assert xs == init + [last];
      assert Elements(xs) == Elements(init) + {last};
      ElementsCard(init);
      if Distinct(xs) {
        assert last !in Elements(init);
      }
    }
  }

  /** The integers of a half-open range. */
  lemma {:induction false} RangeCard(s: set<int>, lo: int, hi: int)
    requires forall x <- s :: lo <= x < hi
    ensures |s| <= if lo <= hi then hi - lo else 0
    decreases hi - lo
  {
    if hi <= lo {
      assert forall x :: x !in s;
      assert s == {};
    } else {
      RangeCard(s - {hi - 1}, lo, hi - 1);
    }
  }

  /** Pigeonhole: distinct integers drawn from [lo, hi) number at most hi - lo. */
  lemma DistinctInRange(xs: seq<int>, lo: int, hi: int)
    requires Distinct(xs)
    requires forall i :: 0 <= i < |xs| ==> lo <= xs[i] < hi
    ensures |xs| <= hi - lo || xs == []
  {
    ElementsCard(xs);
    RangeCard(Elements(xs), lo, hi);
  }

  /** Distinct elements all taken from `ys` number at most |ys|. */
  lemma DistinctWithin<T>(xs: seq<T>, ys: seq<T>)
    requires Distinct(xs)
    requires forall x <- xs :: x in ys
    ensures |xs| <= |ys|
  {
    ElementsCard(xs);
    ElementsCard(ys);
    SubsetCard(Elements(xs), Elements(ys));
  }
}

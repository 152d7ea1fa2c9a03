/**
 * The weight tables of the model (model.py:7-8, 19-24): for each feature id,
 * how many times each relation label was seen with it, together with the sums
 * `train` divides to obtain the ratio (model.py:17).
 */
module Tables {
  import opened Wrappers
  import opened Graphs

  /** Feature id -> relation label -> number of observations. */
  type WeightTable = map<int, map<Label, nat>>

  /** `weights[f].get(l, 0)`, with a missing feature counting as no observations. */
  function Count(w: WeightTable, f: int, l: Label): nat
  {
    if f in w && l in w[f] then w[f][l] else 0
  }

  /**
   * One observation of label l with feature f (model.py:22-24): the inner
   * table is created when missing and the count of (f, l) goes up by one.
   */
  function Bump(w: WeightTable, f: int, l: Label): (r: WeightTable)
    ensures r.Keys == w.Keys + {f}
    ensures forall f', l' :: Count(r, f', l') == Count(w, f', l') + (if f' == f && l' == l then 1 else 0)
  {
    var inner := if f in w then w[f] else map[];
    w[f := inner[l := Count(w, f, l) + 1]]
  }

  /** The observations of label l with each feature of fs, in order. */
  function BumpAll(w: WeightTable, fs: seq<int>, l: Label): WeightTable
  {
    if fs == [] then w else Bump(BumpAll(w, fs[..|fs| - 1], l), fs[|fs| - 1], l)
  }

  /** Observing every feature of fs with label l adds, per feature, its number of occurrences in fs. */
  lemma {:induction false} BumpAllCount(w: WeightTable, fs: seq<int>, l: Label, f: int, l': Label)
    ensures Count(BumpAll(w, fs, l), f, l') == Count(w, f, l') + (if l' == l then multiset(fs)[f] else 0)
  {
    if fs != [] {
      var init := fs[..|fs| - 1];
      BumpAllCount(w, init, l, f, l');
      assert fs == init + [fs[|fs| - 1]];
      assert multiset(fs) == multiset(init) + multiset{fs[|fs| - 1]};
    }
  }

  /** A key of a non-empty map. */
  ghost function Pick<K, V>(m: map<K, V>): (k: K)
    requires m != map[]
    ensures k in m
  {
    var k :| k in m; k
  }

  /** `sum(m.values())`. */
  ghost function Sum<K>(m: map<K, nat>): nat
    decreases |m|
  {
    if m == map[] then 0
    else
      var k := Pick(m);
      assert |m - {k}| < |m| by {
        assert (m - {k}).Keys == m.Keys - {k};
      }
      m[k] + Sum(m - {k})
  }

  /** The sum does not depend on which key is taken out first. */
  lemma {:induction false} SumRemove<K>(m: map<K, nat>, k: K)
    requires k in m
    ensures Sum(m) == m[k] + Sum(m - {k})
    decreases |m|
  {
    var j := Pick(m);
    if j != k {
      assert (m - {j}).Keys == m.Keys - {j};
      assert (m - {k}).Keys == m.Keys - {k};
      SumRemove(m - {j}, k);
      SumRemove(m - {k}, j);
      assert m - {j} - {k} == m - {k} - {j};
    }
  }

  /** Setting one entry changes the sum by the difference of the new and the old value. */
  lemma SumUpdate<K>(m: map<K, nat>, k: K, v: nat)
    ensures Sum(m[k := v]) + (if k in m then m[k] else 0) == Sum(m) + v
  {
    SumRemove(m[k := v], k);
    assert m[k := v] - {k} == m - {k};
    if k in m {
      SumRemove(m, k);
    } else {
      assert m - {k} == m;
    }
  }

  /** The sums of the inner tables, per feature. */
  ghost function Sums(w: WeightTable): map<int, nat>
  {
    map f | f in w :: Sum(w[f])
  }

  /** `sum(sum(t.values()) for t in w.values())`: the number of observations in the table. */
  ghost function Total(w: WeightTable): nat
  {
    Sum(Sums(w))
  }

  /** One observation adds one to the total. */
  lemma TotalBump(w: WeightTable, f: int, l: Label)
    ensures Total(Bump(w, f, l)) == Total(w) + 1
  {
    var inner := if f in w then w[f] else map[];
    var c := Count(w, f, l);
    SumUpdate(inner, l, c + 1);
    assert Sum(inner[l := c + 1]) == Sum(inner) + 1;
    var r := Bump(w, f, l);
    assert Sums(r) == Sums(w)[f := Sum(inner) + 1];
    SumUpdate(Sums(w), f, Sum(inner) + 1);
    if f !in w {
      assert Sum(inner) == 0;
    }
  }

  /** Observing the features of fs adds |fs| to the total. */
  lemma {:induction false} TotalBumpAll(w: WeightTable, fs: seq<int>, l: Label)
    ensures Total(BumpAll(w, fs, l)) == Total(w) + |fs|
  {
    if fs != [] {
      TotalBumpAll(w, fs[..|fs| - 1], l);
      TotalBump(BumpAll(w, fs[..|fs| - 1], l), fs[|fs| - 1], l);
    }
  }

  /** `sum(m.values())`, adding the values one key at a time. */
  method SumValues<K>(m: map<K, nat>) returns (s: nat)
    ensures s == Sum(m)
  {
    s := 0;
    var rest := m;
    while rest != map[]
      invariant s + Sum(rest) == Sum(m)
      decreases |rest|
    {
      ghost var some := Pick(rest);
      assert some in rest;
      var k :| k in rest;
      SumRemove(rest, k);
      s := s + rest[k];
      assert (rest - {k}).Keys == rest.Keys - {k};
      rest := rest - {k};
    }
  }

  /** The total of a table (model.py:17), summing the inner sums one feature at a time. */
  method TableTotal(w: WeightTable) returns (t: nat)
    ensures t == Total(w)
  {
    t := 0;
    var rest := w;
    while rest != map[]
      invariant t + Sum(Sums(rest)) == Total(w)
      decreases |rest|
    {
      ghost var some := Pick(rest);
      assert some in rest;
      var key :| key in rest;
      var s := SumValues(rest[key]);
      SumRemove(Sums(rest), key);
      assert Sums(rest) - {key} == Sums(rest - {key});
      t := t + s;
      assert (rest - {key}).Keys == rest.Keys - {key};
      rest := rest - {key};
    }
  }
}

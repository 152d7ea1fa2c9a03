/**
 * `FeatureExtractor` (feature_extractor.py:3-60): the string map that interns
 * feature strings as integer ids, and the pass that stores the sorted feature
 * ids of every candidate pair on each sentence of a corpus.
 */
module Extractor {
  import opened Wrappers
  import opened Corpus
  import opened Strings
  import opened Counting
  import opened Features

  /** The id `lookup` gives string s against map m: its stored id, or the next free one. */
  function IdOf(m: map<string, nat>, s: string): nat
  {
    if s in m then m[s] else |m|
  }

  /** The ids of a list of feature strings against map m. */
  function Ids(m: map<string, nat>, strs: seq<string>): (r: seq<int>)
    ensures |r| == |strs| && forall i :: 0 <= i < |strs| ==> r[i] == IdOf(m, strs[i])
  {
    seq(|strs|, i requires 0 <= i < |strs| => IdOf(m, strs[i]))
  }

  /** The strings of a list of (feature string, weight) pairs. */
  function Firsts(features: seq<(string, real)>): (r: seq<string>)
    ensures |r| == |features| && forall i :: 0 <= i < |features| ==> r[i] == features[i].0
  {
    seq(|features|, i requires 0 <= i < |features| => features[i].0)
  }

  /** The feature strings of pair (h, d), one per template. */
  function PairStrings(s: seq<Token>, h: nat, d: nat, templates: seq<Template>): (r: seq<string>)
    requires h < |s| && d < |s| && h != d
  {
    Firsts(PairFeatures(s, h, d, templates))
  }

  /**
   * `lookup(f, True, w)` on the state (m, w) of the string map and the
   * weights (feature_extractor.py:40-46): a known string changes nothing; a
   * new one is interned under the next free id and its weight is appended.
   */
  function Intern(m: map<string, nat>, w: seq<real>, f: (string, real)): (r: (map<string, nat>, seq<real>))
  {
    if f.0 in m then (m, w) else (m[f.0 := |m|], w + [f.1])
  }

  /** The state after `lookup` with `add_new` of every string of fs, in order. */
  function InternAll(m: map<string, nat>, w: seq<real>, fs: seq<(string, real)>): (r: (map<string, nat>, seq<real>))
  {
    if fs == [] then (m, w)
    else
      var p := InternAll(m, w, fs[..|fs| - 1]);
      Intern(p.0, p.1, fs[|fs| - 1])
  }

  /** Interning a + b is interning a, then b. */
  lemma {:induction false} InternAllAppend(m: map<string, nat>, w: seq<real>, a: seq<(string, real)>, b: seq<(string, real)>)
    ensures var p := InternAll(m, w, a);
            InternAll(m, w, a + b) == InternAll(p.0, p.1, b)
    decreases |b|
  {
    if b == [] {
      assert a + b == a;
    } else {
      var b' := b[..|b| - 1];
      assert (a + b)[..|a + b| - 1] == a + b';
      InternAllAppend(m, w, a, b');
    }
  }

  /** Interning keeps every entry and every weight, and appends one weight per new string. */
  lemma {:induction false} InternAllKeeps(m: map<string, nat>, w: seq<real>, fs: seq<(string, real)>)
    ensures var r := InternAll(m, w, fs);
            && Extends(m, r.0) && |m| <= |r.0|
            && |r.1| == |w| + (|r.0| - |m|) && r.1[..|w|] == w
  {
    if fs != [] {
      var p := InternAll(m, w, fs[..|fs| - 1]);
      InternAllKeeps(m, w, fs[..|fs| - 1]);
      var r := InternAll(m, w, fs);
      assert r.1[..|w|] == p.1[..|w|];
    }
  }

  /** After interning fs, every string of fs is in the map. */
  lemma {:induction false} InternAllHas(m: map<string, nat>, w: seq<real>, fs: seq<(string, real)>)
    ensures forall j :: 0 <= j < |fs| ==> fs[j].0 in InternAll(m, w, fs).0
  {
    if fs != [] {
      var init := fs[..|fs| - 1];
      InternAllHas(m, w, init);
      var p := InternAll(m, w, init);
      forall j | 0 <= j < |fs| ensures fs[j].0 in InternAll(m, w, fs).0 {
        if j < |init| {
          assert init[j].0 in p.0;
        }
      }
    }
  }

  /** Interning fs adds no string that is not in fs. */
  lemma {:induction false} InternAllOnly(m: map<string, nat>, w: seq<real>, fs: seq<(string, real)>)
    ensures forall s <- InternAll(m, w, fs).0 :: s in m || exists j :: 0 <= j < |fs| && fs[j].0 == s
  {
    if fs != [] {
      var init := fs[..|fs| - 1];
      InternAllOnly(m, w, init);
      var p := InternAll(m, w, init);
      forall s <- InternAll(m, w, fs).0 ensures s in m || exists j :: 0 <= j < |fs| && fs[j].0 == s {
        if s in p.0 && s !in m {
          var j :| 0 <= j < |init| && init[j].0 == s;
          assert fs[j].0 == s;
        }
      }
    }
  }

  /**
   * The first occurrence of a string new to the map gets the next free id,
   * and its weight is the weight stored under that id; later lookups keep both.
   */
  lemma InternFirst(m: map<string, nat>, w: seq<real>, fs: seq<(string, real)>, j: nat)
    requires |w| == |m|
    requires j < |fs| && fs[j].0 !in InternAll(m, w, fs[..j]).0
    ensures var p := InternAll(m, w, fs[..j]);
            var r := InternAll(m, w, fs);
            && fs[j].0 in r.0 && r.0[fs[j].0] == |p.0|
            && |p.0| < |r.1| && r.1[|p.0|] == fs[j].1
  {
    var p := InternAll(m, w, fs[..j]);
    InternAllKeeps(m, w, fs[..j]);
    InternAllSnoc(m, w, fs, j);
    var q := Intern(p.0, p.1, fs[j]);
    assert |p.1| == |p.0|;
    assert q.0[fs[j].0] == |p.0| && q.1[|p.0|] == fs[j].1;
    assert fs[..j + 1] + fs[j + 1..] == fs;
    InternAllAppend(m, w, fs[..j + 1], fs[j + 1..]);
    assert InternAll(m, w, fs) == InternAll(q.0, q.1, fs[j + 1..]);
    InternLater(q.0, q.1, fs[j + 1..], fs[j].0, |p.0|);
  }

  /** Later interning keeps an interned string's id and a stored weight. */
  lemma InternLater(m: map<string, nat>, w: seq<real>, fs: seq<(string, real)>, key: string, k: nat)
    requires key in m && k < |w|
    ensures var r := InternAll(m, w, fs);
            key in r.0 && r.0[key] == m[key] && k < |r.1| && r.1[k] == w[k]
  {
    InternAllKeeps(m, w, fs);
    var r := InternAll(m, w, fs);
    assert r.1[k] == r.1[..|w|][k];
  }

  /** Interning the first j + 1 strings is interning the first j, then string j. */
  lemma InternAllSnoc(m: map<string, nat>, w: seq<real>, fs: seq<(string, real)>, j: nat)
    requires j < |fs|
    ensures var p := InternAll(m, w, fs[..j]);
            InternAll(m, w, fs[..j + 1]) == Intern(p.0, p.1, fs[j])
  {
    assert fs[..j + 1][..j] == fs[..j];
  }

  /**
   * The features the pass over a sentence of tokens s looks up before it
   * reaches head h and dependent d, in loop order (feature_extractor.py:56-60):
   * the rows of the heads below h, then the dependents of h below d.
   */
  function FeaturesBefore(s: seq<Token>, h: nat, d: nat, templates: seq<Template>): seq<(string, real)>
    decreases h, d
  {
    if d == 0 then
      if h == 0 then [] else FeaturesBefore(s, h - 1, |s|, templates)
    else
      FeaturesBefore(s, h, d - 1, templates)
        + (if h < |s| && 0 < d - 1 < |s| && h != d - 1 then PairFeatures(s, h, d - 1, templates) else [])
  }

  /** The features a sentence's pass looks up, in loop order (feature_extractor.py:55-60). */
  function SentenceFeatures(s: seq<Token>, templates: seq<Template>): seq<(string, real)>
  {
    FeaturesBefore(s, |s|, 0, templates)
  }

  /**
   * The string map and weights the pass over a sentence of tokens s has
   * reached, from (m, w), before head h and dependent d: the state of the
   * previous step, grown by the features of that step's pair when it is a
   * candidate pair (feature_extractor.py:56-60).
   */
  function InternedBefore(m: map<string, nat>, w: seq<real>, s: seq<Token>, h: nat, d: nat,
                          templates: seq<Template>): (map<string, nat>, seq<real>)
    decreases h, d
  {
    if d == 0 then
      if h == 0 then (m, w) else InternedBefore(m, w, s, h - 1, |s|, templates)
    else
      var p := InternedBefore(m, w, s, h, d - 1, templates);
      if h < |s| && 0 < d - 1 < |s| && h != d - 1 then InternAll(p.0, p.1, PairFeatures(s, h, d - 1, templates)) else p
  }

  /** Stepping pair by pair is interning the features before (h, d) in one fold. */
  lemma {:induction false} InternedBeforeAll(m: map<string, nat>, w: seq<real>, s: seq<Token>, h: nat, d: nat,
                                             templates: seq<Template>)
    ensures InternedBefore(m, w, s, h, d, templates) == InternAll(m, w, FeaturesBefore(s, h, d, templates))
    decreases h, d
  {
    if d == 0 {
      if h > 0 {
        InternedBeforeAll(m, w, s, h - 1, |s|, templates);
      }
    } else {
      InternedBeforeAll(m, w, s, h, d - 1, templates);
      var before := FeaturesBefore(s, h, d - 1, templates);
      if h < |s| && 0 < d - 1 < |s| && h != d - 1 {
        var pair := PairFeatures(s, h, d - 1, templates);
        assert FeaturesBefore(s, h, d, templates) == before + pair;
        InternAllAppend(m, w, before, pair);
      } else {
        assert FeaturesBefore(s, h, d, templates) == before + [];
        assert before + [] == before;
      }
    }
  }

  /** The features the pass over a corpus looks up, sentence after sentence (feature_extractor.py:54-60). */
  function CorpusFeatures(texts: seq<seq<Token>>, templates: seq<Template>): seq<(string, real)>
  {
    if texts == [] then [] else CorpusFeatures(texts[..|texts| - 1], templates) + SentenceFeatures(texts[|texts| - 1], templates)
  }

  /** The interned state after sentence i of the corpus, from the state before it. */
  lemma CorpusNext(m0: map<string, nat>, w0: seq<real>, texts: seq<seq<Token>>, i: nat, templates: seq<Template>,
                   m: map<string, nat>, w: seq<real>, m': map<string, nat>, w': seq<real>)
    requires i < |texts|
    requires (m, w) == InternAll(m0, w0, CorpusFeatures(texts[..i], templates))
    requires (m', w') == InternAll(m, w, SentenceFeatures(texts[i], templates))
    ensures (m', w') == InternAll(m0, w0, CorpusFeatures(texts[..i + 1], templates))
  {
    assert texts[..i + 1][..i] == texts[..i];
    InternAllAppend(m0, w0, CorpusFeatures(texts[..i], templates), SentenceFeatures(texts[i], templates));
  }

  /** After the last sentence, the features of the whole corpus are interned. */
  lemma CorpusFeaturesDone(m0: map<string, nat>, w0: seq<real>, texts: seq<seq<Token>>, templates: seq<Template>,
                           m: map<string, nat>, w: seq<real>)
    requires (m, w) == InternAll(m0, w0, CorpusFeatures(texts[..|texts|], templates))
    ensures (m, w) == InternAll(m0, w0, CorpusFeatures(texts, templates))
  {
    assert texts[..|texts|] == texts;
  }

  /** Every string of strs is interned in m. */
  predicate Known(strs: seq<string>, m: map<string, nat>)
  {
    forall j :: 0 <= j < |strs| ==> strs[j] in m
  }

  /** Map m' keeps every entry of m. */
  ghost predicate Extends(m: map<string, nat>, m': map<string, nat>)
  {
    forall k <- m :: k in m' && m'[k] == m[k]
  }

  /**
   * The feature ids stored for pair (h, d) are the sorted ids, against m, of
   * its feature strings; when new strings are added, they are all in m.
   */
  ghost predicate PairDone(s: seq<Token>, features: map<(int, int), seq<int>>, m: map<string, nat>,
                           templates: seq<Template>, addNew: bool, h: nat, d: nat)
    requires h < |s| && d < |s| && h != d
  {
    && (h, d) in features
    && features[(h, d)] == Sort(Ids(m, PairStrings(s, h, d, templates)))
    && (addNew ==> Known(PairStrings(s, h, d, templates), m))
  }

  /** Every candidate pair of the sentence is done. */
  ghost predicate Extracted(s: seq<Token>, features: map<(int, int), seq<int>>, m: map<string, nat>,
                            templates: seq<Template>, addNew: bool)
  {
    forall h: nat, d: nat {:trigger PairDone(s, features, m, templates, addNew, h, d)} ::
      IsPair(|s|, h, d) ==> PairDone(s, features, m, templates, addNew, h, d)
  }

  /** The feature map f1 has the keys of f0 plus every candidate pair, and agrees with f0 elsewhere. */
  ghost predicate KeepsOthers(f0: map<(int, int), seq<int>>, f1: map<(int, int), seq<int>>, n: nat)
  {
    && (forall k {:trigger k in f1} {:trigger k in f0} :: k in f1 <==> k in f0 || IsPair(n, k.0, k.1))
    && (forall k {:trigger f1[k]} {:trigger k in f0} :: k in f0 && !IsPair(n, k.0, k.1) ==> f1[k] == f0[k])
  }

  lemma KeepsOthersTrans(f0: map<(int, int), seq<int>>, f1: map<(int, int), seq<int>>,
                         f2: map<(int, int), seq<int>>, n: nat)
    requires KeepsOthers(f0, f1, n) && KeepsOthers(f1, f2, n)
    ensures KeepsOthers(f0, f2, n)
  {
  }

  /** Ids against m stay the same in an extension of m when m is unchanged or already holds the strings. */
  lemma IdsStable(m: map<string, nat>, m': map<string, nat>, strs: seq<string>)
    requires Extends(m, m') && (m' == m || Known(strs, m))
    ensures Ids(m', strs) == Ids(m, strs)
  {
    forall i | 0 <= i < |strs| ensures IdOf(m', strs[i]) == IdOf(m, strs[i]) {
    }
  }

  lemma ExtractedStable(s: seq<Token>, features: map<(int, int), seq<int>>, m: map<string, nat>,
                        m': map<string, nat>, templates: seq<Template>, addNew: bool)
    requires Extracted(s, features, m, templates, addNew)
    requires Extends(m, m') && (addNew || m' == m)
    ensures Extracted(s, features, m', templates, addNew)
  {
    forall h: nat, d: nat | IsPair(|s|, h, d) ensures PairDone(s, features, m', templates, addNew, h, d) {
      PairDoneStable(s, features, features, m, m', templates, addNew, h, d);
    }
  }

  /** A done pair stays done when its entry is kept and the map grows by strings it does not use. */
  lemma PairDoneStable(s: seq<Token>, f: map<(int, int), seq<int>>, f': map<(int, int), seq<int>>,
                       m: map<string, nat>, m': map<string, nat>, templates: seq<Template>, addNew: bool,
                       h: nat, d: nat)
    requires h < |s| && d < |s| && h != d
    requires PairDone(s, f, m, templates, addNew, h, d)
    requires (h, d) in f' && f'[(h, d)] == f[(h, d)]
    requires Extends(m, m') && (addNew || m' == m)
    ensures PairDone(s, f', m', templates, addNew, h, d)
  {
    IdsStable(m, m', PairStrings(s, h, d, templates));
  }

  /** `templates or self.templates`: the given templates, or the extractor's own when none are given. */
  function Chosen(given: seq<Template>, own: seq<Template>): (r: seq<Template>)
    ensures r == [] ==> given == [] && own == []
    ensures given != [] ==> r == given
  {
    if given == [] then own else given
  }

  /** Pair (h', d') comes before pair (h, d) in the order of the two nested loops. */
  predicate Before(h': int, d': int, h: int, d: int)
  {
    h' < h || (h' == h && d' < d)
  }

  /**
   * The state of the nested loops over a sentence of tokens s at pair (h, d):
   * every earlier candidate pair is done, and the feature map is f0 with
   * exactly those pairs set.
   */
  ghost predicate Progress(s: seq<Token>, f: map<(int, int), seq<int>>, f0: map<(int, int), seq<int>>,
                           m: map<string, nat>, templates: seq<Template>, addNew: bool, h: int, d: int)
  {
    && DoneBefore(s, f, m, templates, addNew, h, d)
    && SetBefore(f, f0, |s|, h, d)
  }

  /** Every candidate pair before (h, d) is done. */
  ghost predicate DoneBefore(s: seq<Token>, f: map<(int, int), seq<int>>, m: map<string, nat>,
                             templates: seq<Template>, addNew: bool, h: int, d: int)
  {
    forall h': nat, d': nat {:trigger PairDone(s, f, m, templates, addNew, h', d')} ::
      IsPair(|s|, h', d') && Before(h', d', h, d) ==> PairDone(s, f, m, templates, addNew, h', d')
  }

  /** The feature map is f0 with exactly the candidate pairs before (h, d) set. */
  ghost predicate SetBefore(f: map<(int, int), seq<int>>, f0: map<(int, int), seq<int>>, n: nat, h: int, d: int)
  {
    && (forall k {:trigger k in f} {:trigger k in f0} :: k in f <==> k in f0 || (IsPair(n, k.0, k.1) && Before(k.0, k.1, h, d)))
    && (forall k {:trigger f[k]} {:trigger k in f0} :: k in f0 && !(IsPair(n, k.0, k.1) && Before(k.0, k.1, h, d)) ==> f[k] == f0[k])
  }

  /** Storing the sorted ids of a candidate pair advances the loops by one pair. */
  lemma ProgressStep(s: seq<Token>, f: map<(int, int), seq<int>>, f0: map<(int, int), seq<int>>,
                     m: map<string, nat>, m': map<string, nat>, templates: seq<Template>, addNew: bool,
                     h: nat, d: nat, ids: seq<int>)
    requires IsPair(|s|, h, d) && Progress(s, f, f0, m, templates, addNew, h, d)
    requires Extends(m, m') && (addNew || m' == m)
    requires ids == Ids(m', PairStrings(s, h, d, templates))
    requires addNew ==> Known(PairStrings(s, h, d, templates), m')
    ensures Progress(s, f[(h, d) := Sort(ids)], f0, m', templates, addNew, h, d + 1)
  {
    DoneStep(s, f, m, m', templates, addNew, h, d, ids);
    SetStep(f, f0, |s|, h, d, Sort(ids));
  }

  lemma DoneStep(s: seq<Token>, f: map<(int, int), seq<int>>, m: map<string, nat>, m': map<string, nat>,
                 templates: seq<Template>, addNew: bool, h: nat, d: nat, ids: seq<int>)
    requires IsPair(|s|, h, d) && DoneBefore(s, f, m, templates, addNew, h, d)
    requires Extends(m, m') && (addNew || m' == m)
    requires ids == Ids(m', PairStrings(s, h, d, templates))
    requires addNew ==> Known(PairStrings(s, h, d, templates), m')
    ensures DoneBefore(s, f[(h, d) := Sort(ids)], m', templates, addNew, h, d + 1)
  {
    var f' := f[(h, d) := Sort(ids)];
    forall h': nat, d': nat | IsPair(|s|, h', d') && Before(h', d', h, d + 1)
      ensures PairDone(s, f', m', templates, addNew, h', d')
    {
      if (h', d') != (h, d) {
        PairDoneStable(s, f, f', m, m', templates, addNew, h', d');
      }
    }
  }

  lemma SetStep(f: map<(int, int), seq<int>>, f0: map<(int, int), seq<int>>, n: nat, h: int, d: int, v: seq<int>)
    requires IsPair(n, h, d) && SetBefore(f, f0, n, h, d)
    ensures SetBefore(f[(h, d) := v], f0, n, h, d + 1)
  {
  }

  /** A pair that is not a candidate is skipped without changes. */
  lemma ProgressSkip(s: seq<Token>, f: map<(int, int), seq<int>>, f0: map<(int, int), seq<int>>,
                     m: map<string, nat>, templates: seq<Template>, addNew: bool, h: int, d: int)
    requires !IsPair(|s|, h, d) && Progress(s, f, f0, m, templates, addNew, h, d)
    ensures Progress(s, f, f0, m, templates, addNew, h, d + 1)
  {
    forall h': nat, d': nat | IsPair(|s|, h', d') && Before(h', d', h, d + 1)
      ensures PairDone(s, f, m, templates, addNew, h', d')
    {
      assert Before(h', d', h, d);
    }
  }

  /** The end of a row of the inner loop is the start of the next row. */
  lemma ProgressRow(s: seq<Token>, f: map<(int, int), seq<int>>, f0: map<(int, int), seq<int>>,
                    m: map<string, nat>, templates: seq<Template>, addNew: bool, h: int)
    requires Progress(s, f, f0, m, templates, addNew, h, |s|)
    ensures Progress(s, f, f0, m, templates, addNew, h + 1, 0)
  {
    forall h': nat, d': nat | IsPair(|s|, h', d') && Before(h', d', h + 1, 0)
      ensures PairDone(s, f, m, templates, addNew, h', d')
    {
      assert Before(h', d', h, |s|);
    }
  }

  /** After the last row every candidate pair is done and nothing else changed. */
  lemma ProgressDone(s: seq<Token>, f: map<(int, int), seq<int>>, f0: map<(int, int), seq<int>>,
                     m: map<string, nat>, templates: seq<Template>, addNew: bool)
    requires Progress(s, f, f0, m, templates, addNew, |s|, 0)
    ensures Extracted(s, f, m, templates, addNew) && KeepsOthers(f0, f, |s|)
  {
    forall h: nat, d: nat | IsPair(|s|, h, d) ensures PairDone(s, f, m, templates, addNew, h, d) {
      assert Before(h, d, |s|, 0);
    }
  }

  /**
   * The state of the pass over a sentence of tokens s at pair (h, d), from
   * feature map f0, string map m0 and weights w0: the map changed only
   * when `add_new` holds, in which case (m, w) is the state after
   * interning the features of the pairs before (h, d); the pairs before
   * (h, d) are done.
   */
  ghost predicate PairsState(s: seq<Token>, f: map<(int, int), seq<int>>, f0: map<(int, int), seq<int>>,
                             m: map<string, nat>, w: seq<real>, m0: map<string, nat>, w0: seq<real>,
                             templates: seq<Template>, addNew: bool, h: nat, d: nat)
    requires h <= |s|
  {
    && (!addNew ==> m == m0 && w == w0)
    && (addNew ==> (m, w) == InternedBefore(m0, w0, s, h, d, templates))
    && Progress(s, f, f0, m, templates, addNew, h, d)
  }

  /** Before the first pair nothing is done and nothing is interned. */
  lemma PairsStateStart(s: seq<Token>, f0: map<(int, int), seq<int>>, m0: map<string, nat>, w0: seq<real>,
                        templates: seq<Template>, addNew: bool)
    ensures PairsState(s, f0, f0, m0, w0, m0, w0, templates, addNew, 0, 0)
  {
  }

  /** The end of row h is the start of row h + 1. */
  lemma PairsStateRow(s: seq<Token>, f: map<(int, int), seq<int>>, f0: map<(int, int), seq<int>>,
                      m: map<string, nat>, w: seq<real>, m0: map<string, nat>, w0: seq<real>,
                      templates: seq<Template>, addNew: bool, h: nat, n: nat)
    requires n == |s| && h < n && PairsState(s, f, f0, m, w, m0, w0, templates, addNew, h, n)
    ensures PairsState(s, f, f0, m, w, m0, w0, templates, addNew, h + 1, 0)
  {
    ProgressRow(s, f, f0, m, templates, addNew, h);
  }

  /** After the last row, every candidate pair is done and the features of all of them are interned. */
  lemma PairsStateDone(s: seq<Token>, f: map<(int, int), seq<int>>, f0: map<(int, int), seq<int>>,
                       m: map<string, nat>, w: seq<real>, m0: map<string, nat>, w0: seq<real>,
                       templates: seq<Template>, addNew: bool)
    requires PairsState(s, f, f0, m, w, m0, w0, templates, addNew, |s|, 0)
    ensures Extends(m0, m) && (!addNew ==> m == m0 && w == w0)
    ensures addNew ==> (m, w) == InternAll(m0, w0, SentenceFeatures(s, templates))
    ensures Extracted(s, f, m, templates, addNew) && KeepsOthers(f0, f, |s|)
  {
    ProgressDone(s, f, f0, m, templates, addNew);
    InternedBeforeAll(m0, w0, s, |s|, 0, templates);
    InternAllKeeps(m0, w0, SentenceFeatures(s, templates));
  }

  /** One step of the lookup loop: earlier ids are unchanged in the grown map and the new id follows them. */
  lemma LookupStep(before: map<string, nat>, after: map<string, nat>, features: seq<(string, real)>, i: nat,
                   ids: seq<int>, id: int, addNew: bool)
    requires i < |features| && Extends(before, after) && (!addNew ==> after == before)
    requires addNew ==> (forall j :: 0 <= j < i ==> features[j].0 in before) && features[i].0 in after
    requires |ids| == i && forall j :: 0 <= j < i ==> ids[j] == IdOf(before, features[j].0)
    requires id == IdOf(after, features[i].0)
    ensures forall j :: 0 <= j <= i ==> (ids + [id])[j] == IdOf(after, features[j].0)
    ensures addNew ==> forall j :: 0 <= j <= i ==> features[j].0 in after
  {
  }

  lemma ExtendsTrans(m0: map<string, nat>, m1: map<string, nat>, m2: map<string, nat>)
    requires Extends(m0, m1) && Extends(m1, m2)
    ensures Extends(m0, m2)
  {
  }

  /** Ids of a map whose n entries are distinct numbers below n are exactly 0 .. n - 1. */
  lemma {:induction false} InjectiveCard(m: map<string, nat>)
    requires forall s, t :: s in m && t in m && s != t ==> m[s] != m[t]
    ensures |m.Values| == |m|
  {
    if m != map[] {
      var k :| k in m;
      var rest := m - {k};
      InjectiveCard(rest);
      assert rest.Values == m.Values - {m[k]} by {
        forall v | v in m.Values ensures v in rest.Values <==> v != m[k] {
          var s :| s in m && m[s] == v;
          if v != m[k] {
            assert s != k && s in rest;
          }
        }
      }
      assert |m.Keys| == |rest.Keys| + 1 by {
        assert m.Keys == rest.Keys + {k};
      }
    }
  }

  /** A set of integers in [0, n) that misses i holds at most n - 1 of them. */
  lemma MissingOne(vals: set<int>, n: nat, i: int)
    requires 0 <= i < n && i !in vals && forall v <- vals :: 0 <= v < n
    ensures |vals| <= n - 1
  {
    var below := set v <- vals | v < i;
    var above := set v <- vals | v > i;
    RangeCard(below, 0, i);
    RangeCard(above, i + 1, n);
    assert vals == below + above;
  }

  /**
   * The pass of `extract_features` over a corpus, part way: the sentences in
   * done, the corpus up to some position, are extracted against m and keep the other entries of their original
   * feature maps, the others still have theirs; no token list has changed.
   */
  ghost predicate CorpusProgress(corpus: seq<Sentence>, done: seq<Sentence>, tokens: map<Sentence, seq<Token>>,
                                 before: map<Sentence, map<(int, int), seq<int>>>, m: map<string, nat>,
                                 templates: seq<Template>, addNew: bool)
    reads set s <- corpus
  {
    forall s <- corpus ::
      && s in tokens && s in before && s.tokens == tokens[s]
      && (s in done ==> Extracted(s.tokens, s.features, m, templates, addNew)
                        && KeepsOthers(before[s], s.features, |s.tokens|))
      && (s !in done ==> s.features == before[s])
  }

  /** At the start of the pass no sentence is done, and each has the tokens and features recorded for it. */
  lemma CorpusStart(corpus: seq<Sentence>, tokens: map<Sentence, seq<Token>>,
                    before: map<Sentence, map<(int, int), seq<int>>>, m: map<string, nat>,
                    templates: seq<Template>, addNew: bool)
    requires forall s <- corpus :: s in tokens && s in before && s.tokens == tokens[s] && s.features == before[s]
    ensures CorpusProgress(corpus, corpus[..0], tokens, before, m, templates, addNew)
  {
  }

  /** At the end of the pass every sentence is done and keeps its recorded tokens. */
  lemma CorpusDone(corpus: seq<Sentence>, tokens: map<Sentence, seq<Token>>,
                   before: map<Sentence, map<(int, int), seq<int>>>, m: map<string, nat>,
                   templates: seq<Template>, addNew: bool)
    requires CorpusProgress(corpus, corpus[..|corpus|], tokens, before, m, templates, addNew)
    ensures forall s <- corpus ::
              && s in tokens && s in before && s.tokens == tokens[s]
              && Extracted(s.tokens, s.features, m, templates, addNew)
              && KeepsOthers(before[s], s.features, |s.tokens|)
  {
    assert corpus[..|corpus|] == corpus;
  }

  /**
   * `FeatureExtractor` (feature_extractor.py:3-46): `stringMap` interns
   * strings as ids 0, 1, ..., `featureWeights` holds the weight given with
   * each interned string, and `templates` the templates used by default.
   */
  class FeatureExtractor {
    var stringMap: map<string, nat>
    var featureWeights: seq<real>
    var templates: seq<Template>

    /** Ids are distinct and below the map's size, and there is one weight per interned string. */
    ghost predicate Valid()
      reads this
    {
      && |featureWeights| == |stringMap|
      && (forall s <- stringMap :: stringMap[s] < |stringMap|)
      && (forall s, t :: s in stringMap && t in stringMap && s != t ==> stringMap[s] != stringMap[t])
    }

    /** The ids in use are exactly 0 .. |stringMap| - 1. */
    lemma IdsAreRange()
      requires Valid()
      ensures forall i :: 0 <= i < |stringMap| <==> i in stringMap.Values
    {
      InjectiveCard(stringMap);
      forall i | 0 <= i < |stringMap| ensures i in stringMap.Values {
        if i !in stringMap.Values {
          MissingOne(stringMap.Values, |stringMap|, i);
        }
      }
    }

    /** `FeatureExtractor(templates)` (feature_extractor.py:4-32): empty maps, and the default templates when none are given. */
    constructor (templates: seq<Template>)
      ensures Valid() && stringMap == map[] && featureWeights == []
      ensures this.templates == if templates == [] then DefaultTemplates() else templates
    {
      stringMap := map[];
      featureWeights := [];
      this.templates := if templates == [] then DefaultTemplates() else templates;
    }

    /**
     * `lookup` (feature_extractor.py:34-46): a known string gives its id and
     * changes nothing; an unknown one gives the current size of the map, and
     * is interned under that id with its weight only when `addNew` holds.
     */
    method Lookup(s: string, addNew: bool, weight: real) returns (r: nat)
      requires Valid()
      modifies this
      ensures Valid() && templates == old(templates)
      ensures r == IdOf(old(stringMap), s) && Extends(old(stringMap), stringMap)
      ensures addNew ==> s in stringMap && IdOf(stringMap, s) == r
      ensures s !in old(stringMap) ==> forall t <- old(stringMap) :: old(stringMap)[t] != r
      ensures s in old(stringMap) || !addNew ==> stringMap == old(stringMap) && featureWeights == old(featureWeights)
      ensures s !in old(stringMap) && addNew ==>
                stringMap == old(stringMap)[s := r] && featureWeights == old(featureWeights) + [weight]
      ensures addNew ==> (stringMap, featureWeights) == Intern(old(stringMap), old(featureWeights), (s, weight))
    {
      if s in stringMap {
        return stringMap[s];
      }
      r := |stringMap|;
      if addNew {
        stringMap := stringMap[s := r];
        featureWeights := featureWeights + [weight];
      }
    }

    /**
     * The ids of a list of (feature string, weight) pairs, in order
     * (feature_extractor.py:59-60, before sorting).
     */
    method LookupAll(features: seq<(string, real)>, addNew: bool) returns (ids: seq<int>)
      requires Valid()
      modifies this
      ensures Valid() && templates == old(templates)
      ensures Extends(old(stringMap), stringMap)
      ensures !addNew ==> stringMap == old(stringMap) && featureWeights == old(featureWeights)
      ensures addNew ==> forall j :: 0 <= j < |features| ==> features[j].0 in stringMap
      ensures addNew ==> (stringMap, featureWeights) == InternAll(old(stringMap), old(featureWeights), features)
      ensures ids == Ids(stringMap, Firsts(features))
    {
      ids := [];
      assert features[..|features|] == features;
      for i := 0 to |features|
        invariant Valid() && templates == old(templates)
        invariant Extends(old(stringMap), stringMap)
        invariant !addNew ==> stringMap == old(stringMap) && featureWeights == old(featureWeights)
        invariant addNew ==> forall j :: 0 <= j < i ==> features[j].0 in stringMap
        invariant addNew ==> (stringMap, featureWeights) == InternAll(old(stringMap), old(featureWeights), features[..i])
        invariant |ids| == i && forall j :: 0 <= j < i ==> ids[j] == IdOf(stringMap, features[j].0)
      {
        ghost var before := stringMap;
        var id := Lookup(features[i].0, addNew, features[i].1);
        ExtendsTrans(old(stringMap), before, stringMap);
        LookupStep(before, stringMap, features, i, ids, id, addNew);
        ids := ids + [id];
        InternAllSnoc(old(stringMap), old(featureWeights), features, i);
      }
    }

    /**
     * The pass over one sentence (feature_extractor.py:55-60): for every
     * head h and every dependent d other than h and the root, the sorted
     * ids of the features of (h, d) are stored under (h, d).
     */
    method ExtractSentence(s: Sentence, addNew: bool, tpl: seq<Template>)
      requires Valid()
      modifies this, s
      ensures Valid() && templates == old(templates)
      ensures Extends(old(stringMap), stringMap)
      ensures !addNew ==> stringMap == old(stringMap) && featureWeights == old(featureWeights)
      ensures s.tokens == old(s.tokens)
      ensures addNew ==> (stringMap, featureWeights) == InternAll(old(stringMap), old(featureWeights), SentenceFeatures(s.tokens, tpl))
      ensures Extracted(s.tokens, s.features, stringMap, tpl, addNew)
      ensures KeepsOthers(old(s.features), s.features, |s.tokens|)
    {
      ghost var f0 := s.features;
      ghost var w0 := featureWeights;
      var n := s.Length();
      PairsStateStart(s.tokens, f0, stringMap, w0, tpl, addNew);
      for h := 0 to n
        invariant Valid() && templates == old(templates) && s.tokens == old(s.tokens)
        invariant PairsState(s.tokens, s.features, f0, stringMap, featureWeights, old(stringMap), w0, tpl, addNew, h, 0)
      {
        ExtractRow(s, h, addNew, tpl, f0, old(stringMap), w0);
        PairsStateRow(s.tokens, s.features, f0, stringMap, featureWeights, old(stringMap), w0, tpl, addNew, h, n);
      }
      PairsStateDone(s.tokens, s.features, f0, stringMap, featureWeights, old(stringMap), w0, tpl, addNew);
    }

    /** The dependents of head h (feature_extractor.py:56-60), one after the other. */
    method ExtractRow(s: Sentence, h: nat, addNew: bool, tpl: seq<Template>,
                      ghost f0: map<(int, int), seq<int>>, ghost m0: map<string, nat>, ghost w0: seq<real>)
      requires Valid() && h < |s.tokens|
      requires PairsState(s.tokens, s.features, f0, stringMap, featureWeights, m0, w0, tpl, addNew, h, 0)
      modifies this, s
      ensures Valid() && templates == old(templates) && s.tokens == old(s.tokens)
      ensures PairsState(s.tokens, s.features, f0, stringMap, featureWeights, m0, w0, tpl, addNew, h, |s.tokens|)
    {
      var n := s.Length();
      for d := 0 to n
        invariant Valid() && templates == old(templates) && s.tokens == old(s.tokens)
        invariant PairsState(s.tokens, s.features, f0, stringMap, featureWeights, m0, w0, tpl, addNew, h, d)
      {
        ExtractPair(s, h, d, addNew, tpl, f0, m0, w0);
      }
    }

    /**
     * One dependent d of head h (feature_extractor.py:57-60): when (h, d)
     * is a candidate pair, its features are looked up and their sorted ids
     * stored under (h, d); otherwise nothing changes.
     */
    method ExtractPair(s: Sentence, h: nat, d: nat, addNew: bool, tpl: seq<Template>,
                       ghost f0: map<(int, int), seq<int>>, ghost m0: map<string, nat>, ghost w0: seq<real>)
      requires Valid() && h < |s.tokens| && d < |s.tokens|
      requires PairsState(s.tokens, s.features, f0, stringMap, featureWeights, m0, w0, tpl, addNew, h, d)
      modifies this, s
      ensures Valid() && templates == old(templates) && s.tokens == old(s.tokens)
      ensures PairsState(s.tokens, s.features, f0, stringMap, featureWeights, m0, w0, tpl, addNew, h, d + 1)
    {
      ghost var m1 := stringMap;
      if h != d && d != 0 {
        var features := PairFeatures(s.tokens, h, d, tpl);
        var ids := LookupAll(features, addNew);
        ProgressStep(s.tokens, s.features, f0, m1, stringMap, tpl, addNew, h, d, ids);
        s.features := s.features[(h, d) := Sort(ids)];
      } else {
        ProgressSkip(s.tokens, s.features, f0, stringMap, tpl, addNew, h, d);
      }
    }

    /**
     * `extract_features` (feature_extractor.py:48-60): every sentence of the
     * corpus (a sentence may occur more than once) ends up with the sorted
     * ids of the features of each of its candidate pairs, against the final
     * string map, using the given templates or, when none are given, the
     * extractor's own; entries of other keys are kept.
     */
    method ExtractFeatures(corpus: seq<Sentence>, addNew: bool, templates: seq<Template>)
      requires Valid()
      modifies this, set s <- corpus
      ensures Valid() && this.templates == old(this.templates)
      ensures Extends(old(stringMap), stringMap)
      ensures !addNew ==> stringMap == old(stringMap) && featureWeights == old(featureWeights)
      ensures forall s <- corpus :: s.tokens == old(s.tokens)
      ensures addNew ==> (stringMap, featureWeights)
                         == InternAll(old(stringMap), old(featureWeights), CorpusFeatures(old(Golds(corpus)), Chosen(templates, this.templates)))
      ensures forall s <- corpus ::
                Extracted(s.tokens, s.features, stringMap, Chosen(templates, this.templates), addNew)
      ensures forall s <- corpus :: KeepsOthers(old(s.features), s.features, |s.tokens|)
    {
      var tpl := Chosen(templates, this.templates);
      ghost var tokens := map s | s in corpus :: s.tokens;
      ghost var before := map s | s in corpus :: s.features;
      ghost var texts := Golds(corpus);
      assert |texts| == |corpus|;
      CorpusStart(corpus, tokens, before, stringMap, tpl, addNew);
      for i := 0 to |corpus|
        invariant Valid() && this.templates == old(this.templates)
        invariant Extends(old(stringMap), stringMap)
        invariant !addNew ==> stringMap == old(stringMap) && featureWeights == old(featureWeights)
        invariant addNew ==> (stringMap, featureWeights) == InternAll(old(stringMap), old(featureWeights), CorpusFeatures(texts[..i], tpl))
        invariant CorpusProgress(corpus, corpus[..i], tokens, before, stringMap, tpl, addNew)
      {
        ExtractStep(corpus, i, addNew, tpl, tokens, before, texts, old(stringMap), old(featureWeights));
      }
      CorpusDone(corpus, tokens, before, stringMap, tpl, addNew);
      if addNew {
        CorpusFeaturesDone(old(stringMap), old(featureWeights), texts, tpl, stringMap, featureWeights);
      }
    }

    /**
     * One sentence of `extract_features`: the sentences done so far stay
     * extracted against the grown string map, and the features of sentence
     * i join the interned ones.
     */
    method ExtractStep(corpus: seq<Sentence>, i: nat, addNew: bool, tpl: seq<Template>,
                       ghost tokens: map<Sentence, seq<Token>>, ghost before: map<Sentence, map<(int, int), seq<int>>>,
                       ghost texts: seq<seq<Token>>, ghost m0: map<string, nat>, ghost w0: seq<real>)
      requires Valid() && i < |corpus| && i < |texts| && corpus[i] in tokens && texts[i] == tokens[corpus[i]]
      requires CorpusProgress(corpus, corpus[..i], tokens, before, stringMap, tpl, addNew)
      requires addNew ==> (stringMap, featureWeights) == InternAll(m0, w0, CorpusFeatures(texts[..i], tpl))
      modifies this, corpus[i]
      ensures Valid() && templates == old(templates)
      ensures Extends(old(stringMap), stringMap)
      ensures !addNew ==> stringMap == old(stringMap) && featureWeights == old(featureWeights)
      ensures addNew ==> (stringMap, featureWeights) == InternAll(m0, w0, CorpusFeatures(texts[..i + 1], tpl))
      ensures CorpusProgress(corpus, corpus[..i + 1], tokens, before, stringMap, tpl, addNew)
    {
      var sentence := corpus[i];
      ghost var m1 := stringMap;
      ghost var f0 := sentence.features;
      ghost var done := corpus[..i];
      ghost var w1 := featureWeights;
      ExtractSentence(sentence, addNew, tpl);
      if addNew {
        CorpusNext(m0, w0, texts, i, tpl, m1, w1, stringMap, featureWeights);
      }
      if sentence in done {
        KeepsOthersTrans(before[sentence], f0, sentence.features, |sentence.tokens|);
      }
      assert corpus[..i + 1] == done + [sentence];
      forall s <- corpus
        ensures s in tokens && s in before && s.tokens == tokens[s]
        ensures s in corpus[..i + 1] ==> Extracted(s.tokens, s.features, stringMap, tpl, addNew)
                                         && KeepsOthers(before[s], s.features, |s.tokens|)
        ensures s !in corpus[..i + 1] ==> s.features == before[s]
      {
        if s in done && s != sentence {
          ExtractedStable(s.tokens, s.features, m1, stringMap, tpl, addNew);
        }
      }
    }
  }
}

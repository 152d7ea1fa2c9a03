/**
 * Feature strings of a candidate (head, dependent) pair and their interning
 * into integer ids (feature_extractor.py).
 */
module Features {
  import opened Wrappers
  import opened Corpus
  import opened Strings

  /**
   * The thirteen feature names of `_extract_features_` (feature_extractor.py:64-78);
   * `Name` gives the string a template spells each one with.
   */
  datatype FeatureName =
    | HForm | HPos | HLem | DForm | DPos | DLem | BPos
    | HPosNext | DPosNext | HPosPrev | DPosPrev | Dir | Dist

  function Name(f: FeatureName): (r: string)
    ensures r != "" && ':' !in r
  {
    match f
    case HForm => "hform"
    case HPos => "hpos"
    case HLem => "hlem"
    case DForm => "dform"
    case DPos => "dpos"
    case DLem => "dlem"
    case BPos => "bpos"
    case HPosNext => "hpos+1"
    case DPosNext => "dpos+1"
    case HPosPrev => "hpos-1"
    case DPosPrev => "dpos-1"
    case Dir => "dir"
    case Dist => "dist"
  }

  /** Distinct feature names are spelled differently. */
  lemma NameInjective(f: FeatureName, g: FeatureName)
    requires Name(f) == Name(g)
    ensures f == g
  {
    match f
    case HForm =>
    case HPos => assert Name(g)[1..] == "pos";
    case HLem =>
    case DForm =>
    case DPos => assert Name(g)[1..] == "pos";
    case DLem =>
    case BPos =>
    case HPosNext =>
    case DPosNext =>
    case HPosPrev =>
    case DPosPrev =>
    case Dir =>
    case Dist =>
  }

  /** A feature template: the names it combines and its weight. */
  type Template = (seq<FeatureName>, real)

  /** The templates used when none are given (feature_extractor.py:17-32). */
  function DefaultTemplates(): (r: seq<Template>)
    ensures |r| == 14 && forall i :: 0 <= i < 14 ==> r[i].1 == 1.0 && Dir in r[i].0
  {
    [([HLem, HPos, Dir, Dist], 1.0),
     ([DLem, DPos, Dir, Dist], 1.0),
     ([HLem, DLem, Dir, Dist], 1.0),
     ([HPos, DPos, Dir, Dist], 1.0),
     ([HLem, HPos, DLem, DPos, Dir, Dist], 1.0),
     ([HLem, HPos, DLem, Dir, Dist], 1.0),
     ([HLem, DLem, DPos, Dir, Dist], 1.0),
     ([HLem, HPos, DPos, Dir, Dist], 1.0),
     ([HPos, DLem, DPos, Dir, Dist], 1.0),
     ([HPos, BPos, DPos, Dir], 1.0),
     ([HPos, DPos, HPosNext, DPosPrev, Dir, Dist], 1.0),
     ([HPos, DPos, HPosPrev, DPosPrev, Dir, Dist], 1.0),
     ([HPos, DPos, HPosNext, DPosNext, Dir, Dist], 1.0),
     ([HPos, DPos, HPosPrev, DPosNext, Dir, Dist], 1.0)]
  }

  function Min(a: int, b: int): int { if a < b then a else b }
  function Max(a: int, b: int): int { if a < b then b else a }

  /** The POS tags of `s[lo:hi]`, in order. */
  function PosRange(s: seq<Token>, lo: nat, hi: nat): (r: seq<string>)
    requires lo <= hi <= |s|
    ensures |r| == hi - lo && forall i :: 0 <= i < hi - lo ==> r[i] == s[lo + i].pos
  {
    seq(hi - lo, i requires 0 <= i < hi - lo => s[lo + i].pos)
  }

  /**
   * `bpos` (feature_extractor.py:71): the POS tags of `s[min(h, d) : max(h, d) - 1]`
   * joined by '+', or "(EMPTY)" when that join is empty. The slice starts at the
   * nearer of the two tokens itself and stops one short of the farther one.
   */
  function BetweenPos(s: seq<Token>, h: nat, d: nat): (r: string)
    requires h < |s| && d < |s| && h != d
    ensures r != ""
  {
    var joined := Join(PosRange(s, Min(h, d), Max(h, d) - 1), '+');
    if joined == "" then "(EMPTY)" else joined
  }

  /**
   * With non-empty POS tags free of '+', `bpos` is "(EMPTY)" for adjacent
   * tokens, and otherwise splits back into one tag per token of the slice.
   */
  lemma BetweenPosTags(s: seq<Token>, h: nat, d: nat)
    requires h < |s| && d < |s| && h != d
    requires forall t <- s :: t.pos != "" && '+' !in t.pos
    ensures Max(h, d) - Min(h, d) == 1 ==> BetweenPos(s, h, d) == "(EMPTY)"
    ensures Max(h, d) - Min(h, d) > 1 ==>
              Split(BetweenPos(s, h, d), '+') == PosRange(s, Min(h, d), Max(h, d) - 1)
  {
    if Max(h, d) - Min(h, d) > 1 {
      BetweenPosSplit(s, h, d);
    } else {
      BetweenPosAdjacent(s, h, d);
    }
  }

  lemma BetweenPosAdjacent(s: seq<Token>, h: nat, d: nat)
    requires h < |s| && d < |s| && Max(h, d) - Min(h, d) == 1
    ensures BetweenPos(s, h, d) == "(EMPTY)"
  {
    assert PosRange(s, Min(h, d), Max(h, d) - 1) == [];
  }

  lemma BetweenPosSplit(s: seq<Token>, h: nat, d: nat)
    requires h < |s| && d < |s| && Max(h, d) - Min(h, d) > 1
    requires forall t <- s :: t.pos != "" && '+' !in t.pos
    ensures Split(BetweenPos(s, h, d), '+') == PosRange(s, Min(h, d), Max(h, d) - 1)
  {
    var lo, hi := Min(h, d), Max(h, d) - 1;
    var tags := PosRange(s, lo, hi);
    TagsClean(s, lo, hi);
    JoinSplitClean(tags, '+');
  }

  /** Non-empty parts free of the separator join into a non-empty string that splits back into them. */
  lemma JoinSplitClean(parts: seq<string>, sep: char)
    requires |parts| >= 1 && forall p <- parts :: p != "" && sep !in p
    ensures Join(parts, sep) != "" && Split(Join(parts, sep), sep) == parts
  {
    JoinNonEmpty(parts, sep);
    SplitJoin(parts, sep);
  }

  lemma TagsClean(s: seq<Token>, lo: nat, hi: nat)
    requires lo <= hi <= |s|
    requires forall t <- s :: t.pos != "" && '+' !in t.pos
    ensures forall p <- PosRange(s, lo, hi) :: p != "" && '+' !in p
  {
    var tags := PosRange(s, lo, hi);
    forall i | 0 <= i < |tags| ensures tags[i] != "" && '+' !in tags[i] {
      assert s[lo + i] in s;
    }
  }

  /** Joining non-empty parts gives a non-empty string. */
  lemma {:induction false} JoinNonEmpty(parts: seq<string>, sep: char)
    requires |parts| >= 1 && forall p <- parts :: p != ""
    ensures Join(parts, sep) != ""
  {
    assert parts[0] in parts;
    if |parts| > 1 {
      assert |Join(parts, sep)| >= |parts[0]|;
    }
  }

  /** The POS of the token after the head, "(ROOT)" for the root and " " past the end (feature_extractor.py:72). */
  function HeadNextPos(s: seq<Token>, h: nat): string
    requires h < |s|
  {
    if h == 0 then "(ROOT)" else if h + 1 < |s| then s[h + 1].pos else " "
  }

  /** The POS of the token before the head, "(ROOT)" for the root and " " after the root (feature_extractor.py:74). */
  function HeadPrevPos(s: seq<Token>, h: nat): string
    requires h < |s|
  {
    if h == 0 then "(ROOT)" else if h > 1 then s[h - 1].pos else " "
  }

  /** The distance |h - d|. */
  function Distance(h: nat, d: nat): (r: nat)
    ensures r == 0 <==> h == d
    ensures h + r == d || d + r == h
  {
    if h > d then h - d else d - h
  }

  /**
   * The `features` dict of `_extract_features_` (feature_extractor.py:64-78):
   * the value of feature f for head h and dependent d.
   */
  function FeatureValue(s: seq<Token>, h: nat, d: nat, f: FeatureName): string
    requires h < |s| && d < |s| && h != d
  {
    match f
    case HForm => Lower(s[h].form)
    case HPos => s[h].pos
    case HLem => s[h].lem
    case DForm => Lower(s[d].form)
    case DPos => s[d].pos
    case DLem => s[d].lem
    case BPos => BetweenPos(s, h, d)
    case HPosNext => HeadNextPos(s, h)
    case DPosNext => if d + 1 < |s| then s[d + 1].pos else " "
    case HPosPrev => HeadPrevPos(s, h)
    case DPosPrev => if d > 1 then s[d - 1].pos else " "
    case Dir => if h > d then "left" else "right"
    case Dist => NatToString(Distance(h, d))
  }

  /** The direction feature is "left" exactly when the head follows the dependent, and "right" otherwise. */
  lemma DirFeature(s: seq<Token>, h: nat, d: nat)
    requires h < |s| && d < |s| && h != d
    ensures FeatureValue(s, h, d, Dir) == "left" <==> h > d
    ensures FeatureValue(s, h, d, Dir) == "right" <==> h < d
  {
    assert "left"[0] != "right"[0];
  }

  /** The distance feature reads back as the positive distance |h - d|. */
  lemma DistFeature(s: seq<Token>, h: nat, d: nat)
    requires h < |s| && d < |s| && h != d
    ensures ParseNat(FeatureValue(s, h, d, Dist)) == Distance(h, d) && Distance(h, d) > 0
  {
    ParseNatToString(Distance(h, d));
  }

  /** The neighbour features of the root as head are "(ROOT)", and `bpos` is never empty. */
  lemma RootAndBetween(s: seq<Token>, h: nat, d: nat)
    requires h < |s| && d < |s| && h != d
    ensures h == 0 ==> FeatureValue(s, h, d, HPosNext) == "(ROOT)" && FeatureValue(s, h, d, HPosPrev) == "(ROOT)"
    ensures FeatureValue(s, h, d, BPos) != ""
  {
  }

  /** The names of a template as spelled in its feature string. */
  function Names(names: seq<FeatureName>): (r: seq<string>)
    ensures |r| == |names| && forall i :: 0 <= i < |names| ==> r[i] == Name(names[i])
  {
    seq(|names|, i requires 0 <= i < |names| => Name(names[i]))
  }

  /** The values of the named features, in the template's order. */
  function FeatureValues(s: seq<Token>, h: nat, d: nat, names: seq<FeatureName>): (r: seq<string>)
    requires h < |s| && d < |s| && h != d
    ensures |r| == |names| && forall i :: 0 <= i < |names| ==> r[i] == FeatureValue(s, h, d, names[i])
  {
    seq(|names|, i requires 0 <= i < |names| => FeatureValue(s, h, d, names[i]))
  }

  /** A feature string: the names joined by '+', then ':', then their values joined by '+' (feature_extractor.py:79). */
  function FeatureString(s: seq<Token>, h: nat, d: nat, names: seq<FeatureName>): string
    requires h < |s| && d < |s| && h != d
  {
    Join(Names(names), '+') + ":" + Join(FeatureValues(s, h, d, names), '+')
  }

  /**
   * A feature string splits at its first ':' into the joined names and the
   * joined values, since no feature name holds a ':'.
   */
  lemma FeatureStringParts(s: seq<Token>, h: nat, d: nat, names: seq<FeatureName>)
    requires h < |s| && d < |s| && h != d
    ensures var fs := FeatureString(s, h, d, names);
      ':' in fs && fs[..FirstIndex(fs, ':')] == Join(Names(names), '+')
      && fs[FirstIndex(fs, ':') + 1..] == Join(FeatureValues(s, h, d, names), '+')
  {
    var keys := Join(Names(names), '+');
    var fs := FeatureString(s, h, d, names);
    forall p <- Names(names) ensures ':' !in p {
      var i :| 0 <= i < |names| && Names(names)[i] == p;
    }
    JoinAvoids(Names(names), '+', ':');
    assert fs[|keys|] == ':';
    var i := FirstIndex(fs, ':');
    if i < |keys| {
      assert false;
    } else if i > |keys| {
      assert false;
    }
    assert fs[..i] == keys;
  }

  /** A join of parts avoiding c, with a separator other than c, avoids c. */
  lemma {:induction false} JoinAvoids(parts: seq<string>, sep: char, c: char)
    requires sep != c && forall p <- parts :: c !in p
    ensures c !in Join(parts, sep)
  {
    if |parts| > 1 {
      assert parts[0] in parts;
      assert forall p <- parts[1..] :: p in parts;
      JoinAvoids(parts[1..], sep, c);
    } else if |parts| == 1 {
      assert parts[0] in parts;
    }
  }

  /** Feature strings of templates whose joined names differ are different strings. */
  lemma FeatureStringsDiffer(s: seq<Token>, h: nat, d: nat, s': seq<Token>, h': nat, d': nat,
                             n1: seq<FeatureName>, n2: seq<FeatureName>)
    requires h < |s| && d < |s| && h != d && h' < |s'| && d' < |s'| && h' != d'
    requires Join(Names(n1), '+') != Join(Names(n2), '+')
    ensures FeatureString(s, h, d, n1) != FeatureString(s', h', d', n2)
  {
    FeatureStringParts(s, h, d, n1);
    FeatureStringParts(s', h', d', n2);
  }

  /**
   * `_extract_features_` (feature_extractor.py:63-79): one (feature string,
   * weight) pair per template, in template order.
   */
  function PairFeatures(s: seq<Token>, h: nat, d: nat, templates: seq<Template>): (r: seq<(string, real)>)
    requires h < |s| && d < |s| && h != d
    ensures |r| == |templates|
    ensures forall i :: 0 <= i < |templates| ==>
              r[i].1 == templates[i].1 && r[i].0 == FeatureString(s, h, d, templates[i].0)
  {
    seq(|templates|, i requires 0 <= i < |templates| => (FeatureString(s, h, d, templates[i].0), templates[i].1))
  }
}

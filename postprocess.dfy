/**
 * The class and confidence filter applied to the detector's rows
 * (src/detector/postprocess.py).
 */
module Postprocess {
  import opened OnnxLoader

  /** Index of the 'cat' class in the COCO label set the detector was trained on. */
  const CatClassId: int := 15

  /** Conversion of a class value to an integer, truncating toward zero. */
  function Truncate(x: real): (n: int)
    ensures x >= 0.0 ==> n as real <= x < n as real + 1.0
    ensures x < 0.0 ==> n as real - 1.0 < x <= n as real
  {
    if x >= 0.0 then x.Floor else -((-x).Floor)
  }

  /** A row is kept when its score reaches the threshold and its class truncates to the cat id. */
  predicate IsCat(d: Row, thr: real)
  {
    d.score >= thr && Truncate(d.cls) == CatClassId
  }

  /** Exactly the class values in [15, 16) truncate to the cat id. */
  lemma CatClassRange(c: real)
    ensures Truncate(c) == CatClassId <==> 15.0 <= c < 16.0
  {
    if c < 0.0 {
      assert Truncate(c) <= 0;
    }
  }

  /** The rows of dets that satisfy IsCat, in their original order. */
  function KeepCats(dets: seq<Row>, thr: real): (r: seq<Row>)
    ensures |r| <= |dets|
    ensures forall k | 0 <= k < |r| :: IsCat(r[k], thr)
    ensures forall d :: d in r <==> d in dets && IsCat(d, thr)
  {
    if |dets| == 0 then []
    else (if IsCat(dets[0], thr) then [dets[0]] else []) + KeepCats(dets[1..], thr)
  }

  /**
   * filter_cats: an empty array is returned as it is, otherwise the masked
   * rows. Every returned row passes both tests, and every input row that
   * passes both is returned.
   */
  function FilterCats(dets: seq<Row>, thr: real): (r: seq<Row>)
    ensures |dets| == 0 ==> r == dets
    ensures forall k | 0 <= k < |r| :: IsCat(r[k], thr)
    ensures forall d :: d in r <==> d in dets && IsCat(d, thr)
  {
    if |dets| == 0 then dets else KeepCats(dets, thr)
  }

  /** r is obtained from s by deleting elements, without reordering or changing the rest. */
  predicate IsSubsequence(r: seq<Row>, s: seq<Row>)
  {
    if |s| == 0 then |r| == 0
    else IsSubsequence(r, s[1..]) || (|r| > 0 && r[0] == s[0] && IsSubsequence(r[1..], s[1..]))
  }

  /** Each row occurs in the result as often as in the input if it passes, and not at all otherwise. */
  lemma {:induction false} KeepCatsCount(dets: seq<Row>, thr: real, d: Row)
    ensures multiset(KeepCats(dets, thr))[d] == if IsCat(d, thr) then multiset(dets)[d] else 0
  {
    if |dets| > 0 {
      KeepCatsCount(dets[1..], thr, d);
      assert dets == [dets[0]] + dets[1..];
      assert multiset(dets) == multiset([dets[0]]) + multiset(dets[1..]);
    }
  }

  /** The filtered rows keep their input order and are copied unmodified. */
  lemma {:induction false} KeepCatsSubsequence(dets: seq<Row>, thr: real)
    ensures IsSubsequence(KeepCats(dets, thr), dets)
  {
    if |dets| > 0 {
      var rest := KeepCats(dets[1..], thr);
      KeepCatsSubsequence(dets[1..], thr);
      if IsCat(dets[0], thr) {
        assert KeepCats(dets, thr) == [dets[0]] + rest;
        assert ([dets[0]] + rest)[1..] == rest;
      } else {
        assert KeepCats(dets, thr) == rest;
      }
    }
  }

  /** The output of filter_cats is a subsequence of its input with exactly the passing rows' multiplicities. */
  lemma FilterCatsStable(dets: seq<Row>, thr: real)
    ensures IsSubsequence(FilterCats(dets, thr), dets)
    ensures forall d :: multiset(FilterCats(dets, thr))[d] == if IsCat(d, thr) then multiset(dets)[d] else 0
  {
    if |dets| > 0 {
      KeepCatsSubsequence(dets, thr);
      forall d ensures multiset(FilterCats(dets, thr))[d] == if IsCat(d, thr) then multiset(dets)[d] else 0 {
        KeepCatsCount(dets, thr, d);
      }
    }
  }

  /** Filtering keeps every row of an input whose rows all pass. */
  lemma {:induction false} KeepCatsAllPass(dets: seq<Row>, thr: real)
    requires forall k | 0 <= k < |dets| :: IsCat(dets[k], thr)
    ensures KeepCats(dets, thr) == dets
  {
    if |dets| > 0 {
      KeepCatsAllPass(dets[1..], thr);
    }
  }

  /** Filtering twice with the same threshold is filtering once. */
  lemma FilterIdempotent(dets: seq<Row>, thr: real)
    ensures FilterCats(FilterCats(dets, thr), thr) == FilterCats(dets, thr)
  {
    var once := FilterCats(dets, thr);
    if |once| > 0 {
      KeepCatsAllPass(once, thr);
    }
  }

  /** The frame shows a cat (pipeline.py:79-82): some row survives the filter. */
  function SawCat(dets: seq<Row>, thr: real): (b: bool)
    ensures b <==> exists k | 0 <= k < |dets| :: IsCat(dets[k], thr)
  {
    var kept := FilterCats(dets, thr);
    assert |kept| > 0 ==> kept[0] in dets;
    assert forall k | 0 <= k < |dets| :: IsCat(dets[k], thr) ==> dets[k] in kept;
    |kept| > 0
  }
}

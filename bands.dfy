/** Confidence bands over one distance row.
    A candidate i2 of image 2 is in a band when its distance is strictly below
    `minDist + k * distStd`; the demo uses k = 0.3 for the marked matches and
    k = 0.1 for the animated highlight ring. */
module Bands {

  /** Coefficient of the wide band (the red, labelled marks). */
  const WideCoeff: real := 0.3
  /** Coefficient of the tight band (the blue animated circles). */
  const TightCoeff: real := 0.1

  /** The strict upper bound of the band with coefficient k. */
  function Threshold(minDist: real, distStd: real, k: real): real
  {
    minDist + k * distStd
  }

  ghost predicate StrictlyIncreasing(xs: seq<nat>)
  {
    forall j, l :: 0 <= j < l < |xs| ==> xs[j] < xs[l]
  }

  /** The indices of `d` whose value is strictly below `t`, in increasing
      order: what a left-to-right scan that appends each qualifying index
      collects. Defined on the last element so that one more scan step is
      one more unfolding. */
  function IndicesBelow(d: seq<real>, t: real): seq<nat>
    decreases |d|
  {
    if d == [] then []
    else IndicesBelow(d[..|d| - 1], t) + (if d[|d| - 1] < t then [|d| - 1] else [])
  }

  /** What the scan collects: an increasing list of in-range indices whose
      distances are below the threshold, and every such index. */
  lemma {:induction false} IndicesBelowSpec(d: seq<real>, t: real)
    ensures StrictlyIncreasing(IndicesBelow(d, t))
    ensures forall j :: 0 <= j < |IndicesBelow(d, t)| ==>
              IndicesBelow(d, t)[j] < |d| && d[IndicesBelow(d, t)[j]] < t
    ensures forall i :: 0 <= i < |d| ==> (i in IndicesBelow(d, t) <==> d[i] < t)
    decreases |d|
  {
    if d != [] {
      var n := |d| - 1;
      var p := d[..n];
      IndicesBelowSpec(p, t);
      var rp := IndicesBelow(p, t);
      var r := IndicesBelow(d, t);
      assert r == rp + (if d[n] < t then [n] else []);
      assert forall j :: 0 <= j < |rp| ==> rp[j] < n && d[rp[j]] == p[rp[j]];
      forall i | 0 <= i < |d|
        ensures i in r <==> d[i] < t
      {
        if i < n {
          assert d[i] == p[i];
          assert i in r <==> i in rp;
        }
      }
    }
  }

  /** A scan with a larger threshold collects at least the same indices:
      raising the bound can only widen a band. */
  lemma {:induction false} IndicesBelowMonotone(d: seq<real>, t1: real, t2: real)
    requires t1 <= t2
    ensures forall i :: i in IndicesBelow(d, t1) ==> i in IndicesBelow(d, t2)
  {
    IndicesBelowSpec(d, t1);
    IndicesBelowSpec(d, t2);
    forall i | i in IndicesBelow(d, t1)
      ensures i in IndicesBelow(d, t2)
    {
      var j :| 0 <= j < |IndicesBelow(d, t1)| && IndicesBelow(d, t1)[j] == i;
    }
  }

  /** With a non-negative spread, every tight-band index is a wide-band index. */
  lemma {:induction false} TightBandWithinWideBand(d: seq<real>, minDist: real, distStd: real)
    requires distStd >= 0.0
    ensures forall i ::
              i in IndicesBelow(d, Threshold(minDist, distStd, TightCoeff)) ==>
              i in IndicesBelow(d, Threshold(minDist, distStd, WideCoeff))
  {
    IndicesBelowMonotone(d, Threshold(minDist, distStd, TightCoeff),
                         Threshold(minDist, distStd, WideCoeff));
  }

  /** When no value lies below the row minimum, a zero spread leaves every band
      empty: the comparison is strict, so even the minimum is excluded. */
  lemma {:induction false} BandsEmptyWithoutSpread(d: seq<real>, minDist: real, k: real)
    requires forall i :: 0 <= i < |d| ==> minDist <= d[i]
    ensures IndicesBelow(d, Threshold(minDist, 0.0, k)) == []
    decreases |d|
  {
    if d != [] {
      var n := |d| - 1;
      assert forall i :: 0 <= i < n ==> d[..n][i] == d[i];
      BandsEmptyWithoutSpread(d[..n], minDist, k);
    }
  }

  /** When the spread is positive, the index holding the minimum is in every
      band with a positive coefficient. */
  lemma {:induction false} BestInBand(d: seq<real>, minIdx: nat, distStd: real, k: real)
    requires minIdx < |d|
    requires distStd > 0.0 && k > 0.0
    ensures minIdx in IndicesBelow(d, Threshold(d[minIdx], distStd, k))
  {
    IndicesBelowSpec(d, Threshold(d[minIdx], distStd, k));
  }

  /** The four-entry row [1, 5, 9, 2] with spread 3.5 and minimum 1: the wide
      band holds indices 0 and 3 (threshold 2.05), the tight band only index 0
      (threshold 1.35). */
  lemma ExampleRow()
    ensures IndicesBelow([1.0, 5.0, 9.0, 2.0], Threshold(1.0, 3.5, WideCoeff)) == [0, 3]
    ensures IndicesBelow([1.0, 5.0, 9.0, 2.0], Threshold(1.0, 3.5, TightCoeff)) == [0]
  {
    var d := [1.0, 5.0, 9.0, 2.0];
    assert d[..3] == [1.0, 5.0, 9.0];
    assert d[..3][..2] == [1.0, 5.0];
    assert d[..3][..2][..1] == [1.0];
    assert d[..3][..2][..1][..0] == [];
    var wide := Threshold(1.0, 3.5, WideCoeff);
    var tight := Threshold(1.0, 3.5, TightCoeff);
    assert IndicesBelow([1.0], wide) == [0];
    assert IndicesBelow([1.0, 5.0], wide) == [0];
    assert IndicesBelow([1.0, 5.0, 9.0], wide) == [0];
    assert IndicesBelow([1.0], tight) == [0];
    assert IndicesBelow([1.0, 5.0], tight) == [0];
    assert IndicesBelow([1.0, 5.0, 9.0], tight) == [0];
  }
}

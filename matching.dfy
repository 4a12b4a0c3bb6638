/** The per-feature matching pass of the features-matching demo: the distance
    row from one image-1 feature to every image-2 feature, its minimum and
    maximum, the wide band of marked candidates and the animated tight band.
    Features are of any type `F`; the two library distances
    (`descriptorDistanceTo`, `patchCorrelationTo`) and the library standard
    deviation are function parameters, since their code is not part of this
    model. */
module Matching {
  import opened Bands
  import Extraction
  import Animation

  /** The distance the demo uses for one pair: patch correlation when the
      matched kind is the patch, the descriptor distance otherwise. */
  function PairDistance<F>(kind: int, descDist: (F, F) -> real, patchCorr: (F, F) -> real,
                           a: F, b: F): real
  {
    if kind != Extraction.DescAny then descDist(a, b) else patchCorr(a, b)
  }

  /** The distance row of `ft1` against `feats2`, one entry per image-2 feature. */
  function DistanceRow<F>(kind: int, descDist: (F, F) -> real, patchCorr: (F, F) -> real,
                          ft1: F, feats2: seq<F>): seq<real>
  {
    seq(|feats2|, i2 requires 0 <= i2 < |feats2| =>
                    PairDistance(kind, descDist, patchCorr, ft1, feats2[i2]))
  }

  /** Fills the preallocated vector `distances` in place, one entry per
      image-2 feature, with the loop chosen by the matched kind. */
  method FillDistances<F>(kind: int, descDist: (F, F) -> real, patchCorr: (F, F) -> real,
                          ft1: F, feats2: seq<F>, distances: array<real>)
    requires distances.Length == |feats2|
    modifies distances
    ensures distances[..] == DistanceRow(kind, descDist, patchCorr, ft1, feats2)
  {
    if kind != Extraction.DescAny {
      var i2 := 0;
      while i2 < |feats2|
        invariant 0 <= i2 <= |feats2|
        invariant forall j :: 0 <= j < i2 ==> distances[j] == descDist(ft1, feats2[j])
      {
        distances[i2] := descDist(ft1, feats2[i2]);
        i2 := i2 + 1;
      }
    } else {
      var i2 := 0;
      while i2 < |feats2|
        invariant 0 <= i2 <= |feats2|
        invariant forall j :: 0 <= j < i2 ==> distances[j] == patchCorr(ft1, feats2[j])
      {
        distances[i2] := patchCorr(ft1, feats2[i2]);
        i2 := i2 + 1;
      }
    }
  }

  /** `idx` holds the smallest value of `d`, and no earlier entry is as small. */
  ghost predicate IsFirstMinimum(d: seq<real>, idx: nat, value: real)
  {
    idx < |d| && d[idx] == value &&
    (forall i :: 0 <= i < |d| ==> value <= d[i]) &&
    (forall i :: 0 <= i < idx ==> value < d[i])
  }

  /** `idx` holds the largest value of `d`, and no earlier entry is as large. */
  ghost predicate IsFirstMaximum(d: seq<real>, idx: nat, value: real)
  {
    idx < |d| && d[idx] == value &&
    (forall i :: 0 <= i < |d| ==> d[i] <= value) &&
    (forall i :: 0 <= i < idx ==> d[i] < value)
  }

  /** The minimum of a non-empty row and where it first occurs. */
  method MinCoeff(d: seq<real>) returns (value: real, idx: nat)
    requires |d| > 0
    ensures IsFirstMinimum(d, idx, value)
  {
    value, idx := d[0], 0;
    var i := 1;
    while i < |d|
      invariant 1 <= i <= |d|
      invariant IsFirstMinimum(d[..i], idx, value)
    {
      if d[i] < value {
        value, idx := d[i], i;
      }
      i := i + 1;
    }
    assert d[..i] == d;
  }

  /** The maximum of a non-empty row and where it first occurs. */
  method MaxCoeff(d: seq<real>) returns (value: real, idx: nat)
    requires |d| > 0
    ensures IsFirstMaximum(d, idx, value)
  {
    value, idx := d[0], 0;
    var i := 1;
    while i < |d|
      invariant 1 <= i <= |d|
      invariant IsFirstMaximum(d[..i], idx, value)
    {
      if value < d[i] {
        value, idx := d[i], i;
      }
      i := i + 1;
    }
    assert d[..i] == d;
  }

  /** How one image-2 feature is drawn on the copy of image 2: a large red
      cross labelled with its index and distance, or a small gray cross. */
  datatype Marker = RedLabelled(index: nat, dist: real) | Gray

  /** The wide-band pass: every candidate below `minDist + 0.3 * distStd` is
      marked red and appended to `xsBest`/`ysBest`, every other one is marked
      gray. */
  method SelectWideBand(distances: seq<real>, minDist: real, distStd: real)
    returns (xsBest: seq<nat>, ysBest: seq<real>, marks: seq<Marker>)
    ensures xsBest == IndicesBelow(distances, Threshold(minDist, distStd, WideCoeff))
    ensures StrictlyIncreasing(xsBest)
    ensures |ysBest| == |xsBest|
    ensures forall j :: 0 <= j < |xsBest| ==>
              xsBest[j] < |distances| && ysBest[j] == distances[xsBest[j]]
    ensures forall i2 :: 0 <= i2 < |distances| ==>
              (i2 in xsBest <==> distances[i2] < Threshold(minDist, distStd, WideCoeff))
    ensures |marks| == |distances|
    ensures forall i2 :: 0 <= i2 < |distances| ==>
              marks[i2] == (if distances[i2] < Threshold(minDist, distStd, WideCoeff)
                            then RedLabelled(i2, distances[i2]) else Gray)
  {
    var t := Threshold(minDist, distStd, WideCoeff);
    xsBest, ysBest, marks := [], [], [];
    var i2 := 0;
    while i2 < |distances|
      invariant 0 <= i2 <= |distances|
      invariant xsBest == IndicesBelow(distances[..i2], t)
      invariant |ysBest| == |xsBest|
      invariant forall j :: 0 <= j < |xsBest| ==>
                  xsBest[j] < i2 && ysBest[j] == distances[xsBest[j]]
      invariant |marks| == i2
      invariant forall j :: 0 <= j < i2 ==>
                  marks[j] == (if distances[j] < t then RedLabelled(j, distances[j]) else Gray)
    {
      assert distances[..i2 + 1][..i2] == distances[..i2];
      if distances[i2] < t {
        marks := marks + [RedLabelled(i2, distances[i2])];
        xsBest := xsBest + [i2];
        ysBest := ysBest + [distances[i2]];
      } else {
        marks := marks + [Gray];
      }
      i2 := i2 + 1;
    }
    assert distances[..i2] == distances;
    IndicesBelowSpec(distances, t);
  }

  /** Everything one pass of the demo computes for the image-1 feature `ft1`. */
  datatype FeatureMatch = FeatureMatch(
    distances: seq<real>,
    minDist: real, minIdx: nat,   // the best match feats2[minIdx]
    maxDist: real, maxIdx: nat,
    distStd: real,
    xsBest: seq<nat>, ysBest: seq<real>, marks: seq<Marker>,
    frames: seq<Animation.Frame>
  )

  /** `m` is what the demo computes for `ft1` against `feats2`. */
  ghost predicate IsMatchOf<F>(kind: int, descDist: (F, F) -> real, patchCorr: (F, F) -> real,
                               stddev: seq<real> -> real, ft1: F, feats2: seq<F>,
                               m: FeatureMatch)
  {
    m.distances == DistanceRow(kind, descDist, patchCorr, ft1, feats2) &&
    IsFirstMinimum(m.distances, m.minIdx, m.minDist) &&
    IsFirstMaximum(m.distances, m.maxIdx, m.maxDist) &&
    m.distStd == stddev(m.distances) &&
    m.xsBest == IndicesBelow(m.distances, Threshold(m.minDist, m.distStd, WideCoeff)) &&
    |m.ysBest| == |m.xsBest| &&
    (forall j :: 0 <= j < |m.xsBest| ==>
       m.xsBest[j] < |m.distances| && m.ysBest[j] == m.distances[m.xsBest[j]]) &&
    |m.marks| == |m.distances| &&
    (forall i2 :: 0 <= i2 < |m.marks| ==>
       m.marks[i2] == (if m.distances[i2] < Threshold(m.minDist, m.distStd, WideCoeff)
                       then RedLabelled(i2, m.distances[i2]) else Gray)) &&
    Animation.IsAnimation(m.frames, IndicesBelow(m.distances, Threshold(m.minDist, m.distStd, TightCoeff)))
  }

  /** One iteration of the demo's outer loop for the image-1 feature `ft1`.
      The image-2 list must not be empty: the demo takes the minimum of the
      row and then reads `feats2[min_dist_idx]` without a check. */
  method MatchFeature<F>(kind: int, descDist: (F, F) -> real, patchCorr: (F, F) -> real,
                         stddev: seq<real> -> real, ft1: F, feats2: seq<F>)
    returns (m: FeatureMatch)
    requires |feats2| > 0
    ensures IsMatchOf(kind, descDist, patchCorr, stddev, ft1, feats2, m)
    ensures m.minIdx < |feats2|
  {
    var distances := new real[|feats2|];
    FillDistances(kind, descDist, patchCorr, ft1, feats2, distances);
    var row := distances[..];

    var minDist, minIdx := MinCoeff(row);
    var maxDist, maxIdx := MaxCoeff(row);
    var distStd := stddev(row);

    var xsBest, ysBest, marks := SelectWideBand(row, minDist, distStd);
    var frames := Animation.Animate(row, minDist, distStd);

    m := FeatureMatch(row, minDist, minIdx, maxDist, maxIdx, distStd, xsBest, ysBest, marks, frames);
  }

  /** The demo's outer loop over every image-1 feature. */
  method MatchAll<F>(kind: int, descDist: (F, F) -> real, patchCorr: (F, F) -> real,
                     stddev: seq<real> -> real, feats1: seq<F>, feats2: seq<F>)
    returns (passes: seq<FeatureMatch>)
    requires |feats1| > 0 ==> |feats2| > 0
    ensures |passes| == |feats1|
    ensures forall i1 :: 0 <= i1 < |feats1| ==>
              IsMatchOf(kind, descDist, patchCorr, stddev, feats1[i1], feats2, passes[i1])
  {
    passes := [];
    var i1 := 0;
    while i1 < |feats1|
      invariant 0 <= i1 <= |feats1|
      invariant |passes| == i1
      invariant forall j :: 0 <= j < i1 ==>
                  IsMatchOf(kind, descDist, patchCorr, stddev, feats1[j], feats2, passes[j])
    {
      var m := MatchFeature(kind, descDist, patchCorr, stddev, feats1[i1], feats2);
      passes := passes + [m];
      i1 := i1 + 1;
    }
  }

  /** A full pass computes one distance per pair of features; a corollary of
      `IsMatchOf`. */
  lemma PassCoversEveryPair<F>(
    kind: int, descDist: (F, F) -> real, patchCorr: (F, F) -> real,
    stddev: seq<real> -> real, feats1: seq<F>, feats2: seq<F>, passes: seq<FeatureMatch>)
    requires |passes| == |feats1|
    requires forall i1 :: 0 <= i1 < |feats1| ==>
               IsMatchOf(kind, descDist, patchCorr, stddev, feats1[i1], feats2, passes[i1])
    ensures forall i1, i2 :: 0 <= i1 < |feats1| && 0 <= i2 < |feats2| ==>
              i2 < |passes[i1].distances| &&
              passes[i1].distances[i2] == PairDistance(kind, descDist, patchCorr, feats1[i1], feats2[i2])
  {
  }

  /** In one pass, every candidate circled by the animation is also marked red
      and listed in `xsBest`, provided the standard deviation is not negative. */
  lemma CircledAreMarked<F>(kind: int, descDist: (F, F) -> real, patchCorr: (F, F) -> real,
                            stddev: seq<real> -> real, ft1: F, feats2: seq<F>, m: FeatureMatch)
    requires IsMatchOf(kind, descDist, patchCorr, stddev, ft1, feats2, m)
    requires m.distStd >= 0.0
    ensures forall k, i2 :: 0 <= k < |m.frames| && i2 in m.frames[k].circled ==> i2 in m.xsBest
  {
    TightBandWithinWideBand(m.distances, m.minDist, m.distStd);
  }

  /** With zero spread nothing is marked red and nothing is circled: every
      distance is at least the minimum and the comparisons are strict. */
  lemma NoSpreadNoBands<F>(kind: int, descDist: (F, F) -> real, patchCorr: (F, F) -> real,
                           stddev: seq<real> -> real, ft1: F, feats2: seq<F>, m: FeatureMatch)
    requires IsMatchOf(kind, descDist, patchCorr, stddev, ft1, feats2, m)
    requires m.distStd == 0.0
    ensures m.xsBest == [] && m.ysBest == []
    ensures forall i2 :: 0 <= i2 < |m.marks| ==> m.marks[i2] == Gray
    ensures forall k :: 0 <= k < |m.frames| ==> m.frames[k].circled == []
  {
    BandsEmptyWithoutSpread(m.distances, m.minDist, WideCoeff);
    BandsEmptyWithoutSpread(m.distances, m.minDist, TightCoeff);
  }

  /** With a positive spread the best match is marked red and circled. */
  lemma BestMatchHighlighted<F>(kind: int, descDist: (F, F) -> real, patchCorr: (F, F) -> real,
                                stddev: seq<real> -> real, ft1: F, feats2: seq<F>, m: FeatureMatch)
    requires IsMatchOf(kind, descDist, patchCorr, stddev, ft1, feats2, m)
    requires m.distStd > 0.0
    ensures m.minIdx in m.xsBest
    ensures m.marks[m.minIdx] == RedLabelled(m.minIdx, m.minDist)
    ensures forall k :: 0 <= k < |m.frames| ==> m.minIdx in m.frames[k].circled
  {
    BestInBand(m.distances, m.minIdx, m.distStd, WideCoeff);
    BestInBand(m.distances, m.minIdx, m.distStd, TightCoeff);
  }
}

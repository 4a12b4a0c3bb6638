/** Index arithmetic of the descriptor display: a flat spin image is laid out
    as an `nR x nC` matrix in row-major order, and a small descriptor image is
    doubled in both dimensions until one of them reaches 100 pixels. Pixel
    content is not modelled; only sizes and which entry goes where. */
module Display {

  /** The number of columns the demo gives a spin image of `size` entries
      over `rows` range rows: the integer quotient (size_t division). */
  function SpinColumns(size: nat, rows: nat): nat
    requires rows > 0
  {
    size / rows
  }

  /** The flat index the demo reads for matrix cell (r, c). */
  function FlatIndex(r: nat, c: nat, nC: nat): nat
  {
    c + r * nC
  }

  lemma MulLeftMonotone(a: nat, b: nat, n: nat)
    requires a <= b
    ensures a * n <= b * n
  {
    assert b * n == a * n + (b - a) * n;
  }

  /** Every index the reshape reads lies inside the filled part of the flat
      vector: `c + r * nC < nR * nC <= size`. */
  lemma ReshapeIndexInBounds(size: nat, nR: nat, r: nat, c: nat)
    requires nR > 0 && r < nR && c < SpinColumns(size, nR)
    ensures FlatIndex(r, c, SpinColumns(size, nR)) < nR * SpinColumns(size, nR) <= size
  {
    var nC := SpinColumns(size, nR);
    assert c + r * nC < (r + 1) * nC;
    MulLeftMonotone(r + 1, nR, nC);
    assert size == nR * nC + size % nR;
  }

  /** Distinct cells read distinct flat indices: the cell is recovered from
      its index as (index / nC, index % nC). */
  lemma FlatIndexInjective(nC: nat, r: nat, c: nat)
    requires c < nC
    ensures FlatIndex(r, c, nC) / nC == r && FlatIndex(r, c, nC) % nC == c
  {
    var k := FlatIndex(r, c, nC);
    var q, m := k / nC, k % nC;
    assert m + q * nC == k;
    if r < q {
      MulLeftMonotone(r + 1, q, nC);
      assert false;
    } else if q < r {
      MulLeftMonotone(q + 1, r, nC);
      assert false;
    }
  }

  /** Every flat index below `nR * nC` is read, for the cell (k / nC, k % nC). */
  lemma ReshapeCoversPrefix(nR: nat, nC: nat, k: nat)
    requires nC > 0 && k < nR * nC
    ensures k / nC < nR && k % nC < nC
    ensures FlatIndex(k / nC, k % nC, nC) == k
  {
    if k / nC >= nR {
      MulLeftMonotone(nR, k / nC, nC);
      assert false;
    }
  }

  /** Builds the `nR x (size / nR)` matrix of the spin image `spin`, row by
      row; entries past `nR * nC` are not used. */
  method ReshapeSpinImage(spin: seq<real>, nR: nat) returns (m: array2<real>)
    requires nR > 0
    ensures fresh(m)
    ensures m.Length0 == nR && m.Length1 == SpinColumns(|spin|, nR)
    ensures forall r, c :: 0 <= r < m.Length0 && 0 <= c < m.Length1 ==>
              FlatIndex(r, c, m.Length1) < |spin| && m[r, c] == spin[FlatIndex(r, c, m.Length1)]
  {
    var nC := SpinColumns(|spin|, nR);
    m := new real[nR, nC];
    var r := 0;
    while r < nR
      invariant 0 <= r <= nR
      invariant forall i, j :: 0 <= i < r && 0 <= j < nC ==>
                  FlatIndex(i, j, nC) < |spin| && m[i, j] == spin[FlatIndex(i, j, nC)]
    {
      var c := 0;
      while c < nC
        invariant 0 <= c <= nC
        invariant forall i, j :: 0 <= i < r && 0 <= j < nC ==>
                    FlatIndex(i, j, nC) < |spin| && m[i, j] == spin[FlatIndex(i, j, nC)]
        invariant forall j :: 0 <= j < c ==>
                    FlatIndex(r, j, nC) < |spin| && m[r, j] == spin[FlatIndex(r, j, nC)]
      {
        ReshapeIndexInBounds(|spin|, nR, r, c);
        m[r, c] := spin[FlatIndex(r, c, nC)];
        c := c + 1;
      }
      r := r + 1;
    }
  }

  /** The display's size threshold: an image at least this wide or high is
      not enlarged. */
  const MinDisplaySize: nat := 100

  function Pow2(k: nat): (p: nat)
    ensures p >= 1
  {
    if k == 0 then 1 else 2 * Pow2(k - 1)
  }

  /** The sizes after k doublings all stayed below the threshold in both
      dimensions: the loop would still be running after k steps. */
  ghost predicate SmallForSteps(width: nat, height: nat, k: nat)
  {
    forall j :: 0 <= j < k ==>
      width * Pow2(j) < MinDisplaySize && height * Pow2(j) < MinDisplaySize
  }

  /** One more doubling multiplies a size by one more factor of two. */
  lemma DoubleStep(x: nat, k: nat)
    ensures x * Pow2(k + 1) == 2 * (x * Pow2(k))
  {
    assert Pow2(k + 1) == 2 * Pow2(k);
  }

  /** Doubles both dimensions (nearest-neighbour rescale) while the image is
      under 100 pixels in both. A 0 x 0 image would never grow, so one side
      must be positive. */
  method UpscaleForDisplay(width: nat, height: nat) returns (w: nat, h: nat)
    requires width > 0 || height > 0
    ensures w >= MinDisplaySize || h >= MinDisplaySize
    ensures exists k: nat :: w == width * Pow2(k) && h == height * Pow2(k) &&
                             SmallForSteps(width, height, k)
    ensures width >= MinDisplaySize || height >= MinDisplaySize ==> w == width && h == height
  {
    w, h := width, height;
    ghost var k: nat := 0;
    while w < MinDisplaySize && h < MinDisplaySize
      invariant w == width * Pow2(k) && h == height * Pow2(k)
      invariant SmallForSteps(width, height, k)
      invariant w > 0 || h > 0
      decreases 2 * MinDisplaySize - w - h
    {
      DoubleStep(width, k);
      DoubleStep(height, k);
      w, h := w * 2, h * 2;
      k := k + 1;
    }
  }
}

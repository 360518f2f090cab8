/*
 * BitmapUtils.calculateInSampleSize: the power-of-two divisor a bounds-only
 * decode passes back to the decoder so that the decoded bitmap is not much
 * larger than the requested size. The Options argument contributes only its
 * two read fields, outHeight and outWidth. All arithmetic is Java's 32-bit
 * int arithmetic: division rounds toward zero and the doubling wraps.
 */
module BitmapUtils {
  import opened JavaLang

  /** The ArithmeticException a Java division by zero raises. */
  datatype ArithmeticFailure = DivisionByZero

  /**
   * The value inSampleSize holds after j doublings: 2^j up to 2^30, then
   * MIN_VALUE; one doubling more gives 0, which is never divided by here.
   */
  function SampleCandidate(j: nat): (s: Int32)
    requires j <= 31
    ensures s != 0
    ensures j <= 30 ==> s == Pow2(j) && s <= 0x4000_0000
    ensures j == 31 ==> s == INT_MIN
  {
    Pow2Bounds(j);
    Wrap32(Pow2(j))
  }

  lemma Pow2Bounds(j: nat)
    ensures j <= 30 ==> Pow2(j) <= 0x4000_0000
    ensures j == 31 ==> Pow2(j) == 0x8000_0000
    ensures j == 32 ==> Pow2(j) == 0x1_0000_0000
  {
    Pow2Exact30();
    if j <= 30 {
      Pow2Add(j, 30 - j);
      MulAtLeast(Pow2(j), Pow2(30 - j));
    } else if j == 32 {
      assert Pow2(31) == 2 * Pow2(30);
    }
  }

  lemma Pow2Exact30()
    ensures Pow2(30) == 0x4000_0000
  {
    Pow2Add(10, 10);
    Pow2Add(20, 10);
    assert Pow2(10) == 1024;
  }

  /** Doubling the candidate in 32-bit arithmetic gives the next candidate, and 0 after MIN_VALUE. */
  lemma DoubleCandidate(j: nat)
    requires j <= 31
    ensures j < 31 ==> Wrap32(SampleCandidate(j) * 2) == SampleCandidate(j + 1)
    ensures j == 31 ==> Wrap32(SampleCandidate(j) * 2) == 0
  {
    if j < 30 {
      Pow2Bounds(j + 1);
    } else if j == 30 {
      Pow2Bounds(31);
    }
  }

  /** The loop condition: halfHeight / s > reqHeight && halfWidth / s > reqWidth. */
  predicate Keeps(halfHeight: Int32, halfWidth: Int32, reqWidth: Int32, reqHeight: Int32, s: Int32)
    requires s != 0
  {
    Div32(halfHeight, s) > reqHeight && Div32(halfWidth, s) > reqWidth
  }

  /** The guard at the top: the image is taller or wider than requested. */
  predicate NeedsDownscale(outHeight: Int32, outWidth: Int32, reqWidth: Int32, reqHeight: Int32)
  {
    outHeight > reqHeight || outWidth > reqWidth
  }

  /** The loop condition holds for every candidate up to and including MIN_VALUE. */
  predicate KeepsThroughMin(halfHeight: Int32, halfWidth: Int32, reqWidth: Int32, reqHeight: Int32)
  {
    forall j :: 0 <= j <= 31 ==> Keeps(halfHeight, halfWidth, reqWidth, reqHeight, SampleCandidate(j))
  }

  /**
   * k is the first number of doublings after which the loop condition fails:
   * 2^k is the smallest power of two that brings half the height to at most
   * reqHeight or half the width to at most reqWidth.
   */
  predicate FirstStop(halfHeight: Int32, halfWidth: Int32, reqWidth: Int32, reqHeight: Int32, k: nat)
    requires k <= 31
  {
    !Keeps(halfHeight, halfWidth, reqWidth, reqHeight, SampleCandidate(k))
    && forall j :: 0 <= j < k ==> Keeps(halfHeight, halfWidth, reqWidth, reqHeight, SampleCandidate(j))
  }

  method CalculateInSampleSize(outHeight: Int32, outWidth: Int32, reqWidth: Int32, reqHeight: Int32)
    returns (r: Result<Int32, ArithmeticFailure>)
    ensures r.Ok? ==> exists k :: 0 <= k <= 30 && r.value == Pow2(k)
    ensures !NeedsDownscale(outHeight, outWidth, reqWidth, reqHeight) ==> r == Ok(1)
    ensures r.Ok? ==> exists k :: 0 <= k <= 30 && r.value == SampleCandidate(k)
                        && (NeedsDownscale(outHeight, outWidth, reqWidth, reqHeight)
                            ==> FirstStop(Div32(outHeight, 2), Div32(outWidth, 2), reqWidth, reqHeight, k))
    ensures r.Err? <==> NeedsDownscale(outHeight, outWidth, reqWidth, reqHeight)
                        && KeepsThroughMin(Div32(outHeight, 2), Div32(outWidth, 2), reqWidth, reqHeight)
  {
    var height := outHeight;
    var width := outWidth;
    var inSampleSize: Int32 := 1;
    if height > reqHeight || width > reqWidth {
      var halfHeight := Div32(height, 2);
      var halfWidth := Div32(width, 2);
      ghost var k: nat := 0;
      assert SampleCandidate(0) == 1;
      while true
        invariant k <= 32
        invariant k <= 31 ==> inSampleSize == SampleCandidate(k)
        invariant k == 32 ==> inSampleSize == 0
        invariant forall j :: 0 <= j < k && j <= 31 ==> Keeps(halfHeight, halfWidth, reqWidth, reqHeight, SampleCandidate(j))
        decreases 32 - k
      {
        if inSampleSize == 0 {
          assert KeepsThroughMin(halfHeight, halfWidth, reqWidth, reqHeight);
          return Err(DivisionByZero);
        }
        if !(Div32(halfHeight, inSampleSize) > reqHeight && Div32(halfWidth, inSampleSize) > reqWidth) {
          break;
        }
        DoubleCandidate(k);
        inSampleSize := Wrap32(inSampleSize * 2);
        k := k + 1;
      }
      assert FirstStop(halfHeight, halfWidth, reqWidth, reqHeight, k);
      if k == 31 {
        KeepsAtLargest(halfHeight, halfWidth, reqWidth, reqHeight, height, width);
        assert false;
      }
      assert !KeepsThroughMin(halfHeight, halfWidth, reqWidth, reqHeight);
    }
    r := Ok(inSampleSize);
  }

  /**
   * Half of an int is at most 2^30 in size, so dividing it by 2^30 leaves at
   * most 0, and dividing it by MIN_VALUE leaves 0.
   */
  lemma HalfOverLargest(x: Int32)
    ensures Div32(Div32(x, 2), 0x4000_0000) <= 0
    ensures Div32(Div32(x, 2), INT_MIN) == 0
  {
  }

  /**
   * The loop keeps going at 2^30 only when both requested sizes are negative,
   * and then it keeps going at MIN_VALUE too.
   */
  lemma KeepsAtLargest(halfHeight: Int32, halfWidth: Int32, reqWidth: Int32, reqHeight: Int32, height: Int32, width: Int32)
    requires halfHeight == Div32(height, 2) && halfWidth == Div32(width, 2)
    ensures Keeps(halfHeight, halfWidth, reqWidth, reqHeight, SampleCandidate(30)) ==> reqHeight < 0 && reqWidth < 0
    ensures reqHeight < 0 && reqWidth < 0 ==> Keeps(halfHeight, halfWidth, reqWidth, reqHeight, SampleCandidate(31))
  {
    Pow2Exact30();
    HalfOverLargest(height);
    HalfOverLargest(width);
  }

  /** A non-negative requested height or width always ends the loop before the divisor wraps. */
  lemma NonNegativeRequestEnds(outHeight: Int32, outWidth: Int32, reqWidth: Int32, reqHeight: Int32)
    requires reqHeight >= 0 || reqWidth >= 0
    ensures !KeepsThroughMin(Div32(outHeight, 2), Div32(outWidth, 2), reqWidth, reqHeight)
  {
    KeepsAtLargest(Div32(outHeight, 2), Div32(outWidth, 2), reqWidth, reqHeight, outHeight, outWidth);
  }

  /**
   * With both requested sizes negative and a non-negative image size, every
   * candidate keeps the loop going, so the doubling reaches 0.
   */
  lemma NegativeRequestKeeps(outHeight: Int32, outWidth: Int32, reqWidth: Int32, reqHeight: Int32)
    requires outHeight >= 0 && outWidth >= 0 && reqWidth < 0 && reqHeight < 0
    ensures KeepsThroughMin(Div32(outHeight, 2), Div32(outWidth, 2), reqWidth, reqHeight)
  {
    var halfHeight, halfWidth := Div32(outHeight, 2), Div32(outWidth, 2);
    DivNonNegative(outHeight, 2);
    DivNonNegative(outWidth, 2);
    HalfOverLargest(outHeight);
    HalfOverLargest(outWidth);
    forall j | 0 <= j <= 31
      ensures Keeps(halfHeight, halfWidth, reqWidth, reqHeight, SampleCandidate(j))
    {
      if j <= 30 {
        DivNonNegative(halfHeight, SampleCandidate(j));
        DivNonNegative(halfWidth, SampleCandidate(j));
      }
    }
  }

  /**
   * So for a non-negative image size and negative requested sizes the doubling
   * wraps to 0 and the next division throws ArithmeticException.
   */
  method NegativeRequestFails(outHeight: Int32, outWidth: Int32, reqWidth: Int32, reqHeight: Int32)
    returns (r: Result<Int32, ArithmeticFailure>)
    requires outHeight >= 0 && outWidth >= 0 && reqWidth < 0 && reqHeight < 0
    ensures r == Err(DivisionByZero)
  {
    r := CalculateInSampleSize(outHeight, outWidth, reqWidth, reqHeight);
    NegativeRequestKeeps(outHeight, outWidth, reqWidth, reqHeight);
    assert NeedsDownscale(outHeight, outWidth, reqWidth, reqHeight);
    assert r.error.DivisionByZero?;
  }

  /** At most one number of doublings is the first at which the loop stops. */
  lemma FirstStopUnique(halfHeight: Int32, halfWidth: Int32, reqWidth: Int32, reqHeight: Int32, k1: nat, k2: nat)
    requires k1 <= 31 && k2 <= 31
    requires FirstStop(halfHeight, halfWidth, reqWidth, reqHeight, k1)
    requires FirstStop(halfHeight, halfWidth, reqWidth, reqHeight, k2)
    ensures k1 == k2
  {
  }

  /**
   * A 3000 high, 4000 wide image requested at 400 wide, 300 high: half the
   * size is 1500 by 2000, which divided by 1, 2 and 4 still exceeds 300 by
   * 400, and divided by 8 (187 by 250) no longer does.
   */
  lemma WorkedExampleStopsAtThree()
    ensures FirstStop(1500, 2000, 400, 300, 3)
  {
    Pow2Bounds(3);
    assert SampleCandidate(0) == 1 && SampleCandidate(1) == 2 && SampleCandidate(2) == 4 && SampleCandidate(3) == 8;
    forall j | 0 <= j < 3
      ensures Keeps(1500, 2000, 400, 300, SampleCandidate(j))
    {
    }
  }

  method WorkedExample(outHeight: Int32, outWidth: Int32, reqWidth: Int32, reqHeight: Int32)
    returns (r: Result<Int32, ArithmeticFailure>)
    requires outHeight == 3000 && outWidth == 4000 && reqWidth == 400 && reqHeight == 300
    ensures r == Ok(8)
  {
    r := CalculateInSampleSize(outHeight, outWidth, reqWidth, reqHeight);
    NonNegativeRequestEnds(outHeight, outWidth, reqWidth, reqHeight);
    assert Div32(outHeight, 2) == 1500 && Div32(outWidth, 2) == 2000;
    var k :| 0 <= k <= 30 && r.value == SampleCandidate(k) && FirstStop(1500, 2000, 400, 300, k);
    WorkedExampleStopsAtThree();
    FirstStopUnique(1500, 2000, 400, 300, k, 3);
    Pow2Bounds(3);
  }
}

/**
 * The single-frame face-up classifier. A panel region is given as its pixels
 * already converted to hue-saturation-value (the colour conversion itself is
 * outside this model). A face-up panel is dull and bright: low mean
 * saturation and high mean brightness.
 */
module Classifier {

  datatype Hsv = Hsv(hue: int, sat: int, val: int)

  /** The pixels of one panel region, row after row. */
  type Region = seq<Hsv>

  const SatThreshold: int := 85
  const ValThreshold: int := 100

  function SatSum(r: Region): int {
    if r == [] then 0 else SatSum(r[..|r| - 1]) + r[|r| - 1].sat
  }

  function ValSum(r: Region): int {
    if r == [] then 0 else ValSum(r[..|r| - 1]) + r[|r| - 1].val
  }

  /** The arithmetic mean of the saturation channel over the region. */
  ghost function MeanSat(r: Region): real
    requires |r| > 0
  {
    SatSum(r) as real / |r| as real
  }

  /** The arithmetic mean of the brightness channel over the region. */
  ghost function MeanVal(r: Region): real
    requires |r| > 0
  {
    ValSum(r) as real / |r| as real
  }

  /** Comparing a mean with a whole threshold is comparing the sum with threshold times count. */
  lemma MeanBelow(sum: int, n: int, t: int)
    requires n > 0
    ensures sum as real / n as real < t as real <==> sum < t * n
  {
    var q := sum as real / n as real;
    assert q * n as real == sum as real;
    assert (t * n) as real == t as real * n as real;
    if q < t as real {
      assert q * n as real < t as real * n as real;
    } else {
      assert q * n as real >= t as real * n as real;
    }
  }

  lemma MeanAbove(sum: int, n: int, t: int)
    requires n > 0
    ensures sum as real / n as real > t as real <==> sum > t * n
  {
    var q := sum as real / n as real;
    assert q * n as real == sum as real;
    assert (t * n) as real == t as real * n as real;
    if q > t as real {
      assert q * n as real > t as real * n as real;
    } else {
      assert q * n as real <= t as real * n as real;
    }
  }

  /**
   * Face-up estimate for one frame. An empty region is never face-up;
   * otherwise both comparisons are strict, on the exact means.
   */
  function IsFaceUp(region: Region): (up: bool)
    ensures |region| == 0 ==> !up
    ensures |region| > 0 ==>
      (up <==> MeanSat(region) < SatThreshold as real && MeanVal(region) > ValThreshold as real)
  {
    if |region| == 0 then false
    else
      MeanBelow(SatSum(region), |region|, SatThreshold);
      MeanAbove(ValSum(region), |region|, ValThreshold);
      SatSum(region) < SatThreshold * |region| && ValSum(region) > ValThreshold * |region|
  }
}

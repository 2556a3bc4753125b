/**
 * `normalize_pixel_map`: rescales a height map so that its largest sample
 * becomes 255, writing into a fresh map of the same side.
 *
 * Both passes walk the grid with `enumerate_pixels`. The first keeps the
 * largest sample seen, starting from zero, so the divisor is the maximum of
 * zero and all samples; the second divides every sample by it and
 * multiplies by 255. There is no minimum and no guard against a zero
 * divisor.
 */
module Normalization {
  import opened Arith
  import opened PixelMaps

  /** The value the largest sample is mapped to. */
  const WHITE: real := 255.0

  /**
   * The divisor of the second pass: starting from zero, each sample in
   * buffer order replaces the running value when it is strictly larger.
   */
  function Peak(m: seq<real>): real {
    if |m| == 0 then 0.0
    else
      var p := Peak(m[..|m| - 1]);
      if m[|m| - 1] > p then m[|m| - 1] else p
  }

  /** `Peak` is the maximum of zero and all samples: no sample exceeds it, and it is zero or one of them. */
  lemma {:induction false} PeakIsMax(m: seq<real>)
    ensures 0.0 <= Peak(m)
    ensures forall i :: 0 <= i < |m| ==> m[i] <= Peak(m)
    ensures Peak(m) == 0.0 || exists i :: 0 <= i < |m| && m[i] == Peak(m)
    decreases |m|
  {
    if |m| > 0 {
      var init := m[..|m| - 1];
      PeakIsMax(init);
      assert forall i :: 0 <= i < |init| ==> init[i] == m[i];
      if Peak(init) != 0.0 && m[|m| - 1] <= Peak(init) {
        var i :| 0 <= i < |init| && init[i] == Peak(init);
        assert m[i] == Peak(m);
      }
    }
  }

  /** One sample divided by `peak` and multiplied by 255. */
  function Level(v: real, peak: real): real
    requires peak != 0.0
  {
    v / peak * WHITE
  }

  /** Every sample divided by `peak` and multiplied by 255. */
  function Rescaled(m: seq<real>, peak: real): (r: seq<real>)
    requires peak != 0.0
    ensures |r| == |m|
  {
    seq(|m|, i requires 0 <= i < |m| => Level(m[i], peak))
  }

  lemma LevelBounds(a: real, p: real)
    requires 0.0 < p && a <= p
    ensures Level(a, p) <= WHITE
    ensures 0.0 <= Level(a, p) <==> 0.0 <= a
    ensures a == p ==> Level(a, p) == WHITE
  {
    assert a / p <= 1.0;
    assert p / p == 1.0;
  }

  /**
   * With a positive peak, no output exceeds 255, an output is non-negative
   * exactly when its sample is, and a cell holding the peak maps to 255.
   */
  lemma RescaledBounds(m: seq<real>)
    requires Peak(m) > 0.0
    ensures forall i :: 0 <= i < |m| ==>
              Rescaled(m, Peak(m))[i] <= WHITE && (0.0 <= Rescaled(m, Peak(m))[i] <==> 0.0 <= m[i])
    ensures exists i :: 0 <= i < |m| && Rescaled(m, Peak(m))[i] == WHITE
  {
    var p := Peak(m);
    var r := Rescaled(m, p);
    PeakIsMax(m);
    forall i | 0 <= i < |m|
      ensures r[i] <= WHITE && (0.0 <= r[i] <==> 0.0 <= m[i])
    {
      LevelBounds(m[i], p);
    }
    var i :| 0 <= i < |m| && m[i] == p;
    LevelBounds(m[i], p);
    assert r[i] == WHITE;
  }

  /**
   * `normalize_pixel_map`: a fresh zeroed map of the same side; one pass of
   * `enumerate_pixels` keeps the largest sample, starting from zero; a
   * second pass sets each cell of the new map to its sample divided by that
   * value, times 255.
   */
  method NormalizePixelMap(pMap: PixelMap) returns (newPMap: PixelMap)
    requires pMap.Valid() && Peak(pMap.buffer[..]) > 0.0
    ensures fresh(newPMap) && fresh(newPMap.buffer)
    ensures newPMap.size == pMap.size && newPMap.Valid()
    ensures newPMap.buffer[..] == Rescaled(pMap.buffer[..], Peak(pMap.buffer[..]))
  {
    var size := pMap.Size();
    newPMap := new PixelMap(size);
    var maxValue := LargestSample(pMap);
    RescaleInto(pMap, maxValue, newPMap);
  }

  /** The first pass of `normalize_pixel_map`: the largest of zero and all samples, in enumeration order. */
  method LargestSample(pMap: PixelMap) returns (maxValue: real)
    requires pMap.Valid()
    ensures maxValue == Peak(pMap.buffer[..])
  {
    var size := pMap.Size();
    maxValue := 0.0;
    var pixels := pMap.EnumeratePixels();
    ghost var k := 0;
    while true
      modifies pixels
      invariant 0 <= k <= Mul(size, size) && pixels.size == size
      invariant pixels.Remaining() == RowMajor(size)[k..]
      invariant maxValue == Peak(pMap.buffer[..k])
      decreases |pixels.Remaining()|
    {
      var item := pixels.Next();
      if item.None? {
        break;
      }
      var c := item.value;
      assert c == RowMajor(size)[k];
      RowMajorItem(size, k);
      var fValue := pMap.GetPixel(c.x, c.y);
      if fValue > maxValue {
        maxValue := fValue;
      }
      assert pMap.buffer[..k + 1][..k] == pMap.buffer[..k];
      k := k + 1;
    }
    assert pMap.buffer[..k] == pMap.buffer[..];
  }

  /** The second pass of `normalize_pixel_map`: each cell of `newPMap` becomes its sample in `pMap` rescaled by `maxValue`. */
  method RescaleInto(pMap: PixelMap, maxValue: real, newPMap: PixelMap)
    requires pMap.Valid() && newPMap.size == pMap.size && newPMap.Valid() && maxValue != 0.0
    requires newPMap.buffer != pMap.buffer
    modifies newPMap.buffer
    ensures newPMap.buffer[..] == Rescaled(pMap.buffer[..], maxValue)
  {
    var size := pMap.Size();
    var pixels := pMap.EnumeratePixels();
    ghost var k := 0;
    while true
      modifies pixels, newPMap.buffer
      invariant 0 <= k <= Mul(size, size) && pixels.size == size
      invariant pixels.Remaining() == RowMajor(size)[k..]
      invariant forall i :: 0 <= i < k ==> newPMap.buffer[i] == Level(pMap.buffer[i], maxValue)
      decreases |pixels.Remaining()|
    {
      var item := pixels.Next();
      if item.None? {
        break;
      }
      var c := item.value;
      assert c == RowMajor(size)[k];
      RowMajorItem(size, k);
      var fValue := pMap.GetPixel(c.x, c.y);
      fValue := fValue / maxValue;
      fValue := fValue * WHITE;
      newPMap.SetPixel(c.x, c.y, fValue);
      k := k + 1;
    }
    assert newPMap.buffer[..] == Rescaled(pMap.buffer[..], maxValue);
  }
}

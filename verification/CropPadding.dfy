/**
 * `Pyramid::createExtendedCompoundImage`: the part of the requested box inside the CRS area is
 * rounded to whole pixels and widened by one pixel all around, at an unchanged resolution.
 */
module CropPadding {
  datatype Box = Box(xmin: real, ymin: real, xmax: real, ymax: real)

  /** What is asked from the level, if anything. */
  datatype Request = OnlyNoData | Window(box: Box, width: int, height: int)

  /** `lround`: nearest integer, halves away from zero. */
  function Lround(x: real): int {
    if x >= 0.0 then (x + 0.5).Floor else -(-x + 0.5).Floor
  }

  lemma LroundIsNearest(x: real)
    ensures -0.5 <= Lround(x) as real - x <= 0.5
    ensures x >= 0.0 ==> Lround(x) as real - x > -0.5
    ensures x <= 0.0 ==> Lround(x) as real - x < 0.5
    ensures x >= 0.0 ==> Lround(x) >= 0 && (Lround(x) == 0 <==> x < 0.5)
  {
  }

  /** `part` of a length `whole` that is `pixels` pixels long, in pixels, before rounding. */
  function InPixels(part: real, whole: real, pixels: int): real
    requires whole > 0.0
  {
    pixels as real * (part / whole)
  }

  /** The part rounds to no pixel and is less than a fifth of the whole. */
  predicate Negligible(part: real, whole: real, pixels: int)
    requires whole > 0.0
  {
    InPixels(part, whole, pixels) < 0.5 && 5.0 * part < whole
  }

  /**
   * `lo .. hi`, `n` pixels long, pads `part`: it keeps the resolution of the whole, starts one
   * pixel before the part and ends half a pixel to one pixel and a half after it.
   */
  predicate Pads(lo: real, hi: real, n: int, partLo: real, partHi: real, whole: real, pixels: int)
    requires whole > 0.0 && pixels > 0
  {
    var res := whole / pixels as real;
    && n == Lround(InPixels(partHi - partLo, whole, pixels)) + 2
    && hi - lo == res * n as real
    && lo == partLo - res
    && partHi + 0.5 * res <= hi <= partHi + 1.5 * res
  }

  /** The resolution of the cropped part, as the server computes it, is that of the whole. */
  lemma SameResolution(part: real, whole: real, pixels: real) returns (res: real)
    requires part > 0.0 && whole > 0.0 && pixels > 0.0
    ensures part / whole > 0.0 && pixels * (part / whole) > 0.0
    ensures res == part / (pixels * (part / whole)) == whole / pixels > 0.0
    ensures res * (pixels * (part / whole)) == part
  {
    var q := part / whole;
    assert q * whole == part && q > 0.0;
    var p := pixels * q;
    Product(pixels, q);
    res := whole / pixels;
    assert res * pixels == whole;
    assert res * p == (res * pixels) * q == part;
    QuotientIs(part, p, res);
    assert res > 0.0 by { if res <= 0.0 { NonPositive(res, pixels); } }
  }

  lemma Product(x: real, y: real)
    requires x > 0.0 && y > 0.0
    ensures x * y > 0.0
  {
  }

  lemma NonPositive(x: real, y: real)
    requires x <= 0.0 && y > 0.0
    ensures x * y <= 0.0
  {
  }

  lemma QuotientIs(x: real, y: real, z: real)
    requires y != 0.0 && z * y == x
    ensures x / y == z
  {
  }

  lemma Scale(res: real, delta: real)
    requires res > 0.0 && -0.5 <= delta <= 0.5
    ensures -0.5 * res <= res * delta <= 0.5 * res
  {
    Mul(res, delta + 0.5);
    Mul(res, 0.5 - delta);
  }

  lemma Mul(x: real, y: real)
    requires x > 0.0 && y >= 0.0
    ensures x * y >= 0.0
  {
  }

  lemma Margin(partHi: real, res: real, shift: real)
    requires -0.5 * res <= shift <= 0.5 * res
    ensures partHi + 0.5 * res <= partHi + (shift + res) <= partHi + 1.5 * res
  {
  }

  lemma Distribute(res: real, n: real, px: real, part: real)
    requires res * px == part
    ensures res * (n - px) == res * n - part
    ensures res * (n + 2.0) == res * n + 2.0 * res
  {
  }

  lemma Inverse(part: real, whole: real)
    requires part > 0.0 && whole > 0.0 && part / whole > 0.0
    ensures 1.0 / (part / whole) > 5.0 <==> 5.0 * part < whole
  {
    var q := part / whole;
    assert q * whole == part;
    var r := 1.0 / q;
    assert r * q == 1.0;
    Compare(r, 5.0, q);
    Compare(whole, 5.0 * part, q);
    assert (5.0 * q) * whole == 5.0 * part;
    Compare(1.0, 5.0 * q, whole);
  }

  /** What is left out, in the terms of the source: the rounded size and the inverse of the ratio. */
  lemma NegligibleIs(part: real, whole: real, pixels: int)
    requires part > 0.0 && whole > 0.0 && pixels > 0
    ensures part / whole > 0.0
    ensures Negligible(part, whole, pixels)
      <==> Lround(pixels as real * (part / whole)) == 0 && 1.0 / (part / whole) > 5.0
  {
    var res := SameResolution(part, whole, pixels as real);
    LroundIsNearest(pixels as real * (part / whole));
    Inverse(part, whole);
  }

  lemma Compare(x: real, y: real, z: real)
    requires z > 0.0
    ensures x > y <==> x * z > y * z
  {
    if x > y { Product(x - y, z); }
    if x < y { Product(y - x, z); }
  }

  /** The adjustment of one axis: the new bounds, the new size, and whether the part is too small. */
  method AdjustAxis(partLo: real, partHi: real, whole: real, pixels: int)
    returns (lo: real, hi: real, n: int, tooSmall: bool)
    requires partLo < partHi && whole > 0.0 && pixels > 0
    ensures Pads(lo, hi, n, partLo, partHi, whole, pixels) && n >= 2
    ensures tooSmall <==> Negligible(partHi - partLo, whole, pixels)
  {
    ghost var wanted := SameResolution(partHi - partLo, whole, pixels as real);
    var ratio := (partHi - partLo) / whole;
    var exact := pixels as real * ratio;
    n := Lround(exact);
    LroundIsNearest(exact);
    Inverse(partHi - partLo, whole);
    var delta := n as real - exact;
    var res := (partHi - partLo) / exact;
    assert res == wanted;
    Scale(res, delta);
    assert res * exact == partHi - partLo;
    Distribute(res, n as real, exact, partHi - partLo);
    hi := partHi + (res * delta + res);
    lo := partLo - res;
    n := n + 2;
    Margin(partHi, res, res * delta);
    tooSmall := 1.0 / ratio > 5.0 && n < 3;
  }

  /** A crop is left out when it is empty, or rounds to no pixel and is less than a fifth of the box on one axis. */
  method PadCrop(bbox: Box, crop: Box, width: int, height: int) returns (r: Request)
    requires bbox.xmin < bbox.xmax && bbox.ymin < bbox.ymax && width > 0 && height > 0
    requires crop.xmin <= crop.xmax && crop.ymin <= crop.ymax
    ensures r == OnlyNoData <==>
      || crop.xmin == crop.xmax || crop.ymin == crop.ymax
      || Negligible(crop.xmax - crop.xmin, bbox.xmax - bbox.xmin, width)
      || Negligible(crop.ymax - crop.ymin, bbox.ymax - bbox.ymin, height)
    ensures r.Window? ==>
      && Pads(r.box.xmin, r.box.xmax, r.width, crop.xmin, crop.xmax, bbox.xmax - bbox.xmin, width)
      && Pads(r.box.ymin, r.box.ymax, r.height, crop.ymin, crop.ymax, bbox.ymax - bbox.ymin, height)
  {
    if crop.xmin == crop.xmax || crop.ymin == crop.ymax {
      return OnlyNoData;
    }
    var ymin, ymax, newHeight, flat := AdjustAxis(crop.ymin, crop.ymax, bbox.ymax - bbox.ymin, height);
    var xmin, xmax, newWidth, thin := AdjustAxis(crop.xmin, crop.xmax, bbox.xmax - bbox.xmin, width);
    if thin || flat {
      r := OnlyNoData;
    } else if newWidth > 0 && newHeight > 0 {
      r := Window(Box(xmin, ymin, xmax, ymax), newWidth, newHeight);
    } else {
      r := OnlyNoData;
    }
  }

  /**
   * A window has the resolution of the requested image and contains the crop it was made from, with
   * one pixel before it and half a pixel to one and a half after it.
   */
  lemma WindowKeepsResolution(lo: real, hi: real, n: int, partLo: real, partHi: real, whole: real, pixels: int)
    requires whole > 0.0 && pixels > 0 && partLo < partHi && Pads(lo, hi, n, partLo, partHi, whole, pixels)
    ensures n >= 2 && (hi - lo) / n as real == whole / pixels as real
    ensures lo < partLo && partHi < hi
    ensures var res := whole / pixels as real;
      lo == partLo - res && partHi + 0.5 * res <= hi <= partHi + 1.5 * res
    ensures var exact := pixels as real * ((partHi - partLo) / whole); exact + 1.5 < n as real <= exact + 2.5
  {
    var res := SameResolution(partHi - partLo, whole, pixels as real);
    LroundIsNearest(InPixels(partHi - partLo, whole, pixels));
    QuotientIs(hi - lo, n as real, res);
  }
}

/**
 * `Level::getwindow`: a window of pixels is cut into cropped tiles, which are composed again row by
 * row. The two axes follow the same rule, so the geometry is that of one axis, used twice.
 */
module TileWindow {
  import opened CInt
  import opened Options
  import opened SlabAddress

  // ----- The division helpers -----

  /** `euclideanDivisionQuotient` */
  function Quotient(i: int, n: int): int
    requires n > 0
  {
    var q := ToInt32(TruncDiv(i, n));
    var q := if q < 0 then ToInt32(q - 1) else q;
    if q == 0 && i < 0 then -1 else q
  }

  /** `euclideanDivisionRemainder` */
  function Remainder(i: int, n: int): int
    requires n > 0
  {
    var r := ToInt32(TruncMod(i, n));
    if r < 0 then r + n else r
  }

  /** The quotient fits an `int` with room for one step either way. */
  predicate QuotientFits(i: int, n: int)
    requires n > 0
  {
    -TWO31 < i / n < TWO31 - 1
  }

  /** Not a negative multiple of `n`. */
  predicate IsExact(i: int, n: int)
    requires n > 0
  {
    i >= 0 || i % n != 0
  }

  lemma TruncDivIs(i: int, n: int)
    requires n > 0
    ensures TruncDiv(i, n) == if IsExact(i, n) && i < 0 then i / n + 1 else i / n
  {
    if i < 0 {
      var q, r := i / n, i % n;
      assert -i == (-q) * n - r;
      if r == 0 {
        DivModUnique(-q, 0, n);
      } else {
        assert (-q) * n - r == (-q - 1) * n + (n - r);
        DivModUnique(-q - 1, n - r, n);
      }
    }
  }

  /** The quotient is the floor exactly for indices that are not negative multiples; there it is one too low. */
  lemma QuotientIsFloorIffExact(i: int, n: int)
    requires n > 0 && QuotientFits(i, n)
    ensures Quotient(i, n) == i / n <==> IsExact(i, n)
    ensures !IsExact(i, n) ==> Quotient(i, n) == i / n - 1
  {
    TruncDivIs(i, n);
    NegativeQuotient(i, n);
  }

  lemma NegativeQuotient(i: int, n: int)
    requires n > 0
    ensures i < 0 ==> i / n < 0
    ensures i >= 0 ==> i / n >= 0
  {
    if i < 0 && i / n >= 0 { MulMonotone(0, i / n, n); }
    if i >= 0 && i / n < 0 { MulMonotone(i / n + 1, 0, n); }
  }

  lemma RemainderIsModulo(i: int, n: int)
    requires 0 < n < TWO31
    ensures Remainder(i, n) == i % n
  {
    TruncDivIs(i, n);
    var q := i / n;
    assert q * n + i % n == i;
    assert (q + 1) * n == q * n + n;
  }

  // ----- One axis -----

  /** Pixels `lo .. hi` on tiles of `n` pixels: the first tile, the number of tiles, what the ends cut off. */
  datatype Axis = Axis(first: int, count: int, lead: int, trail: int)

  function AxisOf(lo: int, hi: int, n: int): Axis
    requires n > 0
  {
    var first := Quotient(lo, n);
    Axis(first, ToInt32(Quotient(hi - 1, n) - first + 1), Remainder(lo, n), n - Remainder(hi - 1, n) - 1)
  }

  /** Cut off before and after in tile `k`. */
  function Before(a: Axis, k: int): int { if k == 0 then a.lead else 0 }

  function After(a: Axis, k: int): int { if k == a.count - 1 then a.trail else 0 }

  /** The pixels that tile `k` shows, counted from the origin of the matrix. */
  function Start(a: Axis, n: int, k: int): int { (a.first + k) * n + Before(a, k) }

  function End(a: Axis, n: int, k: int): int { (a.first + k + 1) * n - After(a, k) }

  function Size(a: Axis, n: int, k: int): int { n - Before(a, k) - After(a, k) }

  predicate AxisFits(lo: int, hi: int, n: int)
    requires n > 0
  {
    && n < TWO31 && QuotientFits(lo, n) && QuotientFits(hi - 1, n)
    && -TWO31 < (hi - 1) / n - lo / n < TWO31 - 2
  }

  /** The tiles of an axis, each of positive size, meet end to end from `lo` to `hi`. */
  predicate Tiles(a: Axis, n: int, lo: int, hi: int) {
    && a.count >= 1
    && (forall k :: 0 <= k < a.count ==> Size(a, n, k) > 0)
    && Start(a, n, 0) == lo && End(a, n, a.count - 1) == hi
    && (forall k :: 0 <= k < a.count - 1 ==> End(a, n, k) == Start(a, n, k + 1))
  }

  lemma AxisIs(lo: int, hi: int, n: int)
    requires n > 0 && AxisFits(lo, hi, n)
    ensures var a := AxisOf(lo, hi, n);
            && a.first == (if IsExact(lo, n) then lo / n else lo / n - 1)
            && a.first + a.count - 1 == (if IsExact(hi - 1, n) then (hi - 1) / n else (hi - 1) / n - 1)
            && a.lead == lo % n && a.trail == n - (hi - 1) % n - 1
  {
    QuotientIsFloorIffExact(lo, n);
    QuotientIsFloorIffExact(hi - 1, n);
    RemainderIsModulo(lo, n);
    RemainderIsModulo(hi - 1, n);
  }

  lemma EndsOfAxis(a: Axis, n: int, k: int)
    ensures Start(a, n, k) == a.first * n + k * n + Before(a, k)
    ensures End(a, n, k) == a.first * n + k * n + n - After(a, k)
  {
    assert (a.first + k) * n == a.first * n + k * n;
    assert (a.first + k + 1) * n == (a.first + k) * n + n;
  }

  lemma Whole(i: int, n: int)
    requires n > 0
    ensures i / n * n + i % n == i && (i / n - 1) * n + i % n == i - n
  {
    assert (i / n - 1) * n == i / n * n - n;
  }

  lemma FirstIsLo(lo: int, hi: int, n: int)
    requires n > 0 && AxisFits(lo, hi, n)
    ensures Start(AxisOf(lo, hi, n), n, 0) == lo <==> IsExact(lo, n)
  {
    AxisIs(lo, hi, n);
    Whole(lo, n);
  }

  lemma LastIsHi(lo: int, hi: int, n: int)
    requires n > 0 && AxisFits(lo, hi, n)
    ensures End(AxisOf(lo, hi, n), n, AxisOf(lo, hi, n).count - 1) == hi <==> IsExact(hi - 1, n)
  {
    var a := AxisOf(lo, hi, n);
    var last := a.first + a.count - 1;
    AxisIs(lo, hi, n);
    Whole(hi - 1, n);
    assert End(a, n, a.count - 1) == (last + 1) * n - a.trail == last * n + n - a.trail;
  }

  /** Where the window starts and ends on the tiles. */
  lemma FirstAndLast(lo: int, hi: int, n: int)
    requires n > 0 && AxisFits(lo, hi, n)
    ensures var a := AxisOf(lo, hi, n);
            && (Start(a, n, 0) == lo <==> IsExact(lo, n))
            && (End(a, n, a.count - 1) == hi <==> IsExact(hi - 1, n))
  {
    FirstIsLo(lo, hi, n);
    LastIsHi(lo, hi, n);
  }

  /**
   * The tiles of an accepted axis show exactly the pixels of the window, each once, if and only if
   * the window is not inverted and neither end asks for the quotient of a negative multiple.
   */
  lemma AxisIsPixelExactIff(lo: int, hi: int, n: int)
    requires n > 0 && AxisFits(lo, hi, n) && AxisOf(lo, hi, n).count >= 1
    ensures Tiles(AxisOf(lo, hi, n), n, lo, hi) <==> lo < hi && IsExact(lo, n) && IsExact(hi - 1, n)
  {
    var a := AxisOf(lo, hi, n);
    FirstAndLast(lo, hi, n);
    forall k | 0 <= k < a.count
      ensures End(a, n, k) - Start(a, n, k) == Size(a, n, k)
    {
      EndsOfAxis(a, n, k);
    }
    if Tiles(a, n, lo, hi) {
      TilesAreOrdered(a, n, lo, hi, a.count - 1);
    }
    if lo < hi && IsExact(lo, n) && IsExact(hi - 1, n) {
      AxisIs(lo, hi, n);
      forall k | 0 <= k < a.count
        ensures Size(a, n, k) > 0
        ensures k < a.count - 1 ==> End(a, n, k) == Start(a, n, k + 1)
      {
        EndsOfAxis(a, n, k);
        EndsOfAxis(a, n, k + 1);
        assert (k + 1) * n == k * n + n;
      }
    }
  }

  lemma {:induction false} TilesAreOrdered(a: Axis, n: int, lo: int, hi: int, k: int)
    requires Tiles(a, n, lo, hi) && 0 <= k < a.count
    ensures lo <= Start(a, n, k) < End(a, n, k)
    decreases k
  {
    EndsOfAxis(a, n, k);
    assert Size(a, n, k) > 0;
    if k > 0 {
      TilesAreOrdered(a, n, lo, hi, k - 1);
      assert End(a, n, k - 1) == Start(a, n, k);
    }
  }

  /** An accepted axis, inverted or not, has tiles of positive size exactly when the window is not inverted. */
  lemma PositiveSizesIffNotInverted(lo: int, hi: int, n: int)
    requires n > 0 && AxisFits(lo, hi, n) && AxisOf(lo, hi, n).count >= 1
    requires IsExact(lo, n) && IsExact(hi - 1, n)
    ensures (forall k :: 0 <= k < AxisOf(lo, hi, n).count ==> Size(AxisOf(lo, hi, n), n, k) > 0) <==> lo < hi
  {
    var a := AxisOf(lo, hi, n);
    AxisIsPixelExactIff(lo, hi, n);
    FirstAndLast(lo, hi, n);
    if lo >= hi {
      EndsOfAxis(a, n, 0);
      EndsOfAxis(a, n, a.count - 1);
      if a.count > 1 { MulMonotone(1, a.count - 1, n); AxisIs(lo, hi, n); }
      assert Size(a, n, 0) <= 0;
    }
  }

  // ----- Walking through the composed image -----

  /** Tile and offset that position `i` falls on when sizes are laid end to end. */
  function Locate(sizes: seq<int>, i: int): (int, int)
    decreases |sizes|
  {
    if sizes == [] || i < sizes[0] then (0, i)
    else
      var r := Locate(sizes[1..], i - sizes[0]);
      (r.0 + 1, r.1)
  }

  function Sum(sizes: seq<int>): int {
    if sizes == [] then 0 else sizes[0] + Sum(sizes[1..])
  }

  /** The sizes of tiles `k` and after. */
  function Sizes(a: Axis, n: int, k: int): (s: seq<int>)
    requires 0 <= k <= a.count
    ensures |s| == a.count - k
    decreases a.count - k
  {
    if k == a.count then [] else [Size(a, n, k)] + Sizes(a, n, k + 1)
  }

  lemma {:induction false} LocateOnTiles(a: Axis, n: int, lo: int, hi: int, k: int, i: int)
    requires n > 0 && Tiles(a, n, lo, hi) && 0 <= k < a.count && 0 <= i < hi - Start(a, n, k)
    ensures var r := Locate(Sizes(a, n, k), i);
            && 0 <= r.0 < a.count - k && 0 <= r.1 < Size(a, n, k + r.0)
            && Start(a, n, k + r.0) + r.1 == Start(a, n, k) + i
    ensures Sum(Sizes(a, n, k)) == hi - Start(a, n, k)
    decreases a.count - k
  {
    EndsOfAxis(a, n, k);
    assert Size(a, n, k) > 0;
    if k < a.count - 1 {
      assert End(a, n, k) == Start(a, n, k + 1);
      EndsOfAxis(a, n, k + 1);
      assert Sizes(a, n, k)[1..] == Sizes(a, n, k + 1);
      SizeBelow(a, n, lo, hi, k + 1);
      LocateOnTiles(a, n, lo, hi, k + 1, if i < Size(a, n, k) then 0 else i - Size(a, n, k));
    } else {
      assert Sizes(a, n, k)[1..] == [];
    }
  }

  lemma {:induction false} SizeBelow(a: Axis, n: int, lo: int, hi: int, k: int)
    requires Tiles(a, n, lo, hi) && 0 <= k < a.count
    ensures Start(a, n, k) < hi
    decreases a.count - k
  {
    EndsOfAxis(a, n, k);
    assert Size(a, n, k) > 0;
    if k < a.count - 1 {
      assert End(a, n, k) == Start(a, n, k + 1);
      SizeBelow(a, n, lo, hi, k + 1);
    }
  }

  /** Position `i` of the composed axis shows pixel `lo + i`: tile and place in the tile are its quotient and remainder. */
  lemma AxisShowsPixel(lo: int, hi: int, n: int, i: int)
    requires n > 0 && AxisFits(lo, hi, n) && AxisOf(lo, hi, n).count >= 1
    requires lo < hi && IsExact(lo, n) && IsExact(hi - 1, n) && 0 <= i < hi - lo
    ensures var a := AxisOf(lo, hi, n);
            var r := Locate(Sizes(a, n, 0), i);
            && 0 <= r.0 < a.count
            && a.first + r.0 == (lo + i) / n && Before(a, r.0) + r.1 == (lo + i) % n
    ensures Sum(Sizes(AxisOf(lo, hi, n), n, 0)) == hi - lo
  {
    var a := AxisOf(lo, hi, n);
    AxisIsPixelExactIff(lo, hi, n);
    LocateOnTiles(a, n, lo, hi, 0, i);
    var r := Locate(Sizes(a, n, 0), i);
    RemainderIsModulo(lo, n);
    RemainderIsModulo(hi - 1, n);
    DivModUnique(a.first + r.0, Before(a, r.0) + r.1, n);
  }

  // ----- The window -----

  datatype Window = Window(xmin: int, ymin: int, xmax: int, ymax: int)

  /** A tile and what is cut off its four sides. */
  datatype Crop = Crop(x: int, y: int, left: int, top: int, right: int, bottom: int)

  /** `Undefined`: a negative number of tiles was accepted and the source declares arrays of that length. */
  datatype Result = Failed(error: int) | Undefined | Single(tile: Crop) | Compound(rows: seq<seq<Crop>>) {
    function Rows(): seq<seq<Crop>>
      requires Single? || Compound?
    {
      if Single? then [[tile]] else rows
    }
  }

  function XAxis(tm: TileMatrix, w: Window): Axis
    requires tm.tileW > 0
  {
    AxisOf(w.xmin, w.xmax, tm.tileW)
  }

  function YAxis(tm: TileMatrix, w: Window): Axis
    requires tm.tileH > 0
  {
    AxisOf(w.ymin, w.ymax, tm.tileH)
  }

  function CropAt(ax: Axis, ay: Axis, x: int, y: int): Crop {
    Crop(ax.first + x, ay.first + y, Before(ax, x), Before(ay, y), After(ax, x), After(ay, y))
  }

  predicate IsImageOf(rows: seq<seq<Crop>>, ax: Axis, ay: Axis) {
    && |rows| == ay.count
    && (forall y :: 0 <= y < |rows| ==> |rows[y]| == ax.count)
    && (forall x, y :: 0 <= y < |rows| && 0 <= x < |rows[y]| ==> rows[y][x] == CropAt(ax, ay, x, y))
  }

  /** Zeroes but for one number at the start and one at the end. */
  method Edges(n: int, first: int, isFirst: bool) returns (a: array<int>)
    requires n >= 1
    ensures fresh(a) && a.Length == n
    ensures forall k :: 0 <= k < n ==> a[k] == if k == (if isFirst then 0 else n - 1) then first else 0
  {
    a := new int[n](_ => 0);
    a[if isFirst then 0 else n - 1] := first;
  }

  /** The matrix of cropped tiles. */
  method Cut(tileXmin: int, tileYmin: int, left: array<int>, top: array<int>, right: array<int>, bottom: array<int>,
             ghost ax: Axis, ghost ay: Axis)
    returns (rows: seq<seq<Crop>>)
    requires ax.first == tileXmin && ay.first == tileYmin
    requires left.Length == right.Length == ax.count && top.Length == bottom.Length == ay.count
    requires forall x :: 0 <= x < ax.count ==> left[x] == Before(ax, x) && right[x] == After(ax, x)
    requires forall y :: 0 <= y < ay.count ==> top[y] == Before(ay, y) && bottom[y] == After(ay, y)
    ensures IsImageOf(rows, ax, ay)
  {
    rows := [];
    for y := 0 to top.Length
      invariant |rows| == y
      invariant forall j :: 0 <= j < y ==> |rows[j]| == ax.count
      invariant forall i, j :: 0 <= j < y && 0 <= i < |rows[j]| ==> rows[j][i] == CropAt(ax, ay, i, j)
    {
      var row := [];
      for x := 0 to left.Length
        invariant |row| == x
        invariant forall i :: 0 <= i < x ==> row[i] == CropAt(ax, ay, i, y)
      {
        row := row + [Crop(tileXmin + x, tileYmin + y, left[x], top[y], right[x], bottom[y])];
      }
      rows := rows + [row];
    }
  }

  /** Compared as an unsigned number, a negative one is larger than every positive one. */
  predicate TooMany(nb: int, maxTiles: int) { nb >= maxTiles || (nb < 0 && nb + TWO32 >= maxTiles) }

  lemma UnsignedComparison(nb: int, maxTiles: int)
    requires IsInt32(nb) && 0 <= maxTiles < TWO32
    ensures ToUInt32(nb) >= maxTiles <==> TooMany(nb, maxTiles)
  {
  }

  /** Every negative number of tiles is refused if and only if the limit is at most 2^31. */
  lemma NegativeIsRefusedIff(maxTiles: int)
    requires 0 <= maxTiles < TWO32
    ensures (forall nb :: IsInt32(nb) && nb < 0 ==> TooMany(nb, maxTiles)) <==> maxTiles <= TWO31
  {
    if maxTiles > TWO31 {
      assert IsInt32(-TWO31) && !TooMany(-TWO31, maxTiles);
    }
  }

  /** The tiles of one axis: no error, too many of them (2), or none (1). */
  method TilesOfAxis(lo: int, hi: int, n: int, maxTiles: int) returns (a: Axis, error: int)
    requires n > 0 && 0 <= maxTiles < TWO32
    ensures a == AxisOf(lo, hi, n)
    ensures error == if TooMany(a.count, maxTiles) then 2 else if a.count == 0 then 1 else 0
  {
    UnsignedComparison(ToInt32(Quotient(hi - 1, n) - Quotient(lo, n) + 1), maxTiles);
    var tileMin := Quotient(lo, n);
    var tileMax := Quotient(hi - 1, n);
    var nb := ToInt32(tileMax - tileMin + 1);
    a := Axis(tileMin, nb, Remainder(lo, n), n - Remainder(hi - 1, n) - 1);
    if ToUInt32(nb) >= maxTiles {
      error := 2;
    } else if nb == 0 {
      error := 1;
    } else {
      error := 0;
    }
  }

  /**
   * Accepted windows have at least one tile and fewer than the allowed number on each axis. A
   * negative number of tiles, compared as an unsigned number, is refused unless the limit, which is
   * read as a signed number, is larger still.
   */
  method GetWindow(tm: TileMatrix, w: Window, maxTileX: int, maxTileY: int) returns (r: Result)
    requires tm.tileW > 0 && tm.tileH > 0 && 0 <= maxTileX < TWO32 && 0 <= maxTileY < TWO32
    ensures var nbx, nby := XAxis(tm, w).count, YAxis(tm, w).count;
            var okX, okY := nbx != 0 && !TooMany(nbx, maxTileX), nby != 0 && !TooMany(nby, maxTileY);
            && (r.Single? || r.Compound? <==> 1 <= nbx < maxTileX && 1 <= nby < maxTileY)
            && (r.Undefined? <==> okX && okY && (nbx < 0 || nby < 0))
            && (r == Failed(1) <==> || (nbx == 0 < maxTileX) || (okX && nby == 0 < maxTileY))
            && (r.Failed? ==> r.error == 1 || r.error == 2)
            && (r.Single? <==> nbx == nby == 1 < maxTileX && 1 < maxTileY)
    ensures maxTileX <= TWO31 && maxTileY <= TWO31 ==> !r.Undefined?
    ensures r.Single? || r.Compound? ==> IsImageOf(r.Rows(), XAxis(tm, w), YAxis(tm, w))
  {
    var ax, errorX := TilesOfAxis(w.xmin, w.xmax, tm.tileW, maxTileX);
    if errorX != 0 { return Failed(errorX); }
    var ay, errorY := TilesOfAxis(w.ymin, w.ymax, tm.tileH, maxTileY);
    if errorY != 0 { return Failed(errorY); }
    if ax.count < 0 || ay.count < 0 { return Undefined; }
    var left := Edges(ax.count, ax.lead, true);
    var top := Edges(ay.count, ay.lead, true);
    var right := Edges(ax.count, ax.trail, false);
    var bottom := Edges(ay.count, ay.trail, false);
    var rows := Cut(ax.first, ay.first, left, top, right, bottom, ax, ay);
    if ax.count == 1 && ay.count == 1 {
      r := Single(rows[0][0]);
    } else {
      r := Compound(rows);
    }
  }

  function Widths(row: seq<Crop>, tileW: int): (s: seq<int>)
    ensures |s| == |row|
  {
    seq(|row|, k requires 0 <= k < |row| => tileW - row[k].left - row[k].right)
  }

  function Heights(rows: seq<seq<Crop>>, tileH: int): (s: seq<int>)
    requires forall y :: 0 <= y < |rows| ==> rows[y] != []
    ensures |s| == |rows|
  {
    seq(|rows|, k requires 0 <= k < |rows| => tileH - rows[k][0].top - rows[k][0].bottom)
  }

  /** A pixel of a tile. */
  datatype Pixel = Pixel(tileX: int, tileY: int, u: int, v: int)

  /** What the composed image shows at column `i` of line `j`: rows on top of each other, tiles side by side. */
  function PixelAt(rows: seq<seq<Crop>>, tm: TileMatrix, i: int, j: int): Option<Pixel>
    requires forall y :: 0 <= y < |rows| ==> rows[y] != []
  {
    var (y, v) := Locate(Heights(rows, tm.tileH), j);
    if !(0 <= y < |rows|) then None
    else
      var (x, u) := Locate(Widths(rows[y], tm.tileW), i);
      if !(0 <= x < |rows[y]|) then None
      else
        var c := rows[y][x];
        Some(Pixel(c.x, c.y, c.left + u, c.top + v))
  }

  lemma {:induction false} SizesAt(a: Axis, n: int, k: int, j: int)
    requires 0 <= k && 0 <= j < a.count - k
    ensures Sizes(a, n, k)[j] == Size(a, n, k + j)
    decreases a.count - k
  {
    if j > 0 { SizesAt(a, n, k + 1, j - 1); }
  }

  lemma WidthsAreSizes(rows: seq<seq<Crop>>, tm: TileMatrix, ax: Axis, ay: Axis, y: int)
    requires IsImageOf(rows, ax, ay) && ax.count >= 1 && 0 <= y < ay.count
    ensures Widths(rows[y], tm.tileW) == Sizes(ax, tm.tileW, 0)
  {
    forall k | 0 <= k < ax.count
      ensures Widths(rows[y], tm.tileW)[k] == Sizes(ax, tm.tileW, 0)[k]
    {
      SizesAt(ax, tm.tileW, 0, k);
    }
  }

  lemma HeightsAreSizes(rows: seq<seq<Crop>>, tm: TileMatrix, ax: Axis, ay: Axis)
    requires IsImageOf(rows, ax, ay) && ax.count >= 1 && ay.count >= 1
    ensures Heights(rows, tm.tileH) == Sizes(ay, tm.tileH, 0)
  {
    forall k | 0 <= k < ay.count
      ensures Heights(rows, tm.tileH)[k] == Sizes(ay, tm.tileH, 0)[k]
    {
      SizesAt(ay, tm.tileH, 0, k);
      assert rows[k][0] == CropAt(ax, ay, 0, k);
    }
  }

  /** What a caller can check before the call, on each axis. */
  predicate WindowIsExact(tm: TileMatrix, w: Window)
    requires tm.tileW > 0 && tm.tileH > 0
  {
    && w.xmin < w.xmax && IsExact(w.xmin, tm.tileW) && IsExact(w.xmax - 1, tm.tileW)
    && w.ymin < w.ymax && IsExact(w.ymin, tm.tileH) && IsExact(w.ymax - 1, tm.tileH)
  }

  predicate WindowFits(tm: TileMatrix, w: Window)
    requires tm.tileW > 0 && tm.tileH > 0
  {
    AxisFits(w.xmin, w.xmax, tm.tileW) && AxisFits(w.ymin, w.ymax, tm.tileH)
  }

  /**
   * The image of an accepted window shows at (i, j) the pixel (xmin + i, ymin + j) of the matrix,
   * at its place in its tile; the widths of a row add up to the window's and so do the heights.
   */
  lemma WindowIsPixelExact(tm: TileMatrix, w: Window, rows: seq<seq<Crop>>, i: int, j: int)
    requires tm.tileW > 0 && tm.tileH > 0 && WindowFits(tm, w) && WindowIsExact(tm, w)
    requires XAxis(tm, w).count >= 1 && YAxis(tm, w).count >= 1 && IsImageOf(rows, XAxis(tm, w), YAxis(tm, w))
    requires 0 <= i < w.xmax - w.xmin && 0 <= j < w.ymax - w.ymin
    ensures PixelAt(rows, tm, i, j) ==
              Some(Pixel((w.xmin + i) / tm.tileW, (w.ymin + j) / tm.tileH, (w.xmin + i) % tm.tileW, (w.ymin + j) % tm.tileH))
    ensures Sum(Heights(rows, tm.tileH)) == w.ymax - w.ymin
    ensures forall y :: 0 <= y < |rows| ==> Sum(Widths(rows[y], tm.tileW)) == w.xmax - w.xmin
  {
    var ax, ay := XAxis(tm, w), YAxis(tm, w);
    AxisShowsPixel(w.xmin, w.xmax, tm.tileW, i);
    AxisShowsPixel(w.ymin, w.ymax, tm.tileH, j);
    SumsOfImage(tm, rows, ax, ay);
    PixelOfImage(tm, rows, ax, ay, i, j);
  }

  lemma SumsOfImage(tm: TileMatrix, rows: seq<seq<Crop>>, ax: Axis, ay: Axis)
    requires IsImageOf(rows, ax, ay) && ax.count >= 1 && ay.count >= 1
    ensures Sum(Heights(rows, tm.tileH)) == Sum(Sizes(ay, tm.tileH, 0))
    ensures forall y :: 0 <= y < |rows| ==> Sum(Widths(rows[y], tm.tileW)) == Sum(Sizes(ax, tm.tileW, 0))
  {
    HeightsAreSizes(rows, tm, ax, ay);
    forall y | 0 <= y < ay.count
      ensures Sum(Widths(rows[y], tm.tileW)) == Sum(Sizes(ax, tm.tileW, 0))
    {
      WidthsAreSizes(rows, tm, ax, ay, y);
    }
  }

  /** The pixel shown is found on each axis by itself. */
  lemma PixelOfImage(tm: TileMatrix, rows: seq<seq<Crop>>, ax: Axis, ay: Axis, i: int, j: int)
    requires IsImageOf(rows, ax, ay) && ax.count >= 1 && ay.count >= 1
    requires 0 <= Locate(Sizes(ax, tm.tileW, 0), i).0 < ax.count
    requires 0 <= Locate(Sizes(ay, tm.tileH, 0), j).0 < ay.count
    ensures var (x, u) := Locate(Sizes(ax, tm.tileW, 0), i);
            var (y, v) := Locate(Sizes(ay, tm.tileH, 0), j);
            PixelAt(rows, tm, i, j) == Some(Pixel(ax.first + x, ay.first + y, Before(ax, x) + u, Before(ay, y) + v))
  {
    HeightsAreSizes(rows, tm, ax, ay);
    var y := Locate(Sizes(ay, tm.tileH, 0), j).0;
    WidthsAreSizes(rows, tm, ax, ay, y);
    var x := Locate(Sizes(ax, tm.tileW, 0), i).0;
    assert rows[y][x] == CropAt(ax, ay, x, y);
  }

  // ----- Georeferenced boxes -----

  /** The box `getTile` gives to a cropped tile. */
  function CropBox(tm: TileMatrix, c: Crop): Box {
    Box(tm.x0 + (c.x * tm.tileW) as real * tm.res + c.left as real * tm.res,
        tm.y0 - ((c.y + 1) * tm.tileH) as real * tm.res + c.bottom as real * tm.res,
        tm.x0 + ((c.x + 1) * tm.tileW) as real * tm.res - c.right as real * tm.res,
        tm.y0 - (c.y * tm.tileH) as real * tm.res - c.top as real * tm.res)
  }

  /** Where pixel `p` starts, from the west and from the north. */
  function East(tm: TileMatrix, p: int): real { tm.x0 + tm.res * p as real }

  function South(tm: TileMatrix, p: int): real { tm.y0 - tm.res * p as real }

  /** The box that the reprojecting `getbbox` gives to the whole image. */
  function WindowBox(tm: TileMatrix, w: Window): Box {
    Box(East(tm, w.xmin), South(tm, w.ymax), East(tm, w.xmax), South(tm, w.ymin))
  }

  /** The box of a cropped tile is the box of the pixels it shows. */
  lemma CropBoxIsItsPixels(tm: TileMatrix, ax: Axis, ay: Axis, x: int, y: int)
    ensures CropBox(tm, CropAt(ax, ay, x, y)) ==
              WindowBox(tm, Window(Start(ax, tm.tileW, x), Start(ay, tm.tileH, y),
                                   End(ax, tm.tileW, x), End(ay, tm.tileH, y)))
  {
    WestAndEast(tm, CropAt(ax, ay, x, y));
    NorthAndSouth(tm, CropAt(ax, ay, x, y));
  }

  lemma WestAndEast(tm: TileMatrix, c: Crop)
    ensures CropBox(tm, c).xmin == East(tm, c.x * tm.tileW + c.left)
    ensures CropBox(tm, c).xmax == East(tm, (c.x + 1) * tm.tileW - c.right)
  {
    EastOf(tm, c.x * tm.tileW, c.left);
    EastOf(tm, (c.x + 1) * tm.tileW, c.right);
  }

  lemma NorthAndSouth(tm: TileMatrix, c: Crop)
    ensures CropBox(tm, c).ymax == South(tm, c.y * tm.tileH + c.top)
    ensures CropBox(tm, c).ymin == South(tm, (c.y + 1) * tm.tileH - c.bottom)
  {
    SouthOf(tm, c.y * tm.tileH, c.top);
    SouthOf(tm, (c.y + 1) * tm.tileH, c.bottom);
  }

  lemma Scaled(res: real, p: int, q: int)
    ensures res * (p + q) as real == p as real * res + q as real * res
    ensures res * (p - q) as real == p as real * res - q as real * res
  {
  }

  lemma EastOf(tm: TileMatrix, p: int, q: int)
    ensures tm.x0 + p as real * tm.res + q as real * tm.res == East(tm, p + q)
    ensures tm.x0 + p as real * tm.res - q as real * tm.res == East(tm, p - q)
  {
    Scaled(tm.res, p, q);
  }

  lemma SouthOf(tm: TileMatrix, p: int, q: int)
    ensures tm.y0 - p as real * tm.res - q as real * tm.res == South(tm, p + q)
    ensures tm.y0 - p as real * tm.res + q as real * tm.res == South(tm, p - q)
  {
    Scaled(tm.res, p, q);
  }

  lemma NextStarts(a: Axis, n: int, lo: int, hi: int, k: int)
    requires Tiles(a, n, lo, hi) && 0 <= k < a.count
    ensures Start(a, n, k) == if k == 0 then lo else End(a, n, k - 1)
    ensures k == a.count - 1 ==> End(a, n, k) == hi
  {
    if k > 0 { assert End(a, n, k - 1) == Start(a, n, k - 1 + 1); }
  }

  /** `b` lies to the right of `a`, or first in the window. */
  lemma NeighboursInRow(tm: TileMatrix, w: Window, ax: Axis, ay: Axis, x: int, y: int)
    requires Tiles(ax, tm.tileW, w.xmin, w.xmax) && 0 <= x < ax.count
    ensures var b := CropBox(tm, CropAt(ax, ay, x, y));
            && b.xmin == (if x == 0 then WindowBox(tm, w).xmin else CropBox(tm, CropAt(ax, ay, x - 1, y)).xmax)
            && (x == ax.count - 1 ==> b.xmax == WindowBox(tm, w).xmax)
  {
    NextStarts(ax, tm.tileW, w.xmin, w.xmax, x);
    CropBoxIsItsPixels(tm, ax, ay, x, y);
    CropBoxIsItsPixels(tm, ax, ay, x - 1, y);
  }

  lemma NeighboursInColumn(tm: TileMatrix, w: Window, ax: Axis, ay: Axis, x: int, y: int)
    requires Tiles(ay, tm.tileH, w.ymin, w.ymax) && 0 <= y < ay.count
    ensures var b := CropBox(tm, CropAt(ax, ay, x, y));
            && b.ymax == (if y == 0 then WindowBox(tm, w).ymax else CropBox(tm, CropAt(ax, ay, x, y - 1)).ymin)
            && (y == ay.count - 1 ==> b.ymin == WindowBox(tm, w).ymin)
  {
    NextStarts(ay, tm.tileH, w.ymin, w.ymax, y);
    CropBoxIsItsPixels(tm, ax, ay, x, y);
    CropBoxIsItsPixels(tm, ax, ay, x, y - 1);
  }

  /** The boxes of neighbours share an edge, and together they make up the window's box. */
  lemma CropBoxesAbut(tm: TileMatrix, w: Window, rows: seq<seq<Crop>>, x: int, y: int)
    requires tm.tileW > 0 && tm.tileH > 0 && WindowFits(tm, w) && WindowIsExact(tm, w)
    requires XAxis(tm, w).count >= 1 && YAxis(tm, w).count >= 1 && IsImageOf(rows, XAxis(tm, w), YAxis(tm, w))
    requires 0 <= y < |rows| && 0 <= x < |rows[y]|
    ensures var b := CropBox(tm, rows[y][x]);
            && b.xmin == (if x == 0 then WindowBox(tm, w).xmin else CropBox(tm, rows[y][x - 1]).xmax)
            && b.ymax == (if y == 0 then WindowBox(tm, w).ymax else CropBox(tm, rows[y - 1][x]).ymin)
            && (x == |rows[y]| - 1 ==> b.xmax == WindowBox(tm, w).xmax)
            && (y == |rows| - 1 ==> b.ymin == WindowBox(tm, w).ymin)
  {
    AxisIsPixelExactIff(w.xmin, w.xmax, tm.tileW);
    AxisIsPixelExactIff(w.ymin, w.ymax, tm.tileH);
    NeighboursInRow(tm, w, XAxis(tm, w), YAxis(tm, w), x, y);
    NeighboursInColumn(tm, w, XAxis(tm, w), YAxis(tm, w), x, y);
  }
}

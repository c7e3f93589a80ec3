/**
 * Addressing of tiles in slabs (`Level`): the range test, the slab a tile is stored in, its entries
 * in the slab's index, and the boxes of tiles, slabs and level limits.
 */
module SlabAddress {
  import opened CInt
  import opened Options

  const ROK4_IMAGE_HEADER_SIZE := 2048

  datatype TileMatrix = TileMatrix(x0: real, y0: real, res: real, tileW: int, tileH: int)

  datatype Level = Level(
    tm: TileMatrix, tilesPerWidth: int, tilesPerHeight: int,
    minTileCol: int, maxTileCol: int, minTileRow: int, maxTileRow: int)

  datatype Box = Box(xmin: real, ymin: real, xmax: real, ymax: real)

  predicate Valid(l: Level) {
    && l.tm.res > 0.0 && l.tm.tileW > 0 && l.tm.tileH > 0
    && 0 < l.tilesPerWidth < TWO32 && 0 < l.tilesPerHeight < TWO32
  }

  // ----- The range test of getTile -----

  /** `int` indices compared with `uint32_t` limits. */
  predicate InLimits(t: int, lo: int, hi: int) { !(ToUInt32(t) < lo || ToUInt32(t) > hi) }

  predicate Accepted(l: Level, col: int, row: int) {
    InLimits(col, l.minTileCol, l.maxTileCol) && InLimits(row, l.minTileRow, l.maxTileRow)
  }

  /** The test means what it says exactly when the upper limit is below 2^31 or no tile is allowed. */
  lemma RangeTestIsExact(lo: int, hi: int)
    requires 0 <= lo < TWO32 && 0 <= hi < TWO32
    ensures (forall t :: -0x8000_0000 <= t < 0x8000_0000 ==> (InLimits(t, lo, hi) <==> lo <= t <= hi))
       <==> hi < 0x8000_0000 || hi < lo
  {
    if hi >= TWO31 && lo <= hi {
      assert IsInt32(hi - TWO32) && InLimits(hi - TWO32, lo, hi);
    }
  }

  // ----- Slab coordinates and index -----

  datatype Address = Address(slabX: int, slabY: int, n: int)

  /** The tile's place in its slab, row by row. */
  function Place(l: Level, x: int, y: int): int
    requires Valid(l)
  {
    (y % l.tilesPerHeight) * l.tilesPerWidth + x % l.tilesPerWidth
  }

  /** `getPath` refuses negative indices; `n` is the place, computed in `uint32_t` and kept in an `int`. */
  function AddressOf(l: Level, x: int, y: int): Option<Address>
    requires Valid(l)
  {
    if x < 0 || y < 0 then None
    else Some(Address(x / l.tilesPerWidth, y / l.tilesPerHeight, ToInt32(Place(l, x, y))))
  }

  function Min(a: int, b: int): int { if a <= b then a else b }

  /** The last place that tiles with `int` indices have in a slab. */
  function LastPlace(l: Level): int {
    (Min(l.tilesPerHeight, TWO31) - 1) * l.tilesPerWidth + Min(l.tilesPerWidth, TWO31) - 1
  }

  predicate PlacesFit(l: Level) { LastPlace(l) < TWO31 }

  predicate IsIndex(t: int) { 0 <= t < TWO31 }

  lemma PlaceIsBelowLast(l: Level, x: int, y: int)
    requires Valid(l) && IsIndex(x) && IsIndex(y)
    ensures 0 <= Place(l, x, y) <= LastPlace(l)
  {
    DivMod(x, l.tilesPerWidth);
    DivMod(y, l.tilesPerHeight);
    ModIsBelow(x, l.tilesPerWidth);
    ModIsBelow(y, l.tilesPerHeight);
    MulMonotone(y % l.tilesPerHeight, Min(l.tilesPerHeight, TWO31) - 1, l.tilesPerWidth);
    MulMonotone(0, y % l.tilesPerHeight, l.tilesPerWidth);
  }

  lemma ModIsBelow(x: int, d: int)
    requires IsIndex(x) && d > 0
    ensures x % d <= Min(d, TWO31) - 1
  {
    DivMod(x, d);
    MulMonotone(0, x / d, d);
  }

  /** `n` is the place of every tile exactly when the last place is an `int`. */
  lemma PlacesAreExactIff(l: Level)
    requires Valid(l)
    ensures (forall x, y :: IsIndex(x) && IsIndex(y) ==> AddressOf(l, x, y).value.n == Place(l, x, y)) <==> PlacesFit(l)
  {
    forall x, y | IsIndex(x) && IsIndex(y)
      ensures 0 <= Place(l, x, y) <= LastPlace(l)
    {
      PlaceIsBelowLast(l, x, y);
    }
    var x, y := Min(l.tilesPerWidth, TWO31) - 1, Min(l.tilesPerHeight, TWO31) - 1;
    DivModUnique(0, x, l.tilesPerWidth);
    DivModUnique(0, y, l.tilesPerHeight);
    assert IsIndex(x) && IsIndex(y) && Place(l, x, y) == LastPlace(l);
  }

  /** A tile that the range test accepts has an address exactly when its indices are not negative. */
  lemma AcceptedTileHasAddress(l: Level, col: int, row: int)
    requires Valid(l) && IsInt32(col) && IsInt32(row) && Accepted(l, col, row)
    ensures AddressOf(l, col, row).Some? <==> IsIndex(col) && IsIndex(row)
    ensures l.maxTileCol < TWO31 && l.maxTileRow < TWO31 && 0 <= l.minTileCol && 0 <= l.minTileRow ==>
      AddressOf(l, col, row).Some? && l.minTileCol <= col <= l.maxTileCol && l.minTileRow <= row <= l.maxTileRow
  {
  }

  function TileAt(l: Level, a: Address): (int, int)
    requires Valid(l)
  {
    (a.slabX * l.tilesPerWidth + a.n % l.tilesPerWidth, a.slabY * l.tilesPerHeight + a.n / l.tilesPerWidth)
  }

  function TilesPerSlab(l: Level): int { l.tilesPerWidth * l.tilesPerHeight }

  lemma DivModUnique(q: int, r: int, d: int)
    requires 0 <= r < d
    ensures (q * d + r) / d == q && (q * d + r) % d == r
  {
    var x := q * d + r;
    var q', r' := x / d, x % d;
    assert q' * d + r' == x;
    if q' < q { MulGap(q', q, d); }
    if q < q' { MulGap(q, q', d); }
  }

  lemma MulGap(a: int, b: int, d: int)
    requires a < b && d > 0
    ensures a * d + d <= b * d
  {
    MulMonotone(a + 1, b, d);
  }

  lemma MulMonotone(a: int, b: int, d: int)
    requires a <= b && d >= 0
    ensures a * d <= b * d
  {
  }

  lemma DivMod(x: int, d: int)
    requires x >= 0 && d > 0
    ensures x / d >= 0 && 0 <= x % d < d && x / d * d + x % d == x
  {
    if x / d < 0 { MulMonotone(x / d + 1, 0, d); }
  }

  /** Row-major numbering of `h` rows of `w`. */
  lemma PackUnpack(w: int, h: int, r: int, c: int)
    requires 0 <= r < h && 0 <= c < w
    ensures 0 <= r * w + c < w * h
    ensures (r * w + c) / w == r && (r * w + c) % w == c
  {
    DivModUnique(r, c, w);
    MulGap(r, h, w);
    MulMonotone(0, r, w);
  }

  lemma UnpackPack(w: int, h: int, n: int)
    requires w > 0 && 0 <= n < w * h
    ensures 0 <= n / w < h && 0 <= n % w < w && (n / w) * w + n % w == n
  {
    if n / w >= h { MulMonotone(h, n / w, w); }
  }

  /** Every tile has an address, and the address gives the tile back. */
  lemma AddressReadsBack(l: Level, x: int, y: int)
    requires Valid(l) && PlacesFit(l) && IsIndex(x) && IsIndex(y)
    ensures AddressOf(l, x, y).Some?
    ensures var a := AddressOf(l, x, y).value; a.slabX >= 0 && a.slabY >= 0 && 0 <= a.n < TilesPerSlab(l)
    ensures TileAt(l, AddressOf(l, x, y).value) == (x, y)
  {
    var w, h := l.tilesPerWidth, l.tilesPerHeight;
    DivMod(x, w);
    DivMod(y, h);
    PackUnpack(w, h, y % h, x % w);
    PlaceIsBelowLast(l, x, y);
    assert AddressOf(l, x, y).value.n == (y % h) * w + x % w;
  }

  /**
   * The slab holds the tiles from its first column and row on, and its places go row by row: the next
   * tile of the row has the next place, the tile below the place `tilesPerWidth` further.
   */
  lemma PlacesGoByRow(l: Level, x: int, y: int)
    requires Valid(l) && PlacesFit(l) && IsIndex(x) && IsIndex(y)
    ensures var a := AddressOf(l, x, y).value;
      && a.slabX * l.tilesPerWidth <= x < a.slabX * l.tilesPerWidth + l.tilesPerWidth
      && a.slabY * l.tilesPerHeight <= y < a.slabY * l.tilesPerHeight + l.tilesPerHeight
      && (x == a.slabX * l.tilesPerWidth && y == a.slabY * l.tilesPerHeight ==> a.n == 0)
      && (IsIndex(x + 1) && x + 1 < a.slabX * l.tilesPerWidth + l.tilesPerWidth ==>
            AddressOf(l, x + 1, y) == Some(a.(n := a.n + 1)))
      && (IsIndex(y + 1) && y + 1 < a.slabY * l.tilesPerHeight + l.tilesPerHeight ==>
            AddressOf(l, x, y + 1) == Some(a.(n := a.n + l.tilesPerWidth)))
  {
    var w, h := l.tilesPerWidth, l.tilesPerHeight;
    PlaceIsBelowLast(l, x, y);
    DivMod(x, w);
    DivMod(y, h);
    if IsIndex(x + 1) && x + 1 < x / w * w + w {
      PlaceIsBelowLast(l, x + 1, y);
      DivModUnique(x / w, x % w + 1, w);
    }
    if IsIndex(y + 1) && y + 1 < y / h * h + h {
      PlaceIsBelowLast(l, x, y + 1);
      DivModUnique(y / h, y % h + 1, h);
      assert (y % h + 1) * w == y % h * w + w;
    }
  }

  lemma QuotientBack(s: int, r: int, d: int)
    requires s >= 0 && 0 <= r < d
    ensures s * d + r >= 0 && (s * d + r) / d == s && (s * d + r) % d == r
  {
    DivModUnique(s, r, d);
    MulMonotone(0, s, d);
  }

  /** Every address of a tile with `int` indices is the address of that tile: addressing is a bijection. */
  lemma TileReadsBack(l: Level, a: Address)
    requires Valid(l) && PlacesFit(l) && a.slabX >= 0 && a.slabY >= 0 && 0 <= a.n < TilesPerSlab(l)
    requires IsIndex(TileAt(l, a).0) && IsIndex(TileAt(l, a).1)
    ensures AddressOf(l, TileAt(l, a).0, TileAt(l, a).1) == Some(a)
  {
    UnpackPack(l.tilesPerWidth, l.tilesPerHeight, a.n);
    QuotientBack(a.slabX, a.n % l.tilesPerWidth, l.tilesPerWidth);
    QuotientBack(a.slabY, a.n / l.tilesPerWidth, l.tilesPerHeight);
    PlaceIsBelowLast(l, TileAt(l, a).0, TileAt(l, a).1);
  }

  /** What `getEncodedTile` asks the store for; all in `uint32_t`. */
  datatype IndexEntry = IndexEntry(posoff: int, possize: int, headerSize: int)

  function EntryOf(l: Level, n: int): IndexEntry {
    IndexEntry(ToUInt32(ROK4_IMAGE_HEADER_SIZE + 4 * n),
               ToUInt32(ROK4_IMAGE_HEADER_SIZE + TilesPerSlab(l) * 4 + 4 * n),
               ToUInt32(ROK4_IMAGE_HEADER_SIZE + 2 * 4 * TilesPerSlab(l)))
  }

  datatype Slot = OffsetOf(n: int) | SizeOf(n: int)

  /** The 4 bytes of a slot. */
  predicate InSlot(l: Level, s: Slot, b: int) {
    match s
    case OffsetOf(n) => EntryOf(l, n).posoff <= b < EntryOf(l, n).posoff + 4
    case SizeOf(n) => EntryOf(l, n).possize <= b < EntryOf(l, n).possize + 4
  }

  predicate IndexFits(l: Level) { ROK4_IMAGE_HEADER_SIZE + 8 * TilesPerSlab(l) <= TWO32 }

  /** The slot that owns a byte of the index. */
  function Owner(l: Level, b: int): Slot { OwnerAmong(TilesPerSlab(l), b) }

  function OwnerAmong(count: int, b: int): Slot {
    var k := (b - ROK4_IMAGE_HEADER_SIZE) / 4;
    if k < count then OffsetOf(k) else SizeOf(k - count)
  }

  /**
   * The slots of all tiles of a slab are disjoint and fill the index between the header and the
   * tile data: a byte is in a slot exactly when it lies there and the slot is its owner.
   */
  lemma IndexIsPartitioned(l: Level, s: Slot, b: int)
    requires Valid(l) && IndexFits(l) && 0 <= s.n < TilesPerSlab(l)
    ensures InSlot(l, s, b) <==>
              && ROK4_IMAGE_HEADER_SIZE <= b < ROK4_IMAGE_HEADER_SIZE + 8 * TilesPerSlab(l)
              && Owner(l, b) == s
    ensures ROK4_IMAGE_HEADER_SIZE + 8 * TilesPerSlab(l) < TWO32 ==>
      EntryOf(l, s.n).headerSize == ROK4_IMAGE_HEADER_SIZE + 8 * TilesPerSlab(l)
  {
    EntryIsExact(l, s.n);
    OwnerIs(TilesPerSlab(l), s, b);
  }

  lemma EntryIsExact(l: Level, n: int)
    requires Valid(l) && IndexFits(l) && 0 <= n < TilesPerSlab(l)
    ensures EntryOf(l, n).posoff == ROK4_IMAGE_HEADER_SIZE + 4 * n
    ensures EntryOf(l, n).possize == ROK4_IMAGE_HEADER_SIZE + 4 * TilesPerSlab(l) + 4 * n
  {
  }

  lemma OwnerIs(count: int, s: Slot, b: int)
    requires 0 <= s.n < count
    ensures var first := if s.OffsetOf? then 4 * s.n else 4 * count + 4 * s.n;
            first <= b - ROK4_IMAGE_HEADER_SIZE < first + 4 <==>
              && ROK4_IMAGE_HEADER_SIZE <= b < ROK4_IMAGE_HEADER_SIZE + 8 * count
              && OwnerAmong(count, b) == s
  {
  }

  /** The offsets do not wrap exactly when the whole index fits below 2^32. */
  lemma OffsetsAreExactIffIndexFits(l: Level)
    requires Valid(l)
    ensures (forall n :: 0 <= n < TilesPerSlab(l) ==>
               && EntryOf(l, n).posoff == 2048 + 4 * n
               && EntryOf(l, n).possize == 2048 + 4 * TilesPerSlab(l) + 4 * n)
       <==> 2048 + 8 * TilesPerSlab(l) <= 0x1_0000_0000
  {
    MulMonotone(1, l.tilesPerHeight, l.tilesPerWidth);
    assert l.tilesPerHeight * l.tilesPerWidth == TilesPerSlab(l);
    if !IndexFits(l) {
      var n := TilesPerSlab(l) - 1;
      assert EntryOf(l, n).possize < TWO32;
    }
  }

  // ----- Boxes -----

  /** Points of a box; its left and upper edges belong to it. */
  predicate InBox(b: Box, x: real, y: real) { b.xmin <= x < b.xmax && b.ymin < y <= b.ymax }

  function TileBox(l: Level, tileCol: int, tileRow: int): Box {
    var tm := l.tm;
    var xmin := tileCol as real * tm.tileW as real * tm.res + tm.x0;
    var ymax := tm.y0 - tileRow as real * tm.tileH as real * tm.res;
    Box(xmin, ymax - tm.tileH as real * tm.res, xmin + tm.tileW as real * tm.res, ymax)
  }

  /** `floor ( double ( c ) / double ( w ) ) * double ( w )` */
  function SnapDown(c: int, w: int): real
    requires w > 0
  {
    (c as real / w as real).Floor as real * w as real
  }

  function SlabBox(l: Level, tileCol: int, tileRow: int): Box
    requires Valid(l)
  {
    var tm := l.tm;
    var row := SnapDown(tileRow, l.tilesPerHeight);
    var col := SnapDown(tileCol, l.tilesPerWidth);
    var xmin := col * tm.tileW as real * tm.res + tm.x0;
    var ymax := tm.y0 - row * tm.tileH as real * tm.res;
    Box(xmin, ymax - tm.tileH as real * tm.res * l.tilesPerHeight as real,
        xmin + tm.tileW as real * tm.res * l.tilesPerWidth as real, ymax)
  }

  function LimitsBox(l: Level): Box {
    var tm := l.tm;
    var tileW, tileH := tm.tileW as real, tm.tileH as real;
    var ymax := tm.y0 - l.minTileRow as real * tileH * tm.res;
    Box(l.minTileCol as real * tileW * tm.res + tm.x0,
        ymax - (l.maxTileRow - l.minTileRow + 1) as real * tileH * tm.res,
        tm.x0 + (l.maxTileCol + 1) as real * tileW * tm.res,
        ymax)
  }

  /** Tile `c` of an axis with tiles of length `unit` contains `x`. */
  predicate InTile(c: int, unit: real, x: real) { c as real * unit <= x < (c + 1) as real * unit }

  /** A row of tiles covers its length, each point once. */
  lemma TilesCoverAxis(lo: int, hi: int, unit: real, x: real)
    requires unit > 0.0
    ensures lo as real * unit <= x < hi as real * unit <==> exists c :: lo <= c < hi && InTile(c, unit, x)
    ensures forall c, d :: InTile(c, unit, x) && InTile(d, unit, x) ==> c == d
  {
    var q := x / unit;
    assert q * unit == x;
    var c := q.Floor;
    RealOrder(c as real, q, unit);
    RealOrder(q, (c + 1) as real, unit);
    assert InTile(c, unit, x);
    forall d | InTile(d, unit, x)
      ensures d == c
    {
      RealOrder(d as real, q, unit);
      RealOrder(q, (d + 1) as real, unit);
    }
    RealOrder(lo as real, q, unit);
    RealOrder(q, hi as real, unit);
  }

  lemma RealOrder(a: real, b: real, unit: real)
    requires unit > 0.0
    ensures a <= b <==> a * unit <= b * unit
    ensures a < b <==> a * unit < b * unit
  {
    if a < b { assert (b - a) * unit > 0.0; }
    if b < a { assert (a - b) * unit > 0.0; }
  }

  function UnitX(l: Level): real { l.tm.tileW as real * l.tm.res }

  function UnitY(l: Level): real { l.tm.tileH as real * l.tm.res }

  lemma TileBoxByAxis(l: Level, col: int, row: int, x: real, y: real)
    ensures InBox(TileBox(l, col, row), x, y) <==>
              InTile(col, UnitX(l), x - l.tm.x0) && InTile(row, UnitY(l), l.tm.y0 - y)
  {
    Split(col as real, l.tm.tileW as real, l.tm.res);
    Split(row as real, l.tm.tileH as real, l.tm.res);
  }

  lemma Split(c: real, size: real, res: real)
    ensures c * size * res == c * (size * res)
    ensures (c + 1.0) * (size * res) == c * (size * res) + size * res
  {
  }

  /** The point lies in columns `c0 .. c1` and rows `r0 .. r1`. */
  predicate InBlock(l: Level, c0: int, c1: int, r0: int, r1: int, x: real, y: real) {
    && c0 as real * UnitX(l) <= x - l.tm.x0 < c1 as real * UnitX(l)
    && r0 as real * UnitY(l) <= l.tm.y0 - y < r1 as real * UnitY(l)
  }

  function FirstCol(l: Level, col: int): int
    requires Valid(l)
  {
    FirstOf(col, l.tilesPerWidth)
  }

  function FirstRow(l: Level, row: int): int
    requires Valid(l)
  {
    FirstOf(row, l.tilesPerHeight)
  }

  /** The box of `w` by `h` tiles whose first one is (`col`, `row`). */
  function BlockBox(tm: TileMatrix, col: real, row: real, w: real, h: real): Box {
    var xmin := col * tm.tileW as real * tm.res + tm.x0;
    var ymax := tm.y0 - row * tm.tileH as real * tm.res;
    Box(xmin, ymax - tm.tileH as real * tm.res * h, xmin + tm.tileW as real * tm.res * w, ymax)
  }

  lemma SlabBoxIsBlockBox(l: Level, col: int, row: int)
    requires Valid(l)
    ensures SlabBox(l, col, row) ==
            BlockBox(l.tm, FirstCol(l, col) as real, FirstRow(l, row) as real,
                     l.tilesPerWidth as real, l.tilesPerHeight as real)
  {
    SlabBoxIsSnapped(l, col, row);
    FloorDiv(col, l.tilesPerWidth);
    FloorDiv(row, l.tilesPerHeight);
  }

  lemma SlabBoxIsSnapped(l: Level, col: int, row: int)
    requires Valid(l)
    ensures SlabBox(l, col, row) ==
            BlockBox(l.tm, SnapDown(col, l.tilesPerWidth), SnapDown(row, l.tilesPerHeight),
                     l.tilesPerWidth as real, l.tilesPerHeight as real)
  {
  }

  lemma SlabBoxByAxis(l: Level, col: int, row: int, x: real, y: real)
    requires Valid(l)
    ensures InBox(SlabBox(l, col, row), x, y) <==>
              InBlock(l, FirstCol(l, col), FirstCol(l, col) + l.tilesPerWidth,
                      FirstRow(l, row), FirstRow(l, row) + l.tilesPerHeight, x, y)
  {
    SlabBoxIsBlockBox(l, col, row);
    BlockBoxByAxis(l, FirstCol(l, col), FirstRow(l, row), l.tilesPerWidth, l.tilesPerHeight, x, y);
  }

  lemma BlockBoxByAxis(l: Level, col: int, row: int, w: int, h: int, x: real, y: real)
    ensures InBox(BlockBox(l.tm, col as real, row as real, w as real, h as real), x, y) <==>
              InBlock(l, col, col + w, row, row + h, x, y)
  {
    Extent(col as real, l.tm.tileW as real, l.tm.res, w as real);
    Extent(row as real, l.tm.tileH as real, l.tm.res, h as real);
  }

  lemma Extent(c: real, size: real, res: real, n: real)
    ensures c * size * res == c * (size * res)
    ensures (c + n) * (size * res) == c * (size * res) + size * res * n
  {
  }

  /** The first tile of the slab of tile `c`, on one axis. */
  function FirstOf(c: int, w: int): int
    requires w > 0
  {
    c / w * w
  }

  lemma FloorDiv(c: int, w: int)
    requires w > 0
    ensures SnapDown(c, w) == FirstOf(c, w) as real
  {
    var q := c as real / w as real;
    var k := c / w;
    assert q * w as real == c as real;
    assert k * w <= c < k * w + w;
    RealOrder(k as real, q, w as real);
    RealOrder(q, (k + 1) as real, w as real);
    FloorIs(q, k);
  }

  lemma FloorIs(q: real, k: int)
    requires k as real <= q < (k + 1) as real
    ensures q.Floor == k
  {
  }

  predicate SameSlab(l: Level, c: int, r: int, c': int, r': int)
    requires Valid(l)
  {
    c' / l.tilesPerWidth == c / l.tilesPerWidth && r' / l.tilesPerHeight == r / l.tilesPerHeight
  }

  lemma UnitsArePositive(l: Level)
    requires Valid(l)
    ensures UnitX(l) > 0.0 && UnitY(l) > 0.0
  {
  }

  lemma SameQuotient(c: int, c': int, w: int)
    requires w > 0
    ensures c' / w == c / w <==> c / w * w <= c' < c / w * w + w
  {
    if c / w * w <= c' < c / w * w + w { DivModUnique(c / w, c' - c / w * w, w); }
  }

  predicate TileHolds(l: Level, c: int, r: int, x: real, y: real) { InBox(TileBox(l, c, r), x, y) }

  lemma BlockHasTile(l: Level, c0: int, c1: int, r0: int, r1: int, x: real, y: real) returns (c: int, r: int)
    requires Valid(l) && InBlock(l, c0, c1, r0, r1, x, y)
    ensures c0 <= c < c1 && r0 <= r < r1 && TileHolds(l, c, r, x, y)
  {
    UnitsArePositive(l);
    c := TileOfPoint(c0, c1, UnitX(l), x - l.tm.x0);
    r := TileOfPoint(r0, r1, UnitY(l), l.tm.y0 - y);
    TileBoxByAxis(l, c, r, x, y);
  }

  lemma TileOfPoint(lo: int, hi: int, unit: real, x: real) returns (c: int)
    requires unit > 0.0 && lo as real * unit <= x < hi as real * unit
    ensures lo <= c < hi && InTile(c, unit, x)
  {
    TilesCoverAxis(lo, hi, unit, x);
    c :| lo <= c < hi && InTile(c, unit, x);
  }

  lemma PointOfTile(lo: int, hi: int, unit: real, x: real, c: int)
    requires unit > 0.0 && lo <= c < hi && InTile(c, unit, x)
    ensures lo as real * unit <= x < hi as real * unit
  {
    TilesCoverAxis(lo, hi, unit, x);
  }

  lemma TileIsInBlock(l: Level, c0: int, c1: int, r0: int, r1: int, x: real, y: real, c: int, r: int)
    requires Valid(l) && c0 <= c < c1 && r0 <= r < r1 && TileHolds(l, c, r, x, y)
    ensures InBlock(l, c0, c1, r0, r1, x, y)
  {
    UnitsArePositive(l);
    TileBoxByAxis(l, c, r, x, y);
    PointOfTile(c0, c1, UnitX(l), x - l.tm.x0, c);
    PointOfTile(r0, r1, UnitY(l), l.tm.y0 - y, r);
  }

  lemma SameSlabIsBlock(l: Level, col: int, row: int, c: int, r: int)
    requires Valid(l)
    ensures SameSlab(l, col, row, c, r) <==>
              && FirstCol(l, col) <= c < FirstCol(l, col) + l.tilesPerWidth
              && FirstRow(l, row) <= r < FirstRow(l, row) + l.tilesPerHeight
  {
    SameQuotient(col, c, l.tilesPerWidth);
    SameQuotient(row, r, l.tilesPerHeight);
  }

  /** The slab box is exactly the union of the boxes of the tiles stored in that slab. */
  lemma SlabBoxIsUnionOfTiles(l: Level, col: int, row: int, x: real, y: real)
    requires Valid(l)
    ensures InBox(SlabBox(l, col, row), x, y) <==>
              exists c, r :: SameSlab(l, col, row, c, r) && TileHolds(l, c, r, x, y)
  {
    var c0, r0 := FirstCol(l, col), FirstRow(l, row);
    SlabBoxByAxis(l, col, row, x, y);
    if InBox(SlabBox(l, col, row), x, y) {
      var c, r := BlockHasTile(l, c0, c0 + l.tilesPerWidth, r0, r0 + l.tilesPerHeight, x, y);
      SameSlabIsBlock(l, col, row, c, r);
    }
    forall c, r | SameSlab(l, col, row, c, r) && TileHolds(l, c, r, x, y)
      ensures InBox(SlabBox(l, col, row), x, y)
    {
      SameSlabIsBlock(l, col, row, c, r);
      TileIsInBlock(l, c0, c0 + l.tilesPerWidth, r0, r0 + l.tilesPerHeight, x, y, c, r);
    }
  }

  /** The level's box is exactly the union of the boxes of the tiles inside its limits. */
  lemma LimitsBoxIsUnionOfTiles(l: Level, x: real, y: real)
    requires Valid(l)
    ensures InBox(LimitsBox(l), x, y) <==>
              exists c, r :: l.minTileCol <= c <= l.maxTileCol && l.minTileRow <= r <= l.maxTileRow
                             && TileHolds(l, c, r, x, y)
  {
    LimitsBoxByAxis(l, x, y);
    if InBox(LimitsBox(l), x, y) {
      var c, r := BlockHasTile(l, l.minTileCol, l.maxTileCol + 1, l.minTileRow, l.maxTileRow + 1, x, y);
    }
    forall c, r | l.minTileCol <= c <= l.maxTileCol && l.minTileRow <= r <= l.maxTileRow && TileHolds(l, c, r, x, y)
      ensures InBox(LimitsBox(l), x, y)
    {
      TileIsInBlock(l, l.minTileCol, l.maxTileCol + 1, l.minTileRow, l.maxTileRow + 1, x, y, c, r);
    }
  }

  lemma LimitsBoxByAxis(l: Level, x: real, y: real)
    ensures InBox(LimitsBox(l), x, y) <==>
              InBlock(l, l.minTileCol, l.maxTileCol + 1, l.minTileRow, l.maxTileRow + 1, x, y)
  {
    var rows := l.maxTileRow - l.minTileRow + 1;
    Regroup(l.minTileCol as real, l.tm.tileW as real, l.tm.res);
    Regroup((l.maxTileCol + 1) as real, l.tm.tileW as real, l.tm.res);
    Regroup(l.minTileRow as real, l.tm.tileH as real, l.tm.res);
    Regroup(rows as real, l.tm.tileH as real, l.tm.res);
    assert (l.maxTileRow + 1) as real == l.minTileRow as real + rows as real;
    Stack(l.minTileRow as real, rows as real, UnitY(l));
    var b := LimitsBox(l);
    assert b.xmin == l.minTileCol as real * UnitX(l) + l.tm.x0;
    assert b.xmax == l.tm.x0 + (l.maxTileCol + 1) as real * UnitX(l);
    assert b.ymax == l.tm.y0 - l.minTileRow as real * UnitY(l);
    assert b.ymin == l.tm.y0 - (l.maxTileRow + 1) as real * UnitY(l);
  }

  lemma Regroup(c: real, size: real, res: real)
    ensures c * size * res == c * (size * res)
  {
  }

  lemma Stack(a: real, b: real, unit: real)
    ensures (a + b) * unit == a * unit + b * unit
  {
  }
}

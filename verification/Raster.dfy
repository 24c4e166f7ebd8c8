/** Which pixels a fractional rectangle touches, and how much of each it covers. */
module Raster {
  import opened Native
  import opened Rounding

  const ONE: int := 0x1_0000_0000
  const MAX_DIMENSION: int := 0x7FFF_FFFF
  const Q24_ONE: int := 0x100_0000
  const P40: int := 0x100_0000_0000

  datatype Option<+T> = None | Some(value: T)

  datatype Rect = Rect(x: Coord, y: Coord, width: Coord, height: Coord)

  /** Half-open pixel ranges. */
  datatype Bounds = Bounds(left: int, top: int, right: int, bottom: int)

  predicate AddFits(left: Coord, right: Coord) {
    !((right > 0 && left > I64_MAX - right) || (right < 0 && left < I64_MIN - right))
  }

  /** Division and remainder truncate; the quotient is then corrected. */
  function FloorQ32(value: Coord): int {
    var quotient, remainder := TruncDiv(value, ONE), TruncMod(value, ONE);
    if value < 0 && remainder != 0 then quotient - 1 else quotient
  }

  function CeilQ32(value: Coord): int {
    var quotient, remainder := TruncDiv(value, ONE), TruncMod(value, ONE);
    if value > 0 && remainder != 0 then quotient + 1 else quotient
  }

  lemma FloorCeilExact(value: Coord)
    ensures FloorQ32(value) * ONE <= value < FloorQ32(value) * ONE + ONE
    ensures CeilQ32(value) * ONE - ONE < value <= CeilQ32(value) * ONE
  {
    DivMod(Abs(value), ONE);
  }

  function Clamp(value: int, max: int): int {
    var v := if value < 0 then 0 else value;
    if v > max then max else v
  }

  function RectPixelBounds(r: Rect, width: nat, height: nat): Option<Bounds> {
    if r.width < 0 || r.height < 0 || width > MAX_DIMENSION || height > MAX_DIMENSION
       || !AddFits(r.x, r.width) || !AddFits(r.y, r.height) then None
    else
      var left, top := Clamp(FloorQ32(r.x), width), Clamp(FloorQ32(r.y), height);
      var right, bottom := Clamp(CeilQ32(r.x + r.width), width), Clamp(CeilQ32(r.y + r.height), height);
      Some(Bounds(left, top, if right < left then left else right, if bottom < top then top else bottom))
  }

  function Overlap(shapeStart: int, shapeEnd: int, pixelStart: int, pixelEnd: int): (n: nat)
    ensures n <= if pixelEnd >= pixelStart then pixelEnd - pixelStart else 0
  {
    var start := if shapeStart > pixelStart then shapeStart else pixelStart;
    var end := if shapeEnd < pixelEnd then shapeEnd else pixelEnd;
    if end <= start then 0 else end - start
  }

  predicate Lies(k: int, lo: int, hi: int) { lo <= k < hi }

  ghost function Between(lo: int, hi: int): (s: set<int>)
    ensures forall k :: k in s <==> Lies(k, lo, hi)
  {
    set k | lo <= k < hi && Lies(k, lo, hi)
  }

  lemma {:induction false} BetweenSize(lo: int, hi: int)
    ensures |Between(lo, hi)| == if lo < hi then hi - lo else 0
    decreases hi - lo
  {
    if lo < hi {
      BetweenSize(lo, hi - 1);
      assert Between(lo, hi) == Between(lo, hi - 1) + {hi - 1};
    } else {
      assert Between(lo, hi) == {};
    }
  }

  /** The overlap is the number of raw positions that shape and pixel share. */
  lemma OverlapCounts(shapeStart: int, shapeEnd: int, pixelStart: int, pixelEnd: int)
    ensures Overlap(shapeStart, shapeEnd, pixelStart, pixelEnd) == |Between(shapeStart, shapeEnd) * Between(pixelStart, pixelEnd)|
  {
    var start := if shapeStart > pixelStart then shapeStart else pixelStart;
    var end := if shapeEnd < pixelEnd then shapeEnd else pixelEnd;
    BetweenSize(start, end);
    assert Between(shapeStart, shapeEnd) * Between(pixelStart, pixelEnd) == Between(start, end);
  }

  function PixelOverlap(shapeStart: int, shapeEnd: int, pixel: int): (n: nat)
    ensures n <= ONE
  {
    Overlap(shapeStart, shapeEnd, pixel * ONE, pixel * ONE + ONE)
  }

  function RoundedQuotient(product: nat, unit: nat): nat
    requires unit > 0
  {
    var quotient, remainder := product / unit, product % unit;
    if remainder > unit / 2 || (remainder == unit / 2 && quotient % 2 != 0) then quotient + 1 else quotient
  }

  predicate Coverable(r: Rect, px: int, py: int) {
    r.width > 0 && r.height > 0 && 0 <= px < MAX_DIMENSION && 0 <= py < MAX_DIMENSION
    && AddFits(r.x, r.width) && AddFits(r.y, r.height)
  }

  function CoverageQ32(r: Rect, px: int, py: int): nat {
    if !Coverable(r, px, py) then 0
    else
      var ox, oy := PixelOverlap(r.x, r.x + r.width, px), PixelOverlap(r.y, r.y + r.height, py);
      if ox == 0 || oy == 0 then 0
      else if ox == ONE && oy == ONE then ONE
      else RoundedQuotient(ox * oy, ONE)
  }

  function CoverageQ24(r: Rect, px: int, py: int): nat {
    if !Coverable(r, px, py) then 0
    else
      var ox, oy := PixelOverlap(r.x, r.x + r.width, px), PixelOverlap(r.y, r.y + r.height, py);
      if ox == 0 || oy == 0 then 0
      else if ox == ONE && oy == ONE then Q24_ONE
      else RoundedQuotient(ox * oy, P40)
  }

  // ---- One pixel -------------------------------------------------------------

  /** The exact covered area of a pixel, in units of 2^-64. */
  ghost function PixelArea(r: Rect, px: int, py: int): nat {
    PixelOverlap(r.x, r.x + r.width, px) * PixelOverlap(r.y, r.y + r.height, py)
  }

  lemma AreaBound(a: nat, b: nat)
    requires a <= ONE && b <= ONE
    ensures 0 <= a * b <= P64
    ensures a * b == P64 ==> a == ONE && b == ONE
  {
    MulMonotone(a, ONE, b);
    MulMonotone(0, a, b);
    if a < ONE { MulMonotone(a, ONE - 1, b); }
  }

  lemma QuotientError(product: nat, unit: nat)
    requires unit == ONE || unit == P40
    ensures 2 * Abs(RoundedQuotient(product, unit) * unit - product) <= unit
  {
    DivMod(product, unit);
    assert (product / unit + 1) * unit == product / unit * unit + unit;
  }

  /** One pixel: the 64-bit product never overflows, the coverage is the exact area rounded
      to the nearest unit and never more than one. */
  lemma CoverageExact(r: Rect, px: int, py: int)
    requires r.width >= 0 && r.height >= 0 && AddFits(r.x, r.width) && AddFits(r.y, r.height)
    requires 0 <= px < MAX_DIMENSION && 0 <= py < MAX_DIMENSION
    ensures PixelArea(r, px, py) > U64_MAX ==>
              PixelOverlap(r.x, r.x + r.width, px) == ONE && PixelOverlap(r.y, r.y + r.height, py) == ONE
    ensures 2 * Abs(CoverageQ32(r, px, py) * ONE - PixelArea(r, px, py)) <= ONE
    ensures 2 * Abs(CoverageQ24(r, px, py) * P40 - PixelArea(r, px, py)) <= P40
    ensures CoverageQ32(r, px, py) <= ONE && CoverageQ24(r, px, py) <= Q24_ONE
  {
    var ox, oy := PixelOverlap(r.x, r.x + r.width, px), PixelOverlap(r.y, r.y + r.height, py);
    AreaBound(ox, oy);
    QuotientError(ox * oy, ONE);
    QuotientError(ox * oy, P40);
    hide RoundedQuotient, PixelOverlap;
    if r.width == 0 { assert ox == 0; }
    if r.height == 0 { assert oy == 0; }
    if ox == 0 || oy == 0 { assert ox * oy == 0; }
  }

  // ---- Sums over pixels ------------------------------------------------------

  ghost function OverlapSum(shapeStart: int, shapeEnd: int, lo: int, hi: int): nat
    requires lo <= hi
    decreases hi - lo
  {
    if lo == hi then 0 else OverlapSum(shapeStart, shapeEnd, lo, hi - 1) + PixelOverlap(shapeStart, shapeEnd, hi - 1)
  }

  /** Overlaps of adjacent pixels add up to the overlap with their union. */
  lemma {:induction false} OverlapTelescopes(shapeStart: int, shapeEnd: int, lo: int, hi: int)
    requires lo <= hi && shapeStart <= shapeEnd
    ensures OverlapSum(shapeStart, shapeEnd, lo, hi) == Overlap(shapeStart, shapeEnd, lo * ONE, hi * ONE)
    decreases hi - lo
  {
    if lo < hi { OverlapTelescopes(shapeStart, shapeEnd, lo, hi - 1); }
  }

  /** What is summed over a block of pixels. */
  datatype Measure = ExactArea | Q32 | Q24

  ghost function Value(m: Measure, r: Rect, px: int, py: int): nat {
    match m
    case ExactArea => PixelArea(r, px, py)
    case Q32 => CoverageQ32(r, px, py)
    case Q24 => CoverageQ24(r, px, py)
  }

  /** How many units of 2^-64 one unit of the measure is worth. */
  ghost function Unit(m: Measure): (u: nat)
    ensures u > 0
  {
    match m
    case ExactArea => 1
    case Q32 => ONE
    case Q24 => P40
  }

  ghost function RowSum(m: Measure, r: Rect, y: int, left: int, right: int): nat
    requires left <= right
    decreases right - left
  {
    if left == right then 0 else RowSum(m, r, y, left, right - 1) + Value(m, r, right - 1, y)
  }

  /** The sum of the measure over the pixels of a block, row by row. */
  ghost function BlockSum(m: Measure, r: Rect, left: int, right: int, top: int, bottom: int): nat
    requires left <= right && top <= bottom
    decreases bottom - top
  {
    if top == bottom then 0 else BlockSum(m, r, left, right, top, bottom - 1) + RowSum(m, r, bottom - 1, left, right)
  }

  lemma {:induction false} RowArea(r: Rect, y: int, left: int, right: int)
    requires left <= right
    ensures RowSum(ExactArea, r, y, left, right) ==
            OverlapSum(r.x, r.x + r.width, left, right) * PixelOverlap(r.y, r.y + r.height, y)
    decreases right - left
  {
    if left < right {
      RowArea(r, y, left, right - 1);
      Distributes(OverlapSum(r.x, r.x + r.width, left, right - 1), PixelOverlap(r.x, r.x + r.width, right - 1),
                  PixelOverlap(r.y, r.y + r.height, y));
    }
  }

  lemma Distributes(a: int, b: int, c: int)
    ensures (a + b) * c == a * c + b * c && c * (a + b) == c * a + c * b
  {
  }

  lemma {:induction false} BlockArea(r: Rect, left: int, right: int, top: int, bottom: int)
    requires left <= right && top <= bottom
    ensures BlockSum(ExactArea, r, left, right, top, bottom) ==
            OverlapSum(r.x, r.x + r.width, left, right) * OverlapSum(r.y, r.y + r.height, top, bottom)
    decreases bottom - top
  {
    if top < bottom {
      BlockArea(r, left, right, top, bottom - 1);
      RowArea(r, bottom - 1, left, right);
      Distributes(OverlapSum(r.y, r.y + r.height, top, bottom - 1), PixelOverlap(r.y, r.y + r.height, bottom - 1),
                  OverlapSum(r.x, r.x + r.width, left, right));
    }
  }

  /** The area of the rectangle that lies on the surface, in units of 2^-64. */
  ghost function ClippedArea(r: Rect, width: nat, height: nat): nat {
    Overlap(r.x, r.x + r.width, 0, width * ONE) * Overlap(r.y, r.y + r.height, 0, height * ONE)
  }

  /** One axis: the clamped pixel range sees all of the clipped extent. */
  lemma AxisCovered(start: Coord, end: Coord, size: nat)
    requires start <= end && size <= MAX_DIMENSION
    ensures var lo, hi := Clamp(FloorQ32(start), size), Clamp(CeilQ32(end), size);
            var top := if hi < lo then lo else hi;
            && 0 <= lo <= top <= size
            && Overlap(start, end, lo * ONE, top * ONE) == Overlap(start, end, 0, size * ONE)
            && forall p :: 0 <= p < size && !(lo <= p < top) ==> PixelOverlap(start, end, p) == 0
  {
    FloorCeilExact(start);
    FloorCeilExact(end);
    hide FloorQ32, CeilQ32;
  }

  /** Area is conserved: over the pixels of the bounds it sums exactly to the area of the
      rectangle clipped to the surface. */
  lemma AreaConserved(r: Rect, width: nat, height: nat)
    requires RectPixelBounds(r, width, height).Some?
    ensures var b := RectPixelBounds(r, width, height).value;
            && 0 <= b.left <= b.right <= width && 0 <= b.top <= b.bottom <= height
            && BlockSum(ExactArea, r, b.left, b.right, b.top, b.bottom) == ClippedArea(r, width, height)
  {
    hide FloorQ32, CeilQ32, Clamp, BlockSum, Overlap, OverlapSum;
    AxisCovered(r.x, r.x + r.width, width);
    AxisCovered(r.y, r.y + r.height, height);
    var b := RectPixelBounds(r, width, height).value;
    BlockArea(r, b.left, b.right, b.top, b.bottom);
    OverlapTelescopes(r.x, r.x + r.width, b.left, b.right);
    OverlapTelescopes(r.y, r.y + r.height, b.top, b.bottom);
  }

  /** Pixels of the surface outside the bounds are not covered at all. */
  lemma OutsideUncovered(r: Rect, width: nat, height: nat, px: int, py: int)
    requires RectPixelBounds(r, width, height).Some? && 0 <= px < width && 0 <= py < height
    requires var b := RectPixelBounds(r, width, height).value; !(b.left <= px < b.right && b.top <= py < b.bottom)
    ensures CoverageQ32(r, px, py) == 0 && CoverageQ24(r, px, py) == 0 && PixelArea(r, px, py) == 0
  {
    AxisCovered(r.x, r.x + r.width, width);
    AxisCovered(r.y, r.y + r.height, height);
    hide FloorQ32, CeilQ32, PixelOverlap;
    assert PixelOverlap(r.x, r.x + r.width, px) == 0 || PixelOverlap(r.y, r.y + r.height, py) == 0;
  }

  lemma PositiveProduct(a: nat, b: nat)
    ensures a * b > 0 <==> a > 0 && b > 0
  {
    if a > 0 && b > 0 { MulMonotone(1, a, b); }
  }

  /** One axis of positive extent: the clamped pixel range is exactly the pixels that it touches. */
  lemma AxisTouched(start: Coord, end: Coord, size: nat, p: int)
    requires start < end && size <= MAX_DIMENSION && 0 <= p < size
    ensures PixelOverlap(start, end, p) > 0 <==> Clamp(FloorQ32(start), size) <= p < Clamp(CeilQ32(end), size)
  {
    FloorCeilExact(start);
    FloorCeilExact(end);
    hide FloorQ32, CeilQ32;
  }

  /** The bounds are tight: of the surface's pixels, they hold exactly those that a rectangle of
      positive extent covers some part of. */
  lemma BoundsTight(r: Rect, width: nat, height: nat, px: int, py: int)
    requires RectPixelBounds(r, width, height).Some? && r.width > 0 && r.height > 0 && 0 <= px < width && 0 <= py < height
    ensures var b := RectPixelBounds(r, width, height).value;
            PixelArea(r, px, py) > 0 <==> b.left <= px < b.right && b.top <= py < b.bottom
  {
    hide FloorQ32, CeilQ32, Clamp, PixelOverlap;
    AxisTouched(r.x, r.x + r.width, width, px);
    AxisTouched(r.y, r.y + r.height, height, py);
    PositiveProduct(PixelOverlap(r.x, r.x + r.width, px), PixelOverlap(r.y, r.y + r.height, py));
  }

  /** Bounds exist exactly for extents that are not negative, edges that fit and dimensions in range. */
  lemma BoundsExist(r: Rect, width: nat, height: nat)
    ensures RectPixelBounds(r, width, height).Some? <==>
              && r.width >= 0 && r.height >= 0 && I64(r.x + r.width) && I64(r.y + r.height)
              && width <= MAX_DIMENSION && height <= MAX_DIMENSION
  {
    hide FloorQ32, CeilQ32, Clamp;
  }

  /** `sum` units are within half a unit per pixel of the exact area. */
  ghost predicate Close(sum: int, unit: int, exact: int, pixels: int) {
    2 * Abs(sum * unit - exact) <= pixels * unit
  }

  ghost predicate PixelClose(m: Measure, r: Rect, px: int, py: int) {
    Close(Value(m, r, px, py), Unit(m), PixelArea(r, px, py), 1)
  }

  /** Error bounds proportional to a count add. */
  lemma Accumulate(a: int, exactA: int, countA: int, b: int, exactB: int, countB: int, unit: int)
    requires Close(a, unit, exactA, countA) && Close(b, unit, exactB, countB)
    ensures Close(a + b, unit, exactA + exactB, countA + countB)
  {
    Distributes(a, b, unit);
    Distributes(countA, countB, unit);
  }

  lemma {:induction false} RowError(m: Measure, r: Rect, y: int, left: int, right: int)
    requires left <= right && forall x :: left <= x < right ==> PixelClose(m, r, x, y)
    ensures Close(RowSum(m, r, y, left, right), Unit(m), RowSum(ExactArea, r, y, left, right), right - left)
    decreases right - left
  {
    if left < right {
      RowError(m, r, y, left, right - 1);
      assert PixelClose(m, r, right - 1, y);
      hide PixelArea, CoverageQ32, CoverageQ24, Close;
      Accumulate(RowSum(m, r, y, left, right - 1), RowSum(ExactArea, r, y, left, right - 1), right - 1 - left,
                 Value(m, r, right - 1, y), PixelArea(r, right - 1, y), 1, Unit(m));
    }
  }

  ghost function Pixels(columns: int, rows: int): int { columns * rows }

  lemma EmptyBlock(columns: int, unit: int)
    ensures Close(0, unit, 0, Pixels(columns, 0))
  {
    assert Pixels(columns, 0) == 0;
  }

  lemma OneRowMore(columns: int, rows: int)
    ensures Pixels(columns, rows) + columns == Pixels(columns, rows + 1)
  {
  }

  lemma {:induction false} BlockError(m: Measure, r: Rect, left: int, right: int, top: int, bottom: int)
    requires left <= right && top <= bottom
    requires forall x, y :: left <= x < right && top <= y < bottom ==> PixelClose(m, r, x, y)
    ensures Close(BlockSum(m, r, left, right, top, bottom), Unit(m), BlockSum(ExactArea, r, left, right, top, bottom),
                  Pixels(right - left, bottom - top))
    decreases bottom - top
  {
    EmptyBlock(right - left, Unit(m));
    hide Close, Pixels, PixelClose, RowSum, Unit;
    if top < bottom {
      BlockError(m, r, left, right, top, bottom - 1);
      RowError(m, r, bottom - 1, left, right);
      OneRowMore(right - left, bottom - 1 - top);
      Accumulate(BlockSum(m, r, left, right, top, bottom - 1), BlockSum(ExactArea, r, left, right, top, bottom - 1),
                 Pixels(right - left, bottom - 1 - top), RowSum(m, r, bottom - 1, left, right),
                 RowSum(ExactArea, r, bottom - 1, left, right), right - left, Unit(m));
    }
  }

  /** Rounded coverage, summed over the bounds, is the clipped area up to half a unit per
      pixel, in both precisions. */
  lemma CoverageConserved(r: Rect, width: nat, height: nat, m: Measure)
    requires RectPixelBounds(r, width, height).Some? && m != ExactArea
    ensures var b := RectPixelBounds(r, width, height).value;
            && b.left <= b.right && b.top <= b.bottom
            && Close(BlockSum(m, r, b.left, b.right, b.top, b.bottom), Unit(m), ClippedArea(r, width, height),
                     Pixels(b.right - b.left, b.bottom - b.top))
  {
    hide RectPixelBounds, ClippedArea, Close, Pixels, PixelClose, BlockSum, Coverable, CoverageQ32, CoverageQ24, PixelArea;
    AreaConserved(r, width, height);
    var b := RectPixelBounds(r, width, height).value;
    forall px, py | b.left <= px < b.right && b.top <= py < b.bottom
      ensures PixelClose(m, r, px, py)
    {
      PixelIsClose(m, r, width, height, px, py);
    }
    BlockError(m, r, b.left, b.right, b.top, b.bottom);
  }

  lemma PixelIsClose(m: Measure, r: Rect, width: nat, height: nat, px: int, py: int)
    requires RectPixelBounds(r, width, height).Some? && m != ExactArea && 0 <= px < width && 0 <= py < height
    ensures PixelClose(m, r, px, py)
  {
    hide FloorQ32, CeilQ32, Clamp, CoverageQ32, CoverageQ24, PixelArea;
    CoverageExact(r, px, py);
  }
}

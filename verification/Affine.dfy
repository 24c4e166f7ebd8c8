/** Q32.32 arithmetic, rectangles and affine maps. */
module Affine {
  import opened Native
  import opened Rounding

  const ONE: int := 0x1_0000_0000

  datatype Point = Point(x: Coord, y: Coord)
  datatype Rect = Rect(x: Coord, y: Coord, width: Coord, height: Coord)

  /** The matrix ((a, c, tx), (b, d, ty), (0, 0, 1)). */
  datatype Transform = Transform(a: Coord, b: Coord, c: Coord, d: Coord, tx: Coord, ty: Coord)

  // ---- Coordinates -----------------------------------------------------------

  /** Addition that tests for overflow before adding. */
  function CoordAdd(left: Coord, right: Coord): Result<Coord> {
    if (right > 0 && left > I64_MAX - right) || (right < 0 && left < I64_MIN - right) then Fail(Overflow)
    else Coordinate(left + right)
  }

  function CoordSub(left: Coord, right: Coord): Result<Coord> {
    if (right < 0 && left > I64_MAX + right) || (right > 0 && left < I64_MIN + right) then Fail(Overflow)
    else Coordinate(left - right)
  }

  function CoordNeg(value: Coord): Result<Coord> {
    if value == I64_MIN then Fail(Overflow) else Coordinate(0 - value)
  }

  function CoordMul(left: Coord, right: Coord): Result<Coord> {
    ShiftNearestEven(left * right)
  }

  function CoordDiv(numerator: Coord, denominator: Coord): Result<Coord> {
    if denominator == 0 then Fail(InvalidArgument) else DivqNearestEven(numerator * P32, denominator)
  }

  function FromInteger(n: Coord): Result<Coord> {
    var raw := n * P32;
    if raw < I64_MIN || raw > I64_MAX then Fail(Overflow) else Coordinate(raw)
  }

  function ToInteger(value: Coord, mode: Mode): Result<Coord> {
    RoundDiv(value, P32, mode)
  }

  /** Overflow is reported exactly when the true sum or difference does not fit. */
  lemma AddSubExact(left: Coord, right: Coord)
    ensures CoordAdd(left, right) == Narrowed(left + right)
    ensures CoordSub(left, right) == Narrowed(left - right)
  {
  }

  lemma AbsProduct(x: int, p: int)
    ensures Abs(x * p) == Abs(x) * Abs(p)
    ensures (x >= 0) == (p >= 0) ==> x * p >= 0
    ensures (x >= 0) != (p >= 0) ==> x * p <= 0
  {
    assert (-x) * p == -(x * p) && x * (-p) == -(x * p) && (-x) * (-p) == x * p;
    if x >= 0 && p >= 0 { MulMonotone(0, x, p); }
    if x >= 0 && p < 0 { MulMonotone(0, x, -p); }
    if x < 0 && p >= 0 { MulMonotone(0, -x, p); }
    if x < 0 && p < 0 { MulMonotone(0, -x, -p); }
  }

  lemma MagnitudeBound(x: int, y: int, maxX: int, maxY: int)
    requires 0 <= x <= maxX && 0 <= y <= maxY
    ensures x * y <= maxX * maxY
  {
    MulMonotone(x, maxX, y);
    MulMonotone(y, maxY, maxX);
    assert maxX * y == y * maxX && maxY * maxX == maxX * maxY;
  }

  lemma ProductBound(a: int, b: int)
    requires I64(a) && I64(b)
    ensures -P127 < 2 * (a * b) <= P127
  {
    AbsProduct(a, b);
    if (a >= 0) == (b >= 0) {
      MagnitudeBound(Abs(a), Abs(b), P63, P63);
    } else if a >= 0 {
      MagnitudeBound(Abs(a), Abs(b), I64_MAX, P63);
    } else {
      MagnitudeBound(Abs(a), Abs(b), P63, I64_MAX);
    }
  }

  /** Multiplication and division round the exact product and quotient once. */
  lemma MulDivExact(left: Coord, right: Coord)
    ensures CoordMul(left, right) == Narrowed(Rounded(left * right, P32, NearestEven))
    ensures right != 0 ==> CoordDiv(left, right) == Narrowed(Rounded(left * P32, right, NearestEven))
  {
    ProductBound(left, right);
    ShiftEqualsGeneral(left * right);
    if right != 0 {
      DivqEqualsGeneral(left * P32, right);
      RoundDivCorrect(left * P32, right, NearestEven);
    }
  }

  /** An integer survives the trip through Q32.32 in every rounding mode. */
  lemma IntegerRoundTrip(n: Coord, mode: Mode)
    requires FromInteger(n).Ok?
    ensures ToInteger(FromInteger(n).value, mode) == Ok(n)
  {
    RoundDivCorrect(n * P32, P32, mode);
  }

  // ---- Fused sums of products ------------------------------------------------

  function AddI128(a: int, b: int): Result<int> {
    if I128(a + b) then Ok(a + b) else Fail(Overflow)
  }

  function Fused2(la: Coord, lb: Coord, ra: Coord, rb: Coord): Result<Coord> {
    var sum :- AddI128(la * ra, lb * rb);
    ShiftNearestEven(sum)
  }

  function Fused2Translate(la: Coord, lb: Coord, ra: Coord, rb: Coord, translation: Coord): Result<Coord> {
    var sum :- AddI128(la * ra, lb * rb);
    var total :- AddI128(sum, translation * P32);
    ShiftNearestEven(total)
  }

  /** A value that does not fit 128 bits cannot round to 64 bits after the shift, even when
      a translation is still to be added. */
  lemma WideCannotRound(n: int)
    requires n < -P127 + P31 * P64 || n >= P127 - P31 * P64
    ensures !I64(Rounded(n, P32, NearestEven))
  {
    RoundedError(n, P32);
  }

  /** The 128-bit overflow tests never change the answer: both sums return the exact value
      rounded once, and overflow exactly when that value is not a coordinate. */
  lemma FusedExact(la: Coord, lb: Coord, ra: Coord, rb: Coord, translation: Coord)
    ensures Fused2(la, lb, ra, rb) == Narrowed(Rounded(la * ra + lb * rb, P32, NearestEven))
    ensures Fused2Translate(la, lb, ra, rb, translation)
            == Narrowed(Rounded(la * ra + lb * rb + translation * P32, P32, NearestEven))
  {
    ProductBound(la, ra);
    ProductBound(lb, rb);
    FusedCore(la * ra + lb * rb, translation);
  }

  lemma FusedCore(sum: int, translation: Coord)
    requires -P127 < sum <= P127
    ensures I128(sum) ==> ShiftNearestEven(sum) == Narrowed(Rounded(sum, P32, NearestEven))
    ensures I128(sum) && I128(sum + translation * P32) ==>
              ShiftNearestEven(sum + translation * P32) == Narrowed(Rounded(sum + translation * P32, P32, NearestEven))
    ensures !I128(sum) ==> !I64(Rounded(sum, P32, NearestEven))
    ensures !I128(sum) || !I128(sum + translation * P32) ==> !I64(Rounded(sum + translation * P32, P32, NearestEven))
  {
    var total := sum + translation * P32;
    if I128(sum) { ShiftEqualsGeneral(sum); } else { WideCannotRound(sum); }
    if I128(sum) && I128(total) {
      ShiftEqualsGeneral(total);
    } else {
      WideCannotRound(total);
    }
  }

  // ---- Composition and inversion ---------------------------------------------

  /** left o right: `right` is applied first. */
  function Compose(left: Transform, right: Transform): Result<Transform> {
    var a :- Fused2(left.a, left.c, right.a, right.b);
    var b :- Fused2(left.b, left.d, right.a, right.b);
    var c :- Fused2(left.a, left.c, right.c, right.d);
    var d :- Fused2(left.b, left.d, right.c, right.d);
    var tx :- Fused2Translate(left.a, left.c, right.tx, right.ty, left.tx);
    var ty :- Fused2Translate(left.b, left.d, right.tx, right.ty, left.ty);
    Ok(Transform(a, b, c, d, tx, ty))
  }

  function Invert(t: Transform): Result<Transform> {
    var determinant := t.a * t.d - t.b * t.c;
    if !I128(determinant) then Fail(Overflow)
    else if determinant == 0 then Fail(Singular)
    else
      var a :- RoundDiv(t.d * P64, determinant, NearestEven);
      var b' :- RoundDiv(t.b * P64, determinant, NearestEven);
      var b :- CoordNeg(b');
      var c' :- RoundDiv(t.c * P64, determinant, NearestEven);
      var c :- CoordNeg(c');
      var d :- RoundDiv(t.a * P64, determinant, NearestEven);
      var x :- Fused2(a, c, t.tx, t.ty);
      var y :- Fused2(b, d, t.tx, t.ty);
      var tx :- CoordNeg(x);
      var ty :- CoordNeg(y);
      Ok(Transform(a, b, c, d, tx, ty))
  }

  const IDENTITY: Transform := Transform(ONE, 0, 0, ONE, 0, 0)

  lemma WholeRounds(p: int)
    ensures Rounded(p * P32, P32, NearestEven) == p
  {
  }

  lemma UnitSums(p: Coord, q: Coord)
    ensures Fused2(ONE, 0, p, q) == Fused2(0, ONE, q, p) == Fused2(p, q, ONE, 0) == Fused2(q, p, 0, ONE) == Ok(p)
  {
    hide Fused2, Fused2Translate, Rounded;
    FusedExact(ONE, 0, p, q, 0);
    FusedExact(0, ONE, q, p, 0);
    FusedExact(p, q, ONE, 0, 0);
    FusedExact(q, p, 0, ONE, 0);
    WholeRounds(p);
  }

  /** The identity is neutral, exactly and on both sides. */
  lemma IdentityNeutral(t: Transform)
    ensures Compose(IDENTITY, t) == Ok(t) == Compose(t, IDENTITY)
  {
    UnitSums(t.a, t.b);
    UnitSums(t.b, t.a);
    UnitSums(t.c, t.d);
    UnitSums(t.d, t.c);
    UnitSums(t.a, t.c);
    UnitSums(t.c, t.a);
    UnitSums(t.b, t.d);
    UnitSums(t.d, t.b);
    TranslationSums(t.tx, t.ty, t.a, t.c);
    TranslationSums(t.ty, t.tx, t.b, t.d);
    hide Fused2, Fused2Translate;
  }

  lemma TranslationSums(p: Coord, q: Coord, u: Coord, v: Coord)
    ensures Fused2Translate(ONE, 0, p, q, 0) == Fused2Translate(0, ONE, q, p, 0) == Fused2Translate(u, v, 0, 0, p) == Ok(p)
  {
    hide Fused2, Fused2Translate, Rounded;
    FusedExact(ONE, 0, p, q, 0);
    FusedExact(0, ONE, q, p, 0);
    FusedExact(u, v, 0, 0, p);
    WholeRounds(p);
  }

  /** `e` is the nearest integer to `u / det`, up to half a unit. */
  ghost predicate Near(u: int, det: int, e: int) {
    2 * Abs(u - e * det) <= Abs(det)
  }

  lemma RoundedEntry(v: int, det: int, e: int)
    requires I64(v) && I128(det) && det != 0 && RoundDiv(v * P64, det, NearestEven) == Ok(e)
    ensures Near(v * P64, det, e)
  {
    RoundDivCorrect(v * P64, det, NearestEven);
    RoundedError(v * P64, det);
  }

  lemma NearNegated(u: int, det: int, e: int)
    requires Near(u, det, -e)
    ensures Near(-u, det, e)
  {
    assert (-e) * det == -(e * det);
  }

  /** The entries of an inverse are the rounded cofactor quotients. */
  lemma InverseEntries(t: Transform, a: int, b: int, c: int, d: int, det: int)
    requires t.a == a && t.b == b && t.c == c && t.d == d && det == t.a * t.d - t.b * t.c
    requires Invert(t).Ok?
    ensures var i := Invert(t).value;
            det != 0 && Near(d * P64, det, i.a) && Near(-(b * P64), det, i.b)
            && Near(-(c * P64), det, i.c) && Near(a * P64, det, i.d)
  {
    hide RoundDiv, Fused2, Near;
    var i := Invert(t).value;
    RoundedEntry(d, det, i.a);
    var b', c' := RoundDiv(b * P64, det, NearestEven).value, RoundDiv(c * P64, det, NearestEven).value;
    RoundedEntry(b, det, b');
    RoundedEntry(c, det, c');
    RoundedEntry(a, det, i.d);
    NearNegated(b * P64, det, i.b);
    NearNegated(c * P64, det, i.c);
  }

  ghost predicate FitsBothWays(n: int) { I64(n) && I64(0 - n) }

  /** The rounded entries of the inverse, and what they move the translation to, are coordinates. */
  ghost predicate InverseFits(t: Transform, det: int)
    requires det != 0
  {
    var a, b := Rounded(t.d * P64, det, NearestEven), Rounded(t.b * P64, det, NearestEven);
    var c, d := Rounded(t.c * P64, det, NearestEven), Rounded(t.a * P64, det, NearestEven);
    && I64(a) && FitsBothWays(b) && FitsBothWays(c) && I64(d)
    && FitsBothWays(Rounded(a * t.tx - c * t.ty, P32, NearestEven))
    && FitsBothWays(Rounded(d * t.ty - b * t.tx, P32, NearestEven))
  }

  /** Inversion is refused as singular exactly for a zero determinant, and otherwise succeeds exactly
      when the determinant and the rounded entries fit. */
  lemma InvertOutcome(t: Transform)
    ensures var det := t.a * t.d - t.b * t.c;
            && (Invert(t) == Fail(Singular) <==> det == 0)
            && (Invert(t).Ok? <==> I128(det) && det != 0 && InverseFits(t, det))
            && (Invert(t).Fail? && det != 0 ==> Invert(t) == Fail(Overflow))
  {
    hide Rounded, RoundDiv, Fused2;
    var det := t.a * t.d - t.b * t.c;
    if I128(det) && det != 0 {
      RoundDivCorrect(t.d * P64, det, NearestEven);
      RoundDivCorrect(t.b * P64, det, NearestEven);
      RoundDivCorrect(t.c * P64, det, NearestEven);
      RoundDivCorrect(t.a * P64, det, NearestEven);
      var a, b := Rounded(t.d * P64, det, NearestEven), Rounded(t.b * P64, det, NearestEven);
      var c, d := Rounded(t.c * P64, det, NearestEven), Rounded(t.a * P64, det, NearestEven);
      if I64(a) && FitsBothWays(b) && FitsBothWays(c) && I64(d) {
        FusedExact(a, 0 - c, t.tx, t.ty, 0);
        FusedExact(0 - b, d, t.tx, t.ty, 0);
        Negated(c, t.ty);
        Negated(b, t.tx);
      }
    }
  }

  lemma Negated(x: int, y: int)
    ensures (0 - x) * y == 0 - x * y
  {
  }

  lemma ScaleDifference(u: int, e: int, p: int, det: int)
    ensures (u - e * det) * p == u * p - e * p * det
  {
    assert e * det * p == e * p * det;
  }

  lemma ScaledError(u: int, e: int, p: int, det: int)
    requires Near(u, det, e)
    ensures 2 * Abs(u * p - e * p * det) <= Abs(p) * Abs(det)
  {
    ScaleDifference(u, e, p, det);
    AbsProduct(u - e * det, p);
    MulMonotone(2 * Abs(u - e * det), Abs(det), Abs(p));
    assert 2 * Abs(u - e * det) * Abs(p) == 2 * (Abs(u - e * det) * Abs(p));
    assert Abs(det) * Abs(p) == Abs(p) * Abs(det);
  }

  lemma CancelScale(s: int, det: int, w: int)
    requires det != 0 && 2 * Abs(s * det) <= w * Abs(det)
    ensures 2 * Abs(s) <= w
  {
    AbsProduct(s, det);
    CancelFactor(Abs(s), Abs(det), w, Abs(s) * Abs(det));
  }

  lemma CancelFactor(a: int, d: int, w: int, product: int)
    requires d > 0 && product == a * d && 2 * product <= w * d
    ensures 2 * a <= w
  {
    assert (w + 1) * d == w * d + d;
    if 2 * a > w { MulMonotone(w + 1, 2 * a, d); }
  }

  lemma Distribute(x: int, y: int, z: int, d: int)
    ensures (x + y - z) * d == x * d + y * d - z * d
  {
  }

  /** Two entries near `u/det` and `v/det`, combined with weights `p` and `q`, stay within
      half the weights of the exact combination `w`. */
  lemma CombinedError(e: int, f: int, u: int, v: int, p: int, q: int, det: int, w: int)
    requires det != 0 && Near(u, det, e) && Near(v, det, f) && u * p + v * q == w * det
    ensures 2 * Abs(e * p + f * q - w) <= Abs(p) + Abs(q)
  {
    ScaledError(u, e, p, det);
    ScaledError(v, f, q, det);
    var s, weight := e * p + f * q - w, Abs(p) + Abs(q);
    Distribute(e * p, f * q, w, det);
    Distribute(Abs(p), Abs(q), 0, Abs(det));
    hide Near;
    CancelScale(s, det, weight);
  }

  /** One entry of a composition, given its exact sum is near `w`. */
  lemma ComposedEntry(la: Coord, lb: Coord, ra: Coord, rb: Coord, w: int, e: int)
    requires Fused2(la, lb, ra, rb) == Ok(e)
    requires 2 * Abs(la * ra + lb * rb - w * P32) <= Abs(ra) + Abs(rb)
    ensures 2 * P32 * Abs(e - w) <= Abs(ra) + Abs(rb) + P32
  {
    FusedExact(la, lb, ra, rb, 0);
    RoundedError(la * ra + lb * rb, P32);
  }

  /** The exact quotients that the entries of the inverse round: as a matrix they are the
      determinant times the true inverse. */
  lemma InverseCofactors(t: Transform) returns (ua: int, ub: int, uc: int, ud: int, det: int)
    requires Invert(t).Ok?
    ensures var i := Invert(t).value;
            det != 0 && Near(ua, det, i.a) && Near(ub, det, i.b) && Near(uc, det, i.c) && Near(ud, det, i.d)
    ensures ua * t.a + uc * t.b == ONE * P32 * det && ub * t.a + ud * t.b == 0 * P32 * det
    ensures ua * t.c + uc * t.d == 0 * P32 * det && ub * t.c + ud * t.d == ONE * P32 * det
  {
    det := t.a * t.d - t.b * t.c;
    InverseEntries(t, t.a, t.b, t.c, t.d, det);
    Cofactors(t.a, t.b, t.c, t.d, det);
    ua, ub, uc, ud := t.d * P64, -(t.b * P64), -(t.c * P64), t.a * P64;
  }

  /** One entry of an inverse composed with its map. */
  lemma InverseEntry(la: Coord, lb: Coord, ra: Coord, rb: Coord, u: int, v: int, det: int, w: int, e: int)
    requires det != 0 && Near(u, det, la) && Near(v, det, lb) && u * ra + v * rb == w * P32 * det
    requires Fused2(la, lb, ra, rb) == Ok(e)
    ensures 2 * P32 * Abs(e - w) <= Abs(ra) + Abs(rb) + P32
  {
    CombinedError(la, lb, u, v, ra, rb, det, w * P32);
    ComposedEntry(la, lb, ra, rb, w, e);
  }

  lemma Cofactors(a: int, b: int, c: int, d: int, det: int)
    requires det == a * d - b * c
    ensures d * P64 * a + -(c * P64) * b == P64 * det && -(b * P64) * a + a * P64 * b == 0 * det
    ensures d * P64 * c + -(c * P64) * d == 0 * det && -(b * P64) * c + a * P64 * d == P64 * det
  {
    assert d * P64 * a == P64 * (a * d) && c * P64 * b == P64 * (b * c);
    assert b * P64 * a == a * P64 * b && d * P64 * c == c * P64 * d;
    assert b * P64 * c == P64 * (b * c) && a * P64 * d == P64 * (a * d);
  }

  lemma ComposeEntries(left: Transform, right: Transform)
    requires Compose(left, right).Ok?
    ensures var r := Compose(left, right).value;
            && Fused2(left.a, left.c, right.a, right.b) == Ok(r.a) && Fused2(left.b, left.d, right.a, right.b) == Ok(r.b)
            && Fused2(left.a, left.c, right.c, right.d) == Ok(r.c) && Fused2(left.b, left.d, right.c, right.d) == Ok(r.d)
            && Fused2Translate(left.a, left.c, right.tx, right.ty, left.tx) == Ok(r.tx)
            && Fused2Translate(left.b, left.d, right.tx, right.ty, left.ty) == Ok(r.ty)
  {
    hide Fused2, Fused2Translate;
  }

  /** What rounding leaves of a sum is at most half a unit, and a tie rounds to the even zero. */
  lemma ResidueRounds(s: int)
    ensures Rounded(s + (0 - Rounded(s, P32, NearestEven)) * P32, P32, NearestEven) == 0
  {
    RoundedError(s, P32);
    var n := s + (0 - Rounded(s, P32, NearestEven)) * P32;
    RoundedIsRounding(n, P32, NearestEven);
    RoundingUnique(n, P32, NearestEven, Rounded(n, P32, NearestEven), 0);
  }

  /** The rounded image of a point and its negation as a translation cancel exactly. */
  lemma TranslationCancels(la: Coord, lb: Coord, ra: Coord, rb: Coord, x: Coord, translation: Coord)
    requires Fused2(la, lb, ra, rb) == Ok(x) && translation == 0 - x
    ensures Fused2Translate(la, lb, ra, rb, translation) == Ok(0)
  {
    FusedExact(la, lb, ra, rb, translation);
    ResidueRounds(la * ra + lb * rb);
  }

  lemma InverseTranslation(t: Transform)
    requires Invert(t).Ok?
    ensures var i := Invert(t).value;
            && Fused2Translate(i.a, i.c, t.tx, t.ty, i.tx) == Ok(0)
            && Fused2Translate(i.b, i.d, t.tx, t.ty, i.ty) == Ok(0)
  {
    hide RoundDiv, Fused2, Fused2Translate;
    var i := Invert(t).value;
    var x, y := Fused2(i.a, i.c, t.tx, t.ty).value, Fused2(i.b, i.d, t.tx, t.ty).value;
    TranslationCancels(i.a, i.c, t.tx, t.ty, x, i.tx);
    TranslationCancels(i.b, i.d, t.tx, t.ty, y, i.ty);
  }

  /** The distance from the identity of a computed inverse composed with its map: at most
      (|a|+|b|)/2^33 + 1/2 in the first column and (|c|+|d|)/2^33 + 1/2 in the second, and
      none at all in the translation. */
  lemma InverseNearIdentity(t: Transform)
    requires Invert(t).Ok? && Compose(Invert(t).value, t).Ok?
    ensures var r := Compose(Invert(t).value, t).value;
            && 2 * P32 * Abs(r.a - ONE) <= Abs(t.a) + Abs(t.b) + P32
            && 2 * P32 * Abs(r.b) <= Abs(t.a) + Abs(t.b) + P32
            && 2 * P32 * Abs(r.c) <= Abs(t.c) + Abs(t.d) + P32
            && 2 * P32 * Abs(r.d - ONE) <= Abs(t.c) + Abs(t.d) + P32
            && r.tx == 0 && r.ty == 0
  {
    var i, r := Invert(t).value, Compose(Invert(t).value, t).value;
    ComposeEntries(i, t);
    InverseTranslation(t);
    hide Invert, Compose, Fused2, Fused2Translate, Near;
    var ua, ub, uc, ud, det := InverseCofactors(t);
    InverseEntry(i.a, i.c, t.a, t.b, ua, uc, det, ONE, r.a);
    InverseEntry(i.b, i.d, t.a, t.b, ub, ud, det, 0, r.b);
    InverseEntry(i.a, i.c, t.c, t.d, ua, uc, det, 0, r.c);
    InverseEntry(i.b, i.d, t.c, t.d, ub, ud, det, ONE, r.d);
  }

  // ---- Rectangles under a transform ------------------------------------------

  function TransformPoint(t: Transform, p: Point): Result<Point> {
    var x :- Fused2Translate(t.a, t.c, p.x, p.y, t.tx);
    var y :- Fused2Translate(t.b, t.d, p.x, p.y, t.ty);
    Ok(Point(x, y))
  }

  /** The image of a point is the matrix ((a, c, tx), (b, d, ty)) applied to it, each coordinate
      rounded once; it fails exactly when a rounded coordinate does not fit. */
  lemma TransformPointExact(t: Transform, p: Point)
    ensures var x := Rounded(t.a * p.x + t.c * p.y + t.tx * P32, P32, NearestEven);
            var y := Rounded(t.b * p.x + t.d * p.y + t.ty * P32, P32, NearestEven);
            TransformPoint(t, p) == if I64(x) && I64(y) then Ok(Point(x, y)) else Fail(Overflow)
  {
    FusedExact(t.a, t.c, p.x, p.y, t.tx);
    FusedExact(t.b, t.d, p.x, p.y, t.ty);
    hide Fused2, Fused2Translate, Rounded;
  }

  /** `q` is `n` over 2^32, up to half a unit. */
  ghost predicate Halved(n: int, q: int, e: int) {
    n == q * P32 + e && 2 * Abs(e) <= P32
  }

  lemma RoundedHalved(n: int) returns (e: int)
    ensures Halved(n, Rounded(n, P32, NearestEven), e)
  {
    RoundedError(n, P32);
    e := n - Rounded(n, P32, NearestEven) * P32;
  }

  /** One row of a composition applied to a point, against the row applied to the point's image.
      `u`, `v`, `w` is the left row and `x`, `y` the point; the six rounding errors stay apart. */
  lemma RowAction(u: int, v: int, w: int, r: Transform, x: int, y: int, ma: int, mc: int, mt: int, qx: int, qy: int,
                  lhs: int, rhs: int, ea: int, ec: int, et: int, dx: int, dy: int, e1: int, e2: int)
    requires Halved(u * r.a + v * r.b, ma, ea) && Halved(u * r.c + v * r.d, mc, ec)
    requires Halved(u * r.tx + v * r.ty + w * P32, mt, et)
    requires Halved(r.a * x + r.c * y + r.tx * P32, qx, dx) && Halved(r.b * x + r.d * y + r.ty * P32, qy, dy)
    requires Halved(ma * x + mc * y + mt * P32, lhs, e1) && Halved(u * qx + v * qy + w * P32, rhs, e2)
    ensures 2 * P32 * Abs(lhs - rhs) <= Abs(x) + Abs(y) + Abs(u) + Abs(v) + 3 * P32
  {
    RowIdentity(u, v, w, r, x, y, ma, mc, mt, qx, qy, ea, ec, et, dx, dy);
    HalfTimes(ea, x);
    HalfTimes(ec, y);
    HalfTimes(dx, u);
    HalfTimes(dy, v);
    RowBound(lhs, rhs, ma * x + mc * y + mt * P32, u * qx + v * qy + w * P32, ea * x, ec * y, et, dx * u, dy * v, e1, e2,
             Abs(x), Abs(y), Abs(u), Abs(v));
  }

  lemma HalfTimes(e: int, x: int)
    requires 2 * Abs(e) <= P32
    ensures 2 * Abs(e * x) <= P32 * Abs(x)
  {
    AbsProduct(e, x);
    MulMonotone(2 * Abs(e), P32, Abs(x));
    assert 2 * Abs(e) * Abs(x) == 2 * (Abs(e) * Abs(x));
  }

  lemma RowBound(lhs: int, rhs: int, n: int, m: int, ax: int, cy: int, et: int, du: int, dv: int, e1: int, e2: int,
                 x: int, y: int, u: int, v: int)
    requires P32 * (n - m) == 0 - ax - cy - et * P32 + du + dv
    requires n == lhs * P32 + e1 && m == rhs * P32 + e2 && 2 * Abs(e1) <= P32 && 2 * Abs(e2) <= P32 && 2 * Abs(et) <= P32
    requires 2 * Abs(ax) <= P32 * x && 2 * Abs(cy) <= P32 * y && 2 * Abs(du) <= P32 * u && 2 * Abs(dv) <= P32 * v
    ensures 2 * P32 * Abs(lhs - rhs) <= x + y + u + v + 3 * P32
  {
    hide Abs;
    var k := P32 * (lhs - rhs);
    assert P32 * k == 0 - ax - cy - et * P32 + du + dv - e1 * P32 + e2 * P32;
    RowLinear(k, ax, cy, et, du, dv, e1, e2, x, y, u, v);
    AbsScaled(lhs - rhs);
  }

  lemma AbsScaled(d: int)
    ensures Abs(P32 * d) == P32 * Abs(d)
  {
  }

  lemma RowLinear(k: int, ax: int, cy: int, et: int, du: int, dv: int, e1: int, e2: int, x: int, y: int, u: int, v: int)
    requires P32 * k == 0 - ax - cy - et * P32 + du + dv - e1 * P32 + e2 * P32
    requires 2 * Abs(e1) <= P32 && 2 * Abs(e2) <= P32 && 2 * Abs(et) <= P32
    requires 2 * Abs(ax) <= P32 * x && 2 * Abs(cy) <= P32 * y && 2 * Abs(du) <= P32 * u && 2 * Abs(dv) <= P32 * v
    ensures 2 * Abs(k) <= x + y + u + v + 3 * P32
  {
    var l := x + y + u + v + 3 * P32;
    assert P32 * (2 * k) <= P32 * l && P32 * (0 - 2 * k) <= P32 * l;
  }

  lemma RowIdentity(u: int, v: int, w: int, r: Transform, x: int, y: int, ma: int, mc: int, mt: int, qx: int, qy: int,
                    ea: int, ec: int, et: int, dx: int, dy: int)
    requires u * r.a + v * r.b == ma * P32 + ea && u * r.c + v * r.d == mc * P32 + ec
    requires u * r.tx + v * r.ty + w * P32 == mt * P32 + et
    requires r.a * x + r.c * y + r.tx * P32 == qx * P32 + dx && r.b * x + r.d * y + r.ty * P32 == qy * P32 + dy
    ensures P32 * (ma * x + mc * y + mt * P32 - (u * qx + v * qy + w * P32)) == 0 - ea * x - ec * y - et * P32 + dx * u + dy * v
  {
    RowPart(u, r.a, v, r.b, ma, ea, x);
    RowPart(u, r.c, v, r.d, mc, ec, y);
    ColumnPart(r.a, x, r.c, y, r.tx, qx, dx, u);
    ColumnPart(r.b, x, r.d, y, r.ty, qy, dy, v);
  }

  lemma RowPart(u: int, a: int, v: int, b: int, m: int, e: int, x: int)
    requires u * a + v * b == m * P32 + e
    ensures P32 * (m * x) + e * x == u * (a * x) + v * (b * x)
  {
    assert (m * P32 + e) * x == P32 * (m * x) + e * x;
    assert (u * a + v * b) * x == u * (a * x) + v * (b * x);
  }

  lemma ColumnPart(a: int, x: int, c: int, y: int, t: int, q: int, d: int, u: int)
    requires a * x + c * y + t * P32 == q * P32 + d
    ensures u * (a * x) + u * (c * y) + P32 * (u * t) == P32 * (u * q) + d * u
  {
    assert u * (a * x + c * y + t * P32) == u * (a * x) + u * (c * y) + P32 * (u * t);
    assert u * (q * P32 + d) == P32 * (u * q) + d * u;
  }

  /** Composition acts: mapping a point by `left` after `right` is mapping it by their composition,
      up to what rounding the entries and the intermediate point can move it. */
  lemma ComposeActs(left: Transform, right: Transform, p: Point)
    requires Compose(left, right).Ok? && TransformPoint(right, p).Ok?
    requires TransformPoint(Compose(left, right).value, p).Ok? && TransformPoint(left, TransformPoint(right, p).value).Ok?
    ensures var m, q := TransformPoint(Compose(left, right).value, p).value, TransformPoint(left, TransformPoint(right, p).value).value;
            && 2 * P32 * Abs(m.x - q.x) <= Abs(p.x) + Abs(p.y) + Abs(left.a) + Abs(left.c) + 3 * P32
            && 2 * P32 * Abs(m.y - q.y) <= Abs(p.x) + Abs(p.y) + Abs(left.b) + Abs(left.d) + 3 * P32
  {
    hide TransformPoint, Compose, Rounded, Fused2, Fused2Translate, Halved;
    var c, i := Compose(left, right).value, TransformPoint(right, p).value;
    TransformPointExact(right, p);
    TransformPointExact(c, p);
    TransformPointExact(left, i);
    ComposeEntries(left, right);
    ComposedHalves(left.a, left.c, left.tx, right, c.a, c.c, c.tx);
    ComposedHalves(left.b, left.d, left.ty, right, c.b, c.d, c.ty);
    var dx := RoundedHalved(right.a * p.x + right.c * p.y + right.tx * P32);
    var dy := RoundedHalved(right.b * p.x + right.d * p.y + right.ty * P32);
    var e1 := RoundedHalved(c.a * p.x + c.c * p.y + c.tx * P32);
    var e2 := RoundedHalved(left.a * i.x + left.c * i.y + left.tx * P32);
    var ea, ec, et := ComposedErrors(left.a, left.c, left.tx, right, c.a, c.c, c.tx);
    RowAction(left.a, left.c, left.tx, right, p.x, p.y, c.a, c.c, c.tx, i.x, i.y,
              TransformPoint(c, p).value.x, TransformPoint(left, i).value.x, ea, ec, et, dx, dy, e1, e2);
    e1 := RoundedHalved(c.b * p.x + c.d * p.y + c.ty * P32);
    e2 := RoundedHalved(left.b * i.x + left.d * i.y + left.ty * P32);
    ea, ec, et := ComposedErrors(left.b, left.d, left.ty, right, c.b, c.d, c.ty);
    RowAction(left.b, left.d, left.ty, right, p.x, p.y, c.b, c.d, c.ty, i.x, i.y,
              TransformPoint(c, p).value.y, TransformPoint(left, i).value.y, ea, ec, et, dx, dy, e1, e2);
  }

  /** The entries of one row of a composition, as rounded sums. */
  lemma ComposedHalves(u: Coord, v: Coord, w: Coord, r: Transform, ma: Coord, mc: Coord, mt: Coord)
    requires Fused2(u, v, r.a, r.b) == Ok(ma) && Fused2(u, v, r.c, r.d) == Ok(mc) && Fused2Translate(u, v, r.tx, r.ty, w) == Ok(mt)
    ensures ma == Rounded(u * r.a + v * r.b, P32, NearestEven) && mc == Rounded(u * r.c + v * r.d, P32, NearestEven)
    ensures mt == Rounded(u * r.tx + v * r.ty + w * P32, P32, NearestEven)
  {
    hide Fused2, Fused2Translate, Rounded;
    FusedExact(u, v, r.a, r.b, w);
    FusedExact(u, v, r.c, r.d, w);
    FusedExact(u, v, r.tx, r.ty, w);
  }

  lemma ComposedErrors(u: Coord, v: Coord, w: Coord, r: Transform, ma: Coord, mc: Coord, mt: Coord)
    returns (ea: int, ec: int, et: int)
    requires ma == Rounded(u * r.a + v * r.b, P32, NearestEven) && mc == Rounded(u * r.c + v * r.d, P32, NearestEven)
    requires mt == Rounded(u * r.tx + v * r.ty + w * P32, P32, NearestEven)
    ensures Halved(u * r.a + v * r.b, ma, ea) && Halved(u * r.c + v * r.d, mc, ec)
    ensures Halved(u * r.tx + v * r.ty + w * P32, mt, et)
  {
    hide Rounded, Halved;
    ea := RoundedHalved(u * r.a + v * r.b);
    ec := RoundedHalved(u * r.c + v * r.d);
    et := RoundedHalved(u * r.tx + v * r.ty + w * P32);
  }

  function RectEdges(r: Rect): Result<Point> {
    if r.width < 0 || r.height < 0 then Fail(InvalidArgument)
    else
      var right :- CoordAdd(r.x, r.width);
      var bottom :- CoordAdd(r.y, r.height);
      Ok(Point(right, bottom))
  }

  function RectFromEdges(left: Coord, top: Coord, right: Coord, bottom: Coord): Result<Rect> {
    if right < left || bottom < top then Fail(InvalidArgument)
    else
      var width :- CoordSub(right, left);
      var height :- CoordSub(bottom, top);
      var _ :- CoordAdd(left, width);
      var _ :- CoordAdd(top, height);
      Ok(Rect(left, top, width, height))
  }

  ghost predicate Inside(p: Point, r: Rect) {
    r.x <= p.x <= r.x + r.width && r.y <= p.y <= r.y + r.height
  }

  /** The exact image of (x, y) along one row of the matrix, before rounding. */
  ghost function Exact(p: Coord, q: Coord, x: int, y: int, translation: Coord): int {
    p * x + q * y + translation * P32
  }

  ghost function Min(a: int, b: int): int { if a <= b then a else b }
  ghost function Max(a: int, b: int): int { if a >= b then a else b }

  lemma BetweenEnds(p: int, x0: int, x: int, x1: int)
    requires x0 <= x <= x1
    ensures Min(p * x0, p * x1) <= p * x <= Max(p * x0, p * x1)
  {
    if p >= 0 {
      MulMonotone(x0, x, p);
      MulMonotone(x, x1, p);
    } else {
      MulMonotone(x0, x, -p);
      MulMonotone(x, x1, -p);
      assert x0 * -p == -(p * x0) && x * -p == -(p * x) && x1 * -p == -(p * x1);
    }
  }

  /** The least and greatest value of a row over a rectangle are taken at corners. */
  lemma RowExtremes(p: Coord, q: Coord, translation: Coord, x0: Coord, x1: Coord, y0: Coord, y1: Coord, x: Coord, y: Coord)
    returns (ulo: Coord, vlo: Coord, uhi: Coord, vhi: Coord)
    requires x0 <= x <= x1 && y0 <= y <= y1
    ensures ulo in {x0, x1} && uhi in {x0, x1} && vlo in {y0, y1} && vhi in {y0, y1}
    ensures Exact(p, q, ulo, vlo, translation) <= Exact(p, q, x, y, translation) <= Exact(p, q, uhi, vhi, translation)
  {
    BetweenEnds(p, x0, x, x1);
    BetweenEnds(q, y0, y, y1);
    ulo := if p * x0 <= p * x1 then x0 else x1;
    uhi := if p * x0 <= p * x1 then x1 else x0;
    vlo := if q * y0 <= q * y1 then y0 else y1;
    vhi := if q * y0 <= q * y1 then y1 else y0;
  }

  ghost predicate RowIn(p: Coord, q: Coord, x: Coord, y: Coord, translation: Coord, lo: int, hi: int) {
    var r := Fused2Translate(p, q, x, y, translation);
    r.Ok? && lo <= r.value <= hi
  }

  lemma RowBetween(p: Coord, q: Coord, translation: Coord, u: Coord, v: Coord, x: Coord, y: Coord, u': Coord, v': Coord,
                   lo: int, hi: int)
    requires Exact(p, q, u, v, translation) <= Exact(p, q, x, y, translation) <= Exact(p, q, u', v', translation)
    requires RowIn(p, q, u, v, translation, lo, hi) && RowIn(p, q, u', v', translation, lo, hi)
    ensures RowIn(p, q, x, y, translation, lo, hi)
  {
    FusedExact(p, q, u, v, translation);
    FusedExact(p, q, u', v', translation);
    FusedExact(p, q, x, y, translation);
    hide Fused2Translate, Rounded;
    RoundedMonotone(Exact(p, q, u, v, translation), Exact(p, q, x, y, translation), P32);
    RoundedMonotone(Exact(p, q, x, y, translation), Exact(p, q, u', v', translation), P32);
  }

  /** If all four corners round to coordinates between `lo` and `hi`, so does every point. */
  lemma RowWithin(p: Coord, q: Coord, translation: Coord, x0: Coord, x1: Coord, y0: Coord, y1: Coord,
                  x: Coord, y: Coord, lo: int, hi: int)
    requires x0 <= x <= x1 && y0 <= y <= y1
    requires RowIn(p, q, x0, y0, translation, lo, hi) && RowIn(p, q, x1, y0, translation, lo, hi)
    requires RowIn(p, q, x0, y1, translation, lo, hi) && RowIn(p, q, x1, y1, translation, lo, hi)
    ensures RowIn(p, q, x, y, translation, lo, hi)
  {
    hide RowIn;
    var u, v, u', v' := RowExtremes(p, q, translation, x0, x1, y0, y1, x, y);
    RowBetween(p, q, translation, u, v, x, y, u', v', lo, hi);
  }

  ghost predicate Lands(t: Transform, p: Point, left: int, top: int, right: int, bottom: int) {
    var r := TransformPoint(t, p);
    r.Ok? && left <= r.value.x <= right && top <= r.value.y <= bottom
  }

  lemma CornersBound(t: Transform, x0: Coord, x1: Coord, y0: Coord, y1: Coord, p: Point, left: int, top: int, right: int, bottom: int)
    requires Lands(t, Point(x0, y0), left, top, right, bottom) && Lands(t, Point(x1, y0), left, top, right, bottom)
    requires Lands(t, Point(x0, y1), left, top, right, bottom) && Lands(t, Point(x1, y1), left, top, right, bottom)
    requires x0 <= p.x <= x1 && y0 <= p.y <= y1
    ensures Lands(t, p, left, top, right, bottom)
  {
    hide Fused2Translate;
    RowWithin(t.a, t.c, t.tx, x0, x1, y0, y1, p.x, p.y, left, right);
    RowWithin(t.b, t.d, t.ty, x0, x1, y0, y1, p.x, p.y, top, bottom);
  }

  /** Every lattice point of the closed rectangle can be transformed and lands in `r`. */
  ghost predicate Encloses(t: Transform, rect: Rect, r: Rect) {
    forall p: Point :: Inside(p, rect) ==> Lands(t, p, r.x, r.y, r.x + r.width, r.y + r.height)
  }

  ghost predicate AttainsX(t: Transform, rect: Rect, v: int) {
    exists p: Point :: Inside(p, rect) && TransformPoint(t, p).Ok? && TransformPoint(t, p).value.x == v
  }

  ghost predicate AttainsY(t: Transform, rect: Rect, v: int) {
    exists p: Point :: Inside(p, rect) && TransformPoint(t, p).Ok? && TransformPoint(t, p).value.y == v
  }

  /** The extent of four points, with the index that attains each bound. */
  method Extent(points: array<Point>)
    returns (minX: Coord, maxX: Coord, minY: Coord, maxY: Coord, ghost at: (nat, nat, nat, nat))
    requires points.Length == 4
    ensures forall k :: 0 <= k < 4 ==> minX <= points[k].x <= maxX && minY <= points[k].y <= maxY
    ensures at.0 < 4 && at.1 < 4 && at.2 < 4 && at.3 < 4
    ensures points[at.0].x == minX && points[at.1].x == maxX && points[at.2].y == minY && points[at.3].y == maxY
  {
    minX, maxX := points[0].x, points[0].x;
    minY, maxY := points[0].y, points[0].y;
    at := (0, 0, 0, 0);
    for i := 1 to 4
      invariant forall k :: 0 <= k < i ==> minX <= points[k].x <= maxX && minY <= points[k].y <= maxY
      invariant at.0 < 4 && at.1 < 4 && at.2 < 4 && at.3 < 4
      invariant points[at.0].x == minX && points[at.1].x == maxX && points[at.2].y == minY && points[at.3].y == maxY
    {
      if points[i].x < minX { minX, at := points[i].x, (i, at.1, at.2, at.3); }
      if points[i].x > maxX { maxX, at := points[i].x, (at.0, i, at.2, at.3); }
      if points[i].y < minY { minY, at := points[i].y, (at.0, at.1, i, at.3); }
      if points[i].y > maxY { maxY, at := points[i].y, (at.0, at.1, at.2, i); }
    }
  }

  lemma RectFromEdgesExact(left: Coord, top: Coord, right: Coord, bottom: Coord)
    ensures RectFromEdges(left, top, right, bottom).Ok? ==>
              var r := RectFromEdges(left, top, right, bottom).value;
              r.x == left && r.y == top && r.x + r.width == right && r.y + r.height == bottom
    ensures left <= right && top <= bottom ==>
              (RectFromEdges(left, top, right, bottom).Ok? <==> I64(right - left) && I64(bottom - top))
  {
  }

  /** The far edges are the exact sums; nothing fails but a negative extent and an edge that does
      not fit. */
  lemma RectEdgesExact(r: Rect)
    ensures RectEdges(r) == Fail(InvalidArgument) <==> r.width < 0 || r.height < 0
    ensures RectEdges(r) == Fail(Overflow) <==>
              r.width >= 0 && r.height >= 0 && !(I64(r.x + r.width) && I64(r.y + r.height))
    ensures RectEdges(r).Ok? ==>
              && RectEdges(r).value.x == r.x + r.width && RectEdges(r).value.y == r.y + r.height
              && r.width >= 0 && r.height >= 0
  {
    AddSubExact(r.x, r.width);
    AddSubExact(r.y, r.height);
    hide CoordAdd, CoordSub;
  }

  ghost function Corners(rect: Rect): seq<Point>
    requires RectEdges(rect).Ok?
  {
    var e := RectEdges(rect).value;
    [Point(rect.x, rect.y), Point(e.x, rect.y), Point(rect.x, e.y), Point(e.x, e.y)]
  }

  /** The images of two points are no further apart than a coordinate can say. */
  ghost predicate SpanFits(t: Transform, p: Point, q: Point) {
    var u, v := TransformPoint(t, p), TransformPoint(t, q);
    u.Ok? && v.Ok? && I64(u.value.x - v.value.x) && I64(u.value.y - v.value.y)
  }

  /** All four corners have an image, and the images span a representable rectangle. */
  ghost predicate Boundable(t: Transform, rect: Rect) {
    RectEdges(rect).Ok? && forall j, k :: 0 <= j < 4 && 0 <= k < 4 ==> SpanFits(t, Corners(rect)[j], Corners(rect)[k])
  }

  /** The bounding rectangle of a transformed rectangle: it encloses the image of every
      point, and each of its four edges touches an image, so none smaller would do. */
  method TransformRectBounds(t: Transform, rect: Rect) returns (r: Result<Rect>)
    ensures r.Ok? <==> Boundable(t, rect)
    ensures r.Ok? ==> Encloses(t, rect, r.value)
    ensures r.Ok? ==> && AttainsX(t, rect, r.value.x) && AttainsX(t, rect, r.value.x + r.value.width)
                      && AttainsY(t, rect, r.value.y) && AttainsY(t, rect, r.value.y + r.value.height)
    ensures rect.width < 0 || rect.height < 0 ==> r == Fail(InvalidArgument)
  {
    var edges := RectEdges(rect);
    if edges.Fail? { return Fail(edges.error); }
    RectEdgesExact(rect);
    var right, bottom := edges.value.x, edges.value.y;
    var corners := [Point(rect.x, rect.y), Point(right, rect.y), Point(rect.x, bottom), Point(right, bottom)];
    assert corners == Corners(rect);
    hide TransformPoint, RectFromEdges, RectEdges, Corners;
    var transformed := new Point[4](_ => Point(0, 0));
    for i := 0 to 4
      invariant forall k :: 0 <= k < i ==> TransformPoint(t, corners[k]) == Ok(transformed[k])
    {
      var image := TransformPoint(t, corners[i]);
      if image.Fail? {
        assert !SpanFits(t, corners[i], corners[i]);
        return Fail(image.error);
      }
      transformed[i] := image.value;
    }
    var minX, maxX, minY, maxY;
    ghost var at;
    minX, maxX, minY, maxY, at := Extent(transformed);
    SpanOfImages(t, rect, corners, transformed[..], minX, maxX, minY, maxY, at);
    RectFromEdgesExact(minX, minY, maxX, maxY);
    r := RectFromEdges(minX, minY, maxX, maxY);
    if r.Fail? { return; }
    BoundsSound(t, rect, corners, transformed[..], r.value, at);
  }

  /** The images span a representable rectangle exactly when their extent fits. */
  lemma SpanOfImages(t: Transform, rect: Rect, corners: seq<Point>, images: seq<Point>, minX: Coord, maxX: Coord,
                     minY: Coord, maxY: Coord, at: (nat, nat, nat, nat))
    requires RectEdges(rect).Ok? && corners == Corners(rect) && |images| == |corners| == 4
    requires forall k :: 0 <= k < 4 ==> TransformPoint(t, corners[k]) == Ok(images[k])
    requires forall k :: 0 <= k < 4 ==> minX <= images[k].x <= maxX && minY <= images[k].y <= maxY
    requires at.0 < 4 && at.1 < 4 && at.2 < 4 && at.3 < 4
    requires images[at.0].x == minX && images[at.1].x == maxX && images[at.2].y == minY && images[at.3].y == maxY
    ensures minX <= maxX && minY <= maxY
    ensures Boundable(t, rect) <==> I64(maxX - minX) && I64(maxY - minY)
  {
    hide TransformPoint, RectEdges, Corners;
    assert Boundable(t, rect) ==> SpanFits(t, corners[at.1], corners[at.0]) && SpanFits(t, corners[at.3], corners[at.2]);
  }

  lemma BoundsSound(t: Transform, rect: Rect, corners: seq<Point>, images: seq<Point>, r: Rect, at: (nat, nat, nat, nat))
    requires RectEdges(rect).Ok? && |images| == 4
    requires var e := RectEdges(rect).value;
             corners == [Point(rect.x, rect.y), Point(e.x, rect.y), Point(rect.x, e.y), Point(e.x, e.y)]
    requires forall k :: 0 <= k < 4 ==> TransformPoint(t, corners[k]) == Ok(images[k]) && Inside(images[k], r)
    requires at.0 < 4 && at.1 < 4 && at.2 < 4 && at.3 < 4
    requires images[at.0].x == r.x && images[at.1].x == r.x + r.width && images[at.2].y == r.y && images[at.3].y == r.y + r.height
    ensures Encloses(t, rect, r)
    ensures AttainsX(t, rect, r.x) && AttainsX(t, rect, r.x + r.width) && AttainsY(t, rect, r.y) && AttainsY(t, rect, r.y + r.height)
  {
    RectEdgesExact(rect);
    var e := RectEdges(rect).value;
    assert forall k :: 0 <= k < 4 ==> Inside(corners[k], rect);
    assert forall k :: 0 <= k < 4 ==> Inside(images[k], r);
    hide TransformPoint, RectEdges;
    assert forall k :: 0 <= k < 4 ==> Lands(t, corners[k], r.x, r.y, r.x + r.width, r.y + r.height);
    Enclosed(t, rect, e.x, e.y, corners, r);
    hide Inside, Lands, Encloses;
    assert TransformPoint(t, corners[at.0]).Ok? && TransformPoint(t, corners[at.1]).Ok?;
    assert TransformPoint(t, corners[at.2]).Ok? && TransformPoint(t, corners[at.3]).Ok?;
  }

  lemma Enclosed(t: Transform, rect: Rect, right: Coord, bottom: Coord, corners: seq<Point>, r: Rect)
    requires right == rect.x + rect.width && bottom == rect.y + rect.height
    requires corners == [Point(rect.x, rect.y), Point(right, rect.y), Point(rect.x, bottom), Point(right, bottom)]
    requires forall k :: 0 <= k < 4 ==> Lands(t, corners[k], r.x, r.y, r.x + r.width, r.y + r.height)
    ensures Encloses(t, rect, r)
  {
    hide Lands;
    assert Lands(t, corners[0], r.x, r.y, r.x + r.width, r.y + r.height);
    assert Lands(t, corners[1], r.x, r.y, r.x + r.width, r.y + r.height);
    assert Lands(t, corners[2], r.x, r.y, r.x + r.width, r.y + r.height);
    assert Lands(t, corners[3], r.x, r.y, r.x + r.width, r.y + r.height);
    forall p: Point | Inside(p, rect) ensures Lands(t, p, r.x, r.y, r.x + r.width, r.y + r.height) {
      CornersBound(t, rect.x, right, rect.y, bottom, p, r.x, r.y, r.x + r.width, r.y + r.height);
    }
  }
}

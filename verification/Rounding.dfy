/** Division of 128-bit numerators with four rounding modes, and the specialised
    nearest-even paths that must agree with it. */
module Rounding {
  import opened Native

  const P31: int := 0x8000_0000
  const P32: int := 0x1_0000_0000
  const P63: int := 0x8000_0000_0000_0000
  const P64: int := 0x1_0000_0000_0000_0000
  const P127: int := 0x8000_0000_0000_0000_0000_0000_0000_0000
  const U128_MAX: int := 0xFFFF_FFFF_FFFF_FFFF_FFFF_FFFF_FFFF_FFFF

  predicate I64(n: int) { I64_MIN <= n <= I64_MAX }
  predicate I128(n: int) { -P127 <= n < P127 }

  /** A Q32.32 coordinate: 64 bits, 32 of them fraction. */
  type Coord = n: int | I64_MIN <= n <= I64_MAX

  datatype Error = InvalidArgument | Overflow | Singular

  datatype Result<+T> = Ok(value: T) | Fail(error: Error) {
    predicate IsFailure() { Fail? }
    function PropagateFailure<U>(): Result<U>
      requires Fail?
    {
      Fail(error)
    }
    function Extract(): T
      requires Ok?
    {
      value
    }
  }

  datatype Mode = TowardZero | Floor | Ceil | NearestEven

  function Abs(n: int): nat { if n >= 0 then n else -n }

  // ---- Specification ---------------------------------------------------------

  /** `q` is `n / d` rounded: stated with the denominator made positive. */
  ghost predicate IsRounding(n: int, d: int, mode: Mode, q: int)
    requires d != 0
  {
    var N, D := if d > 0 then n else -n, Abs(d);
    ResidueOk(N, D, mode, q, N - q * D)
  }

  /** What a mode allows as the distance of `N` from `q` times `D`. */
  ghost predicate ResidueOk(N: int, D: int, mode: Mode, q: int, residue: int) {
    match mode
    case Floor => 0 <= residue < D
    case Ceil => -D < residue <= 0
    case TowardZero => if N >= 0 then 0 <= residue < D else -D < residue <= 0
    case NearestEven => 2 * Abs(residue) <= D && (2 * Abs(residue) == D ==> q % 2 == 0)
  }

  /** The rounding in terms of floor division. */
  ghost function Rounded(n: int, d: int, mode: Mode): int
    requires d != 0
  {
    var N, D := if d > 0 then n else -n, Abs(d);
    var q, r := N / D, N % D;
    match mode
    case Floor => q
    case Ceil => if r == 0 then q else q + 1
    case TowardZero => if N >= 0 || r == 0 then q else q + 1
    case NearestEven => if 2 * r < D || (2 * r == D && q % 2 == 0) then q else q + 1
  }

  lemma DivMod(n: int, d: int)
    requires d > 0
    ensures n == n / d * d + n % d && 0 <= n % d < d
  {
  }

  lemma MulMonotone(a: int, b: int, d: int)
    requires a <= b && d >= 0
    ensures a * d <= b * d
  {
    assert b * d - a * d == (b - a) * d;
  }

  /** Multiples of `d` that differ, differ by at least `d`. */
  lemma MultiplesApart(q: int, q': int, d: int)
    requires d > 0 && q < q'
    ensures q * d + d <= q' * d
    ensures q + 1 < q' ==> q * d + 2 * d <= q' * d
  {
    MulMonotone(q + 1, q', d);
    assert (q + 1) * d == q * d + d;
    if q + 1 < q' {
      MulMonotone(q + 2, q', d);
      assert (q + 2) * d == q * d + 2 * d;
    }
  }

  lemma RoundingUnique(n: int, d: int, mode: Mode, q: int, q': int)
    requires d != 0 && IsRounding(n, d, mode, q) && IsRounding(n, d, mode, q')
    ensures q == q'
  {
    if q < q' { MultiplesApart(q, q', Abs(d)); }
    if q' < q { MultiplesApart(q', q, Abs(d)); }
  }

  /** `Rounded` is a rounding of `n / d`. */
  lemma RoundedIsRounding(n: int, d: int, mode: Mode)
    requires d != 0
    ensures IsRounding(n, d, mode, Rounded(n, d, mode))
  {
    var N, D := if d > 0 then n else -n, Abs(d);
    DivMod(N, D);
    var q, r := N / D, N % D;
    FloorRounds(n, d, mode, q, r);
  }

  lemma FloorRounds(n: int, d: int, mode: Mode, q: int, r: int)
    requires d != 0
    requires (if d > 0 then n else -n) == q * Abs(d) + r && 0 <= r < Abs(d)
    ensures IsRounding(n, d, mode,
                       match mode
                       case Floor => q
                       case Ceil => if r == 0 then q else q + 1
                       case TowardZero => if q * Abs(d) + r >= 0 || r == 0 then q else q + 1
                       case NearestEven => if 2 * r < Abs(d) || (2 * r == Abs(d) && q % 2 == 0) then q else q + 1)
  {
    var N, D := if d > 0 then n else -n, Abs(d);
    SignedProduct(q, D, true, false);
    FloorResidue(N, D, mode, q, r);
  }

  lemma FloorResidue(N: int, D: int, mode: Mode, q: int, r: int)
    requires 0 <= r < D
    ensures var up := match mode
                      case Floor => false
                      case Ceil => r != 0
                      case TowardZero => N < 0 && r != 0
                      case NearestEven => 2 * r > D || (2 * r == D && q % 2 != 0);
            ResidueOk(N, D, mode, if up then q + 1 else q, if up then r - D else r)
  {
  }

  /** The exact rounding, reported as an overflow when it is not a 64-bit value. */
  ghost function Narrowed(q: int): Result<Coord> {
    if I64(q) then Ok(q) else Fail(Overflow)
  }

  // ---- The general divider ---------------------------------------------------

  /** Magnitude without negating the most negative value. */
  function Magnitude(n: int): (m: nat)
    ensures m == Abs(n)
  {
    if n >= 0 then n else -(n + 1) + 1
  }

  /** Applies the sign to a rounded magnitude and checks the 64-bit range. */
  function Signed(quotient: int, negative: bool): Result<Coord>
    requires quotient >= 0
  {
    if !negative then
      if quotient > I64_MAX then Fail(Overflow) else Coordinate(quotient)
    else if quotient > I64_MAX + 1 then Fail(Overflow)
    else if quotient == I64_MAX + 1 then Coordinate(I64_MIN)
    else Coordinate(-quotient)
  }

  function Coordinate(n: Coord): Result<Coord> { Ok(n) }

  predicate Increments(mode: Mode, negative: bool, quotient: int, remainder: int, divisor: int) {
    remainder != 0 &&
    match mode
    case TowardZero => false
    case Floor => negative
    case Ceil => !negative
    case NearestEven => remainder > divisor - remainder || (remainder == divisor - remainder && quotient % 2 != 0)
  }

  function RoundDiv(n: int, d: int, mode: Mode): Result<Coord> {
    if d == 0 then Fail(InvalidArgument)
    else
      var negative := (n < 0) != (d < 0);
      var divisor := Magnitude(d);
      var quotient, remainder := Magnitude(n) / divisor, Magnitude(n) % divisor;
      QuotientBound(Magnitude(n), divisor);
      if Increments(mode, negative, quotient, remainder, divisor) then
        if quotient == U128_MAX then Fail(Overflow) else Signed(quotient + 1, negative)
      else Signed(quotient, negative)
  }

  /** Rounding a magnitude and restoring the sign rounds the signed quotient. */
  lemma SignedRounding(n: int, d: int, mode: Mode, quotient: int, remainder: int)
    requires quotient >= 0 && remainder >= 0
    requires d != 0 && Abs(n) == quotient * Abs(d) + remainder && remainder < Abs(d)
    ensures var negative := (n < 0) != (d < 0);
            var q := if Increments(mode, negative, quotient, remainder, Abs(d)) then quotient + 1 else quotient;
            IsRounding(n, d, mode, if negative then -q else q) && Signed(q, negative) == Narrowed(if negative then -q else q)
  {
    var N, D := if d > 0 then n else -n, Abs(d);
    var negative := (n < 0) != (d < 0);
    var up := Increments(mode, negative, quotient, remainder, D);
    MulMonotone(0, quotient, D);
    SignedResidue(N, D, mode, negative, quotient, remainder);
    SignedProduct(quotient, D, up, negative);
  }

  lemma SignedResidue(N: int, D: int, mode: Mode, negative: bool, quotient: int, remainder: int)
    requires 0 <= remainder < D && quotient >= 0
    requires (negative ==> N <= 0) && (!negative ==> N >= 0) && (N == 0 ==> remainder == 0)
    ensures var up := Increments(mode, negative, quotient, remainder, D);
            var q, residue := if up then quotient + 1 else quotient, if up then remainder - D else remainder;
            ResidueOk(N, D, mode, if negative then -q else q, if negative then -residue else residue)
  {
  }

  lemma SignedProduct(quotient: int, D: int, up: bool, negative: bool)
    ensures var q, product := if up then quotient + 1 else quotient, quotient * D + if up then D else 0;
            (if negative then -q else q) * D == if negative then -product else product
  {
    assert (quotient + 1) * D == quotient * D + D;
    assert (-quotient) * D == -(quotient * D);
    assert (-(quotient + 1)) * D == -(quotient * D) - D;
  }

  /** The general divider returns the exact rounding, or an overflow exactly when that
      rounding is not a 64-bit value. */
  lemma RoundDivCorrect(n: int, d: int, mode: Mode)
    requires I128(n) && I128(d) && d != 0
    ensures RoundDiv(n, d, mode) == Narrowed(Rounded(n, d, mode))
  {
    DivMod(Magnitude(n), Magnitude(d));
    var quotient, remainder := Magnitude(n) / Magnitude(d), Magnitude(n) % Magnitude(d);
    QuotientBound(Magnitude(n), Magnitude(d));
    SignedRounding(n, d, mode, quotient, remainder);
    RoundedIsRounding(n, d, mode);
    var negative := (n < 0) != (d < 0);
    var q := if Increments(mode, negative, quotient, remainder, Magnitude(d)) then quotient + 1 else quotient;
    RoundingUnique(n, d, mode, if negative then -q else q, Rounded(n, d, mode));
  }

  lemma QuotientBound(m: nat, d: nat)
    requires d > 0
    ensures 0 <= m / d <= m
  {
    DivMod(m, d);
    NonNegativeQuotient(m / d, d, m);
  }

  lemma NonNegativeQuotient(q: int, d: int, m: int)
    requires d > 0 && 0 <= m && q * d <= m < q * d + d
    ensures 0 <= q <= m
  {
    assert (q + 1) * d == q * d + d && d * q == q * d;
    if q < 0 { MulMonotone(q + 1, 0, d); }
    if q > m { MulMonotone(1, d, q); }
  }

  // ---- Specialised nearest-even paths ----------------------------------------

  /** The hardware path: a 128-by-64 unsigned division guarded by its high word. */
  function DivqNearestEven(n: int, d: int): Result<Coord> {
    if d == 0 then Fail(InvalidArgument)
    else
      var negative := (n < 0) != (d < 0);
      var magnitude, divisor := Magnitude(n), Magnitude(d);
      var high := magnitude / P64;
      if high >= divisor then Fail(Overflow)
      else
        var quotient, remainder := magnitude / divisor, magnitude % divisor;
        var up := remainder > divisor - remainder || (remainder == divisor - remainder && quotient % 2 != 0);
        if up && quotient == U64_MAX then Fail(Overflow)
        else
          var rounded := if up then quotient + 1 else quotient;
          var limit := if negative then I64_MAX + 1 else I64_MAX;
          if rounded > limit then Fail(Overflow)
          else if !negative then Ok(rounded)
          else if rounded == I64_MAX + 1 then Ok(I64_MIN)
          else Ok(-rounded)
  }

  /** Division that truncates toward zero, as C divides signed integers. */
  function TruncDiv(n: int, d: int): int
    requires d != 0
  {
    if (n < 0) != (d < 0) then -(Abs(n) / Abs(d)) else Abs(n) / Abs(d)
  }

  function TruncMod(n: int, d: int): int
    requires d != 0
  {
    n - TruncDiv(n, d) * d
  }

  /** The portable path: signed division, then a step away from zero. */
  function PortableNearestEven(n: int, d: int): Result<Coord> {
    if d == 0 then Fail(InvalidArgument)
    else
      var quotient, remainder := TruncDiv(n, d), TruncMod(n, d);
      var negative := (n < 0) != (d < 0);
      var twice := Abs(remainder) * 2;
      var rounded :=
        if twice > Abs(d) || (twice == Abs(d) && quotient % 2 != 0) then quotient + (if negative then -1 else 1)
        else quotient;
      if rounded < I64_MIN || rounded > I64_MAX then Fail(Overflow) else Ok(rounded)
  }

  /** The shift path for the fixed denominator 2^32. */
  function ShiftNearestEven(n: int): Result<Coord> {
    var negative := n < 0;
    var magnitude := Magnitude(n);
    var quotient, remainder := magnitude / P32, magnitude % P32;
    var rounded := if remainder > P31 || (remainder == P31 && quotient % 2 != 0) then quotient + 1 else quotient;
    var limit := if negative then I64_MAX + 1 else I64_MAX;
    if rounded > limit then Fail(Overflow)
    else if !negative then Ok(rounded)
    else if rounded == I64_MAX + 1 then Ok(I64_MIN)
    else Ok(-rounded)
  }

  lemma ShiftEqualsGeneral(n: int)
    requires I128(n)
    ensures ShiftNearestEven(n) == RoundDiv(n, P32, NearestEven) == Narrowed(Rounded(n, P32, NearestEven))
  {
    RoundDivCorrect(n, P32, NearestEven);
  }

  /** The early exit on the high word is taken only when the quotient has 65 bits or more. */
  lemma HighWord(m: nat, d: nat)
    requires 0 < d
    ensures m / P64 >= d <==> m / d >= P64
  {
    DivMod(m, P64);
    DivMod(m, d);
    HighWordCore(m, d, m / P64, m / d);
  }

  lemma HighWordCore(m: int, d: int, h: int, q: int)
    requires d > 0 && h * P64 <= m < h * P64 + P64 && q * d <= m < q * d + d
    ensures h >= d <==> q >= P64
  {
    assert (q + 1) * d == q * d + d;
    if h >= d {
      if q < P64 { MulMonotone(q + 1, P64, d); }
    } else if q >= P64 {
      MulMonotone(P64, q, d);
    }
  }

  lemma DivqEqualsGeneral(n: int, d: int)
    requires I128(n) && I64(d)
    ensures DivqNearestEven(n, d) == RoundDiv(n, d, NearestEven)
  {
    if d != 0 {
      HighWord(Magnitude(n), Magnitude(d));
      QuotientBound(Magnitude(n), Magnitude(d));
    }
  }

  /** The portable path agrees wherever it is defined: only the quotient of -2^127 by -1 does not
      fit the signed 128-bit division. */
  lemma PortableEqualsGeneral(n: int, d: int)
    requires I128(n) && !(n == -P127 && d == -1) && I64(d)
    ensures PortableNearestEven(n, d) == RoundDiv(n, d, NearestEven)
  {
    if d != 0 {
      DivMod(Abs(n), Abs(d));
      QuotientBound(Abs(n), Abs(d));
      TruncModMagnitude(n, d);
      hide TruncMod;
      assert TruncDiv(n, d) % 2 != 0 <==> Abs(n) / Abs(d) % 2 != 0;
    }
  }

  lemma TruncModMagnitude(n: int, d: int)
    requires d != 0
    ensures Abs(TruncMod(n, d)) == Abs(n) % Abs(d)
  {
    DivMod(Abs(n), Abs(d));
    var q: int := Abs(n) / Abs(d);
    SignProducts(q, d);
  }

  lemma SignProducts(q: int, d: int)
    ensures (-q) * d == -(q * d) && q * (-d) == -(q * d)
  {
  }

  // ---- Monotonicity and error ------------------------------------------------

  /** Nearest-even rounding is monotone. */
  lemma RoundedMonotone(n: int, n': int, d: int)
    requires d > 0 && n <= n'
    ensures Rounded(n, d, NearestEven) <= Rounded(n', d, NearestEven)
  {
    RoundedIsRounding(n, d, NearestEven);
    RoundedIsRounding(n', d, NearestEven);
    var q, q' := Rounded(n, d, NearestEven), Rounded(n', d, NearestEven);
    if q' < q { MultiplesApart(q', q, d); }
  }

  /** The rounding is within half a unit: twice the error is at most the denominator. */
  lemma NegatedFactor(q: int, d: int)
    ensures q * (0 - d) == 0 - q * d
  {
  }

  lemma RoundedError(n: int, d: int)
    requires d != 0
    ensures 2 * Abs(n - Rounded(n, d, NearestEven) * d) <= Abs(d)
  {
    hide Rounded;
    RoundedIsRounding(n, d, NearestEven);
    var q := Rounded(n, d, NearestEven);
    if d < 0 { NegatedFactor(q, d); }
  }
}

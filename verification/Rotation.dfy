/** Rotation coefficients from a 31-step integer CORDIC. */
module Rotation {
  import opened Native
  import opened Rounding
  import opened Affine

  const QUARTER: int := ONE / 4
  const K_Q62: int := 2800459870029453824
  const STEPS: nat := 31

  /** arctan(2^-i) in Q32.32 turns. */
  const ATAN: seq<int> :=
    [536870912, 316933406, 167458907, 85004756, 42667331, 21354465, 10679838, 5340245, 2670163, 1335087, 667544,
     333772, 166886, 83443, 41722, 20861, 10430, 5215, 2608, 1304, 652, 326, 163, 81, 41, 20, 10, 5, 3, 1, 1]

  function Pow2(i: nat): (p: nat)
    ensures p > 0
  {
    if i == 0 then 1 else 2 * Pow2(i - 1)
  }

  function Pow4(i: nat): (p: nat)
    ensures p > 0
  {
    if i == 0 then 1 else 4 * Pow4(i - 1)
  }

  // ---- Arithmetic shift ------------------------------------------------------

  /** Right shift of a signed value, computed on its magnitude. */
  function ShiftRight(value: int, shift: nat): int {
    if shift == 0 || value >= 0 then value / Pow2(shift)
    else
      var magnitude := Magnitude(value);
      var quotient := magnitude / Pow2(shift);
      if magnitude % Pow2(shift) != 0 then -(quotient + 1) else -quotient
  }

  lemma FloorUnique(n: int, d: int, q: int)
    requires d > 0 && q * d <= n < q * d + d
    ensures n / d == q
  {
    DivMod(n, d);
    if n / d < q { MultiplesApart(n / d, q, d); }
    if q < n / d { MultiplesApart(q, n / d, d); }
  }

  /** The shift is floor division by the power of two, for negative values as well. */
  lemma ShiftIsFloor(value: int, shift: nat)
    ensures ShiftRight(value, shift) == value / Pow2(shift)
  {
    if shift != 0 && value < 0 {
      var d, m := Pow2(shift), Magnitude(value);
      DivMod(m, d);
      var q: int := m / d;
      assert (-q) * d == -(q * d) && (-(q + 1)) * d == -(q * d) - d;
      FloorUnique(value, d, if m % d != 0 then -(q + 1) else -q);
    }
  }

  // ---- The iteration ---------------------------------------------------------

  datatype State = State(x: int, y: int, z: int)

  function Start(remainder: int): State {
    State(K_Q62, 0, remainder)
  }

  function Step(s: State, i: nat): State
    requires i < STEPS
  {
    var shiftedX, shiftedY := ShiftRight(s.x, i), ShiftRight(s.y, i);
    if s.z >= 0 then State(s.x - shiftedY, s.y + shiftedX, s.z - ATAN[i])
    else State(s.x + shiftedY, s.y - shiftedX, s.z + ATAN[i])
  }

  function Run(remainder: int, i: nat): State
    requires i <= STEPS
  {
    if i == 0 then Start(remainder) else Step(Run(remainder, i - 1), i - 1)
  }

  /** The residual angle shrinks to the size of the last table entry it was compared with. */
  function AngleBound(i: nat): int
    requires i <= STEPS
  {
    if i == 0 then QUARTER
    else if ATAN[i - 1] >= AngleBound(i - 1) - ATAN[i - 1] then ATAN[i - 1] else AngleBound(i - 1) - ATAN[i - 1]
  }

  lemma {:induction false} AngleShrinks(remainder: int, i: nat)
    requires 0 < remainder < QUARTER && i <= STEPS
    ensures Abs(Run(remainder, i).z) <= AngleBound(i)
    decreases i
  {
    if i > 0 {
      AngleShrinks(remainder, i - 1);
      assert ATAN[i - 1] > 0;
    }
  }

  lemma {:induction false} AngleBoundInRange(i: nat)
    requires i <= STEPS
    ensures 0 <= AngleBound(i) <= QUARTER
    decreases i
  {
    if i > 0 {
      AngleBoundInRange(i - 1);
      assert 0 < ATAN[i - 1] <= QUARTER;
    }
  }

  lemma AngleBoundStep(i: nat)
    requires i < STEPS
    ensures AngleBound(i + 1) == if ATAN[i] >= AngleBound(i) - ATAN[i] then ATAN[i] else AngleBound(i) - ATAN[i]
  {
  }

  lemma AngleBoundAt6()
    ensures AngleBound(6) == 21354465
  {
    AngleBoundStep(0);
    AngleBoundStep(1);
    AngleBoundStep(2);
    AngleBoundStep(3);
    AngleBoundStep(4);
    AngleBoundStep(5);
  }

  lemma AngleBoundAt12()
    ensures AngleBound(12) == 333772
  {
    AngleBoundAt6();
    hide AngleBound;
    AngleBoundStep(6);
    AngleBoundStep(7);
    AngleBoundStep(8);
    AngleBoundStep(9);
    AngleBoundStep(10);
    AngleBoundStep(11);
  }

  lemma AngleBoundAt18()
    ensures AngleBound(18) == 5216
  {
    AngleBoundAt12();
    hide AngleBound;
    AngleBoundStep(12);
    AngleBoundStep(13);
    AngleBoundStep(14);
    AngleBoundStep(15);
    AngleBoundStep(16);
    AngleBoundStep(17);
  }

  lemma AngleBoundAt24()
    ensures AngleBound(24) == 82
  {
    AngleBoundAt18();
    hide AngleBound;
    AngleBoundStep(18);
    AngleBoundStep(19);
    AngleBoundStep(20);
    AngleBoundStep(21);
    AngleBoundStep(22);
    AngleBoundStep(23);
  }

  lemma FinalAngleBound()
    ensures AngleBound(STEPS) == 1
  {
    AngleBoundAt24();
    hide AngleBound;
    AngleBoundStep(24);
    AngleBoundStep(25);
    AngleBoundStep(26);
    AngleBoundStep(27);
    AngleBoundStep(28);
    AngleBoundStep(29);
    AngleBoundStep(30);
  }

  /** After the last step at most one raw unit of angle is left. */
  lemma ResidualAngle(remainder: int)
    requires 0 < remainder < QUARTER
    ensures Abs(Run(remainder, STEPS).z) <= 1
  {
    AngleShrinks(remainder, STEPS);
    FinalAngleBound();
  }

  // ---- The length of the vector ----------------------------------------------

  /** The squared length an exact iteration would have, rounded down at each step. */
  function Norm(i: nat): int {
    if i == 0 then K_Q62 * K_Q62 else Norm(i - 1) + Norm(i - 1) / Pow4(i - 1)
  }

  const P60: int := 0x1000_0000_0000_0000
  const P61: int := 0x2000_0000_0000_0000
  const P67: int := 0x8_0000_0000_0000_0000
  const P68: int := 0x10_0000_0000_0000_0000
  const P124: int := 0x1000_0000_0000_0000_0000_0000_0000_0000

  /** The starting constant makes the exact final length one, to 50 bits. */
  lemma FinalNorm()
    ensures Norm(STEPS) == P124 + 13208153604849421825207
  {
    assert Pow4(0) == 1 && Norm(1) == 15685150967290770808521906575496445952;
    assert Pow4(1) == 4 && Norm(2) == 19606438709113463510652383219370557440;
    assert Pow4(2) == 16 && Norm(3) == 20831841128433054980068157170581217280;
    assert Pow4(3) == 64 && Norm(4) == 21157338646064821464131722126371548800;
    assert Pow4(4) == 256 && Norm(5) == 21239984500151012172975986665927687662;
    assert Pow4(5) == 1024 && Norm(6) == 21260726672514440895801158527906132669;
    assert Pow4(6) == 4096 && Norm(7) == 21265917279612222741722984982624859752;
    assert Pow4(7) == 16384 && Norm(8) == 21267215248196183448677435848407490663;
    assert Pow4(8) == 65536 && Norm(9) == 21267539760147602457824296771195704888;
    assert Pow4(9) == 262144 && Norm(10) == 21267620889373372063851739033069984656;
    assert Pow4(10) == 1048576 && Norm(11) == 21267641171757185324284996948317933369;
    assert Pow4(11) == 4194304 && Norm(12) == 21267646242357974336522861510590231303;
    assert Pow4(12) == 16777216 && Norm(13) == 21267647510008473820941154541022784033;
    assert Pow4(13) == 67108864 && Norm(14) == 21267647826921117581510158077443167203;
    assert Pow4(14) == 268435456 && Norm(15) == 21267647906149279702244006222712613566;
    assert Pow4(15) == 1073741824 && Norm(16) == 21267647925956320306214444187364352998;
    assert Pow4(16) == 4294967296 && Norm(17) == 21267647930908080461818739691228055569;
    assert Pow4(17) == 17179869184 && Norm(18) == 21267647932146020501008043943256214649;
    assert Pow4(18) == 68719476736 && Norm(19) == 21267647932455505510823384404771338313;
    assert Pow4(19) == 274877906944 && Norm(20) == 21267647932532876763278345420056940008;
    assert Pow4(20) == 1099511627776 && Norm(21) == 21267647932552219576392156042622517754;
    assert Pow4(21) == 4398046511104 && Norm(22) == 21267647932557055279670613096310423289;
    assert Pow4(22) == 17592186044416 && Norm(23) == 21267647932558264205490227634610306616;
    assert Pow4(23) == 70368744177664 && Norm(24) == 21267647932558566436945131286365146631;
    assert Pow4(24) == 281474976710656 && Norm(25) == 21267647932558641994808857200377598458;
    assert Pow4(25) == 1125899906842624 && Norm(26) == 21267647932558660884274788678947820278;
    assert Pow4(26) == 4503599627370496 && Norm(27) == 21267647932558665606641271548594570037;
    assert Pow4(27) == 18014398509481984 && Norm(28) == 21267647932558666787232892266006519620;
    assert Pow4(28) == 72057594037927936 && Norm(29) == 21267647932558667082380797445359523399;
    assert Pow4(29) == 288230376151711744 && Norm(30) == 21267647932558667156167773740197775367;
    assert Pow4(30) == 1152921504606846976 && Norm(31) == 21267647932558667174614517813907338423;
  }

  lemma {:induction false} NormGrows(i: nat, j: nat)
    requires i <= j
    ensures 0 < Norm(i) <= Norm(j)
    decreases j
  {
    if i < j {
      NormGrows(i, j - 1);
      QuotientBound(Norm(j - 1), Pow4(j - 1));
    } else if j > 0 {
      NormGrows(i - 1, j - 1);
      QuotientBound(Norm(j - 1), Pow4(j - 1));
    }
  }

  function Square(s: State): int { s.x * s.x + s.y * s.y }

  lemma SquareOfProduct(s: int, f: int)
    ensures s * s * (f * f) == (s * f) * (s * f)
  {
  }

  lemma DifferenceOfSquares(w: int, x: int)
    ensures w * w - x * x == (w - x) * (w + x)
  {
  }

  /** One coordinate: shifting right and left again changes the square by little. */
  lemma ShiftedSquare(x: int, s: int, f: int, r: int)
    requires s > 0 && x == s * f + r && 0 <= r < s
    ensures Abs(s * s * (f * f) - x * x) <= s * (2 * Abs(x) + s)
  {
    SquareOfProduct(s, f);
    NearSquares(s * f, x, s);
  }

  lemma NearSquares(w: int, x: int, s: int)
    requires Abs(w - x) <= s
    ensures Abs(w * w - x * x) <= s * (2 * Abs(x) + s)
  {
    DifferenceOfSquares(w, x);
    AbsProduct(w - x, w + x);
    MagnitudeBound(Abs(w - x), Abs(w + x), s, 2 * Abs(x) + s);
  }

  /** The cross term that truncation leaves behind. */
  lemma CrossTerm(x: int, s: int, f: int, r: int, r': int)
    requires s > 0 && x == s * f + r && 0 <= r < s && 0 <= r' < s
    ensures Abs(r' * f) <= Abs(x) + s
  {
    AbsProduct(r', f);
    AbsProduct(s, f);
    MulMonotone(r', s, Abs(f));
  }

  lemma StepIdentity(x: int, y: int, s: int, fx: int, fy: int, rx: int, ry: int)
    requires x == s * fx + rx && y == s * fy + ry
    ensures (x - fy) * (x - fy) + (y + fx) * (y + fx) == x * x + y * y + (fx * fx + fy * fy) + 2 * (ry * fx - rx * fy)
    ensures (x + fy) * (x + fy) + (y - fx) * (y - fx) == x * x + y * y + (fx * fx + fy * fy) - 2 * (ry * fx - rx * fy)
  {
    assert y * fx - x * fy == ry * fx - rx * fy by {
      assert y * fx == s * fy * fx + ry * fx && x * fy == s * fx * fy + rx * fy;
      assert s * fy * fx == s * fx * fy;
    }
    assert (x - fy) * (x - fy) == x * x - 2 * (x * fy) + fy * fy;
    assert (y + fx) * (y + fx) == y * y + 2 * (y * fx) + fx * fx;
    assert (x + fy) * (x + fy) == x * x + 2 * (x * fy) + fy * fy;
    assert (y - fx) * (y - fx) == y * y - 2 * (y * fx) + fx * fx;
  }

  lemma CarryIdentity(S: int, T: int, Q: int, t: int, u: int, cross: int, s2: int)
    requires T == s2 * t + u
    ensures s2 * (S + Q + cross - (T + t)) == s2 * (S - T) + (S - T) + (s2 * Q - S) + u + s2 * cross
  {
  }

  /** Carrying the distance to the exact norm through one step; `s2` is the squared scale. */
  lemma CarryError(S: int, T: int, Q: int, t: int, u: int, cross: int, s2: int, E: int, m: int)
    requires s2 > 0 && T == s2 * t + u && 0 <= u < s2 && 0 <= m
    requires Abs(S - T) <= E <= s2 * P67
    requires Abs(s2 * Q - S) <= s2 * (2 * m + 2) && Abs(cross) <= 2 * m + 4 * P31
    ensures Abs(S + Q + cross - (T + t)) <= E + P67 + 4 * m + 4 * P31 + 3
  {
    var c := 2 * m + 4 * P31;
    CarryIdentity(S, T, Q, t, u, cross, s2);
    MagnitudeProduct(s2, S - T, E);
    MagnitudeProduct(s2, cross, c);
    CarrySum(s2, E, m, c);
    CancelFactor(S + Q + cross - (T + t), E + P67 + (2 * m + 2) + c + 1, s2);
  }

  lemma CarrySum(s2: int, E: int, m: int, c: int)
    ensures s2 * (E + P67 + (2 * m + 2) + c + 1) == s2 * E + s2 * P67 + s2 * (2 * m + 2) + s2 * c + s2
  {
  }

  lemma MagnitudeProduct(s: int, x: int, b: int)
    requires s >= 0 && Abs(x) <= b
    ensures Abs(s * x) <= s * b
  {
    AbsProduct(s, x);
    MulMonotone(Abs(x), b, s);
    assert Abs(x) * s == s * Abs(x) && b * s == s * b;
  }

  lemma CancelFactor(x: int, b: int, s: int)
    requires s > 0 && Abs(s * x) <= s * b
    ensures Abs(x) <= b
  {
    AbsProduct(s, x);
    assert (b + 1) * s == s * b + s && Abs(x) * s == s * Abs(x);
    if Abs(x) > b { MulMonotone(b + 1, Abs(x), s); }
  }

  lemma {:induction false} PowersOfTwo(i: nat)
    ensures Pow2(i) * Pow2(i) == Pow4(i) && 2 * i <= Pow4(i)
    ensures i < STEPS ==> Pow2(i) <= P31
    decreases i
  {
    if i > 0 {
      PowersOfTwo(i - 1);
      assert (2 * Pow2(i - 1)) * (2 * Pow2(i - 1)) == 4 * (Pow2(i - 1) * Pow2(i - 1));
    }
    if i < STEPS { Pow2Bound(i); }
  }

  lemma {:induction false} Pow2Bound(i: nat)
    requires i <= STEPS
    ensures Pow2(i) <= P31
    decreases STEPS - i
  {
    if i < STEPS {
      Pow2Bound(i + 1);
    } else {
      assert Pow2(8) == 256;
      assert Pow2(16) == 65536;
      assert Pow2(24) == 16777216;
      assert Pow2(STEPS) == P31;
    }
  }

  /** A vector whose square is at most 2^125 has coordinates well inside 64 bits. */
  lemma CoordinateBound(x: int, other: int, bound: int)
    requires 0 <= bound && 0 <= other && x * x + other <= bound * bound
    ensures Abs(x) <= bound
  {
    AbsProduct(x, x);
    assert Abs(x) * bound == bound * Abs(x) && (bound + 1) * Abs(x) == bound * Abs(x) + Abs(x);
    if Abs(x) > bound {
      MulMonotone(bound, Abs(x), bound);
      MulMonotone(bound + 1, Abs(x), Abs(x));
    }
  }

  const WIDTH: int := 0x6000_0000_0000_0000

  /** How far the squared length may have drifted after `i` steps. */
  function Margin(i: nat): int { i * 0x10_0000_0000_0000_0000 }

  ghost predicate OnNorm(s: State, i: nat) {
    Abs(Square(s) - Norm(i)) <= Margin(i)
  }

  /** Within the error margin, both coordinates stay below 1.5 * 2^62. */
  lemma NormGivesWidth(s: State, i: nat)
    requires i <= STEPS && OnNorm(s, i)
    ensures Abs(s.x) <= WIDTH && Abs(s.y) <= WIDTH
  {
    NormGrows(i, STEPS);
    FinalNorm();
    SquareNonNegative(s.x);
    SquareNonNegative(s.y);
    CoordinateBound(s.x, s.y * s.y, WIDTH);
    CoordinateBound(s.y, s.x * s.x, WIDTH);
  }

  lemma SquareNonNegative(x: int)
    ensures x * x >= 0
  {
    AbsProduct(x, x);
  }

  lemma SquareSum(p: int, fx: int, fy: int, x: int, y: int)
    requires p > 0
    requires Abs(p * p * (fx * fx) - x * x) <= p * (2 * Abs(x) + p)
    requires Abs(p * p * (fy * fy) - y * y) <= p * (2 * Abs(y) + p)
    ensures Abs(p * p * (fx * fx + fy * fy) - (x * x + y * y)) <= p * p * (2 * (Abs(x) + Abs(y)) + 2)
  {
    ScaleBound(p, Abs(x));
    ScaleBound(p, Abs(y));
    Distribute(fx * fx, fy * fy, 0, p * p);
    Distribute(2 * Abs(x) + 1, 2 * Abs(y) + 1, 0, p * p);
    Commute(p * p, fx * fx);
    Commute(p * p, fy * fy);
    Commute(p * p, fx * fx + fy * fy);
    Commute(p * p, 2 * Abs(x) + 1);
    Commute(p * p, 2 * Abs(y) + 1);
    Commute(p * p, 2 * (Abs(x) + Abs(y)) + 2);
  }

  lemma ScaleBound(p: int, x: int)
    requires p > 0 && x >= 0
    ensures p * (2 * x + p) <= p * p * (2 * x + 1)
  {
    MagnitudeBound(1, 2 * x, p, 2 * x);
    MulMonotone(2 * x + p, p * (2 * x) + p, p);
    assert (p * (2 * x) + p) * p == p * p * (2 * x + 1) && (2 * x + p) * p == p * (2 * x + p);
  }

  /** The square of a step in terms of the shifted coordinates. */
  lemma StepSquare(x: int, y: int, p: int, fx: int, fy: int, rx: int, ry: int)
    returns (cross: int)
    requires 0 < p <= P31 && x == p * fx + rx && y == p * fy + ry && 0 <= rx < p && 0 <= ry < p
    ensures Abs(cross) <= 2 * (Abs(x) + Abs(y)) + 4 * P31
    ensures Abs(p * p * (fx * fx + fy * fy) - (x * x + y * y)) <= p * p * (2 * (Abs(x) + Abs(y)) + 2)
    ensures (x - fy) * (x - fy) + (y + fx) * (y + fx) == x * x + y * y + (fx * fx + fy * fy) + cross
    ensures (x + fy) * (x + fy) + (y - fx) * (y - fx) == x * x + y * y + (fx * fx + fy * fy) - cross
  {
    cross := 2 * (ry * fx - rx * fy);
    StepIdentity(x, y, p, fx, fy, rx, ry);
    ShiftedSquare(x, p, fx, rx);
    ShiftedSquare(y, p, fy, ry);
    CrossTerm(x, p, fx, rx, ry);
    CrossTerm(y, p, fy, ry, rx);
    SquareSum(p, fx, fy, x, y);
  }

  /** The step on plain numbers: `x'` and `y'` are the rotated coordinates, either way. */
  lemma StepNormCore(x: int, y: int, x': int, y': int, p: int, p2: int, fx: int, fy: int, rx: int, ry: int,
                     N: int, t: int, u: int, E: int)
    requires 0 < p <= P31 && p2 == p * p && x == p * fx + rx && y == p * fy + ry && 0 <= rx < p && 0 <= ry < p
    requires (x' == x - fy && y' == y + fx) || (x' == x + fy && y' == y - fx)
    requires N == p2 * t + u && 0 <= u < p2
    requires Abs(x) <= WIDTH && Abs(y) <= WIDTH && Abs(x * x + y * y - N) <= E <= p2 * P67
    ensures Abs(x' * x' + y' * y' - (N + t)) <= E + P68
  {
    var cross := StepSquare(x, y, p, fx, fy, rx, ry);
    var S, Q, m := x * x + y * y, fx * fx + fy * fy, Abs(x) + Abs(y);
    CarryError(S, N, Q, t, u, cross, p2, E, m);
    CarryError(S, N, Q, t, u, -cross, p2, E, m);
  }

  /** One step moves the squared length along the exact norm, up to 2^68. */
  lemma StepNorm(s: State, i: nat)
    requires i < STEPS && OnNorm(s, i)
    ensures OnNorm(Step(s, i), i + 1)
  {
    NormGivesWidth(s, i);
    PowersOfTwo(i);
    ShiftIsFloor(s.x, i);
    ShiftIsFloor(s.y, i);
    var p, p2, n := Pow2(i), Pow4(i), Norm(i);
    assert Norm(i + 1) == n + n / p2;
    DivMod(s.x, p);
    DivMod(s.y, p);
    DivMod(n, p2);
    var fx, fy, t := s.x / p, s.y / p, n / p2;
    var s' := Step(s, i);
    assert (s'.x == s.x - fy && s'.y == s.y + fx) || (s'.x == s.x + fy && s'.y == s.y - fx);
    Commute(fx, p);
    Commute(fy, p);
    Commute(t, p2);
    hide ShiftRight, Pow2, Pow4, Norm, Step;
    StepNormCore(s.x, s.y, s'.x, s'.y, p, p2, fx, fy, s.x % p, s.y % p, n, t, n % p2, Margin(i));
  }

  lemma Commute(a: int, b: int)
    ensures a * b == b * a
  {
  }

  lemma RunUnfolds(remainder: int, i: nat)
    requires i <= STEPS
    ensures i == 0 ==> OnNorm(Run(remainder, i), 0)
    ensures i > 0 ==> Run(remainder, i) == Step(Run(remainder, i - 1), i - 1)
  {
  }

  lemma {:induction false} RunNorm(remainder: int, i: nat)
    requires i <= STEPS
    ensures OnNorm(Run(remainder, i), i)
    decreases i
  {
    RunUnfolds(remainder, i);
    hide Run, Step, OnNorm;
    if i > 0 {
      RunNorm(remainder, i - 1);
      StepNorm(Run(remainder, i - 1), i - 1);
    }
  }

  /** No step of the iteration leaves the 64-bit range, in position or in angle. */
  lemma RunStaysInRange(remainder: int, i: nat)
    requires 0 < remainder < QUARTER && i <= STEPS
    ensures I64(Run(remainder, i).x) && I64(Run(remainder, i).y) && I64(Run(remainder, i).z)
    ensures Abs(Run(remainder, i).x) <= WIDTH && Abs(Run(remainder, i).y) <= WIDTH
  {
    RunNorm(remainder, i);
    NormGivesWidth(Run(remainder, i), i);
    AngleShrinks(remainder, i);
    hide Norm, Run;
    AngleBoundInRange(i);
  }

  // ---- Coefficients ----------------------------------------------------------

  const P30: int := 0x4000_0000

  /** Cosine and sine of an angle within the first quadrant. */
  ghost function Unit(remainder: int): (int, int) {
    if remainder == 0 then (ONE, 0)
    else (Rounded(Run(remainder, STEPS).x, P30, NearestEven), Rounded(Run(remainder, STEPS).y, P30, NearestEven))
  }

  ghost function Turned(quadrant: int, u: (int, int)): (int, int) {
    if quadrant == 0 then u
    else if quadrant == 1 then (-u.1, u.0)
    else if quadrant == 2 then (-u.0, -u.1)
    else (u.1, -u.0)
  }

  /** Which quarter an angle falls in, and how far into it. */
  function Quadrant(turns: int): int { turns / 0x4000_0000 % 4 }
  function Offset(turns: int): int { turns % 0x4000_0000 }

  /** Cosine and sine for any angle in raw turns. */
  ghost function CosSin(turns: int): (int, int) {
    Turned(Quadrant(turns), Unit(Offset(turns)))
  }

  /** How far the squared length may be from one, in units of 2^-64. */
  const LENGTH_ERROR: int := 3 * P31 + 0x1_0000

  lemma RoundedSquare(x: int, c: int)
    requires 2 * Abs(x - c * P30) <= P30
    ensures Abs(P60 * (c * c) - x * x) <= P30 * Abs(x) + 0x800_0000_0000_0000
  {
    assert P60 * (c * c) == (c * P30) * (c * P30);
    NearSquares(c * P30, x, P30 / 2);
  }

  lemma SumBound(x: int, y: int)
    requires x * x + y * y <= 0x1200_0000_0000_0000_0000_0000_0000_0000
    ensures Abs(x) + Abs(y) <= 3 * P61
  {
    var u: int, v: int := Abs(x), Abs(y);
    AbsProduct(x, x);
    AbsProduct(y, y);
    SquareNonNegative(u - v);
    assert (u + v) * (u + v) + (u - v) * (u - v) == 2 * (u * u) + 2 * (v * v);
    CoordinateBound(u + v, 0, 3 * P61);
  }

  /** Cosine and sine make a vector of length one, up to the stated error. */
  lemma UnitLength(remainder: int)
    requires 0 <= remainder < QUARTER
    ensures var u := Unit(remainder); Abs(u.0 * u.0 + u.1 * u.1 - P64) <= LENGTH_ERROR
    ensures Abs(Unit(remainder).0) <= 2 * ONE && Abs(Unit(remainder).1) <= 2 * ONE
  {
    if remainder != 0 {
      hide Run, Norm, Rounded;
      RunNorm(remainder, STEPS);
      FinalNorm();
      RunStaysInRange(remainder, STEPS);
      var x, y := Run(remainder, STEPS).x, Run(remainder, STEPS).y;
      RoundedError(x, P30);
      RoundedError(y, P30);
      RoundedLength(x, y, Rounded(x, P30, NearestEven), Rounded(y, P30, NearestEven));
    }
  }

  /** Rounding both coordinates moves the squared length by no more than its share of the error. */
  lemma RoundedLength(x: int, y: int, c: int, s: int)
    requires Abs(x * x + y * y - P124) <= 13208153604849421825207 + Margin(STEPS)
    requires Abs(x) <= WIDTH && Abs(y) <= WIDTH && 2 * Abs(x - c * P30) <= P30 && 2 * Abs(y - s * P30) <= P30
    ensures Abs(c * c + s * s - P64) <= LENGTH_ERROR && Abs(c) <= 2 * ONE && Abs(s) <= 2 * ONE
  {
    RoundedSquare(x, c);
    RoundedSquare(y, s);
    SumBound(x, y);
    SquaresAdd(x * x, y * y, c * c, s * s, Abs(x), Abs(y));
  }

  lemma SquaresAdd(xx: int, yy: int, cc: int, ss: int, ax: int, ay: int)
    requires Abs(xx + yy - P124) <= 13208153604849421825207 + Margin(STEPS) && ax + ay <= 3 * P61
    requires Abs(P60 * cc - xx) <= P30 * ax + 0x800_0000_0000_0000 && Abs(P60 * ss - yy) <= P30 * ay + 0x800_0000_0000_0000
    ensures Abs(cc + ss - P64) <= LENGTH_ERROR
  {
  }

  lemma TurnedLength(quadrant: int, u: (int, int))
    ensures var v := Turned(quadrant, u);
            && v.0 * v.0 + v.1 * v.1 == u.0 * u.0 + u.1 * u.1
            && Abs(v.0) <= Max(Abs(u.0), Abs(u.1)) && Abs(v.1) <= Max(Abs(u.0), Abs(u.1))
  {
    assert (-u.0) * (-u.0) == u.0 * u.0 && (-u.1) * (-u.1) == u.1 * u.1;
  }

  /** The determinant of a computed rotation, a*d - b*c, is within the error of one. */
  lemma RotationNearUnit(turns: int)
    ensures var u := CosSin(turns); Abs(u.0 * u.0 + u.1 * u.1 - P64) <= LENGTH_ERROR
    ensures Abs(CosSin(turns).0) <= 2 * ONE && Abs(CosSin(turns).1) <= 2 * ONE
  {
    UnitLength(Offset(turns));
    TurnedLength(Quadrant(turns), Unit(Offset(turns)));
    hide Unit, Turned;
  }

  lemma ShiftQuarters(turns: int, j: int)
    ensures (turns + 0x4000_0000 * j) / 0x4000_0000 == turns / 0x4000_0000 + j
    ensures (turns + 0x4000_0000 * j) % 0x4000_0000 == turns % 0x4000_0000
  {
  }

  lemma ModuloFour(q: int, k: int)
    ensures (q + 4 * k) % 4 == q % 4 && 0 <= q % 4 <= 3
    ensures (q + 1) % 4 == if q % 4 == 3 then 0 else q % 4 + 1
  {
  }

  lemma QuadrantShift(turns: int, k: int)
    ensures Offset(turns + k * ONE) == Offset(turns) && Quadrant(turns + k * ONE) == Quadrant(turns)
    ensures Offset(turns + QUARTER) == Offset(turns)
    ensures Quadrant(turns + QUARTER) == if Quadrant(turns) == 3 then 0 else Quadrant(turns) + 1
    ensures 0 <= Quadrant(turns) <= 3
  {
    ShiftQuarters(turns, 4 * k);
    ShiftQuarters(turns, 1);
    ModuloFour(turns / 0x4000_0000, k);
  }

  /** Whole turns change nothing, and a quarter turn is an exact quarter rotation. */
  lemma QuarterTurns(turns: int, k: int)
    ensures CosSin(turns + k * ONE) == CosSin(turns)
    ensures CosSin(turns + QUARTER) == (-CosSin(turns).1, CosSin(turns).0)
  {
    QuadrantShift(turns, k);
    hide Unit, Offset, Quadrant;
  }

  ghost function RotationOf(turns: int): Transform {
    RotationNearUnit(turns);
    var u := CosSin(turns);
    Transform(u.0, u.1, -u.1, u.0, 0, 0)
  }

  /** Composing the exact quarter rotation swaps and negates rows, without rounding. */
  lemma QuarterCompose(r: Transform)
    requires r.b != I64_MIN && r.d != I64_MIN && r.tx == 0 && r.ty == 0
    ensures Compose(Transform(0, ONE, 0 - ONE, 0, 0, 0), r) == Ok(Transform(0 - r.b, r.a, 0 - r.d, r.c, 0, 0))
  {
    NegatedUnit(r.a, r.b);
    NegatedUnit(r.c, r.d);
    UnitSums(r.a, r.b);
    UnitSums(r.c, r.d);
    TranslationSums(0, 0, 0, 0 - ONE);
    TranslationSums(0, 0, ONE, 0);
    hide Fused2, Fused2Translate;
  }

  lemma ZeroAngle()
    ensures CosSin(0) == (ONE, 0)
  {
    assert Quadrant(0) == 0 && Offset(0) == 0;
  }

  lemma RotationValues(turns: int)
    ensures RotationOf(QUARTER) == Transform(0, ONE, 0 - ONE, 0, 0, 0)
    ensures var r := RotationOf(turns);
            && Abs(r.b) <= 2 * ONE && Abs(r.d) <= 2 * ONE && r.tx == 0 && r.ty == 0
            && RotationOf(turns + QUARTER) == Transform(0 - r.b, r.a, 0 - r.d, r.c, 0, 0)
  {
    QuarterTurns(turns, 0);
    QuarterTurns(0, 0);
    ZeroAngle();
    RotationNearUnit(turns);
    hide CosSin;
  }

  /** Turning a quarter further is composition with the exact quarter rotation. */
  lemma QuarterComposes(turns: int)
    ensures Compose(RotationOf(QUARTER), RotationOf(turns)) == Ok(RotationOf(turns + QUARTER))
  {
    RotationValues(turns);
    hide RotationOf, Compose;
    QuarterCompose(RotationOf(turns));
  }

  /** A quarter turn takes (x, y) to (-y, x), exactly. */
  lemma QuarterMoves(p: Point)
    requires p.y != I64_MIN
    ensures TransformPoint(RotationOf(QUARTER), p) == Ok(Point(0 - p.y, p.x))
  {
    RotationValues(0);
    TransformPointExact(RotationOf(QUARTER), p);
    hide RotationOf, TransformPoint, Rounded;
    WholeRounds(0 - p.y);
    WholeRounds(p.x);
  }

  lemma NegatedUnit(p: Coord, q: Coord)
    requires q != I64_MIN
    ensures Fused2(0, 0 - ONE, p, q) == Ok(0 - q)
  {
    FusedExact(0, 0 - ONE, p, q, 0);
    hide Fused2;
    assert 0 * p + (0 - ONE) * q == (0 - q) * P32;
    assert Rounded((0 - q) * P32, P32, NearestEven) == 0 - q;
  }

  /** The rotation matrix of an angle in turns: never fails, and is the specified one. */
  method RotationTurns(turns: Coord) returns (r: Result<Transform>)
    ensures r == Ok(RotationOf(turns))
  {
    var normalized := TruncMod(turns, ONE);
    if normalized < 0 { normalized := normalized + ONE; }
    Normalization(turns, normalized);
    var quadrant, remainder := normalized / QUARTER, normalized % QUARTER;
    RotationNearUnit(turns);
    hide Offset, Quadrant;
    var cosine, sine;
    if remainder == 0 {
      match quadrant {
        case 0 => cosine, sine := ONE, 0;
        case 1 => cosine, sine := 0, ONE;
        case 2 => cosine, sine := -ONE, 0;
        case _ => cosine, sine := 0, -ONE;
      }
    } else {
      var c, s := Cordic(remainder);
      if c.Fail? || s.Fail? {
        assert false; // rounding the coefficients never overflows
      }
      hide Unit;
      match quadrant {
        case 0 => cosine, sine := c.value, s.value;
        case 1 => cosine, sine := 0 - s.value, c.value;
        case 2 => cosine, sine := 0 - c.value, 0 - s.value;
        case _ => cosine, sine := s.value, 0 - c.value;
      }
    }
    r := Ok(Transform(cosine, sine, -sine, cosine, 0, 0));
  }

  /** Reducing the angle with truncating division lands in the same quarter. */
  lemma Normalization(turns: Coord, normalized: int)
    requires normalized == if TruncMod(turns, ONE) < 0 then TruncMod(turns, ONE) + ONE else TruncMod(turns, ONE)
    ensures normalized / QUARTER == Quadrant(turns) && normalized % QUARTER == Offset(turns)
    ensures 0 <= normalized < ONE && 0 <= Quadrant(turns) < 4 && 0 <= Offset(turns) < QUARTER
  {
    TruncModSign(turns, ONE);
    hide TruncMod, TruncDiv;
    ReducedAngle(turns, normalized);
  }

  lemma TruncModSign(n: int, d: int)
    requires d > 0
    ensures TruncMod(n, d) == if n < 0 then -(Abs(n) % d) else Abs(n) % d
  {
    var m: int := Abs(n);
    DivMod(m, d);
    assert -(m / d) * d == -(m / d * d);
  }

  lemma ReducedAngle(turns: int, normalized: int)
    requires var r := Abs(turns) % 0x1_0000_0000;
             normalized == if turns < 0 && r != 0 then 0x1_0000_0000 - r else r
    ensures normalized / 0x4000_0000 == turns / 0x4000_0000 % 4 && normalized % 0x4000_0000 == turns % 0x4000_0000
    ensures 0 <= normalized < 0x1_0000_0000
  {
    var n := turns % 0x1_0000_0000;
    assert normalized == n;
    var a := turns / 0x1_0000_0000;
    assert turns == 0x4000_0000 * (4 * a) + n;
    assert turns / 0x4000_0000 == 4 * a + n / 0x4000_0000;
  }

  lemma RunNext(remainder: int, i: nat)
    ensures Run(remainder, 0) == Start(remainder)
    ensures i < STEPS ==> Run(remainder, i + 1) == Step(Run(remainder, i), i)
  {
  }

  /** The loop itself, with every intermediate value in 64 bits. */
  method Cordic(remainder: int) returns (c: Result<Coord>, s: Result<Coord>)
    requires 0 < remainder < QUARTER
    ensures c.Ok? && s.Ok? && (c.value, s.value) == Unit(remainder)
  {
    hide Run, Unit, ShiftRight;
    var x, y, z := K_Q62, 0, remainder;
    RunNext(remainder, 0);
    for i := 0 to STEPS
      invariant State(x, y, z) == Run(remainder, i)
      invariant I64(x) && I64(y) && I64(z)
    {
      RunStaysInRange(remainder, i + 1);
      RunNext(remainder, i);
      var shiftedX, shiftedY := ShiftRight(x, i), ShiftRight(y, i);
      if z >= 0 {
        x, y, z := x - shiftedY, y + shiftedX, z - ATAN[i];
      } else {
        x, y, z := x + shiftedY, y - shiftedX, z + ATAN[i];
      }
    }
    CoefficientsFit(remainder);
    c := RoundDiv(x, P30, NearestEven);
    s := RoundDiv(y, P30, NearestEven);
  }

  lemma CoefficientsFit(remainder: int)
    requires 0 < remainder < QUARTER
    ensures I64(Unit(remainder).0) && I64(Unit(remainder).1)
    ensures RoundDiv(Run(remainder, STEPS).x, P30, NearestEven) == Ok(Unit(remainder).0)
    ensures RoundDiv(Run(remainder, STEPS).y, P30, NearestEven) == Ok(Unit(remainder).1)
  {
    RunStaysInRange(remainder, STEPS);
    UnitLength(remainder);
    var end := Run(remainder, STEPS);
    hide Run;
    RoundDivCorrect(end.x, P30, NearestEven);
    RoundDivCorrect(end.y, P30, NearestEven);
    hide Rounded, RoundDiv;
  }
}

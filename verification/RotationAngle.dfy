/** The rotation coefficients are those of their angle: they add up as angles do, lie in the first
    quadrant for the first quarter, and are exchanged by reflection at an eighth turn. */
module RotationAngle {
  import opened Native
  import opened Rounding
  import opened Affine
  import opened Rotation
  import opened Turns
  import opened TurnTable

  // ---- One step --------------------------------------------------------------

  ghost function Vector(s: State): Complex { Complex(s.x as real, s.y as real) }

  /** The vector turned back by the angle that is already spent: nearly real, if it points there. */
  ghost function Back(s: State, f: int): Complex { Mul(Vector(s), Conj(Cis(f - s.z))) }

  /** A step turns by (1, 2^-k), forwards or backwards. */
  ghost function Stride(k: nat, forward: bool): Complex {
    Complex(1.0, if forward then Shift(k) else 0.0 - Shift(k))
  }

  lemma ShiftedReal(x: int, k: nat)
    ensures var e := Times(Shift(k), x as real) - ShiftRight(x, k) as real; 0.0 <= e <= 1.0
  {
    ShiftIsFloor(x, k);
    DivMod(x, Pow2(k));
    FloorReal(x, x / Pow2(k), Pow2(k));
    hide ShiftRight, Pow2;
  }

  lemma FloorReal(x: int, q: int, p: int)
    requires p > 0 && q * p <= x < q * p + p
    ensures var e := Times(1.0 / p as real, x as real) - q as real; 0.0 <= e <= 1.0
  {
    var h, r := 1.0 / p as real, p as real;
    assert h * r == 1.0;
    RealProduct(q, p);
    var e := h * x as real - q as real;
    assert r * (h * x as real) == h * r * x as real;
    assert r * e == x as real - r * q as real;
    if e < 0.0 { PositiveProduct(r, 0.0 - e, 0.0 - r * e); }
    if e > 1.0 { PositiveProduct(r, e - 1.0, r * e - r); }
  }

  /** A step is its exact turn up to the two discarded fractions. */
  lemma StepExact(s: State, k: nat) returns (e: Complex)
    requires k < STEPS
    ensures Vector(Step(s, k)) == Plus(Mul(Vector(s), Stride(k, s.z >= 0)), e) && Disc(e, 2.0)
  {
    var h := Shift(k);
    ShiftedReal(s.x, k);
    ShiftedReal(s.y, k);
    var a, b := Times(h, s.y as real) - ShiftRight(s.y, k) as real, Times(h, s.x as real) - ShiftRight(s.x, k) as real;
    e := if s.z >= 0 then Complex(a, 0.0 - b) else Complex(0.0 - a, b);
    hide ShiftRight, Shift;
    UnitSquare(a);
    UnitSquare(b);
    assert a * a == (0.0 - a) * (0.0 - a) && b * b == (0.0 - b) * (0.0 - b);
  }

  lemma UnitSquare(x: real)
    requires 0.0 <= x <= 1.0
    ensures x * x <= 1.0
  {
    ProductGrows(x, x, 1.0, 1.0);
  }

  lemma TurnedBack(v: Complex, d: Complex, e: Complex, z: Complex, w: Complex)
    ensures Mul(Plus(Mul(v, d), e), Conj(Mul(z, w)))
            == Plus(Mul(Mul(v, Conj(z)), Mul(d, Conj(w))), Mul(e, Conj(Mul(z, w))))
  {
    var p, q := Conj(z), Conj(w);
    MulSymmetric(z, w);
    MulPlus(Mul(v, d), e, Mul(p, q));
    hide Mul, Conj, Plus;
    MulAssociative(v, d, Mul(p, q));
    MulAssociative(d, p, q);
    Commutes(d, p);
    MulAssociative(p, d, q);
    MulAssociative(v, p, Mul(d, q));
  }

  lemma Commutes(a: Complex, b: Complex)
    ensures Mul(a, b) == Mul(b, a)
  {
  }

  lemma MulPlus(a: Complex, b: Complex, c: Complex)
    ensures Mul(Plus(a, b), c) == Plus(Mul(a, c), Mul(b, c))
  {
  }

  ghost function Spent(k: nat, forward: bool): int
    requires k < STEPS
  {
    if forward then ATAN[k] else 0 - ATAN[k]
  }

  /** What a step leaves of its turn once the table entry is taken back: nearly real. */
  lemma Slip(k: nat, forward: bool) returns (g: Complex)
    requires k < STEPS
    ensures g == Mul(Stride(k, forward), Conj(Cis(Spent(k, forward))))
    ensures 0.0 - EPSILON <= g.im <= EPSILON && g.re >= 0.0 && Squared(g) == 1.0 + Shift(k) * Shift(k)
  {
    hide Cis, Shift, OnCircle, Mul, Conj, Along, Across;
    TableOk(k);
    CisOnCircle(ATAN[k]);
    SpentTurn(k, forward);
    var z, h := Cis(ATAN[k]), Shift(k);
    SlipParts(z, h);
    SlipSquare(z, h);
    g := Mul(Stride(k, forward), Conj(Cis(Spent(k, forward))));
  }

  lemma SpentTurn(k: nat, forward: bool)
    requires k < STEPS
    ensures Conj(Cis(Spent(k, forward))) == if forward then Conj(Cis(ATAN[k])) else Cis(ATAN[k])
  {
    assert ATAN[k] >= 0;
    CisMirror(ATAN[k]);
    hide Cis;
  }

  lemma SlipParts(z: Complex, h: real)
    ensures Mul(Complex(1.0, h), Conj(z)) == Complex(Along(z, h), Across(z, h))
    ensures Mul(Complex(1.0, 0.0 - h), z) == Complex(Along(z, h), 0.0 - Across(z, h))
  {
  }

  lemma SlipSquare(z: Complex, h: real)
    requires OnCircle(z)
    ensures Squared(Complex(Along(z, h), Across(z, h))) == 1.0 + h * h
    ensures Squared(Complex(Along(z, h), 0.0 - Across(z, h))) == 1.0 + h * h
  {
    var d, a, b := Complex(1.0, h), Along(z, h), Across(z, h);
    Lagrange(d, Conj(z));
    ConjOnCircle(z);
    CircleSquare(Conj(z));
    SlipParts(z, h);
    hide Along, Across;
    assert (0.0 - b) * (0.0 - b) == b * b;
  }

  lemma StepSpends(s: State, k: nat, f: int)
    requires k < STEPS
    ensures f - Step(s, k).z == f - s.z + Spent(k, s.z >= 0)
  {
  }

  /** One step, seen from the angle it should have reached. */
  lemma BackStep(s: State, k: nat, f: int) returns (g: Complex, r: Complex)
    requires k < STEPS
    ensures Back(Step(s, k), f) == Plus(Mul(Back(s, f), g), r) && Disc(r, 2.0)
    ensures 0.0 - EPSILON <= g.im <= EPSILON && g.re >= 0.0 && Squared(g) == 1.0 + Shift(k) * Shift(k)
  {
    hide Cis, Shift, Stride, Mul, Conj, Plus, Vector, Squared, OnCircle, Step, Spent, Disc;
    var forward, a := s.z >= 0, Spent(k, s.z >= 0);
    g := Slip(k, forward);
    var e := StepExact(s, k);
    var z, w := Cis(f - s.z), Cis(a);
    StepSpends(s, k, f);
    CisAdd(f - s.z, a);
    CisOnCircle(f - s.z);
    CisOnCircle(a);
    TurnedBack(Vector(s), Stride(k, forward), e, z, w);
    MulOnCircle(z, w);
    ConjOnCircle(Mul(z, w));
    r := Mul(e, Conj(Mul(z, w)));
    Commutes(e, Conj(Mul(z, w)));
    DiscTurned(Conj(Mul(z, w)), e, 2.0);
  }

  // ---- All steps -------------------------------------------------------------

  /** 2^61, and just above 2^62: what the vector's length stays between. */
  const HALF: real := 2305843009213693952.0
  const REACH: real := 4611686018427392000.0

  /** What one step can add across, and what has been added after `i` steps. */
  const SLIP: real := REACH * EPSILON + 2.0

  ghost function Drift(i: nat): real {
    if i == 0 then 0.0 else SLIP * (i as real + 0.5 - Shift(i))
  }

  lemma {:induction false} PowerAbove(i: nat)
    ensures Pow2(i) >= i + 1
  {
    if i > 0 { PowerAbove(i - 1); }
  }

  lemma ShiftBounds(i: nat)
    ensures 0.0 < Shift(i) <= 1.0 && Times(i as real + 1.0, Shift(i)) <= 1.0 && Shift(i + 1) == Shift(i) / 2.0
    ensures i > 0 ==> Shift(i) <= 0.5
  {
    hide Shift, Pow2, Times;
    PowerAbove(i);
    ShiftUnfolds(i);
    var q := Pow2(i) as real;
    Reciprocal(q, Shift(i));
    ReciprocalBelow(q, Shift(i), i as real + 1.0);
    ReciprocalBelow(q, Shift(i), 1.0);
    if i > 0 { ReciprocalBelow(q, Shift(i), 2.0); }
    Multiples(Shift(i));
  }

  lemma Multiples(h: real)
    ensures Times(1.0, h) == h && Times(2.0, h) == 2.0 * h
  {
  }

  lemma ShiftUnfolds(i: nat)
    ensures Shift(i) == 1.0 / Pow2(i) as real && Shift(i + 1) == 1.0 / (2.0 * Pow2(i) as real)
  {
  }

  lemma Reciprocal(q: real, h: real)
    requires q > 0.0 && h == 1.0 / q
    ensures Times(q, h) == 1.0 && h > 0.0 && 1.0 / (2.0 * q) == h / 2.0
  {
    assert q * h == 1.0;
    if h < 0.0 { PositiveProduct(q, 0.0 - h, 0.0 - q * h); }
  }

  lemma ReciprocalBelow(q: real, h: real, n: real)
    requires q >= n && h > 0.0 && Times(q, h) == 1.0
    ensures Times(n, h) <= 1.0
  {
    NonNegative(q - n, h);
    assert (q - n) * h == q * h - n * h;
  }

  /** What is added across shrinks fast enough to stay below one slip a step, and half a slip more. */
  lemma DriftGrows(i: nat, d: real, u: real)
    requires 0.0 <= d <= Drift(i) && 0.0 <= u <= 1.0 + Times(Shift(i), Shift(i)) / 2.0
    ensures Times(d, u) + SLIP <= Drift(i + 1) <= SLIP * (i as real + 1.5)
  {
    hide Shift, Times;
    ShiftBounds(i);
    ShiftBounds(i + 1);
    var h, n := Shift(i), i as real + 0.5 - Shift(i);
    if i == 0 {
      ZeroTimes(d, u);
    } else {
      Widened(d, u, SLIP * n, 1.0 + Times(h, h) / 2.0);
      Quadratic(n, h, i as real + 1.0, SLIP);
    }
  }

  lemma ZeroTimes(d: real, u: real)
    requires d == 0.0
    ensures Times(d, u) == 0.0
  {
  }

  lemma Widened(d: real, u: real, e: real, v: real)
    requires 0.0 <= d <= e && 0.0 <= u <= v
    ensures 0.0 <= Times(d, u) <= Times(e, v)
  {
    ProductGrows(d, u, e, v);
  }

  lemma Quadratic(n: real, h: real, m: real, k: real)
    requires 0.0 <= n <= m && 0.0 < h && Times(m, h) <= 1.0 && k >= 0.0
    ensures Times(k * n, 1.0 + Times(h, h) / 2.0) <= k * n + k * (h / 2.0)
  {
    var q := n * h;
    NonNegative(m - n, h);
    assert (m - n) * h == m * h - n * h;
    NonNegative(1.0 - q, h);
    assert (1.0 - q) * h == h - n * (h * h);
    NonNegative(k, h - n * (h * h));
    assert k * (h - n * (h * h)) == k * h - k * n * (h * h);
  }

  /** The stride keeps at least half of the length and adds at most 2^-2k / 2 of it. */
  lemma StrideLength(g: Complex, h: real)
    requires Squared(g) == 1.0 + h * h && g.re >= 0.0 && 0.0 - EPSILON <= g.im <= EPSILON && 0.0 < h
    ensures 0.5 <= g.re <= 1.0 + Times(h, h) / 2.0
  {
    var p, e, w := g.re, EPSILON, h * h;
    RealSquare(h);
    RealSquare(w);
    RealSquare(g.im);
    NonNegative(e - g.im, e + g.im);
    assert (e - g.im) * (e + g.im) == e * e - g.im * g.im;
    assert (1.0 + w / 2.0) * (1.0 + w / 2.0) == 1.0 + w + w * w / 4.0;
    Bracket(p, p * p, w, g.im * g.im);
  }

  lemma Bracket(p: real, s: real, w: real, t: real)
    requires s == p * p && s + t == 1.0 + w && 0.0 <= t <= 0.5 && w >= 0.0 && p >= 0.0
    requires (1.0 + w / 2.0) * (1.0 + w / 2.0) == 1.0 + w + w * w / 4.0 && w * w >= 0.0
    ensures 0.5 <= p <= 1.0 + w / 2.0
  {
    RootBelow(p, 1.0 + w / 2.0);
    if p < 0.5 { ProductGrows(p, p, 0.5, 0.5); }
  }

  /** Across: what was there, turned, plus a slip. */
  lemma AcrossStep(w: Complex, g: Complex, r: Complex, d: real, u: real)
    requires 0.0 <= w.re <= REACH && 0.0 - d <= w.im <= d && Disc(r, 2.0)
    requires 0.0 - EPSILON <= g.im <= EPSILON && 0.0 <= g.re <= u
    ensures var v := Plus(Mul(w, g), r); 0.0 - (Times(d, u) + SLIP) <= v.im <= Times(d, u) + SLIP
  {
    DiscSides(r, 2.0);
    hide Times, Disc;
    Weight(w.re, g.im, REACH, EPSILON);
    Weight(g.re, w.im, u, d);
    MulParts(w, g);
    hide Mul;
    TimesSwaps(u, d);
    LiteralTimes();
  }

  lemma LiteralTimes()
    ensures Times(REACH, EPSILON) == REACH * EPSILON
  {
  }

  lemma TimesSwaps(x: real, y: real)
    ensures Times(x, y) == Times(y, x)
  {
  }

  lemma MulParts(a: Complex, b: Complex)
    ensures Mul(a, b).re == Times(a.re, b.re) - Times(b.im, a.im)
    ensures Mul(a, b).im == Times(a.re, b.im) + Times(b.re, a.im)
  {
  }

  lemma Weight(p: real, t: real, q: real, e: real)
    requires 0.0 <= p <= q && 0.0 - e <= t <= e
    ensures 0.0 - Times(q, e) <= Times(p, t) <= Times(q, e)
  {
    ProductGrows(p, e, q, e);
    NonNegative(p, e - t);
    NonNegative(p, e + t);
    assert p * (e - t) == p * e - p * t && p * (e + t) == p * e + p * t;
  }

  /** Along: still forward. */
  lemma AlongStep(w: Complex, g: Complex, r: Complex, d: real)
    requires w.re >= HALF && 0.0 - d <= w.im <= d && Disc(r, 2.0) && d <= SLIP * 32.0
    requires 0.0 - EPSILON <= g.im <= EPSILON && g.re >= 0.5
    ensures Plus(Mul(w, g), r).re > 0.0
  {
    DiscSides(r, 2.0);
    hide Disc;
    ProductGrows(HALF, 0.5, w.re, g.re);
    hide Times;
    MulParts(w, g);
    hide Mul;
    TimesMeans(w.re, g.re);
    Swing(g.im, w.im, d);
  }

  lemma TimesMeans(x: real, y: real)
    ensures Times(x, y) == x * y
  {
  }

  lemma Swing(t: real, b: real, d: real)
    requires 0.0 - EPSILON <= t <= EPSILON && 0.0 - d <= b <= d && d <= SLIP * 32.0
    ensures Times(t, b) <= EPSILON * (SLIP * 32.0)
  {
    if t >= 0.0 { ProductGrows(t, d, EPSILON, SLIP * 32.0); NonNegative(t, d - b); assert t * (d - b) == t * d - t * b; }
    else {
      ProductGrows(0.0 - t, d, EPSILON, SLIP * 32.0); NonNegative(0.0 - t, d + b);
      assert (0.0 - t) * (d + b) == (0.0 - t) * d - t * b;
    }
  }

  /** The squared length never leaves its two bounds; turning back does not change it. */
  lemma BackLength(f: int, i: nat)
    requires i <= STEPS
    ensures LOW as real <= Squared(Back(Run(f, i), f)) <= REACH * REACH
  {
    hide Run, Squared, Cis, OnCircle, Mul, Conj, Vector;
    var s := Run(f, i);
    LengthBounds(f, i);
    VectorLength(s);
    CisOnCircle(f - s.z);
    ConjOnCircle(Cis(f - s.z));
    CircleSquare(Conj(Cis(f - s.z)));
    Lagrange(Vector(s), Conj(Cis(f - s.z)));
  }

  const LOW: int := 7800000000000000000000000000000000000

  lemma LengthBounds(f: int, i: nat)
    requires i <= STEPS
    ensures var s := Run(f, i); LOW <= s.x * s.x + s.y * s.y <= 4611686018427392000 * 4611686018427392000
  {
    RunNorm(f, i);
    NormGrows(0, i);
    NormGrows(i, STEPS);
    FinalNorm();
    assert Norm(0) == K_Q62 * K_Q62;
    hide Run, Norm;
  }

  lemma VectorLength(s: State)
    ensures Squared(Vector(s)) == (s.x * s.x + s.y * s.y) as real
  {
  }

  lemma StillLong(v: Complex, d: real)
    requires Squared(v) >= LOW as real && v.re > 0.0
    requires 0.0 - d <= v.im <= d && 0.0 <= d <= SLIP * 32.0
    ensures v.re >= HALF
  {
    SidesBelow(v.im, SLIP * 32.0);
    if v.re < HALF { ProductGrows(v.re, v.re, HALF, HALF); }
  }

  lemma SidesBelow(x: real, e: real)
    requires 0.0 - e <= x <= e
    ensures x * x <= e * e
  {
    NonNegative(e - x, e + x);
    assert (e - x) * (e + x) == e * e - x * x;
  }

  lemma NotTooLong(v: Complex)
    requires Squared(v) <= REACH * REACH
    ensures v.re <= REACH
  {
    RealSquare(v.im);
    RootBelow(v.re, REACH);
  }

  /** After each step the vector points where the spent angle says, up to the drift. */
  lemma {:induction false} RunPoints(f: int, i: nat)
    requires i <= STEPS
    ensures var w := Back(Run(f, i), f); HALF <= w.re <= REACH && 0.0 - Drift(i) <= w.im <= Drift(i)
    decreases i
  {
    hide Back, Run, Step, Shift, Times, Disc, Drift;
    BackLength(f, i);
    if i == 0 {
      StartPoints(f);
    } else {
      var k, s := i - 1, Run(f, i - 1);
      RunPoints(f, k);
      RunUnfolds(f, i);
      var w := Back(s, f);
      var g, r := BackStep(s, k, f);
      ShiftBounds(k);
      DriftSmall(k);
      StrideLength(g, Shift(k));
      var u := 1.0 + Times(Shift(k), Shift(k)) / 2.0;
      AcrossStep(w, g, r, Drift(k), u);
      AlongStep(w, g, r, Drift(k));
      DriftGrows(k, Drift(k), u);
      DriftSmall(i);
      StillLong(Back(Run(f, i), f), Drift(i));
    }
    NotTooLong(Back(Run(f, i), f));
  }

  lemma DriftSmall(i: nat)
    requires i <= STEPS
    ensures 0.0 <= Drift(i) <= SLIP * 31.5
  {
    ShiftBounds(i);
    hide Shift;
  }

  lemma StartPoints(f: int)
    ensures var w := Back(Run(f, 0), f); w.re >= HALF && w.im == 0.0 && Drift(0) == 0.0
  {
    hide Mul;
    StartTurn(f);
    MulOne(Vector(Start(f)));
  }

  lemma StartTurn(f: int)
    ensures Run(f, 0) == Start(f) && Conj(Cis(f - Start(f).z)) == Complex(1.0, 0.0)
  {
  }

  // ---- The coefficients ------------------------------------------------------

  const LENGTH: real := 4611686018427387904.0

  lemma EndLength(f: int)
    ensures var s := Run(f, STEPS); s.x * s.x + s.y * s.y >= P124
  {
    RunNorm(f, STEPS);
    FinalNorm();
    hide Run, Norm;
  }

  /** Turned back, the final vector is nearly the real length. */
  lemma EndPoints(f: int)
    ensures Disc(Minus(Back(Run(f, STEPS), f), Complex(LENGTH, 0.0)), 97.7 * 1073741824.0)
  {
    hide Run, Cis, OnCircle, Mul, Conj, Vector, Drift, Back;
    RunPoints(f, STEPS);
    DriftSmall(STEPS);
    EndLength(f);
    BackSquare(f);
    NearLength(Back(Run(f, STEPS), f));
  }

  lemma BackSquare(f: int)
    ensures var s := Run(f, STEPS); Squared(Back(s, f)) == (s.x * s.x + s.y * s.y) as real
  {
    hide Run, Squared, Cis, OnCircle, Mul, Conj, Vector;
    var s := Run(f, STEPS);
    VectorLength(s);
    CisOnCircle(f - s.z);
    ConjOnCircle(Cis(f - s.z));
    CircleSquare(Conj(Cis(f - s.z)));
    Lagrange(Vector(s), Conj(Cis(f - s.z)));
  }

  lemma NearLength(w: Complex)
    requires Squared(w) >= P124 as real && HALF <= w.re <= REACH && 0.0 - SLIP * 31.5 <= w.im <= SLIP * 31.5
    ensures Disc(Minus(w, Complex(LENGTH, 0.0)), 97.7 * 1073741824.0)
  {
    SidesBelow(w.im, SLIP * 31.5);
    if w.re < LENGTH - 4096.0 { ProductGrows(w.re, w.re, LENGTH - 4096.0, LENGTH - 4096.0); }
    SidesBelow(w.re - LENGTH, 4096.0);
  }

  /** One raw turn, or none, either way moves a point by no more than its arc. */
  lemma ResidueSmall(z: int)
    requires -1 <= z <= 1
    ensures Disc(Minus(Cis(z), Complex(1.0, 0.0)), 6.284 / 4294967296.0)
  {
    hide Cis, Close, Disc, Minus;
    OneTurn();
    NearSides(D1);
    MirrorNear(D1);
    NearSides(D1.Mirror());
    CisZero();
    ResiduePoint(Cis(z));
  }

  lemma CisZero()
    ensures Cis(0) == Complex(1.0, 0.0)
  {
    hide Cis;
    CisUnfolds(0);
  }

  lemma ResiduePoint(z: Complex)
    requires z == Complex(1.0, 0.0)
          || (&& D1.re as real - 1.0 <= SCALE as real * z.re <= D1.re as real + 1.0
              && (|| D1.im as real - 1.0 <= SCALE as real * z.im <= D1.im as real + 1.0
                  || 0.0 - D1.im as real - 1.0 <= SCALE as real * z.im <= 0.0 - D1.im as real + 1.0))
    ensures Disc(Minus(z, Complex(1.0, 0.0)), 6.284 / 4294967296.0)
  {
    SidesBelow(z.re - 1.0, 0.01 / 4294967296.0);
    SidesBelow(z.im, 6.2835 / 4294967296.0);
  }

  /** The final vector against the angle it was turned by. */
  lemma EndTurned(f: int)
    ensures var s := Run(f, STEPS); Disc(Minus(Vector(s), Scaled(LENGTH, Cis(f - s.z))), 97.7 * 1073741824.0)
  {
    hide Run, Cis, OnCircle, Mul, Conj, Vector, Disc, Squared, Minus, Scaled, Back;
    EndPoints(f);
    var s := Run(f, STEPS);
    var e := Cis(f - s.z);
    CisOnCircle(f - s.z);
    BackMeans(s, f);
    DiscTurned(e, Minus(Back(s, f), Complex(LENGTH, 0.0)), 97.7 * 1073741824.0);
    TurnedForward(Vector(s), e, LENGTH);
  }

  /** The angle it was turned by against the one asked for. */
  lemma EndResidue(f: int, z: int)
    requires -1 <= z <= 1
    ensures Disc(Minus(Scaled(LENGTH, Cis(f - z)), Scaled(LENGTH, Cis(f))), 6.284 * 1073741824.0)
  {
    hide Cis, OnCircle, Mul, Disc, Squared, Minus, Scaled;
    var e, c := Cis(f - z), Cis(f);
    CisOnCircle(f);
    SplitAngle(f, z);
    ResidueSmall(0 - z);
    DiscTurned(c, Minus(Cis(0 - z), Complex(1.0, 0.0)), 6.284 / 4294967296.0);
    MulMinusOne(c, Cis(0 - z));
    DiscScaled(Minus(e, c), 6.284 / 4294967296.0, LENGTH);
    ScaledMinus(e, c, LENGTH);
  }

  lemma EndAngle(f: int)
    requires 0 < f < QUARTER
    ensures Disc(Minus(Vector(Run(f, STEPS)), Scaled(LENGTH, Cis(f))), 104.0 * 1073741824.0)
  {
    hide Run, Cis, Vector, Disc, Minus, Scaled;
    ResidualAngle(f);
    var s := Run(f, STEPS);
    var v, e, c := Vector(s), Scaled(LENGTH, Cis(f - s.z)), Scaled(LENGTH, Cis(f));
    EndTurned(f);
    EndResidue(f, s.z);
    DiscVia(v, e, c, 97.7 * 1073741824.0, 6.284 * 1073741824.0);
    DiscGrows(Minus(v, c), 97.7 * 1073741824.0 + 6.284 * 1073741824.0, 104.0 * 1073741824.0);
  }

  lemma SplitAngle(f: int, z: int)
    ensures Cis(f - z) == Mul(Cis(f), Cis(0 - z))
  {
    CisAdd(f, 0 - z);
    assert f - z == f + (0 - z);
  }

  lemma BackMeans(s: State, f: int)
    ensures Back(s, f) == Mul(Vector(s), Conj(Cis(f - s.z)))
  {
  }

  lemma TurnedForward(v: Complex, e: Complex, l: real)
    requires OnCircle(e)
    ensures Mul(e, Minus(Mul(v, Conj(e)), Complex(l, 0.0))) == Minus(v, Scaled(l, e))
  {
    MulInverse(e);
    MulAssociative(v, Conj(e), e);
    MulOne(v);
    Commutes(e, Mul(v, Conj(e)));
    MulMinus(e, Mul(v, Conj(e)), Complex(l, 0.0));
  }

  lemma MulMinus(a: Complex, b: Complex, c: Complex)
    ensures Mul(a, Minus(b, c)) == Minus(Mul(a, b), Mul(a, c))
  {
  }

  lemma MulMinusOne(c: Complex, d: Complex)
    ensures Mul(c, Minus(d, Complex(1.0, 0.0))) == Minus(Mul(c, d), c)
  {
    MulMinus(c, d, Complex(1.0, 0.0));
    MulOne(c);
  }

  lemma ScaledMinus(a: Complex, b: Complex, k: real)
    ensures Scaled(k, Minus(a, b)) == Minus(Scaled(k, a), Scaled(k, b))
  {
  }

  ghost function Pair(u: (int, int)): Complex { Complex(u.0 as real, u.1 as real) }

  const UNIT: real := 4294967296.0

  /** Within the first quarter, cosine and sine are those of the angle, to 105 raw units. */
  lemma UnitAngle(f: int)
    requires 0 <= f < QUARTER
    ensures Disc(Minus(Pair(Unit(f)), Scaled(UNIT, Cis(f))), 105.0)
  {
    hide Run, Cis, Rounded, Unit, Disc, Minus, Scaled, Vector;
    UnitMeans(f);
    if f == 0 {
      NoError();
    } else {
      var s := Run(f, STEPS);
      EndAngle(f);
      RoundedError(s.x, P30);
      RoundedError(s.y, P30);
      UnitNear(s, Rounded(s.x, P30, NearestEven), Rounded(s.y, P30, NearestEven), Cis(f));
    }
  }

  lemma UnitMeans(f: int)
    ensures f == 0 ==> Unit(f) == (ONE, 0)
    ensures f != 0 ==> Unit(f) == (Rounded(Run(f, STEPS).x, P30, NearestEven), Rounded(Run(f, STEPS).y, P30, NearestEven))
  {
  }

  lemma NoError()
    ensures Disc(Minus(Pair((ONE, 0)), Scaled(UNIT, Cis(0))), 105.0)
  {
    CisZero();
    hide Cis;
  }

  lemma UnitNear(e: State, c: int, s: int, z: Complex)
    requires Disc(Minus(Vector(e), Scaled(LENGTH, z)), 104.0 * 1073741824.0)
    requires 2 * Abs(e.x - c * P30) <= P30 && 2 * Abs(e.y - s * P30) <= P30
    ensures Disc(Minus(Pair((c, s)), Scaled(UNIT, z)), 105.0)
  {
    hide Disc;
    var v, k := Vector(e), 1.0 / 1073741824.0;
    DiscScaled(Minus(v, Scaled(LENGTH, z)), 104.0 * 1073741824.0, k);
    assert Scaled(k, Minus(v, Scaled(LENGTH, z))) == Minus(Scaled(k, v), Scaled(UNIT, z));
    var u := Pair((c, s));
    HalfDisc(Minus(u, Scaled(k, v)));
    DiscVia(u, Scaled(k, v), Scaled(UNIT, z), 1.0, 104.0);
  }

  // ---- All angles ------------------------------------------------------------

  /** A quarter turn, `quadrant` times over. */
  ghost function Compass(quadrant: int): Complex {
    if quadrant == 0 then Complex(1.0, 0.0)
    else if quadrant == 1 then Complex(0.0, 1.0)
    else if quadrant == 2 then Complex(0.0 - 1.0, 0.0)
    else Complex(0.0, 0.0 - 1.0)
  }

  /** The point of the circle that an angle stands for. */
  ghost function Bearing(turns: int): Complex { Mul(Compass(Quadrant(turns)), Cis(Offset(turns))) }

  lemma CompassOnCircle(q: int)
    ensures OnCircle(Compass(q))
  {
  }

  lemma BearingOnCircle(t: int)
    ensures OnCircle(Bearing(t))
  {
    CompassOnCircle(Quadrant(t));
    CisOnCircle(Offset(t));
    hide OnCircle, Cis, Mul, Compass;
    MulOnCircle(Compass(Quadrant(t)), Cis(Offset(t)));
  }

  lemma PairTurned(q: int, u: (int, int))
    ensures Pair(Turned(q, u)) == Mul(Compass(q), Pair(u))
  {
  }

  lemma ScaledMul(k: real, a: Complex, b: Complex)
    ensures Mul(a, Scaled(k, b)) == Scaled(k, Mul(a, b)) == Mul(Scaled(k, a), b)
  {
  }

  /** Cosine and sine of any angle, against its point of the circle. */
  lemma CosSinBearing(t: int)
    ensures Disc(Minus(Pair(CosSin(t)), Scaled(UNIT, Bearing(t))), 105.0)
  {
    hide Cis, OnCircle, Mul, Compass, Pair, Turned, Unit, Disc, Minus, Scaled;
    var q, f := Quadrant(t), Offset(t);
    OffsetRange(t);
    UnitAngle(f);
    CompassOnCircle(q);
    DiscTurned(Compass(q), Minus(Pair(Unit(f)), Scaled(UNIT, Cis(f))), 105.0);
    MulMinus(Compass(q), Pair(Unit(f)), Scaled(UNIT, Cis(f)));
    PairTurned(q, Unit(f));
    ScaledMul(UNIT, Compass(q), Cis(f));
  }

  lemma OffsetRange(t: int)
    ensures 0 <= Offset(t) < QUARTER && 0 <= Quadrant(t) <= 3
  {
  }

  /** How far `QUARTER` turns are from an exact quarter. */
  const GAP: real := 0.5 / 4294967296.0

  lemma QuarterClose()
    ensures Disc(Minus(Cis(QUARTER), Complex(0.0, 1.0)), GAP)
  {
    hide Cis, Close;
    Directions7();
    NearSides(D1073741824);
    var z := Cis(QUARTER);
    SidesBelow(z.re, GAP / 2.0);
    SidesBelow(z.im - 1.0, GAP / 2.0);
  }

  lemma {:induction false} CompassAdds(p: int, q: int)
    requires 0 <= p <= 3 && 0 <= q <= 3
    ensures Mul(Compass(p), Compass(q)) == Compass((p + q) % 4)
    ensures Mul(Compass(p), Complex(0.0, 1.0)) == Compass((p + 1) % 4)
    decreases q
  {
    hide Mul;
    CompassNext(p);
    if q == 0 {
      MulOne(Compass(p));
    } else {
      CompassAdds(p, q - 1);
      CompassNext(q - 1);
      MulAssociative(Compass(p), Compass(q - 1), Complex(0.0, 1.0));
      CompassNext((p + q - 1) % 4);
    }
  }

  lemma CompassNext(p: int)
    requires 0 <= p <= 3
    ensures Mul(Compass(p), Complex(0.0, 1.0)) == Compass((p + 1) % 4)
  {
    QuarterMul(Compass(p));
    hide Mul;
  }

  lemma QuarterMul(z: Complex)
    ensures Mul(z, Complex(0.0, 1.0)) == Complex(0.0 - z.im, z.re)
  {
  }

  lemma OffsetsAdd(s: int, t: int)
    ensures var f, q := Offset(s) + Offset(t), (Quadrant(s) + Quadrant(t)) % 4;
            && (f < QUARTER ==> Offset(s + t) == f && Quadrant(s + t) == q)
            && (f >= QUARTER ==> Offset(s + t) == f - QUARTER && Quadrant(s + t) == (q + 1) % 4)
  {
    var a, b := s / 0x4000_0000, t / 0x4000_0000;
    var f := Offset(s) + Offset(t);
    assert s + t == f + 0x4000_0000 * (a + b);
    ShiftQuarters(f, a + b);
    QuadrantsAdd(a, b);
  }

  lemma QuadrantsAdd(a: int, b: int)
    ensures (a % 4 + b % 4) % 4 == (a + b) % 4 && ((a % 4 + b % 4) % 4 + 1) % 4 == (1 + (a + b)) % 4
  {
  }

  lemma Regroup(a: Complex, b: Complex, c: Complex, d: Complex)
    ensures Mul(Mul(a, b), Mul(c, d)) == Mul(Mul(a, c), Mul(b, d))
  {
    hide Mul;
    MulAssociative(a, b, Mul(c, d));
    MulAssociative(b, c, d);
    Commutes(b, c);
    MulAssociative(c, b, d);
    MulAssociative(a, c, Mul(b, d));
  }

  /** Points of the circle multiply as angles add. */
  lemma BearingAdds(s: int, t: int)
    ensures Disc(Minus(Bearing(s + t), Mul(Bearing(s), Bearing(t))), GAP)
  {
    hide Cis, OnCircle, Mul, Compass, Disc, Minus, Quadrant, Offset;
    var p, q, f, g := Quadrant(s), Quadrant(t), Offset(s), Offset(t);
    OffsetRange(s);
    OffsetRange(t);
    OffsetsAdd(s, t);
    Regroup(Compass(p), Cis(f), Compass(q), Cis(g));
    CompassAdds(p, q);
    CisAdd(f, g);
    var c := Compass((p + q) % 4);
    if f + g < QUARTER {
      NoDistance(Bearing(s + t));
    } else {
      var o := Cis(f + g - QUARTER);
      CisAdd(f + g - QUARTER, QUARTER);
      CompassAdds((p + q) % 4, 0);
      MulAssociative(c, o, Cis(QUARTER));
      Commutes(Complex(0.0, 1.0), o);
      MulAssociative(c, Complex(0.0, 1.0), o);
      MulAssociative(c, o, Complex(0.0, 1.0));
      QuarterClose();
      CompassOnCircle((p + q) % 4);
      CisOnCircle(f + g - QUARTER);
      MulOnCircle(c, o);
      DiscOpposite(Cis(QUARTER), Complex(0.0, 1.0), GAP);
      DiscTurned(Mul(c, o), Minus(Complex(0.0, 1.0), Cis(QUARTER)), GAP);
      MulMinus(Mul(c, o), Complex(0.0, 1.0), Cis(QUARTER));
    }
  }

  lemma NoDistance(z: Complex)
    ensures Disc(Minus(z, z), GAP)
  {
  }

  // ---- Angles add up ---------------------------------------------------------

  const ADDITION_ERROR: int := 316

  /** Turning by a sum is turning by both: the coefficients of `s + t` are the complex product of
      those of `s` and `t`, up to 316 units. */
  lemma AngleAddition(s: int, t: int)
    ensures var u, v, w := CosSin(s), CosSin(t), CosSin(s + t);
            && Abs(ONE * w.0 - (u.0 * v.0 - u.1 * v.1)) <= ADDITION_ERROR * ONE
            && Abs(ONE * w.1 - (u.0 * v.1 + u.1 * v.0)) <= ADDITION_ERROR * ONE
  {
    hide CosSin, Disc, Minus, Scaled, Mul, Bearing, Pair;
    var u, v, w := Pair(CosSin(s)), Pair(CosSin(t)), Pair(CosSin(s + t));
    ProductApart(s, t);
    CosSinBearing(s + t);
    BearingAdds(s, t);
    var b, c := Bearing(s + t), Mul(Bearing(s), Bearing(t));
    DiscScaled(Minus(w, Scaled(UNIT, b)), 105.0, UNIT);
    ScaledMinus(w, Scaled(UNIT, b), UNIT);
    DiscScaled(Minus(b, c), GAP, UNIT * UNIT);
    ScaledMinus(b, c, UNIT * UNIT);
    ScaledTwice(b);
    ScaledTwice(c);
    DiscVia(Scaled(UNIT, w), Scaled(UNIT * UNIT, b), Scaled(UNIT * UNIT, c), UNIT * 105.0, UNIT * UNIT * GAP);
    DiscVia(Scaled(UNIT, w), Scaled(UNIT * UNIT, c), Mul(u, v), UNIT * 105.0 + UNIT * UNIT * GAP, 210.0 * UNIT + 11025.0);
    DiscGrows(Minus(Scaled(UNIT, w), Mul(u, v)), UNIT * 105.0 + UNIT * UNIT * GAP + (210.0 * UNIT + 11025.0), 316.0 * UNIT);
    DiscSides(Minus(Scaled(UNIT, w), Mul(u, v)), 316.0 * UNIT);
    PairProduct(CosSin(s), CosSin(t), CosSin(s + t));
  }

  lemma ScaledTwice(a: Complex)
    ensures Scaled(UNIT, Scaled(UNIT, a)) == Scaled(UNIT * UNIT, a)
  {
  }

  lemma PairProduct(u: (int, int), v: (int, int), w: (int, int))
    ensures var d := Minus(Scaled(UNIT, Pair(w)), Mul(Pair(u), Pair(v)));
            && d.re == (ONE * w.0 - (u.0 * v.0 - u.1 * v.1)) as real
            && d.im == (ONE * w.1 - (u.0 * v.1 + u.1 * v.0)) as real
  {
  }

  /** The product of two coefficient pairs, against the product of their points. */
  lemma ProductApart(s: int, t: int)
    ensures Disc(Minus(Scaled(UNIT * UNIT, Mul(Bearing(s), Bearing(t))), Mul(Pair(CosSin(s)), Pair(CosSin(t)))),
                 210.0 * UNIT + 11025.0)
  {
    hide CosSin, Disc, Minus, Scaled, Mul, Bearing, Pair, OnCircle;
    var u, v, a, b := Pair(CosSin(s)), Pair(CosSin(t)), Bearing(s), Bearing(t);
    CosSinBearing(s);
    CosSinBearing(t);
    BearingOnCircle(s);
    BearingOnCircle(t);
    var p, q := Scaled(UNIT, a), Scaled(UNIT, b);
    DiscOpposite(u, p, 105.0);
    DiscOpposite(v, q, 105.0);
    OnCircleScaled(a);
    OnCircleScaled(b);
    DiscVia(v, q, Complex(0.0, 0.0), 105.0, UNIT);
    MinusZero(v);
    DiscProduct(p, UNIT, Minus(q, v), 105.0);
    DiscProduct(Minus(p, u), 105.0, v, 105.0 + UNIT);
    MulMinus(p, q, v);
    MulMinus(v, p, u);
    Commutes(v, p);
    Commutes(v, u);
    Commutes(v, Minus(p, u));
    ProductScaled(a, b);
    DiscVia(Mul(p, q), Mul(p, v), Mul(u, v), UNIT * 105.0, 105.0 * (105.0 + UNIT));
    DiscGrows(Minus(Mul(p, q), Mul(u, v)), UNIT * 105.0 + 105.0 * (105.0 + UNIT), 210.0 * UNIT + 11025.0);
  }

  lemma ProductScaled(a: Complex, b: Complex)
    ensures Mul(Scaled(UNIT, a), Scaled(UNIT, b)) == Scaled(UNIT * UNIT, Mul(a, b))
  {
    ScaledMul(UNIT, Scaled(UNIT, a), b);
    ScaledMul(UNIT, a, b);
    ScaledTwice(Mul(a, b));
  }

  lemma OnCircleScaled(a: Complex)
    requires OnCircle(a)
    ensures Disc(Scaled(UNIT, a), UNIT) && Minus(Scaled(UNIT, a), Complex(0.0, 0.0)) == Scaled(UNIT, a)
  {
    MinusZero(Scaled(UNIT, a));
    CircleSquare(a);
    hide OnCircle;
    assert Disc(a, 1.0);
    DiscScaled(a, 1.0, UNIT);
  }

  lemma MinusZero(a: Complex)
    ensures Minus(a, Complex(0.0, 0.0)) == a
  {
  }

  // ---- Where the angles lie --------------------------------------------------

  /** One raw turn moves a point by an arc of less than 1.463 * 10^-9. */
  const ARC: real := 6.284 / 4294967296.0

  /** The first eighth stays near the start of the circle. */
  lemma {:induction false} EighthNear(n: nat)
    ensures Disc(Minus(Cis(n), Complex(1.0, 0.0)), ARC * n as real)
    decreases n
  {
    hide Cis, Disc, Minus, OnCircle, Mul;
    if n == 0 {
      CisZero();
      Nowhere();
    } else {
      EighthNear(n - 1);
      CisAdd(n - 1, 1);
      ResidueSmall(1);
      CisOnCircle(n - 1);
      DiscTurned(Cis(n - 1), Minus(Cis(1), Complex(1.0, 0.0)), ARC);
      MulMinusOne(Cis(n - 1), Cis(1));
      DiscVia(Cis(n), Cis(n - 1), Complex(1.0, 0.0), ARC, ARC * (n - 1) as real);
    }
  }

  lemma Nowhere()
    ensures Disc(Minus(Complex(1.0, 0.0), Complex(1.0, 0.0)), 0.0)
  {
  }

  lemma EighthForward(n: nat)
    requires n <= 536870912
    ensures Cis(n).re >= 0.0
  {
    EighthNear(n);
    DiscSides(Minus(Cis(n), Complex(1.0, 0.0)), ARC * n as real);
    hide Cis, Disc;
  }

  lemma OneTurnUp()
    ensures Cis(1).re >= 0.0 && Cis(1).im >= 0.0
  {
    OneTurn();
    NearSides(D1);
  }

  /** In the first eighth, sines only grow. */
  lemma {:induction false} EighthAbove(n: nat)
    requires n <= 536870912
    ensures Cis(n).re >= 0.0 && Cis(n).im >= 0.0
    decreases n
  {
    hide Cis, Mul;
    EighthForward(n);
    if n == 0 {
      CisZero();
    } else {
      EighthAbove(n - 1);
      CisAdd(n - 1, 1);
      OneTurnUp();
      SinesAdd(Cis(n - 1), Cis(1));
    }
  }

  lemma SinesAdd(a: Complex, b: Complex)
    requires a.re >= 0.0 && a.im >= 0.0 && b.re >= 0.0 && b.im >= 0.0
    ensures Mul(a, b).im >= 0.0
  {
    NonNegative(a.re, b.im);
    NonNegative(a.im, b.re);
  }

  /** The first quarter is two eighths. */
  lemma QuarterAbove(f: int)
    requires 0 <= f <= QUARTER
    ensures Cis(f).im >= 0.0
  {
    hide Cis, Mul;
    if f <= 536870912 {
      EighthAbove(f);
    } else {
      EighthAbove(536870912);
      EighthAbove(f - 536870912);
      CisAdd(536870912, f - 536870912);
      SinesAdd(Cis(536870912), Cis(f - 536870912));
    }
  }

  /** Reflected at an eighth turn, the point of the circle exchanges its coordinates. */
  lemma ReflectedPoint(f: int)
    requires 0 <= f <= QUARTER
    ensures Disc(Minus(Cis(QUARTER - f), Complex(Cis(f).im, Cis(f).re)), GAP)
  {
    hide Cis, Mul, Disc, Minus, OnCircle;
    CisAdd(QUARTER, 0 - f);
    assert QUARTER + (0 - f) == QUARTER - f;
    CisMirror(f);
    CisOnCircle(f);
    ConjOnCircle(Cis(f));
    QuarterClose();
    var c := Conj(Cis(f));
    DiscTurned(c, Minus(Cis(QUARTER), Complex(0.0, 1.0)), GAP);
    MulMinus(c, Cis(QUARTER), Complex(0.0, 1.0));
    Commutes(c, Cis(QUARTER));
    QuarterMul(c);
  }

  lemma SmallAngle(f: int)
    requires 0 < f < QUARTER
    ensures CosSin(f) == Unit(f)
  {
    hide Unit;
    assert Quadrant(f) == 0 && Offset(f) == f;
  }

  /** In the first quarter both coefficients are positive, but for the rounding error. */
  lemma FirstQuadrant(f: int)
    requires 0 < f < QUARTER
    ensures CosSin(f).0 >= -105 && CosSin(f).1 >= -105
  {
    hide Cis, CosSin, Unit, Disc;
    SmallAngle(f);
    UnitAngle(f);
    DiscSides(Minus(Pair(Unit(f)), Scaled(UNIT, Cis(f))), 105.0);
    QuarterAbove(f);
    QuarterAbove(QUARTER - f);
    ReflectedPoint(f);
    DiscSides(Minus(Cis(QUARTER - f), Complex(Cis(f).im, Cis(f).re)), GAP);
  }

  /** At `QUARTER - f` the coefficients are those at `f`, exchanged. */
  lemma Reflection(f: int)
    requires 0 < f < QUARTER
    ensures Abs(CosSin(QUARTER - f).0 - CosSin(f).1) <= 210 && Abs(CosSin(QUARTER - f).1 - CosSin(f).0) <= 210
  {
    hide Cis, CosSin, Unit, Disc;
    SmallAngle(f);
    SmallAngle(QUARTER - f);
    UnitAngle(f);
    UnitAngle(QUARTER - f);
    DiscSides(Minus(Pair(Unit(f)), Scaled(UNIT, Cis(f))), 105.0);
    DiscSides(Minus(Pair(Unit(QUARTER - f)), Scaled(UNIT, Cis(QUARTER - f))), 105.0);
    ReflectedPoint(f);
    DiscSides(Minus(Cis(QUARTER - f), Complex(Cis(f).im, Cis(f).re)), GAP);
  }

  /** An eighth turn, counter-clockwise: both coefficients are half the square root of two. */
  lemma EighthTurn()
    ensures var u := CosSin(QUARTER / 2); Abs(u.0 - 3037000500) <= 105 && Abs(u.1 - 3037000500) <= 105
  {
    hide Cis, CosSin, Unit, Disc, Close;
    var f := QUARTER / 2;
    SmallAngle(f);
    UnitAngle(f);
    DiscSides(Minus(Pair(Unit(f)), Scaled(UNIT, Cis(f))), 105.0);
    Directions7();
    NearSides(D536870912);
  }
}

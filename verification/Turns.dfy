/** Turning by whole raw turns, 2^-32 of a circle each, as points of the unit circle: a turn is a
    fixed rational point, and its powers are approximated in fixed point. */
module Turns {
  import opened Rounding

  datatype Complex = Complex(re: real, im: real)

  function Mul(a: Complex, b: Complex): Complex {
    Complex(a.re * b.re - a.im * b.im, a.re * b.im + a.im * b.re)
  }

  function Conj(a: Complex): Complex { Complex(a.re, 0.0 - a.im) }

  ghost predicate OnCircle(a: Complex) { a.re * a.re + a.im * a.im == 1.0 }

  const P: int := 248902613312231085274912259393
  const Q: int := 0x1_0000_0000_0000_0000_0000_0000_0000_0000

  /** One raw turn. */
  const RHO: Complex := Complex((Q * Q - P * P) as real / (Q * Q + P * P) as real, (2 * P * Q) as real / (Q * Q + P * P) as real)

  /** One turn after another. */
  ghost function Spun(turns: seq<Complex>): Complex {
    if turns == [] then Complex(1.0, 0.0) else Mul(Spun(turns[..|turns| - 1]), turns[|turns| - 1])
  }

  ghost predicate Repeats(turns: seq<Complex>, z: Complex, n: nat) {
    |turns| == n && forall w :: w in turns ==> w == z
  }

  ghost function Copies(z: Complex, n: nat): (turns: seq<Complex>)
    ensures Repeats(turns, z, n)
  {
    assert Repeats(seq(n, _ => z), z, n);
    var turns :| Repeats(turns, z, n);
    turns
  }

  ghost function Power(z: Complex, n: nat): Complex { Spun(Copies(z, n)) }

  /** `n` raw turns, backwards if negative. */
  ghost function Cis(n: int): Complex { if n >= 0 then Power(RHO, n) else Power(Conj(RHO), 0 - n) }

  lemma PowerUnfolds(z: Complex, n: nat)
    ensures Power(z, 0) == Complex(1.0, 0.0)
    ensures n > 0 ==> Power(z, n) == Mul(Power(z, n - 1), z)
  {
    hide Mul, Copies;
    assert Repeats(Copies(z, 0), z, 0);
    if n > 0 {
      var more, less := Copies(z, n), Copies(z, n - 1);
      forall i | 0 <= i < n ensures more[i] == z && (i < n - 1 ==> less[i] == z) {
        assert more[i] in more && (i < n - 1 ==> less[i] in less);
      }
      assert more[..n - 1] == less;
    }
  }

  lemma CisUnfolds(n: int)
    ensures Cis(0) == Complex(1.0, 0.0)
    ensures n > 0 ==> Cis(n) == Mul(Cis(n - 1), RHO)
    ensures n < 0 ==> Cis(n) == Mul(Cis(n + 1), Conj(RHO))
  {
    hide Mul, Conj, Power;
    PowerUnfolds(RHO, if n > 0 then n else 0);
    PowerUnfolds(Conj(RHO), if n < 0 then 0 - n else 0);
  }

  lemma Ratio(a: real, b: real, d: real)
    requires d > 0.0 && a * a + b * b == d * d
    ensures (a / d) * (a / d) + (b / d) * (b / d) == 1.0
  {
    var x, y, e := a / d, b / d, d * d;
    var u := SquareOfRatio(x, d, a);
    var v := SquareOfRatio(y, d, b);
    assert u + v == e;
    UnitSum(x * x, y * y, u, v, e, d);
  }

  lemma SquareOfRatio(x: real, d: real, a: real) returns (u: real)
    requires x * d == a
    ensures u == a * a && u == x * x * (d * d)
  {
    u := a * a;
    assert x * x * (d * d) == (x * d) * (x * d);
  }

  lemma PositiveProduct(x: real, y: real, p: real)
    requires x > 0.0 && y > 0.0 && p == x * y
    ensures p > 0.0
  {
    assert x * y > 0.0;
  }

  lemma CancelReal(s: real, t: real, e: real)
    requires e > 0.0 && s * e == t * e
    ensures s == t
  {
    if s > t { PositiveProduct(s - t, e, (s - t) * e); }
    if s < t { PositiveProduct(t - s, e, (t - s) * e); }
  }

  lemma UnitSum(p: real, q: real, u: real, v: real, e: real, d: real)
    requires d > 0.0 && e == d * d && u == p * e && v == q * e && u + v == e
    ensures p + q == 1.0
  {
    assert (p + q) * e == p * e + q * e;
    PositiveProduct(d, d, e);
    CancelReal(p + q, 1.0, e);
  }

  lemma RhoOnCircle()
    ensures OnCircle(RHO)
  {
    var a, b, d := (Q * Q - P * P) as real, (2 * P * Q) as real, (Q * Q + P * P) as real;
    Ratio(a, b, d);
  }

  lemma MulAssociative(a: Complex, b: Complex, c: Complex)
    ensures Mul(Mul(a, b), c) == Mul(a, Mul(b, c))
  {
    Expanded(a.re, a.im, b.re, b.im, c.re, c.im);
    Expanded(a.re, a.im, b.re, b.im, 0.0 - c.im, c.re);
    SwapSides(a.re, a.im, b.re, b.im, c.re, c.im);
  }

  /** The real part of a triple product, from either side. */
  lemma Expanded(a: real, a': real, b: real, b': real, c: real, c': real)
    ensures (a * b - a' * b') * c - (a * b' + a' * b) * c' == a * (b * c - b' * c') - a' * (b * c' + b' * c)
  {
    Fourfold(a * b, a' * b', a * b', a' * b, c, c');
    Fourfold(b * c, b' * c', b * c', b' * c, a, a');
    assert a * b * c == b * c * a && a' * b' * c == b' * c * a';
    assert a * b' * c' == b' * c' * a && a' * b * c' == b * c' * a';
  }

  lemma Fourfold(p: real, q: real, r: real, s: real, x: real, y: real)
    ensures (p - q) * x - (r + s) * y == p * x - q * x - r * y - s * y
    ensures x * (p - q) - y * (r + s) == p * x - q * x - r * y - s * y
  {
  }

  /** The imaginary part is the real part with the last factor turned by a quarter. */
  lemma SwapSides(a: real, a': real, b: real, b': real, c: real, c': real)
    ensures (a * b - a' * b') * (0.0 - c') - (a * b' + a' * b) * c == 0.0 - ((a * b - a' * b') * c' + (a * b' + a' * b) * c)
    ensures a * (b * (0.0 - c') - b' * c) - a' * (b * c + b' * (0.0 - c'))
            == 0.0 - (a * (b * c' + b' * c) + a' * (b * c - b' * c'))
  {
    assert b * (0.0 - c') - b' * c == 0.0 - (b * c' + b' * c);
    assert b * c + b' * (0.0 - c') == b * c - b' * c';
  }

  lemma MulSymmetric(a: Complex, b: Complex)
    ensures Mul(a, b) == Mul(b, a) && Mul(Conj(a), Conj(b)) == Conj(Mul(a, b))
  {
  }

  lemma ConjOnCircle(a: Complex)
    requires OnCircle(a)
    ensures OnCircle(Conj(a))
  {
  }

  lemma MulInverse(a: Complex)
    requires OnCircle(a)
    ensures Mul(a, Conj(a)) == Complex(1.0, 0.0) == Mul(Conj(a), a)
  {
  }

  lemma MulOnCircle(a: Complex, b: Complex)
    requires OnCircle(a) && OnCircle(b)
    ensures OnCircle(Mul(a, b))
  {
    assert (a.re * b.re - a.im * b.im) * (a.re * b.re - a.im * b.im) + (a.re * b.im + a.im * b.re) * (a.re * b.im + a.im * b.re)
        == (a.re * a.re + a.im * a.im) * (b.re * b.re + b.im * b.im);
  }

  lemma MulOne(a: Complex)
    ensures Mul(a, Complex(1.0, 0.0)) == a == Mul(Complex(1.0, 0.0), a)
  {
  }

  lemma OneOnCircle()
    ensures OnCircle(Complex(1.0, 0.0))
  {
  }

  lemma {:induction false} CisOnCircle(n: int)
    ensures OnCircle(Cis(n))
    decreases if n < 0 then -n else n
  {
    hide OnCircle, Mul, Conj, Cis;
    CisUnfolds(n);
    RhoOnCircle();
    ConjOnCircle(RHO);
    if n == 0 {
      OneOnCircle();
    } else if n > 0 {
      CisOnCircle(n - 1);
      MulOnCircle(Cis(n - 1), RHO);
    } else if n < 0 {
      CisOnCircle(n + 1);
      MulOnCircle(Cis(n + 1), Conj(RHO));
    }
  }

  /** Turning is additive, forwards and backwards. */
  lemma {:induction false} CisAdd(m: int, n: int)
    ensures Cis(m + n) == Mul(Cis(m), Cis(n))
    decreases if n < 0 then -n else n
  {
    hide Mul, Conj, OnCircle, Cis;
    CisUnfolds(n);
    if n == 0 {
      MulOne(Cis(m));
    } else if n > 0 {
      CisAdd(m, n - 1);
      MulAssociative(Cis(m), Cis(n - 1), RHO);
      CisNext(m + n - 1);
    } else {
      CisAdd(m, n + 1);
      MulAssociative(Cis(m), Cis(n + 1), Conj(RHO));
      CisPrevious(m + n + 1);
    }
  }

  lemma CisNext(n: int)
    ensures Cis(n + 1) == Mul(Cis(n), RHO)
  {
    hide Mul, Conj, OnCircle, Cis;
    CisUnfolds(n);
    CisUnfolds(n + 1);
    if n < 0 {
      RhoOnCircle();
      MulInverse(RHO);
      MulAssociative(Cis(n + 1), Conj(RHO), RHO);
      MulOne(Cis(n + 1));
    }
  }

  lemma CisPrevious(n: int)
    ensures Cis(n - 1) == Mul(Cis(n), Conj(RHO))
  {
    hide Mul, Conj, OnCircle, Cis;
    CisUnfolds(n);
    CisUnfolds(n - 1);
    if n > 0 {
      RhoOnCircle();
      MulInverse(RHO);
      MulAssociative(Cis(n - 1), RHO, Conj(RHO));
      MulOne(Cis(n - 1));
    }
  }

  lemma {:induction false} CisMirror(n: nat)
    ensures Cis(0 - n) == Conj(Cis(n))
  {
    hide Cis;
    CisUnfolds(n);
    CisUnfolds(0 - n);
    if n > 0 {
      CisMirror(n - 1);
      MulSymmetric(Cis(n - 1), RHO);
      hide Mul, Conj;
    }
  }

  // ---- Distances -------------------------------------------------------------

  function Plus(a: Complex, b: Complex): Complex { Complex(a.re + b.re, a.im + b.im) }

  function Minus(a: Complex, b: Complex): Complex { Complex(a.re - b.re, a.im - b.im) }

  function Scaled(k: real, a: Complex): Complex { Complex(k * a.re, k * a.im) }

  function Squared(a: Complex): real { a.re * a.re + a.im * a.im }

  function Dot(a: Complex, b: Complex): real { a.re * b.re + a.im * b.im }

  function Wedge(a: Complex, b: Complex): real { a.re * b.im - a.im * b.re }

  /** At most `e` away from the origin. */
  ghost predicate Disc(a: Complex, e: real) { e >= 0.0 && Squared(a) <= e * e }

  lemma NonNegative(x: real, y: real)
    requires x >= 0.0 && y >= 0.0
    ensures x * y >= 0.0
  {
  }

  lemma ProductGrows(u: real, v: real, a: real, b: real)
    requires 0.0 <= u <= a && 0.0 <= v <= b
    ensures 0.0 <= u * v <= a * b
  {
    assert u * v <= a * v by { NonNegative(a - u, v); assert (a - u) * v == a * v - u * v; }
    assert a * v <= a * b by { NonNegative(a, b - v); assert a * (b - v) == a * b - a * v; }
    NonNegative(u, v);
  }

  lemma RealSquare(x: real)
    ensures x * x >= 0.0
  {
  }

  lemma DistanceNonNegative(a: Complex)
    ensures Squared(a) >= 0.0
  {
    RealSquare(a.re);
    RealSquare(a.im);
  }

  /** A product, by name. */
  ghost function Times(x: real, y: real): real { x * y }

  lemma RootBelow(x: real, y: real)
    requires x * x <= y * y && y >= 0.0
    ensures x <= y
  {
    if x > y { PositiveProduct(x - y, x + y, (x - y) * (x + y)); }
  }

  lemma Lagrange(a: Complex, b: Complex)
    ensures Dot(a, b) * Dot(a, b) + Wedge(a, b) * Wedge(a, b) == Squared(a) * Squared(b)
    ensures Squared(Mul(a, b)) == Squared(a) * Squared(b)
    ensures Squared(Plus(a, b)) == Squared(a) + 2.0 * Dot(a, b) + Squared(b)
  {
    var p, q, r, s := a.re * b.re, a.im * b.im, a.re * b.im, a.im * b.re;
    FourSquares(a.re * a.re, a.im * a.im, b.re * b.re, b.im * b.im);
    ProductSquare(a.re, b.re);
    ProductSquare(a.im, b.im);
    ProductSquare(a.re, b.im);
    ProductSquare(a.im, b.re);
    assert p * q == r * s;
    TwoSums(p, q, r, s);
    SumSquare(a.re, b.re);
    SumSquare(a.im, b.im);
  }

  lemma FourSquares(a: real, b: real, c: real, d: real)
    ensures (a + b) * (c + d) == a * c + a * d + b * c + b * d
  {
  }

  lemma ProductSquare(x: real, y: real)
    ensures x * y * (x * y) == x * x * (y * y)
  {
  }

  lemma SumSquare(x: real, y: real)
    ensures (x + y) * (x + y) == x * x + 2.0 * (x * y) + y * y
  {
  }

  lemma TwoSums(p: real, q: real, r: real, s: real)
    requires p * q == r * s
    ensures (p + q) * (p + q) + (r - s) * (r - s) == p * p + q * q + r * r + s * s
    ensures (p - q) * (p - q) + (r + s) * (r + s) == p * p + q * q + r * r + s * s
  {
  }

  /** Distances add up. */
  lemma DiscPlus(a: Complex, e: real, b: Complex, f: real)
    requires Disc(a, e) && Disc(b, f)
    ensures Disc(Plus(a, b), e + f)
  {
    hide Squared, Plus, Dot, Wedge;
    Lagrange(a, b);
    RealSquare(Wedge(a, b));
    DistanceNonNegative(a);
    DistanceNonNegative(b);
    DotBelow(Dot(a, b), Squared(a), Squared(b), e, f, Wedge(a, b) * Wedge(a, b));
  }

  lemma DiscScaled(a: Complex, e: real, k: real)
    requires Disc(a, e) && k >= 0.0
    ensures Disc(Scaled(k, a), k * e)
  {
    NonNegative(k, e);
    RealSquare(k);
    NonNegative(k * k, e * e - Squared(a));
    ScaledSquare(a, k);
    hide Squared, Scaled;
    assert k * k * (e * e - Squared(a)) == k * k * (e * e) - k * k * Squared(a);
    assert k * e * (k * e) == k * k * (e * e);
  }

  lemma ScaledSquare(a: Complex, k: real)
    ensures Squared(Scaled(k, a)) == k * k * Squared(a)
  {
    assert k * a.re * (k * a.re) == k * k * (a.re * a.re) && k * a.im * (k * a.im) == k * k * (a.im * a.im);
    assert k * k * (a.re * a.re + a.im * a.im) == k * k * (a.re * a.re) + k * k * (a.im * a.im);
  }

  lemma DiscGrows(a: Complex, e: real, f: real)
    requires Disc(a, e) && e <= f
    ensures Disc(a, f)
  {
    ProductGrows(e, e, f, f);
  }

  lemma DiscOpposite(a: Complex, b: Complex, e: real)
    requires Disc(Minus(a, b), e)
    ensures Disc(Minus(b, a), e)
  {
    var p, q := a.re - b.re, a.im - b.im;
    assert (0.0 - p) * (0.0 - p) == p * p && (0.0 - q) * (0.0 - q) == q * q;
  }

  /** The distance through a third point is no shorter. */
  lemma DiscVia(a: Complex, b: Complex, c: Complex, e: real, f: real)
    requires Disc(Minus(a, b), e) && Disc(Minus(b, c), f)
    ensures Disc(Minus(a, c), e + f)
  {
    DiscPlus(Minus(a, b), e, Minus(b, c), f);
    assert Plus(Minus(a, b), Minus(b, c)) == Minus(a, c);
  }

  lemma DotBelow(d: real, p: real, q: real, e: real, f: real, w: real)
    requires d * d + w == p * q && w >= 0.0 && 0.0 <= p <= e * e && 0.0 <= q <= f * f && e >= 0.0 && f >= 0.0
    ensures d <= e * f && p + 2.0 * d + q <= (e + f) * (e + f)
  {
    ProductGrows(p, q, e * e, f * f);
    NonNegative(e, f);
    assert e * e * (f * f) == e * f * (e * f);
    RootBelow(d, e * f);
  }

  lemma DiscSides(a: Complex, e: real)
    requires Disc(a, e)
    ensures 0.0 - e <= a.re <= e && 0.0 - e <= a.im <= e
  {
    RealSquare(a.re);
    RealSquare(a.im);
    Side(a.re, e);
    Side(a.im, e);
  }

  lemma Side(x: real, e: real)
    requires x * x <= e * e && e >= 0.0
    ensures 0.0 - e <= x <= e
  {
    RootBelow(x, e);
    assert (0.0 - x) * (0.0 - x) == x * x;
    RootBelow(0.0 - x, e);
  }

  /** Turning by a point of the circle changes no distance. */
  lemma DiscTurned(z: Complex, a: Complex, e: real)
    requires OnCircle(z) && Disc(a, e)
    ensures Disc(Mul(z, a), e)
  {
    hide Squared, Plus, Dot, Wedge, Mul, OnCircle;
    Lagrange(z, a);
    CircleSquare(z);
  }

  lemma CircleSquare(z: Complex)
    ensures OnCircle(z) <==> Squared(z) == 1.0
  {
  }

  lemma DiscProduct(a: Complex, e: real, b: Complex, f: real)
    requires Disc(a, e) && Disc(b, f)
    ensures Disc(Mul(a, b), e * f)
  {
    hide Squared, Plus, Dot, Wedge, Mul;
    Lagrange(a, b);
    DistanceNonNegative(a);
    DistanceNonNegative(b);
    ProductGrows(Squared(a), Squared(b), e * e, f * f);
    NonNegative(e, f);
    assert e * e * (f * f) == e * f * (e * f);
  }

  // ---- Fixed-point approximations --------------------------------------------

  const SCALE: int := 0x100_0000_0000_0000_0000
  const TINY: int := 0x10_0000_0000

  /** An approximation of `Cis(turns)` in units of 2^-72. */
  datatype Fixed = Fixed(turns: int, re: int, im: int, error: int) {
    function Point(): Complex { Complex(re as real, im as real) }

    function Mirror(): Fixed { Fixed(0 - turns, re, 0 - im, error) }
  }

  /** How far a scaled point is from another. */
  function Off(z: Complex, x: Complex): Complex { Complex(SCALE as real * z.re - x.re, SCALE as real * z.im - x.im) }

  ghost predicate Close(f: Fixed) {
    f.error <= TINY && Disc(Off(Cis(f.turns), f.Point()), f.error as real)
  }

  lemma MirrorNear(f: Fixed)
    requires Close(f) && f.turns >= 0
    ensures Close(f.Mirror())
  {
    hide Cis;
    CisMirror(f.turns);
    DiscMirror(Off(Cis(f.turns), f.Point()), f.error as real);
  }

  lemma DiscMirror(a: Complex, e: real)
    requires Disc(a, e)
    ensures Disc(Conj(a), e)
  {
  }

  /** What is left of a product when its factors are approximated. */
  lemma ProductError(z: Complex, w: Complex, x: Complex, y: Complex)
    ensures var a, b, k := Off(z, x), Off(w, y), SCALE as real;
            && k * (k * Mul(z, w).re) - Mul(x, y).re == k * Mul(z, b).re + k * Mul(w, a).re - Mul(a, b).re
            && k * (k * Mul(z, w).im) - Mul(x, y).im == k * Mul(z, b).im + k * Mul(w, a).im - Mul(a, b).im
  {
    var a, b, k := Off(z, x), Off(w, y), SCALE as real;
    OneError(k * z.re, k * w.re, a.re, b.re);
    OneError(k * z.im, k * w.im, a.im, b.im);
    OneError(k * z.re, k * w.im, a.re, b.im);
    OneError(k * z.im, k * w.re, a.im, b.re);
  }

  lemma OneError(p: real, q: real, a: real, b: real)
    ensures p * q - (p - a) * (q - b) == p * b + q * a - a * b
  {
  }

  lemma SmallProduct(a: Complex, e: real, b: Complex, f: real)
    requires Disc(a, e) && Disc(b, f) && e <= TINY as real && f <= TINY as real
    ensures Disc(Scaled(0.0 - 1.0 / SCALE as real, Mul(a, b)), 1.0)
  {
    hide Mul, Squared, Scaled;
    DiscProduct(a, e, b, f);
    ProductGrows(e, f, TINY as real, TINY as real);
    ProductGrows(e * f, e * f, SCALE as real, SCALE as real);
    Shrunk(Mul(a, b));
  }

  lemma Shrunk(m: Complex)
    ensures Squared(Scaled(0.0 - 1.0 / SCALE as real, m)) * (SCALE * SCALE) as real == Squared(m)
  {
  }

  /** The rounded product of two approximations approximates the sum of their turns. */
  lemma Sums(f: Fixed, g: Fixed, h: Fixed)
    requires Close(f) && Close(g) && h.turns == f.turns + g.turns && h.error == f.error + g.error + 2 <= TINY
    requires 2 * Abs(h.re * SCALE - (f.re * g.re - f.im * g.im)) <= SCALE
    requires 2 * Abs(h.im * SCALE - (f.re * g.im + f.im * g.re)) <= SCALE
    ensures Close(h)
  {
    hide Cis, OnCircle, Mul, Squared;
    CisAdd(f.turns, g.turns);
    CisOnCircle(f.turns);
    CisOnCircle(g.turns);
    var z, w, x, y := Cis(f.turns), Cis(g.turns), f.Point(), g.Point();
    var a, b, e, d := Off(z, x), Off(w, y), f.error as real, g.error as real;
    ProductError(z, w, x, y);
    DiscTurned(z, b, d);
    DiscTurned(w, a, e);
    SmallProduct(a, e, b, d);
    var p, q, r := Mul(z, b), Mul(w, a), Scaled(0.0 - 1.0 / SCALE as real, Mul(a, b));
    var s := Rest(f, g, h);
    DiscPlus(p, d, q, e);
    DiscPlus(r, 1.0, s, 1.0);
    DiscPlus(Plus(p, q), e + d, Plus(r, s), 2.0);
    assert Off(Mul(z, w), h.Point()) == Plus(Plus(p, q), Plus(r, s));
  }

  lemma Rest(f: Fixed, g: Fixed, h: Fixed) returns (s: Complex)
    requires 2 * Abs(h.re * SCALE - (f.re * g.re - f.im * g.im)) <= SCALE
    requires 2 * Abs(h.im * SCALE - (f.re * g.im + f.im * g.re)) <= SCALE
    ensures Disc(s, 1.0)
    ensures SCALE as real * s.re == Mul(f.Point(), g.Point()).re - SCALE as real * h.re as real
    ensures SCALE as real * s.im == Mul(f.Point(), g.Point()).im - SCALE as real * h.im as real
  {
    var p, q := f.re * g.re - f.im * g.im, f.re * g.im + f.im * g.re;
    assert Mul(f.Point(), g.Point()) == Complex(p as real, q as real);
    s := Complex((p - h.re * SCALE) as real / SCALE as real, (q - h.im * SCALE) as real / SCALE as real);
    HalfDisc(s);
  }

  lemma HalfDisc(s: Complex)
    requires 0.0 - 0.5 <= s.re <= 0.5 && 0.0 - 0.5 <= s.im <= 0.5
    ensures Disc(s, 1.0)
  {
    HalfSquare(s.re);
    HalfSquare(s.im);
  }

  lemma HalfSquare(x: real)
    requires 0.0 - 0.5 <= x <= 0.5
    ensures x * x <= 0.25
  {
    NonNegative(0.5 - x, 0.5 + x);
    assert (0.5 - x) * (0.5 + x) == 0.25 - x * x;
  }
}

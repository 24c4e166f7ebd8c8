/** Exact rational device scales in lowest terms, and the logical-to-device mapping. */
module DeviceScale {
  import opened Native
  import opened Rounding
  import opened Affine

  // ---- Divisibility ----------------------------------------------------------

  ghost function Times(a: int, b: int): int { a * b }

  ghost predicate Divides(d: nat, n: nat) {
    exists k: nat :: Times(d, k) == n
  }

  ghost predicate IsGcd(g: nat, a: nat, b: nat) {
    Divides(g, a) && Divides(g, b) && forall d: nat :: Divides(d, a) && Divides(d, b) ==> Divides(d, g)
  }

  ghost function Gcd(a: nat, b: nat): nat
    decreases b
  {
    if b == 0 then a else Gcd(b, a % b)
  }

  ghost predicate Coprime(a: nat, b: nat) { Gcd(a, b) == 1 }

  lemma Witness(d: nat, n: nat, k: nat)
    requires n == d * k
    ensures Divides(d, n)
  {
    assert Times(d, k) == n;
  }

  lemma DividesSum(d: nat, a: nat, b: nat, q: nat)
    requires Divides(d, b)
    ensures Divides(d, a) <==> Divides(d, q * b + a)
  {
    var k: nat :| Times(d, k) == b;
    Regroup(q, d, k);
    if Divides(d, a) {
      var j: nat :| Times(d, j) == a;
      WitnessSum(d, a, q * b, j, q * k);
    }
    if Divides(d, q * b + a) {
      var j: nat :| Times(d, j) == q * b + a;
      WitnessDifference(d, a, q * b, j, q * k);
    }
  }

  lemma Regroup(q: int, d: int, k: int)
    ensures q * (d * k) == d * (q * k)
  {
  }

  lemma WitnessSum(d: nat, a: nat, c: nat, j: nat, k: nat)
    requires d * j == a && d * k == c
    ensures Divides(d, c + a)
  {
    assert d * (k + j) == d * k + d * j;
    Witness(d, c + a, k + j);
  }

  lemma WitnessDifference(d: nat, a: nat, c: nat, j: nat, k: nat)
    requires d * j == c + a && d * k == c
    ensures Divides(d, a)
  {
    if a == 0 {
      Witness(d, 0, 0);
    } else {
      assert j * d == d * j && k * d == d * k && d * (j - k) == d * j - d * k;
      if j < k { MulMonotone(j, k, d); }
      Witness(d, a, j - k);
    }
  }

  /** Euclid's recursion computes a common divisor that every common divisor divides. */
  lemma {:induction false} GcdSound(a: nat, b: nat)
    ensures IsGcd(Gcd(a, b), a, b)
    ensures a > 0 || b > 0 ==> Gcd(a, b) > 0
    decreases b
  {
    if b == 0 {
      Witness(a, a, 1);
      Witness(a, 0, 0);
    } else {
      GcdSound(b, a % b);
      DivMod(a, b);
      QuotientBound(a, b);
      hide Divides, IsGcd;
      GcdStep(Gcd(b, a % b), a, b, a / b, a % b);
    }
  }

  lemma GcdStep(g: nat, a: nat, b: nat, q: nat, r: nat)
    requires a == q * b + r && IsGcd(g, b, r)
    ensures IsGcd(g, a, b)
  {
    hide Divides;
    DividesSum(g, r, b, q);
    forall d: nat | Divides(d, a) && Divides(d, b) ensures Divides(d, g) {
      DividesSum(d, r, b, q);
    }
  }

  /** A combination of `a` and `b` equal to their greatest common divisor. */
  lemma {:induction false} Bezout(a: nat, b: nat) returns (u: int, v: int)
    ensures u * a + v * b == Gcd(a, b)
    decreases b
  {
    if b == 0 {
      u, v := 1, 0;
    } else {
      var u', v' := Bezout(b, a % b);
      DivMod(a, b);
      BezoutStep(a, b, a / b, a % b, u', v');
      u, v := v', u' - v' * (a / b);
    }
  }

  lemma BezoutStep(a: int, b: int, q: int, r: int, u: int, v: int)
    requires a == q * b + r
    ensures v * a + (u - v * q) * b == u * b + v * r
  {
    assert v * a == v * (q * b) + v * r;
    assert (u - v * q) * b == u * b - v * q * b && v * q * b == v * (q * b);
  }

  lemma DividesCombination(d: nat, a: nat, b: nat, u: int, v: int)
    requires Divides(d, a) && Divides(d, b) && u * a + v * b == 1
    ensures d == 1
  {
    var j: nat :| Times(d, j) == a;
    var k: nat :| Times(d, k) == b;
    var w := u * j + v * k;
    assert d * w == 1 by {
      assert u * (d * j) == d * (u * j) && v * (d * k) == d * (v * k);
      assert d * w == d * (u * j) + d * (v * k);
    }
    if d >= 2 {
      if w >= 1 { MulMonotone(1, w, d); }
      if w <= 0 { MulMonotone(w, 0, d); }
    }
  }

  /** Two numbers are coprime as soon as some combination of them is one. */
  lemma CoprimeFromCombination(a: nat, b: nat, u: int, v: int)
    requires u * a + v * b == 1
    ensures Coprime(a, b)
  {
    GcdSound(a, b);
    DividesCombination(Gcd(a, b), a, b, u, v);
  }

  lemma CoprimeProduct(a: nat, b: nat, c: nat)
    requires Coprime(a, c) && Coprime(b, c)
    ensures Coprime(a * b, c)
  {
    var u, v := Bezout(a, c);
    var s, t := Bezout(b, c);
    ProductCombination(a, b, c, u, v, s, t);
    CoprimeFromCombination(a * b, c, u * s, u * a * t + v * s * b + v * c * t);
  }

  lemma ProductCombination(a: int, b: int, c: int, u: int, v: int, s: int, t: int)
    requires u * a + v * c == 1 && s * b + t * c == 1
    ensures u * s * (a * b) + (u * a * t + v * s * b + v * c * t) * c == 1
  {
    assert (u * a + v * c) * (s * b + t * c) == u * s * (a * b) + (u * a * t + v * s * b + v * c * t) * c;
  }

  lemma CoprimeSymmetric(a: nat, b: nat)
    requires Coprime(a, b)
    ensures Coprime(b, a)
  {
    var u, v := Bezout(a, b);
    CoprimeFromCombination(b, a, v, u);
  }

  lemma CoprimeDivisors(a: nat, b: nat, x: nat, y: nat)
    requires Coprime(a, b) && Divides(x, a) && Divides(y, b)
    ensures Coprime(x, y)
  {
    var j: nat :| Times(x, j) == a;
    var k: nat :| Times(y, k) == b;
    var u, v := Bezout(a, b);
    assert u * (x * j) == u * j * x && v * (y * k) == v * k * y;
    CoprimeFromCombination(x, y, u * j, v * k);
  }

  // ---- Lowest terms ----------------------------------------------------------

  ghost function ReducedNumerator(n: nat, d: nat): nat
    requires n > 0 && d > 0
  {
    GcdSound(n, d); n / Gcd(n, d)
  }

  ghost function ReducedDenominator(n: nat, d: nat): nat
    requires n > 0 && d > 0
  {
    GcdSound(n, d); d / Gcd(n, d)
  }

  lemma ExactQuotient(d: nat, n: nat)
    requires d > 0 && Divides(d, n)
    ensures n == d * (n / d) && Divides(n / d, n)
    ensures n > 0 ==> n / d > 0
  {
    var k: nat :| Times(d, k) == n;
    assert n == k * d;
    FloorOfMultiple(n, d, k);
    Witness(k, n, d);
  }

  lemma FloorOfMultiple(n: int, d: int, k: int)
    requires d > 0 && n == k * d
    ensures n / d == k
  {
    DivMod(n, d);
    if n / d < k { MultiplesApart(n / d, k, d); }
    if k < n / d { MultiplesApart(k, n / d, d); }
  }

  /** Dividing by the greatest common divisor leaves the same ratio with coprime terms. */
  lemma ReducedIsLowest(n: nat, d: nat)
    requires n > 0 && d > 0
    ensures var p, q, g := ReducedNumerator(n, d), ReducedDenominator(n, d), Gcd(n, d);
            p > 0 && q > 0 && n == g * p && d == g * q && g > 0 && n * q == d * p && Coprime(p, q)
  {
    GcdSound(n, d);
    var g := Gcd(n, d);
    ExactQuotient(g, n);
    ExactQuotient(g, d);
    var p, q := n / g, d / g;
    var u, v := Bezout(n, d);
    ScaledCombination(g, p, q, u, v);
    CoprimeFromCombination(p, q, u, v);
    CrossProducts(g, p, q);
  }

  lemma ScaledCombination(g: int, p: int, q: int, u: int, v: int)
    requires g > 0 && u * (g * p) + v * (g * q) == g
    ensures u * p + v * q == 1
  {
    assert u * (g * p) == g * (u * p) && v * (g * q) == g * (v * q);
    assert g * (u * p + v * q) == g * (u * p) + g * (v * q);
    CancelLeft(g, u * p + v * q, 1);
  }

  lemma CrossProducts(g: int, p: int, q: int)
    ensures g * p * q == g * q * p
  {
  }

  lemma CancelLeft(g: int, x: int, y: int)
    requires g > 0 && g * x == g * y
    ensures x == y
  {
    assert x * g == g * x && y * g == g * y;
    if x < y { MultiplesApart(x, y, g); }
    if y < x { MultiplesApart(y, x, g); }
  }

  /** A ratio has only one form in lowest terms. */
  lemma LowestTermsUnique(n: nat, d: nat, n': nat, d': nat)
    requires n > 0 && d > 0 && n' > 0 && d' > 0
    requires Coprime(n, d) && Coprime(n', d') && n * d' == n' * d
    ensures n == n' && d == d'
  {
    NumeratorDivides(n, d, n', d');
    NumeratorDivides(n', d', n, d);
    DivisorsEqual(n, n');
    assert n * d' == n * d;
    CancelLeft(n, d', d);
  }

  lemma NumeratorDivides(n: nat, d: nat, n': nat, d': nat)
    requires n > 0 && n' > 0 && Coprime(n, d) && n * d' == n' * d
    ensures Divides(n, n')
  {
    var u, v := Bezout(n, d);
    var w := u * n' + v * d';
    EuclidCombination(n, d, n', d', u, v);
    assert w * n == n * w;
    if w < 0 { MulMonotone(w, 0, n); }
    Witness(n, n', w);
  }

  lemma EuclidCombination(n: int, d: int, n': int, d': int, u: int, v: int)
    requires u * n + v * d == 1 && n * d' == n' * d
    ensures n * (u * n' + v * d') == n'
  {
    assert n * (u * n' + v * d') == u * n * n' + v * (n * d');
    assert v * (n' * d) == v * d * n';
    assert (u * n + v * d) * n' == u * n * n' + v * d * n';
  }

  lemma DivisorsEqual(a: nat, b: nat)
    requires a > 0 && b > 0 && Divides(a, b) && Divides(b, a)
    ensures a == b
  {
    var j: nat :| Times(a, j) == b;
    var k: nat :| Times(b, k) == a;
    if j > 0 { MulMonotone(1, j, a); assert j * a == a * j; }
    if k > 0 { MulMonotone(1, k, b); assert k * b == b * k; }
  }

  lemma CommonFactor(k: int, x: int, y: int, p: int, q: int)
    requires k > 0 && k * x * q == k * y * p
    ensures x * q == p * y
  {
    assert k * (x * q) == k * x * q && k * (p * y) == k * y * p;
    CancelLeft(k, x * q, p * y);
  }

  /** A common factor passes through the reduction. */
  lemma ReducedOfMultiple(k: nat, x: nat, y: nat)
    requires k > 0 && x > 0 && y > 0 && Coprime(x, y)
    requires k * x > 0 && k * y > 0
    ensures ReducedNumerator(k * x, k * y) == x && ReducedDenominator(k * x, k * y) == y
  {
    hide ReducedNumerator, ReducedDenominator;
    var n, d := k * x, k * y;
    ReducedIsLowest(n, d);
    var p, q := ReducedNumerator(n, d), ReducedDenominator(n, d);
    CommonFactor(k, x, y, p, q);
    LowestTermsUnique(x, y, p, q);
  }

  // ---- Scales ----------------------------------------------------------------

  datatype Scale = Scale(numerator: nat, denominator: nat) {
    /** What making a scale guarantees. */
    ghost predicate Lowest() {
      0 < numerator <= I64_MAX && 0 < denominator <= I64_MAX && Coprime(numerator, denominator)
    }
  }

  /** The scale n/d in lowest terms, or an overflow when one of its terms does not fit. */
  ghost function Exactly(n: nat, d: nat): Result<Scale>
    requires n > 0 && d > 0
  {
    if ReducedNumerator(n, d) > I64_MAX || ReducedDenominator(n, d) > I64_MAX then Fail(Overflow)
    else Ok(Scale(ReducedNumerator(n, d), ReducedDenominator(n, d)))
  }

  method U64Gcd(left: nat, right: nat) returns (g: nat)
    ensures g == Gcd(left, right)
  {
    var a, b := left, right;
    while b != 0
      invariant Gcd(a, b) == Gcd(left, right)
      decreases b
    {
      a, b := b, a % b;
    }
    g := a;
  }

  method DeviceScaleMake(numerator: nat, denominator: nat) returns (r: Result<Scale>)
    ensures numerator == 0 || denominator == 0 ==> r == Fail(InvalidArgument)
    ensures numerator > 0 && denominator > 0 ==> r == Exactly(numerator, denominator)
    ensures r.Ok? ==> r.value.Lowest() && numerator * r.value.denominator == denominator * r.value.numerator
  {
    if numerator == 0 || denominator == 0 { return Fail(InvalidArgument); }
    ReducedIsLowest(numerator, denominator);
    var divisor := U64Gcd(numerator, denominator);
    var n, d := numerator / divisor, denominator / divisor;
    if n > I64_MAX || d > I64_MAX { return Fail(Overflow); }
    r := Ok(Scale(n, d));
  }

  /** Cross-reduction of two ratios in lowest terms leaves a ratio in lowest terms. */
  lemma CrossReduced(ln: nat, ld: nat, rn: nat, rd: nat)
    requires ln > 0 && ld > 0 && rn > 0 && rd > 0
    ensures var a, d, b, c := ReducedNumerator(ln, rd), ReducedDenominator(ln, rd), ReducedNumerator(rn, ld), ReducedDenominator(rn, ld);
            && a * b > 0 && c * d > 0 && ln * rn > 0 && ld * rd > 0
            && ln * rn * (c * d) == ld * rd * (a * b)
            && (Coprime(ln, ld) && Coprime(rn, rd) ==>
                  Coprime(a * b, c * d) && ReducedNumerator(ln * rn, ld * rd) == a * b && ReducedDenominator(ln * rn, ld * rd) == c * d)
  {
    ReducedIsLowest(ln, rd);
    ReducedIsLowest(rn, ld);
    var g, h := Gcd(ln, rd), Gcd(rn, ld);
    var a, d, b, c := ReducedNumerator(ln, rd), ReducedDenominator(ln, rd), ReducedNumerator(rn, ld), ReducedDenominator(rn, ld);
    Products(g, h, a, b, c, d);
    hide ReducedNumerator, ReducedDenominator;
    if Coprime(ln, ld) && Coprime(rn, rd) {
      Witness(a, ln, g);
      Witness(d, rd, g);
      Witness(b, rn, h);
      Witness(c, ld, h);
      CoprimeDivisors(ln, ld, a, c);
      CoprimeDivisors(rn, rd, b, d);
      CoprimeProduct(a, b, c);
      CoprimeProduct(a, b, d);
      CoprimeSymmetric(a * b, c);
      CoprimeSymmetric(a * b, d);
      CoprimeProduct(c, d, a * b);
      CoprimeSymmetric(c * d, a * b);
      ReducedOfMultiple(g * h, a * b, c * d);
    }
  }

  lemma Products(g: int, h: int, a: int, b: int, c: int, d: int)
    requires g > 0 && h > 0 && a > 0 && b > 0 && c > 0 && d > 0
    ensures a * b > 0 && c * d > 0 && g * h > 0 && g * h * (a * b) > 0 && g * h * (c * d) > 0
    ensures g * a * (h * b) == g * h * (a * b) && h * c * (g * d) == g * h * (c * d)
    ensures g * a * (h * b) * (c * d) == h * c * (g * d) * (a * b)
  {
    MulMonotone(1, a, b);
    MulMonotone(1, c, d);
    MulMonotone(1, g, h);
    MulMonotone(1, g * h, a * b);
    MulMonotone(1, g * h, c * d);
    var k, x, y := g * h, a * b, c * d;
    assert g * a * (h * b) == k * x && h * c * (g * d) == k * y;
    assert k * x * y == k * y * x;
  }

  ghost predicate NonZero(s: Scale) { s.numerator > 0 && s.denominator > 0 }

  /** The products of the cross-reduced terms fit the signed width. */
  ghost predicate TermsFit(left: Scale, right: Scale)
    requires NonZero(left) && NonZero(right)
  {
    var a, d := ReducedNumerator(left.numerator, right.denominator), ReducedDenominator(left.numerator, right.denominator);
    var b, c := ReducedNumerator(right.numerator, left.denominator), ReducedDenominator(right.numerator, left.denominator);
    a * b <= I64_MAX && c * d <= I64_MAX
  }

  /** What composition computes: numerators are first reduced against opposite denominators. */
  ghost function CrossComposed(left: Scale, right: Scale): Result<Scale>
    requires NonZero(left) && NonZero(right)
  {
    var a, d := ReducedNumerator(left.numerator, right.denominator), ReducedDenominator(left.numerator, right.denominator);
    var b, c := ReducedNumerator(right.numerator, left.denominator), ReducedDenominator(right.numerator, left.denominator);
    CrossReduced(left.numerator, left.denominator, right.numerator, right.denominator);
    if !TermsFit(left, right) then Fail(Overflow) else Exactly(a * b, c * d)
  }

  ghost function Product(left: Scale, right: Scale): Result<Scale>
    requires NonZero(left) && NonZero(right)
  {
    CrossReduced(left.numerator, left.denominator, right.numerator, right.denominator);
    Exactly(left.numerator * right.numerator, left.denominator * right.denominator)
  }

  /** For scales in lowest terms, as every made scale is, composition is the exact product
      in lowest terms, and overflows exactly when that product does not fit. */
  lemma ComposeIsProduct(left: Scale, right: Scale)
    requires left.Lowest() && right.Lowest()
    ensures CrossComposed(left, right) == Product(left, right)
  {
    var ln, ld, rn, rd := left.numerator, left.denominator, right.numerator, right.denominator;
    CrossReduced(ln, ld, rn, rd);
    var x, y := ReducedNumerator(ln, rd) * ReducedNumerator(rn, ld), ReducedDenominator(rn, ld) * ReducedDenominator(ln, rd);
    ReducedOfMultiple(1, x, y);
    hide ReducedNumerator, ReducedDenominator;
  }

  /** Any product that composition does return is exact and in lowest terms. */
  lemma ComposedIsExact(left: Scale, right: Scale)
    requires NonZero(left) && NonZero(right) && CrossComposed(left, right).Ok?
    ensures var s := CrossComposed(left, right).value;
            && s.Lowest()
            && left.numerator * right.numerator * s.denominator == left.denominator * right.denominator * s.numerator
  {
    var ln, ld, rn, rd := left.numerator, left.denominator, right.numerator, right.denominator;
    CrossReduced(ln, ld, rn, rd);
    var x, y := ReducedNumerator(ln, rd) * ReducedNumerator(rn, ld), ReducedDenominator(rn, ld) * ReducedDenominator(ln, rd);
    ReducedIsLowest(x, y);
    hide ReducedNumerator, ReducedDenominator;
    var s := CrossComposed(left, right).value;
    TransferRatio(ln * rn, ld * rd, x, y, s.numerator, s.denominator);
  }

  /** Terms that fit still fit once they are reduced, so nothing else fails. */
  lemma ReducedFits(n: nat, d: nat)
    requires n > 0 && d > 0
    ensures n <= I64_MAX && d <= I64_MAX ==> Exactly(n, d).Ok?
  {
    ReducedIsLowest(n, d);
    var p, q, g := ReducedNumerator(n, d), ReducedDenominator(n, d), Gcd(n, d);
    MulMonotone(1, g, p);
    MulMonotone(1, g, q);
  }

  /** For any two scales, made or not: composition fails exactly when the cross-reduced terms do
      not fit, a result it does return is the exact product, and so it is the product exactly
      when those terms fit or the product does not fit either. */
  lemma ComposeMatchesProduct(left: Scale, right: Scale)
    requires NonZero(left) && NonZero(right)
    ensures CrossComposed(left, right).Fail? <==> !TermsFit(left, right)
    ensures CrossComposed(left, right).Ok? ==> CrossComposed(left, right) == Product(left, right)
    ensures CrossComposed(left, right) == Product(left, right) <==> TermsFit(left, right) || Product(left, right).Fail?
  {
    var ln, ld, rn, rd := left.numerator, left.denominator, right.numerator, right.denominator;
    CrossReduced(ln, ld, rn, rd);
    ReducedFits(ReducedNumerator(ln, rd) * ReducedNumerator(rn, ld), ReducedDenominator(rn, ld) * ReducedDenominator(ln, rd));
    ReducedIsLowest(ln * rn, ld * rd);
    hide ReducedNumerator, ReducedDenominator;
    if CrossComposed(left, right).Ok? {
      ComposedIsExact(left, right);
      var s := CrossComposed(left, right).value;
      var n, d, p, q := ln * rn, ld * rd, ReducedNumerator(ln * rn, ld * rd), ReducedDenominator(ln * rn, ld * rd);
      TransferRatio(p, q, n, d, s.numerator, s.denominator);
      LowestTermsUnique(p, q, s.numerator, s.denominator);
    }
  }

  /** Scales that were not made can overflow although their product is one. */
  lemma UnmadeScaleOverflows()
    ensures CrossComposed(Scale(P63, P63), Scale(1, 1)) == Fail(Overflow)
    ensures Product(Scale(P63, P63), Scale(1, 1)) == Ok(Scale(1, 1))
  {
    CoprimeFromCombination(P63, 1, 0, 1);
    CoprimeFromCombination(1, P63, 1, 0);
    CoprimeFromCombination(1, 1, 1, 0);
    ReducedOfMultiple(1, P63, 1);
    ReducedOfMultiple(1, 1, P63);
    ReducedOfMultiple(P63, 1, 1);
    hide ReducedNumerator, ReducedDenominator;
  }

  method DeviceScaleCompose(left: Scale, right: Scale) returns (r: Result<Scale>)
    ensures !NonZero(left) || !NonZero(right) ==> r == Fail(InvalidArgument)
    ensures NonZero(left) && NonZero(right) ==> r == CrossComposed(left, right) && (r.Fail? <==> !TermsFit(left, right))
    ensures NonZero(left) && NonZero(right) && r.Ok? ==> r == Product(left, right)
    ensures left.Lowest() && right.Lowest() ==> r == Product(left, right)
    ensures r.Ok? ==>
              && r.value.Lowest()
              && left.numerator * right.numerator * r.value.denominator == left.denominator * right.denominator * r.value.numerator
  {
    var ln, ld, rn, rd := left.numerator, left.denominator, right.numerator, right.denominator;
    if ln == 0 || ld == 0 || rn == 0 || rd == 0 { return Fail(InvalidArgument); }
    CrossReduced(ln, ld, rn, rd);
    ReducedIsLowest(ln, rd);
    ReducedIsLowest(rn, ld);
    var divisor := U64Gcd(ln, rd);
    var a, d := ln / divisor, rd / divisor;
    divisor := U64Gcd(rn, ld);
    var b, c := rn / divisor, ld / divisor;
    ComposeFacts(left, right);
    var numerator, denominator := a * b, c * d;
    if numerator > I64_MAX || denominator > I64_MAX { return Fail(Overflow); }
    r := DeviceScaleMake(numerator, denominator);
  }

  lemma ComposeFacts(left: Scale, right: Scale)
    requires NonZero(left) && NonZero(right)
    ensures left.Lowest() && right.Lowest() ==> CrossComposed(left, right) == Product(left, right)
    ensures CrossComposed(left, right).Fail? <==> !TermsFit(left, right)
    ensures CrossComposed(left, right).Ok? ==> CrossComposed(left, right) == Product(left, right)
    ensures CrossComposed(left, right).Ok? ==>
              var s := CrossComposed(left, right).value;
              && s.Lowest()
              && left.numerator * right.numerator * s.denominator == left.denominator * right.denominator * s.numerator
  {
    ComposeMatchesProduct(left, right);
    if left.Lowest() && right.Lowest() { ComposeIsProduct(left, right); }
    if CrossComposed(left, right).Ok? { ComposedIsExact(left, right); }
  }

  lemma TransferRatio(n: int, d: int, x: int, y: int, p: int, q: int)
    requires y > 0 && n * y == d * x && x * q == y * p
    ensures n * q == d * p
  {
    assert y * (n * q) == y * (d * p) by {
      assert y * (n * q) == n * y * q && y * (d * p) == d * (y * p);
      assert d * x * q == d * (x * q);
    }
    CancelLeft(y, n * q, d * p);
  }

  // ---- Mapping logical to device coordinates ---------------------------------

  datatype DeviceMap = DeviceMap(scale: Scale, originX: Coord, originY: Coord)

  function ScaleCoord(scale: Scale, value: Coord): Result<Coord> {
    if scale.numerator == 0 || scale.denominator == 0 || scale.numerator > I64_MAX || scale.denominator > I64_MAX then
      Fail(InvalidArgument)
    else RoundDiv(value * scale.numerator, scale.denominator, NearestEven)
  }

  function MapPoint(map_: DeviceMap, p: Point): Result<Point> {
    var scaledX :- ScaleCoord(map_.scale, p.x);
    var scaledY :- ScaleCoord(map_.scale, p.y);
    var x :- CoordAdd(scaledX, map_.originX);
    var y :- CoordAdd(scaledY, map_.originY);
    Ok(Point(x, y))
  }

  /** Maps two opposite corners and takes the difference. */
  function MapRectBounds(map_: DeviceMap, r: Rect): Result<Rect> {
    if r.width < 0 || r.height < 0 then Fail(InvalidArgument)
    else
      var right :- CoordAdd(r.x, r.width);
      var bottom :- CoordAdd(r.y, r.height);
      var topLeft :- MapPoint(map_, Point(r.x, r.y));
      var bottomRight :- MapPoint(map_, Point(right, bottom));
      var width :- CoordSub(bottomRight.x, topLeft.x);
      var height :- CoordSub(bottomRight.y, topLeft.y);
      if width < 0 || height < 0 then Fail(Overflow) else Ok(Rect(topLeft.x, topLeft.y, width, height))
  }

  /** The terms that mapping accepts. */
  predicate InRange(scale: Scale) {
    0 < scale.numerator <= I64_MAX && 0 < scale.denominator <= I64_MAX
  }

  /** A device coordinate, relative to its origin, is the logical one times the scale, rounded once. */
  ghost function Device(scale: Scale, value: Coord): int
    requires InRange(scale)
  {
    Rounded(value * scale.numerator, scale.denominator, NearestEven)
  }

  lemma ScaleCoordExact(scale: Scale, value: Coord)
    ensures !InRange(scale) ==> ScaleCoord(scale, value) == Fail(InvalidArgument)
    ensures InRange(scale) ==>
              && ScaleCoord(scale, value) == Narrowed(Device(scale, value))
              && 2 * Abs(value * scale.numerator - Device(scale, value) * scale.denominator) <= scale.denominator
  {
    hide RoundDiv, Rounded;
    if InRange(scale) {
      ProductBound(value, scale.numerator);
      RoundDivCorrect(value * scale.numerator, scale.denominator, NearestEven);
      RoundedError(value * scale.numerator, scale.denominator);
    }
  }

  /** Mapping a point: x and y are scaled alike and moved by their own origins.  It is refused for a
      scale out of range, overflows exactly when a scaled or moved coordinate does not fit, and
      otherwise is within half a unit of the exact image. */
  lemma MapPointExact(map_: DeviceMap, p: Point)
    ensures !InRange(map_.scale) ==> MapPoint(map_, p) == Fail(InvalidArgument)
    ensures InRange(map_.scale) ==>
              var x, y := Device(map_.scale, p.x), Device(map_.scale, p.y);
              MapPoint(map_, p) == if I64(x) && I64(y) && I64(x + map_.originX) && I64(y + map_.originY)
                                   then Ok(Point(x + map_.originX, y + map_.originY)) else Fail(Overflow)
    ensures MapPoint(map_, p).Ok? ==>
              var out, n, d := MapPoint(map_, p).value, map_.scale.numerator, map_.scale.denominator;
              && 2 * Abs((out.x - map_.originX) * d - p.x * n) <= d
              && 2 * Abs((out.y - map_.originY) * d - p.y * n) <= d
  {
    hide ScaleCoord, Device;
    ScaleCoordExact(map_.scale, p.x);
    ScaleCoordExact(map_.scale, p.y);
    if InRange(map_.scale) && I64(Device(map_.scale, p.x)) { AddSubExact(Device(map_.scale, p.x), map_.originX); }
    if InRange(map_.scale) && I64(Device(map_.scale, p.y)) { AddSubExact(Device(map_.scale, p.y), map_.originY); }
    hide CoordAdd;
  }

  lemma ScaleMonotone(scale: Scale, v: Coord, w: Coord, u: Coord)
    requires ScaleCoord(scale, v).Ok? && ScaleCoord(scale, u).Ok? && v <= w <= u
    ensures ScaleCoord(scale, w).Ok? && ScaleCoord(scale, v).value <= ScaleCoord(scale, w).value <= ScaleCoord(scale, u).value
  {
    var n, d := scale.numerator, scale.denominator;
    ProductBound(v, n);
    ProductBound(w, n);
    ProductBound(u, n);
    MulMonotone(v, w, n);
    MulMonotone(w, u, n);
    RoundDivCorrect(v * n, d, NearestEven);
    RoundDivCorrect(w * n, d, NearestEven);
    RoundDivCorrect(u * n, d, NearestEven);
    RoundedMonotone(v * n, w * n, d);
    RoundedMonotone(w * n, u * n, d);
    hide Rounded, RoundDiv;
  }

  lemma PointMonotone(map_: DeviceMap, lo: Point, p: Point, hi: Point)
    requires MapPoint(map_, lo).Ok? && MapPoint(map_, hi).Ok? && lo.x <= p.x <= hi.x && lo.y <= p.y <= hi.y
    ensures MapPoint(map_, p).Ok?
    ensures MapPoint(map_, lo).value.x <= MapPoint(map_, p).value.x <= MapPoint(map_, hi).value.x
    ensures MapPoint(map_, lo).value.y <= MapPoint(map_, p).value.y <= MapPoint(map_, hi).value.y
  {
    ScaleMonotone(map_.scale, lo.x, p.x, hi.x);
    ScaleMonotone(map_.scale, lo.y, p.y, hi.y);
    hide ScaleCoord;
  }

  /** A rectangle maps exactly when it has no negative extent, its edges fit, both corners map and
      their distances fit; its image then has these corners. */
  lemma MapRectCorners(map_: DeviceMap, r: Rect)
    ensures MapRectBounds(map_, r).Ok? <==>
              && RectEdges(r).Ok? && MapPoint(map_, Point(r.x, r.y)).Ok? && MapPoint(map_, RectEdges(r).value).Ok?
              && var a, b := MapPoint(map_, Point(r.x, r.y)).value, MapPoint(map_, RectEdges(r).value).value;
              && I64(b.x - a.x) && I64(b.y - a.y)
    ensures MapRectBounds(map_, r).Ok? ==>
              var image := MapRectBounds(map_, r).value;
              && Point(image.x, image.y) == MapPoint(map_, Point(r.x, r.y)).value
              && RectEdges(image) == MapPoint(map_, RectEdges(r).value)
  {
    hide MapPoint;
    if RectEdges(r).Ok? {
      var far := RectEdges(r).value;
      RectEdgesExact(r);
      if MapPoint(map_, Point(r.x, r.y)).Ok? && MapPoint(map_, far).Ok? {
        PointMonotone(map_, Point(r.x, r.y), far, far);
      }
    }
  }

  /** A mapped rectangle holds the image of every point of the closed rectangle. */
  lemma MapRectEncloses(map_: DeviceMap, r: Rect, p: Point)
    requires MapRectBounds(map_, r).Ok? && Inside(p, r)
    ensures MapPoint(map_, p).Ok? && Inside(MapPoint(map_, p).value, MapRectBounds(map_, r).value)
  {
    hide MapPoint;
    PointMonotone(map_, Point(r.x, r.y), p, Point(r.x + r.width, r.y + r.height));
  }

  /** The final test for a negative extent never fires: mapping fails only because an edge,
      a corner or an extent leaves 64 bits, or the map itself is malformed. */
  lemma MapRectExtentNonNegative(map_: DeviceMap, r: Rect, right: Coord, bottom: Coord)
    requires r.width >= 0 && r.height >= 0
    requires CoordAdd(r.x, r.width) == Ok(right) && CoordAdd(r.y, r.height) == Ok(bottom)
    requires MapPoint(map_, Point(r.x, r.y)).Ok? && MapPoint(map_, Point(right, bottom)).Ok?
    ensures var a, b := MapPoint(map_, Point(r.x, r.y)).value, MapPoint(map_, Point(right, bottom)).value;
            MapRectBounds(map_, r).Ok? <==> I64(b.x - a.x) && I64(b.y - a.y)
  {
    hide MapPoint;
    PointMonotone(map_, Point(r.x, r.y), Point(right, bottom), Point(right, bottom));
  }
}

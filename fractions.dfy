/** The number formatter every step uses: `toFraction` runs the continued-fraction
    expansion of |x| until the next convergent's denominator would pass `maxDen` or
    the fractional part falls below `eps`, `gcd` is Euclid's remainder loop with the
    fallback 1, `simplify` divides both parts by it, and `fmt` prints `n` or `n/d`.
    Numbers are exact reals; `Math.round` is applied by the source to values that
    are already whole, so it is the identity here. */
module Fractions {

  // ---------------------------------------------------------------------------
  // Divisibility.

  /** c is a positive divisor of x. */
  predicate Divides(c: int, x: int)
  {
    c >= 1 && x % c == 0
  }

  /** Only 1 divides both. */
  ghost predicate Coprime(a: int, b: int)
  {
    forall c :: Divides(c, a) && Divides(c, b) ==> c == 1
  }

  lemma {:induction false} MultipleMod(c: int, k: int)
    requires c >= 1
    ensures (c * k) % c == 0
  {
    var q := (c * k) / c;
    var r := (c * k) % c;
    assert c * k == c * q + r && 0 <= r < c;
    assert r == c * (k - q);
  }

  lemma {:induction false} DividesMultiple(c: int, k: int)
    requires c >= 1
    ensures Divides(c, c * k)
  {
    MultipleMod(c, k);
  }

  lemma {:induction false} Quotient(c: int, x: int)
    requires Divides(c, x)
    ensures x == c * (x / c)
  {
  }

  /** A common divisor of x and y divides x - m * y. */
  lemma {:induction false} DividesCombination(c: int, x: int, y: int, m: int)
    requires Divides(c, x) && Divides(c, y)
    ensures Divides(c, x - m * y)
  {
    Quotient(c, x);
    Quotient(c, y);
    var k := x / c - m * (y / c);
    assert x - m * y == c * k;
    DividesMultiple(c, k);
  }

  lemma {:induction false} DividesNegation(c: int, x: int)
    requires Divides(c, x)
    ensures Divides(c, - x)
  {
    DividesCombination(c, 0, x, 1);
  }

  /** A positive multiple of m is at least m. */
  lemma {:induction false} DivisorBound(c: int, x: int)
    requires Divides(c, x) && x >= 1
    ensures c <= x
  {
    Quotient(c, x);
  }

  /** The remainder of a by b is a minus a multiple of b. */
  lemma {:induction false} RemainderIsCombination(a: int, b: int)
    requires b >= 1
    ensures a % b == a - (a / b) * b
  {
  }

  // ---------------------------------------------------------------------------
  // gcd and simplify.

  /** Euclid's remainder sequence on (a, b) ends in their greatest common divisor. */
  function Euclid(a: nat, b: nat): nat
    decreases b
  {
    if b == 0 then a else Euclid(b, a % b)
  }

  /** Euclid on the magnitudes, and 1 where that is 0 (`return a || 1`). */
  function GcdOf(a: int, b: int): int
  {
    var e := Euclid(if a < 0 then - a else a, if b < 0 then - b else b);
    if e == 0 then 1 else e
  }

  /** Euclid(a, b) divides a and b, every common divisor divides it, and it is 0 only
      for (0, 0). */
  lemma {:induction false} EuclidIsGcd(a: nat, b: nat)
    ensures Euclid(a, b) == 0 <==> a == 0 && b == 0
    ensures Euclid(a, b) != 0 ==> Divides(Euclid(a, b), a) && Divides(Euclid(a, b), b)
    ensures forall c :: Divides(c, a) && Divides(c, b) ==> Divides(c, Euclid(a, b))
    decreases b
  {
    if b != 0 {
      var r := a % b;
      EuclidIsGcd(b, r);
      var g := Euclid(b, r);
      RemainderIsCombination(a, b);
      if g != 0 {
        DividesCombination(g, r, b, - (a / b));
        assert r - (- (a / b)) * b == a;
      }
      forall c | Divides(c, a) && Divides(c, b)
        ensures Divides(c, g)
      {
        DividesCombination(c, a, b, a / b);
      }
    }
  }

  lemma {:induction false} DividesMagnitude(c: int, x: int)
    ensures Divides(c, x) <==> Divides(c, if x < 0 then - x else x)
  {
    if Divides(c, x) {
      DividesNegation(c, x);
    }
    if Divides(c, - x) {
      DividesNegation(c, - x);
    }
  }

  /** GcdOf(a, b) is positive, divides a and b, and every common divisor divides it. */
  lemma {:induction false} GcdOfIsGcd(a: int, b: int)
    ensures GcdOf(a, b) >= 1
    ensures Divides(GcdOf(a, b), a) && Divides(GcdOf(a, b), b)
    ensures (a, b) != (0, 0) ==> forall c :: Divides(c, a) && Divides(c, b) ==> Divides(c, GcdOf(a, b))
  {
    var a' := if a < 0 then - a else a;
    var b' := if b < 0 then - b else b;
    EuclidIsGcd(a', b');
    DividesMagnitude(GcdOf(a, b), a);
    DividesMagnitude(GcdOf(a, b), b);
    forall c | Divides(c, a) && Divides(c, b)
      ensures Divides(c, a') && Divides(c, b')
    {
      DividesMagnitude(c, a);
      DividesMagnitude(c, b);
    }
  }

  /** `gcd(a, b)`: the remainder loop on |a| and |b|. */
  method Gcd(a: int, b: int) returns (g: int)
    ensures g == GcdOf(a, b)
    ensures g >= 1 && Divides(g, a) && Divides(g, b)
    ensures (a, b) != (0, 0) ==> forall c :: Divides(c, a) && Divides(c, b) ==> Divides(c, g)
  {
    var x: nat := if a < 0 then - a else a;
    var y: nat := if b < 0 then - b else b;
    while y != 0
      invariant Euclid(x, y) == Euclid(if a < 0 then - a else a, if b < 0 then - b else b)
      decreases y
    {
      x, y := y, x % y;
    }
    g := if x == 0 then 1 else x;
    GcdOfIsGcd(a, b);
  }

  /** `simplify(n, d)` as a value: both parts divided by their gcd. */
  function Reduced(n: int, d: int): (int, int)
  {
    var g := GcdOf(n, d);
    if g >= 1 then (n / g, d / g) else (n, d)
  }

  lemma {:induction false} ScaledDivisor(c: int, g: int, x: int, y: int)
    requires Divides(c, x) && g >= 1 && y == x * g
    ensures Divides(c * g, y)
  {
    Quotient(c, x);
    assert y == (c * g) * (x / c);
    DividesMultiple(c * g, x / c);
  }

  lemma {:induction false} FactorOne(c: int, g: int)
    requires c >= 1 && g >= 1 && c * g <= g
    ensures c == 1
  {
  }

  /** A common divisor c of n / g and d / g gives the common divisor c * g of n and
      d; when g is their greatest common divisor, c is 1. */
  lemma {:induction false} CommonOfQuotients(c: int, g: int, n: int, d: int, n': int, d': int)
    requires g >= 1 && n' * g == n && d' * g == d && Divides(c, n') && Divides(c, d')
    requires forall e :: Divides(e, n) && Divides(e, d) ==> Divides(e, g)
    ensures c == 1
  {
    var cg := c * g;
    ScaledDivisor(c, g, n', n);
    ScaledDivisor(c, g, d', d);
    assert Divides(cg, g);
    DivisorBound(cg, g);
    FactorOne(c, g);
  }

  /** Dividing by the gcd leaves a coprime pair with the same ratio. */
  lemma {:induction false} ReducedIsLowest(n: int, d: int)
    ensures var (n', d') := Reduced(n, d);
      n' * GcdOf(n, d) == n && d' * GcdOf(n, d) == d
      && ((n, d) != (0, 0) ==> Coprime(n', d'))
  {
    var g := GcdOf(n, d);
    GcdOfIsGcd(n, d);
    var (n', d') := Reduced(n, d);
    Quotient(g, n);
    Quotient(g, d);
    assert n' * g == n && d' * g == d;
    if (n, d) != (0, 0) {
      forall c | Divides(c, n') && Divides(c, d')
        ensures c == 1
      {
        CommonOfQuotients(c, g, n, d, n', d');
      }
    }
  }

  /** `simplify(n, d)`. */
  method Simplify(n: int, d: int) returns (n': int, d': int)
    ensures (n', d') == Reduced(n, d)
    ensures n' * GcdOf(n, d) == n && d' * GcdOf(n, d) == d
    ensures (n, d) != (0, 0) ==> Coprime(n', d')
  {
    var g := Gcd(n, d);
    n', d' := n / g, d / g;
    ReducedIsLowest(n, d);
  }

  // ---------------------------------------------------------------------------
  // toFraction.

  /** The state of the expansion loop: the last two convergents h1/k1 and h0/k0 and
      the complete quotient b still to expand. */
  predicate Expanding(b: real, k1: int, k0: int)
  {
    b >= 0.0 && k1 >= 0 && k0 >= 0 && (k1 == 0 ==> k0 >= 1) && (k1 >= 1 ==> b >= 1.0)
  }

  /** The loop of `toFraction` from the state (b, h1, h0, k1, k0): the convergent
      (h1, k1) it stops at. */
  function Expand(b: real, h1: int, h0: int, k1: int, k0: int, maxDen: int, eps: real): (r: (int, int))
    requires eps > 0.0 && Expanding(b, k1, k0)
    ensures r.1 >= k1 && (maxDen >= k1 ==> r.1 <= maxDen)
    ensures k1 >= 1 || k0 <= maxDen ==> r.1 >= 1
    ensures h1 >= 0 && h0 >= 0 ==> r.0 >= 0
    decreases maxDen + 1 - k1, if k0 == 0 then 1 else 0
  {
    var a := b.Floor;
    FloorFacts(b);
    var h2 := a * h1 + h0;
    var k2 := a * k1 + k0;
    DenominatorGrows(a, k1, k0);
    NextNumerator(a, h1, h0);
    if k2 > maxDen then (h1, k1)
    else
      var frac := b - a as real;
      if frac < eps then (h2, k2)
      else
        Reciprocal(frac);
        Expand(1.0 / frac, h2, h1, k2, k1, maxDen, eps)
  }

  lemma {:induction false} NextNumerator(a: int, h1: int, h0: int)
    requires a >= 0
    ensures h1 >= 0 && h0 >= 0 ==> a * h1 + h0 >= 0
  {
  }

  /** One round of the loop: stop at (h1, k1) when the next denominator passes maxDen,
      stop at the next convergent when the fractional part is below eps, and go on
      with the reciprocal of the fractional part otherwise, which is above 1. */
  lemma {:induction false} ExpandStep(b: real, h1: int, h0: int, k1: int, k0: int, maxDen: int, eps: real)
    requires eps > 0.0 && Expanding(b, k1, k0)
    ensures var a := b.Floor;
      var frac := b - a as real;
      && 0.0 <= frac < 1.0
      && (a * k1 + k0 > maxDen ==> Expand(b, h1, h0, k1, k0, maxDen, eps) == (h1, k1))
      && (a * k1 + k0 <= maxDen && frac < eps ==> Expand(b, h1, h0, k1, k0, maxDen, eps) == (a * h1 + h0, a * k1 + k0))
      && (a * k1 + k0 <= maxDen && frac >= eps ==>
            && Expanding(1.0 / frac, a * k1 + k0, k1)
            && (a * k1 + k0 > k1 || (a * k1 + k0 == k1 && k1 != 0 && k0 == 0))
            && Expand(b, h1, h0, k1, k0, maxDen, eps) == Expand(1.0 / frac, a * h1 + h0, h1, a * k1 + k0, k1, maxDen, eps))
  {
    var a := b.Floor;
    FloorFacts(b);
    DenominatorGrows(a, k1, k0);
    var frac := b - a as real;
    if frac >= eps {
      Reciprocal(frac);
    }
  }

  lemma {:induction false} FloorFacts(b: real)
    requires b >= 0.0
    ensures 0.0 <= b - b.Floor as real < 1.0
    ensures b.Floor >= 0 && (b >= 1.0 ==> b.Floor >= 1)
  {
  }

  /** The next denominator a * k1 + k0 does not drop below k1, and passes it unless
      k0 is 0. */
  lemma {:induction false} DenominatorGrows(a: int, k1: int, k0: int)
    requires a >= 0 && k1 >= 0 && k0 >= 0 && (k1 == 0 ==> k0 >= 1) && (k1 >= 1 ==> a >= 1)
    ensures a * k1 + k0 >= 1
    ensures a * k1 + k0 > k1 || (a * k1 + k0 == k1 && k1 != 0 && k0 == 0)
  {
    if k1 >= 1 {
      assert a * k1 >= k1;
    }
  }

  lemma {:induction false} Reciprocal(frac: real)
    requires 0.0 < frac < 1.0
    ensures 1.0 / frac > 1.0
  {
  }

  /** `toFraction(x, maxDen, eps)` as a value. */
  function ToFractionOf(x: real, maxDen: int, eps: real): (int, int)
    requires eps > 0.0
  {
    var sgn := if x < 0.0 then -1 else 1;
    var (h, k) := Expand(if x < 0.0 then - x else x, 1, 0, 0, 1, maxDen, eps);
    Reduced(sgn * h, if k == 0 then 1 else k)
  }

  /** `toFraction(x, maxDen, eps)`. */
  method ToFraction(x: real, maxDen: int, eps: real) returns (n: int, d: int)
    requires eps > 0.0
    ensures (n, d) == ToFractionOf(x, maxDen, eps)
  {
    var sgn := if x < 0.0 then -1 else 1;
    var b := if x < 0.0 then - x else x;
    var h1, h0, k1, k0 := 1, 0, 0, 1;
    ghost var target := Expand(b, h1, h0, k1, k0, maxDen, eps);
    while true
      invariant Expanding(b, k1, k0)
      invariant Expand(b, h1, h0, k1, k0, maxDen, eps) == target
      decreases maxDen + 1 - k1, if k0 == 0 then 1 else 0
    {
      ExpandStep(b, h1, h0, k1, k0, maxDen, eps);
      var a := b.Floor;
      var h2, k2 := a * h1 + h0, a * k1 + k0;
      if k2 > maxDen {
        break;
      }
      h0, h1, k0, k1 := h1, h2, k1, k2;
      var frac := b - a as real;
      if frac < eps {
        break;
      }
      b := 1.0 / frac;
    }
    var num, den := sgn * h1, if k1 == 0 then 1 else k1;
    n, d := Simplify(num, den);
  }

  /** The denominator is at least 1 and at most maxDen, the sign of x is carried by
      the numerator alone, 0 is 0/1, and the pair is in lowest terms. */
  lemma {:induction false} ToFractionBounds(x: real, maxDen: int, eps: real)
    requires eps > 0.0 && maxDen >= 1
    ensures var (n, d) := ToFractionOf(x, maxDen, eps);
      && 1 <= d <= maxDen
      && (x < 0.0 ==> n <= 0) && (x >= 0.0 ==> n >= 0)
      && (x == 0.0 ==> n == 0 && d == 1)
      && Coprime(n, d)
  {
    var sgn := if x < 0.0 then -1 else 1;
    var (h, k) := Expand(if x < 0.0 then - x else x, 1, 0, 0, 1, maxDen, eps);
    var den := if k == 0 then 1 else k;
    ReducedIsLowest(sgn * h, den);
    var (n, d) := Reduced(sgn * h, den);
    SignOfQuotient(n, GcdOf(sgn * h, den), sgn * h);
    SignOfQuotient(d, GcdOf(sgn * h, den), den);
    GcdOfIsGcd(sgn * h, den);
    if x == 0.0 {
      assert Expand(0.0, 1, 0, 0, 1, maxDen, eps) == (0, 1);
    }
  }

  /** q = n * g with g positive: q and n have the same sign, and n <= q when q > 0. */
  lemma {:induction false} SignOfQuotient(n: int, g: int, q: int)
    requires g >= 1 && n * g == q
    ensures (q >= 0 <==> n >= 0) && (q <= 0 <==> n <= 0) && (q >= 1 ==> 1 <= n <= q) && (q == 0 ==> n == 0)
  {
    if n >= 1 {
      assert n * g >= n;
    } else if n <= -1 {
      assert n * g <= n;
    }
  }

  // ---------------------------------------------------------------------------
  // Exactness on fractions with a small denominator.

  /** For U / V with whole U and V, the floor is U / V on integers and the fractional
      part is (U % V) / V. */
  lemma {:induction false} FloorOfRatio(U: int, V: int)
    requires U >= 0 && V >= 1
    ensures (U as real / V as real).Floor == U / V
    ensures U as real / V as real - (U / V) as real == (U % V) as real / V as real
  {
    var a := U / V;
    var w := U % V;
    DivMod(U, V);
    assert U as real == V as real * a as real + w as real;
    assert U as real / V as real == a as real + w as real / V as real;
    assert 0.0 <= w as real / V as real < 1.0;
  }

  lemma {:induction false} DivMod(U: int, V: int)
    requires V >= 1
    ensures U == V * (U / V) + U % V && 0 <= U % V < V
  {
  }

  /** k1 * U + k0 * V regrouped around the next convergent when U = a * V + W. */
  lemma {:induction false} Regroup(a: int, k1: int, k0: int, U: int, V: int, W: int)
    requires U == V * a + W
    ensures k1 * U + k0 * V == (a * k1 + k0) * V + k1 * W
  {
  }

  lemma {:induction false} BelowTotal(k2: int, V: int, k1: int, W: int)
    requires k2 >= 0 && V >= 1 && k1 >= 0 && W >= 0
    ensures k2 <= k2 * V + k1 * W
  {
    assert k2 * V >= k2;
    assert k1 * W >= 0;
  }

  lemma {:induction false} Cross(h: int, k: int, V: int)
    ensures h * (k * V) == (h * V) * k
  {
  }

  /** A non-zero fractional part W / V is at least 1 / V, hence not below eps. */
  lemma {:induction false} SmallFraction(W: int, V: int, eps: real)
    requires 1 <= W && V >= 1 && eps > 0.0 && eps * V as real <= 1.0
    ensures W as real / V as real >= eps
  {
    assert W as real / V as real >= 1.0 / V as real;
    assert eps <= 1.0 / V as real;
  }

  lemma {:induction false} FlipFraction(W: int, V: int)
    requires W >= 1 && V >= 1
    ensures 1.0 / (W as real / V as real) == V as real / W as real
  {
  }

  lemma {:induction false} SmallerEps(eps: real, W: int, V: int)
    requires eps > 0.0 && 0 <= W < V && eps * V as real <= 1.0
    ensures eps * W as real <= 1.0
  {
  }

  /** Run on U / V with P = h1 * U + h0 * V and Q = k1 * U + k0 * V, where Q <= maxDen
      and eps <= 1 / V, the loop follows Euclid on (U, V) and stops at a convergent
      equal to P / Q. */
  lemma {:induction false} ExpandExact(b: real, h1: int, h0: int, k1: int, k0: int, maxDen: int, eps: real,
                                       P: int, Q: int, U: int, V: int)
    requires eps > 0.0 && Expanding(b, k1, k0)
    requires U >= 0 && V >= 1 && b == U as real / V as real
    requires P == h1 * U + h0 * V && Q == k1 * U + k0 * V && Q <= maxDen
    requires eps * V as real <= 1.0
    ensures Expand(b, h1, h0, k1, k0, maxDen, eps).0 * Q == P * Expand(b, h1, h0, k1, k0, maxDen, eps).1
    decreases maxDen + 1 - k1, if k0 == 0 then 1 else 0
  {
    var a := U / V;
    var W := U % V;
    DivMod(U, V);
    FloorOfRatio(U, V);
    ExpandStep(b, h1, h0, k1, k0, maxDen, eps);
    var h2 := a * h1 + h0;
    var k2 := a * k1 + k0;
    Regroup(a, k1, k0, U, V, W);
    Regroup(a, h1, h0, U, V, W);
    BelowTotal(k2, V, k1, W);
    var frac := b - a as real;
    if frac < eps {
      if W >= 1 {
        SmallFraction(W, V, eps);
        assert false;
      }
      Cross(h2, k2, V);
    } else {
      FlipFraction(W, V);
      SmallerEps(eps, W, V);
      ExpandExact(1.0 / frac, h2, h1, k2, k1, maxDen, eps, P, Q, V, W);
    }
  }

  lemma {:induction false} SignedCross(sgn: int, h: int, q: int, U: int, k: int, p: int)
    requires h * q == U * k && p == sgn * U
    ensures (sgn * h) * q == p * k
  {
  }

  lemma {:induction false} CancelFactor(n: int, d: int, g: int, q: int, p: int, num: int, den: int)
    requires g >= 1 && n * g == num && d * g == den && num * q == p * den
    ensures n * q == p * d
  {
    assert (n * q) * g == (p * d) * g;
  }

  /** Reducing num / den keeps the ratio p / q it equals. */
  lemma {:induction false} ReducedKeepsRatio(num: int, den: int, p: int, q: int)
    requires den >= 1 && num * q == p * den
    ensures Reduced(num, den).0 * q == p * Reduced(num, den).1
    ensures Reduced(num, den).1 >= 1 && Coprime(Reduced(num, den).0, Reduced(num, den).1)
  {
    var g := GcdOf(num, den);
    ReducedIsLowest(num, den);
    GcdOfIsGcd(num, den);
    CancelFactor(Reduced(num, den).0, Reduced(num, den).1, g, q, p, num, den);
    SignOfQuotient(Reduced(num, den).1, g, den);
  }

  lemma {:induction false} SignOfRatio(x: real, p: int, q: int)
    requires q >= 1 && x == p as real / q as real
    ensures x < 0.0 <==> p < 0
    ensures (if x < 0.0 then - x else x) == (if p < 0 then - p else p) as real / q as real
  {
  }

  /** The expansion of |p| / q stops at a convergent h / k equal to it. */
  lemma {:induction false} MagnitudeExact(x: real, maxDen: int, eps: real, p: int, q: int)
    requires eps > 0.0 && 1 <= q <= maxDen && eps * q as real <= 1.0
    requires x == p as real / q as real
    ensures var e := Expand(if x < 0.0 then - x else x, 1, 0, 0, 1, maxDen, eps);
      e.1 >= 1 && ((if x < 0.0 then -1 else 1) * e.0) * q == p * e.1
  {
    var U := if p < 0 then - p else p;
    var sgn := if x < 0.0 then -1 else 1;
    var b := if x < 0.0 then - x else x;
    SignOfRatio(x, p, q);
    ExpandExact(b, 1, 0, 0, 1, maxDen, eps, U, q, U, q);
    var e := Expand(b, 1, 0, 0, 1, maxDen, eps);
    SignedCross(sgn, e.0, q, U, e.1, p);
  }

  /** For x = p / q with 1 <= q <= maxDen and eps <= 1 / q, `toFraction` returns p / q
      in lowest terms. */
  lemma {:induction false} ToFractionExact(x: real, maxDen: int, eps: real, p: int, q: int)
    requires eps > 0.0 && 1 <= q <= maxDen && eps * q as real <= 1.0
    requires x == p as real / q as real
    ensures ToFractionOf(x, maxDen, eps).0 * q == p * ToFractionOf(x, maxDen, eps).1
    ensures ToFractionOf(x, maxDen, eps).1 >= 1
    ensures Coprime(ToFractionOf(x, maxDen, eps).0, ToFractionOf(x, maxDen, eps).1)
  {
    MagnitudeExact(x, maxDen, eps, p, q);
    var e := Expand(if x < 0.0 then - x else x, 1, 0, 0, 1, maxDen, eps);
    var sgn := if x < 0.0 then -1 else 1;
    ReducedKeepsRatio(sgn * e.0, e.1, p, q);
    assert ToFractionOf(x, maxDen, eps) == Reduced(sgn * e.0, e.1);
  }
}

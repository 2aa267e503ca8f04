/**
 Prime numbers, and the two facts about their distribution that the sieves need
 in order to terminate: there is no largest prime, and every interval
 (sqrt(m), m] contains one.
 */
module Primes {
  import opened Limbs

  predicate Divides(d: nat, n: nat) {
    d != 0 && n % d == 0
  }

  predicate IsPrime(n: nat) {
    2 <= n && forall d | 2 <= d < n :: !Divides(d, n)
  }

  // ---------- divisibility ----------

  lemma DividesIntro(d: nat, k: nat, n: nat)
    requires d != 0 && d * k == n
    ensures Divides(d, n) && n / d == k
  {
    ModUnique(n, d, k, 0);
  }

  lemma DividesTransitive(a: nat, b: nat, c: nat)
    requires Divides(a, b) && Divides(b, c)
    ensures Divides(a, c)
  {
    var k, l := b / a, c / b;
    assert c == a * (k * l) by {
      assert c == (a * k) * l;
    }
    DividesIntro(a, k * l, c);
  }

  /** The least divisor above 1 is prime; its square is at most n when n is composite. */
  lemma {:induction false} LeastFactor(n: nat, from: nat) returns (p: nat)
    requires 2 <= from <= n
    requires forall d | 2 <= d < from :: !Divides(d, n)
    ensures from <= p <= n && IsPrime(p) && Divides(p, n)
    ensures forall d | 2 <= d < p :: !Divides(d, n)
    ensures !IsPrime(n) ==> p * p <= n
    decreases n - from
  {
    if Divides(from, n) {
      p := from;
      forall d | 2 <= d < p
        ensures !Divides(d, p)
      {
        if Divides(d, p) {
          DividesTransitive(d, p, n);
        }
      }
      DivisorBound(p, n);
      if p < n {
        LeastFactorSquared(n, p);
      }
    } else {
      DividesIntro(n, 1, n);
      p := LeastFactor(n, from + 1);
    }
  }

  lemma LeastFactorSquared(n: nat, p: nat)
    requires 2 <= p < n && Divides(p, n)
    requires forall d | 2 <= d < p :: !Divides(d, n)
    ensures p * p <= n
  {
    var k := n / p;
    assert p * k == n;
    if k < p {
      Cofactor(n, p, k);
      assert false;
    }
    MulMonotone(p, p, p, k);
  }

  lemma Cofactor(n: nat, p: nat, k: nat)
    requires 2 <= p < n && p * k == n
    ensures 2 <= k && Divides(k, n)
  {
    MulMonotone(p, p, if k < 2 then k else 1, 1);
    DividesIntro(k, p, n);
  }

  /** A number without a divisor up to its square root is prime. */
  lemma NoSmallFactor(n: nat, s: nat)
    requires 2 <= n < s * s
    requires forall d | 2 <= d < s && d < n :: !Divides(d, n)
    ensures IsPrime(n)
  {
    var p := LeastFactor(n, 2);
    if !IsPrime(n) {
      assert p * p < s * s;
      if s <= p {
        MulMonotone(s, p, s, p);
      }
      assert false;
    }
  }

  lemma CompositeIntro(n: nat, a: nat, b: nat)
    requires 2 <= a && 2 <= b && a * b == n
    ensures !IsPrime(n)
  {
    DividesIntro(a, b, n);
    assert a * 1 < a * b;
  }

  // ---------- Euclid ----------

  function Factorial(n: nat): (r: nat)
    ensures 1 <= r
  {
    if n == 0 then 1 else n * Factorial(n - 1)
  }

  lemma {:induction false} DividesFactorial(d: nat, n: nat)
    requires 1 <= d <= n
    ensures Divides(d, Factorial(n))
  {
    if d == n {
      DividesIntro(d, Factorial(n - 1), Factorial(n));
    } else {
      DividesFactorial(d, n - 1);
      DividesIntro(Factorial(n - 1), n, Factorial(n));
      DividesTransitive(d, Factorial(n - 1), Factorial(n));
    }
  }

  /** There is a prime above every number. */
  lemma PrimeAbove(n: nat) returns (p: nat)
    ensures n < p && IsPrime(p)
  {
    var f := Factorial(n);
    p := LeastFactor(f + 1, 2);
    if p <= n {
      DividesFactorial(p, n);
      NoNeighbours(p, f);
    }
  }

  /** No number from 2 on divides two neighbours. */
  lemma NoNeighbours(p: nat, f: nat)
    requires 2 <= p && Divides(p, f)
    ensures !Divides(p, f + 1)
  {
    var k := f / p;
    assert f == p * k;
    ModUnique(f + 1, p, k, 1);
  }

  // ---------- binomial coefficients ----------

  function Choose(n: nat, k: nat): nat {
    if k == 0 then 1 else if n == 0 then 0 else Choose(n - 1, k - 1) + Choose(n - 1, k)
  }

  lemma {:induction false} ChooseOne(n: nat)
    ensures Choose(n, 1) == n
  {
    if n != 0 {
      ChooseOne(n - 1);
    }
  }

  lemma {:induction false} ChoosePositive(n: nat, k: nat)
    requires k <= n
    ensures 1 <= Choose(n, k)
  {
    if k != 0 {
      ChoosePositive(n - 1, k - 1);
    }
  }

  lemma {:induction false} Absorption(n: nat, k: nat)
    requires 1 <= n && 1 <= k
    ensures k * Choose(n, k) == n * Choose(n - 1, k - 1)
  {
    if k == 1 {
      ChooseOne(n);
    } else if n != 1 {
      Absorption(n - 1, k);
      Absorption(n - 1, k - 1);
      AbsorptionStep(n, k, Choose(n - 1, k - 1), Choose(n - 1, k), Choose(n - 2, k - 2), Choose(n - 2, k - 1));
    }
  }

  lemma AbsorptionStep(n: int, k: int, x: int, y: int, u: int, v: int)
    requires k * y == (n - 1) * v && (k - 1) * x == (n - 1) * u && x == u + v
    ensures k * (x + y) == n * x
  {
    assert (k - 1) * x + k * y == (n - 1) * (u + v);
  }

  lemma {:induction false} CentralBinomialLarge(n: nat)
    ensures Pow2(n) <= Choose(2 * n, n)
  {
    if n != 0 {
      CentralBinomialLarge(n - 1);
      assert Choose(2 * n, n) == Choose(2 * n - 1, n - 1) + Choose(2 * n - 1, n);
      if n != 1 {
        assert Choose(2 * n - 1, n - 1) == Choose(2 * n - 2, n - 2) + Choose(2 * n - 2, n - 1);
      }
      assert Choose(2 * n - 1, n) == Choose(2 * n - 2, n - 1) + Choose(2 * n - 2, n);
    }
  }

  ghost predicate CommonMultiple(D: nat, m: nat) {
    D != 0 && forall k | 1 <= k <= m :: Divides(k, D)
  }

  /** Leibniz: c * Choose(r, c) divides every common multiple of 1..r. */
  lemma {:induction false} LeibnizDivides(D: nat, r: nat, c: nat) returns (e: int)
    requires 1 <= c <= r && CommonMultiple(D, r)
    ensures e * Denominator(r, c) == D
  {
    if c == 1 {
      ChooseOne(r);
      assert Divides(r, D);
      e := D / r;
    } else {
      hide Denominator;
      var e1 := LeibnizDivides(D, r - 1, c - 1);
      var e2 := LeibnizDivides(D, r, c - 1);
      e := e1 - e2;
      LeibnizTriangle(r, c);
      UnitFractions(D, Denominator(r - 1, c - 1), Denominator(r, c - 1), Denominator(r, c), e1, e2);
    }
  }

  /** 1 / Denominator(r, c) is the entry of the Leibniz triangle in row r. */
  function Denominator(r: nat, c: nat): nat {
    c * Choose(r, c)
  }

  lemma LeibnizTriangle(r: nat, c: nat)
    requires 2 <= c <= r
    ensures 0 < Denominator(r - 1, c - 1) && 0 < Denominator(r, c - 1)
    ensures Denominator(r - 1, c - 1) * Denominator(r, c - 1) == Denominator(r, c) * (Denominator(r, c - 1) - Denominator(r - 1, c - 1))
  {
    ChoosePositive(r - 1, c - 1);
    ChoosePositive(r, c - 1);
    MulMonotone(1, c - 1, 1, Choose(r - 1, c - 1));
    MulMonotone(1, c - 1, 1, Choose(r, c - 1));
    hide Choose;
    LeibnizNeighbours(r, c);
  }

  lemma LeibnizNeighbours(r: nat, c: nat)
    requires 2 <= c <= r
    ensures ((c - 1) * Choose(r - 1, c - 1)) * ((c - 1) * Choose(r, c - 1))
         == (c * Choose(r, c)) * ((c - 1) * Choose(r, c - 1) - (c - 1) * Choose(r - 1, c - 1))
  {
    var u, v := Choose(r - 1, c - 1), Choose(r - 1, c - 2);
    Absorption(r, c);
    Absorption(r, c - 1);
    LeibnizTriangleStep(r, c, u, v, c * Choose(r, c), Choose(r, c - 1));
  }

  lemma LeibnizTriangleStep(r: int, c: int, u: int, v: int, x: int, w: int)
    requires x == r * u && w == v + u && (c - 1) * w == r * v
    ensures ((c - 1) * u) * ((c - 1) * w) == x * ((c - 1) * w - (c - 1) * u)
  {
    assert (c - 1) * w - (c - 1) * u == (c - 1) * v;
    Interchange(c - 1, u, r, v);
    Interchange(r, u, c - 1, v);
    assert (c - 1) * r == r * (c - 1);
  }

  lemma UnitFractions(D: nat, a: nat, b: nat, x: nat, e1: int, e2: int)
    requires 0 < a && 0 < b && a * b == x * (b - a)
    requires e1 * a == D && e2 * b == D
    ensures (e1 - e2) * x == D
  {
    calc {
      ((e1 - e2) * x) * (a * b);
      (e1 * a) * (x * b) - (e2 * b) * (x * a);
      D * (x * b) - D * (x * a);
      D * (x * (b - a));
      D * (a * b);
    }
    Cancel((e1 - e2) * x, D, a * b);
  }

  lemma Cancel(x: int, y: int, c: int)
    requires 0 < c && x * c == y * c
    ensures x == y
  {
    if x != y {
      assert c * (x - y) == 0;
      NonzeroMultiple(c, x - y);
    }
  }

  // ---------- a small common multiple, if there were no large primes ----------

  lemma QuotientRange(m: nat, j: nat)
    requires 2 <= j <= m
    ensures 1 <= m / j < m && j * (m / j) <= m
  {
    var q := m / j;
    assert m == j * q + m % j;
    assert q != 0;
    MulMonotone(2, j, q, q);
  }

  /** The largest power of j that is at most m (for m >= 1). */
  function MaxPower(j: nat, m: nat): (r: nat)
    requires 2 <= j
    ensures 1 <= r && (1 <= m ==> r <= m)
  {
    if m < j then 1
    else
      QuotientRange(m, j);
      MulMonotone(j, j, MaxPower(j, m / j), m / j);
      j * MaxPower(j, m / j)
  }

  /** The part of k made of factors j divides MaxPower(j, m). */
  lemma {:induction false} Strip(j: nat, m: nat, k: nat) returns (q: nat, k': nat, t: nat)
    requires 2 <= j && 1 <= k <= m
    ensures k == q * k' && MaxPower(j, m) == q * t
    ensures 1 <= k' && !Divides(j, k')
    decreases k
  {
    if !Divides(j, k) {
      q, k', t := 1, k, MaxPower(j, m);
    } else {
      assert k == j * (k / j);
      DivisorBound(j, k);
      DivMonotone(k, m, j);
      QuotientSmaller(k, j);
      q, k', t := Strip(j, m / j, k / j);
      Associate(j, q, k');
      Associate(j, q, t);
      q := j * q;
    }
  }

  lemma DivMonotone(a: nat, b: nat, d: nat)
    requires a <= b && 0 < d
    ensures a / d <= b / d
  {
    var x, y := a / d, b / d;
    assert d * x <= a && b < d * (y + 1);
    FactorLess(d, x, y + 1);
  }

  lemma FactorLess(d: nat, x: int, y: int)
    requires d * x < d * y
    ensures x < y
  {
    assert d * (x - y) == d * x - d * y;
    NegativeFactor(d, x - y);
  }

  lemma NegativeFactor(d: nat, z: int)
    requires d * z < 0
    ensures z < 0
  {
  }

  lemma QuotientSmaller(k: nat, j: nat)
    requires 2 <= j && 1 <= k && Divides(j, k)
    ensures 1 <= k / j < k
  {
    assert k == j * (k / j);
    assert 2 * (k / j) <= j * (k / j);
  }

  lemma Associate(a: int, b: int, c: int)
    ensures a * (b * c) == (a * b) * c
  {
  }

  lemma Interchange(a: int, b: int, c: int, d: int)
    ensures (a * b) * (c * d) == (a * c) * (b * d)
  {
    calc {
      (a * b) * (c * d);
      a * (b * (c * d));
      { assert b * (c * d) == c * (b * d); }
      a * (c * (b * d));
      (a * c) * (b * d);
    }
  }

  /** Product of the largest powers, at most m, of the numbers 2..s. */
  function SmoothMultiple(s: nat, m: nat): (r: nat)
    ensures 1 <= r
  {
    if s < 2 then 1 else SmoothMultiple(s - 1, m) * MaxPower(s, m)
  }

  lemma {:induction false} SmoothDivides(s: nat, m: nat, k: nat) returns (t: nat)
    requires 1 <= k <= m
    requires forall p: nat | IsPrime(p) && Divides(p, k) :: p <= s
    ensures k * t == SmoothMultiple(s, m)
  {
    if s < 2 {
      if k != 1 {
        var p := LeastFactor(k, 2);
      }
      t := 1;
    } else {
      hide MaxPower, IsPrime, Divides;
      var q, k', u := Strip(s, m, k);
      StrippedSmooth(s, k, q, k');
      var t' := SmoothDivides(s - 1, m, k');
      t := t' * u;
      Recombine(q, k', t', u);
    }
  }

  lemma Recombine(q: nat, k': nat, t': nat, u: nat)
    ensures (q * k') * (t' * u) == (k' * t') * (q * u)
  {
    Interchange(k', q, t', u);
  }

  /** Removing the factors s of k leaves a divisor of k with prime factors below s only. */
  lemma StrippedSmooth(s: nat, k: nat, q: nat, k': nat)
    requires 1 <= k && k == q * k' && 1 <= k' && !Divides(s, k')
    requires forall p: nat | IsPrime(p) && Divides(p, k) :: p <= s
    ensures k' <= k
    ensures forall p: nat | IsPrime(p) && Divides(p, k') :: p <= s - 1
  {
    DividesIntro(k', q, k);
    DivisorBound(k', k);
    forall p: nat | IsPrime(p) && Divides(p, k')
      ensures p <= s - 1
    {
      DividesTransitive(p, k', k);
    }
  }

  function Power(b: nat, e: nat): nat {
    if e == 0 then 1 else b * Power(b, e - 1)
  }

  lemma {:induction false} SmoothMultipleSmall(s: nat, m: nat)
    requires 1 <= s && 1 <= m
    ensures SmoothMultiple(s, m) <= Power(m, s - 1)
  {
    if 2 <= s {
      SmoothMultipleSmall(s - 1, m);
      MulMonotone(SmoothMultiple(s - 1, m), Power(m, s - 2), MaxPower(s, m), m);
    }
  }

  lemma MulMonotone(a: nat, b: nat, c: nat, d: nat)
    requires a <= b && c <= d
    ensures a * c <= b * d
  {
    assert a * c <= b * c;
    assert b * c <= b * d;
  }

  lemma {:induction false} PowerMonotone(a: nat, b: nat, e: nat)
    requires a <= b
    ensures Power(a, e) <= Power(b, e)
  {
    if e != 0 {
      PowerMonotone(a, b, e - 1);
      MulMonotone(a, b, Power(a, e - 1), Power(b, e - 1));
    }
  }

  lemma {:induction false} PowerOfProduct(a: nat, b: nat, e: nat)
    ensures Power(a * b, e) == Power(a, e) * Power(b, e)
  {
    if e != 0 {
      PowerOfProduct(a, b, e - 1);
      Interchange(a, b, Power(a, e - 1), Power(b, e - 1));
    }
  }

  lemma {:induction false} PowerOfPow2(t: nat, e: nat)
    ensures Power(Pow2(t), e) == Pow2(t * e)
  {
    if e != 0 {
      PowerOfPow2(t, e - 1);
      assert t * e == t + t * (e - 1);
      Pow2Add(t, t * (e - 1));
    }
  }

  lemma {:induction false} FourthPowerSmall(t: nat)
    requires 16 <= t
    ensures t * t * t * t <= Pow2(t)
  {
    if t == 16 {
      Pow2Add(8, 8);
      assert Pow2(8) == 256;
    } else {
      FourthPowerSmall(t - 1);
      FourthPowerStep(t - 1);
    }
  }

  lemma FourthPowerStep(u: nat)
    requires 16 <= u
    ensures (u + 1) * (u + 1) * (u + 1) * (u + 1) <= 2 * (u * u * u * u)
  {
    SquareStep(u);
    SquaresOf((u + 1) * (u + 1), u * u);
    Associate((u + 1) * (u + 1), u + 1, u + 1);
    Associate(u * u, u, u);
  }

  lemma SquareStep(u: nat)
    requires 16 <= u
    ensures 256 * ((u + 1) * (u + 1)) <= 289 * (u * u)
  {
    assert 16 * u <= u * u;
    assert (u + 1) * (u + 1) == u * u + 2 * u + 1;
  }

  lemma SquaresOf(v: nat, w: nat)
    requires 256 * v <= 289 * w
    ensures v * v <= 2 * (w * w)
  {
    MulMonotone(256 * v, 289 * w, 256 * v, 289 * w);
    assert (256 * v) * (256 * v) == 65536 * (v * v);
    assert (289 * w) * (289 * w) == 83521 * (w * w);
  }

  lemma SquareRoot(m: nat) returns (s: nat)
    ensures s * s <= m < (s + 1) * (s + 1)
  {
    s := 0;
    while (s + 1) * (s + 1) <= m
      invariant s * s <= m
      decreases m - s
    {
      s := s + 1;
    }
  }

  lemma SquareOrder(x: nat, y: nat)
    requires x * x <= y * y
    ensures x <= y
  {
    if y < x {
      MulMonotone(y + 1, x, y + 1, x);
      assert false;
    }
  }

  lemma SquareBelowPow2(m: nat, t: nat)
    requires 16 <= t && m <= t * t
    ensures m * m <= Pow2(t)
  {
    MulMonotone(m, t * t, m, t * t);
    Associate(t * t, t, t);
    FourthPowerSmall(t);
  }

  /** For s >= 15, m^(s-1) is at most 2^(m/2) when s = floor(sqrt(m)). */
  lemma SmoothTooSmall(m: nat, s: nat)
    requires 15 <= s && s * s <= m < (s + 1) * (s + 1)
    ensures Power(m, s - 1) <= Pow2(m / 2)
  {
    var t, e, h := s + 1, s - 1, m / 2;
    SquareBelowPow2(m, t);
    PowerOfProduct(m, m, e);
    PowerMonotone(m * m, Pow2(t), e);
    PowerOfPow2(t, e);
    assert t * e == s * s - 1;
    Pow2Monotone(t * e, h + h);
    Pow2Add(h, h);
    SquareOrder(Power(m, e), Pow2(h));
  }

  /** Every interval (sqrt(m), m] with m >= 2 contains a prime. */
  lemma PrimeAboveSqrt(m: nat) returns (p: nat)
    requires 2 <= m
    ensures IsPrime(p) && p <= m < p * p
  {
    if m < 4 {
      p := 2;
    } else if m < 9 {
      p := 3;
    } else if m < 49 {
      p := 7;
    } else if m < 2209 {
      p := 47;
      NoSmallFactor(47, 7);
    } else {
      var s := SquareRoot(m);
      assert 46 <= s by {
        if s < 46 {
          MulMonotone(s + 1, 46, s + 1, 46);
        }
      }
      if q: nat :| IsPrime(q) && s < q <= m {
        p := q;
        MulMonotone(s + 1, p, s + 1, p);
      } else {
        NotAllSmooth(m, s);
        assert false;
      }
    }
  }

  lemma NotAllSmooth(m: nat, s: nat)
    requires 15 <= s && s * s <= m < (s + 1) * (s + 1)
    ensures exists p: nat :: IsPrime(p) && s < p <= m
  {
    if forall p: nat | IsPrime(p) && p <= m :: p <= s {
      SmoothIsCommonMultiple(m, s);
      assert 15 * 15 <= s * s;
      CommonMultipleLarge(SmoothMultiple(s, m), m);
      SmoothMultipleSmall(s, m);
      SmoothTooSmall(m, s);
      assert false;
    }
  }

  lemma SmoothIsCommonMultiple(m: nat, s: nat)
    requires forall p: nat | IsPrime(p) && p <= m :: p <= s
    ensures CommonMultiple(SmoothMultiple(s, m), m)
  {
    forall k | 1 <= k <= m
      ensures Divides(k, SmoothMultiple(s, m))
    {
      forall p: nat | IsPrime(p) && Divides(p, k)
        ensures p <= s
      {
        DivisorBound(p, k);
      }
      var t := SmoothDivides(s, m, k);
      DividesIntro(k, t, SmoothMultiple(s, m));
    }
  }

  /** A common multiple of 1..m is at least 2 * 2^(m/2). */
  lemma CommonMultipleLarge(D: nat, m: nat)
    requires 4 <= m && CommonMultiple(D, m)
    ensures 2 * Pow2(m / 2) <= D
  {
    hide Choose, Pow2, Divides;
    var n := m / 2;
    var e := LeibnizDivides(D, 2 * n, n);
    CentralBinomialLarge(n);
    var x := n * Choose(2 * n, n);
    MulMonotone(2, n, Pow2(n), Choose(2 * n, n));
    assert 2 <= x;
    NonzeroMultiple(x, e);
  }

  lemma DivisorBound(d: nat, n: nat)
    requires Divides(d, n) && 1 <= n
    ensures d <= n
  {
    assert n == d * (n / d);
    if n / d != 0 {
      assert d * 1 <= d * (n / d);
    }
  }
}

/**
 lib/gmp/gmp-impl.h: invert_limb, invert_pi1 and udiv_qr_3by2, the division of a
 three-limb number by a normalised two-limb one.
 */
module ThreeByTwo {
  import opened Limbs
  import opened Primes
  import opened WideArith
  import opened PreinvDivision

  // ---------- invert_limb ----------

  /** invert_limb: udiv_qrnnd of (~x, ~0) by x is the reciprocal of x. */
  method InvertLimb(h: nat, x: nat) returns (v: nat)
    requires 1 <= h && Normalised(WordBase(h), x)
    ensures v < WordBase(h) && v == Inverse21(WordBase(h), x)
  {
    hide *;
    var B := WordBase(h);
    WordBaseFacts(h);
    NormalisedRange(B, x);
    var q, r := UdivQrnndC(h, B - 1 - x, B - 1, x);
    DoubleValue(B, B - 1 - x, B - 1);
    ComplementQuotient(B, x, q, r);
    v := q;
  }

  lemma ComplementQuotient(B: nat, x: nat, q: nat, r: nat)
    requires x < B && r < x && (B - 1 - x) * B + (B - 1) == q * x + r
    ensures q == Inverse21(B, x)
  {
    assert (B - 1 - x) * B == B * B - B - B * x;
    assert (B + q) * x == B * x + q * x;
    ReciprocalCharacterised(B * B, B, x, q);
  }

  // ---------- invert_pi1 ----------

  /** The high divisor limb's reciprocal leaves (B + v) * d1 = B^2 - B + p with p >= B - d1. */
  lemma FirstProduct(B: nat, d1: nat, v: nat)
    requires 2 <= B && Normalised(B, d1) && v == Inverse21(B, d1)
    ensures (B + v) * d1 == B * B - B + (d1 * v) % B
    ensures B - d1 <= (d1 * v) % B < B
  {
    ReciprocalCharacterised(B * B, B, d1, v);
    var p := (B + v) * d1 - (B * B - B);
    assert d1 * v == B * (B - 1 - d1) + p by {
      assert (B + v) * d1 == B * d1 + d1 * v;
      assert B * (B - 1 - d1) == B * B - B - B * d1;
    }
    ModUnique(d1 * v, B, B - 1 - d1, p);
  }

  /** A v for which (B + v + 1) * d1 + d0 reaches B^2 is not negative. */
  lemma NotNegative(B: nat, d1: nat, d0: nat, v: int)
    requires d1 < B && d0 < B && B * B <= (B + v) * d1 + d0 + d1
    ensures 0 <= v
  {
    MulMonotone(B, B, d1, B - 1);
    assert B * (B - 1) == B * B - B;
    assert (B + v + 1) * d1 == (B + v) * d1 + d1;
    ProductOrder(B, B + v + 1, d1);
  }

  /** v is the largest with (B + v) * d1 + d0 < B^2, and p is what (B + v) * d1 + d0 has over B^2 - B. */
  ghost predicate Refined(B: nat, d1: nat, d0: nat, v: int, p: int) {
    (B + v) * d1 + d0 == B * B - B + p && B - d1 <= p < B
  }

  /** The first adjustment: add d0, and take d1 off once or twice if that carries. */
  lemma FirstAdjustment(B: nat, d1: nat, d0: nat, v: nat, p0: nat)
    requires 2 <= B && Normalised(B, d1) && d0 < B && p0 < B && B - d1 <= p0
    requires (B + v) * d1 == B * B - B + p0
    ensures (p0 + d0) % B >= d0 ==> Refined(B, d1, d0, v, (p0 + d0) % B)
    ensures (p0 + d0) % B < d0 && (p0 + d0) % B < d1 ==>
              1 <= v && Refined(B, d1, d0, v - 1, ((p0 + d0) % B - d1) % B)
    ensures (p0 + d0) % B < d0 && (p0 + d0) % B >= d1 ==>
              2 <= v && Refined(B, d1, d0, v - 2, (((p0 + d0) % B - d1) % B - d1) % B)
  {
    AddCarry(B, d0, p0);
    var p := (p0 + d0) % B;
    if p < d0 {
      ProductSteps(B + v, d1);
      if p >= d1 {
        ModUnique(p - d1, B, 0, p - d1);
        ModUnique(p - d1 - d1, B, -1, p - 2 * d1 + B);
        NotNegative(B, d1, d0, v - 2);
      } else {
        ModUnique(p - d1, B, -1, p - d1 + B);
        NotNegative(B, d1, d0, v - 1);
      }
    }
  }

  lemma ProductSteps(x: int, d: int)
    ensures (x - 1) * d == x * d - d && (x - 2) * d == x * d - 2 * d
  {
  }

  /** (B + v) * D from the state after the first adjustment and the product d0 * v. */
  lemma FullProduct(B: int, d1: int, d0: int, v: int, p: int, t1: int, t0: int)
    requires (B + v) * d1 + d0 == B * B - B + p && d0 * v == t1 * B + t0
    ensures (B + v) * (d1 * B + d0) == B * B * B - B * B + (p + t1) * B + t0
  {
    SplitProduct(B, v, d1, d0);
    ShiftProduct(B, (B + v) * d1, p - d0);
    assert (p + t1) * B == p * B + t1 * B && (p - d0) * B == p * B - d0 * B;
  }

  lemma SplitProduct(B: int, v: int, d1: int, d0: int)
    ensures (B + v) * (d1 * B + d0) == ((B + v) * d1) * B + (d0 * B + d0 * v)
  {
  }

  lemma ShiftProduct(B: int, x: int, e: int)
    requires x == B * B - B + e
    ensures x * B == B * B * B - B * B + e * B
  {
  }

  lemma DoubleOrder(B: nat, ah: nat, al: nat, bh: nat, bl: nat)
    requires al < B && bl < B
    ensures Double(B, ah, al) < Double(B, bh, bl) <==> ah < bh || (ah == bh && al < bl)
  {
    if ah < bh {
      MulMonotone(ah + 1, bh, B, B);
      assert (ah + 1) * B == ah * B + B;
    } else if bh < ah {
      MulMonotone(bh + 1, ah, B, B);
      assert (bh + 1) * B == bh * B + B;
    }
  }

  /** A normalised high limb makes the whole divisor at least B^2 / 2. */
  lemma NormalisedDouble(B: nat, d1: nat, d0: nat)
    requires Normalised(B, d1) && d0 < B
    ensures B * B <= 2 * Double(B, d1, d0) && Double(B, d1, d0) < B * B
    ensures 0 < Double(B, d1, d0)
  {
    DoubleBound(B, d1, d0);
    MulMonotone(B, 2 * d1, B, B);
    assert 2 * d1 * B == 2 * (d1 * B);
    MulMonotone(1, B, 1, B);
  }

  /** The second adjustment: the right v is v, v - 1 or v - 2, decided by the carry and (p, t0). */
  lemma SecondAdjustment(B: nat, d1: nat, d0: nat, v: nat, p: nat, t1: nat, t0: nat)
    requires 2 <= B && Normalised(B, d1) && d0 < B && t1 < B && t0 < B
    requires Refined(B, d1, d0, v, p) && d0 * v == Double(B, t1, t0)
    ensures (p + t1) % B >= t1 ==> v == Inverse32(B, d1, d0)
    ensures (p + t1) % B < t1 && ((p + t1) % B < d1 || ((p + t1) % B == d1 && t0 < d0)) ==>
              1 <= v && v - 1 == Inverse32(B, d1, d0)
    ensures (p + t1) % B < t1 && ((p + t1) % B > d1 || ((p + t1) % B == d1 && t0 >= d0)) ==>
              2 <= v && v - 2 == Inverse32(B, d1, d0)
  {
    hide Inverse32, Double;
    var D := Double(B, d1, d0);
    AdjustedProduct(B, d1, d0, v, p, t1, t0);
    AddCarry(B, t1, p);
    NormalisedDouble(B, d1, d0);
    var p2 := (p + t1) % B;
    if p2 >= t1 {
      InverseFound(B, d1, d0, v);
    } else {
      DoubleBound(B, p2, t0);
      DoubleOrder(B, p2, t0, d1, d0);
      ProductSteps(B + v, D);
      if Double(B, p2, t0) < D {
        InverseFound(B, d1, d0, v - 1);
      } else {
        InverseFound(B, d1, d0, v - 2);
      }
    }
  }

  /** (B + v) * D against B^3, with and without a carry out of p + t1. */
  lemma AdjustedProduct(B: nat, d1: nat, d0: nat, v: nat, p: nat, t1: nat, t0: nat)
    requires 2 <= B && d1 < B && d0 < B && t1 < B && t0 < B
    requires Refined(B, d1, d0, v, p) && d0 * v == Double(B, t1, t0)
    ensures p < B
    ensures p + t1 < B ==>
              (B + v) * Double(B, d1, d0) < B * B * B <= (B + v) * Double(B, d1, d0) + Double(B, d1, d0)
    ensures p + t1 >= B ==> (B + v) * Double(B, d1, d0) == B * B * B + Double(B, p + t1 - B, t0)
  {
    FullProduct(B, d1, d0, v, p, t1, t0);
    if p + t1 < B {
      NoCarryBounds(B, d1, d0, p, t1, t0);
    } else {
      CarryBounds(B, p, t1, t0);
    }
  }

  lemma CarryBounds(B: nat, p: nat, t1: nat, t0: nat)
    requires p + t1 >= B
    ensures Double(B, p + t1 - B, t0) == (p + t1) * B - B * B + t0
  {
  }

  lemma NoCarryBounds(B: nat, d1: nat, d0: nat, p: nat, t1: nat, t0: nat)
    requires p + t1 < B && t0 < B && B - d1 <= p && d1 < B
    ensures (p + t1) * B + t0 < B * B
    ensures B * B <= (p + t1) * B + t0 + Double(B, d1, d0)
  {
    DoubleBound(B, p + t1, t0);
    MulMonotone(B, p + d1, B, B);
    assert (p + d1) * B == p * B + d1 * B;
    assert (p + t1) * B == p * B + t1 * B;
  }

  /** The v with (B + v) * D < B^3 <= (B + v + 1) * D is the 3/2 inverse, and is a word. */
  lemma InverseFound(B: nat, d1: nat, d0: nat, v: int)
    requires 2 <= B && Normalised(B, d1) && d0 < B
    requires (B + v) * Double(B, d1, d0) < B * B * B <= (B + v) * Double(B, d1, d0) + Double(B, d1, d0)
    ensures 0 < d1 && v == Inverse32(B, d1, d0) && 0 <= v < B
  {
    hide Double;
    var D := Double(B, d1, d0);
    NormalisedDouble(B, d1, d0);
    ReciprocalCharacterised(B * B * B, B, D, v);
    InverseRange(B, D, v);
  }

  lemma InverseRange(B: nat, D: nat, v: int)
    requires 1 <= B && B * B <= 2 * D && 0 < D < B * B
    requires (B + v) * D < B * B * B <= (B + v) * D + D
    ensures 0 <= v < B
  {
    CubeBounds(B, D);
    assert (B + v + 1) * D == (B + v) * D + D;
    ProductOrder(B, B + v + 1, D);
    ProductOrder(B + v, 2 * B, D);
  }

  lemma CubeBounds(B: nat, D: nat)
    requires 1 <= B && B * B <= 2 * D && D < B * B
    ensures B * D < B * B * B <= (2 * B) * D
  {
    MulMonotone(B, B, D, B * B - 1);
    assert B * (B * B - 1) == B * B * B - B;
    MulMonotone(B, B, B * B, 2 * D);
    assert (2 * B) * D == B * (2 * D);
    assert B * (B * B) == B * B * B;
  }

  /** invert_pi1: the 3/2 inverse of a two-limb divisor, refined from the high limb's reciprocal. */
  method InvertPi1(h: nat, d1: nat, d0: nat) returns (v: nat)
    requires 1 <= h && Normalised(WordBase(h), d1) && d0 < WordBase(h)
    ensures 0 < d1 && v < WordBase(h) && v == Inverse32(WordBase(h), d1, d0)
  {
    hide *;
    var B := WordBase(h);
    WordBaseFacts(h);
    NormalisedRange(B, d1);
    v := InvertLimb(h, d1);
    FirstProduct(B, d1, v);
    var p := (d1 * v) % B;
    FirstAdjustment(B, d1, d0, v, p);
    p := (p + d0) % B;
    if p < d0 {
      v := v - 1;
      var dec := p >= d1;
      MaskSelects(2 * h, dec, d1);
      DecrementByMask(h, v, dec);
      var mask := Neg(2 * h, if dec then 1 else 0);
      ModRange(p - d1, B);
      SmallMod((p - d1) % B, B);
      p := (p - d1) % B;
      v := (v + mask) % B;
      ModRange(p - And(mask, d1), B);
      p := (p - And(mask, d1)) % B;
    }
    var t1, t0 := UmulPpmm(h, d0, v);
    SecondAdjustment(B, d1, d0, v, p, t1, t0);
    InverseWord(B, d1, d0);
    p := (p + t1) % B;
    if p < t1 {
      v := v - 1;
      if p >= d1 {
        if p > d1 || t0 >= d0 {
          v := v - 1;
        }
      }
    }
  }

  lemma InverseWord(B: nat, d1: nat, d0: nat)
    requires 2 <= B && Normalised(B, d1) && d0 < B
    ensures 0 < d1 && 0 <= Inverse32(B, d1, d0) < B
  {
    hide Double;
    NormalisedDouble(B, d1, d0);
    var v := Inverse32(B, d1, d0);
    ReciprocalCharacterised(B * B * B, B, Double(B, d1, d0), v);
    InverseFound(B, d1, d0, v);
  }

  /** Adding the all-ones mask decrements. */
  lemma DecrementByMask(h: nat, v: nat, c: bool)
    requires 1 <= h && v < WordBase(h) && (c ==> 1 <= v)
    ensures (v + Neg(2 * h, if c then 1 else 0)) % WordBase(h) == v - if c then 1 else 0
  {
    hide And;
    var B := WordBase(h);
    WordBaseFacts(h);
    MaskSelects(2 * h, c, 0);
    if c {
      ModUnique(v + (B - 1), B, 1, v - 1);
    } else {
      SmallMod(v, B);
    }
  }

  // ---------- udiv_qr_3by2: the estimate ----------

  /** The number in three limbs. */
  function Triple(B: nat, n2: nat, n1: nat, n0: nat): nat {
    n2 * (B * B) + n1 * B + n0
  }

  /** B * (n - (q1 + 1) * D) in terms of the low word q0 of the quotient estimate. */
  lemma Identity32(B: int, D: int, v: int, k: int, n2: int, n1: int, n0: int, q1: int, q0: int)
    requires (B + v) * D == B * B * B - k
    requires n2 * v + n2 * B + n1 == q1 * B + q0
    ensures B * (n2 * (B * B) + n1 * B + n0 - (q1 + 1) * D)
         == n1 * (B * B - D) + n0 * B + n2 * k + q0 * D - B * D
  {
    var M := B * B;
    EstimateTimesDivisor(B, D, v, k, n2, n1, q1, q0);
    assert n1 * (M - D) == n1 * M - n1 * D;
    assert B * (n2 * M) == n2 * (B * M);
    assert B * (n1 * B) == n1 * M;
    assert B * ((q1 + 1) * D) == (q1 * B) * D + B * D;
    assert B * (n2 * M + n1 * B + n0 - (q1 + 1) * D) == B * (n2 * M) + B * (n1 * B) + B * n0 - B * ((q1 + 1) * D);
  }

  lemma EstimateTimesDivisor(B: int, D: int, v: int, k: int, n2: int, n1: int, q1: int, q0: int)
    requires (B + v) * D == B * B * B - k
    requires n2 * v + n2 * B + n1 == q1 * B + q0
    ensures (q1 * B) * D == n2 * (B * (B * B)) - n2 * k + n1 * D - q0 * D
  {
    assert q1 * B == n2 * (B + v) + n1 - q0;
    assert (n2 * (B + v) + n1 - q0) * D == n2 * ((B + v) * D) + n1 * D - q0 * D;
    assert n2 * (B * B * B - k) == n2 * (B * B * B) - n2 * k;
    assert B * B * B == B * (B * B);
  }

  /** The estimate's high word does not overflow when (n2, n1) < D. */
  lemma EstimateFits(B: int, D: int, v: int, k: int, n2: int, n1: int)
    requires 1 <= B && 0 < D < B * B && 0 <= n2 && 0 <= n1 && 0 <= k
    requires (B + v) * D == B * B * B - k && n2 * B + n1 < D
    ensures n2 * v + n2 * B + n1 < B * B
  {
    EstimateScaled(B, D, v, k, n2, n1);
    ProductLe(n2, 0, k);
    ProductLe(n1, D, B * B);
    ScaledDividend(B, n2, n1, D);
    ProductOrder(n2 * v + n2 * B + n1, B * B, D);
  }

  lemma EstimateScaled(B: int, D: int, v: int, k: int, n2: int, n1: int)
    requires (B + v) * D == B * B * B - k
    ensures (n2 * v + n2 * B + n1) * D == n2 * (B * B * B) - n2 * k + n1 * D
  {
    assert n2 * v + n2 * B + n1 == n2 * (B + v) + n1;
    Associate(n2, B + v, D);
    assert n2 * (B * B * B - k) == n2 * (B * B * B) - n2 * k;
  }

  lemma ScaledDividend(B: int, n2: int, n1: int, D: int)
    requires 1 <= B && n2 * B + n1 < D
    ensures n2 * (B * B * B) + n1 * (B * B) < (B * B) * D
  {
    ScaledDigits(B, n2, n1);
    ScaledLess(B * B, n2 * B + n1, D);
  }

  lemma ScaledDigits(B: int, n2: int, n1: int)
    ensures n2 * (B * B * B) + n1 * (B * B) == (B * B) * (n2 * B + n1)
  {
    var M := B * B;
    AddProducts(n2 * B, n1, M);
    Associate(n2, B, M);
    assert B * M == B * B * B;
  }

  lemma ScaledLess(M: int, x: int, y: int)
    requires 1 <= M && x < y
    ensures M * x < M * y
  {
    assert M * (y - x) == M * y - M * x;
    ProductLe(M, 1, y - x);
  }

  /** Lower bounds on the candidate remainder. */
  lemma LowerBounds32(B: int, D: int, q0: int, r: int)
    requires 1 <= B && 0 < D < B * B && 0 <= q0 < B && q0 * D - B * D <= B * r
    ensures -D <= r && q0 * B - B * B <= r
  {
    ProductLe(D, 0, q0);
    assert (-D - 1) * B == -(B * D) - B;
    ProductOrder(-D - 1, r, B);
    ProductLe(B - q0, D, B * B);
    assert (B - q0) * D == B * D - q0 * D;
    assert (B - q0) * (B * B) == -(((q0 - B) * B) * B);
    assert ((q0 - B) * B - 1) * B == ((q0 - B) * B) * B - B;
    ProductOrder((q0 - B) * B - 1, r, B);
    assert (q0 - B) * B == q0 * B - B * B;
  }

  // ---------- the upper bound on the candidate ----------

  /** The bound on n1*x + n0*B + n2*k when n2 is below the top limb of D; x is B^2 - D. */
  lemma TermBoundBelow(B: int, d1: int, d0: int, D: int, x: int, k: int, n2: int, n1: int, n0: int)
    requires 1 <= B && D == d1 * B + d0 && x == B * B - D && 0 < x && 0 <= d0
    requires 0 <= n2 < d1 && 0 <= n1 < B && 0 <= n0 < B && 0 <= k <= D
    ensures B * (n1 * x + n0 * B + n2 * k) < x * x + (B * B) * D
  {
    ProductLe(x, n1, B - 1);
    ProductLe(B, n0, B - 1);
    ProductLe(n2, k, D);
    ProductLe(D, n2, d1 - 1);
    var T := n1 * x + n0 * B + n2 * k;
    assert T <= x * (B - 1) + B * (B - 1) + D * (d1 - 1);
    ProductLe(B, T, x * (B - 1) + B * (B - 1) + D * (d1 - 1));
    TopPolynomial(B, d1, d0, D, x);
  }

  lemma TopPolynomial(B: int, d1: int, d0: int, D: int, x: int)
    requires 1 <= B && D == d1 * B + d0 && x == B * B - D && 0 <= d0 && 0 <= D
    ensures B * (x * (B - 1) + B * (B - 1) + D * (d1 - 1)) < x * x + (B * B) * D
  {
    TopTerms(B, D, x, B * B);
    TopMultiple(B, d1, d0, D);
    TopTotal(B, x * (B - 1), B * (B - 1), D * (d1 - 1), D, d0, x);
  }

  lemma TopTotal(B: int, u: int, v: int, t: int, D: int, d0: int, x: int)
    requires 1 <= B && 0 <= D && 0 <= d0 && B * B == x + D
    requires B * u + B * v == x * x + x * D + B * D - B * B && B * t == D * D - D * d0 - B * D
    ensures B * (u + v + t) < x * x + (B * B) * D
  {
    assert B * (u + v + t) == B * u + B * v + B * t;
    ProductLe(D, 0, d0);
    assert 1 <= B * B;
    assert (x + D) * D == x * D + D * D;
  }

  lemma TopTerms(B: int, D: int, x: int, M: int)
    requires M == B * B && M == x + D
    ensures B * (x * (B - 1)) + B * (B * (B - 1)) == x * x + x * D + B * D - M
  {
    assert B * (x * (B - 1)) == M * x - B * x;
    assert B * (B * (B - 1)) == B * M - M;
    assert M * x == x * x + x * D;
    assert B * M == B * x + B * D;
  }

  lemma TopMultiple(B: int, d1: int, d0: int, D: int)
    requires D == d1 * B + d0
    ensures B * (D * (d1 - 1)) == D * D - D * d0 - B * D
  {
    assert B * (D * (d1 - 1)) == D * (d1 * B) - B * D;
    assert D * (D - d0) == D * D - D * d0;
  }

  /** The same bound when n2 equals the top limb, which is not the largest limb. */
  lemma TermBoundEqual(B: int, d1: int, d0: int, D: int, x: int, k: int, n1: int, n0: int)
    requires 1 <= B && D == d1 * B + d0 && x == B * B - D && B <= x && 0 <= d1
    requires 0 <= n1 < d0 < B && 0 <= n0 < B && 0 <= k <= D
    ensures B * (n1 * x + n0 * B + d1 * k) < x * x + (B * B) * D
  {
    ProductLe(x, n1, d0 - 1);
    ProductLe(B, n0, B - 1);
    ProductLe(d1, k, D);
    var T := n1 * x + n0 * B + d1 * k;
    assert T <= x * (d0 - 1) + B * (B - 1) + d1 * D;
    ProductLe(B, T, x * (d0 - 1) + B * (B - 1) + d1 * D);
    EqualPolynomial(B, d1, d0, D, x);
  }

  lemma EqualPolynomial(B: int, d1: int, d0: int, D: int, x: int)
    requires 1 <= B && D == d1 * B + d0 && x == B * B - D && B <= x && 0 <= d0 < B
    ensures B * (x * (d0 - 1) + B * (B - 1) + d1 * D) < x * x + (B * B) * D
  {
    EqualTotal(B, d1, d0, D, x);
    ScaledGap(B, d0, x);
    Expansions(B, D, x);
    GapDominates(B, d0, D, x);
  }

  lemma EqualTotal(B: int, d1: int, d0: int, D: int, x: int)
    requires 1 <= B && D == d1 * B + d0 && x == B * B - D
    ensures B * (x * (d0 - 1) + B * (B - 1) + d1 * D) == (B * d0) * x + B * D - B * B + D * D - d0 * D
  {
    ScaledTerm(B, d1, d0, D);
    Expansions(B, D, x);
    Distribute3(B, x * (d0 - 1), B * (B - 1), d1 * D);
    ScaledRow(B, d0, x);
  }

  lemma ScaledRow(B: int, d0: int, x: int)
    ensures B * (x * (d0 - 1)) == (B * d0) * x - B * x
  {
  }

  lemma Distribute3(a: int, x: int, y: int, z: int)
    ensures a * (x + y + z) == a * x + a * y + a * z
  {
  }

  lemma GapDominates(B: int, d0: int, D: int, x: int)
    requires 1 <= B <= x && x == B * B - D && d0 < B
    ensures B * D - d0 * D <= (B - d0) * (B * x)
  {
    ProductLe(B, B, x);
    ProductLe(B - d0, D, B * x);
    assert (B - d0) * D == B * D - d0 * D;
  }

  lemma ScaledTerm(B: int, d1: int, d0: int, D: int)
    requires D == d1 * B + d0
    ensures B * (d1 * D) == D * D - d0 * D
  {
    assert B * (d1 * D) == (d1 * B) * D;
    assert (D - d0) * D == D * D - d0 * D;
  }

  lemma ScaledGap(B: int, d0: int, x: int)
    ensures (B * B) * x - (B * d0) * x == (B - d0) * (B * x)
  {
    var y := B - d0;
    assert (B * B) * x - (B * d0) * x == (B * B - B * d0) * x;
    assert B * B - B * d0 == B * y;
    assert (B * y) * x == y * (B * x);
  }

  /** The products of B^2 = x + D that the bounds are expressed in. */
  lemma Expansions(B: int, D: int, x: int)
    requires x == B * B - D && 1 <= B
    ensures B * (B * (B - 1)) == B * x + B * D - B * B
    ensures (B * B) * D == D * x + D * D && (B * B) * x == x * x + D * x
    ensures 1 <= B * B
  {
    var M := B * B;
    assert B * (B * (B - 1)) == B * M - M;
    assert B * M == B * x + B * D;
    assert M * D == D * x + D * D;
    assert M * x == x * x + D * x;
  }

  /** The same bound when n2 equals the top limb B - 1: there k is at most B * x. */
  lemma TermBoundLargest(B: int, D: int, x: int, k: int, n1: int, n0: int)
    requires 1 <= B && x == B * B - D && 1 <= x < B
    requires 0 <= n1 < B - x && 0 <= n0 < B && 0 <= k <= B * x
    ensures B * (n1 * x + n0 * B + (B - 1) * k) < x * x + (B * B) * D
  {
    ProductLe(x, n1, B - x - 1);
    ProductLe(B, n0, B - 1);
    ProductLe(B - 1, k, B * x);
    var T := n1 * x + n0 * B + (B - 1) * k;
    assert T <= x * (B - x - 1) + B * (B - 1) + (B - 1) * (B * x);
    ProductLe(B, T, x * (B - x - 1) + B * (B - 1) + (B - 1) * (B * x));
    LargestPolynomial(B, D, x);
  }

  lemma LargestPolynomial(B: int, D: int, x: int)
    requires 1 <= B && x == B * B - D && 1 <= x < B
    ensures B * (x * (B - x - 1) + B * (B - 1) + (B - 1) * (B * x)) < x * x + (B * B) * D
  {
    LargestSum(B, x);
    LargestScaled(B, x, x * (B - x - 1) + B * (B - 1) + (B - 1) * (B * x));
    LargestGap(B, x);
    assert (B * B) * D == (B * B) * (B * B) - (B * B) * x;
    assert 0 < x * x;
    assert 0 < B * B;
  }

  lemma LargestSum(B: int, x: int)
    ensures x * (B - x - 1) + B * (B - 1) + (B - 1) * (B * x) == (B * B) * x + B * B - x * x - x - B
  {
    assert x * (B - x - 1) == B * x - x * x - x;
    assert B * (B * x) == (B * B) * x;
    assert (B - 1) * (B * x) == B * (B * x) - B * x;
  }

  lemma LargestScaled(B: int, x: int, s: int)
    requires s == (B * B) * x + B * B - x * x - x - B
    ensures B * s
         == (B * (B * B)) * x + B * (B * B) - (B * x) * x - B * x - B * B
  {
    Associate(B, B * B, x);
    Associate(B, x, x);
    FiveTerms(B, (B * B) * x, B * B, x * x, x, B);
  }

  lemma FiveTerms(B: int, p: int, q: int, y: int, x: int, z: int)
    ensures B * (p + q - y - x - z) == B * p + B * q - B * y - B * x - B * z
  {
  }

  /** With z = B - 1 - x: B^3 * z dominates B * x * z. */
  lemma LargestGap(B: int, x: int)
    requires 1 <= x < B
    ensures (B * (B * B)) * x + B * (B * B) - (B * x) * x - B * x <= (B * B) * (B * B) - (B * B) * x
  {
    var M, z := B * B, B - 1 - x;
    var N, u := B * M, B * x;
    assert N * z == M * M - N - N * x by { assert N * B == M * M; }
    assert u * z == M * x - u - u * x by { assert u * B == M * x; }
    ProductLe(B, 1, B);
    ProductLe(B, x, M);
    ProductLe(z, u, N);
    assert z * N == N * z && z * u == u * z;
  }

  /** Upper bound: the candidate is below B^2 - D or below q0 * B. */
  lemma UpperBound32(B: int, d1: int, d0: int, D: int, k: int, n2: int, n1: int, n0: int, q0: int, r: int)
    requires 1 <= B && 0 <= d1 < B && 0 <= d0 < B && D == d1 * B + d0 && 0 < D < B * B
    requires 0 <= n2 && 0 <= n1 < B && 0 <= n0 < B && 0 <= q0 < B
    requires n2 < d1 || (n2 == d1 && n1 < d0)
    requires 0 <= k <= D && k <= B * (B * B - D)
    requires B * r == n1 * (B * B - D) + n0 * B + n2 * k + q0 * D - B * D
    ensures r < B * B - D || r < q0 * B
  {
    var x := B * B - D;
    var T := n1 * x + n0 * B + n2 * k;
    assert B * T < x * x + (B * B) * D by {
      if n2 < d1 {
        TermBoundBelow(B, d1, d0, D, x, k, n2, n1, n0);
      } else {
        TopLimbCases(B, d1, d0, D);
        if d1 == B - 1 {
          TermBoundLargest(B, D, x, k, n1, n0);
        } else {
          TermBoundEqual(B, d1, d0, D, x, k, n1, n0);
        }
      }
    }
    ScaledCandidate(B, D, T, q0, r);
    WeightedAverage(x, D, x, q0 * B, r);
  }

  lemma TopLimbCases(B: int, d1: int, d0: int, D: int)
    requires 1 <= B && 0 <= d1 < B && 0 <= d0 < B && D == d1 * B + d0
    ensures if d1 == B - 1 then B * B - D == B - d0 else B <= B * B - D
  {
    if d1 == B - 1 {
      assert (B - 1) * B == B * B - B;
    } else {
      ProductLe(B, d1, B - 2);
      assert B * (B - 2) == B * B - 2 * B;
      assert B * d1 == d1 * B;
    }
  }

  lemma ScaledCandidate(B: int, D: int, T: int, q0: int, r: int)
    requires B * r == T + q0 * D - B * D
    requires B * T < (B * B - D) * (B * B - D) + (B * B) * D
    ensures (B * B - D + D) * r < (B * B - D) * (B * B - D) + D * (q0 * B)
  {
    assert (B * B) * r == B * (B * r);
    assert B * (T + q0 * D - B * D) == B * T + D * (q0 * B) - (B * B) * D;
  }

  /** The quotient estimate, and the range of the candidate remainder n - (q1 + 1) * D. */
  lemma Estimate32(B: nat, d1: nat, d0: nat, v: int, n2: nat, n1: nat, n0: nat) returns (q1: nat, q0: nat, r: int)
    requires 2 <= B && Normalised(B, d1) && d0 < B && 0 < d1 && v == Inverse32(B, d1, d0)
    requires n1 < B && n0 < B && Double(B, n2, n1) < Double(B, d1, d0)
    ensures q1 < B && q0 < B && n2 * v + Double(B, n2, n1) == Double(B, q1, q0)
    ensures r == Triple(B, n2, n1, n0) - (q1 + 1) * Double(B, d1, d0)
    ensures -(Double(B, d1, d0) as int) <= r && q0 * B - B * B <= r
    ensures r < B * B - Double(B, d1, d0) || r < q0 * B
  {
    hide Inverse32, Double, Triple;
    var D := Double(B, d1, d0);
    NormalisedDouble(B, d1, d0);
    InverseWord(B, d1, d0);
    var k := InverseGap32(B, d1, d0, v);
    DoubleValue(B, d1, d0);
    DoubleValue(B, n2, n1);
    EstimateFits(B, D, v, k, n2, n1);
    var t := n2 * v + n2 * B + n1;
    ProductLe(n2, 0, v);
    ProductLe(B, 0, n2);
    EstimateWords32(B, t);
    q1, q0 := t / B, t % B;
    DoubleValue(B, q1, q0);
    TripleValue(B, n2, n1, n0);
    r := Triple(B, n2, n1, n0) - (q1 + 1) * D;
    Identity32(B, D, v, k, n2, n1, n0, q1, q0);
    NonNegativeTerms(B, D, k, n2, n1, n0);
    LowerBounds32(B, D, q0, r);
    DoubleOrder(B, n2, n1, d1, d0);
    UpperBound32(B, d1, d0, D, k, n2, n1, n0, q0, r);
  }

  lemma NonNegativeTerms(B: int, D: int, k: int, n2: int, n1: int, n0: int)
    requires 0 <= B && D <= B * B && 0 <= k && 0 <= n2 && 0 <= n1 && 0 <= n0
    ensures 0 <= n1 * (B * B - D) + n0 * B + n2 * k
  {
    ProductLe(n1, 0, B * B - D);
    ProductLe(n0, 0, B);
    ProductLe(n2, 0, k);
  }

  lemma TripleValue(B: nat, n2: nat, n1: nat, n0: nat)
    ensures Triple(B, n2, n1, n0) == n2 * (B * B) + n1 * B + n0
  {
  }

  lemma EstimateWords32(B: nat, t: int)
    requires 1 <= B && 0 <= t < B * B
    ensures 0 <= t / B < B && 0 <= t % B < B && t == (t / B) * B + t % B
  {
    QuotientBelow(t, B);
  }

  lemma InverseGap32(B: nat, d1: nat, d0: nat, v: int) returns (k: int)
    requires 2 <= B && Normalised(B, d1) && d0 < B && 0 < d1 && v == Inverse32(B, d1, d0) && 0 <= v
    ensures 1 <= k <= Double(B, d1, d0) && (B + v) * Double(B, d1, d0) == B * B * B - k
    ensures k <= B * (B * B - Double(B, d1, d0))
  {
    hide Double;
    var D := Double(B, d1, d0);
    NormalisedDouble(B, d1, d0);
    ReciprocalCharacterised(B * B * B, B, D, v);
    k := B * B * B - (B + v) * D;
    GapBelow(B, D, v);
  }

  lemma GapBelow(B: int, D: int, v: int)
    requires 0 <= D && 0 <= v
    ensures B * B * B - (B + v) * D <= B * (B * B - D)
  {
    ProductLe(v, 0, D);
    assert (B + v) * D == B * D + v * D;
    assert B * (B * B - D) == B * B * B - B * D;
  }

  // ---------- udiv_qr_3by2: the words ----------

  lemma WrapSub(M: int, x: int, y: int)
    requires 0 < M
    ensures (x % M - y) % M == (x - y) % M
  {
    ModOfSum(M, x / M, x % M - y);
    assert M * (x / M) + (x % M - y) == x - y;
  }

  /** The two high limbs of n - q * D, computed with wrap-around, are the candidate modulo B^2. */
  lemma CandidateWords(B: nat, M: nat, d1: nat, d0: nat, n2: nat, n1: nat, n0: nat, q: nat, r: int,
                       high: nat, a: int, b: int)
    requires 2 <= B && M == B * B && 0 < M
    requires r == Triple(B, n2, n1, n0) - (q + 1) * Double(B, d1, d0)
    requires high == (n1 - d1 * q) % B
    requires a == (Double(B, high, n0) - Double(B, d1, d0)) % M
    requires b == (a - d0 * q) % M
    ensures b == r % M
  {
    WrapSub(M, Double(B, high, n0) - Double(B, d1, d0), d0 * q);
    CandidateDifference(B, M, d1, d0, n2, n1, n0, q, high);
    var c := n2 + (n1 - d1 * q) / B;
    ModOfSum(M, c, Double(B, high, n0) - Double(B, d1, d0) - d0 * q);
  }

  lemma CandidateDifference(B: nat, M: nat, d1: nat, d0: nat, n2: nat, n1: nat, n0: nat, q: nat, high: nat)
    requires 2 <= B && M == B * B && high == (n1 - d1 * q) % B
    ensures Triple(B, n2, n1, n0) - (q + 1) * Double(B, d1, d0)
         == M * (n2 + (n1 - d1 * q) / B) + (Double(B, high, n0) - Double(B, d1, d0) - d0 * q)
  {
    var t := n1 - d1 * q;
    var c := t / B;
    DivModFacts(t, B);
    HighTimesBase(B, M, t, c, high);
    assert (d1 * B + d0) * q == (d1 * q) * B + d0 * q;
    assert (q + 1) * (d1 * B + d0) == (d1 * B + d0) * q + (d1 * B + d0);
    assert n1 * B - (d1 * q) * B == t * B;
    assert n2 * M + M * c == M * (n2 + c);
  }

  lemma HighTimesBase(B: int, M: int, t: int, c: int, high: int)
    requires M == B * B && t == c * B + high
    ensures t * B == M * c + high * B
  {
  }

  /** The comparison of the high limb with q0 decides exactly when D has to be added back. */
  lemma Correction32(B: nat, M: nat, D: nat, q0: nat, r: int, hi: nat, lo: nat)
    requires 2 <= B && M == B * B && M <= 2 * D && 0 < D < M && q0 < B && lo < B
    requires -(D as int) <= r && q0 * B - M <= r && (r < M - D || r < q0 * B)
    requires Double(B, hi, lo) == r % M
    ensures (r % M + if hi >= q0 then D else 0) % M == r + (if hi >= q0 then D else 0)
    ensures 0 <= r + (if hi >= q0 then D else 0) < 2 * D
  {
    hide Double;
    HighComparison(B, hi, lo, q0);
    MulMonotone(q0 + 1, B, B, B);
    assert (q0 + 1) * B == q0 * B + B;
    if r < 0 {
      ModUnique(r, M, -1, r + M);
      ModUnique(r + M + D, M, 1, r + D);
    } else {
      ModUnique(r, M, 0, r);
      var e := r + if hi >= q0 then D else 0;
      ModUnique(e, M, 0, e);
    }
  }

  lemma HighComparison(B: nat, hi: nat, lo: nat, q0: nat)
    requires lo < B
    ensures hi >= q0 <==> Double(B, hi, lo) >= q0 * B
  {
    DoubleOrder(B, hi, lo, q0, 0);
    DoubleValue(B, q0, 0);
  }

  lemma TripleQuotientFits(B: nat, D: nat, n2: nat, n1: nat, n0: nat, q: int, r: nat)
    requires 1 <= B && 0 < D && Double(B, n2, n1) < D && n0 < B && r < D
    requires Triple(B, n2, n1, n0) == q * D + r
    ensures 0 <= q < B && q % B == q
  {
    TripleAsDouble(B, n2, n1, n0);
    QuotientFits(B, D, Double(B, n2, n1), n0, q, r);
    SmallMod(q, B);
  }

  lemma TripleAsDouble(B: nat, n2: nat, n1: nat, n0: nat)
    ensures Triple(B, n2, n1, n0) == Double(B, n2, n1) * B + n0
  {
    assert (n2 * B + n1) * B == n2 * (B * B) + n1 * B;
  }

  /** The first half of udiv_qr_3by2: the estimate q, q0 and the candidate r = n - (q + 1) * D in two words. */
  method Candidate3by2(h: nat, n2: nat, n1: nat, n0: nat, d1: nat, d0: nat, dinv: nat)
    returns (q: nat, q0: nat, r1: nat, r0: nat, ghost r: int)
    requires 1 <= h && Normalised(WordBase(h), d1) && d0 < WordBase(h)
    requires n2 < WordBase(h) && n1 < WordBase(h) && n0 < WordBase(h)
    requires Double(WordBase(h), n2, n1) < Double(WordBase(h), d1, d0)
    requires 0 < d1 && dinv == Inverse32(WordBase(h), d1, d0)
    ensures q < WordBase(h) && q0 < WordBase(h) && r1 < WordBase(h) && r0 < WordBase(h)
    ensures var B := WordBase(h); var D := Double(B, d1, d0);
            && r == Triple(B, n2, n1, n0) - (q + 1) * D
            && 0 < B * B && Double(B, r1, r0) == r % (B * B)
            && -(D as int) <= r && q0 * B - B * B <= r && (r < B * B - D || r < q0 * B)
  {
    hide *;
    var B := WordBase(h);
    WordBaseFacts(h);
    NormalisedRange(B, d1);
    InverseWord(B, d1, d0);
    ghost var e1, e0;
    e1, e0, r := Estimate32(B, d1, d0, dinv, n2, n1, n0);
    q, q0 := UmulPpmm(h, n2, dinv);
    q, q0 := AddSsaaaa(B, q, q0, n2, n1);
    DoubleBound(B, e1, e0);
    SmallMod(Double(B, e1, e0), B * B);
    DoubleUnique(B, q, q0, e1, e0);
    ModRange(n1 - d1 * q, B);
    r1 := (n1 - d1 * q) % B;
    ghost var high := r1;
    r1, r0 := SubDdmmss(B, r1, n0, d1, d0);
    ghost var a := Double(B, r1, r0);
    var t1, t0 := UmulPpmm(h, d0, q);
    r1, r0 := SubDdmmss(B, r1, r0, t1, t0);
    CandidateWords(B, B * B, d1, d0, n2, n1, n0, q, r, high, a, Double(B, r1, r0));
  }

  /** The second half of udiv_qr_3by2: D is added back under a mask, and in rare cases subtracted once more. */
  method Adjust3by2(h: nat, qh: nat, q0: nat, rh: nat, rl: nat, d1: nat, d0: nat, ghost n: int, ghost r: int)
    returns (q: nat, r1: nat, r0: nat, ghost quotient: int)
    requires 1 <= h && Normalised(WordBase(h), d1) && d0 < WordBase(h)
    requires qh < WordBase(h) && q0 < WordBase(h) && rh < WordBase(h) && rl < WordBase(h)
    requires var B := WordBase(h); var D := Double(B, d1, d0);
             && r == n - (qh + 1) * D
             && 0 < B * B && Double(B, rh, rl) == r % (B * B)
             && -(D as int) <= r && q0 * B - B * B <= r && (r < B * B - D || r < q0 * B)
    ensures 0 < WordBase(h) && q == quotient % WordBase(h) && r1 < WordBase(h) && r0 < WordBase(h)
    ensures Double(WordBase(h), r1, r0) < Double(WordBase(h), d1, d0)
    ensures n == quotient * Double(WordBase(h), d1, d0) + Double(WordBase(h), r1, r0)
  {
    hide *;
    var B := WordBase(h);
    WordBaseFacts(h);
    NormalisedRange(B, d1);
    NormalisedDouble(B, d1, d0);
    ghost var D := Double(B, d1, d0);
    quotient := qh + 1;
    ModRange(qh + 1, B);
    q := (qh + 1) % B;
    var dec := rh >= q0;
    Correction32(B, B * B, D, q0, r, rh, rl);
    MaskedCorrection(h, d1, n, quotient, n - quotient * d1, dec);
    MaskSelects(2 * h, dec, d0);
    StepDown(n, quotient, D, r);
    var mask := Neg(2 * h, if dec then 1 else 0);
    q := (q + mask) % B;
    quotient := quotient - if dec then 1 else 0;
    MaskedDouble(B, d1, d0, dec);
    DoubleBound(B, d1, d0);
    r1, r0 := AddSsaaaa(B, rh, rl, And(mask, d1), And(mask, d0));
    q, r1, r0, quotient := SubtractOnce(B, q, r1, r0, d1, d0, n, quotient);
  }

  /** The last step: D is subtracted once more if the remainder is still that large. */
  method SubtractOnce(B: nat, qe: nat, rh: nat, rl: nat, d1: nat, d0: nat, ghost n: int, ghost estimate: int)
    returns (q: nat, r1: nat, r0: nat, ghost quotient: int)
    requires 0 < B && rh < B && rl < B && d1 < B && d0 < B && qe == estimate % B
    requires Double(B, rh, rl) < B * B && Double(B, rh, rl) < 2 * Double(B, d1, d0)
    requires n == estimate * Double(B, d1, d0) + Double(B, rh, rl)
    ensures q == quotient % B && r1 < B && r0 < B && Double(B, r1, r0) < Double(B, d1, d0)
    ensures n == quotient * Double(B, d1, d0) + Double(B, r1, r0)
  {
    hide *;
    q, r1, r0, quotient := qe, rh, rl, estimate;
    DoubleOrder(B, r1, r0, d1, d0);
    if r1 >= d1 {
      if r1 > d1 || r0 >= d0 {
        NextQuotient(n, estimate, Double(B, d1, d0), Double(B, rh, rl));
        WrapAdd(B, estimate, 1);
        q := (q + 1) % B;
        quotient := estimate + 1;
        SmallMod(Double(B, rh, rl) - Double(B, d1, d0), B * B);
        r1, r0 := SubDdmmss(B, r1, r0, d1, d0);
      }
    }
  }

  /** udiv_qr_3by2: the exact quotient and remainder of (n2, n1, n0) by (d1, d0). */
  method UdivQr3by2(h: nat, n2: nat, n1: nat, n0: nat, d1: nat, d0: nat, dinv: nat)
    returns (q: nat, r1: nat, r0: nat)
    requires 1 <= h && Normalised(WordBase(h), d1) && d0 < WordBase(h)
    requires n2 < WordBase(h) && n1 < WordBase(h) && n0 < WordBase(h)
    requires Double(WordBase(h), n2, n1) < Double(WordBase(h), d1, d0)
    requires 0 < d1 && dinv == Inverse32(WordBase(h), d1, d0)
    ensures q < WordBase(h) && r1 < WordBase(h) && r0 < WordBase(h)
    ensures Double(WordBase(h), r1, r0) < Double(WordBase(h), d1, d0)
    ensures Triple(WordBase(h), n2, n1, n0)
         == q * Double(WordBase(h), d1, d0) + Double(WordBase(h), r1, r0)
  {
    hide *;
    ghost var B := WordBase(h);
    WordBaseFacts(h);
    NormalisedDouble(B, d1, d0);
    ghost var r, quotient;
    var q0;
    q, q0, r1, r0, r := Candidate3by2(h, n2, n1, n0, d1, d0, dinv);
    q, r1, r0, quotient := Adjust3by2(h, q, q0, r1, r0, d1, d0, Triple(B, n2, n1, n0), r);
    TripleQuotientFits(B, Double(B, d1, d0), n2, n1, n0, quotient, Double(B, r1, r0));
  }

  lemma StepDown(n: int, q: int, D: int, r: int)
    requires r == n - q * D
    ensures n == (q - 1) * D + (r + D) && n == q * D + r
  {
  }

  lemma MaskedDouble(B: nat, d1: nat, d0: nat, dec: bool)
    ensures Double(B, if dec then d1 else 0, if dec then d0 else 0) == if dec then Double(B, d1, d0) else 0
  {
  }

  // ---------- inverse and division together ----------

  /** invert_limb and udiv_qrnnd_preinv divide exactly what __udiv_qrnnd_c divides. */
  method DivideTwoByOne(h: nat, nh: nat, nl: nat, d: nat, inclusive: bool) returns (q: nat, r: nat)
    requires 1 <= h && Normalised(WordBase(h), d) && nh < d && nl < WordBase(h)
    ensures Double(WordBase(h), nh, nl) == q * d + r && r < d && q < WordBase(h)
  {
    hide *;
    var di := InvertLimb(h, d);
    q, r := UdivQrnndPreinv(h, nh, nl, d, di, inclusive);
  }

  /** invert_pi1 and udiv_qr_3by2 divide every three-limb number that leaves a one-limb quotient. */
  method DivideThreeByTwo(h: nat, n2: nat, n1: nat, n0: nat, d1: nat, d0: nat) returns (q: nat, r1: nat, r0: nat)
    requires 1 <= h && Normalised(WordBase(h), d1) && d0 < WordBase(h)
    requires n2 < WordBase(h) && n1 < WordBase(h) && n0 < WordBase(h)
    requires Double(WordBase(h), n2, n1) < Double(WordBase(h), d1, d0)
    ensures Triple(WordBase(h), n2, n1, n0) == q * Double(WordBase(h), d1, d0) + Double(WordBase(h), r1, r0)
    ensures Double(WordBase(h), r1, r0) < Double(WordBase(h), d1, d0) && q < WordBase(h)
  {
    hide *;
    var dinv := InvertPi1(h, d1, d0);
    q, r1, r0 := UdivQr3by2(h, n2, n1, n0, d1, d0, dinv);
  }
}

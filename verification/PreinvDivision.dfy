/**
 lib/gmp/gmp-impl.h: division of two- and three-limb numbers by multiplication with a
 precomputed inverse.  All intermediate words wrap; B = Pow2(2h) is symbolic.
 */
module PreinvDivision {
  import opened Limbs
  import opened Primes
  import opened WideArith

  /** The reciprocal that invert_limb computes: floor((B^2 - 1) / d) - B. */
  function Inverse21(B: nat, d: nat): int
    requires 0 < d
  {
    (B * B - 1) / d - B
  }

  /** The reciprocal for two-limb divisors: floor((B^3 - 1) / (d1 * B + d0)) - B. */
  function Inverse32(B: nat, d1: nat, d0: nat): int
    requires 0 < d1 && 0 < B
  {
    (B * B * B - 1) / Double(B, d1, d0) - B
  }

  // ---------- what the reciprocals satisfy ----------

  /** v = floor((N - 1) / d) - B is the largest v with (B + v) * d < N. */
  lemma ReciprocalCharacterised(N: int, B: int, d: int, v: int)
    requires 0 < d
    ensures v == (N - 1) / d - B <==> (B + v) * d < N <= (B + v) * d + d
  {
    var q := (N - 1) / d;
    assert N - 1 == d * q + (N - 1) % d;
    if (B + v) * d < N <= (B + v) * d + d {
      assert N - 1 == d * (B + v) + (N - 1 - (B + v) * d);
      ModUnique(N - 1, d, B + v, N - 1 - (B + v) * d);
    }
    assert d * q == q * d;
  }

  /** For a normalised divisor the reciprocal is a word. */
  lemma Inverse21IsWord(B: nat, d: nat)
    requires Normalised(B, d) && 2 <= B
    ensures 0 <= Inverse21(B, d) < B
  {
    var v := Inverse21(B, d);
    ReciprocalCharacterised(B * B, B, d, v);
    NormalisedRange(B, d);
    hide Inverse21;
    NextMultiple(B + v, d);
    SquareBetween(B, d);
    ProductOrder(B, B + v + 1, d);
    ProductOrder(B + v, 2 * B, d);
  }

  lemma NextMultiple(x: int, d: int)
    ensures (x + 1) * d == x * d + d
  {
  }

  lemma SquareBetween(B: nat, d: nat)
    requires 0 < B && d < B <= 2 * d
    ensures B * d < B * B <= (2 * B) * d
  {
    MulMonotone(B, B, d, B - 1);
    assert B * (B - 1) == B * B - B;
    MulMonotone(B, B, B, 2 * d);
    assert (2 * B) * d == B * (2 * d);
  }

  // ---------- the two-by-one step ----------

  /** B * (n - (q1 + 1) * d) in terms of the low word q0 of the quotient estimate. */
  lemma Identity21(B: int, d: int, v: int, k: int, nh: int, nl: int, q1: int, q0: int)
    requires (B + v) * d == B * B - k
    requires nh * v + nh * B + nl == q1 * B + q0
    ensures B * (nh * B + nl - (q1 + 1) * d) == nh * k + nl * (B - d) + q0 * d - B * d
  {
    assert (q1 * B + q0 - nl) * d == nh * ((B + v) * d) by {
      assert q1 * B + q0 - nl == nh * (B + v);
      Associate(nh, B + v, d);
    }
    assert nh * (B * B - k) == nh * (B * B) - nh * k;
    assert (q1 * B + q0 - nl) * d == (q1 * B) * d + q0 * d - nl * d;
    assert (q1 * B) * d == B * (q1 * d);
    assert B * (nh * B + nl - (q1 + 1) * d) == nh * (B * B) + B * nl - B * (q1 * d) - B * d;
    assert nl * (B - d) == B * nl - nl * d;
  }

  /** Lower bounds on the candidate remainder r. */
  lemma LowerBounds21(B: int, d: int, k: int, nh: int, nl: int, q0: int, r: int)
    requires 0 < d < B && 0 <= k && 0 <= nh && 0 <= nl && 0 <= q0 < B
    requires B * r == nh * k + nl * (B - d) + q0 * d - B * d
    ensures -d <= r && q0 < r + B
  {
    ProductLe(nh, 0, k);
    ProductLe(nl, 0, B - d);
    LowerFromScaled(B, d, q0, r);
  }

  lemma LowerFromScaled(B: int, d: int, q0: int, r: int)
    requires 0 < d < B && 0 <= q0 < B && q0 * d - B * d <= B * r
    ensures -d <= r && q0 < r + B
  {
    ProductLe(d, 0, q0);
    assert (-d - 1) * B == -(B * d) - B;
    ProductOrder(-d - 1, r, B);
    ProductLe(B - q0, 1, B - d);
    assert (B - q0) * (B - d) == B * B - B * d - q0 * B + q0 * d;
    ProductOrder(q0, r + B, B);
  }

  /** Upper bound: r < max(B - d, q0), also when nh == d. */
  lemma UpperBound21(B: int, d: int, k: int, nh: int, nl: int, q0: int, r: int)
    requires 0 < d < B && 0 <= k <= d && 0 <= nh <= d && 0 <= nl < B && 0 <= q0 < B
    requires B * r == nh * k + nl * (B - d) + q0 * d - B * d
    ensures r < B - d || r < q0
  {
    var x := B - d;
    MulMonotone(nh, d, k, d);
    MulMonotone(nl, B - 1, x, x);
    assert (B - 1) * x == B * x - x;
    assert B * x == x * x + d * x;
    assert B * d == d * x + d * d;
    assert (x + d) * r < x * x + d * q0;
    WeightedAverage(x, d, x, q0, r);
  }

  /** A value below the weighted average of y and z is below one of them. */
  lemma WeightedAverage(x: int, d: int, y: int, z: int, r: int)
    requires 0 <= x && 0 <= d && (x + d) * r < x * y + d * z
    ensures r < y || r < z
  {
    if y <= r && z <= r {
      ProductLe(x, y, r);
      ProductLe(d, z, r);
      assert false;
    }
  }

  lemma ProductLe(a: int, x: int, y: int)
    requires 0 <= a && x <= y
    ensures a * x <= a * y
  {
  }

  /** With a zero low word the candidate is below q0 and d unless it is negative. */
  lemma UpperBoundZeroLow(B: int, d: int, k: int, nh: int, q0: int, r: int)
    requires 0 < d < B && 0 <= k <= d && 0 <= nh <= d && 0 <= q0 < B
    requires B * r == nh * k + q0 * d - B * d && 0 <= r
    ensures r < q0 && r < d
  {
    MulMonotone(nh, d, k, d);
    assert d * (d + q0 - B) == d * d + q0 * d - B * d;
    SmallerFactor(B, d, d + q0 - B, r, d);
    SmallerFactor(B, d, d + q0 - B, r, q0);
  }

  lemma SmallerFactor(B: int, d: int, e: int, r: int, y: int)
    requires 0 < d < B && 0 <= r && B * r <= d * e && e < y
    ensures r < y
  {
    ProductLe(B, 0, r);
    ProductOrder(-1, e, d);
    ProductLe(d, e + 1, y);
    assert d * (e + 1) == d * e + d;
    MulMonotone(d, B, y, y);
    ProductOrder(r, y, B);
  }

  /**
   The quotient estimate q1 * B + q0 = nh * (B + v) + nl, and the range of the candidate
   remainder n - (q1 + 1) * d.
   */
  lemma Estimate21(B: nat, d: nat, di: int, nh: nat, nl: nat) returns (q1: int, q0: nat)
    requires 2 <= B && Normalised(B, d) && nh <= d && nl < B && di == Inverse21(B, d)
    ensures q0 < B && nh * di + nh * B + nl == q1 * B + q0
    ensures -(d as int) <= nh * B + nl - (q1 + 1) * d && q0 < nh * B + nl - (q1 + 1) * d + B
    ensures nh * B + nl - (q1 + 1) * d < B - d || nh * B + nl - (q1 + 1) * d < q0
    ensures nl == 0 && 0 <= nh * B + nl - (q1 + 1) * d ==>
              nh * B + nl - (q1 + 1) * d < q0 && nh * B + nl - (q1 + 1) * d < d
  {
    hide Inverse21;
    var t := nh * di + nh * B + nl;
    q1, q0 := t / B, t % B;
    assert t == q1 * B + q0;
    var k := InverseGap21(B, d, di);
    Identity21(B, d, di, k, nh, nl, q1, q0);
    var r := nh * B + nl - (q1 + 1) * d;
    LowerBounds21(B, d, k, nh, nl, q0, r);
    UpperBound21(B, d, k, nh, nl, q0, r);
    if nl == 0 && 0 <= r {
      UpperBoundZeroLow(B, d, k, nh, q0, r);
    }
  }

  lemma InverseGap21(B: nat, d: nat, di: int) returns (k: int)
    requires Normalised(B, d) && di == Inverse21(B, d)
    ensures 1 <= k <= d && (B + di) * d == B * B - k
  {
    ReciprocalCharacterised(B * B, B, d, di);
    k := B * B - (B + di) * d;
  }

  // ---------- word-level steps ----------

  lemma WrapAdd(B: nat, x: int, c: int)
    requires 0 < B
    ensures (x % B + c) % B == (x + c) % B
  {
    ModOfSum(B, x / B, x % B + c);
    assert B * (x / B) + (x % B + c) == x + c;
  }

  /** The two words of t * B + lo modulo B^2. */
  lemma SplitDouble(B: nat, hi: nat, lo: nat, t: int, lo': nat)
    requires hi < B && lo < B && lo' < B && 0 < B * B && Double(B, hi, lo) == (t * B + lo') % (B * B)
    ensures lo == lo' && hi == t % B
  {
    hide Double;
    DivModFacts(t, B);
    DoubleWrap(B, t, t % B, t / B, lo');
    DoubleUnique(B, hi, lo, t % B, lo');
  }

  lemma DivModFacts(t: int, B: nat)
    requires 0 < B
    ensures t == (t / B) * B + t % B && 0 <= t % B < B
  {
  }

  lemma DoubleUnique(B: nat, hi: nat, lo: nat, hi': nat, lo': nat)
    requires lo < B && lo' < B && Double(B, hi, lo) == Double(B, hi', lo')
    ensures hi == hi' && lo == lo'
  {
    assert hi * B == B * hi && hi' * B == B * hi';
    ModUnique(Double(B, hi, lo), B, hi, lo);
    ModUnique(Double(B, hi, lo), B, hi', lo');
  }

  /** The word nl - qh * d is the candidate remainder modulo B. */
  lemma RemainderWord(B: nat, d: nat, nh: nat, nl: nat, q: int)
    requires 0 < B
    ensures (nl - (q % B) * d) % B == (nh * B + nl - q * d) % B
  {
    var j := q / B;
    assert q == B * j + q % B;
    assert q * d == B * (j * d) + (q % B) * d;
    assert B * (nh - j * d) == B * nh - B * (j * d);
    ModOfSum(B, nh - j * d, nl - (q % B) * d);
    assert B * (nh - j * d) + (nl - (q % B) * d) == nh * B + nl - q * d;
  }

  /** The masked correction turns the candidate modulo B into a number below 2d, exactly. */
  lemma FirstCorrection(B: nat, d: nat, q0: nat, r: int, dec: bool)
    requires Normalised(B, d) && q0 < B && -(d as int) <= r && q0 < r + B && (r < B - d || r < q0)
    requires if dec then q0 <= r % B else r % B <= q0
    ensures (r % B + if dec then d else 0) % B == r + (if dec then d else 0)
    ensures 0 <= r + (if dec then d else 0) < 2 * d
    ensures r < 0 ==> dec
    ensures dec && 0 <= r ==> q0 <= r
  {
    if r < 0 {
      ModUnique(r, B, -1, r + B);
      ModUnique(r + B + d, B, 1, r + d);
    } else {
      ModUnique(r, B, 0, r);
      var e := r + if dec then d else 0;
      ModUnique(e, B, 0, e);
    }
  }

  lemma WordQuotient(B: nat, d: nat, nh: nat, nl: nat, q: int, r: nat)
    requires nh < d && nl < B && r < d && nh * B + nl == q * d + r
    ensures 0 <= q < B && q % B == q
  {
    QuotientFits(B, d, nh, nl, q, r);
    SmallMod(q, B);
  }

  // ---------- udiv_qrnnd_preinv, udiv_rnnd_preinv ----------

  lemma WordBaseFacts(h: nat)
    requires 1 <= h
    ensures 2 <= WordBase(h) && WordBase(h) == Pow2(2 * h)
  {
    Pow2Monotone(1, 2 * h);
  }

  /** add_ssaaaa (qh, ql, p1, p0, nh + 1, nl) leaves the incremented estimate, modulo B^2. */
  lemma EstimateWords(B: nat, p1: nat, p0: nat, nh: nat, nl: nat, di: int, q1: int, q0: nat, qh: nat, ql: nat)
    requires 0 < B && 0 < B * B && q0 < B && qh < B && ql < B && Double(B, p1, p0) == nh * di
    requires nh * di + nh * B + nl == q1 * B + q0
    requires Double(B, qh, ql) == (Double(B, p1, p0) + Double(B, (nh + 1) % B, nl)) % (B * B)
    ensures ql == q0 && qh == (q1 + 1) % B
  {
    hide Double;
    EstimateTotal(B, p1, p0, nh, nl, di, q1, q0);
    CongruentSplit(B, B * B, qh, ql, Double(B, p1, p0) + Double(B, (nh + 1) % B, nl), -((nh + 1) / B), q1 + 1, q0);
  }

  lemma EstimateTotal(B: nat, p1: nat, p0: nat, nh: nat, nl: nat, di: int, q1: int, q0: nat)
    requires 0 < B && Double(B, p1, p0) == nh * di && nh * di + nh * B + nl == q1 * B + q0
    ensures Double(B, p1, p0) + Double(B, (nh + 1) % B, nl) == (B * B) * -((nh + 1) / B) + ((q1 + 1) * B + q0)
  {
    WrappedAddend(B, nh);
    DoubleValue(B, (nh + 1) % B, nl);
    assert (q1 + 1) * B == q1 * B + B;
  }

  /** A double word congruent to t * B + lo' modulo M = B^2 has those two words. */
  lemma CongruentSplit(B: nat, M: nat, hi: nat, lo: nat, s: int, k: int, t: int, lo': nat)
    requires 0 < M == B * B && hi < B && lo < B && lo' < B
    requires s == M * k + (t * B + lo') && Double(B, hi, lo) == s % M
    ensures lo == lo' && hi == t % B
  {
    hide Double;
    ModOfSum(M, k, t * B + lo');
    SplitDouble(B, hi, lo, t, lo');
  }

  lemma WrappedAddend(B: nat, nh: nat)
    requires 0 < B
    ensures ((nh + 1) % B) * B == nh * B + B + (B * B) * -((nh + 1) / B)
  {
    var c := (nh + 1) / B;
    DivModFacts(nh + 1, B);
    assert (c * B) * B == (B * B) * c;
  }

  /** The candidate quotient and remainder after the estimate, in words and as integers. */
  lemma Candidate21(B: nat, nh: nat, nl: nat, d: nat, di: int, p1: nat, p0: nat, qh: nat, ql: nat) returns (q: int, r: int)
    requires 2 <= B && Normalised(B, d) && nh <= d && nl < B && di == Inverse21(B, d)
    requires Double(B, p1, p0) == nh * di && qh < B && ql < B && 0 < B * B
    requires Double(B, qh, ql) == (Double(B, p1, p0) + Double(B, (nh + 1) % B, nl)) % (B * B)
    ensures qh == q % B && r == nh * B + nl - q * d && (nl - qh * d) % B == r % B
    ensures -(d as int) <= r && ql < r + B && (r < B - d || r < ql)
    ensures nl == 0 && 0 <= r ==> r < ql && r < d
  {
    hide *;
    var q1, q0 := Estimate21(B, d, di, nh, nl);
    EstimateWords(B, p1, p0, nh, nl, di, q1, q0, qh, ql);
    q := q1 + 1;
    r := nh * B + nl - q * d;
    RemainderWord(B, d, nh, nl, q);
  }

  /** Applying the mask -(dec): the quotient word is decremented, the remainder corrected. */
  lemma MaskedCorrection(h: nat, d: nat, n: int, q: int, r: int, dec: bool)
    requires 1 <= h && d < WordBase(h) && r == n - q * d
    ensures (q % WordBase(h) + Neg(2 * h, if dec then 1 else 0)) % WordBase(h) == (q - if dec then 1 else 0) % WordBase(h)
    ensures And(Neg(2 * h, if dec then 1 else 0), d) == if dec then d else 0
    ensures n == (q - if dec then 1 else 0) * d + (r + if dec then d else 0)
  {
    hide And, Pow2;
    var B := WordBase(h);
    WordBaseFacts(h);
    MaskSelects(2 * h, dec, d);
    assert Ones(2 * h) == B - 1;
    WrapAdd(B, q, if dec then B - 1 else 0);
    ModOfSum(B, 1, q - 1);
    ModOfSum(B, 0, q);
    assert (q - 1) * d == q * d - d;
  }

  lemma NextQuotient(n: int, q: int, d: int, r: int)
    requires n == q * d + r
    ensures n == (q + 1) * d + (r - d)
  {
  }

  /**
   udiv_qrnnd_preinv: the exact quotient and remainder of (nh, nl) by d.  The mask test may
   be r > ql or r >= ql.
   */
  method UdivQrnndPreinv(h: nat, nh: nat, nl: nat, d: nat, di: nat, inclusive: bool) returns (qh: nat, r: nat)
    requires 1 <= h && Normalised(WordBase(h), d) && nh < d && nl < WordBase(h)
    requires di == Inverse21(WordBase(h), d)
    ensures qh < WordBase(h) && r < d
    ensures Double(WordBase(h), nh, nl) == qh * d + r
  {
    hide *;
    var B := WordBase(h);
    WordBaseFacts(h);
    NormalisedRange(B, d);
    Inverse21IsWord(B, d);
    SmallMod(nh + 1, B);
    var p1, p0 := UmulPpmm(h, nh, di);
    var ql;
    qh, ql := AddSsaaaa(B, p1, p0, nh + 1, nl);
    ghost var q, candidate := Candidate21(B, nh, nl, d, di, p1, p0, qh, ql);
    r := (nl - qh * d) % B;
    var dec := if inclusive then r >= ql else r > ql;
    FirstCorrection(B, d, ql, candidate, dec);
    MaskedCorrection(h, d, nh * B + nl, q, candidate, dec);
    var mask := Neg(2 * h, if dec then 1 else 0);
    qh := (qh + mask) % B;
    r := (r + And(mask, d)) % B;
    q := q - if dec then 1 else 0;
    if r >= d {
      NextQuotient(nh * B + nl, q, d, r);
      WrapAdd(B, q, 1);
      r := r - d;
      qh := (qh + 1) % B;
      q := q + 1;
    }
    WordQuotient(B, d, nh, nl, q, r);
    DoubleValue(B, nh, nl);
  }

  /** udiv_qrnnd_preinv for a low word known to be 0: no second correction is needed. */
  method UdivQrnndPreinvZero(h: nat, nh: nat, d: nat, di: nat, inclusive: bool) returns (qh: nat, r: nat)
    requires 1 <= h && Normalised(WordBase(h), d) && nh < d
    requires di == Inverse21(WordBase(h), d)
    ensures qh < WordBase(h) && r < d
    ensures Double(WordBase(h), nh, 0) == qh * d + r
  {
    hide *;
    var B := WordBase(h);
    WordBaseFacts(h);
    NormalisedRange(B, d);
    Inverse21IsWord(B, d);
    var p1, p0 := UmulPpmm(h, nh, di);
    var ql := p0;
    qh := (p1 + (nh + 1)) % B;
    HighWordOnly(B, p1, p0, nh, qh);
    ghost var q, candidate := Candidate21(B, nh, 0, d, di, p1, p0, qh, ql);
    r := (0 - qh * d) % B;
    var dec := if inclusive then r >= ql else r > ql;
    FirstCorrection(B, d, ql, candidate, dec);
    NoFalseCorrection(B, d, ql, candidate, dec);
    MaskedCorrection(h, d, nh * B + 0, q, candidate, dec);
    var mask := Neg(2 * h, if dec then 1 else 0);
    qh := (qh + mask) % B;
    r := (r + And(mask, d)) % B;
    q := q - if dec then 1 else 0;
    WordQuotient(B, d, nh, 0, q, r);
    DoubleValue(B, nh, 0);
  }

  /** Adding (nh + 1, 0) to a double word only touches the high word. */
  lemma HighWordOnly(B: nat, p1: nat, p0: nat, nh: nat, qh: nat)
    requires 2 <= B && p1 < B && p0 < B && qh == (p1 + (nh + 1)) % B
    ensures 0 < B * B && qh < B
    ensures Double(B, qh, p0) == (Double(B, p1, p0) + Double(B, (nh + 1) % B, 0)) % (B * B)
  {
    hide Double;
    var x := (nh + 1) % B;
    WrapAdd(B, nh + 1, p1);
    DivModFacts(p1 + x, B);
    DoubleWrap(B, p1 + x, qh, (p1 + x) / B, p0);
    DoubleSum(B, p1, p0, x, 0, 0, p0);
  }

  /** When the low word is zero a non-negative candidate is never decremented. */
  lemma NoFalseCorrection(B: nat, d: nat, ql: nat, r: int, dec: bool)
    requires 0 < B && d < B && ql < B && -(d as int) <= r && (0 <= r ==> r < ql && r < d)
    requires if dec then ql <= r % B else r % B <= ql
    requires r < 0 ==> dec
    ensures 0 <= r + (if dec then d else 0) < d
  {
    if 0 <= r {
      ModUnique(r, B, 0, r);
    }
  }

  lemma RemainderOnly(n: nat, d: nat, q: int, r: nat)
    requires 0 < d && r < d && n == q * d + r
    ensures r == n % d
  {
    assert q * d == d * q;
    ModUnique(n, d, q, r);
  }

  /** udiv_rnnd_preinv: the remainder only, which is right for nh == d as well. */
  method UdivRnndPreinv(h: nat, nh: nat, nl: nat, d: nat, di: nat, inclusive: bool) returns (r: nat)
    requires 1 <= h && Normalised(WordBase(h), d) && nh <= d && nl < WordBase(h)
    requires di == Inverse21(WordBase(h), d)
    ensures d != 0 && r == Double(WordBase(h), nh, nl) % d
  {
    hide *;
    var B := WordBase(h);
    WordBaseFacts(h);
    NormalisedRange(B, d);
    Inverse21IsWord(B, d);
    var p1, p0 := UmulPpmm(h, nh, di);
    ModRange(nh + 1, B);
    var qh, ql := AddSsaaaa(B, p1, p0, (nh + 1) % B, nl);
    ghost var q, candidate := Candidate21(B, nh, nl, d, di, p1, p0, qh, ql);
    r := (nl - qh * d) % B;
    var dec := if inclusive then r >= ql else r > ql;
    FirstCorrection(B, d, ql, candidate, dec);
    MaskedCorrection(h, d, nh * B + nl, q, candidate, dec);
    var mask := Neg(2 * h, if dec then 1 else 0);
    r := (r + And(mask, d)) % B;
    q := q - if dec then 1 else 0;
    if r >= d {
      NextQuotient(nh * B + nl, q, d, r);
      r := r - d;
      q := q + 1;
    }
    DoubleValue(B, nh, nl);
    RemainderOnly(nh * B + nl, d, q, r);
  }

  lemma ModRange(x: int, B: nat)
    requires 0 < B
    ensures 0 <= x % B < B
  {
  }

  /** ~(qh + nh) * d is -(qh + nh + 1) * d modulo B. */
  lemma ComplementProduct(B: nat, x: nat, d: nat)
    requires 0 < B
    ensures ((B - 1 - x % B) * d) % B == (0 - ((x + 1) % B) * d) % B
  {
    DivModFacts(x, B);
    DivModFacts(x + 1, B);
    var c := 1 + x / B - (x + 1) / B;
    ComplementStep(B, x, x / B, x % B, (x + 1) / B, (x + 1) % B, d);
    ModOfSum(B, c * d, 0 - ((x + 1) % B) * d);
  }

  lemma ComplementStep(B: int, x: int, q: int, s: int, q': int, t: int, d: int)
    requires x == q * B + s && x + 1 == q' * B + t
    ensures (B - 1 - s) * d == B * ((1 + q - q') * d) + (0 - t * d)
  {
    var c := 1 + q - q';
    assert c * B == B + q * B - q' * B;
    assert B - 1 - s == c * B - t;
    Scaled3(c, B, t, d);
  }

  lemma Scaled3(c: int, B: int, t: int, d: int)
    ensures (c * B - t) * d == B * (c * d) + (0 - t * d)
  {
    Associate(B, c, d);
  }

  /** udiv_rnnd_preinv for a low word known to be 0. */
  method UdivRnndPreinvZero(h: nat, nh: nat, d: nat, di: nat, inclusive: bool) returns (r: nat)
    requires 1 <= h && Normalised(WordBase(h), d) && nh <= d
    requires di == Inverse21(WordBase(h), d)
    ensures d != 0 && r == Double(WordBase(h), nh, 0) % d
  {
    hide *;
    var B := WordBase(h);
    WordBaseFacts(h);
    NormalisedRange(B, d);
    Inverse21IsWord(B, d);
    var p1, ql := UmulPpmm(h, nh, di);
    ghost var qh := (p1 + (nh + 1)) % B;
    HighWordOnly(B, p1, ql, nh, qh);
    ghost var q, candidate := Candidate21(B, nh, 0, d, di, p1, ql, qh, ql);
    ModRange(p1 + nh, B);
    r := ((B - 1 - (p1 + nh) % B) * d) % B;
    ComplementProduct(B, p1 + nh, d);
    var dec := if inclusive then r >= ql else r > ql;
    FirstCorrection(B, d, ql, candidate, dec);
    NoFalseCorrection(B, d, ql, candidate, dec);
    MaskedCorrection(h, d, nh * B + 0, q, candidate, dec);
    var mask := Neg(2 * h, if dec then 1 else 0);
    r := (r + And(mask, d)) % B;
    DoubleValue(B, nh, 0);
    RemainderOnly(nh * B + 0, d, q - if dec then 1 else 0, r);
  }
}

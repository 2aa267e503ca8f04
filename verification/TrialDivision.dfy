/**
 isprime of lib/gmp/bootstrap.c, and the test for divisibility without a division that
 the pairs of lib/gmp/gen-trialdivtab.c are made for.
 */
module TrialDivision {
  import opened Limbs
  import opened Primes

  // ---------- isprime ----------

  /** The mask for t < 32. */
  predicate SmallPrime(t: nat) {
    Shr(0xa08a28ac, t) % 2 == 1
  }

  predicate ListedPrime(t: nat) {
    t in {2, 3, 5, 7, 11, 13, 17} || t in {19, 23, 29, 31}
  }

  /** From t on, the bits of x say which numbers are listed. */
  predicate MaskAgrees(x: nat, t: nat)
    requires t <= 32
    decreases 32 - t
  {
    t == 32 || ((x % 2 == 1 <==> ListedPrime(t)) && MaskAgrees(x / 2, t + 1))
  }

  lemma MaskFour(x: nat, t: nat)
    requires t + 4 <= 32 && MaskAgrees(x / 16, t + 4)
    requires (x % 2 == 1 <==> ListedPrime(t)) && (x / 2 % 2 == 1 <==> ListedPrime(t + 1))
    requires (x / 4 % 2 == 1 <==> ListedPrime(t + 2)) && (x / 8 % 2 == 1 <==> ListedPrime(t + 3))
    ensures MaskAgrees(x, t)
  {
    hide ListedPrime;
    assert x / 8 / 2 == x / 16 && x / 4 / 2 == x / 8 && x / 2 / 2 == x / 4;
    assert MaskAgrees(x / 8, t + 3);
    assert MaskAgrees(x / 4, t + 2);
    assert MaskAgrees(x / 2, t + 1);
  }

  lemma MaskEnd()
    ensures MaskAgrees(0, 32)
  {
  }

  lemma MaskFrom16()
    ensures MaskAgrees(0xa08a, 16)
  {
    hide MaskAgrees;
    assert MaskAgrees(0, 32) by { MaskEnd(); }
    MaskFour(0xa, 28);
    MaskFour(0xa0, 24);
    MaskFour(0xa08, 20);
    MaskFour(0xa08a, 16);
  }

  lemma MaskRight()
    ensures MaskAgrees(0xa08a28ac, 0)
  {
    hide MaskAgrees;
    MaskFrom16();
    MaskFour(0xa08a2, 12);
    MaskFour(0xa08a28, 8);
    MaskFour(0xa08a28a, 4);
    MaskFour(0xa08a28ac, 0);
  }

  lemma {:induction false} MaskBit(x: nat, from: nat, t: nat)
    requires from <= t < 32 && MaskAgrees(x, from)
    ensures Shr(x, t - from) % 2 == 1 <==> ListedPrime(t)
    decreases t - from
  {
    hide ListedPrime;
    if from < t {
      MaskBit(x / 2, from + 1, t);
    }
  }

  /** Below 36 only multiples of 2, 3 and 5 need to be excluded. */
  lemma NoFactorBelowSix(t: nat)
    requires 7 <= t < 36
    ensures IsPrime(t) <==> t % 2 != 0 && t % 3 != 0 && t % 5 != 0
  {
    if t % 2 != 0 && t % 3 != 0 && t % 5 != 0 {
      assert t % 4 != 0;
      NoSmallFactor(t, 6);
    }
    FactorFound(t, 2);
    FactorFound(t, 3);
    FactorFound(t, 5);
  }

  lemma ListedIsPrime(t: nat)
    requires t < 32
    ensures ListedPrime(t) <==> IsPrime(t)
  {
    if 7 <= t {
      NoFactorBelowSix(t);
    } else {
      assert Divides(2, 4) && Divides(2, 6);
      assert !Divides(2, 3) && !Divides(2, 5) && !Divides(3, 5) && !Divides(4, 5);
    }
  }

  lemma SmallPrimeExact(t: nat)
    requires t < 32
    ensures SmallPrime(t) <==> IsPrime(t)
  {
    hide ListedPrime, MaskAgrees, IsPrime, Shr;
    MaskRight();
    MaskBit(0xa08a28ac, 0, t);
    ListedIsPrime(t);
  }

  /** No divisor from 2 up to, but not including, d. */
  ghost predicate NoDivisorBelow(t: nat, d: nat) {
    forall e | 2 <= e < d :: !Divides(e, t)
  }

  /** A multiple of k cannot divide t when k does not. */
  lemma MultipleOf(e: nat, k: nat, f: nat, t: nat)
    requires k != 0 && e == k * f && t % k != 0
    ensures !Divides(e, t)
  {
    DividesIntro(k, f, e);
    if Divides(e, t) {
      DividesTransitive(k, e, t);
    }
  }

  /** The numbers that the steps by 2 and 4 leave out are multiples of 2 or 3. */
  lemma StepByTwo(t: nat, d: nat, k: nat)
    requires t % 2 != 0 && d == 6 * k + 5 && NoDivisorBelow(t, d) && !Divides(d, t)
    ensures NoDivisorBelow(t, d + 2)
  {
    hide Divides;
    MultipleOf(d + 1, 2, 3 * k + 3, t);
  }

  lemma StepByFour(t: nat, d: nat, k: nat)
    requires t % 2 != 0 && t % 3 != 0 && d == 6 * k + 7 && NoDivisorBelow(t, d) && !Divides(d, t)
    ensures NoDivisorBelow(t, d + 4)
  {
    hide Divides;
    MultipleOf(d + 1, 2, 3 * k + 4, t);
    MultipleOf(d + 2, 3, 2 * k + 3, t);
    MultipleOf(d + 3, 2, 3 * k + 5, t);
  }

  lemma StartsAtEleven(t: nat)
    requires t % 2 != 0 && t % 3 != 0 && t % 5 != 0 && t % 7 != 0
    ensures NoDivisorBelow(t, 11)
  {
    hide Divides;
    MultipleOf(2, 2, 1, t);
    MultipleOf(3, 3, 1, t);
    MultipleOf(4, 2, 2, t);
    MultipleOf(5, 5, 1, t);
    MultipleOf(6, 2, 3, t);
    MultipleOf(7, 7, 1, t);
    MultipleOf(8, 2, 4, t);
    MultipleOf(9, 3, 3, t);
    MultipleOf(10, 2, 5, t);
  }

  /** What the quotient and remainder by d tell. */
  lemma TrialStep(t: nat, d: nat, q: int, r: int)
    requires 32 <= t && 11 <= d && q == t / d && r == t - q * d && NoDivisorBelow(t, d)
    ensures q < d ==> IsPrime(t)
    ensures q >= d ==> d <= t && (r == 0 <==> Divides(d, t)) && (r == 0 ==> !IsPrime(t))
  {
    assert t == d * q + t % d;
    if q < d {
      MulMonotone(q + 1, d, d, d);
      assert (q + 1) * d == q * d + d;
      NoSmallFactor(t, d);
    } else {
      MulMonotone(d, q, 11, d);
      if r == 0 {
        CompositeIntro(t, d, q);
      }
    }
  }

  method IsPrimeTest(t: nat) returns (prime: bool)
    ensures prime <==> IsPrime(t)
  {
    hide IsPrime, Divides, NoDivisorBelow, SmallPrime;
    if t < 32 {
      SmallPrimeExact(t);
      return SmallPrime(t);
    }
    FactorFound(t, 2);
    if t % 2 == 0 {
      return false;
    }
    FactorFound(t, 3);
    if t % 3 == 0 {
      return false;
    }
    FactorFound(t, 5);
    if t % 5 == 0 {
      return false;
    }
    FactorFound(t, 7);
    if t % 7 == 0 {
      return false;
    }
    StartsAtEleven(t);
    var d := 11;
    ghost var k: nat := 1;
    while true
      invariant d == 6 * k + 5 && 1 <= k && NoDivisorBelow(t, d)
      decreases t + 20 - d
    {
      var q := t / d;
      var r := t - q * d;
      TrialStep(t, d, q, r);
      if q < d {
        return true;
      }
      if r == 0 {
        break;
      }
      StepByTwo(t, d, k);
      d := d + 2;
      q := t / d;
      r := t - q * d;
      TrialStep(t, d, q, r);
      if q < d {
        return true;
      }
      if r == 0 {
        break;
      }
      StepByFour(t, d, k);
      d := d + 4;
      k := k + 1;
    }
    return false;
  }

  lemma FactorFound(t: nat, k: nat)
    requires 2 <= k < t
    ensures t % k == 0 ==> !IsPrime(t)
  {
    assert t % k == 0 ==> Divides(k, t);
  }

  // ---------- divisibility by multiplication ----------

  /** x * inv modulo B is at most floor((B - 1) / p) exactly when p divides x. */
  lemma DivisibilityTest(B: nat, p: nat, inv: nat, t: int, x: nat)
    requires 1 <= p && inv * p == 1 + B * t && x < B
    ensures (x * inv) % B <= (B - 1) / p <==> Divides(p, x)
  {
    var q, s := (x * inv) % B, (x * inv) / B;
    assert x * inv == B * s + q;
    if Divides(p, x) {
      var k := x / p;
      MultipleTested(B, p, inv, t, x, k);
      QuotientOrder(B, p, x, k);
    }
    if q <= (B - 1) / p {
      QuotientTimes(B - 1, p, q);
      TestedMultiple(B, p, inv, t, x, s, q);
      ModUnique(p * q, B, 0, p * q);
      ModUnique(p * q, B, x * t - s * p, x);
      DividesIntro(p, q, x);
    }
  }

  lemma MultipleTested(B: nat, p: nat, inv: nat, t: int, x: nat, k: nat)
    requires 1 <= p && inv * p == 1 + B * t && x < B && x == p * k
    ensures (x * inv) % B == k
  {
    assert (p * k) * inv == k * (inv * p);
    assert k * (1 + B * t) == B * (k * t) + k;
    MulMonotone(1, p, k, k);
    ModUnique(x * inv, B, k * t, k);
  }

  lemma QuotientOrder(B: nat, p: nat, x: nat, k: nat)
    requires 1 <= p && x < B && x == p * k
    ensures k <= (B - 1) / p
  {
    var m := (B - 1) / p;
    assert B - 1 == p * m + (B - 1) % p;
    assert p * (m + 1) == p * m + p;
    if m < k {
      MulMonotone(p, p, m + 1, k);
    }
  }

  lemma QuotientTimes(y: int, p: nat, q: nat)
    requires 1 <= p && 0 <= y && q <= y / p
    ensures p * q <= y
  {
    assert y == p * (y / p) + y % p;
    MulMonotone(p, p, q, y / p);
  }

  lemma TestedMultiple(B: nat, p: nat, inv: nat, t: int, x: nat, s: int, q: nat)
    requires inv * p == 1 + B * t && x * inv == B * s + q
    ensures p * q == B * (x * t - s * p) + x
  {
    assert (x * inv) * p == x * (inv * p);
    assert (B * s + q) * p == B * (s * p) + p * q;
    assert x * (1 + B * t) == x + B * (x * t);
    assert B * (x * t - s * p) == B * (x * t) - B * (s * p);
  }
}

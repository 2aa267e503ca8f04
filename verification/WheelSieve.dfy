/**
 The number theory behind the mod-6 wheel of lib/gmp/primesieve.c: bit b of the
 array stands for the number (3b+4)|1, so only numbers coprime to 6 have a bit.
 */
module WheelSieve {
  import opened Limbs
  import opened Primes

  /** id_to_n */
  function IdToN(id: nat): nat {
    id * 3 + 1 + id % 2
  }

  /** bit_to_n (b) = (b*3+4)|1, the number bit b stands for */
  function BitToN(b: nat): nat {
    IdToN(b + 1)
  }

  /** n_to_bit (n) = ((n-5)|1)/3, the last bit whose number is at most n */
  function NToBit(n: nat): nat
    requires 5 <= n
  {
    (n - 5 + 1 - (n - 5) % 2) / 3
  }

  predicate OnWheel(x: nat) {
    x % 6 == 1 || x % 6 == 5
  }

  lemma BitToNMonotone(b: nat, c: nat)
    ensures b < c <==> BitToN(b) < BitToN(c)
  {
  }

  lemma BitValues(t: nat)
    ensures BitToN(2 * t) == 6 * t + 5 && BitToN(2 * t + 1) == 6 * t + 7
    ensures NToBit(6 * t + 5) == 2 * t && NToBit(6 * t + 7) == 2 * t + 1
  {
    hide IdToN, NToBit;
    IndexValues(t);
    IndexValues(t + 1);
    NToBitValue(t, 0);
    NToBitValue(t, 2);
  }

  lemma IndexValues(k: nat)
    ensures IdToN(2 * k) == 6 * k + 1 && IdToN(2 * k + 1) == 6 * k + 5
  {
    ModOfSum(2, k, 0);
    ModOfSum(2, k, 1);
  }

  lemma NToBitValue(m: nat, r: nat)
    requires r < 6
    ensures NToBit(6 * m + 5 + r) == if r < 2 then 2 * m else 2 * m + 1
  {
    ModOfSum(2, 3 * m, r);
    var x := 6 * m + r + 1 - r % 2;
    ModUnique(x, 3, if r < 2 then 2 * m else 2 * m + 1, if r < 2 then 1 else if r < 4 then 0 else 2);
  }

  /** n_to_bit is the lower adjoint of bit_to_n. */
  lemma NToBitAdjoint(n: nat, b: nat)
    requires 5 <= n
    ensures b <= NToBit(n) <==> BitToN(b) <= n
  {
    hide *;
    var m, r := (n - 5) / 6, (n - 5) % 6;
    NToBitValue(m, r);
    BitValues(m);
    BitValues(m + 1);
    Sandwich(n, NToBit(n), b);
  }

  /** n_to_bit inverts bit_to_n on the wheel. */
  lemma NToBitOnWheel(n: nat)
    requires 5 <= n && OnWheel(n)
    ensures BitToN(NToBit(n)) == n
  {
    hide NToBit, BitToN, IdToN;
    var m, r := (n - 5) / 6, (n - 5) % 6;
    NToBitValue(m, r);
    BitValues(m);
    ModOfSum(6, m, 5 + r);
    assert r == 0 || r == 2;
  }

  lemma Sandwich(n: nat, c: nat, b: nat)
    requires BitToN(c) <= n < BitToN(c + 1)
    ensures b <= c <==> BitToN(b) <= n
  {
  }

  lemma NToBitOfBitToN(b: nat)
    ensures NToBit(BitToN(b)) == b
    ensures OnWheel(BitToN(b)) && 5 <= BitToN(b)
  {
    hide NToBit, BitToN, OnWheel;
    var k := b / 2;
    assert b == 2 * k || b == 2 * k + 1;
    BitValues(k);
    WheelForm(k);
  }

  lemma WheelForm(k: nat)
    ensures OnWheel(6 * k + 5) && OnWheel(6 * k + 7)
  {
    ModOfSum(6, k, 5);
    ModOfSum(6, k + 1, 1);
  }

  lemma WheelIsCoprimeToSix(x: nat)
    ensures OnWheel(x) <==> !Divides(2, x) && !Divides(3, x)
  {
    var k, r := x / 6, x % 6;
    assert x == 6 * k + r;
    ModOfSum(2, 3 * k, r);
    ModOfSum(3, 2 * k, r);
  }

  lemma PrimeOnWheel(p: nat)
    requires IsPrime(p) && 5 <= p
    ensures OnWheel(p)
  {
    assert !Divides(2, p) && !Divides(3, p);
    WheelIsCoprimeToSix(p);
  }

  /** Every prime from 5 on has an index. */
  lemma PrimeIndex(p: nat) returns (i: nat)
    requires IsPrime(p) && 5 <= p
    ensures 1 <= i && IdToN(i) == p
  {
    PrimeOnWheel(p);
    NToBitOnWheel(p);
    i := NToBit(p) + 1;
  }

  /** A divisor of a number on the wheel is on the wheel. */
  lemma DivisorOnWheel(d: nat, n: nat)
    requires Divides(d, n) && OnWheel(n)
    ensures OnWheel(d)
  {
    WheelIsCoprimeToSix(n);
    WheelIsCoprimeToSix(d);
    if Divides(2, d) {
      DividesTransitive(2, d, n);
    } else if Divides(3, d) {
      DividesTransitive(3, d, n);
    }
  }

  /** The closed form for the first multiple struck for i: i*(step+1)-1+(-(i&1)&(i+1)). */
  function FirstStrike(i: nat): nat
    requires 1 <= i
  {
    i * (IdToN(i) + 1) - 1 + (if i % 2 == 1 then i + 1 else 0)
  }

  /** The closed form for the other residue class: i*(i*3+6)+(i&1). */
  function SecondStrike(i: nat): nat
  {
    i * (i * 3 + 6) + i % 2
  }

  lemma FirstStrikeIsSquare(i: nat)
    requires 1 <= i
    ensures BitToN(FirstStrike(i)) == IdToN(i) * IdToN(i)
    ensures NToBit(IdToN(i) * IdToN(i)) == FirstStrike(i)
  {
    hide *;
    var k := i / 2;
    if i % 2 == 1 {
      assert i == 2 * k + 1;
      FirstStrikeOdd(k);
    } else {
      assert i == 2 * k;
      FirstStrikeEven(k);
    }
    NToBitOfBitToN(FirstStrike(i));
  }

  lemma FirstStrikeOdd(k: nat)
    ensures BitToN(FirstStrike(2 * k + 1)) == IdToN(2 * k + 1) * IdToN(2 * k + 1)
  {
    hide *;
    var t := 6 * (k * k) + 10 * k + 3;
    FirstStrikeOddValue(k);
    IndexValues(k);
    BitValues(t);
    Expand(IdToN(2 * k + 1), IdToN(2 * k + 1), k, 5, 5);
  }

  lemma FirstStrikeOddValue(k: nat)
    ensures FirstStrike(2 * k + 1) == 12 * (k * k) + 20 * k + 7
  {
    IndexValues(k);
    ExpandOdd(2 * k + 1, IdToN(2 * k + 1) + 1, k, 6);
  }

  lemma FirstStrikeEven(k: nat)
    requires 1 <= k
    ensures BitToN(FirstStrike(2 * k)) == IdToN(2 * k) * IdToN(2 * k)
  {
    hide *;
    var t := 6 * (k * k) + 2 * k - 1;
    FirstStrikeEvenValue(k);
    IndexValues(k);
    BitValues(t);
    Expand(IdToN(2 * k), IdToN(2 * k), k, 1, 1);
  }

  lemma FirstStrikeEvenValue(k: nat)
    requires 1 <= k
    ensures FirstStrike(2 * k) == 12 * (k * k) + 4 * k - 1
  {
    IndexValues(k);
    ExpandEven(2 * k, IdToN(2 * k) + 1, k, 2);
  }

  lemma Expand(x: int, y: int, k: int, a: int, b: int)
    requires x == 6 * k + a && y == 6 * k + b
    ensures x * y == 36 * (k * k) + 6 * (a + b) * k + a * b
  {
    calc {
      x * y;
      6 * k * (6 * k + b) + a * (6 * k + b);
      36 * (k * k) + 6 * k * b + (6 * k * a + a * b);
    }
  }

  lemma ExpandOdd(x: int, y: int, k: int, b: int)
    requires x == 2 * k + 1 && y == 6 * k + b
    ensures x * y == 12 * (k * k) + 2 * b * k + 6 * k + b
  {
  }

  lemma ExpandEven(x: int, y: int, k: int, b: int)
    requires x == 2 * k && y == 6 * k + b
    ensures x * y == 12 * (k * k) + 2 * b * k
  {
  }

  lemma SecondStrikeIsProduct(i: nat)
    requires 1 <= i
    ensures BitToN(SecondStrike(i)) == IdToN(i) * BitToN(i)
    ensures NToBit(IdToN(i) * BitToN(i)) == SecondStrike(i)
  {
    hide *;
    var k := i / 2;
    if i % 2 == 1 {
      assert i == 2 * k + 1;
      SecondStrikeOdd(k);
    } else {
      assert i == 2 * k;
      SecondStrikeEven(k);
    }
    NToBitOfBitToN(SecondStrike(i));
  }

  lemma SecondStrikeOdd(k: nat)
    ensures BitToN(SecondStrike(2 * k + 1)) == IdToN(2 * k + 1) * BitToN(2 * k + 1)
  {
    hide *;
    var t := 6 * (k * k) + 12 * k + 5;
    SecondStrikeOddValue(k);
    IndexValues(k);
    BitValues(k);
    BitValues(t);
    Expand(IdToN(2 * k + 1), BitToN(2 * k + 1), k, 5, 7);
  }

  lemma SecondStrikeOddValue(k: nat)
    ensures SecondStrike(2 * k + 1) == 12 * (k * k) + 24 * k + 10
  {
    ExpandOdd(2 * k + 1, (2 * k + 1) * 3 + 6, k, 9);
  }

  lemma SecondStrikeEven(k: nat)
    ensures BitToN(SecondStrike(2 * k)) == IdToN(2 * k) * BitToN(2 * k)
  {
    hide *;
    var t := 6 * (k * k) + 6 * k;
    SecondStrikeEvenValue(k);
    IndexValues(k);
    BitValues(k);
    BitValues(t);
    Expand(IdToN(2 * k), BitToN(2 * k), k, 1, 5);
  }

  lemma SecondStrikeEvenValue(k: nat)
    ensures SecondStrike(2 * k) == 12 * (k * k) + 12 * k
  {
    ExpandEven(2 * k, 2 * k * 3 + 6, k, 6);
  }

  lemma StrikesIncrease(i: nat)
    requires 1 <= i
    ensures FirstStrike(i) < SecondStrike(i) < FirstStrike(i + 1)
  {
    FirstStrikeIsSquare(i);
    SecondStrikeIsProduct(i);
    FirstStrikeIsSquare(i + 1);
    ProductsIncrease(IdToN(i), BitToN(i));
    BitToNMonotone(FirstStrike(i), SecondStrike(i));
    BitToNMonotone(SecondStrike(i), FirstStrike(i + 1));
  }

  lemma ProductsIncrease(p: nat, q: nat)
    requires 1 <= p < q
    ensures p * p < p * q < q * q
  {
    assert p * (q - p) >= 1;
    assert q * (q - p) >= 1;
  }

  lemma {:induction false} FirstStrikeMonotone(i: nat, j: nat)
    requires 1 <= i <= j
    ensures FirstStrike(i) <= FirstStrike(j)
  {
    if i < j {
      FirstStrikeMonotone(i, j - 1);
      StrikesIncrease(j - 1);
    }
  }

  /** x lies on the arithmetic progression start, start + step, ... */
  predicate OnProgression(start: nat, step: nat, x: int) {
    step != 0 && start <= x && (x - start) % step == 0
  }

  /** The number of bit b is a multiple p * q, with q >= p, of the number p of index i. */
  predicate Struck(i: nat, b: nat) {
    Divides(IdToN(i), BitToN(b)) && IdToN(i) * IdToN(i) <= BitToN(b)
  }

  lemma StruckComposite(i: nat, b: nat)
    requires 1 <= i && Struck(i, b)
    ensures !IsPrime(BitToN(b))
  {
    CofactorBound(IdToN(i), BitToN(b));
    CompositeIntro(BitToN(b), IdToN(i), BitToN(b) / IdToN(i));
  }

  lemma CofactorBound(p: nat, n: nat)
    requires Divides(p, n) && p * p <= n
    ensures n == p * (n / p) && p <= n / p
  {
    var q := n / p;
    if q < p {
      MulMonotone(p, p, q + 1, p);
      assert false;
    }
  }

  lemma StepOnWheel(b: nat, t: nat)
    ensures BitToN(b + 2 * t) == BitToN(b) + 6 * t
  {
  }

  /** The two progressions with step 2p strike exactly the multiples p * q with q >= p. */
  lemma StruckIsProgression(i: nat, b: nat)
    requires 1 <= i
    ensures Struck(i, b) <==>
            OnProgression(FirstStrike(i), 2 * IdToN(i), b) || OnProgression(SecondStrike(i), 2 * IdToN(i), b)
  {
    FirstStrikeIsSquare(i);
    SecondStrikeIsProduct(i);
    if Struck(i, b) {
      StruckOnProgression(i, b);
    }
    if OnProgression(FirstStrike(i), 2 * IdToN(i), b) {
      ProgressionStruck(i, IdToN(i), FirstStrike(i), b);
    }
    if OnProgression(SecondStrike(i), 2 * IdToN(i), b) {
      ProgressionStruck(i, BitToN(i), SecondStrike(i), b);
    }
  }

  lemma ProgressionStruck(i: nat, q: nat, start: nat, b: nat)
    requires 1 <= i && IdToN(i) <= q && BitToN(start) == IdToN(i) * q
    requires OnProgression(start, 2 * IdToN(i), b)
    ensures Struck(i, b)
  {
    hide OnProgression, IdToN, BitToN, Divides;
    IndexPositive(i);
    var p := IdToN(i);
    var k := StepsUp(p, start, b);
    StepOnWheel(start, p * k);
    assert p * (q + 6 * k) == p * q + 6 * (p * k);
    DividesIntro(p, q + 6 * k, BitToN(b));
    MulMonotone(p, p, p, q + 6 * k);
  }

  /** How many steps of 2p lead from the start to b. */
  lemma StepsUp(p: nat, start: nat, b: nat) returns (k: nat)
    requires 1 <= p && OnProgression(start, 2 * p, b)
    ensures b == start + 2 * (p * k)
  {
    var d, t := 2 * p, b - start;
    var q := t / d;
    assert t == d * q && 0 <= q;
    assert d * q == 2 * (p * q);
    k := q;
  }

  lemma StruckOnProgression(i: nat, b: nat)
    requires 1 <= i && Struck(i, b)
    ensures OnProgression(FirstStrike(i), 2 * IdToN(i), b) || OnProgression(SecondStrike(i), 2 * IdToN(i), b)
  {
    hide OnProgression, IdToN, BitToN, OnWheel, FirstStrike, SecondStrike;
    var p, n := IdToN(i), BitToN(b);
    var q := n / p;
    IndexPositive(i);
    CofactorBound(p, n);
    NToBitOfBitToN(b);
    DividesIntro(q, p, n);
    DivisorOnWheel(q, n);
    assert p * q == n;
    var k := NextOnWheel(i, q);
    if q == p + 6 * k {
      FirstStrikeIsSquare(i);
      ProgressionMember(p, p, FirstStrike(i), b, k);
    } else {
      SecondStrikeIsProduct(i);
      ProgressionMember(p, BitToN(i), SecondStrike(i), b, k);
    }
  }

  lemma IndexPositive(i: nat)
    requires 1 <= i
    ensures 5 <= IdToN(i)
  {
  }

  /** From IdToN(i) on, the numbers on the wheel are IdToN(i) + 6k and BitToN(i) + 6k. */
  lemma NextOnWheel(i: nat, q: nat) returns (k: nat)
    requires 1 <= i && OnWheel(q) && IdToN(i) <= q
    ensures q == IdToN(i) + 6 * k || q == BitToN(i) + 6 * k
  {
    var h, m := i / 2, q / 6;
    IndexValues(h);
    if i % 2 == 1 {
      assert i == 2 * h + 1;
      BitValues(h);
      if q % 6 == 1 {
        k := m - h - 1;
      } else {
        k := m - h;
      }
    } else {
      assert i == 2 * h;
      IndexValues(h);
      k := m - h;
    }
  }

  lemma ProgressionMember(p: nat, r: nat, start: nat, b: nat, k: nat)
    requires 1 <= p && BitToN(start) == p * r && BitToN(b) == p * (r + 6 * k)
    ensures OnProgression(start, 2 * p, b)
  {
    hide BitToN;
    var t := p * k;
    assert p * (r + 6 * k) == p * r + 6 * t;
    StepOnWheel(start, t);
    BitToNMonotone(b, start + 2 * t);
    BitToNMonotone(start + 2 * t, b);
    assert 2 * t == (2 * p) * k;
    ModUnique(b - start, 2 * p, k, 0);
  }

  /**
   A composite number with a bit is struck for the index of its least prime factor,
   whose own first strike is not after the number.
   */
  lemma CompositeIsStruck(b: nat) returns (i: nat)
    requires !IsPrime(BitToN(b))
    ensures 1 <= i && IsPrime(IdToN(i)) && Struck(i, b) && FirstStrike(i) <= b
    ensures IdToN(i) * IdToN(i) <= BitToN(b)
  {
    var n := BitToN(b);
    NToBitOfBitToN(b);
    var p := LeastFactor(n, 2);
    DivisorOnWheel(p, n);
    assert p != 2 && p != 3 && p != 4 && 5 <= p;
    i := PrimeIndex(p);
    FirstStrikeIsSquare(i);
    BitToNMonotone(b, FirstStrike(i));
  }

  /**
   Among the numbers with a bit up to `bits` there is a prime whose square is beyond
   them: the reason why the sieve's endless loop over the indices ends.
   */
  lemma StoppingPrime(bits: nat) returns (i: nat)
    requires 7 <= bits
    ensures 1 <= i <= bits + 1 && IsPrime(IdToN(i)) && bits < FirstStrike(i)
  {
    var m := BitToN(bits);
    var p := PrimeAboveSqrt(m);
    assert 25 <= m;
    assert 5 <= p by {
      if p < 5 {
        MulMonotone(p, 4, p, 4);
        assert false;
      }
    }
    i := PrimeIndex(p);
    FirstStrikeIsSquare(i);
    BitToNMonotone(bits, FirstStrike(i));
    BitToNMonotone(bits, i - 1);
  }
}

/** lib/gmp/primesieve.c: the bit-packed, segmented sieve on the mod-6 wheel. */
module Primesieve {
  import opened Limbs
  import opened Primes
  import opened WheelSieve

  const BLOCK_SIZE: nat := 2048

  /** GMP_LIMB_BITS is a power of two, at least 4. */
  ghost predicate LimbBits(w: nat) {
    exists e: nat :: 2 <= e && w == Pow2(e)
  }

  ghost predicate Words(w: nat, s: seq<nat>) {
    forall k | 0 <= k < |s| :: s[k] < Pow2(w)
  }

  /** Bit b of the array, counted across limbs. */
  predicate Marked(w: nat, s: seq<nat>, b: nat)
    requires 0 < w
  {
    b / w < |s| && Bit(s[b / w], b % w)
  }

  // ---------- limbs and bit positions ----------

  lemma LimbOfBit(w: nat, base: nat, l: nat)
    requires 0 < w
    ensures (base * w + l) / w == base + l / w && (base * w + l) % w == l % w
  {
    assert base * w + l == w * (base + l / w) + l % w;
    ModUnique(base * w + l, w, base + l / w, l % w);
  }

  lemma LimbBound(w: nat, b: nat, limbs: nat)
    requires 0 < w
    ensures b < limbs * w <==> b / w < limbs
  {
    assert b == w * (b / w) + b % w;
    if b / w < limbs {
      MulMonotone(b / w + 1, limbs, w, w);
    } else {
      MulMonotone(limbs, b / w, w, w);
    }
  }

  lemma SamePosition(w: nat, b: nat, c: nat)
    requires 0 < w && b / w == c / w && b % w == c % w
    ensures b == c
  {
    assert b == w * (b / w) + b % w;
    assert c == w * (c / w) + c % w;
  }

  /** Or-ing a one-bit mask into the right limb marks exactly that bit. */
  lemma MarkOneBit(w: nat, s: seq<nat>, base: nat, l: nat, s': seq<nat>, b: nat)
    requires 0 < w && base + l / w < |s|
    requires s' == s[base + l / w := Or(s[base + l / w], Pow2(l % w))]
    ensures Marked(w, s', b) <==> Marked(w, s, b) || b == base * w + l
  {
    LimbOfBit(w, base, l);
    MarkAt(w, s, base * w + l, s', b);
  }

  lemma MarkAt(w: nat, s: seq<nat>, c: nat, s': seq<nat>, b: nat)
    requires 0 < w && c / w < |s| && s' == s[c / w := Or(s[c / w], Pow2(c % w))]
    ensures Marked(w, s', b) <==> Marked(w, s, b) || b == c
  {
    hide Or, Bit, Pow2;
    if b / w == c / w {
      BitOfOr(s[c / w], Pow2(c % w), b % w);
      BitOfPow2(c % w, b % w);
      if b % w == c % w {
        SamePosition(w, b, c);
      }
    } else {
      assert b != c;
      assert b / w < |s| ==> s'[b / w] == s[b / w];
    }
  }

  lemma WordsUpdate(w: nat, s: seq<nat>, k: nat, x: nat)
    requires Words(w, s) && k < |s| && x < Pow2(w)
    ensures Words(w, s[k := Or(s[k], x)])
  {
    OrIsWord(w, s[k], x);
  }

  // ---------- striking out a progression ----------

  lemma ProgressionNext(start: nat, step: nat, l: nat, x: int)
    requires OnProgression(start, step, l) && l <= x < l + step
    ensures OnProgression(start, step, l + step)
    ensures OnProgression(start, step, x) <==> x == l
  {
    var q := (l - start) / step;
    assert l - start == step * q;
    assert l + step - start == step * (q + 1);
    ModUnique(l + step - start, step, q + 1, 0);
    ModUnique(x - start, step, q, x - l);
  }

  lemma AdvanceMask(w: nat, l: nat, step: nat)
    requires 0 < w && 0 < step % w
    ensures RotateLeft(w, Pow2(l % w), step % w) == Pow2((l + step) % w)
  {
    hide Pow2, RotateLeft;
    RotateMask(w, l % w, step % w);
    RemainderOfSum(w, l, step);
  }

  lemma RemainderOfSum(w: nat, a: nat, b: nat)
    requires 0 < w
    ensures (a % w + b % w) % w == (a + b) % w
  {
    var qa, ra, qb, rb := a / w, a % w, b / w, b % w;
    assert a == w * qa + ra;
    assert b == w * qb + rb;
    SumOfMultiples(w, qa, ra, qb, rb, a + b);
  }

  lemma SumOfMultiples(w: nat, qa: int, ra: int, qb: int, rb: int, x: int)
    requires 0 < w && x == w * qa + ra + w * qb + rb
    ensures (ra + rb) % w == x % w
  {
    assert w * (qa + qb) == w * qa + w * qb;
    ModOfSum(w, qa + qb, ra + rb);
  }

  lemma InitialMask(w: nat, l: nat)
    requires 0 < w
    ensures Shl(w, 1, l % w) == Pow2(l % w) < Pow2(w)
  {
    Pow2Monotone(l % w + 1, w);
    ModUnique(Pow2(l % w), Pow2(w), 0, Pow2(l % w));
  }

  /** s is `before` with the progression marked in bits base*w .. base*w+bits, as far as `upto`. */
  ghost predicate StruckUpTo(w: nat, before: seq<nat>, s: seq<nat>, base: nat, start: nat, step: nat, bits: nat, upto: int)
    requires 0 < w
  {
    forall b: nat {:trigger Marked(w, s, b)} ::
      Marked(w, s, b) <==>
      Marked(w, before, b) ||
      (base * w <= b <= base * w + bits && b - base * w < upto && OnProgression(start, step, b - base * w))
  }

  lemma StrikeStep(w: nat, before: seq<nat>, s: seq<nat>, s': seq<nat>, base: nat, start: nat, step: nat, bits: nat, l: nat)
    requires 0 < w && 0 < step && OnProgression(start, step, l) && l <= bits
    requires base + l / w < |s| && s' == s[base + l / w := Or(s[base + l / w], Pow2(l % w))]
    requires StruckUpTo(w, before, s, base, start, step, bits, l)
    ensures StruckUpTo(w, before, s', base, start, step, bits, l + step)
  {
    hide Marked, OnProgression, Or, Pow2;
    var origin := base * w;
    forall b: nat
      ensures Marked(w, s', b) <==>
              Marked(w, before, b) ||
              (origin <= b <= origin + bits && b - origin < l + step && OnProgression(start, step, b - origin))
    {
      MarkOneBit(w, s, base, l, s', b);
      if l <= b - origin < l + step {
        ProgressionNext(start, step, l, b - origin);
      }
    }
  }

  /**
   The word-level inner loop that both sieving functions contain twice: or a rotating
   one-bit mask into every step-th bit position of the bits base*w .. base*w+bits.
   */
  method StrikeProgression(w: nat, a: array<nat>, base: nat, start: nat, step: nat, bits: nat)
    requires 0 < w && 0 < step % w
    requires base + bits / w < a.Length
    requires Words(w, a[..])
    modifies a
    ensures Words(w, a[..])
    ensures StruckUpTo(w, old(a[..]), a[..], base, start, step, bits, bits + 1)
    ensures a[..base] == old(a[..base])
  {
    hide Marked, Or, Pow2, Shl, RotateLeft, Words;
    ghost var before := a[..];
    var lindex := start;
    var maskrot := step % w;
    InitialMask(w, lindex);
    var lmask := Shl(w, 1, lindex % w);
    StepPositive(w, step);
    ModUnique(0, step, 0, 0);
    while lindex <= bits
      invariant OnProgression(start, step, lindex)
      invariant lmask == Pow2(lindex % w)
      invariant Words(w, a[..])
      invariant StruckUpTo(w, before, a[..], base, start, step, bits, lindex)
      invariant a[..base] == before[..base]
      decreases bits + step - lindex
    {
      ghost var s := a[..];
      var k := LimbIndex(w, base, lindex, bits);
      InitialMask(w, lindex);
      WordsUpdate(w, s, k, lmask);
      a[k] := Or(a[k], lmask);
      assert a[..] == s[k := Or(s[k], Pow2(lindex % w))];
      assert a[..base] == s[..base];
      StrikeStep(w, before, s, a[..], base, start, step, bits, lindex);
      AdvanceMask(w, lindex, step);
      ProgressionNext(start, step, lindex, lindex);
      lmask := RotateLeft(w, lmask, maskrot);
      lindex := lindex + step;
    }
  }

  function LimbIndex(w: nat, base: nat, b: nat, c: nat): (k: nat)
    requires 0 < w && b <= c
    ensures base <= k == base + b / w <= base + c / w
  {
    LimbMonotone(w, b, c);
    base + b / w
  }

  lemma StepPositive(w: nat, step: nat)
    requires 0 < w && 0 < step % w
    ensures 0 < step
  {
  }

  lemma LimbMonotone(w: nat, b: nat, c: nat)
    requires 0 < w && b <= c
    ensures 0 <= b / w <= c / w
  {
    LimbBound(w, b, c / w + 1);
    LimbBound(w, c, c / w + 1);
  }

  // ---------- what a partly sieved region satisfies ----------

  /** Only composite numbers are marked. */
  ghost predicate Sound(w: nat, s: seq<nat>, lo: nat, hi: nat)
    requires 0 < w
  {
    forall b: nat {:trigger Marked(w, s, b)} | lo <= b <= hi && Marked(w, s, b) :: !IsPrime(BitToN(b))
  }

  /** All multiples of the primes with index below i, from their squares on, are marked. */
  ghost predicate StruckBelow(w: nat, s: seq<nat>, lo: nat, hi: nat, i: nat)
    requires 0 < w
  {
    forall j: nat, b: nat {:trigger Struck(j, b)} |
      1 <= j < i && lo <= b <= hi && IsPrime(IdToN(j)) && Struck(j, b) :: Marked(w, s, b)
  }

  /** The characteristic function of composites. */
  ghost predicate Sieved(w: nat, s: seq<nat>, lo: nat, hi: nat)
    requires 0 < w
  {
    forall b: nat {:trigger Marked(w, s, b)} | lo <= b <= hi :: Marked(w, s, b) <==> !IsPrime(BitToN(b))
  }

  /** Sieving is complete when every index whose first strike is in range has been processed. */
  lemma SievingComplete(w: nat, s: seq<nat>, lo: nat, hi: nat, i: nat)
    requires 0 < w && Sound(w, s, lo, hi) && StruckBelow(w, s, lo, hi, i)
    requires forall j: nat | 1 <= j && FirstStrike(j) <= hi :: j < i
    ensures Sieved(w, s, lo, hi)
  {
    hide Marked, IdToN, BitToN, Struck, FirstStrike, IsPrime;
    forall b: nat | lo <= b <= hi && !IsPrime(BitToN(b))
      ensures Marked(w, s, b)
    {
      var j := CompositeIsStruck(b);
    }
  }

  /** A start index relative to bit lo enumerates the same progression as the absolute one. */
  ghost predicate SameProgression(start: nat, first: nat, step: nat, lo: nat) {
    forall x: nat {:trigger OnProgression(start, step, x)} ::
      OnProgression(start, step, x) <==> OnProgression(first, step, lo + x)
  }

  /** The two inner loops for index i extend the sieved state from i to i + 1. */
  lemma StrikesForIndex(w: nat, s0: seq<nat>, s1: seq<nat>, s2: seq<nat>, base: nat, bits: nat,
                        start1: nat, start2: nat, i: nat)
    requires 0 < w && 1 <= i
    requires StruckUpTo(w, s0, s1, base, start1, 2 * IdToN(i), bits, bits + 1)
    requires StruckUpTo(w, s1, s2, base, start2, 2 * IdToN(i), bits, bits + 1)
    requires SameProgression(start1, FirstStrike(i), 2 * IdToN(i), base * w)
    requires SameProgression(start2, SecondStrike(i), 2 * IdToN(i), base * w)
    requires Sound(w, s0, base * w, base * w + bits) && StruckBelow(w, s0, base * w, base * w + bits, i)
    ensures Sound(w, s2, base * w, base * w + bits) && StruckBelow(w, s2, base * w, base * w + bits, i + 1)
  {
    hide Marked, OnProgression, IdToN, BitToN, Struck, FirstStrike, SecondStrike, IsPrime;
    var lo := base * w;
    forall b: nat | lo <= b <= lo + bits
      ensures Marked(w, s2, b) <==> Marked(w, s0, b) || Struck(i, b)
      ensures Struck(i, b) ==> !IsPrime(BitToN(b))
    {
      StruckIsProgression(i, b);
      assert OnProgression(start1, 2 * IdToN(i), b - lo) <==> OnProgression(FirstStrike(i), 2 * IdToN(i), lo + (b - lo));
      assert OnProgression(start2, 2 * IdToN(i), b - lo) <==> OnProgression(SecondStrike(i), 2 * IdToN(i), lo + (b - lo));
      assert Marked(w, s1, b) <==> Marked(w, s0, b) || OnProgression(start1, 2 * IdToN(i), b - lo);
      if Struck(i, b) {
        StruckComposite(i, b);
      }
    }
  }

  /** A composite index needs no strikes: its bit is set because it is not prime. */
  lemma SkipIndex(w: nat, s: seq<nat>, lo: nat, hi: nat, i: nat)
    requires 0 < w && 1 <= i && StruckBelow(w, s, lo, hi, i) && !IsPrime(IdToN(i))
    ensures StruckBelow(w, s, lo, hi, i + 1)
  {
  }

  // ---------- initialisation ----------

  /** SIEVE_SEED for the given GMP_LIMB_BITS. */
  function SieveSeed(w: nat): nat {
    if w > 61 then 0x3294C9E069128480
    else if w > 30 then 0x69128480
    else if w > 15 then 0x8480
    else if w > 7 then 0x80
    else 0x0
  }

  /** SEED_LIMIT for the given GMP_LIMB_BITS. */
  function SeedLimit(w: nat): nat {
    if w > 61 then 202
    else if w > 30 then 114
    else if w > 15 then 54
    else if w > 7 then 34
    else 24
  }

  /** Compositeness of the numbers below 17 * 17 on the wheel, by trial division. */
  predicate SmallComposite(n: nat) {
    (n % 5 == 0 && n != 5) || (n % 7 == 0 && n != 7) || (n % 11 == 0 && n != 11) || (n % 13 == 0 && n != 13)
  }

  /** The seed's k lowest bits are right for the bits from b on, and it has no others. */
  predicate SeedAgrees(x: nat, b: nat, k: nat)
    decreases k
  {
    if k == 0 then x == 0
    else (x % 2 == 1 <==> SmallComposite(BitToN(b))) && SeedAgrees(x / 2, b + 1, k - 1)
  }

  lemma SmallCompositeRight(n: nat)
    requires OnWheel(n) && 5 <= n < 289
    ensures SmallComposite(n) <==> !IsPrime(n)
  {
    if !IsPrime(n) {
      var p := LeastFactor(n, 2);
      DivisorOnWheel(p, n);
      if 17 <= p {
        MulMonotone(17, p, 17, p);
        assert false;
      }
      assert p == 5 || p == 7 || p == 11 || p == 13;
      DivisorBound(p, n);
      if p == n {
        assert false;
      }
    } else {
      assert n != 5 ==> !Divides(5, n);
      assert n != 7 ==> !Divides(7, n);
      assert n != 11 ==> !Divides(11, n);
      assert n != 13 ==> !Divides(13, n);
    }
  }

  lemma {:induction false} SeedBit(x: nat, b: nat, k: nat, j: nat)
    requires SeedAgrees(x, b, k)
    ensures Bit(x, j) <==> j < k && SmallComposite(BitToN(b + j))
    decreases k
  {
    if k == 0 {
      BitOfZero(j);
    } else if j != 0 {
      SeedBit(x / 2, b + 1, k - 1, j - 1);
    }
  }

  lemma SeedEnd(b: nat)
    ensures SeedAgrees(0, b, 0)
  {
  }

  lemma SeedOneBit(y: nat, d: nat, b: nat, k: nat)
    requires SeedAgrees(y, b + 1, k) && d < 2
    requires d == 1 <==> SmallComposite(BitToN(b))
    ensures SeedAgrees(2 * y + d, b, k + 1)
  {
    hide SmallComposite, BitToN;
    var x := 2 * y + d;
    assert x / 2 == y && x % 2 == d;
  }

  /** One more hexadecimal digit v, for the four bits from 2t on. */
  lemma SeedNibble(y: nat, v: nat, t: nat, k: nat)
    requires SeedAgrees(y, 2 * t + 4, k) && v < 16
    requires v % 2 == 1 <==> SmallComposite(6 * t + 5)
    requires (v / 2) % 2 == 1 <==> SmallComposite(6 * t + 7)
    requires (v / 4) % 2 == 1 <==> SmallComposite(6 * t + 11)
    requires (v / 8) % 2 == 1 <==> SmallComposite(6 * t + 13)
    ensures SeedAgrees(16 * y + v, 2 * t, k + 4)
  {
    hide SmallComposite, BitToN, SeedAgrees;
    BitValues(t);
    BitValues(t + 1);
    var d0, d1, d2, d3 := v % 2, v / 2 % 2, v / 4 % 2, v / 8 % 2;
    FourBits(v);
    SeedOneBit(y, d3, 2 * t + 3, k);
    SeedOneBit(2 * y + d3, d2, 2 * t + 2, k + 1);
    SeedOneBit(4 * y + 2 * d3 + d2, d1, 2 * t + 1, k + 2);
    SeedOneBit(8 * y + 4 * d3 + 2 * d2 + d1, d0, 2 * t, k + 3);
  }

  lemma FourBits(v: nat)
    requires v < 16
    ensures 0 <= v % 2 < 2 && 0 <= v / 2 % 2 < 2 && 0 <= v / 4 % 2 < 2 && 0 <= v / 8 % 2 < 2
    ensures v == 8 * (v / 8 % 2) + 4 * (v / 4 % 2) + 2 * (v / 2 % 2) + v % 2
  {
  }

  /** The 64-bit seed, checked from the top. */
  lemma SeedTop()
    ensures SeedAgrees(0xCA5, 50, 16)
  {
    hide SeedAgrees;
    SeedEnd(66);
    SeedNibble(0x0, 0x0, 31, 0);
    SeedNibble(0x0, 0xC, 29, 4);
    SeedNibble(0xC, 0xA, 27, 8);
    SeedNibble(0xCA, 0x5, 25, 12);
  }

  lemma SeedUpperMiddle()
    ensures SeedAgrees(0xCA53278, 34, 32)
  {
    hide SeedAgrees;
    SeedTop();
    SeedNibble(0xCA5, 0x3, 23, 16);
    SeedNibble(0xCA53, 0x2, 21, 20);
    SeedNibble(0xCA532, 0x7, 19, 24);
    SeedNibble(0xCA5327, 0x8, 17, 28);
  }

  lemma SeedMiddle()
    ensures SeedAgrees(0xCA532781A, 26, 40)
  {
    hide SeedAgrees;
    SeedUpperMiddle();
    SeedNibble(0xCA53278, 0x1, 15, 32);
    SeedNibble(0xCA532781, 0xA, 13, 36);
  }

  lemma SeedLowerMiddle()
    ensures SeedAgrees(0xCA532781A44, 18, 48)
  {
    hide SeedAgrees;
    SeedMiddle();
    SeedNibble(0xCA532781A, 0x4, 11, 40);
    SeedNibble(0xCA532781A4, 0x4, 9, 44);
  }

  lemma SeedTable()
    ensures SeedAgrees(0x3294C9E069128480, 0, 66)
  {
    hide SeedAgrees;
    SeedLowerMiddle();
    SeedNibble(0xCA532781A44, 0xA, 7, 48);
    SeedNibble(0xCA532781A44A, 0x1, 5, 52);
    SeedNibble(0xCA532781A44A1, 0x2, 3, 56);
    SeedNibble(0xCA532781A44A12, 0x0, 1, 60);
    SeedOneBit(0xCA532781A44A120, 0, 1, 64);
    SeedOneBit(0x194A64F034894240, 0, 0, 65);
  }

  /** Between the end of a narrow limb and SEED_LIMIT there are only primes. */
  lemma PrimesAfterSeed(b: nat)
    requires 4 <= b <= 6 || 8 <= b <= 9 || b == 16 || 32 <= b <= 36 || 64 <= b <= 65
    ensures !SmallComposite(BitToN(b))
  {
    hide BitToN;
    BitValues(b / 2);
    NoneComposite();
  }

  lemma NoneComposite()
    ensures forall n | n in {17, 19, 23, 29, 31, 53, 101, 103, 107, 109, 113, 197, 199} :: !SmallComposite(n)
  {
  }

  /** The seeds are the low bits of the widest one. */
  lemma SeedTruncated(w: nat, b: nat) returns (v: nat)
    requires LimbBits(w)
    ensures v <= w && SieveSeed(w) < Pow2(w)
    ensures Bit(SieveSeed(w), b) <==> b < v && Bit(0x3294C9E069128480, b)
    ensures b < 66 && v <= b && BitToN(b) <= SeedLimit(w) ==> !SmallComposite(BitToN(b))
  {
    hide Bit, SmallComposite, Pow2, BitToN, SeedLimit;
    v := SeedWidth(w);
    WidthSteps(w, v);
    SmallPowers();
    Pow2Monotone(v, w);
    BitOfMod(0x3294C9E069128480, v, b);
    BetweenSeedAndLimit(w, b);
  }

  /** How many bits of the 64-bit seed the seed for w-bit limbs has. */
  function SeedWidth(w: nat): nat {
    if w > 61 then 64 else if w > 30 then 32 else if w > 15 then 16 else if w > 7 then 8 else 4
  }

  lemma BetweenSeedAndLimit(w: nat, b: nat)
    ensures b < 66 && SeedWidth(w) <= b && BitToN(b) <= SeedLimit(w) ==> !SmallComposite(BitToN(b))
  {
    hide SmallComposite, BitToN;
    var k := b / 2;
    assert b == 2 * k || b == 2 * k + 1;
    BitValues(k);
    if b < 66 && SeedWidth(w) <= b && BitToN(b) <= SeedLimit(w) {
      PrimesAfterSeed(b);
    }
  }

  lemma SmallPowers()
    ensures Pow2(4) == 0x10 && Pow2(8) == 0x100 && Pow2(16) == 0x1_0000
    ensures Pow2(32) == 0x1_0000_0000 && Pow2(64) == 0x1_0000_0000_0000_0000
  {
    FourthPower();
    hide Pow2;
    Pow2Add(4, 4);
    Pow2Add(8, 8);
    Pow2Add(16, 16);
    Pow2Add(32, 32);
  }

  lemma FourthPower()
    ensures Pow2(4) == 0x10
  {
  }

  /** The power-of-two widths hit the thresholds of the #if chain exactly. */
  lemma WidthSteps(w: nat, v: nat)
    requires LimbBits(w)
    requires v == SeedWidth(w)
    ensures v <= w
  {
    var e: nat :| 2 <= e && w == Pow2(e);
    assert Pow2(2) == 4 && Pow2(3) == 8 && Pow2(4) == 16 && Pow2(5) == 32 && Pow2(6) == 64;
    if e >= 6 {
      Pow2Monotone(6, e);
    }
  }

  /** The seed is a word; its bits are composites, and all of them up to SEED_LIMIT. */
  lemma SeedRight(w: nat)
    requires LimbBits(w)
    ensures SieveSeed(w) < Pow2(w)
    ensures forall b: nat {:trigger Bit(SieveSeed(w), b)} :: Bit(SieveSeed(w), b) ==> !IsPrime(BitToN(b))
    ensures forall b: nat {:trigger Bit(SieveSeed(w), b)} | BitToN(b) <= SeedLimit(w) ::
              Bit(SieveSeed(w), b) <==> !IsPrime(BitToN(b))
  {
    hide SeedAgrees, Bit, SmallComposite, IsPrime, SieveSeed, BitToN, SeedLimit, Pow2;
    SeedTable();
    forall b: nat
      ensures SieveSeed(w) < Pow2(w)
      ensures Bit(SieveSeed(w), b) ==> !IsPrime(BitToN(b))
      ensures BitToN(b) <= SeedLimit(w) ==> (Bit(SieveSeed(w), b) <==> !IsPrime(BitToN(b)))
    {
      var v := SeedTruncated(w, b);
      SeedBit(0x3294C9E069128480, 0, 66, b);
      NToBitOfBitToN(b);
      SeedRange(w, b);
      if b < 66 {
        SmallCompositeRight(BitToN(b));
      }
    }
    var _ := SeedTruncated(w, 0);
  }

  lemma SeedRange(w: nat, b: nat)
    ensures b < 66 ==> BitToN(b) < 289
    ensures BitToN(b) <= SeedLimit(w) ==> b < 66
  {
  }

  /** MPN_ZERO (bit_array + base, limbs). */
  method ZeroLimbs(w: nat, a: array<nat>, base: nat, limbs: nat)
    requires base + limbs <= a.Length && Words(w, a[..])
    modifies a
    ensures forall k | base <= k < base + limbs :: a[k] == 0
    ensures a[..base] == old(a[..base]) && a[base + limbs..] == old(a[base + limbs..])
    ensures Words(w, a[..])
  {
    for k := base to base + limbs
      invariant forall j | base <= j < k :: a[j] == 0
      invariant a[..base] == old(a[..base]) && a[base + limbs..] == old(a[base + limbs..])
      invariant Words(w, a[..])
    {
      a[k] := 0;
    }
  }

  lemma ZeroedUnmarked(w: nat, s: seq<nat>, base: nat, limbs: nat, b: nat)
    requires 0 < w && base + limbs <= |s| && forall k | base <= k < base + limbs :: s[k] == 0
    requires base * w <= b < (base + limbs) * w
    ensures !Marked(w, s, b)
  {
    LimbBound(w, b, base + limbs);
    LimbBound(w, b, base);
    BitOfZero(b % w);
  }

  /** Sets the bits after the last one that stands for a number up to n. */
  method MaskTail(w: nat, a: array<nat>, limbs: nat, bits: nat)
    requires 0 < w && limbs == bits / w + 1 <= a.Length && Words(w, a[..])
    modifies a
    ensures Words(w, a[..])
    ensures forall b: nat {:trigger Marked(w, a[..], b)} ::
              Marked(w, a[..], b) <==> Marked(w, old(a[..]), b) || bits < b < limbs * w
    ensures forall k | 0 <= k < a.Length && k != limbs - 1 :: a[k] == old(a[k])
  {
    hide Marked, Or, Shl, Words, Ones, Pow2;
    ghost var s := a[..];
    if (bits + 1) % w != 0 {
      var mask := Shl(w, Ones(w), (bits + 1) % w);
      ShlIsWord(w, Ones(w), (bits + 1) % w);
      WordsUpdate(w, s, limbs - 1, mask);
      a[limbs - 1] := Or(a[limbs - 1], mask);
      assert a[..] == s[limbs - 1 := Or(s[limbs - 1], mask)];
    }
    ghost var t := a[..];
    forall b: nat
      ensures Marked(w, t, b) <==> Marked(w, s, b) || bits < b < limbs * w
    {
      if (bits + 1) % w != 0 {
        TailBit(w, s, t, limbs, bits, b);
      } else {
        TailEmpty(w, limbs, bits, b);
      }
    }
  }

  lemma ShlIsWord(w: nat, x: nat, k: nat)
    ensures Shl(w, x, k) < Pow2(w)
  {
  }

  lemma TailEmpty(w: nat, limbs: nat, bits: nat, b: nat)
    requires 0 < w && limbs == bits / w + 1 && (bits + 1) % w == 0
    ensures !(bits < b < limbs * w)
  {
    LimbBound(w, b, limbs);
    LimbBound(w, bits, limbs);
    var q := (bits + 1) / w;
    assert bits + 1 == w * q;
    assert bits == w * (q - 1) + (w - 1);
    ModUnique(bits, w, q - 1, w - 1);
    LimbBound(w, b, q);
  }

  lemma TailPosition(w: nat, limbs: nat, bits: nat, b: nat)
    requires 0 < w && limbs == bits / w + 1 && (bits + 1) % w != 0
    ensures bits < b < limbs * w <==> b / w == limbs - 1 && (bits + 1) % w <= b % w
  {
    LimbBound(w, b, limbs);
    LimbBound(w, b, limbs - 1);
    NextInLimb(w, bits);
    DivOrder(w, b, bits);
  }

  lemma NextInLimb(w: nat, bits: nat)
    requires 0 < w && (bits + 1) % w != 0
    ensures (bits + 1) % w == bits % w + 1
  {
    var q, r := bits / w, bits % w;
    assert bits == w * q + r;
    if r + 1 == w {
      assert bits + 1 == w * (q + 1);
      ModUnique(bits + 1, w, q + 1, 0);
      assert false;
    }
    ModUnique(bits + 1, w, q, r + 1);
  }

  /** Bits are ordered by limb first, then by position. */
  lemma DivOrder(w: nat, b: nat, c: nat)
    requires 0 < w
    ensures c < b <==> c / w < b / w || (c / w == b / w && c % w < b % w)
  {
    LimbBound(w, c, b / w);
    LimbBound(w, b, c / w);
    assert b == w * (b / w) + b % w;
    assert c == w * (c / w) + c % w;
    assert (b / w) * w == w * (b / w) && (c / w) * w == w * (c / w);
  }

  lemma TailBit(w: nat, s: seq<nat>, s': seq<nat>, limbs: nat, bits: nat, b: nat)
    requires 0 < w && limbs == bits / w + 1 <= |s| && (bits + 1) % w != 0
    requires s' == s[limbs - 1 := Or(s[limbs - 1], Shl(w, Ones(w), (bits + 1) % w))]
    ensures Marked(w, s', b) <==> Marked(w, s, b) || bits < b < limbs * w
  {
    hide Or, Shl, Bit, Pow2, Ones, Marked;
    TailPosition(w, limbs, bits, b);
    TailLimb(w, s[limbs - 1], (bits + 1) % w, b % w);
    SetLimb(w, s, limbs - 1, s'[limbs - 1], b);
  }

  lemma SetLimb(w: nat, s: seq<nat>, k: nat, y: nat, b: nat)
    requires 0 < w && k < |s|
    ensures Marked(w, s[k := y], b) <==> if b / w == k then Bit(y, b % w) else Marked(w, s, b)
    ensures b / w == k ==> (Marked(w, s, b) <==> Bit(s[k], b % w))
  {
    hide Bit;
  }

  lemma TailLimb(w: nat, x: nat, r: nat, j: nat)
    requires j < w
    ensures Bit(Or(x, Shl(w, Ones(w), r)), j) <==> Bit(x, j) || r <= j
  {
    hide Or, Shl, Bit, Pow2, Ones;
    BitOfOr(x, Shl(w, Ones(w), r), j);
    BitOfShl(w, Ones(w), r, j);
    if r <= j {
      BitOfOnes(w, j - r);
    }
  }

  /** With only the seed in place, the marks are the seed's bits. */
  lemma SeedPlaced(w: nat, s: seq<nat>, limbs: nat, b: nat)
    requires LimbBits(w) && 1 <= limbs <= |s| && s[0] == SieveSeed(w) && (forall k | 1 <= k < limbs :: s[k] == 0)
    requires b < limbs * w
    ensures Marked(w, s, b) <==> Bit(SieveSeed(w), b)
  {
    hide SieveSeed, Bit;
    SeedRight(w);
    LimbBound(w, b, limbs);
    LimbBound(w, b, 1);
    if b < w {
      ModUnique(b, w, 0, b);
    } else {
      BitOfZero(b % w);
      BitAboveWord(SieveSeed(w), w, b);
    }
  }

  /** What the array holds after initialisation: all that small n needs, and a sound start otherwise. */
  lemma Initialised(w: nat, s0: seq<nat>, s: seq<nat>, limbs: nat, bits: nat)
    requires LimbBits(w) && limbs == bits / w + 1 <= |s0|
    requires s0[0] == SieveSeed(w) && (forall k | 1 <= k < limbs :: s0[k] == 0)
    requires forall b: nat {:trigger Marked(w, s, b)} :: Marked(w, s, b) <==> Marked(w, s0, b) || bits < b < limbs * w
    ensures Sound(w, s, 0, bits)
    ensures BitToN(bits) <= SeedLimit(w) ==> Sieved(w, s, 0, bits)
  {
    hide Marked, SieveSeed, SeedLimit, BitToN, IsPrime;
    SeedRight(w);
    forall b: nat | b <= bits
      ensures Marked(w, s, b) ==> !IsPrime(BitToN(b))
      ensures BitToN(bits) <= SeedLimit(w) ==> (Marked(w, s, b) <==> !IsPrime(BitToN(b)))
    {
      LimbBound(w, b, limbs);
      LimbMonotone(w, b, bits);
      SeedPlaced(w, s0, limbs, b);
      BitToNMonotone(bits, b);
    }
  }

  /** The rotate count (2 * IdToN(i)) % GMP_LIMB_BITS is never zero. */
  lemma RotateCountNonzero(w: nat, i: nat)
    requires LimbBits(w) && 1 <= i
    ensures 4 <= w && (2 * IdToN(i)) % w != 0
  {
    hide IdToN;
    var v := QuarterWidth(w);
    IdOdd(i);
    if (2 * IdToN(i)) % w == 0 {
      var q := (2 * IdToN(i)) / w;
      assert 2 * IdToN(i) == w * q;
      assert (4 * v) * q == 4 * (v * q);
      ModUnique(IdToN(i), 2, v * q, 0);
      assert false;
    }
  }

  lemma QuarterWidth(w: nat) returns (v: nat)
    requires LimbBits(w)
    ensures w == 4 * v && 1 <= v
  {
    var e: nat :| 2 <= e && w == Pow2(e);
    v := Pow2(e - 2);
    assert Pow2(e) == 2 * Pow2(e - 1) && Pow2(e - 1) == 2 * v;
  }

  lemma IdOdd(i: nat)
    requires 1 <= i
    ensures IdToN(i) % 2 == 1
  {
    hide IdToN;
    var k := i / 2;
    assert i == 2 * k || i == 2 * k + 1;
    IndexValues(k);
    ModOfSum(2, 3 * k, 1);
    ModOfSum(2, 3 * k + 2, 1);
  }

  /** Moving the test mask one bit on: rotate, and step to the next limb when it wraps. */
  lemma NextPosition(w: nat, b: nat)
    requires 2 <= w
    ensures RotateLeft(w, Pow2(b % w), 1) == Pow2((b + 1) % w)
    ensures b / w + And(Pow2((b + 1) % w), 1) == (b + 1) / w
  {
    hide RotateLeft, And, Pow2;
    var q, r := b / w, b % w;
    RotateMask(w, r, 1);
    ModUnique(r + 1, w, if r + 1 < w then 0 else 1, if r + 1 < w then r + 1 else 0);
    assert b + 1 == w * q + (r + 1);
    if r + 1 < w {
      ModUnique(b + 1, w, q, r + 1);
      LowMask(r + 1);
    } else {
      assert b + 1 == w * (q + 1);
      ModUnique(b + 1, w, q + 1, 0);
      LowMask(0);
    }
  }

  lemma LowMask(k: nat)
    ensures And(Pow2(k), 1) == if k == 0 then 1 else 0
  {
    if k != 0 {
      assert Pow2(k) == 2 * Pow2(k - 1);
      AndWithZero(Pow2(k - 1));
    }
  }

  /** The word expression i*(step+1)-1+(-(i&1)&(i+1)) is the closed form of the first strike. */
  lemma FirstStrikeExpression(w: nat, i: nat)
    requires 0 < w && 1 <= i && i + 1 < Pow2(w)
    ensures i * (IdToN(i) + 1) - 1 + And(Neg(w, i % 2), i + 1) == FirstStrike(i)
  {
    hide IdToN, And, Neg, Pow2;
    assert i % 2 == if i % 2 == 1 then 1 else 0;
    MaskSelects(w, i % 2 == 1, i + 1);
  }

  lemma FirstStrikesBelow(i: nat, hi: nat)
    requires 1 <= i && hi < FirstStrike(i)
    ensures forall j: nat | 1 <= j && FirstStrike(j) <= hi :: j < i
  {
    hide FirstStrike;
    forall j: nat | 1 <= j && FirstStrike(j) <= hi
      ensures j < i
    {
      if i <= j {
        FirstStrikeMonotone(i, j);
      }
    }
  }

  lemma TestMark(w: nat, s: seq<nat>, b: nat)
    requires 0 < w && b / w < |s|
    ensures And(s[b / w], Pow2(b % w)) == 0 <==> !Marked(w, s, b)
  {
    TestBit(s[b / w], b % w);
  }

  /** The block starts at the array's first limb, so relative and absolute bits agree. */
  lemma SameProgressionAtZero(first: nat, step: nat)
    ensures SameProgression(first, first, step, 0)
  {
  }

  lemma SecondStrikeExpression(i: nat)
    ensures i * (i * 3 + 6) + i % 2 == SecondStrike(i)
  {
  }

  lemma WordsSet(w: nat, s: seq<nat>, k: nat, x: nat)
    requires Words(w, s) && k < |s| && x < Pow2(w)
    ensures Words(w, s[k := x])
  {
  }

  lemma EnoughBits(n: nat)
    requires 5 <= n
    ensures 24 < n ==> 7 <= NToBit(n)
  {
    NToBitAdjoint(n, 7);
  }

  lemma IndexIsWord(i: nat, n: nat)
    requires 1 <= i && 5 <= n && i <= NToBit(n) + 1
    ensures i + 1 < n
  {
    hide NToBit;
    NToBitAdjoint(n, i - 1);
  }

  lemma StartPosition(w: nat)
    requires LimbBits(w)
    ensures Pow2(0 % w) == 1 && 0 / w == 0
  {
    ModUnique(0, w, 0, 0);
  }

  lemma NothingStruck(w: nat, s: seq<nat>, lo: nat, hi: nat)
    requires 0 < w
    ensures StruckBelow(w, s, lo, hi, 1)
  {
  }

  lemma StrikesOnlyAdd(w: nat, before: seq<nat>, s: seq<nat>, base: nat, start: nat, step: nat, bits: nat)
    requires 0 < w && StruckUpTo(w, before, s, base, start, step, bits, bits + 1)
    ensures forall b: nat {:trigger Marked(w, s, b)} | Marked(w, before, b) :: Marked(w, s, b)
  {
  }

  lemma MarkedNotPrime(w: nat, s: seq<nat>, lo: nat, hi: nat, i: nat)
    requires 0 < w && 1 <= i && lo <= i - 1 <= hi && Sound(w, s, lo, hi) && Marked(w, s, i - 1)
    ensures !IsPrime(IdToN(i))
  {
    assert BitToN(i - 1) == IdToN(i);
  }

  // ---------- first_block_primesieve ----------

  /** The loop is entered for n. */
  predicate LoopEntered(w: nat, n: nat) {
    SeedLimit(w) < n < Pow2(w)
  }

  /** ASSERT (n > 49) holds wherever the loop is entered, except for limbs of 8 bits, where 35 is the first n to fail. */
  lemma AssertedBound(w: nat)
    requires LimbBits(w)
    ensures (forall n: nat | LoopEntered(w, n) :: n > 49) <==> w != 8
  {
    assert Pow2(2) == 4 && Pow2(3) == 8 && Pow2(4) == 16 && Pow2(8) == 256;
    hide Pow2;
    var e: nat :| 2 <= e && w == Pow2(e);
    if w == 8 {
      assert LoopEntered(w, 35);
    } else if e == 2 {
      assert Pow2(w) == 16;
    } else {
      Pow2Monotone(4, e);
    }
  }

  method FirstBlockPrimesieve(w: nat, a: array<nat>, n: nat)
    requires LimbBits(w) && 5 <= n < Pow2(w)
    requires NToBit(n) / w + 1 <= a.Length && Words(w, a[..])
    modifies a
    ensures Words(w, a[..])
    ensures Sieved(w, a[..], 0, NToBit(n))
    ensures forall b: nat {:trigger Marked(w, a[..], b)} | NToBit(n) < b < (NToBit(n) / w + 1) * w :: Marked(w, a[..], b)
  {
    hide Marked, IdToN, NToBit, BitToN, FirstStrike, SecondStrike, OnProgression, StruckUpTo, Struck, IsPrime, Words;
    hide And, Or, Pow2, RotateLeft, Neg, SieveSeed, Sound, Sieved, StruckBelow;
    var bits := NToBit(n);
    var limbs := bits / w + 1;
    ZeroLimbs(w, a, 0, limbs);
    SeedRight(w);
    WordsSet(w, a[..], 0, SieveSeed(w));
    ghost var z := a[..];
    a[0] := SieveSeed(w);
    ghost var s0 := a[..];
    assert s0 == z[0 := SieveSeed(w)];
    MaskTail(w, a, limbs, bits);
    Initialised(w, s0, a[..], limbs, bits);
    NToBitAdjoint(n, bits);
    EnoughBits(n);
    if n > SeedLimit(w) {
      ghost var stop := StoppingPrime(bits);
      var mask: nat, index: nat, i: nat := 1, 0, 1;
      StartPosition(w);
      var _ := QuarterWidth(w);
      NothingStruck(w, a[..], 0, bits);
      while true
        invariant 1 <= i <= stop
        invariant index == (i - 1) / w && mask == Pow2((i - 1) % w)
        invariant Words(w, a[..])
        invariant Sound(w, a[..], 0, bits) && StruckBelow(w, a[..], 0, bits, i)
        invariant forall b: nat {:trigger Marked(w, a[..], b)} | bits < b < limbs * w :: Marked(w, a[..], b)
        decreases stop - i
      {
        LimbMonotone(w, i - 1, bits);
        TestMark(w, a[..], i - 1);
        if And(a[index], mask) == 0 {
          var step := IdToN(i);
          IndexIsWord(i, n);
          FirstStrikeExpression(w, i);
          var lindex := i * (step + 1) - 1 + And(Neg(w, i % 2), i + 1);
          if lindex > bits {
            break;
          }
          step := 2 * step;
          RotateCountNonzero(w, i);
          ghost var s1 := a[..];
          StrikeProgression(w, a, 0, lindex, step, bits);
          ghost var s2 := a[..];
          SecondStrikeExpression(i);
          lindex := i * (i * 3 + 6) + i % 2;
          StrikeProgression(w, a, 0, lindex, step, bits);
          SameProgressionAtZero(FirstStrike(i), step);
          SameProgressionAtZero(SecondStrike(i), step);
          StrikesForIndex(w, s1, s2, a[..], 0, bits, FirstStrike(i), SecondStrike(i), i);
          StrikesOnlyAdd(w, s1, s2, 0, FirstStrike(i), step, bits);
          StrikesOnlyAdd(w, s2, a[..], 0, SecondStrike(i), step, bits);
        } else {
          MarkedNotPrime(w, a[..], 0, bits, i);
          SkipIndex(w, a[..], 0, bits, i);
        }
        NextPosition(w, i - 1);
        mask := RotateLeft(w, mask, 1);
        index := index + And(mask, 1);
        i := i + 1;
      }
      FirstStrikesBelow(i, bits);
      SievingComplete(w, a[..], 0, bits, i);
    }
  }

  // ---------- block_resieve ----------

  /** The first multiple at or after the block's offset starts the same progression. */
  lemma AlignedStart(first: nat, step: nat, offset: nat, start: nat)
    requires 0 < step
    requires start == if first < offset then first + step * ((offset - first - 1) / step + 1) else first
    ensures offset <= start && SameProgression(start - offset, first, step, offset)
  {
    hide OnProgression;
    var k := (offset - first - 1) / step;
    if first < offset {
      AlignedBounds(first, step, offset, k);
    }
    var relative := start - offset;
    forall x: nat
      ensures OnProgression(relative, step, x) <==> OnProgression(first, step, offset + x)
    {
      if first < offset {
        ShiftProgression(first, step, k + 1, offset, x);
      } else {
        ShiftOrigin(first, step, offset, x);
      }
    }
  }

  lemma AlignedBounds(first: nat, step: nat, offset: nat, k: int)
    requires 0 < step && first < offset && k == (offset - first - 1) / step
    ensures 0 <= k && first + step * k < offset <= first + step * (k + 1)
  {
    var d := offset - first - 1;
    assert d == step * k + d % step;
    assert step * (k + 1) == step * k + step;
    if k < 0 {
      NonzeroMultiple(step, k);
      assert false;
    }
  }

  lemma ShiftOrigin(first: nat, step: nat, offset: nat, x: nat)
    requires offset <= first
    ensures OnProgression(first - offset, step, x) <==> OnProgression(first, step, offset + x)
  {
    assert x - (first - offset) == offset + x - first;
  }

  lemma ShiftProgression(first: nat, step: nat, k: nat, offset: nat, x: nat)
    requires 0 < step && 1 <= k && first + step * (k - 1) < offset <= first + step * k
    ensures OnProgression(first + step * k - offset, step, x) <==> OnProgression(first, step, offset + x)
  {
    var d := offset + x - first;
    ModOfSum(step, k, d - step * k);
    if OnProgression(first, step, offset + x) {
      GapBound(step, k, d);
    }
  }

  /** A multiple of step above step * (k - 1) is at least step * k. */
  lemma GapBound(step: nat, k: nat, d: nat)
    requires 0 < step && 1 <= k && d % step == 0 && step * (k - 1) < d
    ensures step * k <= d
  {
    var q := d / step;
    assert d == step * q;
    if q <= k - 1 {
      MulMonotone(step, step, q, k - 1);
      assert false;
    }
    MulMonotone(step, step, k, q);
  }

  /**
   if (lindex < offset) lindex += step * ((offset - lindex - 1) / step + 1); lindex -= offset;
   the first multiple at or after the block's offset, relative to it.
   */
  function StartInBlock(first: nat, step: nat, offset: nat): (start: nat)
    requires 0 < step
    ensures SameProgression(start, first, step, offset)
    ensures offset <= first ==> start == first - offset
  {
    if first < offset then
      AlignedBounds(first, step, offset, (offset - first - 1) / step);
      AlignedStart(first, step, offset, first + step * ((offset - first - 1) / step + 1));
      first + step * ((offset - first - 1) / step + 1) - offset
    else
      AlignedStart(first, step, offset, first);
      first - offset
  }

  /** Nothing of the second progression lies in the block when it starts beyond it. */
  lemma NoSecondStrikes(w: nat, s: seq<nat>, base: nat, start: nat, step: nat, bits: nat)
    requires 0 < w && bits < start
    ensures StruckUpTo(w, s, s, base, start, step, bits, bits + 1)
  {
  }

  lemma EmptyBlockSound(w: nat, s: seq<nat>, base: nat, limbs: nat)
    requires 0 < w && 1 <= limbs && base + limbs <= |s| && forall k | base <= k < base + limbs :: s[k] == 0
    ensures Sound(w, s, base * w, base * w + (limbs * w - 1))
    ensures StruckBelow(w, s, base * w, base * w + (limbs * w - 1), 1)
  {
    hide Marked, IsPrime, BitToN;
    forall b: nat | base * w <= b <= base * w + (limbs * w - 1)
      ensures !Marked(w, s, b)
    {
      assert (base + limbs) * w == base * w + limbs * w;
      ZeroedUnmarked(w, s, base, limbs, b);
    }
  }

  /** A prefix of the limbs determines the marks of its bits. */
  lemma SamePrefix(w: nat, s: seq<nat>, t: seq<nat>, base: nat, b: nat)
    requires 0 < w && base <= |s| && base <= |t| && s[..base] == t[..base] && b < base * w
    ensures Marked(w, s, b) <==> Marked(w, t, b)
  {
    LimbBound(w, b, base);
    assert s[b / w] == s[..base][b / w] == t[..base][b / w] == t[b / w];
  }

  /**
   Sieves the limbs base .. base+limbs-1 with the primes found in bits 0..sieveBits of the
   same array.  The `continue` leaves the mask behind by one bit: the stale mask still
   selects a clear bit, and the strike computed for the next index ends the loop.
   */
  method BlockResieve(w: nat, a: array<nat>, base: nat, limbs: nat, offset: nat, sieveBits: nat)
    requires LimbBits(w) && 1 <= limbs && base + limbs <= a.Length && Words(w, a[..])
    requires offset == base * w && offset + limbs * w < Pow2(w)
    requires sieveBits + 1 <= offset && Sieved(w, a[..], 0, sieveBits)
    requires offset + (limbs * w - 1) < FirstStrike(sieveBits + 2)
    modifies a
    ensures Words(w, a[..])
    ensures Sieved(w, a[..], offset, offset + (limbs * w - 1))
    ensures a[..base] == old(a[..base])
  {
    hide Marked, IdToN, NToBit, BitToN, FirstStrike, SecondStrike, OnProgression, StruckUpTo, Struck, IsPrime, Words;
    hide And, Or, Pow2, RotateLeft, Neg, Shl, Sound, Sieved, StruckBelow;
    var bits := limbs * w - 1;
    ghost var s0 := a[..];
    BlockLimbs(w, limbs);
    ZeroLimbs(w, a, base, limbs);
    EmptyBlockSound(w, a[..], base, limbs);
    StartPosition(w);
    InitialMask(w, 0);
    var _ := QuarterWidth(w);
    var i: nat, index: nat, mask: nat := 0, 0 / w, Shl(w, 1, 0 % w);
    var first := true;
    ghost var stale, reach := false, sieveBits + 2;
    while first || i <= sieveBits
      invariant i <= sieveBits + 1 && (first <==> i == 0) && reach == sieveBits + 2
      invariant !stale ==> index == i / w && mask == Pow2(i % w)
      invariant stale ==> 1 <= i && index == (i - 1) / w && mask == Pow2((i - 1) % w)
      invariant stale ==> !Marked(w, a[..], i - 1) && offset + bits < SecondStrike(i)
      invariant Words(w, a[..]) && a[..base] == s0[..base]
      invariant Sound(w, a[..], offset, offset + bits) && StruckBelow(w, a[..], offset, offset + bits, i + 1)
      decreases sieveBits + 1 - i
    {
      first := false;
      i := i + 1;
      ghost var tested := if stale then i - 2 else i - 1;
      LimbBound(w, tested, base);
      TestMark(w, a[..], tested);
      if And(a[index], mask) == 0 {
        var step := IdToN(i);
        FirstStrikeExpression(w, i);
        var lindex := i * (step + 1) - 1 + And(Neg(w, i % 2), i + 1);
        if stale {
          StrikesIncrease(i - 1);
        }
        if lindex > bits + offset {
          reach := i;
          break;
        }
        step := 2 * step;
        RotateCountNonzero(w, i);
        StepPositive(w, step);
        lindex := StartInBlock(lindex, step, offset);
        ghost var s1, start1 := a[..], lindex;
        StrikeProgression(w, a, base, lindex, step, bits);
        ghost var s2 := a[..];
        SecondStrikeExpression(i);
        lindex := i * (i * 3 + 6) + i % 2;
        if lindex > bits + offset {
          NoSecondStrikes(w, s2, base, lindex - offset, step, bits);
          StrikesForIndex(w, s1, s2, s2, base, bits, start1, StartInBlock(lindex, step, offset), i);
          SamePrefix(w, s1, s2, base, i - 1);
          stale := true;
          continue;
        }
        lindex := StartInBlock(lindex, step, offset);
        ghost var start2 := lindex;
        StrikeProgression(w, a, base, lindex, step, bits);
        StrikesForIndex(w, s1, s2, a[..], base, bits, start1, start2, i);
      } else {
        SieveBitSet(w, s0, a[..], base, sieveBits, i);
        SkipIndex(w, a[..], offset, offset + bits, i);
      }
      NextPosition(w, i - 1);
      mask := RotateLeft(w, mask, 1);
      index := index + And(mask, 1);
    }
    FirstStrikesBelow(reach, offset + bits);
    SievingComplete(w, a[..], offset, offset + bits, reach);
  }

  lemma BlockLimbs(w: nat, limbs: nat)
    requires 0 < w && 1 <= limbs
    ensures 0 <= limbs * w - 1 && (limbs * w - 1) / w == limbs - 1
  {
    assert limbs * w - 1 == w * (limbs - 1) + (w - 1);
    assert 0 <= w * (limbs - 1);
    ModUnique(limbs * w - 1, w, limbs - 1, w - 1);
  }

  /** A set bit in the sieve means that the index is not that of a prime. */
  lemma SieveBitSet(w: nat, s0: seq<nat>, s: seq<nat>, base: nat, sieveBits: nat, i: nat)
    requires 0 < w && base <= |s0| && base <= |s| && s[..base] == s0[..base]
    requires Sieved(w, s0, 0, sieveBits) && 1 <= i <= sieveBits + 1 <= base * w
    requires Marked(w, s, i - 1)
    ensures !IsPrime(IdToN(i))
  {
    hide Marked, IsPrime;
    SamePrefix(w, s0, s, base, i - 1);
    assert BitToN(i - 1) == IdToN(i);
  }

  // ---------- counting ----------

  function PopCount(x: nat): nat {
    if x == 0 then 0 else x % 2 + PopCount(x / 2)
  }

  /** mpn_popcount */
  function PopCountLimbs(s: seq<nat>): nat {
    if s == [] then 0 else PopCountLimbs(s[..|s| - 1]) + PopCount(s[|s| - 1])
  }

  function ClearBits(w: nat, s: seq<nat>, m: nat): nat
    requires 0 < w
  {
    if m == 0 then 0 else ClearBits(w, s, m - 1) + if Marked(w, s, m - 1) then 0 else 1
  }

  function LowCount(x: nat, j: nat): nat {
    if j == 0 then 0 else LowCount(x, j - 1) + if Bit(x, j - 1) then 1 else 0
  }

  lemma {:induction false} LowCountHalves(x: nat, j: nat)
    requires 1 <= j
    ensures LowCount(x, j) == x % 2 + LowCount(x / 2, j - 1)
  {
    if j == 1 {
      assert LowCount(x, 0) == 0;
    } else {
      LowCountHalves(x, j - 1);
    }
  }

  lemma {:induction false} LowCountIsPopCount(w: nat, x: nat)
    requires x < Pow2(w)
    ensures LowCount(x, w) == PopCount(x)
  {
    if w != 0 {
      LowCountHalves(x, w);
      LowCountIsPopCount(w - 1, x / 2);
    }
  }

  lemma {:induction false} ClearBitsOfLimb(w: nat, s: seq<nat>, k: nat, j: nat)
    requires 0 < w && k < |s| && j <= w
    ensures ClearBits(w, s, k * w + j) == ClearBits(w, s, k * w) + j - LowCount(s[k], j)
  {
    if j != 0 {
      ClearBitsOfLimb(w, s, k, j - 1);
      assert k * w + (j - 1) == w * k + (j - 1);
      ModUnique(k * w + (j - 1), w, k, j - 1);
    }
  }

  lemma {:induction false} PopCountComplement(w: nat, s: seq<nat>, k: nat)
    requires 0 < w && Words(w, s) && k <= |s|
    ensures PopCountLimbs(s[..k]) + ClearBits(w, s, k * w) == k * w
  {
    hide Marked, Pow2, PopCount, LowCount;
    if k != 0 {
      PopCountComplement(w, s, k - 1);
      ClearBitsOfLimb(w, s, k - 1, w);
      LowCountIsPopCount(w, s[k - 1]);
      assert s[..k][..k - 1] == s[..k - 1];
      assert (k - 1) * w + w == k * w;
    }
  }

  lemma {:induction false} MarkedTailNotClear(w: nat, s: seq<nat>, m: nat, top: nat)
    requires 0 < w && m <= top
    requires forall b: nat {:trigger Marked(w, s, b)} | m <= b < top :: Marked(w, s, b)
    ensures ClearBits(w, s, top) == ClearBits(w, s, m)
  {
    if m < top {
      MarkedTailNotClear(w, s, m, top - 1);
    }
  }

  /** The primes in the interval [4, n]. */
  ghost function PrimesFrom4(n: nat): set<nat> {
    set p: nat | 4 <= p <= n && IsPrime(p)
  }

  lemma FourNotPrime()
    ensures !IsPrime(4)
  {
    assert Divides(2, 4);
  }

  lemma NoPrimeBetween(m: nat, p: nat)
    requires 4 <= p < BitToN(m) && IsPrime(p)
    ensures 1 <= m && p <= BitToN(m - 1)
  {
    FourNotPrime();
    BitToNMonotone(m, 0);
    if m == 0 {
      assert false;
    } else {
      PrimeOnWheel(p);
      NToBitOnWheel(p);
      BitToNMonotone(m - 1, NToBit(p));
      BitToNMonotone(m, NToBit(p));
      BitToNMonotone(NToBit(p), m);
      BitToNMonotone(NToBit(p), m - 1);
    }
  }

  lemma {:induction false} ClearBitsArePrimes(w: nat, s: seq<nat>, m: nat, hi: nat)
    requires 0 < w && m <= hi + 1 && Sieved(w, s, 0, hi)
    ensures ClearBits(w, s, m) == |PrimesFrom4(BitToN(m) - 1)|
  {
    hide Marked, IsPrime, BitToN, PrimesFrom4;
    NToBitOfBitToN(m);
    if m == 0 {
      NoPrimesYet();
    } else {
      ClearBitsArePrimes(w, s, m - 1, hi);
      NToBitOfBitToN(m - 1);
      OneMoreNumber(m);
    }
  }

  lemma NoPrimesYet()
    ensures 1 <= BitToN(0) && PrimesFrom4(BitToN(0) - 1) == {}
  {
    hide IsPrime, BitToN;
    FirstNumber();
    var primes := PrimesFrom4(BitToN(0) - 1);
    forall p | p in primes
      ensures false
    {
      NoPrimeBetween(0, p);
    }
  }

  /** The primes below the number of bit m are those below the number before it, and that number if it is prime. */
  lemma OneMoreNumber(m: nat)
    requires 1 <= m
    ensures var n := BitToN(m - 1);
            && 5 <= n && 5 <= BitToN(m) && n !in PrimesFrom4(n - 1)
            && PrimesFrom4(BitToN(m) - 1) == PrimesFrom4(n - 1) + if IsPrime(n) then {n} else {}
  {
    hide IsPrime, BitToN;
    NToBitOfBitToN(m - 1);
    BitToNMonotone(m - 1, m);
    var n := BitToN(m - 1);
    var before, after := PrimesFrom4(n - 1), PrimesFrom4(BitToN(m) - 1);
    forall p | p in after
      ensures p <= n
    {
      NoPrimeBetween(m, p);
    }
    assert after == before + if IsPrime(n) then {n} else {};
  }

  lemma FirstNumber()
    ensures BitToN(0) == 5
  {
  }

  lemma PrimesUpToLastBit(n: nat)
    requires 5 <= n
    ensures PrimesFrom4(n) == PrimesFrom4(BitToN(NToBit(n) + 1) - 1)
  {
    hide IsPrime, BitToN, NToBit;
    var m := NToBit(n) + 1;
    NToBitAdjoint(n, m);
    NToBitAdjoint(n, m - 1);
    NToBitOfBitToN(m);
    forall p: nat | 4 <= p < BitToN(m) && IsPrime(p)
      ensures p <= n
    {
      NoPrimeBetween(m, p);
    }
  }

  /** size * GMP_LIMB_BITS - popcount is the number of primes in [4, n]. */
  lemma ReturnedCount(w: nat, s: seq<nat>, n: nat, size: nat)
    requires 0 < w && 5 <= n && size == NToBit(n) / w + 1 <= |s| && Words(w, s)
    requires Sieved(w, s, 0, NToBit(n))
    requires forall b: nat {:trigger Marked(w, s, b)} | NToBit(n) < b < size * w :: Marked(w, s, b)
    ensures size * w - PopCountLimbs(s[..size]) == |PrimesFrom4(n)|
  {
    hide Marked, IsPrime, BitToN, NToBit, PopCountLimbs, ClearBits;
    var bits := NToBit(n);
    PopCountComplement(w, s, size);
    LimbBound(w, bits, size);
    MarkedTailNotClear(w, s, bits + 1, size * w);
    ClearBitsArePrimes(w, s, bits + 1, bits);
    PrimesUpToLastBit(n);
  }

  // ---------- gmp_primesieve ----------

  /** off = BLOCK_SIZE + (size % BLOCK_SIZE): whole blocks remain after the first. */
  lemma WholeBlocksRemain(size: nat)
    requires BLOCK_SIZE * 2 < size
    ensures var off := BLOCK_SIZE + size % BLOCK_SIZE; off < size && (size - off) % BLOCK_SIZE == 0
  {
    var q, r := size / 2048, size % 2048;
    ModUnique(size - (2048 + r), 2048, q - 1, 0);
  }

  /** The sieve of the limbs before a block reaches the square root of the block's end. */
  lemma SieveCoversBlock(w: nat, off: nat)
    requires 0 < w && BLOCK_SIZE <= off
    ensures 1 <= off * w
    ensures off * w + (BLOCK_SIZE * w - 1) < FirstStrike(off * w - 1 + 2)
  {
    hide IdToN;
    var m := off * w;
    MulMonotone(BLOCK_SIZE, off, w, w);
    assert BLOCK_SIZE * 1 <= BLOCK_SIZE * w;
    StrikeGrowth(m + 1);
  }

  lemma StrikeGrowth(i: nat)
    requires 1 <= i
    ensures 3 * i <= FirstStrike(i)
  {
    assert 3 * i + 1 <= IdToN(i);
    MulMonotone(i, i, 3 * 1 + 2, IdToN(i) + 1);
  }

  /** The last block boundary before size stands for a number below n. */
  lemma BlockNumbersFit(w: nat, n: nat, size: nat, off: nat)
    requires LimbBits(w) && 5 <= n < Pow2(w) && size == NToBit(n) / w + 1 && 1 <= off < size
    ensures 5 <= IdToN(off * w) <= n && NToBit(IdToN(off * w)) == off * w - 1
    ensures size * w < Pow2(w)
  {
    hide NToBit, Pow2;
    var bits, m := NToBit(n), off * w;
    LimbsBelow(w, bits, off);
    NToBitAdjoint(n, bits);
    NToBitAdjoint(n, m - 1);
    NToBitOfBitToN(m - 1);
  }

  lemma LimbsBelow(w: nat, bits: nat, off: nat)
    requires 0 < w && 1 <= off <= bits / w
    ensures 1 <= off * w <= bits && (bits / w + 1) * w <= 2 * bits
  {
    var q := bits / w;
    assert bits == w * q + bits % w;
    MulMonotone(off, q, w, w);
    MulMonotone(1, off, w, w);
    assert (q + 1) * w == w * q + w;
  }

  lemma LimbsOfFirstBlock(w: nat, off: nat)
    requires 0 < w && 1 <= off
    ensures (off * w - 1) / w + 1 == off && 1 <= off * w
  {
    BlockLimbs(w, off);
  }

  lemma JoinBlocks(w: nat, s: seq<nat>, t: seq<nat>, off: nat, limbs: nat)
    requires 0 < w && 1 <= off <= |s| && off <= |t| && s[..off] == t[..off] && 1 <= limbs
    requires 1 <= off * w && Sieved(w, s, 0, off * w - 1)
    requires 1 <= limbs * w && Sieved(w, t, off * w, off * w + (limbs * w - 1))
    ensures 1 <= (off + limbs) * w && Sieved(w, t, 0, (off + limbs) * w - 1)
  {
    hide Marked, IsPrime, BitToN;
    assert (off + limbs) * w == off * w + limbs * w;
    forall b: nat | b <= (off + limbs) * w - 1
      ensures Marked(w, t, b) <==> !IsPrime(BitToN(b))
    {
      if b < off * w {
        SamePrefix(w, s, t, off, b);
      }
    }
  }

  /** Masking the tail keeps what is sieved up to bits. */
  lemma TailKeepsSieve(w: nat, s: seq<nat>, t: seq<nat>, size: nat, bits: nat, hi: nat)
    requires 0 < w && bits <= hi && Sieved(w, s, 0, hi)
    requires forall b: nat {:trigger Marked(w, t, b)} :: Marked(w, t, b) <==> Marked(w, s, b) || bits < b < size * w
    ensures Sieved(w, t, 0, bits)
    ensures forall b: nat {:trigger Marked(w, t, b)} | bits < b < size * w :: Marked(w, t, b)
  {
    hide Marked, IsPrime, BitToN;
    forall b: nat | b <= bits
      ensures Marked(w, t, b) <==> !IsPrime(BitToN(b))
    {
      assert Marked(w, t, b) <==> Marked(w, s, b);
    }
  }

  /**
   Fills the array with the characteristic function of the composites up to n and
   returns the number of primes in the interval [4, n].
   */
  method GmpPrimesieve(w: nat, a: array<nat>, n: nat) returns (count: int)
    requires LimbBits(w) && 5 <= n < Pow2(w)
    requires NToBit(n) / w + 1 <= a.Length && Words(w, a[..])
    modifies a
    ensures Words(w, a[..])
    ensures Sieved(w, a[..], 0, NToBit(n))
    ensures forall b: nat {:trigger Marked(w, a[..], b)} | NToBit(n) < b < (NToBit(n) / w + 1) * w :: Marked(w, a[..], b)
    ensures count == |PrimesFrom4(n)|
  {
    hide Marked, NToBit, IsPrime, Words, Pow2, Sieved, PopCountLimbs, PrimesFrom4, LimbBits;
    var _ := QuarterWidth(w);
    var bits: nat := NToBit(n);
    var size: nat := bits / w + 1;
    ghost var hi: nat := bits;
    if size > BLOCK_SIZE * 2 {
      SieveBlocks(w, a, n, size);
      hi := size * w - 1;
      LimbBound(w, bits, size);
    } else {
      FirstBlockPrimesieve(w, a, n);
    }
    ghost var s := a[..];
    MaskTail(w, a, size, bits);
    TailKeepsSieve(w, s, a[..], size, bits, hi);
    ReturnedCount(w, a[..], n, size);
    count := size * w - PopCountLimbs(a[..size]);
  }

  /** The long path: a first block of 2048 limbs or a little more, and then whole blocks. */
  method SieveBlocks(w: nat, a: array<nat>, n: nat, size: nat)
    requires LimbBits(w) && 5 <= n < Pow2(w) && 0 < w
    requires size == NToBit(n) / w + 1 && BLOCK_SIZE * 2 < size <= a.Length && Words(w, a[..])
    modifies a
    ensures Words(w, a[..])
    ensures 1 <= size * w && Sieved(w, a[..], 0, size * w - 1)
  {
    hide IdToN, NToBit, Words, Pow2, Sieved, LimbBits;
    WholeBlocksRemain(size);
    var off: nat := BLOCK_SIZE + size % BLOCK_SIZE;
    BlockNumbersFit(w, n, size, off);
    LimbsOfFirstBlock(w, off);
    FirstBlockPrimesieve(w, a, IdToN(off * w));
    while off < size
      invariant BLOCK_SIZE <= off <= size && (size - off) % BLOCK_SIZE == 0
      invariant Words(w, a[..])
      invariant 1 <= off * w && Sieved(w, a[..], 0, off * w - 1)
      decreases size - off
    {
      BlockFits(w, size, off);
      SieveCoversBlock(w, off);
      ghost var s := a[..];
      BlockResieve(w, a, off, BLOCK_SIZE, off * w, off * w - 1);
      JoinBlocks(w, s, a[..], off, BLOCK_SIZE);
      off := off + BLOCK_SIZE;
    }
  }

  lemma BlockFits(w: nat, size: nat, off: nat)
    requires 0 < w && off < size && (size - off) % BLOCK_SIZE == 0
    ensures off + BLOCK_SIZE <= size && (size - (off + BLOCK_SIZE)) % BLOCK_SIZE == 0
    ensures off * w + BLOCK_SIZE * w <= size * w
    ensures 1 <= BLOCK_SIZE * w
  {
    var q := (size - off) / 2048;
    ModUnique(size - off - 2048, 2048, q - 1, 0);
    MulMonotone(off + BLOCK_SIZE, size, w, w);
    assert (off + BLOCK_SIZE) * w == off * w + BLOCK_SIZE * w;
  }
}

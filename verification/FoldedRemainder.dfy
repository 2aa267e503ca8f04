/**
 The remainder of a number of many limbs by a small odd product of primes:
 mpn_mod_1s_4p_cps and sumspills of lib/gmp/gen-trialdivtab.c compute and check the
 constants with which lib/gmp/mpn/generic/mod_1_4.c folds four limbs at a time.
 */
module FoldedRemainder {
  import opened Limbs
  import opened Primes
  import opened WideArith
  import opened PreinvDivision

  // ---------- congruence ----------

  ghost predicate Congruent(m: int, x: int, y: int) {
    exists k: int :: CongruentBy(m, x, y, k)
  }

  ghost predicate CongruentBy(m: int, x: int, y: int, k: int) {
    x == y + m * k
  }

  lemma CongruentSelf(m: int, x: int)
    ensures Congruent(m, x, x)
  {
    assert CongruentBy(m, x, x, 0);
  }

  lemma CongruentTrans(m: int, x: int, y: int, z: int)
    requires Congruent(m, x, y) && Congruent(m, y, z)
    ensures Congruent(m, x, z)
  {
    var k: int :| CongruentBy(m, x, y, k);
    var l: int :| CongruentBy(m, y, z, l);
    assert m * (k + l) == m * k + m * l;
    assert CongruentBy(m, x, z, k + l);
  }

  lemma CongruentSum(m: int, x: int, y: int, u: int, v: int)
    requires Congruent(m, x, y) && Congruent(m, u, v)
    ensures Congruent(m, x + u, y + v)
  {
    var k: int :| CongruentBy(m, x, y, k);
    var l: int :| CongruentBy(m, u, v, l);
    assert m * (k + l) == m * k + m * l;
    assert CongruentBy(m, x + u, y + v, k + l);
  }

  lemma CongruentScale(m: int, x: int, y: int, c: int)
    requires Congruent(m, x, y)
    ensures Congruent(m, c * x, c * y)
  {
    var k: int :| CongruentBy(m, x, y, k);
    assert c * (y + m * k) == c * y + m * (c * k);
    assert CongruentBy(m, c * x, c * y, c * k);
  }

  lemma CongruentRemainder(m: int, x: int)
    requires 0 < m
    ensures Congruent(m, x % m, x)
  {
    var q := x / m;
    assert x == m * q + x % m;
    assert m * -q == -(m * q);
    assert CongruentBy(m, x % m, x, -q);
  }

  lemma CongruentSameRemainder(m: int, x: int, y: int)
    requires 0 < m && Congruent(m, x, y)
    ensures x % m == y % m
  {
    var k: int :| CongruentBy(m, x, y, k);
    ModOfSum(m, k, y);
  }

  // ---------- the constants ----------

  datatype Constants = Constants(bi: int, cnt: int, b1: nat, b2: nat, b3: nat, b4: nat, b5: nat)

  /** mpz_log2 */
  function BitLength(b: nat): nat {
    if b == 0 then 0 else 1 + BitLength(b / 2)
  }

  lemma {:induction false} BitLengthBounds(b: nat)
    requires b != 0
    ensures 1 <= BitLength(b) && Pow2(BitLength(b) - 1) <= b < Pow2(BitLength(b))
  {
    if b != 1 {
      BitLengthBounds(b / 2);
    }
  }

  lemma {:induction false} BitLengthAtMost(b: nat, w: nat)
    requires b < Pow2(w)
    ensures BitLength(b) <= w
  {
    if b != 0 {
      BitLengthAtMost(b / 2, w - 1);
    }
  }

  /** What the constants for the divisor b have to be. */
  ghost predicate ConstantsRight(w: nat, b: nat, c: Constants) {
    && 1 <= b && BitLength(b) == w - c.cnt
    && c.b1 < b && c.b2 < b && c.b3 < b && c.b4 < b && c.b5 < b
    && Congruent(b, c.b1, Power(Pow2(w), 1)) && Congruent(b, c.b2, Power(Pow2(w), 2))
    && Congruent(b, c.b3, Power(Pow2(w), 3)) && Congruent(b, c.b4, Power(Pow2(w), 4))
    && Congruent(b, c.b5, Power(Pow2(w), 5))
  }

  lemma NextPower(B: nat, b: nat, r: nat, k: nat)
    requires 1 <= b && Congruent(b, r, Power(B, k))
    ensures 0 <= (r * B) % b < b && Congruent(b, (r * B) % b, Power(B, k + 1))
  {
    hide Congruent;
    CongruentScale(b, r, Power(B, k), B);
    CongruentRemainder(b, B * r);
    CongruentTrans(b, (B * r) % b, B * r, B * Power(B, k));
  }

  /** mpn_mod_1s_4p_cps of the generator, on unbounded integers. */
  method ComputeConstants(w: nat, b: nat) returns (c: Constants)
    requires 1 <= b
    ensures ConstantsRight(w, b, c)
    ensures c.bi == ((Pow2(BitLength(b)) - b) * Pow2(w)) / b
  {
    hide Congruent, Power, BitLength, Pow2;
    BitLengthBounds(b);
    var B := Pow2(w);
    var cnt: int := w - BitLength(b);
    var bi := ((Pow2(w - cnt) - b) * B) / b;
    FirstPower(B, b);
    var b1 := B % b;
    NextPower(B, b, b1, 1);
    var b2 := (b1 * B) % b;
    NextPower(B, b, b2, 2);
    var b3 := (b2 * B) % b;
    NextPower(B, b, b3, 3);
    var b4 := (b3 * B) % b;
    NextPower(B, b, b4, 4);
    var b5 := (b4 * B) % b;
    c := Constants(bi, cnt, b1, b2, b3, b4, b5);
  }

  lemma FirstPower(B: nat, b: nat)
    requires 1 <= b
    ensures 0 <= B % b < b && Congruent(b, B % b, Power(B, 1))
  {
    hide Congruent;
    CongruentRemainder(b, B);
    assert Power(B, 1) == B * Power(B, 0) == B;
  }

  /** sumspills: whether the five residues add up to B or more. */
  method SumSpills(w: nat, c: Constants) returns (spills: bool)
    ensures spills <==> c.b1 + c.b2 + c.b3 + c.b4 + c.b5 >= Pow2(w)
  {
    var a := [c.b1, c.b2, c.b3, c.b4, c.b5];
    var s := a[0];
    for i := 1 to 5
      invariant s == c.b1 + (if i >= 2 then c.b2 else 0) + (if i >= 3 then c.b3 else 0)
                   + (if i >= 4 then c.b4 else 0) + (if i >= 5 then c.b5 else 0)
    {
      s := s + a[i];
    }
    spills := s >= Pow2(w);
  }

  // ---------- the reciprocal ----------

  ghost predicate IsPowerOfTwo(b: nat) {
    exists k: nat :: b == Pow2(k)
  }

  /** Only powers of two divide a power of two. */
  lemma {:induction false} DivisorOfPow2(b: nat, e: nat, N: nat)
    requires b * e == Pow2(N)
    ensures IsPowerOfTwo(b)
    decreases N
  {
    if N == 0 {
      if b != 1 && b != 0 && e != 0 {
        MulMonotone(2, b, 1, e);
        assert false;
      }
      assert b == Pow2(0);
    } else if b % 2 == 1 {
      EvenCofactor(b, e, Pow2(N - 1));
      DivisorOfPow2(b, e / 2, N - 1);
    } else {
      var c := b / 2;
      assert b == 2 * c;
      assert (2 * c) * e == 2 * (c * e);
      DivisorOfPow2(c, e, N - 1);
      var k: nat :| c == Pow2(k);
      assert b == Pow2(k + 1);
    }
  }

  lemma OddNotPowerOfTwo(b: nat)
    requires 3 <= b && b % 2 == 1
    ensures !IsPowerOfTwo(b)
  {
    forall k: nat
      ensures b != Pow2(k)
    {
      PowerParity(k);
    }
  }

  lemma PowerParity(k: nat)
    ensures Pow2(k) == 1 || Pow2(k) % 2 == 0
  {
    if k != 0 {
      DoubleIsEven(Pow2(k - 1));
    }
  }

  lemma {:induction false} BitLengthOfPower(k: nat)
    ensures BitLength(Pow2(k)) == k + 1
  {
    if k != 0 {
      BitLengthOfPower(k - 1);
      assert Pow2(k) / 2 == Pow2(k - 1);
    }
  }

  lemma EvenCofactor(b: nat, e: nat, m: nat)
    requires b % 2 == 1 && b * e == 2 * m
    ensures b * (e / 2) == m
  {
    var h, f := b / 2, e / 2;
    assert b == 2 * h + 1;
    assert b * e == 2 * (h * e) + e;
    assert e == 2 * f;
    assert b * (2 * f) == 2 * (b * f);
  }

  /** B^2/b without its top bit is the reciprocal of the shifted divisor, unless b is a power of two. */
  lemma ReciprocalOfShifted(w: nat, b: nat, cnt: nat, bi: int)
    requires 1 <= b && BitLength(b) + cnt == w && bi == ((Pow2(BitLength(b)) - b) * Pow2(w)) / b
    ensures 0 < b * Pow2(cnt) && Normalised(Pow2(w), b * Pow2(cnt))
    ensures bi == Inverse21(Pow2(w), b * Pow2(cnt)) <==> !IsPowerOfTwo(b)
    ensures IsPowerOfTwo(b) ==> bi == Pow2(w)
  {
    hide Pow2, BitLength, Inverse21, Normalised, IsPowerOfTwo;
    var B, m, p := Pow2(w), Pow2(BitLength(b)), Pow2(cnt);
    BitLengthBounds(b);
    Pow2Add(BitLength(b), cnt);
    Pow2Add(BitLength(b), w);
    HalfPower(BitLength(b));
    ShiftedNormalised(B, b, m, p);
    if IsPowerOfTwo(b) {
      PowerReciprocal(w, b, bi);
      HalfPower(w);
      Inverse21IsWord(B, b * p);
    } else {
      ReciprocalBounds(m, b, B, bi);
      if b * (B + bi) == m * B {
        DivisorOfPow2(b, B + bi, BitLength(b) + w);
        assert false;
      }
      ShiftReciprocal(b, p, m, B, bi);
      InverseCharacterised(B, b * p, bi);
    }
  }

  /** For a power of two the computed value is B, one too large for a word. */
  lemma PowerReciprocal(w: nat, b: nat, bi: int)
    requires IsPowerOfTwo(b) && bi == ((Pow2(BitLength(b)) - b) * Pow2(w)) / b
    ensures bi == Pow2(w)
  {
    hide Pow2, BitLength;
    var k: nat :| b == Pow2(k);
    BitLengthOfPower(k);
    HalfPower(k + 1);
    ModUnique(b * Pow2(w), b, Pow2(w), 0);
  }

  /**
   mpz_preinv_invert: meant as the reciprocal of d shifted up to numb_bits = w bits, for
   udiv_qrnnd_preinv.  It is, except for powers of two.
   */
  method MpzPreinvInvert(w: nat, d: nat) returns (inv: int)
    requires 1 <= d < Pow2(w)
    ensures var norm := w - BitLength(d);
            && 0 <= norm && d * Pow2(norm) != 0 && Normalised(Pow2(w), d * Pow2(norm))
            && (inv == Inverse21(Pow2(w), d * Pow2(norm)) <==> !IsPowerOfTwo(d))
            && (IsPowerOfTwo(d) ==> inv == Pow2(w))
  {
    hide Pow2, BitLength, Inverse21, Normalised, IsPowerOfTwo;
    BitLengthAtMost(d, w);
    BitLengthBounds(d);
    var norm := w - BitLength(d);
    var t := Pow2(2 * w - norm);
    inv := t / d;
    t := Pow2(w);
    inv := inv - t;
    Pow2Add(BitLength(d), w);
    TopBitTaken(Pow2(BitLength(d)), d, Pow2(w));
    ReciprocalOfShifted(w, d, norm, inv);
  }

  lemma TopBitTaken(m: nat, b: nat, B: nat)
    requires 1 <= b < m
    ensures (m * B) / b - B == ((m - b) * B) / b
  {
    var q, r := (m * B) / b, (m * B) % b;
    assert m * B == b * q + r;
    assert (m - b) * B == m * B - b * B;
    assert b * (q - B) == b * q - b * B;
    ModUnique((m - b) * B, b, q - B, r);
  }

  lemma InverseCharacterised(B: nat, d: nat, v: int)
    requires 0 < d && (B + v) * d < B * B <= (B + v) * d + d
    ensures v == Inverse21(B, d)
  {
    ReciprocalCharacterised(B * B, B, d, v);
  }

  lemma HalfPower(k: nat)
    requires 1 <= k
    ensures Pow2(k) == 2 * Pow2(k - 1)
  {
  }

  lemma FloorBounds(x: int, b: nat, q: int)
    requires 1 <= b && q == x / b
    ensures b * q <= x < b * q + b
  {
  }

  lemma ReciprocalBounds(m: nat, b: nat, B: nat, bi: int)
    requires 1 <= b < m && bi == ((m - b) * B) / b
    ensures 0 <= bi && b * (B + bi) <= m * B < b * (B + bi) + b
  {
    FloorBounds((m - b) * B, b, bi);
    assert 0 <= (m - b) * B;
    assert (m - b) * B == m * B - b * B;
    assert b * (B + bi) == b * B + b * bi;
  }

  lemma ShiftedNormalised(B: nat, b: nat, m: nat, p: nat)
    requires m <= 2 * b && b < m && 1 <= p && B == m * p
    ensures Normalised(B, b * p) && 0 < b * p
  {
    MulMonotone(b + 1, m, p, p);
    assert (b + 1) * p == b * p + p;
    MulMonotone(m, 2 * b, p, p);
    assert (2 * b) * p == 2 * (b * p);
    MulMonotone(1, b, 1, p);
  }

  lemma ShiftReciprocal(b: int, p: int, m: int, B: int, bi: int)
    requires b * (B + bi) < m * B < b * (B + bi) + b && 1 <= p && B == m * p
    ensures (B + bi) * (b * p) < B * B <= (B + bi) * (b * p) + b * p
  {
    var x, y := b * (B + bi), m * B;
    ScaleOrder(x, y, p);
    ScaleOrder(y, x + b, p);
    assert y * p == B * B by { assert (m * B) * p == (m * p) * B; }
    assert x * p == (B + bi) * (b * p);
    assert (x + b) * p == x * p + b * p;
  }

  lemma ScaleOrder(x: int, y: int, p: int)
    requires x < y && 1 <= p
    ensures x * p < y * p
  {
    assert (y - x) * p >= 1 * 1;
    assert (y - x) * p == y * p - x * p;
  }

  // ---------- folding four limbs at a time ----------

  /** The number held by the limbs from i on. */
  ghost function Value(B: nat, ap: seq<nat>, i: nat): nat
    decreases |ap| - i
  {
    if i >= |ap| then 0 else ap[i] + B * Value(B, ap, i + 1)
  }

  ghost predicate AllWords(B: nat, ap: seq<nat>) {
    forall i | 0 <= i < |ap| :: ap[i] < B
  }

  /** The sum that sumspills compares with B. */
  function ResidueSum(c: Constants): nat {
    c.b1 + c.b2 + c.b3 + c.b4 + c.b5
  }

  lemma ValueOfFour(B: nat, ap: seq<nat>, i: nat)
    requires i + 4 <= |ap|
    ensures Value(B, ap, i) == ap[i] + ap[i + 1] * Power(B, 1) + ap[i + 2] * Power(B, 2) + ap[i + 3] * Power(B, 3)
                             + Power(B, 4) * Value(B, ap, i + 4)
  {
    var v0, v1, v2, v3, v4 := Value(B, ap, i), Value(B, ap, i + 1), Value(B, ap, i + 2), Value(B, ap, i + 3), Value(B, ap, i + 4);
    assert v0 == ap[i] + B * v1 && v1 == ap[i + 1] + B * v2 && v2 == ap[i + 2] + B * v3 && v3 == ap[i + 3] + B * v4;
    hide Value, Power;
    FirstPowers(B);
    Horner(B, ap[i], ap[i + 1], ap[i + 2], ap[i + 3], v1, v2, v3, v4);
  }

  lemma FirstPowers(B: nat)
    ensures Power(B, 1) == B && Power(B, 2) == B * B && Power(B, 3) == B * (B * B) && Power(B, 4) == B * (B * (B * B))
    ensures Power(B, 5) == B * Power(B, 4)
  {
    assert Power(B, 0) == 1;
    assert Power(B, 1) == B * 1;
    assert Power(B, 2) == B * Power(B, 1);
    assert Power(B, 3) == B * Power(B, 2);
    assert Power(B, 4) == B * Power(B, 3);
  }

  lemma Horner(B: int, a0: int, a1: int, a2: int, a3: int, v1: int, v2: int, v3: int, v4: int)
    requires v1 == a1 + B * v2 && v2 == a2 + B * v3 && v3 == a3 + B * v4
    ensures a0 + B * v1 == a0 + a1 * B + a2 * (B * B) + a3 * (B * (B * B)) + (B * (B * (B * B))) * v4
  {
    HornerStep(B, v2, a2, v3);
    HornerStep(B, v1, a1, v2);
    HornerStep(B * B, v2, a2, v3);
    HornerStep(B * (B * B), v3, a3, v4);
    assert B * (B * v2) == (B * B) * v2;
    assert (B * B) * (B * v3) == (B * (B * B)) * v3;
    assert (B * (B * B)) * (B * v4) == (B * (B * (B * B))) * v4;
  }

  lemma HornerStep(p: int, v: int, a: int, u: int)
    ensures p * (a + u) == a * p + p * u
  {
  }

  /** One fold keeps the residue. */
  lemma FoldCongruent(h: nat, m: nat, c: Constants, ap: seq<nat>, i: nat, rh: nat, rl: nat)
    requires ConstantsRight(2 * h, m, c) && i + 4 <= |ap|
    requires Congruent(m, Double(WordBase(h), rh, rl), Value(WordBase(h), ap, i + 4))
    ensures Congruent(m, ap[i] + ap[i + 1] * c.b1 + ap[i + 2] * c.b2 + ap[i + 3] * c.b3 + rl * c.b4 + rh * c.b5,
                      Value(WordBase(h), ap, i))
  {
    hide Congruent, Power, Value;
    var B, V := WordBase(h), Value(WordBase(h), ap, i + 4);
    assert B == Pow2(2 * h);
    ValueOfFour(B, ap, i);
    CongruentSelf(m, ap[i]);
    CongruentScale(m, c.b1, Power(B, 1), ap[i + 1]);
    CongruentScale(m, c.b2, Power(B, 2), ap[i + 2]);
    CongruentScale(m, c.b3, Power(B, 3), ap[i + 3]);
    CongruentScale(m, c.b4, Power(B, 4), rl);
    CongruentScale(m, c.b5, Power(B, 5), rh);
    CongruentSum(m, ap[i], ap[i], ap[i + 1] * c.b1, ap[i + 1] * Power(B, 1));
    var x, y := ap[i] + ap[i + 1] * c.b1, ap[i] + ap[i + 1] * Power(B, 1);
    CongruentSum(m, x, y, ap[i + 2] * c.b2, ap[i + 2] * Power(B, 2));
    x, y := x + ap[i + 2] * c.b2, y + ap[i + 2] * Power(B, 2);
    CongruentSum(m, x, y, ap[i + 3] * c.b3, ap[i + 3] * Power(B, 3));
    x, y := x + ap[i + 3] * c.b3, y + ap[i + 3] * Power(B, 3);
    CongruentSum(m, rl * c.b4, rl * Power(B, 4), rh * c.b5, rh * Power(B, 5));
    HighPartFolds(B, rh, rl);
    CongruentScale(m, Double(B, rh, rl), V, Power(B, 4));
    CongruentTrans(m, rl * c.b4 + rh * c.b5, Power(B, 4) * Double(B, rh, rl), Power(B, 4) * V);
    CongruentSum(m, x, y, rl * c.b4 + rh * c.b5, Power(B, 4) * V);
  }

  lemma HighPartFolds(B: nat, rh: nat, rl: nat)
    ensures rl * Power(B, 4) + rh * Power(B, 5) == Power(B, 4) * Double(B, rh, rl)
  {
    FirstPowers(B);
    var p := Power(B, 4);
    assert rh * (B * p) == p * (rh * B);
    assert p * (rh * B + rl) == p * (rh * B) + p * rl;
  }

  /** No partial sum of a fold reaches B^2. */
  lemma FoldFits(B: nat, a0: nat, a1: nat, a2: nat, a3: nat, rl: nat, rh: nat, b1: nat, b2: nat, b3: nat, b4: nat, b5: nat)
    requires a0 < B && a1 < B && a2 < B && a3 < B && rl < B && rh < B && b1 + b2 + b3 + b4 + b5 <= B
    ensures a0 + a1 * b1 + a2 * b2 + a3 * b3 + rl * b4 + rh * b5 < B * B
    ensures 0 <= a1 * b1 && 0 <= a2 * b2 && 0 <= a3 * b3 && 0 <= rl * b4 && 0 <= rh * b5
  {
    TermBelow(a1, B, b1);
    TermBelow(a2, B, b2);
    TermBelow(a3, B, b3);
    TermBelow(rl, B, b4);
    TermBelow(rh, B, b5);
    Distribute5(B - 1, b1, b2, b3, b4, b5);
    SumBelow(B, b1 + b2 + b3 + b4 + b5);
    AddTerms(a0, a1 * b1, a2 * b2, a3 * b3, rl * b4, rh * b5, (B - 1) * b1, (B - 1) * b2, (B - 1) * b3, (B - 1) * b4, (B - 1) * b5,
             (B - 1) * (b1 + b2 + b3 + b4 + b5), B - 1, B * B);
  }

  lemma TermBelow(a: nat, B: nat, b: nat)
    requires a < B
    ensures 0 <= a * b <= (B - 1) * b
  {
    MulMonotone(a, B - 1, b, b);
  }

  lemma SumBelow(B: nat, s: nat)
    requires s <= B && 0 < B
    ensures B - 1 + (B - 1) * s < B * B
  {
    MulMonotone(B - 1, B - 1, s, B);
    SquareOfNext(B - 1);
    assert (B - 1) * B == (B - 1) * (B - 1) + (B - 1);
  }

  lemma AddTerms(a0: int, p1: int, p2: int, p3: int, p4: int, p5: int, q1: int, q2: int, q3: int, q4: int, q5: int, q: int, t: int, bound: int)
    requires a0 <= t && p1 <= q1 && p2 <= q2 && p3 <= q3 && p4 <= q4 && p5 <= q5 && q1 + q2 + q3 + q4 + q5 == q && t + q < bound
    ensures a0 + p1 + p2 + p3 + p4 + p5 < bound
  {
  }

  lemma Distribute5(t: int, b1: int, b2: int, b3: int, b4: int, b5: int)
    ensures t * b1 + t * b2 + t * b3 + t * b4 + t * b5 == t * (b1 + b2 + b3 + b4 + b5)
  {
  }

  lemma SquareOfNext(t: int)
    ensures (t + 1) * (t + 1) == t * t + 2 * t + 1
  {
  }

  // ---------- the fold in words ----------

  /** One round of the loop on unbounded numbers. */
  function FoldTerms(ap: seq<nat>, i: nat, c: Constants, rh: nat, rl: nat): nat
    requires i + 4 <= |ap|
  {
    ap[i] + ap[i + 1] * c.b1 + ap[i + 2] * c.b2 + ap[i + 3] * c.b3 + rl * c.b4 + rh * c.b5
  }

  /** What the switch leaves of the one to four limbs from i on. */
  function TopTerms(B: nat, ap: seq<nat>, i: nat, c: Constants): nat
    requires i < |ap| <= i + 4 && 0 < B * B
  {
    match |ap| - i
    case 1 => ap[i]
    case 2 => Double(B, ap[i + 1], ap[i])
    case 3 => (ap[i] + ap[i + 1] * c.b1 + ap[i + 2] * c.b2) % (B * B)
    case _ => (ap[i] + ap[i + 1] * c.b1 + ap[i + 2] * c.b2 + ap[i + 3] * c.b3) % (B * B)
  }

  /** The double word that holds the limbs from i on, whether or not its additions wrap. */
  function Folded(B: nat, ap: seq<nat>, c: Constants, i: nat): nat
    requires i < |ap| && 0 < B * B && 0 < B
    decreases |ap| - i
  {
    if |ap| <= i + 4 then TopTerms(B, ap, i, c)
    else
      var v := Folded(B, ap, c, i + 4);
      FoldTerms(ap, i, c, HighWord(B, v), LowWord(B, v)) % (B * B)
  }

  function HighWord(B: nat, v: nat): nat
    requires 0 < B
  {
    v / B
  }

  function LowWord(B: nat, v: nat): nat
    requires 0 < B
  {
    v % B
  }

  lemma FoldedStep(B: nat, ap: seq<nat>, c: Constants, i: nat, rh: nat, rl: nat)
    requires i + 4 < |ap| && 0 < B * B && rl < B && Double(B, rh, rl) == Folded(B, ap, c, i + 4)
    ensures Folded(B, ap, c, i) == FoldTerms(ap, i, c, rh, rl) % (B * B)
  {
    hide FoldTerms;
    DoubleDigits(B, rh, rl);
  }

  lemma DoubleDigits(B: nat, hi: nat, lo: nat)
    requires lo < B
    ensures Double(B, hi, lo) / B == hi && Double(B, hi, lo) % B == lo
  {
    assert hi * B == B * hi;
    ModUnique(Double(B, hi, lo), B, hi, lo);
  }

  /** The double word is the sum modulo B^2. */
  ghost predicate Holds(B: nat, hi: nat, lo: nat, sum: nat) {
    hi < B && lo < B && 0 < B * B && Double(B, hi, lo) == sum % (B * B)
  }

  function PlusProduct(sum: nat, a: nat, k: nat): nat {
    sum + a * k
  }

  /** umul_ppmm followed by add_ssaaaa */
  method MulAdd(h: nat, ph: nat, pl: nat, a: nat, k: nat, ghost sum: nat) returns (sh: nat, sl: nat)
    requires 1 <= h && a < WordBase(h) && k < WordBase(h)
    requires Holds(WordBase(h), ph, pl, sum)
    ensures Holds(WordBase(h), sh, sl, PlusProduct(sum, a, k))
  {
    hide WordBase, Double;
    var B := WordBase(h);
    var ch, cl := UmulPpmm(h, a, k);
    sh, sl := AddSsaaaa(B, ph, pl, ch, cl);
    WrapAdd(B * B, sum, a * k);
  }

  /** a * k + a0 */
  method MulAddWord(h: nat, a0: nat, a: nat, k: nat) returns (ph: nat, pl: nat)
    requires 1 <= h && a0 < WordBase(h) && a < WordBase(h) && k < WordBase(h)
    ensures Holds(WordBase(h), ph, pl, PlusProduct(a0, a, k))
  {
    hide WordBase, Double;
    var B := WordBase(h);
    ph, pl := UmulPpmm(h, a, k);
    ph, pl := AddSsaaaa(B, ph, pl, 0, a0);
    DoubleOfWord(B, a0);
    MulMonotone(1, B, 1, B);
  }

  /** Up to three limbs, in the double word that the loop starts from. */
  lemma ShortValues(B: nat, ap: seq<nat>)
    requires 1 <= |ap|
    ensures Value(B, ap, |ap|) == 0
    ensures Value(B, ap, |ap| - 1) == Double(B, 0, ap[|ap| - 1])
    ensures 2 <= |ap| ==> Value(B, ap, |ap| - 2) == Double(B, ap[|ap| - 1], ap[|ap| - 2])
  {
    var n := |ap|;
    assert Value(B, ap, n - 1) == ap[n - 1] + B * Value(B, ap, n);
    if 2 <= n {
      assert Value(B, ap, n - 2) == ap[n - 2] + B * Value(B, ap, n - 1);
    }
  }

  lemma ThreeLimbs(h: nat, m: nat, c: Constants, ap: seq<nat>)
    requires ConstantsRight(2 * h, m, c) && 3 <= |ap|
    ensures var n := |ap|;
            Congruent(m, ap[n - 3] + ap[n - 2] * c.b1 + ap[n - 1] * c.b2, Value(WordBase(h), ap, n - 3))
  {
    hide Congruent, Power;
    var B, n := WordBase(h), |ap|;
    assert B == Pow2(2 * h);
    var a0, a1, a2 := ap[n - 3], ap[n - 2], ap[n - 1];
    ShortValues(B, ap);
    assert Value(B, ap, n - 3) == a0 + B * Value(B, ap, n - 2);
    FirstPowers(B);
    CongruentSelf(m, a0);
    CongruentScale(m, c.b1, Power(B, 1), a1);
    CongruentScale(m, c.b2, Power(B, 2), a2);
    CongruentSum(m, a0, a0, a1 * c.b1, a1 * Power(B, 1));
    CongruentSum(m, a0 + a1 * c.b1, a0 + a1 * Power(B, 1), a2 * c.b2, a2 * Power(B, 2));
    ThreeDigits(B, a0, a1, a2);
  }

  lemma ThreeDigits(B: int, a0: int, a1: int, a2: int)
    ensures a0 + B * (a2 * B + a1) == a0 + a1 * B + a2 * (B * B)
  {
  }

  lemma FoldCongruentTop(h: nat, m: nat, c: Constants, ap: seq<nat>)
    requires ConstantsRight(2 * h, m, c) && 4 <= |ap|
    ensures var n := |ap|;
            Congruent(m, ap[n - 4] + ap[n - 3] * c.b1 + ap[n - 2] * c.b2 + ap[n - 1] * c.b3, Value(WordBase(h), ap, n - 4))
  {
    hide Congruent;
    CongruentSelf(m, 0);
    FoldCongruent(h, m, c, ap, |ap| - 4, 0, 0);
  }

  method TopFour(h: nat, ap: seq<nat>, c: Constants) returns (rh: nat, rl: nat)
    requires 1 <= h && 4 <= |ap| && AllWords(WordBase(h), ap) && Residues(h, c)
    ensures 0 < WordBase(h) * WordBase(h) && rh < WordBase(h) && rl < WordBase(h)
    ensures Double(WordBase(h), rh, rl) == TopTerms(WordBase(h), ap, |ap| - 4, c)
  {
    hide *;
    var n := |ap|;
    LimbsBelow(h, ap, c);
    ghost var s1 := PlusProduct(ap[n - 4], ap[n - 3], c.b1);
    ghost var s2 := PlusProduct(s1, ap[n - 2], c.b2);
    var ph, pl := MulAddWord(h, ap[n - 4], ap[n - 3], c.b1);
    ph, pl := MulAdd(h, ph, pl, ap[n - 2], c.b2, s1);
    rh, rl := MulAdd(h, ph, pl, ap[n - 1], c.b3, s2);
    HoldsMeans(WordBase(h), rh, rl, PlusProduct(s2, ap[n - 1], c.b3));
    TopFourAre(WordBase(h), ap, c);
  }

  method TopThree(h: nat, ap: seq<nat>, c: Constants) returns (rh: nat, rl: nat)
    requires 1 <= h && 3 <= |ap| && AllWords(WordBase(h), ap) && Residues(h, c)
    ensures 0 < WordBase(h) * WordBase(h) && rh < WordBase(h) && rl < WordBase(h)
    ensures Double(WordBase(h), rh, rl) == TopTerms(WordBase(h), ap, |ap| - 3, c)
  {
    hide *;
    var n := |ap|;
    LimbsBelow(h, ap, c);
    ghost var s1 := PlusProduct(ap[n - 3], ap[n - 2], c.b1);
    var ph, pl := MulAddWord(h, ap[n - 3], ap[n - 2], c.b1);
    rh, rl := MulAdd(h, ph, pl, ap[n - 1], c.b2, s1);
    HoldsMeans(WordBase(h), rh, rl, PlusProduct(s1, ap[n - 1], c.b2));
    TopThreeAre(WordBase(h), ap, c);
  }

  lemma LimbsBelow(h: nat, ap: seq<nat>, c: Constants)
    requires AllWords(WordBase(h), ap) && Residues(h, c)
    ensures forall i | 0 <= i < |ap| :: ap[i] < WordBase(h)
    ensures c.b1 < WordBase(h) && c.b2 < WordBase(h) && c.b3 < WordBase(h) && c.b4 < WordBase(h) && c.b5 < WordBase(h)
  {
  }

  lemma TopFourAre(B: nat, ap: seq<nat>, c: Constants)
    requires 4 <= |ap| && 0 < B * B
    ensures var n := |ap|;
            TopTerms(B, ap, n - 4, c) == PlusProduct(PlusProduct(PlusProduct(ap[n - 4], ap[n - 3], c.b1), ap[n - 2], c.b2), ap[n - 1], c.b3) % (B * B)
  {
  }

  lemma TopThreeAre(B: nat, ap: seq<nat>, c: Constants)
    requires 3 <= |ap| && 0 < B * B
    ensures var n := |ap|; TopTerms(B, ap, n - 3, c) == PlusProduct(PlusProduct(ap[n - 3], ap[n - 2], c.b1), ap[n - 1], c.b2) % (B * B)
  {
  }

  lemma HoldsMeans(B: nat, hi: nat, lo: nat, sum: nat)
    requires Holds(B, hi, lo, sum)
    ensures hi < B && lo < B && 0 < B * B && Double(B, hi, lo) == sum % (B * B)
  {
  }

  /** The five residues are words. */
  ghost predicate Residues(h: nat, c: Constants) {
    c.b1 < WordBase(h) && c.b2 < WordBase(h) && c.b3 < WordBase(h) && c.b4 < WordBase(h) && c.b5 < WordBase(h)
  }

  /** One or two top limbs are a double word already. */
  lemma TopLimbsAsTheyAre(h: nat, ap: seq<nat>, c: Constants)
    requires 1 <= |ap| && AllWords(WordBase(h), ap)
    ensures var B, n := WordBase(h), |ap|;
            && 0 < B && 0 < B * B && ap[n - 1] < B && Double(B, 0, ap[n - 1]) == TopTerms(B, ap, n - 1, c)
            && (2 <= n ==> ap[n - 2] < B && Double(B, ap[n - 1], ap[n - 2]) == TopTerms(B, ap, n - 2, c))
  {
    hide WordBase;
    var B := WordBase(h);
    assert ap[0] < B;
    MulMonotone(1, B, 1, B);
  }

  lemma RestInFours(n: nat)
    requires 1 <= n
    ensures n % 4 == 0 ==> 4 <= n && (n - 4) % 4 == 0
    ensures n % 4 != 0 ==> n % 4 <= n && (n - n % 4) % 4 == 0 && n % 4 <= 3
  {
  }

  /** The switch on n & 3: the top limbs, so that a multiple of four is left. */
  method TopLimbs(h: nat, ap: seq<nat>, c: Constants) returns (rh: nat, rl: nat, n: nat)
    requires 1 <= h && 1 <= |ap| && AllWords(WordBase(h), ap) && Residues(h, c)
    ensures rh < WordBase(h) && rl < WordBase(h) && n < |ap| <= n + 4 && n % 4 == 0
    ensures 0 < WordBase(h) * WordBase(h) && Double(WordBase(h), rh, rl) == TopTerms(WordBase(h), ap, n, c)
  {
    hide *;
    n := |ap|;
    TopLimbsAsTheyAre(h, ap, c);
    RestInFours(n);
    if n % 4 == 0 {
      rh, rl := TopFour(h, ap, c);
      n := n - 4;
    } else if n % 4 == 1 {
      rh := 0;
      rl := ap[n - 1];
      n := n - 1;
    } else if n % 4 == 2 {
      rh := ap[n - 1];
      rl := ap[n - 2];
      n := n - 2;
    } else {
      rh, rl := TopThree(h, ap, c);
      n := n - 3;
    }
  }

  /** One round of the loop over blocks of four limbs. */
  method FoldBlock(h: nat, ap: seq<nat>, i: nat, rh0: nat, rl0: nat, c: Constants) returns (rh: nat, rl: nat)
    requires 1 <= h && i + 4 <= |ap| && AllWords(WordBase(h), ap) && Residues(h, c)
    requires rh0 < WordBase(h) && rl0 < WordBase(h)
    ensures rh < WordBase(h) && rl < WordBase(h)
    ensures 0 < WordBase(h) * WordBase(h)
    ensures Double(WordBase(h), rh, rl) == FoldTerms(ap, i, c, rh0, rl0) % (WordBase(h) * WordBase(h))
  {
    hide *;
    LimbsBelow(h, ap, c);
    ghost var s1 := PlusProduct(ap[i], ap[i + 1], c.b1);
    ghost var s2 := PlusProduct(s1, ap[i + 2], c.b2);
    ghost var s3 := PlusProduct(s2, ap[i + 3], c.b3);
    ghost var s4 := PlusProduct(s3, rl0, c.b4);
    var ph, pl := MulAddWord(h, ap[i], ap[i + 1], c.b1);
    ph, pl := MulAdd(h, ph, pl, ap[i + 2], c.b2, s1);
    ph, pl := MulAdd(h, ph, pl, ap[i + 3], c.b3, s2);
    ph, pl := MulAdd(h, ph, pl, rl0, c.b4, s3);
    rh, rl := MulAdd(h, ph, pl, rh0, c.b5, s4);
    HoldsMeans(WordBase(h), rh, rl, PlusProduct(s4, rh0, c.b5));
    FoldTermsNested(ap, i, c, rh0, rl0, s3);
  }

  lemma FoldTermsNested(ap: seq<nat>, i: nat, c: Constants, rh: nat, rl: nat, s3: nat)
    requires i + 4 <= |ap|
    requires s3 == PlusProduct(PlusProduct(PlusProduct(ap[i], ap[i + 1], c.b1), ap[i + 2], c.b2), ap[i + 3], c.b3)
    ensures FoldTerms(ap, i, c, rh, rl) == PlusProduct(PlusProduct(s3, rl, c.b4), rh, c.b5)
  {
  }

  // ---------- when the fold is right ----------

  /** If the residues add up to at most B, no addition wraps and the fold keeps the residue. */
  lemma {:induction false} FoldedRight(h: nat, m: nat, c: Constants, ap: seq<nat>, i: nat)
    requires 1 <= h && ConstantsRight(2 * h, m, c) && ResidueSum(c) <= WordBase(h) && AllWords(WordBase(h), ap) && i < |ap|
    ensures 0 < WordBase(h) && 0 < WordBase(h) * WordBase(h)
    ensures Folded(WordBase(h), ap, c, i) < WordBase(h) * WordBase(h)
    ensures Congruent(m, Folded(WordBase(h), ap, c, i), Value(WordBase(h), ap, i))
    decreases |ap| - i
  {
    hide *;
    var B := WordBase(h);
    LimbsAreWords(B, ap, i);
    if |ap| <= i + 4 {
      TopRight(h, m, c, ap, i);
      FoldedTop(B, ap, c, i);
    } else {
      FoldedRight(h, m, c, ap, i + 4);
      var v := Folded(B, ap, c, i + 4);
      Digits(B, v);
      FoldRight(h, m, c, ap, i, v / B, v % B);
      FoldedStep(B, ap, c, i, v / B, v % B);
    }
  }

  lemma LimbsAreWords(B: nat, ap: seq<nat>, i: nat)
    requires AllWords(B, ap) && i < |ap|
    ensures 0 < B && 0 < B * B && ap[i] < B
  {
    assert ap[i] < B;
    MulMonotone(1, B, 1, B);
  }

  lemma FoldRight(h: nat, m: nat, c: Constants, ap: seq<nat>, i: nat, rh: nat, rl: nat)
    requires ConstantsRight(2 * h, m, c) && ResidueSum(c) <= WordBase(h) && AllWords(WordBase(h), ap) && i + 4 <= |ap|
    requires rh < WordBase(h) && rl < WordBase(h)
    requires Congruent(m, Double(WordBase(h), rh, rl), Value(WordBase(h), ap, i + 4))
    ensures 0 < WordBase(h) * WordBase(h)
    ensures var S := FoldTerms(ap, i, c, rh, rl);
            S % (WordBase(h) * WordBase(h)) == S < WordBase(h) * WordBase(h) && Congruent(m, S, Value(WordBase(h), ap, i))
  {
    hide Congruent, WordBase, ConstantsRight, Value, Double;
    var B := WordBase(h);
    LimbsAreWords(B, ap, i);
    FoldCongruent(h, m, c, ap, i, rh, rl);
    FoldFits(B, ap[i], ap[i + 1], ap[i + 2], ap[i + 3], rl, rh, c.b1, c.b2, c.b3, c.b4, c.b5);
    SmallMod(FoldTerms(ap, i, c, rh, rl), B * B);
  }

  lemma Digits(B: nat, v: nat)
    requires 0 < B && v < B * B
    ensures 0 <= v / B < B && 0 <= v % B < B && Double(B, v / B, v % B) == v
  {
    var q := v / B;
    assert v == B * q + v % B;
    HighWordFits(B, v, q, v % B);
  }

  lemma TopRight(h: nat, m: nat, c: Constants, ap: seq<nat>, i: nat)
    requires ConstantsRight(2 * h, m, c) && ResidueSum(c) <= WordBase(h) && AllWords(WordBase(h), ap) && i < |ap| <= i + 4
    ensures 0 < WordBase(h) * WordBase(h) && TopTerms(WordBase(h), ap, i, c) < WordBase(h) * WordBase(h)
    ensures Congruent(m, TopTerms(WordBase(h), ap, i, c), Value(WordBase(h), ap, i))
  {
    hide Congruent, WordBase, ConstantsRight, Value;
    var B, n := WordBase(h), |ap|;
    assert ap[i] < B;
    MulMonotone(1, B, 1, B);
    ShortValues(B, ap);
    CongruentSelf(m, Value(B, ap, i));
    if n == i + 1 {
      DoubleBound(B, 0, ap[i]);
    } else if n == i + 2 {
      DoubleBound(B, ap[i + 1], ap[i]);
    } else if n == i + 3 {
      FoldFits(B, ap[i], ap[i + 1], ap[i + 2], 0, 0, 0, c.b1, c.b2, c.b3, c.b4, c.b5);
      SmallMod(ap[i] + ap[i + 1] * c.b1 + ap[i + 2] * c.b2, B * B);
      ThreeLimbs(h, m, c, ap);
    } else {
      FoldFits(B, ap[i], ap[i + 1], ap[i + 2], ap[i + 3], 0, 0, c.b1, c.b2, c.b3, c.b4, c.b5);
      SmallMod(ap[i] + ap[i + 1] * c.b1 + ap[i + 2] * c.b2 + ap[i + 3] * c.b3, B * B);
      FoldCongruentTop(h, m, c, ap);
    }
  }

  // ---------- when it is not ----------

  /** x and then five limbs of ones. */
  function SixLimbs(B: nat, x: nat): (ap: seq<nat>)
    requires 0 < B
    ensures |ap| == 6
  {
    [x, B - 1, B - 1, B - 1, B - 1, B - 1]
  }

  lemma SixWords(B: nat, x: nat)
    requires 0 < B && x < B
    ensures AllWords(B, SixLimbs(B, x)) && 0 < B * B
  {
    MulMonotone(1, B, 1, B);
  }

  /** Only the lowest limb of those numbers differs. */
  lemma LowestLimb(B: nat, x: nat)
    requires 0 < B
    ensures Value(B, SixLimbs(B, x), 0) == x + Value(B, SixLimbs(B, 0), 0)
  {
    var a, b := SixLimbs(B, x), SixLimbs(B, 0);
    assert Value(B, a, 6) == Value(B, b, 6);
    assert Value(B, a, 5) == Value(B, b, 5);
    assert Value(B, a, 4) == Value(B, b, 4);
    assert Value(B, a, 3) == Value(B, b, 3);
    assert Value(B, a, 2) == Value(B, b, 2);
    assert Value(B, a, 1) == Value(B, b, 1);
  }

  lemma SixFolded(B: nat, c: Constants, x: nat)
    requires 0 < B && 0 < B * B
    ensures Folded(B, SixLimbs(B, x), c, 0) == (x + (B - 1) * ResidueSum(c)) % (B * B)
    ensures FoldTerms(SixLimbs(B, x), 0, c, B - 1, B - 1) == x + (B - 1) * ResidueSum(c)
  {
    var ap := SixLimbs(B, x);
    assert Folded(B, ap, c, 4) == TopTerms(B, ap, 4, c) == Double(B, B - 1, B - 1);
    FoldedStep(B, ap, c, 0, B - 1, B - 1);
    Distribute5(B - 1, c.b1, c.b2, c.b3, c.b4, c.b5);
  }

  /** With a larger sum the fold of these limbs wraps once or twice. */
  lemma SixWrap(B: nat, m: nat, c: Constants, x: nat) returns (k: nat)
    requires 0 < m && 2 * m < B && 1 <= x <= m && B < ResidueSum(c)
    requires c.b1 < m && c.b2 < m && c.b3 < m && c.b4 < m && c.b5 < m
    ensures 1 <= k <= 2 && 0 < B * B
    ensures x + (B - 1) * ResidueSum(c) == (x + (B - 1) * ResidueSum(c)) % (B * B) + k * (B * B)
  {
    OnesTimes(B, ResidueSum(c));
    var S := x + (B - 1) * ResidueSum(c);
    k := Wraps(B * B, S);
  }

  lemma OnesTimes(B: nat, T: nat)
    requires 0 < B < T && 2 * T <= 5 * B
    ensures 0 < B * B && B * B <= (B - 1) * T + 1 && 2 * ((B - 1) * T) <= 5 * (B * B) - 5 * B
  {
    MulMonotone(1, B, 1, B);
    MulMonotone(B - 1, B - 1, B + 1, T);
    assert (B - 1) * (B + 1) == B * B - 1;
    MulMonotone(B - 1, B - 1, 2 * T, 5 * B);
    assert (B - 1) * (2 * T) == 2 * ((B - 1) * T);
    assert (B - 1) * (5 * B) == 5 * (B * B) - 5 * B;
  }

  lemma Wraps(M: nat, S: nat) returns (k: nat)
    requires 0 < M <= S < 3 * M
    ensures 1 <= k <= 2 && S == S % M + k * M
  {
    k := if S < 2 * M then 1 else 2;
    ModUnique(S, M, k, S - k * M);
  }

  /** An odd number does not divide once or twice the square of the word base. */
  lemma OddAndBase(h: nat, m: nat, k: nat)
    requires 3 <= m && m % 2 == 1 && 1 <= k <= 2
    ensures !Divides(m, k * (WordBase(h) * WordBase(h)))
  {
    hide Pow2;
    var N := 4 * h + k - 1;
    Pow2Add(2 * h, 2 * h);
    assert WordBase(h) == Pow2(2 * h);
    assert Pow2(N) == k * Pow2(4 * h) by { DoublePower(4 * h); }
    if Divides(m, Pow2(N)) {
      var e := Pow2(N) / m;
      assert Pow2(N) == m * e;
      DivisorOfPow2(m, e, N);
      OddNotPowerOfTwo(m);
    }
  }

  lemma DoublePower(n: nat)
    ensures Pow2(n + 1) == 2 * Pow2(n)
  {
  }

  /** If the residues add up to more than B, some number of six limbs is divided by m and folds to one that is not. */
  lemma FoldedWrong(h: nat, m: nat, c: Constants) returns (ap: seq<nat>)
    requires 1 <= h && 3 <= m && m % 2 == 1 && 2 * m < WordBase(h) && ConstantsRight(2 * h, m, c) && WordBase(h) < ResidueSum(c)
    ensures |ap| == 6 && AllWords(WordBase(h), ap) && 0 < WordBase(h) * WordBase(h)
    ensures Divides(m, Value(WordBase(h), ap, 0)) && !Divides(m, Folded(WordBase(h), ap, c, 0))
  {
    hide *;
    var B := WordBase(h);
    var rest := Value(B, SixLimbs(B, 0), 0);
    var x := CompleteTo(m, rest);
    ap := SixLimbs(B, x);
    SixWords(B, x);
    LowestLimb(B, x);
    ResiduesBelow(h, m, c);
    var k := SixWrap(B, m, c, x);
    var S := x + (B - 1) * ResidueSum(c);
    SixFolded(B, c, x);
    SixTop(B, x);
    CongruentSelf(m, Value(B, ap, 4));
    FoldCongruent(h, m, c, ap, 0, B - 1, B - 1);
    FoldTermsAre(ap, 0, c, B - 1, B - 1);
    CongruentDivides(m, S, Value(B, ap, 0));
    OddAndBase(h, m, k);
    RemainderNotDivided(m, S % (B * B), k * (B * B), S);
  }

  lemma ResiduesBelow(h: nat, m: nat, c: Constants)
    requires ConstantsRight(2 * h, m, c)
    ensures c.b1 < m && c.b2 < m && c.b3 < m && c.b4 < m && c.b5 < m
  {
  }

  lemma FoldTermsAre(ap: seq<nat>, i: nat, c: Constants, rh: nat, rl: nat)
    requires i + 4 <= |ap|
    ensures FoldTerms(ap, i, c, rh, rl) == ap[i] + ap[i + 1] * c.b1 + ap[i + 2] * c.b2 + ap[i + 3] * c.b3 + rl * c.b4 + rh * c.b5
  {
  }

  lemma SixTop(B: nat, x: nat)
    requires 0 < B
    ensures Double(B, B - 1, B - 1) == Value(B, SixLimbs(B, x), 4)
  {
    ShortValues(B, SixLimbs(B, x));
  }

  /** A multiple of m comes after at most m steps. */
  lemma CompleteTo(m: nat, rest: nat) returns (x: nat)
    requires 0 < m
    ensures 1 <= x <= m && Divides(m, x + rest)
  {
    x := m - rest % m;
    var q := rest / m;
    assert rest == m * q + rest % m;
    assert x + rest == m * (q + 1);
    DividesIntro(m, q + 1, x + rest);
  }

  lemma CongruentDivides(m: nat, x: nat, y: nat)
    requires 0 < m && Congruent(m, x, y)
    ensures Divides(m, x) <==> Divides(m, y)
  {
    CongruentSameRemainder(m, x, y);
  }

  lemma RemainderNotDivided(m: nat, f: nat, km: nat, s: nat)
    requires s == f + km && Divides(m, s) && !Divides(m, km)
    ensures !Divides(m, f)
  {
    if Divides(m, f) {
      var a, b := s / m, f / m;
      assert s == m * a && f == m * b;
      assert km == m * (a - b) + 0;
      ModUnique(km, m, a - b, 0);
    }
  }

  // ---------- the final division ----------

  lemma ScaledRemainder(V: nat, m: nat, p: nat)
    requires 1 <= m && 1 <= p
    ensures 1 <= m * p && (V * p) % (m * p) == (V % m) * p
  {
    var q, r := V / m, V % m;
    assert V == m * q + r;
    MulMonotone(r + 1, m, p, p);
    assert (r + 1) * p == r * p + p;
    assert (m * q + r) * p == (m * p) * q + r * p;
    MulMonotone(1, m, 1, p);
    ModUnique(V * p, m * p, q, r * p);
  }

  lemma ShiftBack(x: nat, cnt: nat)
    ensures Shr(x * Pow2(cnt), cnt) == x
  {
    HighPart(x * Pow2(cnt), cnt);
    ModUnique(x * Pow2(cnt), Pow2(cnt), x, 0);
  }

  /** The double word shifted left by cnt, as the three word shifts compute it. */
  lemma ShiftedDouble(h: nat, L: nat, cnt: nat, rh: nat, rl: nat)
    requires L + cnt == 2 * h && rh < Pow2(L) && rl < WordBase(h)
    ensures var r, l := Or(Shl(2 * h, rh, cnt), Shr(rl, L)), Shl(2 * h, rl, cnt);
            l < WordBase(h) && Double(WordBase(h), r, l) == Double(WordBase(h), rh, rl) * Pow2(cnt)
  {
    hide Pow2, Shr, Or;
    var B, p, q := WordBase(h), Pow2(cnt), Pow2(L);
    assert B == Pow2(2 * h);
    Pow2Add(L, cnt);
    HighPart(rl, L);
    var u, v := rl / q, rl % q;
    assert rl == q * u + v;
    QuotientOfShift(rl, q, p, u);
    WordShift(B, q, p, rl, u, v);
    WordShift(B, q, p, rh, 0, rh);
    OrDisjoint(rh, u, cnt);
    JoinShift(rh, u, v, q, p, B, rl);
  }

  lemma QuotientOfShift(rl: nat, q: nat, p: nat, u: nat)
    requires 1 <= q && rl < q * p && u == rl / q
    ensures u < p
  {
    assert rl == q * u + rl % q;
    if p <= u {
      MulMonotone(q, q, p, u);
    }
  }

  lemma WordShift(B: nat, q: nat, p: nat, x: nat, u: nat, v: nat)
    requires 1 <= p && B == q * p && x == q * u + v && v < q
    ensures 0 < B && (x * p) % B == v * p && v * p < B
  {
    MulMonotone(v + 1, q, p, p);
    assert (v + 1) * p == v * p + p;
    assert (q * u + v) * p == (q * p) * u + v * p;
    ModUnique(x * p, B, u, v * p);
  }

  lemma JoinShift(rh: int, u: int, v: int, q: int, p: int, B: int, rl: int)
    requires rl == q * u + v && B == q * p
    ensures (rh * p + u) * B + v * p == (rh * B + rl) * p
  {
    assert (rh * p + u) * B == (rh * B) * p + u * B;
    assert u * (q * p) == (q * u) * p;
    assert (rh * B + (q * u + v)) * p == (rh * B) * p + (q * u) * p + v * p;
  }

  /** Folding the high word once more leaves less than B * m. */
  lemma LastFold(h: nat, m: nat, c: Constants, rh: nat, rl: nat, V: nat)
    requires 1 <= h && ConstantsRight(2 * h, m, c) && rh < WordBase(h) && rl < WordBase(h) && 1 <= m
    requires Congruent(m, Double(WordBase(h), rh, rl), V)
    ensures Congruent(m, rh * c.b1 + rl, V)
    ensures rh * c.b1 + rl < WordBase(h) * m
  {
    hide Congruent, Power;
    var B := WordBase(h);
    assert B == Pow2(2 * h);
    FirstPowers(B);
    CongruentScale(m, c.b1, B, rh);
    CongruentSelf(m, rl);
    CongruentSum(m, rh * c.b1, rh * B, rl, rl);
    CongruentTrans(m, rh * c.b1 + rl, Double(B, rh, rl), V);
    LastFoldFits(B, m, rh, rl, c.b1);
  }

  lemma LastFoldFits(B: nat, m: nat, rh: nat, rl: nat, b1: nat)
    requires rh < B && rl < B && b1 < m
    ensures rh * b1 + rl < B * m
  {
    MulMonotone(rh, B - 1, b1, m - 1);
    assert (B - 1) * (m - 1) == B * m - B - m + 1;
  }

  /** A double word below B * m has its high word below m, and shifting both keeps that. */
  lemma HighBelow(B: nat, rh: nat, rl: nat, m: nat)
    requires Double(B, rh, rl) < B * m
    ensures rh < m
  {
    if m <= rh {
      MulMonotone(m, rh, B, B);
    }
  }

  /** The divisor that mpn_mod_1s_4p is called with: m shifted up to the top bit. */
  ghost predicate Prepared(h: nat, m: nat, b: nat, c: Constants) {
    && ConstantsRight(2 * h, m, c) && 1 <= c.cnt && b == m * Pow2(c.cnt) && b != 0
    && Normalised(WordBase(h), b) && c.bi == Inverse21(WordBase(h), b)
  }

  lemma PreparedFacts(h: nat, m: nat, b: nat, c: Constants)
    requires Prepared(h, m, b, c)
    ensures ConstantsRight(2 * h, m, c) && 1 <= m && 1 <= c.cnt && b == m * Pow2(c.cnt) && b != 0
    ensures Normalised(WordBase(h), b) && c.bi == Inverse21(WordBase(h), b)
    ensures BitLength(m) + c.cnt == 2 * h && m < Pow2(BitLength(m))
    ensures Residues(h, c) && 2 * m < WordBase(h)
  {
    BitLengthBounds(m);
    Pow2Monotone(BitLength(m) + 1, 2 * h);
  }

  lemma FourTimes(n: nat) returns (q: nat)
    requires n % 4 == 0
    ensures n == 4 * q
  {
    q := n / 4;
  }

  /**
   mpn_mod_1s_4p: the remainder of the fold, which is the remainder of the whole number if
   the residues add up to at most B.
   */
  method Mod1s4p(h: nat, ap: seq<nat>, ghost m: nat, b: nat, c: Constants, inclusive: bool) returns (r: nat)
    requires 1 <= h && 1 <= |ap| && AllWords(WordBase(h), ap) && Prepared(h, m, b, c)
    ensures m != 0 && 0 < WordBase(h) && 0 < WordBase(h) * WordBase(h) && r == Folded(WordBase(h), ap, c, 0) % m
    ensures ResidueSum(c) <= WordBase(h) ==> r == Value(WordBase(h), ap, 0) % m
  {
    hide *;
    PreparedFacts(h, m, b, c);
    WordBaseFacts(h);
    var B := WordBase(h);
    ghost var V := Folded(B, ap, c, 0);
    var rh: nat, rl: nat, n: nat := TopLimbs(h, ap, c);
    var i: int := n as int - 4;
    ghost var q: nat := FourTimes(n);
    FoldedTop(B, ap, c, n);
    while i >= 0
      invariant i == 4 * q - 4 && i + 4 < |ap|
      invariant rh < B && rl < B
      invariant Double(B, rh, rl) == Folded(B, ap, c, i + 4)
    {
      FoldedStep(B, ap, c, i, rh, rl);
      rh, rl := FoldBlock(h, ap, i, rh, rl, c);
      i := i - 4;
      q := q - 1;
    }
    CongruentSelf(m, V);
    LastFold(h, m, c, rh, rl, V);
    r := DivideLast(h, rh, rl, m, b, c, inclusive);
    CongruentSameRemainder(m, rh * c.b1 + rl, V);
    if ResidueSum(c) <= B {
      FoldedRight(h, m, c, ap, 0);
      CongruentSameRemainder(m, V, Value(B, ap, 0));
    }
  }

  lemma FoldedTop(B: nat, ap: seq<nat>, c: Constants, i: nat)
    requires i < |ap| <= i + 4 && 0 < B * B && 0 < B
    ensures Folded(B, ap, c, i) == TopTerms(B, ap, i, c)
  {
  }

  /** The remainder is right for every number if and only if the residues add up to at most B. */
  lemma RemainderExact(h: nat, m: nat, b: nat, c: Constants)
    requires 1 <= h && 3 <= m && m % 2 == 1 && Prepared(h, m, b, c) && 0 < WordBase(h) && 0 < WordBase(h) * WordBase(h)
    ensures (forall ap: seq<nat> | 1 <= |ap| && AllWords(WordBase(h), ap) :: FoldDecides(WordBase(h), m, c, ap)) <==> ResidueSum(c) <= WordBase(h)
  {
    hide Congruent, Divides, Value, Folded, ConstantsRight, WordBase, AllWords;
    PreparedFacts(h, m, b, c);
    var B := WordBase(h);
    if ResidueSum(c) <= B {
      forall ap: seq<nat> | 1 <= |ap| && AllWords(B, ap)
        ensures FoldDecides(B, m, c, ap)
      {
        FoldedRight(h, m, c, ap, 0);
        CongruentDivides(m, Folded(B, ap, c, 0), Value(B, ap, 0));
      }
    } else {
      var ap := FoldedWrong(h, m, c);
      assert !FoldDecides(B, m, c, ap);
    }
  }

  /** The fold of the number is divided by m exactly when the number is. */
  ghost predicate FoldDecides(B: nat, m: nat, c: Constants, ap: seq<nat>)
    requires 1 <= |ap| && 0 < B && 0 < B * B
  {
    Divides(m, Folded(B, ap, c, 0)) <==> Divides(m, Value(B, ap, 0))
  }

  /** The end of mpn_mod_1s_4p. */
  method DivideLast(h: nat, rh0: nat, rl0: nat, ghost m: nat, b: nat, c: Constants, inclusive: bool) returns (r: nat)
    requires 1 <= h && rh0 < WordBase(h) && rl0 < WordBase(h) && Prepared(h, m, b, c)
    requires rh0 * c.b1 + rl0 < WordBase(h) * m && m <= WordBase(h)
    ensures m != 0 && r == (rh0 * c.b1 + rl0) % m
  {
    hide *;
    PreparedFacts(h, m, b, c);
    assert 2 * h - c.cnt == BitLength(m) && 0 <= c.cnt;
    WordBaseFacts(h);
    var B := WordBase(h);
    Inverse21IsWord(B, b);
    ghost var V := rh0 * c.b1 + rl0;
    var rh, cl := UmulPpmm(h, rh0, c.b1);
    var rl;
    rh, rl := AddSsaaaa(B, rh, cl, 0, rl0);
    DoubleOfWord(B, rl0);
    MulMonotone(B, B, m, B);
    SmallMod(V, B * B);
    HighBelow(B, rh, rl, m);
    ShiftedDouble(h, BitLength(m), c.cnt, rh, rl);
    ScaledRemainder(V, m, Pow2(c.cnt));
    r := Or(Shl(2 * h, rh, c.cnt), Shr(rl, 2 * h - c.cnt));
    var low := Shl(2 * h, rl, c.cnt);
    ScaledBelow(V, B, m, Pow2(c.cnt));
    HighBelow(B, r, low, b);
    r := UdivRnndPreinv(h, r, low, b, c.bi, inclusive);
    ShiftBack(V % m, c.cnt);
    r := Shr(r, c.cnt);
  }

  lemma DoubleOfWord(B: nat, x: nat)
    ensures Double(B, 0, x) == x
  {
  }

  lemma ScaledBelow(V: nat, B: nat, m: nat, p: nat)
    requires V < B * m && 1 <= p
    ensures V * p < B * (m * p)
  {
    ScaleOrder(V, B * m, p);
    assert (B * m) * p == B * (m * p);
  }
}

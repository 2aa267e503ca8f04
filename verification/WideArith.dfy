/**
 lib/gmp/longlong.h: the plain C double-word arithmetic.  A word (UWtype) has 2h bits,
 a half word h bits; __ll_B is Pow2(h).
 */
module WideArith {
  import opened Limbs
  import opened Primes

  /** B, one more than the largest word. */
  function WordBase(h: nat): (B: nat)
    ensures 1 <= B && B == Pow2(h) * Pow2(h)
  {
    Pow2Add(h, h);
    Pow2(2 * h)
  }

  /** The number in the double word (hi, lo). */
  function Double(B: nat, hi: nat, lo: nat): nat {
    hi * B + lo
  }

  lemma DoubleBound(B: nat, hi: nat, lo: nat)
    requires hi < B && lo < B
    ensures Double(B, hi, lo) < B * B
  {
    MulMonotone(hi + 1, B, B, B);
  }

  // ---------- half words ----------

  lemma {:induction false} HighPart(x: nat, h: nat)
    ensures Shr(x, h) == x / Pow2(h)
  {
    if h != 0 {
      HighPart(x / 2, h - 1);
      HalveDiv(x, Pow2(h - 1));
    }
  }

  lemma HalveDiv(x: nat, m: nat)
    requires 0 < m
    ensures x / (2 * m) == (x / 2) / m
  {
    var y, p := x / 2, x % 2;
    var q, r := y / m, y % m;
    assert y == m * q + r;
    assert (2 * m) * q == 2 * (m * q);
    ModUnique(x, 2 * m, q, 2 * r + p);
  }

  lemma {:induction false} OrDisjoint(x: nat, y: nat, h: nat)
    requires y < Pow2(h)
    ensures Or(x * Pow2(h), y) == x * Pow2(h) + y
  {
    if h == 0 {
      OrWithZero(x);
    } else {
      var m := Pow2(h - 1);
      assert x * Pow2(h) == 2 * (x * m);
      if x * m == 0 {
      } else {
        OrDisjoint(x, y / 2, h - 1);
      }
    }
  }

  lemma {:induction false} OrWithZero(x: nat)
    ensures Or(x, 0) == x
  {
    if x != 0 {
      OrWithZero(x / 2);
    }
  }

  /** A word splits into its half words. */
  lemma Halves(x: nat, h: nat)
    requires x < WordBase(h)
    ensures And(x, Ones(h)) < Pow2(h) && Shr(x, h) < Pow2(h)
    ensures x == Shr(x, h) * Pow2(h) + And(x, Ones(h))
  {
    hide And, Shr, Ones, Pow2;
    LowPart(x, h);
    HighPart(x, h);
    QuotientBelow(x, Pow2(h));
  }

  lemma QuotientBelow(x: nat, b: nat)
    requires x < b * b
    ensures 0 <= x / b < b && x == (x / b) * b + x % b
  {
    var q := x / b;
    assert x == b * q + x % b;
    if b <= q {
      MulMonotone(b, b, b, q);
      assert false;
    }
  }

  // ---------- double-word addition and subtraction ----------

  /** add_ssaaaa */
  method AddSsaaaa(B: nat, ah: nat, al: nat, bh: nat, bl: nat) returns (sh: nat, sl: nat)
    requires ah < B && al < B && bh < B && bl < B
    ensures sh < B && sl < B
    ensures Double(B, sh, sl) == (Double(B, ah, al) + Double(B, bh, bl)) % (B * B)
  {
    hide Double;
    AddCarry(B, al, bl);
    var x := (al + bl) % B;
    var c := if x < al then 1 else 0;
    AddCarry(B, ah, bh + c);
    sh := (ah + bh + c) % B;
    sl := x;
    DoubleWrap(B, ah + bh + c, sh, if ah + bh + c < B then 0 else 1, sl);
    DoubleSum(B, ah, al, bh, bl, c, sl);
  }

  lemma DoubleSum(B: nat, ah: nat, al: nat, bh: nat, bl: nat, c: nat, sl: nat)
    requires al + bl == c * B + sl
    ensures Double(B, ah, al) + Double(B, bh, bl) == (ah + bh + c) * B + sl
  {
  }

  /** The carry out of a wrapped addition shows as a sum below the first operand. */
  lemma AddCarry(B: nat, x: nat, y: nat)
    requires x < B && y <= B
    ensures (x + y) % B == if x + y < B then x + y else x + y - B
    ensures (x + y) / B == if x + y < B then 0 else 1
  {
    if x + y < B {
      ModUnique(x + y, B, 0, x + y);
    } else {
      ModUnique(x + y, B, 1, x + y - B);
    }
  }

  lemma DoubleWrap(B: nat, t: int, hi: nat, c: int, lo: nat)
    requires t == c * B + hi && hi < B && lo < B
    ensures 0 < B * B && (t * B + lo) % (B * B) == Double(B, hi, lo)
  {
    DoubleBound(B, hi, lo);
    ScaledWrap(B, t, hi, c);
    ModUnique(t * B + lo, B * B, c, Double(B, hi, lo));
  }

  lemma ScaledWrap(B: int, t: int, hi: int, c: int)
    requires t == c * B + hi
    ensures t * B == (B * B) * c + hi * B
  {
  }

  /** sub_ddmmss */
  method SubDdmmss(B: nat, ah: nat, al: nat, bh: nat, bl: nat) returns (sh: nat, sl: nat)
    requires ah < B && al < B && bh < B && bl < B
    ensures sh < B && sl < B
    ensures Double(B, sh, sl) == (Double(B, ah, al) - Double(B, bh, bl)) % (B * B)
  {
    hide Double;
    SubBorrow(B, al - bl);
    var x := (al - bl) % B;
    var c := if al < bl then 1 else 0;
    SubBorrow(B, ah - bh - c);
    sh := (ah - bh - c) % B;
    sl := x;
    DoubleWrap(B, ah - bh - c, sh, if ah - bh - c < 0 then -1 else 0, sl);
    DoubleDifference(B, ah, al, bh, bl, c, sl);
  }

  lemma DoubleDifference(B: nat, ah: nat, al: nat, bh: nat, bl: nat, c: int, sl: nat)
    requires al - bl == sl - c * B
    ensures Double(B, ah, al) - Double(B, bh, bl) == (ah - bh - c) * B + sl
  {
  }

  lemma SubBorrow(B: nat, t: int)
    requires -(B as int) <= t < B
    ensures t % B == if t < 0 then t + B else t
  {
    if t < 0 {
      ModUnique(t, B, -1, t + B);
    } else {
      ModUnique(t, B, 0, t);
    }
  }

  // ---------- umul_ppmm ----------

  lemma HalfProduct(B: nat, b: nat, x: nat, y: nat)
    requires B == b * b && x < b && y < b
    ensures x * y < B && (x * y) % B == x * y
    ensures x * y + b <= b * b - b + 1
  {
    MulMonotone(x, b - 1, y, b - 1);
    assert (b - 1) * (b - 1) == (b - 1) * b - (b - 1);
    assert b * b == (b - 1) * b + b;
    ModUnique(x * y, B, 0, x * y);
  }

  /** Four columns of words, the two middle ones half a word up. */
  function Columns(B: nat, b: nat, x0: nat, x1: nat, x2: nat, x3: nat): nat {
    x3 * B + (x1 + x2) * b + x0
  }

  /** u * v in terms of its four partial products. */
  lemma ProductHalves(B: nat, b: nat, u: nat, v: nat, ul: nat, uh: nat, vl: nat, vh: nat)
    requires B == b * b && u == uh * b + ul && v == vh * b + vl
    ensures u * v == Columns(B, b, ul * vl, ul * vh, uh * vl, uh * vh)
  {
    Distribute(uh * b, ul, vh * b, vl);
    Interchange(uh, b, vh, b);
    Swap(uh, b, vl);
    Associate(ul, vh, b);
    AddProducts(ul * vh, uh * vl, b);
  }

  lemma Swap(x: int, b: int, y: int)
    ensures (x * b) * y == (x * y) * b
  {
  }

  lemma AddProducts(x: int, y: int, b: int)
    ensures (x + y) * b == x * b + y * b
  {
  }

  /** The columns with the carry out of the middle ones and their halves put in place. */
  lemma ColumnSum(B: nat, b: nat, x0: nat, x1: nat, x2: nat, x3: nat, hx0: nat, lx0: nat, carry: bool, hy: nat, ly: nat)
    requires B == b * b && x0 == hx0 * b + lx0
    requires x1 + hx0 + x2 == (if carry then B else 0) + (hy * b + ly)
    ensures Columns(B, b, x0, x1, x2, x3) == (x3 + (if carry then b else 0) + hy) * B + (ly * b + lx0)
  {
    AddProducts(x1 + x2, hx0, b);
    MiddleColumn(B, b, if carry then 1 else 0, hy, ly);
    AddProducts(x3, (if carry then b else 0) + hy, B);
  }

  lemma MiddleColumn(B: int, b: int, c: int, x: int, y: int)
    requires B == b * b
    ensures (c * B + (x * b + y)) * b == (c * b + x) * B + y * b
  {
    assert (c * B) * b == (c * b) * B;
    assert (x * b) * b == x * B;
  }

  lemma Distribute(a: int, b: int, c: int, d: int)
    ensures (a + b) * (c + d) == a * c + a * d + b * c + b * d
  {
  }

  /** A number below B * B has a high word below B. */
  lemma HighWordFits(B: nat, n: nat, hi: nat, lo: nat)
    requires n < B * B && n == hi * B + lo
    ensures hi < B
  {
    if B <= hi {
      MulMonotone(B, hi, B, B);
      assert false;
    }
  }

  lemma LowWordFits(B: nat, b: nat, x: nat, y: nat)
    requires B == b * b && x < b && y < b
    ensures x * b + y < B
  {
    MulMonotone(x + 1, b, b, b);
  }

  /** Shifting a word left by half its width keeps its low half. */
  lemma ShiftLow(h: nat, x: nat)
    requires x < WordBase(h)
    ensures Shl(2 * h, x, h) == And(x, Ones(h)) * Pow2(h)
  {
    hide And, Ones, Pow2;
    LowPart(x, h);
    Pow2Add(h, h);
    ShiftedLow(x, Pow2(h));
  }

  lemma ShiftedLow(x: nat, b: nat)
    requires 0 < b
    ensures 0 < b * b && (x * b) % (b * b) == (x % b) * b
  {
    var q, r := x / b, x % b;
    assert x == b * q + r;
    LowWordFits(b * b, b, r, 0);
    assert (b * q) * b == (b * b) * q;
    ModUnique(x * b, b * b, q, r * b);
  }

  lemma SquareBound(B: nat, u: nat, v: nat)
    requires u < B && v < B
    ensures u * v < B * B
  {
    MulMonotone(u, B - 1, v, B);
  }

  /** The partial products are words, and the two additions that must not carry do not. */
  lemma PartialProducts(h: nat, ul: nat, uh: nat, vl: nat, vh: nat)
    requires 1 <= h && ul < Pow2(h) && uh < Pow2(h) && vl < Pow2(h) && vh < Pow2(h)
    ensures ul * vl < WordBase(h) && (ul * vl) % WordBase(h) == ul * vl
    ensures (ul * vh) % WordBase(h) == ul * vh && ul * vh + Pow2(h) <= WordBase(h)
    ensures uh * vl < WordBase(h) && (uh * vl) % WordBase(h) == uh * vl
    ensures (uh * vh) % WordBase(h) == uh * vh && uh * vh + Pow2(h) < WordBase(h)
  {
    hide *;
    var B, b := WordBase(h), Pow2(h);
    BaseAtLeastTwo(h);
    HalfProduct(B, b, ul, vl);
    HalfProduct(B, b, ul, vh);
    HalfProduct(B, b, uh, vl);
    HalfProduct(B, b, uh, vh);
  }

  /** The additions of umul_ppmm: the columns in two words. */
  method AddColumns(h: nat, x0: nat, x1: nat, x2: nat, x3: nat) returns (w1: nat, w0: nat)
    requires 1 <= h && x0 < WordBase(h) && x1 + Pow2(h) <= WordBase(h) && x2 < WordBase(h) && x3 + Pow2(h) < WordBase(h)
    requires Columns(WordBase(h), Pow2(h), x0, x1, x2, x3) < WordBase(h) * WordBase(h)
    ensures w1 < WordBase(h) && w0 < WordBase(h)
    ensures Double(WordBase(h), w1, w0) == Columns(WordBase(h), Pow2(h), x0, x1, x2, x3)
  {
    hide *;
    var B, b := WordBase(h), Pow2(h);
    Halves(x0, h);
    SmallMod(x1 + Shr(x0, h), B);
    var y := (x1 + Shr(x0, h)) % B;
    AddCarry(B, x2, y);
    y := (y + x2) % B;
    var z := x3;
    if y < x2 {
      SmallMod(x3 + b, B);
      z := (x3 + b) % B;
    }
    ColumnsFit(h, x0, x1, x2, x3, y < x2, y);
    SmallMod(z + Shr(y, h), B);
    SmallMod(Shl(2 * h, y, h) + And(x0, Ones(h)), B);
    w1 := (z + Shr(y, h)) % B;
    w0 := (Shl(2 * h, y, h) + And(x0, Ones(h))) % B;
  }

  /** umul_ppmm: the exact double-word product from four half-word products. */
  method UmulPpmm(h: nat, u: nat, v: nat) returns (w1: nat, w0: nat)
    requires 1 <= h && u < WordBase(h) && v < WordBase(h)
    ensures w1 < WordBase(h) && w0 < WordBase(h)
    ensures Double(WordBase(h), w1, w0) == u * v
  {
    hide *;
    var B := WordBase(h);
    var ul, uh := And(u, Ones(h)), Shr(u, h);
    var vl, vh := And(v, Ones(h)), Shr(v, h);
    Halves(u, h);
    Halves(v, h);
    PartialProducts(h, ul, uh, vl, vh);
    var x0, x1, x2, x3 := ul * vl % B, ul * vh % B, uh * vl % B, uh * vh % B;
    ProductHalves(B, Pow2(h), u, v, ul, uh, vl, vh);
    SquareBound(B, u, v);
    w1, w0 := AddColumns(h, x0, x1, x2, x3);
  }

  /** The two result words, before reduction, are words and make up the columns. */
  lemma ColumnsFit(h: nat, x0: nat, x1: nat, x2: nat, x3: nat, carry: bool, y: nat)
    requires x0 < WordBase(h) && y < WordBase(h)
    requires x1 + Shr(x0, h) + x2 == (if carry then WordBase(h) else 0) + y
    requires Columns(WordBase(h), Pow2(h), x0, x1, x2, x3) < WordBase(h) * WordBase(h)
    ensures var hi, lo := x3 + (if carry then Pow2(h) else 0) + Shr(y, h), Shl(2 * h, y, h) + And(x0, Ones(h));
            && hi < WordBase(h) && lo < WordBase(h)
            && Columns(WordBase(h), Pow2(h), x0, x1, x2, x3) == Double(WordBase(h), hi, lo)
  {
    hide *;
    var B, b := WordBase(h), Pow2(h);
    Halves(x0, h);
    Halves(y, h);
    ShiftLow(h, y);
    var hi := x3 + (if carry then b else 0) + Shr(y, h);
    var lx0, ly := And(x0, Ones(h)), And(y, Ones(h));
    ColumnSum(B, b, x0, x1, x2, x3, Shr(x0, h), lx0, carry, Shr(y, h), ly);
    LowWordFits(B, b, ly, lx0);
    DoubleValue(B, hi, ly * b + lx0);
    HighWordFits(B, Columns(B, b, x0, x1, x2, x3), hi, ly * b + lx0);
  }

  lemma BaseAtLeastTwo(h: nat)
    requires 1 <= h
    ensures 2 <= Pow2(h)
  {
    Pow2Monotone(1, h);
  }

  lemma DoubleValue(B: nat, hi: nat, lo: nat)
    ensures Double(B, hi, lo) == hi * B + lo
  {
  }

  // ---------- __udiv_qrnnd_c ----------

  lemma ProductOrder(x: int, y: int, d: int)
    requires 0 < d && x * d < y * d
    ensures x < y
  {
    assert (x - y) * d < 0;
    ProductSign(x - y, d);
  }

  lemma ProductSign(x: int, d: int)
    requires 0 < d && x * d < 0
    ensures x < 0
  {
  }

  /** A normalised divisor has its top bit set. */
  predicate Normalised(B: nat, d: nat) {
    d < B <= 2 * d
  }

  /** The high half of a normalised divisor is at least half a half word. */
  lemma NormalisedHigh(B: nat, b: nat, d: nat, d1: nat, d0: nat)
    requires 2 <= b && B == b * b && Normalised(B, d) && d == d1 * b + d0 && d0 < b
    ensures b <= 2 * d1 + 1 && 1 <= d1
  {
    assert (2 * d1 + 2) * b == 2 * (d1 * b) + 2 * b;
    ProductOrder(b, 2 * d1 + 2, b);
  }

  /** The estimated half quotient exceeds the half-word range by at most one. */
  lemma EstimateBound(b: nat, d: nat, d1: nat, d0: nat, n: nat, q: nat)
    requires 2 <= b && d == d1 * b + d0 && d0 < b && n < d && q * d1 <= n && b <= 2 * d1
    ensures q <= b + 1 && q * d0 < b * b
  {
    assert (b + 2) * d1 == d1 * b + 2 * d1;
    ProductOrder(q, b + 2, d1);
    MulMonotone(q, b + 1, d0, b - 1);
    assert (b + 1) * (b - 1) == b * b - 1;
  }

  /** What the estimate leaves: the dividend is q * d plus a remainder that may be negative. */
  lemma EstimateRemainder(b: int, d: int, d1: int, d0: int, n: int, x: int, q: int, r: int)
    requires d == d1 * b + d0 && n == q * d1 + r
    ensures n * b + x == q * d + (r * b + x - q * d0)
  {
    assert (q * d1 + r) * b == q * (d1 * b) + r * b;
    assert q * (d1 * b + d0) == q * (d1 * b) + q * d0;
  }

  lemma QuotientFits(b: nat, d: nat, n: nat, x: nat, q: int, r: nat)
    requires 0 < d && n < d && x < b && r < d && n * b + x == q * d + r
    ensures 0 <= q < b
  {
    MulMonotone(n + 1, d, b, b);
    assert (n + 1) * b == n * b + b;
    ProductOrder(q, b, d);
    ProductOrder(-1, q, d);
  }

  /** Adding d back once or twice, with wrap-around, lands on the remainder. */
  lemma Corrections(B: nat, d: nat, t: nat, m: nat)
    requires Normalised(B, d) && t < d && m < B
    ensures t >= m ==> (t - m) % B == t - m
    ensures t < m && t + d >= B ==> (t + d) % B < d && ((t + d) % B - m) % B == t + d - m
    ensures t < m && t + d < B ==> (t + d) % B == t + d
    ensures t < m && t + d < B && t + d >= m ==> (t + d - m) % B == t + d - m
    ensures t < m && t + d < B && t + d < m ==> ((t + d + d) % B - m) % B == t + 2 * d - m
  {
    if t >= m {
      ModUnique(t - m, B, 0, t - m);
    } else if t + d >= B {
      ModUnique(t + d, B, 1, t + d - B);
      ModUnique(t + d - B - m, B, -1, t + d - m);
    } else {
      ModUnique(t + d, B, 0, t + d);
      if t + d >= m {
        ModUnique(t + d - m, B, 0, t + d - m);
      } else {
        var e := t + 2 * d;
        ModUnique(e, B, 1, e - B);
        ModUnique(e - B - m, B, -1, e - m);
      }
    }
  }

  /** The first estimate q = n / d1 fits, and leaves r1 * b + x - q * d0 below d. */
  lemma FirstEstimate(h: nat, n: nat, x: nat, d: nat, d1: nat, d0: nat)
    requires 1 <= h && Normalised(WordBase(h), d) && n < d && x < Pow2(h)
    requires d1 == Shr(d, h) && d0 == And(d, Ones(h))
    ensures 1 <= d1 && 0 <= n / d1 && 0 <= n - (n / d1) * d1 < d1
    ensures (n / d1) * d0 < WordBase(h)
    ensures (n - (n / d1) * d1) * Pow2(h) + x < d
    ensures n * Pow2(h) + x == (n / d1) * d + ((n - (n / d1) * d1) * Pow2(h) + x - (n / d1) * d0)
  {
    hide *;
    var B, b := WordBase(h), Pow2(h);
    BaseAtLeastTwo(h);
    HalfBaseEven(h);
    NormalisedRange(B, d);
    Halves(d, h);
    NormalisedHigh(B, b, d, d1, d0);
    DivisionFacts(n, d1);
    var q, r := n / d1, n - (n / d1) * d1;
    EstimateBound(b, d, d1, d0, n, q);
    EstimateRemainder(b, d, d1, d0, n, x, q, r);
    BelowDivisor(b, d, d1, d0, r, x);
  }

  /** One of the two half-quotient steps: divides n * b + x by d, with at most two corrections. */
  method HalfQuotient(h: nat, n: nat, x: nat, d: nat) returns (q: nat, r: nat)
    requires 1 <= h && Normalised(WordBase(h), d) && n < d && x < Pow2(h)
    ensures q < Pow2(h) && r < d
    ensures n * Pow2(h) + x == q * d + r
  {
    hide *;
    var B, b := WordBase(h), Pow2(h);
    var d1, d0 := Shr(d, h), And(d, Ones(h));
    FirstEstimate(h, n, x, d, d1, d0);
    NormalisedRange(B, d);
    q := n / d1;
    r := n - q * d1;
    SmallMod(q * d0, B);
    var m := q * d0 % B;
    SmallMod(r * b, B);
    OrDisjoint(r, x, h);
    r := Or(r * b % B, x);
    q, r := CorrectHalf(B, d, q, r, m, n * b + x);
    QuotientFits(b, d, n, x, q, r);
  }

  /** The corrections of one half-quotient step, with their wrap-around. */
  method CorrectHalf(B: nat, d: nat, qe: nat, t: nat, m: nat, ghost v: nat) returns (q: nat, r: nat)
    requires Normalised(B, d) && 0 < d && t < d && m < B && v == qe * d + (t - m)
    ensures r < d && v == q * d + r
  {
    hide *;
    q := qe;
    r := t;
    Corrections(B, d, t, m);
    if r < m {
      DecrementSafe(d, v, q, t, m);
      q := q - 1;
      r := (r + d) % B;
      if r >= d {
        if r < m {
          q := q - 1;
          r := (r + d) % B;
        }
      }
    }
    r := (r - m) % B;
  }

  lemma NormalisedRange(B: nat, d: nat)
    requires Normalised(B, d)
    ensures d < B <= 2 * d
  {
  }

  lemma HalfBaseEven(h: nat)
    requires 1 <= h
    ensures Pow2(h) % 2 == 0
  {
    DoubleIsEven(Pow2(h - 1));
  }

  lemma DoubleIsEven(x: nat)
    ensures (2 * x) % 2 == 0
  {
  }

  lemma DivisionFacts(n: nat, d: nat)
    requires 0 < d
    ensures 0 <= n / d && (n / d) * d <= n < (n / d) * d + d
  {
    assert n == d * (n / d) + n % d;
  }

  lemma BelowDivisor(b: nat, d: nat, d1: nat, d0: nat, r: nat, x: nat)
    requires d == d1 * b + d0 && r < d1 && x < b
    ensures r * b + x < d
  {
    MulMonotone(r + 1, d1, b, b);
  }

  /** A negative remainder means that the estimate was too large. */
  lemma DecrementSafe(d: nat, v: nat, q: nat, t: nat, m: nat)
    requires v == q * d + (t - m) && t < m && 0 < d
    ensures 1 <= q && (t + d < m ==> 2 <= q)
    ensures v == (q - 1) * d + (t + d - m)
    ensures v == (q - 2) * d + (t + 2 * d - m)
  {
    ProductOrder(0, q, d);
    if t + d < m {
      ProductOrder(1, q, d);
    }
  }

  /** __udiv_qrnnd_c: exact division of a double word by a normalised word. */
  method UdivQrnndC(h: nat, n1: nat, n0: nat, d: nat) returns (q: nat, r: nat)
    requires 1 <= h && Normalised(WordBase(h), d) && n1 < d && n0 < WordBase(h)
    ensures q < WordBase(h) && r < d
    ensures Double(WordBase(h), n1, n0) == q * d + r
  {
    hide *;
    var B, b := WordBase(h), Pow2(h);
    Halves(n0, h);
    var q1, r1 := HalfQuotient(h, n1, Shr(n0, h), d);
    var q0, r0 := HalfQuotient(h, r1, And(n0, Ones(h)), d);
    LowWordFits(B, b, q1, q0);
    SmallMod(q1 * b, B);
    OrDisjoint(q1, q0, h);
    q := Or(q1 * b % B, q0);
    r := r0;
    JoinHalves(B, b, n1, n0, Shr(n0, h), And(n0, Ones(h)), q1, r1, q0, r0, d, q);
  }

  lemma JoinHalves(B: nat, b: int, n1: nat, n0: nat, hi: int, lo: int, q1: int, r1: int, q0: int, r0: int, d: int, q: int)
    requires B == b * b && n0 == hi * b + lo && q == q1 * b + q0
    requires n1 * b + hi == q1 * d + r1 && r1 * b + lo == q0 * d + r0
    ensures Double(B, n1, n0) == q * d + r0
  {
    Associate(n1, b, b);
    AddProducts(n1 * b, hi, b);
    AddProducts(q1 * d, r1, b);
    Swap(q1, d, b);
    AddProducts(q1 * b, q0, d);
  }
}

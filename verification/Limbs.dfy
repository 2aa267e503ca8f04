/**
 Machine words ("limbs") of a symbolic width w, represented as naturals below
 Pow2(w).  The C operators are given by their effect on single bits.
 */
module Limbs {

  function Pow2(k: nat): (r: nat)
    ensures 1 <= r
  {
    if k == 0 then 1 else 2 * Pow2(k - 1)
  }

  lemma {:induction false} Pow2Add(a: nat, b: nat)
    ensures Pow2(a + b) == Pow2(a) * Pow2(b)
  {
    if a != 0 {
      Pow2Add(a - 1, b);
      Twice(Pow2(a - 1), Pow2(b));
    }
  }

  lemma Twice(x: int, y: int)
    ensures (2 * x) * y == 2 * (x * y)
  {
  }

  lemma {:induction false} Pow2Monotone(a: nat, b: nat)
    requires a <= b
    ensures Pow2(a) <= Pow2(b)
  {
    if a != b {
      Pow2Monotone(a, b - 1);
    }
  }

  /** Bit number k of x, counting from the least significant one. */
  predicate Bit(x: nat, k: nat) {
    if k == 0 then x % 2 == 1 else Bit(x / 2, k - 1)
  }

  function Or(x: nat, y: nat): nat {
    if x == 0 then y
    else (if x % 2 == 1 || y % 2 == 1 then 1 else 0) + 2 * Or(x / 2, y / 2)
  }

  function And(x: nat, y: nat): nat {
    if x == 0 then 0
    else (if x % 2 == 1 && y % 2 == 1 then 1 else 0) + 2 * And(x / 2, y / 2)
  }

  /** x << k on a word of w bits. */
  function Shl(w: nat, x: nat, k: nat): nat {
    (x * Pow2(k)) % Pow2(w)
  }

  /** x >> k. */
  function Shr(x: nat, k: nat): nat {
    if k == 0 then x else Shr(x / 2, k - 1)
  }

  /** The unsigned negation -x on a word of w bits. */
  function Neg(w: nat, x: nat): nat {
    (0 - x as int) % Pow2(w)
  }

  /** The all-ones word. */
  function Ones(w: nat): nat {
    Pow2(w) - 1
  }

  /** The mask rotation "x << r | x >> (w - r)".  C leaves it undefined for r == 0. */
  function RotateLeft(w: nat, x: nat, r: nat): nat
    requires 0 < r < w
  {
    Or(Shl(w, x, r), Shr(x, w - r))
  }

  lemma {:induction false} BitOfZero(k: nat)
    ensures !Bit(0, k)
  {
    if k != 0 {
      BitOfZero(k - 1);
    }
  }

  lemma {:induction false} BitOfOr(x: nat, y: nat, k: nat)
    ensures Bit(Or(x, y), k) <==> Bit(x, k) || Bit(y, k)
  {
    if x == 0 {
      BitOfZero(k);
    } else if k != 0 {
      BitOfOr(x / 2, y / 2, k - 1);
    }
  }

  lemma {:induction false} BitOfAnd(x: nat, y: nat, k: nat)
    ensures Bit(And(x, y), k) <==> Bit(x, k) && Bit(y, k)
  {
    if x == 0 {
      BitOfZero(k);
    } else if k != 0 {
      BitOfAnd(x / 2, y / 2, k - 1);
    }
  }

  lemma {:induction false} BitOfPow2(k: nat, j: nat)
    ensures Bit(Pow2(k), j) <==> j == k
  {
    if k == 0 {
      if j != 0 {
        BitOfZero(j - 1);
      }
    } else if j != 0 {
      BitOfPow2(k - 1, j - 1);
    }
  }

  lemma {:induction false} BitOfOnes(w: nat, j: nat)
    ensures Bit(Ones(w), j) <==> j < w
  {
    if w == 0 {
      BitOfZero(j);
    } else {
      assert Ones(w) == 2 * Ones(w - 1) + 1;
      if j != 0 {
        BitOfOnes(w - 1, j - 1);
      }
    }
  }

  lemma {:induction false} BitOfProduct(x: nat, k: nat, j: nat)
    ensures Bit(x * Pow2(k), j) <==> k <= j && Bit(x, j - k)
  {
    if k != 0 {
      assert x * Pow2(k) == 2 * (x * Pow2(k - 1));
      if j != 0 {
        BitOfProduct(x, k - 1, j - 1);
      }
    }
  }

  /** Halving commutes with reduction modulo a power of two. */
  lemma HalveMod(x: nat, w: nat)
    requires 0 < w
    ensures (x % Pow2(w)) / 2 == (x / 2) % Pow2(w - 1)
    ensures (x % Pow2(w)) % 2 == x % 2
  {
    var m := Pow2(w - 1);
    var q, r := x / Pow2(w), x % Pow2(w);
    assert x == 2 * (m * q) + r;
    assert x / 2 == m * q + r / 2;
    ModUnique(x / 2, m, q, r / 2);
  }

  /** Quotient and remainder are determined by their defining equation. */
  lemma ModUnique(x: int, m: int, q: int, r: int)
    requires 0 <= r < m && x == m * q + r
    ensures x % m == r && x / m == q
  {
    var q', r' := x / m, x % m;
    assert m * q' + r' == m * q + r;
    assert m * (q' - q) == r - r';
    if q' != q {
      NonzeroMultiple(m, q' - q);
      assert false;
    }
  }

  lemma SmallMod(x: nat, B: nat)
    requires x < B
    ensures x % B == x
  {
    ModUnique(x, B, 0, x);
  }

  lemma ModOfSum(m: int, k: int, r: int)
    requires 0 < m
    ensures (m * k + r) % m == r % m
  {
    assert m * k + r == m * (k + r / m) + r % m;
    ModUnique(m * k + r, m, k + r / m, r % m);
  }

  lemma NonzeroMultiple(m: int, k: int)
    requires 0 < m && k != 0
    ensures m * k <= -m || m <= m * k
  {
    if 0 < k {
      assert m * 1 <= m * k;
    } else {
      assert m * k <= m * -1;
    }
  }

  lemma {:induction false} BitOfMod(x: nat, w: nat, j: nat)
    ensures Bit(x % Pow2(w), j) <==> j < w && Bit(x, j)
  {
    if w == 0 {
      BitOfZero(j);
    } else {
      HalveMod(x, w);
      if j != 0 {
        BitOfMod(x / 2, w - 1, j - 1);
      }
    }
  }

  lemma BitOfShl(w: nat, x: nat, k: nat, j: nat)
    ensures Bit(Shl(w, x, k), j) <==> j < w && k <= j && Bit(x, j - k)
  {
    BitOfMod(x * Pow2(k), w, j);
    BitOfProduct(x, k, j);
  }

  lemma {:induction false} BitOfShr(x: nat, k: nat, j: nat)
    ensures Bit(Shr(x, k), j) <==> Bit(x, j + k)
  {
    if k != 0 {
      BitOfShr(x / 2, k - 1, j);
    }
  }

  /** A word of w bits has no bit from w on, and having none from w on makes it such a word. */
  lemma {:induction false} BitAboveWord(x: nat, w: nat, j: nat)
    requires x < Pow2(w) && w <= j
    ensures !Bit(x, j)
  {
    if w == 0 {
      BitOfZero(j);
    } else {
      BitAboveWord(x / 2, w - 1, j - 1);
    }
  }

  lemma {:induction false} OrIsWord(w: nat, x: nat, y: nat)
    requires x < Pow2(w) && y < Pow2(w)
    ensures Or(x, y) < Pow2(w)
  {
    if x != 0 && w != 0 {
      OrIsWord(w - 1, x / 2, y / 2);
    }
  }

  /** A non-zero word has a set bit. */
  lemma {:induction false} SetBitExists(x: nat) returns (k: nat)
    requires x != 0
    ensures Bit(x, k)
  {
    if x % 2 == 1 {
      k := 0;
    } else {
      k := SetBitExists(x / 2);
      k := k + 1;
    }
  }

  /** Words with the same bits are the same word. */
  lemma {:induction false} BitsDetermine(x: nat, y: nat)
    requires forall k: nat :: Bit(x, k) <==> Bit(y, k)
    ensures x == y
  {
    if x == 0 {
      if y != 0 {
        var k := SetBitExists(y);
        BitOfZero(k);
      }
    } else {
      assert Bit(x, 0) <==> Bit(y, 0);
      forall k: nat
        ensures Bit(x / 2, k) <==> Bit(y / 2, k)
      {
        assert Bit(x, k + 1) <==> Bit(y, k + 1);
      }
      BitsDetermine(x / 2, y / 2);
    }
  }

  /** Testing a word against a one-bit mask. */
  lemma TestBit(x: nat, k: nat)
    ensures And(x, Pow2(k)) == 0 <==> !Bit(x, k)
  {
    BitOfAnd(x, Pow2(k), k);
    BitOfPow2(k, k);
    if Bit(x, k) {
      BitOfZero(k);
    } else if And(x, Pow2(k)) != 0 {
      var j := SetBitExists(And(x, Pow2(k)));
      BitOfAnd(x, Pow2(k), j);
      BitOfPow2(k, j);
    }
  }

  /** Rotating the one-bit mask for bit k gives the one-bit mask for bit (k + r) mod w. */
  lemma RotateMask(w: nat, k: nat, r: nat)
    requires k < w && 0 < r < w
    ensures RotateLeft(w, Pow2(k), r) == Pow2((k + r) % w)
    ensures (k + r) % w == if k + r < w then k + r else k + r - w
  {
    ModUnique(k + r, w, if k + r < w then 0 else 1, if k + r < w then k + r else k + r - w);
    var t := (k + r) % w;
    forall j: nat
      ensures Bit(RotateLeft(w, Pow2(k), r), j) <==> Bit(Pow2(t), j)
    {
      BitOfOr(Shl(w, Pow2(k), r), Shr(Pow2(k), w - r), j);
      BitOfShl(w, Pow2(k), r, j);
      BitOfShr(Pow2(k), w - r, j);
      BitOfPow2(k, j + (w - r));
      if r <= j {
        BitOfPow2(k, j - r);
      }
      BitOfPow2(t, j);
    }
    BitsDetermine(RotateLeft(w, Pow2(k), r), Pow2(t));
  }

  /** The mask idiom "-(c) & d": a borrowed all-ones word selects d, zero selects nothing. */
  lemma MaskSelects(w: nat, c: bool, d: nat)
    requires 0 < w && d < Pow2(w)
    ensures And(Neg(w, if c then 1 else 0), d) == if c then d else 0
    ensures Neg(w, if c then 1 else 0) == if c then Ones(w) else 0
  {
    if c {
      Pow2Monotone(1, w);
      ModUnique(-1, Pow2(w), -1, Ones(w));
      AndOnes(w, d);
    } else {
      ModUnique(0, Pow2(w), 0, 0);
    }
  }

  lemma {:induction false} AndOnes(w: nat, d: nat)
    requires d < Pow2(w)
    ensures And(Ones(w), d) == d
  {
    if w != 0 {
      assert Ones(w) == 2 * Ones(w - 1) + 1;
      AndOnes(w - 1, d / 2);
    }
  }

  lemma {:induction false} LowPart(x: nat, h: nat)
    ensures And(x, Ones(h)) == x % Pow2(h)
  {
    if x == 0 {
      ModUnique(0, Pow2(h), 0, 0);
    } else if h == 0 {
      AndWithZero(x);
    } else {
      assert Ones(h) == 2 * Ones(h - 1) + 1;
      LowPart(x / 2, h - 1);
      HalveMod(x, h);
    }
  }

  lemma {:induction false} AndWithZero(x: nat)
    ensures And(x, 0) == 0
  {
    if x != 0 {
      AndWithZero(x / 2);
    }
  }
}

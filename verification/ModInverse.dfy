/**
 Inverses modulo a power of two: binvert_limb of lib/gmp/gmp-impl.h, by a table and
 Newton steps, and mpz_invert_2exp of lib/gmp/bootstrap.c, bit by bit.
 */
module ModInverse {
  import opened Limbs

  /** Row k of binvert_limb_table (lib/gmp/mp_minv_tab.c), eight entries each. */
  function TableRow(k: nat): (row: seq<nat>)
    requires k < 16
    ensures |row| == 8
  {
    if k == 0 then [0x01, 0xAB, 0xCD, 0xB7, 0x39, 0xA3, 0xC5, 0xEF]
    else if k == 1 then [0xF1, 0x1B, 0x3D, 0xA7, 0x29, 0x13, 0x35, 0xDF]
    else if k == 2 then [0xE1, 0x8B, 0xAD, 0x97, 0x19, 0x83, 0xA5, 0xCF]
    else if k == 3 then [0xD1, 0xFB, 0x1D, 0x87, 0x09, 0xF3, 0x15, 0xBF]
    else if k == 4 then [0xC1, 0x6B, 0x8D, 0x77, 0xF9, 0x63, 0x85, 0xAF]
    else if k == 5 then [0xB1, 0xDB, 0xFD, 0x67, 0xE9, 0xD3, 0xF5, 0x9F]
    else if k == 6 then [0xA1, 0x4B, 0x6D, 0x57, 0xD9, 0x43, 0x65, 0x8F]
    else if k == 7 then [0x91, 0xBB, 0xDD, 0x47, 0xC9, 0xB3, 0xD5, 0x7F]
    else if k == 8 then [0x81, 0x2B, 0x4D, 0x37, 0xB9, 0x23, 0x45, 0x6F]
    else if k == 9 then [0x71, 0x9B, 0xBD, 0x27, 0xA9, 0x93, 0xB5, 0x5F]
    else if k == 10 then [0x61, 0x0B, 0x2D, 0x17, 0x99, 0x03, 0x25, 0x4F]
    else if k == 11 then [0x51, 0x7B, 0x9D, 0x07, 0x89, 0x73, 0x95, 0x3F]
    else if k == 12 then [0x41, 0xEB, 0x0D, 0xF7, 0x79, 0xE3, 0x05, 0x2F]
    else if k == 13 then [0x31, 0x5B, 0x7D, 0xE7, 0x69, 0x53, 0x75, 0x1F]
    else if k == 14 then [0x21, 0xCB, 0xED, 0xD7, 0x59, 0xC3, 0xE5, 0x0F]
    else [0x11, 0x3B, 0x5D, 0xC7, 0x49, 0x33, 0x55, 0xFF]
  }

  function BinvertTable(i: nat): nat
    requires i < 128
  {
    TableRow(i / 8)[i % 8]
  }

  /** The eight entries of row k invert 16 k + 1, 16 k + 3, ..., 16 k + 15. */
  predicate RowRight(row: seq<nat>, k: nat)
    requires |row| == 8
  {
    && (row[0] * (16 * k + 1)) % 256 == 1 && (row[1] * (16 * k + 3)) % 256 == 1
    && (row[2] * (16 * k + 5)) % 256 == 1 && (row[3] * (16 * k + 7)) % 256 == 1
    && (row[4] * (16 * k + 9)) % 256 == 1 && (row[5] * (16 * k + 11)) % 256 == 1
    && (row[6] * (16 * k + 13)) % 256 == 1 && (row[7] * (16 * k + 15)) % 256 == 1
    && forall j | 0 <= j < 8 :: row[j] < 256
  }

  lemma TableRows0()
    ensures RowRight(TableRow(0), 0) && RowRight(TableRow(1), 1)
  {
  }

  lemma TableRows1()
    ensures RowRight(TableRow(2), 2) && RowRight(TableRow(3), 3)
  {
  }

  lemma TableRows2()
    ensures RowRight(TableRow(4), 4) && RowRight(TableRow(5), 5)
  {
  }

  lemma TableRows3()
    ensures RowRight(TableRow(6), 6) && RowRight(TableRow(7), 7)
  {
  }

  lemma TableRows4()
    ensures RowRight(TableRow(8), 8) && RowRight(TableRow(9), 9)
  {
  }

  lemma TableRows5()
    ensures RowRight(TableRow(10), 10) && RowRight(TableRow(11), 11)
  {
  }

  lemma TableRows6()
    ensures RowRight(TableRow(12), 12) && RowRight(TableRow(13), 13)
  {
  }

  lemma TableRows7()
    ensures RowRight(TableRow(14), 14) && RowRight(TableRow(15), 15)
  {
  }

  lemma AllRowsRight(k: nat)
    requires k < 16
    ensures RowRight(TableRow(k), k)
  {
    hide TableRow, RowRight;
    TableRows0();
    TableRows1();
    TableRows2();
    TableRows3();
    TableRows4();
    TableRows5();
    TableRows6();
    TableRows7();
    assert k in {0, 1, 2, 3, 4, 5, 6, 7} || k in {8, 9, 10, 11, 12, 13, 14, 15};
  }

  lemma EntryOfRow(row: seq<nat>, k: nat, j: nat)
    requires |row| == 8 && RowRight(row, k) && j < 8
    ensures row[j] < 256 && (row[j] * (2 * (8 * k + j) + 1)) % 256 == 1
  {
    if j == 0 || j == 1 || j == 2 || j == 3 {
    } else {
      assert j == 4 || j == 5 || j == 6 || j == 7;
    }
  }

  /** Every entry is the inverse of 2 i + 1 modulo 256. */
  lemma TableRight(i: nat)
    requires i < 128
    ensures (BinvertTable(i) * (2 * i + 1)) % 256 == 1 && BinvertTable(i) < 256
  {
    hide TableRow, RowRight;
    AllRowsRight(i / 8);
    EntryOfRow(TableRow(i / 8), i / 8, i % 8);
    assert 8 * (i / 8) + i % 8 == i;
  }

  // ---------- inverses modulo 2^k ----------

  /** x * n == 1 modulo 2^k */
  ghost predicate Inverts(x: int, n: int, k: nat) {
    exists t: int :: InvertsBy(x, n, k, t)
  }

  ghost predicate InvertsBy(x: int, n: int, k: nat, t: int) {
    x * n == 1 + Pow2(k) * t
  }

  lemma InvertsMeans(x: int, n: int, k: nat)
    requires Inverts(x, n, k) && 1 <= k
    ensures (x * n) % Pow2(k) == 1
  {
    var t: int :| InvertsBy(x, n, k, t);
    ModUnique(x * n, Pow2(k), t, 1);
  }

  lemma MeansInverts(x: int, n: int, k: nat)
    requires (x * n) % Pow2(k) == 1
    ensures Inverts(x, n, k)
  {
    var t := (x * n) / Pow2(k);
    assert x * n == Pow2(k) * t + 1;
    assert InvertsBy(x, n, k, t);
  }

  /** An inverse modulo 2^k is one modulo every smaller power, and any number congruent to it is one. */
  lemma InvertsLess(x: int, n: int, k: nat, j: nat, y: int, s: int)
    requires Inverts(x, n, k) && j <= k && y == x + Pow2(j) * s
    ensures Inverts(y, n, j)
  {
    var t: int :| InvertsBy(x, n, k, t);
    Pow2Add(j, k - j);
    var p, r := Pow2(j), Pow2(k - j);
    Regroup(p, r, t, s, n, x, y);
    assert InvertsBy(y, n, j, r * t + s * n);
  }

  lemma Regroup(p: int, r: int, t: int, s: int, n: int, x: int, y: int)
    requires x * n == 1 + (p * r) * t && y == x + p * s
    ensures y * n == 1 + p * (r * t + s * n)
  {
    assert y * n == x * n + (p * s) * n;
    assert (p * r) * t == p * (r * t) && (p * s) * n == p * (s * n);
    assert p * (r * t + s * n) == p * (r * t) + p * (s * n);
  }

  /** There is only one inverse below 2^w. */
  lemma InverseUnique(x: nat, y: nat, n: int, w: nat)
    requires x < Pow2(w) && y < Pow2(w) && Inverts(x, n, w) && Inverts(y, n, w)
    ensures x == y
  {
    var t: int :| InvertsBy(x, n, w, t);
    var u: int :| InvertsBy(y, n, w, u);
    var m := Pow2(w);
    CrossMultiply(x, y, n, m, t, u);
    ModUnique(x, m, 0, x);
    ModUnique(x, m, y * t - x * u, y);
  }

  lemma CrossMultiply(x: int, y: int, n: int, m: int, t: int, u: int)
    requires x * n == 1 + m * t && y * n == 1 + m * u
    ensures x == m * (y * t - x * u) + y
  {
    assert y * (x * n) == x * (y * n);
    assert y * (1 + m * t) == y + m * (y * t) && x * (1 + m * u) == x + m * (x * u);
    assert m * (y * t - x * u) == m * (y * t) - m * (x * u);
  }

  // ---------- Newton steps ----------

  /** 2 x - x^2 n, in word arithmetic. */
  function NewtonStep(w: nat, x: nat, n: nat): nat {
    ((2 * x) % Pow2(w) - ((x * x) % Pow2(w) * n) % Pow2(w)) % Pow2(w)
  }

  function Min(a: nat, b: nat): nat {
    if a <= b then a else b
  }

  /** The word arithmetic only adds a multiple of 2^w. */
  lemma NewtonStepValue(m: int, x: int, n: int) returns (s: int)
    requires 0 < m
    ensures ((2 * x) % m - ((x * x) % m * n) % m) % m == 2 * x - x * x * n + m * s
  {
    var a, qa := Residue(x * x, m);
    var b, qb := Residue(2 * x, m);
    var c, qc := Residue(a * n, m);
    var d, qd := Residue(b - c, m);
    s := qa * n + qc - qb - qd;
    Collect(m, qa, qb, qc, qd, n, x * x, a);
  }

  lemma Residue(x: int, m: int) returns (r: int, q: int)
    requires 0 < m
    ensures r == x % m && x == m * q + r
  {
    r, q := x % m, x / m;
  }

  lemma Collect(m: int, qa: int, qb: int, qc: int, qd: int, n: int, square: int, a: int)
    requires square == m * qa + a
    ensures square * n == m * (qa * n) + a * n
    ensures m * (qa * n + qc - qb - qd) == m * (qa * n) + m * qc - m * qb - m * qd
  {
    assert (m * qa) * n == m * (qa * n);
  }

  /** (2 x - x^2 n) n == 1 - (x n - 1)^2 */
  lemma SquareError(x: int, n: int, e: int)
    requires x * n == 1 + e
    ensures (2 * x - x * x * n) * n == 1 - e * e
  {
    assert (2 * x - x * x * n) * n == 2 * (x * n) - (x * n) * (x * n);
    assert (1 + e) * (1 + e) == 1 + 2 * e + e * e;
  }

  /** Without wrap-around, a step squares the error. */
  lemma NewtonExact(x: int, n: int, k: nat)
    requires Inverts(x, n, k)
    ensures Inverts(2 * x - x * x * n, n, 2 * k)
  {
    var t: int :| InvertsBy(x, n, k, t);
    var p := Pow2(k);
    SquareError(x, n, p * t);
    Pow2Add(k, k);
    Interleave(p, t);
    assert InvertsBy(2 * x - x * x * n, n, 2 * k, -(t * t));
  }

  lemma Interleave(p: int, t: int)
    ensures 1 - (p * t) * (p * t) == 1 + (p * p) * (-(t * t))
  {
    assert (p * t) * (p * t) == (p * p) * (t * t);
  }

  /** Each step doubles the number of valid bits, up to the width of the word. */
  lemma NewtonDoubles(w: nat, x: nat, n: nat, k: nat)
    requires Inverts(x, n, k)
    ensures Inverts(NewtonStep(w, x, n), n, Min(2 * k, w))
  {
    hide Inverts, InvertsBy;
    var y := 2 * x - x * x * n;
    NewtonExact(x, n, k);
    var s := NewtonStepValue(Pow2(w), x, n);
    var j := Min(2 * k, w);
    Pow2Add(j, w - j);
    Associate3(Pow2(j), Pow2(w - j), s);
    InvertsLess(y, n, 2 * k, j, NewtonStep(w, x, n), Pow2(w - j) * s);
  }

  lemma Associate3(a: int, b: int, c: int)
    ensures (a * b) * c == a * (b * c)
  {
  }

  // ---------- binvert_limb ----------

  /** The low seven bits of x select the entry. */
  lemma SevenBits(x: nat)
    ensures And(x, 0x7F) == x % 128
  {
    LowPart(x, 7);
    assert Pow2(7) == 128 by { Powers(); }
  }

  lemma Powers()
    ensures Pow2(7) == 128 && Pow2(8) == 256
  {
    assert Pow2(3) == 8;
    assert Pow2(5) == 32;
    assert Pow2(7) == 128;
  }

  /** The table entry is an inverse to eight bits. */
  lemma TableInverts(n: nat)
    requires n % 2 == 1
    ensures Inverts(BinvertTable((n / 2) % 128), n, 8)
  {
    hide BinvertTable;
    var i := (n / 2) % 128;
    TableRight(i);
    Powers();
    var x, q := BinvertTable(i), (n / 2) / 128;
    assert n == 2 * i + 1 + 256 * q;
    assert x * n == x * (2 * i + 1) + 256 * (x * q);
    ModOfSum(256, x * q, x * (2 * i + 1));
    MeansInverts(x, n, 8);
  }

  /** binvert_limb: the inverse of an odd limb modulo 2^w. */
  method BinvertLimb(w: nat, n: nat) returns (inv: nat)
    requires 8 <= w && n < Pow2(w) && n % 2 == 1
    ensures inv < Pow2(w) && (inv * n) % Pow2(w) == 1
  {
    hide Inverts, NewtonStep, BinvertTable, Pow2, And, Ones;
    SevenBits(n / 2);
    TableInverts(n);
    inv := BinvertTable(And(n / 2, 0x7F));
    ghost var valid := 8;
    if 8 < w {
      NewtonDoubles(w, inv, n, valid);
      inv := NewtonStep(w, inv, n);
      valid := Min(2 * valid, w);
    }
    if 16 < w {
      NewtonDoubles(w, inv, n, valid);
      inv := NewtonStep(w, inv, n);
      valid := Min(2 * valid, w);
    }
    if 32 < w {
      NewtonDoubles(w, inv, n, valid);
      inv := NewtonStep(w, inv, n);
      valid := Min(2 * valid, w);
    }
    if 64 < w {
      var invbits := 64;
      while true
        invariant 64 <= invbits && valid == Min(invbits, w) && Inverts(inv, n, valid) && invbits < w
        decreases w - invbits
      {
        NewtonDoubles(w, inv, n, valid);
        inv := NewtonStep(w, inv, n);
        invbits := invbits * 2;
        valid := Min(2 * valid, w);
        if invbits >= w {
          break;
        }
      }
    }
    InvertsMask(inv, n, w);
    LowPart(inv, w);
    inv := And(inv, Ones(w));
  }

  lemma InvertsMask(x: nat, n: nat, w: nat)
    requires Inverts(x, n, w) && 1 <= w
    ensures x % Pow2(w) < Pow2(w) && (x % Pow2(w) * n) % Pow2(w) == 1
  {
    hide Inverts;
    var r, q := Residue(x, Pow2(w));
    Negated(Pow2(w), q);
    InvertsLess(x, n, w, w, r, -q);
    InvertsMeans(r, n, w);
  }

  lemma Negated(m: int, q: int)
    ensures m * -q == -(m * q)
  {
  }

  // ---------- mpz_invert_2exp ----------

  /** mpz_tstbit: the bit of the two's complement representation. */
  predicate TestBitInt(x: int, i: nat) {
    (x / Pow2(i)) % 2 == 1
  }

  /** The remainder of mpz_tdiv_r_2exp has the sign of x. */
  function TruncatedRemainder(x: int, n: nat): int {
    if 0 <= x then x % Pow2(n) else -((-x) % Pow2(n))
  }

  /** Setting bit i above a number of at most i bits. */
  lemma {:induction false} SetTopBit(x: nat, i: nat)
    requires x < Pow2(i)
    ensures Or(x, Pow2(i)) == x + Pow2(i)
  {
    if i != 0 && x != 0 {
      SetTopBit(x / 2, i - 1);
    }
  }

  /** Bit i of inv * a decides whether inv or inv + 2^i is the inverse to i + 1 bits. */
  lemma LiftBit(inv: int, a: int, i: nat)
    requires Inverts(inv, a, i) && a % 2 == 1 && 1 <= i
    ensures TestBitInt(inv * a, i) ==> Inverts(inv + Pow2(i), a, i + 1)
    ensures !TestBitInt(inv * a, i) ==> Inverts(inv, a, i + 1)
  {
    var t: int :| InvertsBy(inv, a, i, t);
    var p := Pow2(i);
    assert 1 < p by { Pow2Monotone(1, i); }
    ModUnique(inv * a, p, t, 1);
    if t % 2 == 1 {
      LiftOdd(inv, a, p, t);
      assert InvertsBy(inv + p, a, i + 1, (t + a) / 2);
    } else {
      LiftEven(inv, a, p, t);
      assert InvertsBy(inv, a, i + 1, t / 2);
    }
  }

  lemma LiftOdd(inv: int, a: int, p: int, t: int)
    requires inv * a == 1 + p * t && a % 2 == 1 && t % 2 == 1
    ensures (inv + p) * a == 1 + (2 * p) * ((t + a) / 2)
  {
    var h := (t + a) / 2;
    HalfOfSum(p, t, a, h);
    assert (inv + p) * a == inv * a + p * a;
  }

  lemma HalfOfSum(p: int, t: int, a: int, h: int)
    requires t + a == 2 * h
    ensures p * t + p * a == (2 * p) * h
  {
    assert p * (t + a) == p * t + p * a;
    assert (2 * p) * h == p * (2 * h);
  }

  lemma LiftEven(inv: int, a: int, p: int, t: int)
    requires inv * a == 1 + p * t && t % 2 == 0
    ensures inv * a == 1 + (2 * p) * (t / 2)
  {
    var h := t / 2;
    assert t == 2 * h;
    assert (2 * p) * h == p * (2 * h);
  }

  /**
   mpz_invert_2exp: r * a == 1 modulo 2^n for odd a.  The final assertion compares a
   truncated remainder with 1, so it can only hold for a positive number and n >= 1.
   */
  method MpzInvert2Exp(a: int, n: nat) returns (r: nat, assertion: bool)
    requires a % 2 == 1
    ensures r < Pow2(if n == 0 then 1 else n) && Inverts(r, a, n)
    ensures assertion <==> 0 < a && 1 <= n
  {
    hide Inverts, TestBitInt, Pow2, Or, TruncatedRemainder;
    var inv := 1;
    OneInverts(a);
    var i := 1;
    while i < n
      invariant 1 <= i && (i <= n || i == 1)
      invariant 0 < inv < Pow2(i) && Inverts(inv, a, i)
      decreases n - i
    {
      var prod := inv * a;
      LiftBit(inv, a, i);
      SetTopBit(inv, i);
      TwicePow2(i);
      if TestBitInt(prod, i) {
        inv := Or(inv, Pow2(i));
      }
      i := i + 1;
    }
    InvertsLess(inv, a, i, n, inv, 0);
    CheckPasses(inv, a, n);
    assertion := TruncatedRemainder(inv * a, n) == 1;
    r := inv;
  }

  lemma TwicePow2(i: nat)
    ensures Pow2(i + 1) == 2 * Pow2(i)
  {
  }

  lemma OneInverts(a: int)
    requires a % 2 == 1
    ensures Inverts(1, a, 1) && Pow2(1) == 2
  {
    assert InvertsBy(1, a, 1, a / 2);
  }

  lemma CheckPasses(inv: int, a: int, n: nat)
    requires Inverts(inv, a, n) && 0 < inv && a != 0
    ensures TruncatedRemainder(inv * a, n) == 1 <==> 0 < a && 1 <= n
  {
    if 0 < a {
      assert 0 < inv * a;
      if 1 <= n {
        InvertsMeans(inv, a, n);
      }
    } else {
      assert inv * a <= 0;
    }
  }

  /** mpz_invert_ui_2exp */
  method MpzInvertUi2Exp(a: nat, n: nat) returns (r: nat)
    requires a % 2 == 1 && 1 <= n
    ensures r < Pow2(n) && Inverts(r, a, n)
  {
    var ok;
    r, ok := MpzInvert2Exp(a, n);
  }

  /** The table method and the bit-by-bit method find the same inverse. */
  method InvertBothWays(w: nat, n: nat) returns (x: nat, y: nat)
    requires 8 <= w && n < Pow2(w) && n % 2 == 1
    ensures x == y
  {
    hide Inverts, Pow2;
    x := BinvertLimb(w, n);
    y := MpzInvertUi2Exp(n, w);
    MeansInverts(x, n, w);
    InverseUnique(x, y, n, w);
  }
}

/** lib/gmp/nextprime.c: the incremental sieve of 512 odd numbers that keeps its state between calls. */
module NextPrime {
  import opened Limbs
  import opened Primes

  const SIEVESIZE: nat := 512

  // ---------- the mod-210 wheel ----------

  /** The gaps between the numbers coprime to 210, from 11 on. */
  const ADDTAB: seq<nat> :=
    [2, 4, 2, 4, 6, 2, 6, 4, 2, 4, 6, 6] + [2, 6, 4, 2, 6, 4, 6, 8, 4, 2, 4, 2]
    + [4, 8, 6, 4, 6, 2, 4, 6, 2, 6, 6, 4] + [2, 4, 6, 2, 6, 4, 2, 4, 2, 10, 2, 10]

  predicate CoprimeTo210(n: nat) {
    n % 2 != 0 && n % 3 != 0 && n % 5 != 0 && n % 7 != 0
  }

  /** From r, the next number coprime to 210 is r + g. */
  predicate GapIs(r: nat, g: nat) {
    && r % 2 == 1 && g in {2, 4, 6, 8, 10} && CoprimeTo210(r + g)
    && (4 <= g ==> !CoprimeTo210(r + 2)) && (6 <= g ==> !CoprimeTo210(r + 4))
    && (8 <= g ==> !CoprimeTo210(r + 6)) && (10 <= g ==> !CoprimeTo210(r + 8))
  }

  /** The table from entry i on, read from residue r, steps through the coprime numbers up to 221. */
  predicate TableAgrees(tab: seq<nat>, i: nat, r: nat)
    requires i <= |tab|
    decreases |tab| - i
  {
    if i == |tab| then r == 221 else GapIs(r, tab[i]) && TableAgrees(tab, i + 1, r + tab[i])
  }

  function Residue(tab: seq<nat>, i: nat): nat
    requires i <= |tab|
  {
    if i == 0 then 11 else Residue(tab, i - 1) + tab[i - 1]
  }

  lemma {:induction false} ResidueAgrees(tab: seq<nat>, i: nat)
    requires i <= |tab| && TableAgrees(tab, 0, 11)
    ensures TableAgrees(tab, i, Residue(tab, i))
  {
    if i != 0 {
      ResidueAgrees(tab, i - 1);
    }
  }

  lemma FourSteps(tab: seq<nat>, i: nat, r: nat, g0: nat, g1: nat, g2: nat, g3: nat)
    requires i + 4 <= |tab| && tab[i] == g0 && tab[i + 1] == g1 && tab[i + 2] == g2 && tab[i + 3] == g3
    requires GapIs(r, g0) && GapIs(r + g0, g1) && GapIs(r + g0 + g1, g2) && GapIs(r + g0 + g1 + g2, g3)
    requires TableAgrees(tab, i + 4, r + g0 + g1 + g2 + g3)
    ensures TableAgrees(tab, i, r)
  {
    hide GapIs;
    assert TableAgrees(tab, i + 3, r + g0 + g1 + g2);
    assert TableAgrees(tab, i + 2, r + g0 + g1);
    assert TableAgrees(tab, i + 1, r + g0);
  }

  lemma TableEnd()
    ensures |ADDTAB| == 48 && TableAgrees(ADDTAB, 48, 221)
  {
  }

  lemma TableQuarter4()
    ensures |ADDTAB| == 48 && TableAgrees(ADDTAB, 36, 167)
  {
    hide TableAgrees;
    TableEnd();
    var tab := ADDTAB;
    FourSteps(tab, 44, 197, 2, 10, 2, 10);
    FourSteps(tab, 40, 181, 6, 4, 2, 4);
    FourSteps(tab, 36, 167, 2, 4, 6, 2);
  }

  lemma TableQuarter3()
    ensures |ADDTAB| == 48 && TableAgrees(ADDTAB, 24, 109)
  {
    hide TableAgrees;
    TableQuarter4();
    var tab := ADDTAB;
    FourSteps(tab, 32, 149, 2, 6, 6, 4);
    FourSteps(tab, 28, 131, 6, 2, 4, 6);
    FourSteps(tab, 24, 109, 4, 8, 6, 4);
  }

  lemma TableQuarter2()
    ensures |ADDTAB| == 48 && TableAgrees(ADDTAB, 12, 59)
  {
    hide TableAgrees;
    TableQuarter3();
    var tab := ADDTAB;
    FourSteps(tab, 20, 97, 4, 2, 4, 2);
    FourSteps(tab, 16, 73, 6, 4, 6, 8);
    FourSteps(tab, 12, 59, 2, 6, 4, 2);
  }

  lemma WheelTable()
    ensures |ADDTAB| == 48 && TableAgrees(ADDTAB, 0, 11)
  {
    hide TableAgrees;
    TableQuarter2();
    var tab := ADDTAB;
    FourSteps(tab, 8, 41, 2, 4, 6, 6);
    FourSteps(tab, 4, 23, 6, 2, 6, 4);
    FourSteps(tab, 0, 11, 2, 4, 2, 4);
  }

  /** p is the number at table entry ai, some whole turns of the wheel up. */
  ghost predicate OnWheelAt(p: nat, ai: nat) {
    ai < 48 == |ADDTAB| && exists c: nat :: p == 210 * c + Residue(ADDTAB, ai)
  }

  lemma Periodic(c: nat, r: nat)
    ensures CoprimeTo210(210 * c + r) <==> CoprimeTo210(r)
    ensures (210 * c + r) % 2 == r % 2
  {
    ModOfSum(2, 105 * c, r);
    ModOfSum(3, 70 * c, r);
    ModOfSum(5, 42 * c, r);
    ModOfSum(7, 30 * c, r);
  }

  lemma WheelStart()
    ensures OnWheelAt(11, 0)
  {
    WheelTable();
    assert 11 == 210 * 0 + Residue(ADDTAB, 0);
  }

  /** p += addtab[ai], ai = (ai + 1) % 48 moves to the next number coprime to 210. */
  lemma WheelAdvances(p: nat, ai: nat)
    requires OnWheelAt(p, ai)
    ensures |ADDTAB| == 48 && ai < 48 && p % 2 == 1 && 2 <= ADDTAB[ai] && OnWheelAt(p + ADDTAB[ai], (ai + 1) % 48)
    ensures forall q: nat | p < q < p + ADDTAB[ai] :: !CoprimeTo210(q)
  {
    hide CoprimeTo210, Residue, GapIs, TableAgrees, ADDTAB, OnWheelAt;
    WheelTable();
    var c := WheelTurns(p, ai);
    ResidueAgrees(ADDTAB, ai);
    ResidueStep(ADDTAB, ai);
    GapSkipped(c, Residue(ADDTAB, ai), ADDTAB[ai]);
    NextEntry(c, ai);
  }

  lemma WheelTurns(p: nat, ai: nat) returns (c: nat)
    requires OnWheelAt(p, ai)
    ensures ai < 48 == |ADDTAB| && p == 210 * c + Residue(ADDTAB, ai)
  {
    hide ADDTAB, Residue;
    c :| p == 210 * c + Residue(ADDTAB, ai);
  }

  /** After the last entry the wheel has made one more turn. */
  lemma NextEntry(c: nat, ai: nat)
    requires ai < 48 == |ADDTAB| && Residue(ADDTAB, ai + 1) == Residue(ADDTAB, ai) + ADDTAB[ai] && Residue(ADDTAB, 0) == 11
    requires ai == 47 ==> Residue(ADDTAB, 48) == 221
    ensures OnWheelAt(210 * c + Residue(ADDTAB, ai) + ADDTAB[ai], (ai + 1) % 48)
  {
    hide ADDTAB, Residue;
    if ai == 47 {
      assert 210 * c + Residue(ADDTAB, ai) + ADDTAB[ai] == 210 * (c + 1) + Residue(ADDTAB, 0);
    } else {
      assert (ai + 1) % 48 == ai + 1;
      assert 210 * c + Residue(ADDTAB, ai) + ADDTAB[ai] == 210 * c + Residue(ADDTAB, ai + 1);
    }
  }

  lemma GapSkipped(c: nat, r: nat, g: nat)
    requires GapIs(r, g)
    ensures (210 * c + r) % 2 == 1 && 2 <= g
    ensures forall q: nat | 210 * c + r < q < 210 * c + r + g :: !CoprimeTo210(q)
  {
    hide CoprimeTo210;
    Periodic(c, r);
    forall q: nat | 210 * c + r < q < 210 * c + r + g
      ensures !CoprimeTo210(q)
    {
      var t: nat := q - (210 * c + r);
      GapSkips(r, g, t);
      Periodic(c, r + t);
    }
  }

  lemma ResidueStep(tab: seq<nat>, ai: nat)
    requires ai < 48 == |tab| && TableAgrees(tab, ai, Residue(tab, ai)) && TableAgrees(tab, 0, 11)
    ensures Residue(tab, ai + 1) == Residue(tab, ai) + tab[ai] && Residue(tab, 0) == 11
    ensures GapIs(Residue(tab, ai), tab[ai])
    ensures ai == 47 ==> Residue(tab, 48) == 221
  {
    hide GapIs;
    if ai == 47 {
      ResidueAgrees(tab, 48);
    }
  }

  lemma GapSkips(r: nat, g: nat, t: nat)
    requires GapIs(r, g) && 0 < t < g
    ensures !CoprimeTo210(r + t)
  {
    hide CoprimeTo210;
    if t % 2 == 1 {
      EvenNotCoprime(r, t);
    } else {
      assert t == 2 || t == 4 || t == 6 || t == 8;
    }
  }

  lemma EvenNotCoprime(r: nat, t: nat)
    requires r % 2 == 1 && t % 2 == 1
    ensures !CoprimeTo210(r + t)
  {
    OddSum(r, t);
  }

  lemma OddSum(r: nat, t: nat)
    requires r % 2 == 1 && t % 2 == 1
    ensures (r + t) % 2 == 0
  {
  }

  lemma PrimeCoprimeTo210(f: nat)
    requires IsPrime(f) && f != 2 && f != 3 && f != 5 && f != 7
    ensures CoprimeTo210(f) && 11 <= f
  {
    assert f != 4 by { assert Divides(2, 4); }
    assert f != 6 by { assert Divides(2, 6); }
    assert f != 8 by { assert Divides(2, 8); }
    assert f != 9 by { assert Divides(3, 9); }
    assert f != 10 by { assert Divides(2, 10); }
    assert !Divides(2, f) && !Divides(3, f) && !Divides(5, f) && !Divides(7, f);
  }

  // ---------- striking the odd multiples of one number ----------

  lemma OddDivides(p: nat, x: int)
    requires 1 <= p && p % 2 == 1 && (2 * x) % p == 0
    ensures x % p == 0
  {
    var q := (2 * x) / p;
    assert 2 * x == p * q;
    var h := p / 2;
    assert p == 2 * h + 1;
    assert p * q == 2 * (h * q) + q;
    var e := x - h * q;
    assert q == 2 * e;
    assert x == p * e by {
      assert p * q == 2 * (p * e);
    }
    ModUnique(x, p, e, 0);
  }

  /** The index of the first odd multiple of p from s0 on, not counting p itself. */
  function FirstIndex(s0: nat, p: nat): nat
    requires 1 <= p
  {
    var r := ((s0 + p) / 2) % p;
    var pi := if r > 0 then p - r else 0;
    if s0 + 2 * pi <= p then pi + p else pi
  }

  lemma FirstIndexDivides(s0: nat, p: nat)
    requires s0 % 2 == 1 && p % 2 == 1
    ensures Divides(p, s0 + 2 * FirstIndex(s0, p)) && p < s0 + 2 * FirstIndex(s0, p)
    ensures FirstIndex(s0, p) < p || (p <= FirstIndex(s0, p) && s0 + 2 * (FirstIndex(s0, p) - p) <= p)
  {
    var r := ((s0 + p) / 2) % p;
    var pi := if r > 0 then p - r else 0;
    var k := BaseIndex(s0, p, pi);
    assert p * (k + 2) == p * k + 2 * p;
    DividesIntro(p, if s0 + 2 * pi <= p then k + 2 else k, s0 + 2 * FirstIndex(s0, p));
  }

  /** Before the adjustment the index already belongs to a multiple of p. */
  lemma BaseIndex(s0: nat, p: nat, pi: nat) returns (k: nat)
    requires s0 % 2 == 1 && p % 2 == 1
    requires pi == var r := ((s0 + p) / 2) % p; if r > 0 then p - r else 0
    ensures s0 + 2 * pi == p * k
  {
    var t := (s0 + p) / 2;
    HalfExact(s0, p);
    var q, r := t / p, t % p;
    assert t == p * q + r;
    k := BaseMultiple(s0, p, pi, q, r);
  }

  lemma BaseMultiple(s0: nat, p: nat, pi: nat, q: nat, r: nat) returns (k: nat)
    requires 1 <= p && s0 + p == 2 * (p * q + r) && r < p && pi == if r > 0 then p - r else 0
    ensures s0 + 2 * pi == p * k
  {
    var m := 2 * q - 1 + if r > 0 then 2 else 0;
    assert p * (2 * q - 1) == 2 * (p * q) - p;
    assert p * (2 * q + 1) == 2 * (p * q) + p;
    assert s0 + 2 * pi == p * m;
    if m < 0 {
      NonzeroMultiple(p, m);
      assert false;
    }
    k := m;
  }

  lemma HalfExact(a: nat, b: nat)
    requires a % 2 == 1 && b % 2 == 1
    ensures a + b == 2 * ((a + b) / 2)
  {
  }

  /** The indices FirstIndex, FirstIndex + p, ... are those of the multiples of p above p. */
  lemma StruckIndices(s0: nat, p: nat, k: nat)
    requires s0 % 2 == 1 && p % 2 == 1
    ensures FirstIndex(s0, p) <= k && (k - FirstIndex(s0, p)) % p == 0 <==> Divides(p, s0 + 2 * k) && p < s0 + 2 * k
  {
    hide FirstIndex;
    FirstIndexDivides(s0, p);
    var pi := FirstIndex(s0, p);
    var x: int := k - pi;
    MultipleShifted(p, s0 + 2 * pi, 2 * x, s0 + 2 * k);
    DoubleDivides(p, x);
    if x % p == 0 && x < 0 {
      BelowOneStep(p, x);
    }
  }

  lemma MultipleShifted(p: nat, a: nat, y: int, b: nat)
    requires Divides(p, a) && b == a + y
    ensures Divides(p, b) <==> y % p == 0
  {
    var q := a / p;
    assert a == p * q;
    ModOfSum(p, q, y);
  }

  /** An odd divisor of twice a number divides the number. */
  lemma DoubleDivides(p: nat, x: int)
    requires p % 2 == 1
    ensures x % p == 0 <==> (2 * x) % p == 0
  {
    if x % p == 0 {
      var e := x / p;
      assert x == p * e;
      assert 2 * x == p * (2 * e) + 0;
      ModUnique(2 * x, p, 2 * e, 0);
    } else if (2 * x) % p == 0 {
      OddDivides(p, x);
    }
  }

  lemma BelowOneStep(p: nat, x: int)
    requires 1 <= p && x % p == 0 && x < 0
    ensures x + p <= 0
  {
    var e := x / p;
    assert x == p * e;
    NonzeroMultiple(p, e);
  }

  // ---------- runs ----------

  /** The first |ps| primes, in order. */
  ghost predicate FirstPrimes(ps: seq<nat>) {
    && (forall i | 0 <= i < |ps| :: IsPrime(ps[i]))
    && (forall i, j | 0 <= i < j < |ps| :: ps[i] < ps[j])
    && (forall q: nat | IsPrime(q) && q <= Last(ps) :: q in ps)
  }

  function Last(ps: seq<nat>): nat {
    if ps == [] then 0 else ps[|ps| - 1]
  }

  lemma ExtendPrimes(ps: seq<nat>, p: nat)
    requires FirstPrimes(ps) && IsPrime(p) && Last(ps) < p
    requires forall q: nat | IsPrime(q) && Last(ps) < q :: p <= q
    ensures FirstPrimes(ps + [p])
  {
    var ps' := ps + [p];
    forall q: nat | IsPrime(q) && q <= Last(ps')
      ensures q in ps'
    {
      if q != p {
        assert q in ps;
      }
    }
    forall i, j | 0 <= i < j < |ps'|
      ensures ps'[i] < ps'[j]
    {
      if j == |ps| {
        assert ps[i] <= Last(ps);
      }
    }
  }

  /** There is only one such sequence of each length: its k-th element is the k-th prime. */
  lemma {:induction false} FirstPrimesUnique(a: seq<nat>, b: seq<nat>)
    requires FirstPrimes(a) && FirstPrimes(b) && |a| == |b|
    ensures a == b
  {
    hide FirstPrimes;
    if a != [] {
      var n := |a| - 1;
      assert a == a[..n] + [a[n]] && b == b[..n] + [b[n]];
      PrefixOfPrimes(a);
      PrefixOfPrimes(b);
      FirstPrimesUnique(a[..n], b[..n]);
      LastPrimeAtMost(a, b, n);
      LastPrimeAtMost(b, a, n);
    }
  }

  lemma LastPrimeAtMost(a: seq<nat>, b: seq<nat>, n: nat)
    requires FirstPrimes(a) && FirstPrimes(b) && |a| == |b| == n + 1 && a[..n] == b[..n]
    ensures b[n] <= a[n]
  {
    assert forall i | 0 <= i < n :: a[..n][i] == a[i] && b[..n][i] == b[i];
    assert forall i | 0 <= i < n :: b[i] < a[n];
    if a[n] <= b[n] {
      var j :| 0 <= j < |b| && b[j] == a[n];
    }
  }

  lemma PrefixOfPrimes(a: seq<nat>)
    requires FirstPrimes(a) && a != []
    ensures FirstPrimes(a[..|a| - 1])
  {
    var b := a[..|a| - 1];
    forall q: nat | IsPrime(q) && q <= Last(b)
      ensures q in b
    {
      assert b != [] ==> q in a;
    }
  }

  /** The block from s0 lies below a square that is itself below the word. */
  ghost predicate Room(M: nat, s0: int, r: nat) {
    s0 + 2 * SIEVESIZE <= r * r && (r + 1) * (r + 1) <= M
  }

  /** Where the block of p starts: the blocks start at 3, 3 + 1024, ... */
  function BlockStart(p: nat): int {
    p - (p - 3) % (2 * SIEVESIZE)
  }

  /** The call can reach p: the block of p has room.  RootLoopExact says that this is what the root loop needs. */
  ghost predicate FitsWord(M: nat, p: nat, r: nat) {
    Room(M, BlockStart(p), r)
  }

  predicate StartsBlock(s0: nat) {
    s0 % (2 * SIEVESIZE) == 3
  }

  /** A block that starts at or before p does not start after the block of p. */
  lemma BlockOf(s0: nat, p: nat)
    requires StartsBlock(s0) && s0 <= p
    ensures s0 <= BlockStart(p)
  {
    var m := 2 * SIEVESIZE;
    var a, b := s0 / m, (p - 3) / m;
    assert s0 == m * a + 3;
    assert p - 3 == m * b + (p - 3) % m;
  }

  // ---------- what a partly sieved table says ----------

  /** No odd prime below the bound properly divides n. */
  ghost predicate Survives(n: nat, bound: nat) {
    forall f: nat | IsPrime(f) && 3 <= f < bound :: !(Divides(f, n) && f < n)
  }

  /** Only composites are struck, and all those with an odd prime factor below the bound are. */
  ghost predicate SievedTo(tab: seq<nat>, s0: nat, bound: nat) {
    forall k | 0 <= k < |tab| :: (tab[k] != 0 ==> !IsPrime(s0 + 2 * k)) && (tab[k] == 0 ==> Survives(s0 + 2 * k, bound))
  }

  lemma SievedStart(tab: seq<nat>, s0: nat)
    requires forall k | 0 <= k < |tab| :: tab[k] == 0
    ensures SievedTo(tab, s0, 3)
  {
    hide IsPrime, Divides;
  }

  lemma SievedAdvances(before: seq<nat>, after: seq<nat>, s0: nat, p: nat, next: nat)
    requires |before| == |after| && SievedTo(before, s0, p) && 3 <= p
    requires forall k | 0 <= k < |before| :: after[k] != 0 <==> before[k] != 0 || (Divides(p, s0 + 2 * k) && p < s0 + 2 * k)
    requires forall q: nat | p < q < next :: !IsPrime(q)
    ensures SievedTo(after, s0, next)
  {
    hide Divides, IsPrime, Survives;
    forall k | 0 <= k < |after|
      ensures after[k] != 0 ==> !IsPrime(s0 + 2 * k)
      ensures after[k] == 0 ==> Survives(s0 + 2 * k, next)
    {
      SurvivalAdvances(s0 + 2 * k, p, next);
    }
  }

  lemma SurvivalAdvances(n: nat, p: nat, next: nat)
    requires 3 <= p && forall q: nat | p < q < next :: !IsPrime(q)
    ensures Divides(p, n) && p < n ==> !IsPrime(n)
    ensures Survives(n, p) && !(Divides(p, n) && p < n) ==> Survives(n, next)
  {
    hide Divides;
  }

  lemma NoPrimeSkipped(p: nat, g: nat)
    requires 11 <= p && forall q: nat | p < q < p + g :: !CoprimeTo210(q)
    ensures forall q: nat | p < q < p + g :: !IsPrime(q)
  {
    hide CoprimeTo210, IsPrime;
    forall q: nat | p < q < p + g
      ensures !IsPrime(q)
    {
      if IsPrime(q) {
        PrimeCoprimeTo210(q);
      }
    }
  }

  /** Once the bound has passed the square root the zeros are exactly the primes. */
  lemma SieveComplete(tab: seq<nat>, s0: nat, bound: nat, root: nat)
    requires SievedTo(tab, s0, bound) && 3 <= s0 && s0 % 2 == 1 && root < bound
    requires !SquareBelow(root + 1, s0 + 2 * |tab|)
    ensures forall k | 0 <= k < |tab| :: tab[k] == 0 <==> IsPrime(s0 + 2 * k)
  {
    hide IsPrime, Survives;
    forall k | 0 <= k < |tab|
      ensures tab[k] == 0 <==> IsPrime(s0 + 2 * k)
    {
      if tab[k] == 0 {
        SurvivorIsPrime(s0 + 2 * k, bound, root);
      }
    }
  }

  lemma SurvivorIsPrime(n: nat, bound: nat, root: nat)
    requires Survives(n, bound) && 3 <= n < (root + 1) * (root + 1) && n % 2 == 1 && root < bound
    ensures IsPrime(n)
  {
    var f := LeastFactor(n, 2);
    hide IsPrime, Divides;
    RootBound(f, root, n);
    OddFactor(f, n);
  }

  lemma RootBound(f: nat, root: nat, n: nat)
    requires n < (root + 1) * (root + 1) && 2 <= f
    ensures f * f <= n ==> f <= root && f < n
  {
    MulMonotone(2, f, f, f);
    if root + 1 <= f {
      MulMonotone(root + 1, f, root + 1, f);
    }
  }

  lemma OddFactor(f: nat, n: nat)
    requires n % 2 == 1 && Divides(f, n) && 2 <= f
    ensures 3 <= f
  {
  }

  lemma SmallComposites()
    ensures !IsPrime(4) && !IsPrime(6) && !IsPrime(8) && !IsPrime(9) && !IsPrime(10)
  {
    CompositeIntro(4, 2, 2);
    CompositeIntro(6, 2, 3);
    CompositeIntro(8, 2, 4);
    CompositeIntro(9, 3, 3);
    CompositeIntro(10, 2, 5);
  }

  lemma NextOddPrime(p: nat)
    requires IsPrime(p) && 3 <= p
    ensures forall q: nat | IsPrime(q) && p < q :: p + 2 <= q
  {
    hide IsPrime;
    PrimeIsOdd(p);
    forall q: nat | IsPrime(q) && p < q
      ensures p + 2 <= q
    {
      PrimeIsOdd(q);
    }
  }

  lemma OnlyTwo()
    ensures FirstPrimes([2])
  {
  }

  lemma PrimeIsOdd(q: nat)
    requires IsPrime(q) && 3 <= q
    ensures q % 2 == 1
  {
    assert !Divides(2, q);
  }

  // ---------- words that do not wrap ----------

  lemma StepFits(M: nat, s0: nat, p: nat, r: nat)
    requires Room(M, s0, r) && p < r
    ensures s0 + 2 * p < M
  {
  }

  lemma RoomForStrikes(M: nat, s0: nat, r: nat)
    requires Room(M, s0, r)
    ensures s0 + 14 < M
  {
  }

  lemma FitsBelow(M: nat, n: nat, p: nat, r: nat)
    requires FitsWord(M, p, r) && n <= p && StartsBlock(n)
    ensures Room(M, n, r) && n + 2 * SIEVESIZE < M
  {
    BlockOf(n, p);
  }

  lemma RootFits(M: nat, x: nat, s0: nat, r: nat)
    requires Room(M, s0, r) && SquareBelow(x, s0 + 2 * SIEVESIZE)
    ensures x < r
  {
    if r <= x {
      MulMonotone(r, x, r, x);
    }
  }

  lemma RefillCloser(M: nat, s0: nat, p: nat, r: nat)
    requires FitsWord(M, p, r) && StartsBlock(s0) && s0 <= p
    ensures s0 < (s0 + 2 * SIEVESIZE) % M
  {
    BlockOf(s0, p);
    SmallMod(s0 + 2 * SIEVESIZE, M);
  }

  /** The test of the root loop, in word arithmetic. */
  predicate RaisesRoot(M: nat, s0: nat, x: nat)
    requires M != 0
  {
    ((x + 1) % M) * ((x + 1) % M) % M <= (s0 + 2 * SIEVESIZE - 1) % M
  }

  /** The loop test compares without wrap-around. */
  lemma RootTest(M: nat, x: nat, s0: nat, r: nat)
    requires Room(M, s0, r) && x < r && 3 <= s0
    ensures (x + 1) % M == x + 1
    ensures RaisesRoot(M, s0, x) <==> SquareBelow(x + 1, s0 + 2 * SIEVESIZE)
  {
    MulMonotone(x + 1, r, x + 1, r);
    assert (r + 1) * (r + 1) == r * r + 2 * r + 1;
    assert r * r < M && r < M;
    SmallMod(x + 1, M);
    SmallMod((x + 1) * (x + 1), M);
    SmallMod(s0 + 2 * SIEVESIZE - 1, M);
  }

  predicate SquareBelow(x: nat, n: nat) {
    x * x < n
  }

  /** When M is a square, as for words of an even number of bits, the loop stops at the root exactly when the block has room. */
  lemma RootLoopExact(M: nat, k: nat, s0: nat, x: nat)
    requires M == k * k && 3 <= s0 && s0 + 2 * SIEVESIZE <= M
    requires SquareBelow(x, s0 + 2 * SIEVESIZE) && !SquareBelow(x + 1, s0 + 2 * SIEVESIZE)
    ensures !RaisesRoot(M, s0, x) <==> exists r: nat :: Room(M, s0, r)
  {
    if k <= x {
      MulMonotone(k, x, k, x);
      assert false;
    }
    if x + 1 < k {
      MulMonotone(x + 2, k, x + 2, k);
      assert Room(M, s0, x + 1);
      RootTest(M, x, s0, x + 1);
    } else {
      MulMonotone(2, k, k, k);
      SmallMod(k, M);
      ModUnique(k * k, M, 1, 0);
      forall r: nat
        ensures !Room(M, s0, r)
      {
        if r < k {
          MulMonotone(r, x, r, x);
        } else {
          MulMonotone(k + 1, r + 1, k + 1, r + 1);
          assert (k + 1) * (k + 1) == k * k + 2 * k + 1;
        }
      }
    }
  }

  /** With 32-bit words the block from 4294835203 is the first without room: the square after its root wraps to 0. */
  lemma FirstBlockWithoutRoom()
    ensures var M, s0 := 0x1_0000_0000, 4294835203;
            && StartsBlock(s0) && s0 + 2 * SIEVESIZE <= M && SquareBelow(65535, s0 + 2 * SIEVESIZE)
            && 65536 * 65536 % M == 0 && RaisesRoot(M, s0, 65535) && (forall r: nat :: !Room(M, s0, r))
            && Room(M, s0 - 2 * SIEVESIZE, 65535)
  {
    RootLoopExact(0x1_0000_0000, 65536, 4294835203, 65535);
  }

  // ---------- the sieve ----------

  class PrimeSieve {
    const M: nat               // one more than the largest unsigned long
    const s: array<nat>        // sieve table, and a sentinel after it
    var d: nat                 // current index in s
    var s0: nat                // number corresponding to s[0]
    var sqrtS0: nat
    ghost var produced: seq<nat>

    /** s[k] is zero exactly for the indices of primes. */
    ghost predicate TableRight()
      reads this, s
      requires s.Length == SIEVESIZE + 1
    {
      forall k: nat | k < SIEVESIZE :: s[k] == 0 <==> IsPrime(s0 + 2 * k)
    }

    /** No prime lies between the last one returned and `from`. */
    ghost predicate NoPrimeBefore(from: nat)
      reads this
    {
      Last(produced) < from && forall q: nat | IsPrime(q) && Last(produced) < q :: from <= q
    }

    /** 2 has been returned, and s0 has wrapped so that the first block will start at 3. */
    ghost predicate AfterTwo()
      reads this
    {
      produced == [2] && s0 == M + 3 - 2 * SIEVESIZE
    }

    ghost predicate Valid()
      reads this, s
    {
      && s.Length == SIEVESIZE + 1 && s[SIEVESIZE] == 0 && 4 * SIEVESIZE <= M && d <= SIEVESIZE
      && FirstPrimes(produced)
      && if s0 == 0 then
           sqrtS0 == 0 && d == SIEVESIZE && produced == []
         else if AfterTwo() then
           sqrtS0 == 0 && d == SIEVESIZE
         else
           && 3 <= s0 && s0 % 2 == 1 && StartsBlock(s0) && s0 + 2 * SIEVESIZE <= M && SquareBelow(sqrtS0, s0 + 2 * SIEVESIZE)
           && TableRight() && produced != [] && NoPrimeBefore(s0 + 2 * d)
    }

    /** gmp_init_primesieve */
    constructor (M: nat)
      requires 4 * SIEVESIZE <= M
      ensures Valid() && this.M == M && produced == [] && fresh(s)
    {
      this.M := M;
      s := new nat[SIEVESIZE + 1];
      s0 := 0;
      sqrtS0 := 0;
      d := SIEVESIZE;
      produced := [];
      new;
      s[SIEVESIZE] := 0;
    }

    /** The index computation before a strike loop. */
    method IndexOf(p: nat) returns (pi: nat)
      requires 1 <= p && 0 < M
      ensures pi == WordIndex(M, s0, p)
    {
      hide WordIndex;
      var sum := (s0 + p) % M;
      var rest := sum / 2 % p;
      Remains(sum / 2, p);
      pi := if rest > 0 then p - rest else 0;
      var first := (s0 + 2 * pi) % M;
      WordIndexIs(M, s0, p, sum, rest, pi, first);
      if first <= p {
        pi := pi + p;
      }
    }

    /** The strike loop for one number p, with the index computation before it. */
    method Strike(p: nat)
      requires s.Length == SIEVESIZE + 1
      requires s0 % 2 == 1 && p % 2 == 1 && s0 + 2 * p < M
      modifies s
      ensures forall k: nat | k < SIEVESIZE ::
                s[k] != 0 <==> old(s[k]) != 0 || (Divides(p, s0 + 2 * k) && p < s0 + 2 * k)
      ensures s[SIEVESIZE] == old(s[SIEVESIZE])
    {
      hide Divides, FirstIndex, WordIndex, Hit;
      ghost var before := s[..];
      var pi := IndexOf(p);
      WordIndexExact(M, s0, p);
      forall k: nat | k < SIEVESIZE
        ensures Hit(pi, p, k) <==> Divides(p, s0 + 2 * k) && p < s0 + 2 * k
      {
        HitMeansMultiple(s0, p, k);
      }
      HitFirst(pi, p);
      var sp := pi;
      while sp < SIEVESIZE
        invariant Hit(pi, p, sp)
        invariant forall k: nat | k < SIEVESIZE :: s[k] != 0 <==> before[k] != 0 || (k < sp && Hit(pi, p, k))
        invariant s[SIEVESIZE] == before[SIEVESIZE]
        decreases SIEVESIZE + p - sp
      {
        s[sp] := 1;
        NextHit(pi, p, sp);
        sp := sp + p;
      }
    }

    /** The loop that raises sqrt_s0 to the square root of the block's last number. */
    method RaiseRoot(ghost r: nat)
      requires 3 <= s0 && Room(M, s0, r)
      requires SquareBelow(sqrtS0, s0 + 2 * SIEVESIZE)
      modifies this`sqrtS0
      ensures SquareBelow(sqrtS0, s0 + 2 * SIEVESIZE) && !SquareBelow(sqrtS0 + 1, s0 + 2 * SIEVESIZE) && sqrtS0 < r
    {
      hide SquareBelow, Room;
      RootFits(M, sqrtS0, s0, r);
      RoomForStrikes(M, s0, r);
      while ((sqrtS0 + 1) % M) * ((sqrtS0 + 1) % M) % M <= (s0 + 2 * SIEVESIZE - 1) % M
        invariant SquareBelow(sqrtS0, s0 + 2 * SIEVESIZE) && sqrtS0 < r
        decreases r - sqrtS0
      {
        RootTest(M, sqrtS0, s0, r);
        sqrtS0 := (sqrtS0 + 1) % M;
        RootFits(M, sqrtS0, s0, r);
      }
      RootTest(M, sqrtS0, s0, r);
    }

    /** The strikes with 3, 5, 7 and then with the numbers of the wheel up to the root. */
    method StrikeBlock(ghost r: nat)
      requires s.Length == SIEVESIZE + 1 && s[SIEVESIZE] == 0
      requires 3 <= s0 && s0 % 2 == 1 && Room(M, s0, r) && sqrtS0 < r
      requires forall k: nat | k < SIEVESIZE :: s[k] == 0
      modifies s
      ensures s[SIEVESIZE] == 0
      ensures exists bound: nat :: sqrtS0 < bound && SievedTo(s[..SIEVESIZE], s0, bound)
    {
      hide *;
      ghost var tab := s[..SIEVESIZE];
      SievedStart(tab, s0);
      SmallComposites();
      RoomForStrikes(M, s0, r);
      Strike(3);
      SievedAdvances(tab, s[..SIEVESIZE], s0, 3, 5);
      tab := s[..SIEVESIZE];
      Strike(5);
      SievedAdvances(tab, s[..SIEVESIZE], s0, 5, 7);
      tab := s[..SIEVESIZE];
      Strike(7);
      SievedAdvances(tab, s[..SIEVESIZE], s0, 7, 11);
      var p: nat, ai: nat := 11, 0;
      WheelStart();
      while p <= sqrtS0
        invariant OnWheelAt(p, ai) && 11 <= p && ai < 48
        invariant SievedTo(s[..SIEVESIZE], s0, p)
        invariant s[SIEVESIZE] == 0
        decreases sqrtS0 + 20 - p
      {
        StrikeOnWheel(p, ai, r);
        p := p + ADDTAB[ai];
        ai := (ai + 1) % 48;
      }
    }

    /** One round of the wheel loop up to the moves of p and ai. */
    method StrikeOnWheel(p: nat, ai: nat, ghost r: nat)
      requires s.Length == SIEVESIZE + 1
      requires s0 % 2 == 1 && Room(M, s0, r) && 11 <= p < r
      requires OnWheelAt(p, ai) && SievedTo(s[..SIEVESIZE], s0, p)
      modifies s
      ensures |ADDTAB| == 48 && ai < 48 && 2 <= ADDTAB[ai] && OnWheelAt(p + ADDTAB[ai], (ai + 1) % 48)
      ensures SievedTo(s[..SIEVESIZE], s0, p + ADDTAB[ai])
      ensures s[SIEVESIZE] == old(s[SIEVESIZE])
    {
      hide *;
      WheelTable();
      WheelAdvances(p, ai);
      StepFits(M, s0, p, r);
      NoPrimeSkipped(p, ADDTAB[ai]);
      Strike(p);
      SievedAdvances(old(s[..SIEVESIZE]), s[..SIEVESIZE], s0, p, p + ADDTAB[ai]);
    }

    lemma StruckSlot(q: nat)
      requires s.Length == SIEVESIZE + 1 && d <= SIEVESIZE && TableRight()
      requires forall k: nat | d <= k < SIEVESIZE :: s[k] != 0
      requires s0 + 2 * d <= q < s0 + 2 * SIEVESIZE && q % 2 == s0 % 2
      ensures !IsPrime(q)
    {
      hide IsPrime;
      var k: nat := (q - s0) / 2;
      assert s[k] != 0 && s0 + 2 * k == q;
    }

    lemma UsedUp()
      requires s.Length == SIEVESIZE + 1 && 3 <= s0 && s0 % 2 == 1 && d <= SIEVESIZE
      requires TableRight() && NoPrimeBefore(s0 + 2 * d)
      requires forall k: nat | d <= k < SIEVESIZE :: s[k] != 0
      ensures NoPrimeBefore(s0 + 2 * SIEVESIZE)
    {
      hide IsPrime;
      forall q: nat | IsPrime(q) && Last(produced) < q
        ensures s0 + 2 * SIEVESIZE <= q
      {
        PrimeIsOdd(q);
        if q < s0 + 2 * SIEVESIZE {
          StruckSlot(q);
        }
      }
    }

    /** When the table is used up, the next block starts where the search has come to. */
    lemma BlockFollows(P: nat, r: nat)
      requires Valid() && s0 != 0
      requires forall k: nat | d <= k < SIEVESIZE :: s[k] != 0
      requires IsPrime(P) && Last(produced) < P && FitsWord(M, P, r)
      ensures produced != [] && Follows((s0 + 2 * SIEVESIZE) % M, P)
    {
      hide IsPrime, FirstPrimes, FitsWord, StartsBlock, SquareBelow, Follows;
      if AfterTwo() {
        ModUnique(M + 3, M, 1, 3);
        FollowsTwo(P);
      } else {
        UsedUp();
        NextStart(s0);
        FitsBelow(M, s0 + 2 * SIEVESIZE, P, r);
        SmallMod(s0 + 2 * SIEVESIZE, M);
        FollowsBlock(P);
      }
    }

    /** A block can start at n: no prime has been missed, P is not passed, sqrt_s0 is not too large. */
    ghost predicate Follows(n: nat, P: nat)
      reads this
    {
      n % 2 == 1 && StartsBlock(n) && 3 <= n <= P && NoPrimeBefore(n) && SquareBelow(sqrtS0, n + 2 * SIEVESIZE)
    }

    lemma FollowsTwo(P: nat)
      requires produced == [2] && sqrtS0 == 0 && 3 <= P
      ensures Follows(3, P)
    {
    }

    lemma FollowsBlock(P: nat)
      requires NoPrimeBefore(s0 + 2 * SIEVESIZE) && 3 <= s0 && s0 % 2 == 1 && IsPrime(P) && Last(produced) < P
      requires StartsBlock(s0 + 2 * SIEVESIZE)
      requires SquareBelow(sqrtS0, s0 + 2 * SIEVESIZE)
      ensures Follows(s0 + 2 * SIEVESIZE, P)
    {
      hide IsPrime;
    }

    /** The refill: the next block of 512 odd numbers is sieved into the table. */
    method Resieve(ghost P: nat, ghost r: nat)
      requires Valid() && s0 != 0
      requires forall k: nat | d <= k < SIEVESIZE :: s[k] != 0
      requires IsPrime(P) && Last(produced) < P && FitsWord(M, P, r)
      modifies this, s
      ensures Valid() && produced == old(produced) && d == 0
      ensures s0 == (old(s0) + 2 * SIEVESIZE) % M && 3 <= s0 <= P && s0 + 2 * SIEVESIZE <= M
    {
      hide IsPrime, Divides, FirstPrimes, SievedTo, FitsWord, Room, StartsBlock, SquareBelow;
      BlockFollows(P, r);
      forall k | 0 <= k < SIEVESIZE { s[k] := 0; }
      s0 := (s0 + 2 * SIEVESIZE) % M;
      FitsBelow(M, s0, P, r);
      RaiseRoot(r);
      StrikeBlock(r);
      ghost var bound: nat :| sqrtS0 < bound && SievedTo(s[..SIEVESIZE], s0, bound);
      SieveComplete(s[..SIEVESIZE], s0, bound, sqrtS0);
      d := 0;
      TableFilled();
    }

    lemma TableFilled()
      requires s.Length == SIEVESIZE + 1 && s[SIEVESIZE] == 0 && 4 * SIEVESIZE <= M && d == 0
      requires FirstPrimes(produced) && produced != [] && NoPrimeBefore(s0)
      requires 3 <= s0 && s0 % 2 == 1 && StartsBlock(s0) && s0 + 2 * SIEVESIZE <= M && SquareBelow(sqrtS0, s0 + 2 * SIEVESIZE)
      requires forall k | 0 <= k < SIEVESIZE :: s[..SIEVESIZE][k] == 0 <==> IsPrime(s0 + 2 * k)
      ensures Valid()
    {
      hide IsPrime, FirstPrimes, StartsBlock, SquareBelow, NoPrimeBefore;
      forall k: nat | k < SIEVESIZE
        ensures s[k] == 0 <==> IsPrime(s0 + 2 * k)
      {
        assert s[..SIEVESIZE][k] == s[k];
      }
    }

    /** How far the search is from the prime P; refilling the table brings it closer. */
    ghost function Distance(P: nat): nat
      reads this
    {
      if s0 == 0 then P + 2 else if AfterTwo() then P + 1 else if P < s0 then 0 else P - s0
    }

    lemma Closer(P: nat, r: nat)
      requires Valid() && s0 != 0 && IsPrime(P) && Last(produced) < P && FitsWord(M, P, r)
      ensures AfterTwo() || s0 < (s0 + 2 * SIEVESIZE) % M
      ensures AfterTwo() || s0 <= P
    {
      hide IsPrime, FirstPrimes, FitsWord, StartsBlock, SquareBelow;
      if !AfterTwo() {
        RefillCloser(M, s0, P, r);
      }
    }

    /** The smallest clear index from d on is the next prime. */
    lemma ClearSlotIsNext(k: nat)
      requires Valid() && d <= k < SIEVESIZE && s[k] == 0 && (forall i: nat | d <= i < k :: s[i] != 0)
      ensures IsPrime(s0 + 2 * k) && NoPrimeBefore(s0 + 2 * k) && s0 + 2 * k < M
      ensures 3 <= s0 && s0 % 2 == 1 && s0 + 2 * SIEVESIZE <= M && TableRight() && produced != []
      ensures SquareBelow(sqrtS0, s0 + 2 * SIEVESIZE)
    {
      hide IsPrime, FirstPrimes, SquareBelow;
      forall q: nat | IsPrime(q) && Last(produced) < q
        ensures s0 + 2 * k <= q
      {
        PrimeIsOdd(q);
        if q < s0 + 2 * k {
          StruckSlotBefore(q, k);
        }
      }
    }

    lemma StruckSlotBefore(q: nat, k: nat)
      requires s.Length == SIEVESIZE + 1 && d <= k < SIEVESIZE && TableRight()
      requires forall i: nat | d <= i < k :: s[i] != 0
      requires s0 + 2 * d <= q < s0 + 2 * k && q % 2 == s0 % 2
      ensures !IsPrime(q)
    {
      hide IsPrime;
      var i: nat := (q - s0) / 2;
      assert s[i] != 0 && s0 + 2 * i == q;
    }

    /**
     gmp_nextprime: every call returns the next prime. P is some prime above the last
     one returned, and r shows that the words are wide enough to reach it.
     */
    method Next(ghost P: nat, ghost r: nat) returns (p: nat)
      requires Valid()
      requires IsPrime(P) && Last(produced) < P && FitsWord(M, P, r)
      modifies this, s
      ensures Valid() && produced == old(produced) + [p]
      decreases Distance(P)
    {
      hide IsPrime, FirstPrimes, SquareBelow, FitsWord, StartsBlock;
      var sp := d;
      while s[sp] != 0
        invariant d <= sp <= SIEVESIZE
        invariant forall i: nat | d <= i < sp :: s[i] != 0
        decreases SIEVESIZE - sp
      {
        sp := sp + 1;
      }
      if sp != SIEVESIZE {
        ClearSlotIsNext(sp);
        p := (s0 + 2 * sp) % M;
        SmallMod(s0 + 2 * sp, M);
        ExtendPrimes(produced, p);
        NextOddPrime(p);
        d := sp + 1;
        produced := produced + [p];
        return;
      }
      if s0 < 3 {
        s0 := (3 - 2 * SIEVESIZE) % M;
        ModUnique(3 - 2 * SIEVESIZE, M, -1, M + 3 - 2 * SIEVESIZE);
        OnlyTwo();
        produced := [2];
        return 2;
      }
      Closer(P, r);
      Resieve(P, r);
      p := Next(P, r);
    }
  }

  lemma NextStart(s0: nat)
    requires StartsBlock(s0)
    ensures StartsBlock(s0 + 2 * SIEVESIZE)
  {
  }

  /** Index k is one of pi, pi + p, ... */
  predicate Hit(pi: nat, p: nat, k: nat) {
    p != 0 && pi <= k && (k - pi) % p == 0
  }

  lemma HitMeansMultiple(s0: nat, p: nat, k: nat)
    requires s0 % 2 == 1 && p % 2 == 1
    ensures Hit(FirstIndex(s0, p), p, k) <==> Divides(p, s0 + 2 * k) && p < s0 + 2 * k
  {
    hide FirstIndex;
    StruckIndices(s0, p, k);
  }

  lemma HitFirst(pi: nat, p: nat)
    requires 1 <= p
    ensures Hit(pi, p, pi) && forall k: nat | k < pi :: !Hit(pi, p, k)
  {
    ModUnique(0, p, 0, 0);
  }

  lemma NextHit(pi: nat, p: nat, sp: nat)
    requires Hit(pi, p, sp)
    ensures Hit(pi, p, sp + p)
    ensures forall k: nat | sp <= k < sp + p :: Hit(pi, p, k) <==> k == sp
  {
    var q := (sp - pi) / p;
    assert sp - pi == p * q;
    assert sp + p - pi == p * (q + 1);
    ModUnique(sp + p - pi, p, q + 1, 0);
    forall k: nat | sp <= k < sp + p
      ensures Hit(pi, p, k) <==> k == sp
    {
      ModUnique(k - pi, p, q, k - sp);
    }
  }

  /** The index that the words give for p, whether or not the sums wrap. */
  function WordIndex(M: nat, s0: nat, p: nat): nat
    requires 1 <= p && 0 < M
  {
    var r := ((s0 + p) % M / 2) % p;
    var pi := if r > 0 then p - r else 0;
    if (s0 + 2 * pi) % M <= p then pi + p else pi
  }

  /** When s0 + p is the word base the index comes out as 0, so that s0 itself is struck. */
  lemma WrappedStrike(M: nat, s0: nat, p: nat)
    requires 1 <= p < s0 && s0 + p == M
    ensures WordIndex(M, s0, p) == 0 && (Divides(p, s0) <==> Divides(p, M))
  {
    ModUnique(M, M, 1, 0);
    SmallMod(0, p);
    SmallMod(s0, M);
    ModOfSum(p, 1, s0);
    assert p * 1 + s0 == M;
  }

  lemma SquareWraps(M: nat, y: nat, lo: nat, hi: nat, k: nat, bound: nat)
    requires 0 < M && lo <= y <= hi && k * M <= lo * lo && hi * hi <= k * M + bound && bound < M
    ensures (y * y) % M <= bound
  {
    MulMonotone(lo, y, lo, y);
    MulMonotone(y, hi, y, hi);
    assert M * k == k * M;
    ModUnique(y * y, M, k, y * y - k * M);
  }

  lemma RootPasses(x: nat)
    requires 65535 <= x < 127997
    ensures RaisesRoot(0x1_0000_0000, 4294839299, x)
  {
    var M, y := 0x1_0000_0000, x + 1;
    SmallMod(y, M);
    if y <= 92681 {
      SquareWraps(M, y, 65536, 92681, 1, 4294840322);
    } else if y <= 113511 {
      SquareWraps(M, y, 92682, 113511, 2, 4294840322);
    } else {
      SquareWraps(M, y, 113512, 127997, 3, 4294840322);
    }
  }

  /**
   A block without room that goes wrong: with 32-bit words and s0 = 4294839299 the root loop
   does not stop before 127997, a number of the wheel, whose strikes begin at s0 although it
   does not divide s0.
   */
  lemma WrongStrike()
    ensures var M, s0, p := 0x1_0000_0000, 4294839299, 127997;
            && StartsBlock(s0) && s0 + 2 * SIEVESIZE <= M && CoprimeTo210(p)
            && (forall x: nat | 65535 <= x < p :: RaisesRoot(M, s0, x))
            && WordIndex(M, s0, p) == 0 && !Divides(p, s0)
  {
    hide RaisesRoot, WordIndex;
    WrappedStrike(0x1_0000_0000, 4294839299, 127997);
    forall x: nat | 65535 <= x < 127997
      ensures RaisesRoot(0x1_0000_0000, 4294839299, x)
    {
      RootPasses(x);
    }
  }

  lemma WordIndexIs(M: nat, s0: nat, p: nat, sum: nat, rest: nat, pi: nat, first: nat)
    requires 1 <= p && 0 < M && sum == (s0 + p) % M && rest == sum / 2 % p
    requires pi == (if rest > 0 then p - rest else 0) && first == (s0 + 2 * pi) % M
    ensures WordIndex(M, s0, p) == if first <= p then pi + p else pi
  {
  }

  lemma Remains(x: nat, p: nat)
    requires 1 <= p
    ensures 0 <= x % p < p
  {
  }

  lemma WordIndexExact(M: nat, s0: nat, p: nat)
    requires 1 <= p && s0 + 2 * p < M
    ensures WordIndex(M, s0, p) == FirstIndex(s0, p)
  {
    SmallMod(s0 + p, M);
    var r := ((s0 + p) / 2) % p;
    var pi := if r > 0 then p - r else 0;
    SmallMod(s0 + 2 * pi, M);
  }

  // ---------- runs from gmp_init_primesieve ----------

  lemma {:induction false} LeastPrimeFrom(n: nat, p: nat) returns (q: nat)
    requires n <= p && IsPrime(p)
    ensures n <= q && IsPrime(q) && forall x: nat | IsPrime(x) && n <= x :: q <= x
    decreases p - n
  {
    hide IsPrime;
    if IsPrime(n) {
      q := n;
    } else {
      q := LeastPrimeFrom(n + 1, p);
    }
  }

  /** By Euclid there are first n primes for every n. */
  lemma {:induction false} FirstPrimesExist(n: nat) returns (ps: seq<nat>)
    ensures FirstPrimes(ps) && |ps| == n
  {
    hide FirstPrimes;
    if n == 0 {
      ps := [];
      assert FirstPrimes(ps) by { NoPrimes(); }
    } else {
      var qs := FirstPrimesExist(n - 1);
      var P := PrimeAbove(Last(qs));
      var q := LeastPrimeFrom(Last(qs) + 1, P);
      ExtendPrimes(qs, q);
      ps := qs + [q];
    }
  }

  lemma NoPrimes()
    ensures FirstPrimes([])
  {
  }

  lemma {:induction false} EarlierPrimes(a: seq<nat>, b: seq<nat>)
    requires FirstPrimes(a) && FirstPrimes(b) && |a| < |b|
    ensures a == b[..|a|] && Last(a) < Last(b) && IsPrime(Last(b))
    decreases |b|
  {
    hide IsPrime;
    var n := |b| - 1;
    PrefixOfPrimes(b);
    if |a| == n {
      FirstPrimesUnique(a, b[..n]);
    } else {
      EarlierPrimes(a, b[..n]);
    }
  }

  /** n calls after initialisation return the first n primes, when the last of them fits. */
  method FirstCalls(M: nat, n: nat, ghost ps: seq<nat>, ghost r: nat) returns (results: seq<nat>)
    requires 4 * SIEVESIZE <= M && FirstPrimes(ps) && |ps| == n && (n != 0 ==> FitsWord(M, Last(ps), r))
    ensures results == ps
  {
    hide FirstPrimes, IsPrime, FitsWord;
    var sieve := new PrimeSieve(M);
    results := [];
    for k := 0 to n
      invariant sieve.Valid() && fresh(sieve) && fresh(sieve.s) && sieve.M == M
      invariant results == sieve.produced && |results| == k && FirstPrimes(results)
    {
      EarlierPrimes(results, ps);
      var p := sieve.Next(Last(ps), r);
      results := results + [p];
    }
    FirstPrimesUnique(results, ps);
  }
}

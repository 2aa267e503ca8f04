/**
 The tables that lib/gmp/gen-trialdivtab.c writes and lib/gmp/mpn/generic/trialdiv.c
 reads: products of consecutive primes with the constants for dividing by them, and for
 each prime an inverse and a limit.
 */
module TrialTables {
  import opened Limbs
  import opened Primes
  import opened WideArith
  import opened PreinvDivision
  import opened TrialDivision
  import opened FoldedRemainder
  import opened ModInverse

  // ---------- lists of primes ----------

  /** The odd primes from lo to hi, in order. */
  ghost function OddPrimes(lo: nat, hi: nat): seq<nat> {
    if hi < lo || hi == 0 then []
    else OddPrimes(lo, hi - 1) + if hi % 2 == 1 && IsPrime(hi) then [hi] else []
  }

  lemma {:induction false} OddPrimesExact(lo: nat, hi: nat)
    ensures forall x: nat :: x in OddPrimes(lo, hi) <==> lo <= x <= hi && x % 2 == 1 && IsPrime(x)
  {
    hide IsPrime;
    if hi == 0 || hi < lo {
      OneNotPrime();
    } else {
      OddPrimesExact(lo, hi - 1);
    }
  }

  lemma OneNotPrime()
    ensures !IsPrime(0) && !IsPrime(1)
  {
  }

  /** One round of a loop with t += 2. */
  lemma OddPrimesStep(lo: nat, t: nat)
    requires t % 2 == 1 && lo <= t
    ensures OddPrimes(lo, t + 1) == if IsPrime(t) then OddPrimes(lo, t - 1) + [t] else OddPrimes(lo, t - 1)
  {
    hide IsPrime;
    assert OddPrimes(lo, t + 1) == OddPrimes(lo, t) + [];
    assert OddPrimes(lo, t - 1) + [] == OddPrimes(lo, t - 1);
  }

  lemma {:induction false} OddPrimesSplit(lo: nat, mid: nat, hi: nat)
    requires 1 <= mid && lo <= mid <= hi + 1
    ensures OddPrimes(lo, hi) == OddPrimes(lo, mid - 1) + OddPrimes(mid, hi)
    decreases hi
  {
    hide IsPrime;
    if mid <= hi {
      OddPrimesLast(lo, hi);
      OddPrimesLast(mid, hi);
      hide OddPrimes;
      OddPrimesSplit(lo, mid, hi - 1);
    } else {
      assert OddPrimes(mid, hi) == [];
    }
  }

  lemma OddPrimesLast(lo: nat, hi: nat)
    requires 1 <= hi && lo <= hi
    ensures OddPrimes(lo, hi) == OddPrimes(lo, hi - 1) + if hi % 2 == 1 && IsPrime(hi) then [hi] else []
  {
    hide IsPrime;
  }

  ghost function Prod(ps: seq<nat>): nat {
    if ps == [] then 1 else Prod(ps[..|ps| - 1]) * ps[|ps| - 1]
  }

  lemma ProdSnoc(ps: seq<nat>, p: nat)
    ensures Prod(ps + [p]) == Prod(ps) * p
  {
    assert (ps + [p])[..|ps|] == ps;
  }

  /** Each factor divides the product. */
  lemma {:induction false} FactorOfProd(ps: seq<nat>, k: nat)
    requires k < |ps| && forall i | 0 <= i < |ps| :: ps[i] != 0
    ensures Divides(ps[k], Prod(ps))
  {
    hide Divides;
    var n := |ps| - 1;
    if k == n {
      DividesIntro(ps[n], Prod(ps[..n]), Prod(ps));
    } else {
      FactorOfProd(ps[..n], k);
      assert ps[n] != 0;
      ProdNonzero(ps[..n]);
      DividesIntro(Prod(ps[..n]), ps[n], Prod(ps));
      DividesTransitive(ps[k], Prod(ps[..n]), Prod(ps));
    }
  }

  lemma {:induction false} ProdNonzero(ps: seq<nat>)
    requires forall i | 0 <= i < |ps| :: ps[i] != 0
    ensures 1 <= Prod(ps)
  {
    if ps != [] {
      ProdNonzero(ps[..|ps| - 1]);
      MulMonotone(1, Prod(ps[..|ps| - 1]), 1, ps[|ps| - 1]);
    }
  }

  lemma {:induction false} ProdOdd(ps: seq<nat>)
    requires forall i | 0 <= i < |ps| :: ps[i] % 2 == 1 && 3 <= ps[i]
    ensures Prod(ps) % 2 == 1 && (ps != [] ==> 3 <= Prod(ps))
  {
    if ps != [] {
      var n := |ps| - 1;
      ProdOdd(ps[..n]);
      OddTimesOdd(Prod(ps[..n]), ps[n]);
      MulMonotone(1, Prod(ps[..n]), 3, ps[n]);
    }
  }

  lemma OddTimesOdd(a: nat, b: nat)
    requires a % 2 == 1 && b % 2 == 1
    ensures (a * b) % 2 == 1
  {
    var h := a / 2;
    assert a == 2 * h + 1;
    assert a * b == 2 * (h * b) + b;
    ModOfSum(2, h * b, b);
  }

  // ---------- grouping the primes ----------

  /** The sum of the residues of B .. B^5. */
  ghost function Spill(w: nat, b: nat): nat
    requires b != 0
  {
    var B := Pow2(w);
    Power(B, 1) % b + Power(B, 2) % b + Power(B, 3) % b + Power(B, 4) % b + Power(B, 5) % b
  }

  /** Whether the product acc is too large for one line. */
  ghost predicate Stops(w: nat, acc: nat) {
    acc == 0 || w == 0 || Pow2(w - 1) <= acc || Pow2(w) <= Spill(w, acc)
  }

  lemma ResiduesExact(w: nat, b: nat, c: Constants)
    requires ConstantsRight(w, b, c)
    ensures c.b1 + c.b2 + c.b3 + c.b4 + c.b5 == Spill(w, b)
  {
    hide Congruent, Power;
    var B := Pow2(w);
    Reduced(b, c.b1, Power(B, 1));
    Reduced(b, c.b2, Power(B, 2));
    Reduced(b, c.b3, Power(B, 3));
    Reduced(b, c.b4, Power(B, 4));
    Reduced(b, c.b5, Power(B, 5));
  }

  lemma Reduced(m: nat, r: nat, x: nat)
    requires r < m && Congruent(m, r, x)
    ensures r == x % m
  {
    hide Congruent;
    CongruentSameRemainder(m, r, x);
    SmallMod(r, m);
  }

  /** mpz_mul_ui, mpz_cmp with Bhalf, and sumspills. */
  method TestProduct(w: nat, ppp: nat, t: nat) returns (acc: nat, stop: bool)
    requires 1 <= ppp && 1 <= t && 1 <= w
    ensures acc == ppp * t && 1 <= acc && (stop <==> Stops(w, acc))
    ensures var B := Pow2(w);
            stop <==> B <= 2 * acc || B <= B % acc + (B * B) % acc + Power(B, 3) % acc + Power(B, 4) % acc + Power(B, 5) % acc
  {
    StopsMeans(w, ppp * t);
    hide Spill, ConstantsRight;
    MulMonotone(1, ppp, 1, t);
    acc := ppp * t;
    stop := acc >= Pow2(w - 1);
    if !stop {
      Pow2Monotone(w - 1, w);
      var pre := ComputeConstants(w, acc);
      ResiduesExact(w, acc, pre);
      stop := SumSpills(w, pre);
    }
  }

  /** At least half the word base, or five residues that add up to the word base. */
  lemma StopsMeans(w: nat, m: nat)
    requires 1 <= w && 1 <= m
    ensures var B := Pow2(w);
            Stops(w, m) <==> B <= 2 * m || B <= B % m + (B * B) % m + Power(B, 3) % m + Power(B, 4) % m + Power(B, 5) % m
  {
    assert Pow2(w) == 2 * Pow2(w - 1);
    FirstPowers(Pow2(w));
    hide Power;
  }

  datatype Grouping = Grouping(closed: seq<seq<nat>>, open: seq<nat>)

  /** The groups after the primes qs: a group is closed when the next prime no longer fits. */
  ghost function Group(w: nat, qs: seq<nat>): Grouping {
    if qs == [] then Grouping([], [])
    else
      var g, t := Group(w, qs[..|qs| - 1]), qs[|qs| - 1];
      if Stops(w, Prod(g.open + [t])) then Grouping(g.closed + [g.open], [t]) else Grouping(g.closed, g.open + [t])
  }

  lemma GroupSnoc(w: nat, qs: seq<nat>, t: nat)
    ensures var g := Group(w, qs);
            Group(w, qs + [t]) == if Stops(w, Prod(g.open + [t])) then Grouping(g.closed + [g.open], [t]) else Grouping(g.closed, g.open + [t])
  {
    assert (qs + [t])[..|qs|] == qs;
  }

  ghost function Flatten(groups: seq<seq<nat>>): seq<nat> {
    if groups == [] then [] else Flatten(groups[..|groups| - 1]) + groups[|groups| - 1]
  }

  lemma FlattenSnoc(groups: seq<seq<nat>>, g: seq<nat>)
    ensures Flatten(groups + [g]) == Flatten(groups) + g
  {
    assert (groups + [g])[..|groups|] == groups;
  }

  ghost predicate OddNumbers(qs: seq<nat>) {
    forall i | 0 <= i < |qs| :: 3 <= qs[i] && qs[i] % 2 == 1
  }

  /** A group of two or more has passed the test for its last member. */
  ghost predicate Tested(w: nat, g: seq<nat>) {
    OddNumbers(g) && (2 <= |g| ==> !Stops(w, Prod(g)))
  }

  /** The groups pass the test as far as it was made, and together they are the primes in order. */
  ghost predicate GoodGrouping(w: nat, g: Grouping, qs: seq<nat>) {
    && Flatten(g.closed) + g.open == qs && (g.open == [] ==> qs == [] && g.closed == [])
    && Tested(w, g.open)
    && forall i | 0 <= i < |g.closed| :: Tested(w, g.closed[i])
  }

  lemma CloseGroup(w: nat, g: Grouping, qs: seq<nat>, t: nat)
    requires GoodGrouping(w, g, qs) && OddNumbers([t])
    ensures GoodGrouping(w, Grouping(g.closed + [g.open], [t]), qs + [t])
  {
    hide Stops, Prod, OddNumbers;
    FlattenSnoc(g.closed, g.open);
  }

  lemma GrowGroup(w: nat, g: Grouping, qs: seq<nat>, t: nat)
    requires GoodGrouping(w, g, qs) && OddNumbers([t]) && !Stops(w, Prod(g.open + [t]))
    ensures GoodGrouping(w, Grouping(g.closed, g.open + [t]), qs + [t])
  {
    hide Stops, Prod;
    var open := g.open + [t];
    forall i | 0 <= i < |open|
      ensures 3 <= open[i] && open[i] % 2 == 1
    {
      assert i == |g.open| ==> open[i] == [t][0];
    }
    assert Flatten(g.closed) + open == qs + [t];
  }

  lemma {:induction false} GroupsAreGood(w: nat, qs: seq<nat>)
    requires OddNumbers(qs)
    ensures GoodGrouping(w, Group(w, qs), qs)
  {
    hide Stops, Prod, GoodGrouping;
    if qs == [] {
      assert GoodGrouping(w, Grouping([], []), []) by { NoGroups(w); }
    } else {
      var n := |qs| - 1;
      var us, t := qs[..n], qs[n];
      assert qs == us + [t];
      GroupsAreGood(w, us);
      GroupSnoc(w, us, t);
      var g := Group(w, us);
      assert OddNumbers([t]);
      if Stops(w, Prod(g.open + [t])) {
        CloseGroup(w, g, us, t);
      } else {
        GrowGroup(w, g, us, t);
      }
    }
  }

  lemma NoGroups(w: nat)
    ensures GoodGrouping(w, Grouping([], []), [])
  {
  }

  // ---------- what determines the groups ----------

  /** A product that the generator still puts on one line: below half the word base, with residues below it. */
  ghost predicate FitsTogether(w: nat, m: nat)
    requires m != 0
  {
    var B := Pow2(w);
    2 * m < B && B % m + (B * B) % m + Power(B, 3) % m + Power(B, 4) % m + Power(B, 5) % m < B
  }

  /** All groups, the open one last. */
  function AllGroups(g: Grouping): (groups: seq<seq<nat>>)
    ensures |groups| == |g.closed| + 1
  {
    g.closed + [g.open]
  }

  /**
   Groups are as long as possible: every beginning of a group fits on one line, except that a
   prime may be alone behind another group; and a group with the first prime of the next one
   does not fit.
   */
  ghost predicate Greedy(w: nat, g: Grouping, qs: seq<nat>) {
    && Flatten(g.closed) + g.open == qs
    && (forall i | 0 <= i <= |g.closed| :: BeginningsFit(w, AllGroups(g)[i], if i == 0 then 1 else 2))
    && (forall i | 0 <= i < |g.closed| :: ClosedBy(w, g.closed[i], AllGroups(g)[i + 1]))
    && (forall i | 0 < i < |g.closed| :: g.closed[i] != [])
  }

  ghost predicate BeginningsFit(w: nat, group: seq<nat>, from: nat) {
    forall k | from <= k <= |group| :: var m := Prod(group[..k]); m != 0 && FitsTogether(w, m)
  }

  ghost predicate ClosedBy(w: nat, group: seq<nat>, next: seq<nat>) {
    next != [] && var m := Prod(group + [next[0]]); m != 0 && !FitsTogether(w, m)
  }

  lemma StopsOrFits(w: nat, m: nat)
    requires 1 <= w && m != 0
    ensures Stops(w, m) <==> !FitsTogether(w, m)
  {
    StopsMeans(w, m);
    hide Power;
  }

  /** The groups without the last number. */
  function Shorter(g: Grouping): Grouping
    requires g.open != []
  {
    var n := |g.open| - 1;
    if n != 0 || g.closed == [] then Grouping(g.closed, g.open[..n])
    else Grouping(g.closed[..|g.closed| - 1], g.closed[|g.closed| - 1])
  }

  lemma OpenNotEmpty(w: nat, g: Grouping, qs: seq<nat>)
    requires Greedy(w, g, qs)
    ensures g.open == [] ==> g.closed == [] && qs == []
  {
    hide FitsTogether, Prod;
    if g.closed != [] {
      var i := |g.closed| - 1;
      assert ClosedBy(w, g.closed[i], AllGroups(g)[i + 1]);
    }
  }

  lemma ShorterFlat(g: Grouping, qs: seq<nat>)
    requires Flatten(g.closed) + g.open == qs && g.open != []
    ensures Flatten(Shorter(g).closed) + Shorter(g).open == qs[..|qs| - 1]
    ensures g.open[|g.open| - 1] == qs[|qs| - 1]
  {
    hide Flatten;
    var n := |g.open| - 1;
    if n == 0 && g.closed != [] {
      var c := |g.closed| - 1;
      FlattenSnoc(g.closed[..c], g.closed[c]);
      assert g.closed[..c] + [g.closed[c]] == g.closed;
    }
    assert Flatten(g.closed) + g.open[..n] == qs[..|qs| - 1];
  }

  lemma ShorterIsGreedy(w: nat, g: Grouping, qs: seq<nat>)
    requires Greedy(w, g, qs) && g.open != []
    ensures Greedy(w, Shorter(g), qs[..|qs| - 1])
  {
    hide BeginningsFit, ClosedBy, Flatten;
    ShorterFlat(g, qs);
    var s := Shorter(g);
    var all, less := AllGroups(g), AllGroups(s);
    forall i | 0 <= i <= |s.closed|
      ensures BeginningsFit(w, less[i], if i == 0 then 1 else 2)
    {
      assert less[i] <= all[i];
      BeginningsShorter(w, less[i], all[i], if i == 0 then 1 else 2);
    }
    forall i | 0 <= i < |s.closed|
      ensures ClosedBy(w, s.closed[i], less[i + 1])
    {
      assert s.closed[i] == g.closed[i] && less[i + 1] <= all[i + 1];
      ClosedByShorter(w, g.closed[i], less[i + 1], all[i + 1]);
    }
  }

  lemma BeginningsShorter(w: nat, a: seq<nat>, b: seq<nat>, from: nat)
    requires BeginningsFit(w, b, from) && a <= b
    ensures BeginningsFit(w, a, from)
  {
    hide Prod, FitsTogether;
    assert forall k | 0 <= k <= |a| :: a[..k] == b[..k];
  }

  lemma ClosedByShorter(w: nat, group: seq<nat>, a: seq<nat>, b: seq<nat>)
    requires ClosedBy(w, group, b) && a <= b && a != []
    ensures ClosedBy(w, group, a)
  {
    hide Prod, FitsTogether;
    assert a[0] == b[0];
  }

  /** There is one such grouping, and it is the one that the passes make. */
  lemma {:induction false} GreedyIsGroup(w: nat, g: Grouping, qs: seq<nat>)
    requires 1 <= w && Greedy(w, g, qs)
    ensures g == Group(w, qs)
    decreases |qs|
  {
    hide Prod, FitsTogether, Flatten, Stops;
    OpenNotEmpty(w, g, qs);
    if qs != [] {
      ShorterFlat(g, qs);
      ShorterIsGreedy(w, g, qs);
      GreedyIsGroup(w, Shorter(g), qs[..|qs| - 1]);
      GreedyLast(w, g, qs);
    }
  }

  lemma GreedyLast(w: nat, g: Grouping, qs: seq<nat>)
    requires 1 <= w && Greedy(w, g, qs) && g.open != [] && qs != [] && qs[|qs| - 1] == g.open[|g.open| - 1]
    requires Shorter(g) == Group(w, qs[..|qs| - 1])
    ensures g == Group(w, qs)
  {
    hide Prod, FitsTogether, Flatten, Stops;
    var n, t, all, c := |g.open| - 1, qs[|qs| - 1], AllGroups(g), |g.closed|;
    assert qs == qs[..|qs| - 1] + [t];
    GroupSnoc(w, qs[..|qs| - 1], t);
    assert all[c] == g.open;
    if n != 0 || c == 0 {
      assert g.open[..n] + [t] == g.open;
      assert all[c][..n + 1] == g.open && BeginningsFit(w, all[c], if c == 0 then 1 else 2);
      StopsOrFits(w, Prod(g.open));
    } else {
      assert g.open == [t];
      assert ClosedBy(w, g.closed[c - 1], all[c - 1 + 1]) && all[c - 1 + 1][0] == t;
      StopsOrFits(w, Prod(g.closed[c - 1] + [t]));
      assert g.closed == g.closed[..c - 1] + [g.closed[c - 1]];
    }
  }

  /** The groups of the passes are as long as possible. */
  lemma {:induction false} GroupIsGreedy(w: nat, qs: seq<nat>)
    requires 1 <= w && OddNumbers(qs)
    ensures Greedy(w, Group(w, qs), qs)
  {
    hide Prod, FitsTogether, Flatten, Stops;
    if qs == [] {
      NothingIsGreedy(w);
    } else {
      var us, t := qs[..|qs| - 1], qs[|qs| - 1];
      assert qs == us + [t];
      GroupIsGreedy(w, us);
      GroupsAreGood(w, us);
      GroupSnoc(w, us, t);
      GreedyNext(w, Group(w, us), us, t);
    }
  }

  lemma NothingIsGreedy(w: nat)
    ensures Greedy(w, Grouping([], []), [])
  {
  }

  lemma GreedyNext(w: nat, g: Grouping, us: seq<nat>, t: nat)
    requires 1 <= w && Greedy(w, g, us) && GoodGrouping(w, g, us) && OddNumbers([t])
    ensures Stops(w, Prod(g.open + [t])) ==> Greedy(w, Grouping(g.closed + [g.open], [t]), us + [t])
    ensures !Stops(w, Prod(g.open + [t])) ==> Greedy(w, Grouping(g.closed, g.open + [t]), us + [t])
  {
    assert [t][0] == t;
    OpenProduct(w, g, us, t);
    hide Prod, FitsTogether, Flatten, Stops, GoodGrouping, Tested;
    StopsOrFits(w, Prod(g.open + [t]));
    if Stops(w, Prod(g.open + [t])) {
      GreedyClose(w, g, us, t);
    } else {
      GreedyGrow(w, g, us, t);
    }
  }

  lemma OpenProduct(w: nat, g: Grouping, us: seq<nat>, t: nat)
    requires GoodGrouping(w, g, us) && 1 <= t
    ensures Prod(g.open + [t]) != 0 && (g.open == [] ==> us == [] && g.closed == [])
  {
    hide Stops;
    ProdNonzero(g.open + [t]);
  }

  lemma GreedyClose(w: nat, g: Grouping, us: seq<nat>, t: nat)
    requires Greedy(w, g, us) && (g.open == [] ==> us == [] && g.closed == [])
    requires Prod(g.open + [t]) != 0 && !FitsTogether(w, Prod(g.open + [t]))
    ensures Greedy(w, Grouping(g.closed + [g.open], [t]), us + [t])
  {
    hide Prod, FitsTogether, Flatten;
    var h := Grouping(g.closed + [g.open], [t]);
    FlattenSnoc(g.closed, g.open);
    var all, more, c := AllGroups(g), AllGroups(h), |g.closed|;
    assert forall i | 0 <= i <= c :: more[i] == all[i] == h.closed[i];
    assert more[c + 1] == [t];
    hide BeginningsFit;
    assert BeginningsFit(w, [t], 2) by { OneNumber(w, t); }
    forall i | 0 <= i < |h.closed|
      ensures ClosedBy(w, h.closed[i], more[i + 1])
    {
      if i < c {
        assert ClosedBy(w, g.closed[i], all[i + 1]);
      }
    }
  }

  lemma OneNumber(w: nat, t: nat)
    ensures BeginningsFit(w, [t], 2)
  {
  }

  lemma GreedyGrow(w: nat, g: Grouping, us: seq<nat>, t: nat)
    requires Greedy(w, g, us) && (g.open == [] ==> us == [] && g.closed == [])
    requires Prod(g.open + [t]) != 0 && FitsTogether(w, Prod(g.open + [t]))
    ensures Greedy(w, Grouping(g.closed, g.open + [t]), us + [t])
  {
    hide Prod, FitsTogether, Flatten;
    var h := Grouping(g.closed, g.open + [t]);
    var all, more, c := AllGroups(g), AllGroups(h), |g.closed|;
    assert Flatten(g.closed) + (g.open + [t]) == us + [t];
    assert forall i | 0 <= i < c :: more[i] == all[i];
    assert more[c] == g.open + [t] && all[c] == g.open;
    assert BeginningsFit(w, all[c], if c == 0 then 1 else 2);
    BeginningsLonger(w, g.open, t, if c == 0 then 1 else 2);
    forall i | 0 <= i < c
      ensures ClosedBy(w, h.closed[i], more[i + 1])
    {
      assert ClosedBy(w, g.closed[i], all[i + 1]);
      assert more[i + 1][0] == all[i + 1][0];
    }
  }

  lemma BeginningsLonger(w: nat, group: seq<nat>, t: nat, from: nat)
    requires BeginningsFit(w, group, from) && Prod(group + [t]) != 0 && FitsTogether(w, Prod(group + [t]))
    ensures BeginningsFit(w, group + [t], from)
  {
    hide Prod, FitsTogether;
    var more := group + [t];
    forall k | from <= k <= |more|
      ensures var m := Prod(more[..k]); m != 0 && FitsTogether(w, m)
    {
      if k <= |group| {
        assert more[..k] == group[..k];
      } else {
        assert more[..k] == more;
      }
    }
  }

  /** The odd primes up to end are grouped in this way, and in no other. */
  lemma GreedyGroups(w: nat, end: nat)
    requires 1 <= w
    ensures Greedy(w, Group(w, OddPrimes(3, end)), OddPrimes(3, end))
    ensures forall g | Greedy(w, g, OddPrimes(3, end)) :: g == Group(w, OddPrimes(3, end))
  {
    hide OddPrimes, Group, Greedy;
    OddPrimesExact(3, end);
    var qs := OddPrimes(3, end);
    assert forall i | 0 <= i < |qs| :: qs[i] in qs;
    GroupIsGreedy(w, qs);
    forall g | Greedy(w, g, qs) ensures g == Group(w, qs) {
      GreedyIsGroup(w, g, qs);
    }
  }

  lemma ProdOne(t: nat)
    ensures Prod([]) == 1 && Prod([]) * t == t && Prod([t]) == t
  {
    ProdSnoc([], t);
    assert [] + [t] == [t];
  }

  // ---------- the tables ----------

  /** gmp_primes_dtab: an inverse and a limit for one prime, which is not stored itself. */
  datatype DtabEntry = DtabEntry(binv: nat, lim: nat)

  /** gmp_primes_ptab: a product of np primes, from index idx of the other table on. */
  datatype PtabLine = PtabLine(ppp: nat, cps: Constants, idx: nat, np: nat)

  ghost predicate EntryRight(h: nat, e: DtabEntry, p: nat) {
    p != 0 && e.binv < WordBase(h) && Inverts(e.binv, p, 2 * h) && e.lim == (WordBase(h) - 1) / p
  }

  ghost predicate DtabRight(h: nat, dtab: seq<DtabEntry>, ps: seq<nat>) {
    |dtab| == |ps| && forall k | 0 <= k < |ps| :: EntryRight(h, dtab[k], ps[k])
  }

  /** The line printed for the group g, whether it can be used or not. */
  ghost predicate LineRight(h: nat, line: PtabLine, g: seq<nat>) {
    line.np == |g| && line.ppp == Prod(g) && line.ppp != 0 && ConstantsRight(2 * h, line.ppp, line.cps)
    && line.cps.bi == ((Pow2(BitLength(line.ppp)) - line.ppp) * Pow2(2 * h)) / line.ppp
  }

  ghost predicate PtabRight(h: nat, ptab: seq<PtabLine>, groups: seq<seq<nat>>) {
    && |ptab| == |groups|
    && (forall i | 0 <= i < |groups| :: LineRight(h, ptab[i], groups[i]))
    && (forall i: nat | i < |groups| :: ptab[i].idx == |Flatten(groups[..i])|)
  }

  /** mpn_mod_1s_4p can be called with the line, and finds the remainder of every number. */
  ghost predicate LinePrepared(h: nat, line: PtabLine) {
    && 1 <= line.cps.cnt && line.ppp * Pow2(line.cps.cnt) != 0
    && Prepared(h, line.ppp, line.ppp * Pow2(line.cps.cnt), line.cps) && ResidueSum(line.cps) <= WordBase(h)
  }

  /** A product has a bit to spare, and its residues do not exceed B.  The test stops already when they reach B. */
  ghost predicate FitsWord(w: nat, m: nat) {
    m != 0 && w != 0 && m < Pow2(w - 1) && Spill(w, m) <= Pow2(w)
  }

  /** The guard: the generator never tests a group of one, and closes an empty group when the first prime fails. */
  ghost predicate FitsLine(w: nat, g: seq<nat>) {
    g != [] && (|g| == 1 ==> FitsWord(w, g[0]))
  }

  ghost predicate AllFit(w: nat, groups: seq<seq<nat>>) {
    forall i | 0 <= i < |groups| :: FitsLine(w, groups[i])
  }

  /** The tables hold all odd primes below omitted, and every line can be used. */
  ghost predicate TablesRight(h: nat, dtab: seq<DtabEntry>, ptab: seq<PtabLine>, groups: seq<seq<nat>>, omitted: nat) {
    && 3 <= omitted && DtabRight(h, dtab, Flatten(groups)) && PtabRight(h, ptab, groups)
    && Flatten(groups) == OddPrimes(3, omitted - 1) && AllFit(2 * h, groups)
    && forall i | 0 <= i < |groups| :: Tested(2 * h, groups[i])
  }

  /** The constants of an odd product with a bit to spare are ready for mpn_mod_1s_4p. */
  lemma GroupConstants(h: nat, m: nat, c: Constants)
    requires 1 <= h && 3 <= m && m % 2 == 1 && m < Pow2(2 * h - 1) && ConstantsRight(2 * h, m, c)
    requires c.bi == ((Pow2(BitLength(m)) - m) * Pow2(2 * h)) / m
    ensures 1 <= c.cnt && m * Pow2(c.cnt) != 0 && Prepared(h, m, m * Pow2(c.cnt), c) && ResidueSum(c) == Spill(2 * h, m)
  {
    hide Congruent, Spill, Pow2, BitLength, Inverse21, Normalised;
    ResiduesExact(2 * h, m, c);
    BitLengthAtMost(m, 2 * h - 1);
    assert WordBase(h) == Pow2(2 * h) by { WordBaseFacts(h); }
    OddNotPowerOfTwo(m);
    ReciprocalOfShifted(2 * h, m, c.cnt, c.bi);
  }

  lemma FittingProduct(w: nat, g: seq<nat>)
    requires Tested(w, g) && FitsLine(w, g)
    ensures 3 <= Prod(g) && Prod(g) % 2 == 1 && FitsWord(w, Prod(g))
  {
    hide Prod, Spill;
    ProdOdd(g);
    if |g| == 1 {
      ProdOne(g[0]);
      assert g == [g[0]];
    }
  }

  lemma StoppedUnusable(h: nat, m: nat, c: Constants)
    requires 1 <= h && 1 <= m && !FitsWord(2 * h, m) && ConstantsRight(2 * h, m, c)
    ensures c.cnt < 1 || WordBase(h) < ResidueSum(c)
  {
    hide Congruent, Spill, Pow2, BitLength;
    ResiduesExact(2 * h, m, c);
    WordBaseFacts(h);
    if Pow2(2 * h - 1) <= m && 1 <= c.cnt {
      BitLengthBounds(m);
      Pow2Monotone(BitLength(m), 2 * h - 1);
      assert false;
    }
  }

  /** The reciprocal computed for 1, a power of two, comes out one too large. */
  lemma UnitReciprocal(w: nat, cnt: nat)
    requires BitLength(1) + cnt == w && 1 <= w
    ensures 1 * Pow2(cnt) != 0 && ((Pow2(BitLength(1)) - 1) * Pow2(w)) / 1 != Inverse21(Pow2(w), 1 * Pow2(cnt))
  {
    assert 1 == Pow2(0);
    assert IsPowerOfTwo(1);
    hide Pow2, BitLength, Inverse21, Normalised, IsPowerOfTwo;
    var bi: int := ((Pow2(BitLength(1)) - 1) * Pow2(w)) / 1;
    ReciprocalOfShifted(w, 1, cnt, bi);
  }

  lemma EmptyUnusable(h: nat, c: Constants)
    requires 1 <= h && ConstantsRight(2 * h, 1, c) && c.bi == ((Pow2(BitLength(1)) - 1) * Pow2(2 * h)) / 1
    ensures !(1 <= c.cnt && 1 * Pow2(c.cnt) != 0 && Prepared(h, 1, 1 * Pow2(c.cnt), c))
  {
    hide Congruent, BitLength, Inverse21, Normalised, Pow2;
    if 1 <= c.cnt {
      assert WordBase(h) == Pow2(2 * h) by { WordBaseFacts(h); }
      UnitReciprocal(2 * h, c.cnt);
    }
  }

  /** A printed line can be used if and only if its group is neither empty nor a single prime without a bit to spare or with larger residues. */
  lemma LineUsable(h: nat, line: PtabLine, g: seq<nat>)
    requires 1 <= h && LineRight(h, line, g) && Tested(2 * h, g)
    ensures LinePrepared(h, line) <==> FitsLine(2 * h, g)
  {
    hide Prepared, ConstantsRight, Pow2, BitLength, Stops, Prod, Spill;
    WordBaseFacts(h);
    if FitsLine(2 * h, g) {
      FittingProduct(2 * h, g);
      GroupConstants(h, line.ppp, line.cps);
    } else if g == [] {
      ProdOne(1);
      EmptyUnusable(h, line.cps);
    } else {
      ProdOne(g[0]);
      assert g == [g[0]];
      StoppedUnusable(h, line.ppp, line.cps);
    }
  }

  /**
   What is wrong with the other lines: for a product with a bit to spare, the fold of every
   number is divided by it exactly when the number is, if and only if the line can be used.
   */
  lemma LineDecides(h: nat, line: PtabLine, g: seq<nat>)
    requires 1 <= h && LineRight(h, line, g) && Tested(2 * h, g) && g != [] && line.ppp < Pow2(2 * h - 1)
    requires 0 < WordBase(h) && 0 < WordBase(h) * WordBase(h)
    ensures (forall tp: seq<nat> | 1 <= |tp| && AllWords(WordBase(h), tp) :: FoldDecides(WordBase(h), line.ppp, line.cps, tp)) <==> FitsLine(2 * h, g)
  {
    hide Prepared, ConstantsRight, Pow2, BitLength, Stops, Prod, Spill, FoldDecides, AllWords, FitsLine, WordBase;
    ProdOdd(g);
    GroupConstants(h, line.ppp, line.cps);
    RemainderExact(h, line.ppp, line.ppp * Pow2(line.cps.cnt), line.cps);
    LineUsable(h, line, g);
  }

  // ---------- the first pass ----------

  /** The entries printed for the primes from lo to hi. */
  method EmitEntries(h: nat, lo: nat, hi: nat) returns (entries: seq<DtabEntry>)
    requires 1 <= h && 3 <= lo && lo % 2 == 1 && (hi < lo || hi % 2 == 1)
    ensures DtabRight(h, entries, OddPrimes(lo, hi))
  {
    hide *;
    WordBaseFacts(h);
    NoEntries(h);
    entries := [];
    var p := lo;
    NoOddPrimes(lo, p - 1);
    while p <= hi
      invariant p % 2 == 1 && lo <= p && (p <= hi + 2 || p == lo)
      invariant DtabRight(h, entries, OddPrimes(lo, p - 1))
    {
      OddPrimesStep(lo, p);
      var prime := IsPrimeTest(p);
      if prime {
        var inv := MpzInvertUi2Exp(p, 2 * h);
        NewEntry(h, inv, p);
        var entry := DtabEntry(inv, (WordBase(h) - 1) / p);
        DtabSnoc(h, entries, OddPrimes(lo, p - 1), entry, p);
        entries := entries + [entry];
      }
      p := p + 2;
    }
    LoopEnds(lo, hi, p);
  }

  lemma LoopEnds(lo: nat, hi: nat, p: nat)
    requires 1 <= lo <= p && hi < p && p % 2 == 1 && (p <= hi + 2 || p == lo) && (hi < lo || hi % 2 == 1)
    ensures OddPrimes(lo, p - 1) == OddPrimes(lo, hi)
  {
    hide IsPrime;
    if hi < lo {
      NoOddPrimes(lo, hi);
    } else {
      OpenAtPrime(lo, hi);
    }
  }

  lemma NewEntry(h: nat, inv: nat, p: nat)
    requires 3 <= p && inv < WordBase(h) && Inverts(inv, p, 2 * h)
    ensures 0 <= (WordBase(h) - 1) / p && EntryRight(h, DtabEntry(inv, (WordBase(h) - 1) / p), p)
  {
    hide Inverts, WordBase;
  }

  lemma NoOddPrimes(lo: nat, hi: nat)
    requires hi < lo
    ensures OddPrimes(lo, hi) == []
  {
  }

  lemma DtabSnoc(h: nat, dtab: seq<DtabEntry>, ps: seq<nat>, e: DtabEntry, p: nat)
    requires DtabRight(h, dtab, ps) && EntryRight(h, e, p)
    ensures DtabRight(h, dtab + [e], ps + [p])
  {
    hide EntryRight;
  }

  lemma DtabConcat(h: nat, dtab: seq<DtabEntry>, ps: seq<nat>, dtab': seq<DtabEntry>, ps': seq<nat>)
    requires DtabRight(h, dtab, ps) && DtabRight(h, dtab', ps')
    ensures DtabRight(h, dtab + dtab', ps + ps')
  {
    hide EntryRight;
  }

  /** What both passes keep while t runs through the odd numbers. */
  ghost predicate Grouped(w: nat, t: nat, start: nat, g: Grouping) {
    && 3 <= start <= t && t % 2 == 1 && start % 2 == 1
    && g == Group(w, OddPrimes(3, t - 1)) && GoodGrouping(w, g, OddPrimes(3, t - 1))
    && Flatten(g.closed) == OddPrimes(3, start - 1) && g.open == OddPrimes(start, t - 1)
  }

  lemma GroupedStart(w: nat)
    ensures Grouped(w, 3, 3, Grouping([], []))
  {
    NoOddPrimes(3, 2);
    NoGroups(w);
  }

  lemma GroupedSkip(w: nat, t: nat, start: nat, g: Grouping)
    requires Grouped(w, t, start, g) && !IsPrime(t)
    ensures Grouped(w, t + 2, start, g)
  {
    hide IsPrime, GoodGrouping, Group, OddPrimes;
    OddPrimesStep(3, t);
    OddPrimesStep(start, t);
  }

  lemma GroupedPrime(w: nat, t: nat, start: nat, g: Grouping)
    requires Grouped(w, t, start, g) && IsPrime(t)
    ensures var s := Stops(w, Prod(g.open + [t]));
            && (s ==> Grouped(w, t + 2, t, Grouping(g.closed + [g.open], [t])))
            && (!s ==> Grouped(w, t + 2, start, Grouping(g.closed, g.open + [t])))
  {
    hide IsPrime, Stops, Prod, Group, OddPrimes, GoodGrouping;
    OddPrimesStep(3, t);
    OddPrimesStep(start, t);
    OddPrimesStep(t, t);
    NoOddPrimes(t, t - 1);
    GroupSnoc(w, OddPrimes(3, t - 1), t);
    var qs, qs' := OddPrimes(3, t - 1), OddPrimes(3, t + 1);
    assert OddNumbers([t]);
    if Stops(w, Prod(g.open + [t])) {
      CloseGroup(w, g, qs, t);
      FlattenSnoc(g.closed, g.open);
      OddPrimesSplit(3, start, t - 1);
      assert Flatten(g.closed + [g.open]) == qs;
    } else {
      GrowGroup(w, g, qs, t);
    }
  }

  lemma GroupedProduct(w: nat, t: nat, start: nat, g: Grouping)
    requires Grouped(w, t, start, g)
    ensures 1 <= Prod(g.open) && Tested(w, g.open)
  {
    hide Stops;
    ProdNonzero(g.open);
  }

  /** The first pass: the entries of the closed groups, and the smallest prime left out. */
  method GenerateDtab(h: nat, end: nat) returns (dtab: seq<DtabEntry>, omitted: nat)
    requires 1 <= h
    ensures 3 <= omitted && DtabRight(h, dtab, OddPrimes(3, omitted - 1))
    ensures Flatten(Group(2 * h, OddPrimes(3, end)).closed) == OddPrimes(3, omitted - 1)
    ensures forall g | Greedy(2 * h, g, OddPrimes(3, end)) :: Flatten(g.closed) == OddPrimes(3, omitted - 1)
  {
    hide *;
    GreedyGroups(2 * h, end);
    WordBaseFacts(h);
    ghost var w := 2 * h;
    dtab := [];
    var ppp := 1;
    var interval_start, interval_end := 3, 0;
    omitted := 3;
    var t := 3;
    ghost var g := Grouping([], []);
    GroupedStart(w);
    ProdOne(1);
    NoOddPrimes(3, 0);
    NoOddPrimes(3, 2);
    NoEntries(h);
    while t <= end
      invariant Grouped(w, t, interval_start, g) && ppp == Prod(g.open) && 3 <= interval_start && interval_start % 2 == 1
      invariant 3 <= t && t % 2 == 1 && (t <= end + 2 || t == 3)
      invariant g.open == OddPrimes(interval_start, interval_end)
      invariant interval_end < interval_start || interval_end % 2 == 1
      invariant omitted == interval_start && DtabRight(h, dtab, OddPrimes(3, interval_start - 1))
    {
      var prime := IsPrimeTest(t);
      if prime {
        GroupedMeans(w, t, interval_start, g);
        GroupedProduct(w, t, interval_start, g);
        ProdSnoc(g.open, t);
        GroupedPrime(w, t, interval_start, g);
        var acc, stop := TestProduct(2 * h, ppp, t);
        if stop {
          var entries := EmitEntries(h, interval_start, interval_end);
          DtabConcat(h, dtab, OddPrimes(3, interval_start - 1), entries, g.open);
          dtab := dtab + entries;
          ghost var before := g;
          ppp := t;
          g := Grouping(g.closed + [g.open], [t]);
          GroupedMeans(w, t + 2, t, g);
          FlattenSnoc(before.closed, before.open);
          interval_start := t;
          omitted := t;
        } else {
          g := Grouping(g.closed, g.open + [t]);
          GroupedMeans(w, t + 2, interval_start, g);
          ppp := acc;
        }
        interval_end := t;
        OpenAtPrime(interval_start, t);
        ProdOne(t);
      } else {
        GroupedSkip(w, t, interval_start, g);
      }
      t := t + 2;
    }
    GroupedMeans(w, t, interval_start, g);
    LoopCovers(t, end);
  }

  lemma GroupedMeans(w: nat, t: nat, start: nat, g: Grouping)
    requires Grouped(w, t, start, g)
    ensures 1 <= t && g == Group(w, OddPrimes(3, t - 1)) && g.open == OddPrimes(start, t - 1)
    ensures 1 <= start <= t && Flatten(g.closed) == OddPrimes(3, start - 1) && GoodGrouping(w, g, OddPrimes(3, t - 1))
  {
    hide GoodGrouping, OddPrimes, Group;
  }

  lemma NoEntries(h: nat)
    ensures DtabRight(h, [], [])
  {
  }

  lemma OpenAtPrime(start: nat, t: nat)
    requires t % 2 == 1 && start <= t
    ensures OddPrimes(start, t + 1) == OddPrimes(start, t)
  {
    hide IsPrime;
    assert OddPrimes(start, t) + [] == OddPrimes(start, t);
  }

  lemma LoopCovers(t: nat, end: nat)
    requires 3 <= t && t % 2 == 1 && end < t && (t <= end + 2 || t == 3)
    ensures OddPrimes(3, t - 1) == OddPrimes(3, end)
  {
    hide IsPrime;
    if end < 3 {
      NoOddPrimes(3, end);
      NoOddPrimes(3, t - 1);
    } else if t - 1 != end {
      OpenAtPrime(3, end);
    }
  }

  // ---------- the second pass ----------

  lemma PtabSnoc(h: nat, ptab: seq<PtabLine>, groups: seq<seq<nat>>, line: PtabLine, g: seq<nat>)
    requires PtabRight(h, ptab, groups) && LineRight(h, line, g) && line.idx == |Flatten(groups)|
    ensures PtabRight(h, ptab + [line], groups + [g])
  {
    hide LineRight, Flatten;
    var all := groups + [g];
    forall i: nat | i < |all|
      ensures (ptab + [line])[i].idx == |Flatten(all[..i])|
    {
      if i < |groups| {
        assert all[..i] == groups[..i];
      } else {
        assert all[..i] == groups;
      }
    }
  }

  lemma NoLines(h: nat)
    ensures PtabRight(h, [], []) && Flatten([]) == []
  {
  }

  /** The line printed for a closed group. */
  method EmitLine(h: nat, ppp: nat, idx: nat, np: nat, ghost g: seq<nat>) returns (line: PtabLine)
    requires 1 <= h && 1 <= ppp == Prod(g) && np == |g|
    ensures LineRight(h, line, g) && line.idx == idx
  {
    hide ConstantsRight, Pow2, BitLength, Prod;
    var pre := ComputeConstants(2 * h, ppp);
    line := PtabLine(ppp, pre, idx, np);
  }

  /** The second pass: a line for every closed group. */
  method GeneratePtab(h: nat, end: nat) returns (ptab: seq<PtabLine>)
    requires 1 <= h
    ensures var groups := Group(2 * h, OddPrimes(3, end)).closed;
            && PtabRight(h, ptab, groups)
            && forall i | 0 <= i < |ptab| :: LinePrepared(h, ptab[i]) <==> FitsLine(2 * h, groups[i])
    ensures forall g | Greedy(2 * h, g, OddPrimes(3, end)) :: PtabRight(h, ptab, g.closed)
  {
    hide *;
    GreedyGroups(2 * h, end);
    WordBaseFacts(h);
    ghost var w := 2 * h;
    ptab := [];
    var ppp := 1;
    var np, start_idx := 0, 0;
    var t := 3;
    ghost var g, start: nat := Grouping([], []), 3;
    GroupedStart(w);
    ProdOne(1);
    NoOddPrimes(3, 2);
    NoLines(h);
    while t <= end
      invariant Grouped(w, t, start, g) && ppp == Prod(g.open)
      invariant 3 <= t && t % 2 == 1 && (t <= end + 2 || t == 3)
      invariant np == |Flatten(g.closed)| + |g.open| && start_idx == |Flatten(g.closed)|
      invariant PtabRight(h, ptab, g.closed)
    {
      var prime := IsPrimeTest(t);
      if prime {
        GroupedProduct(w, t, start, g);
        ProdSnoc(g.open, t);
        GroupedPrime(w, t, start, g);
        var acc, stop := TestProduct(2 * h, ppp, t);
        if stop {
          var line := EmitLine(h, ppp, start_idx, np - start_idx, g.open);
          PtabSnoc(h, ptab, g.closed, line, g.open);
          FlattenSnoc(g.closed, g.open);
          ptab := ptab + [line];
          ppp := t;
          start_idx := np;
          g := Grouping(g.closed + [g.open], [t]);
          start := t;
        } else {
          g := Grouping(g.closed, g.open + [t]);
          ppp := acc;
        }
        ProdOne(t);
        np := np + 1;
      } else {
        GroupedSkip(w, t, start, g);
      }
      t := t + 2;
    }
    GroupedMeans(w, t, start, g);
    LoopCovers(t, end);
    AllLinesUsable(h, ptab, g, OddPrimes(3, end));
  }

  lemma AllLinesUsable(h: nat, ptab: seq<PtabLine>, g: Grouping, qs: seq<nat>)
    requires 1 <= h && PtabRight(h, ptab, g.closed) && GoodGrouping(2 * h, g, qs)
    ensures forall i | 0 <= i < |ptab| :: LinePrepared(h, ptab[i]) <==> FitsLine(2 * h, g.closed[i])
  {
    hide LineRight, Tested, LinePrepared, FitsLine;
    forall i | 0 <= i < |ptab|
      ensures LinePrepared(h, ptab[i]) <==> FitsLine(2 * h, g.closed[i])
    {
      LineUsable(h, ptab[i], g.closed[i]);
    }
  }

  // ---------- when the lines can be used ----------

  /** Five residues of a small prime cannot spill. */
  lemma SinglesFit(w: nat, t: nat)
    requires 3 <= t && 1 <= w && 5 * (t - 1) < Pow2(w)
    ensures FitsWord(w, t) && !Stops(w, t)
  {
    hide Power;
    assert Pow2(w) == 2 * Pow2(w - 1);
    var B := Pow2(w);
    assert Power(B, 1) % t <= t - 1 && Power(B, 2) % t <= t - 1 && Power(B, 3) % t <= t - 1;
    assert Power(B, 4) % t <= t - 1 && Power(B, 5) % t <= t - 1;
  }

  /** If every prime fits a line of its own, so does every group. */
  lemma {:induction false} SinglesSuffice(w: nat, qs: seq<nat>)
    requires OddNumbers(qs) && (qs != [] ==> !Stops(w, qs[0])) && forall i | 0 <= i < |qs| :: FitsWord(w, qs[i])
    ensures AllFit(w, Group(w, qs).closed) && (Group(w, qs).open != [] ==> FitsLine(w, Group(w, qs).open))
  {
    hide Stops, FitsWord, Prod, GoodGrouping, Tested;
    if qs != [] {
      var n := |qs| - 1;
      var us, t := qs[..n], qs[n];
      assert qs == us + [t];
      SinglesSuffice(w, us);
      GroupSnoc(w, us, t);
      var g := Group(w, us);
      if g.open == [] {
        ProdOne(t);
        assert g.open + [t] == [t];
      }
    }
  }

  /** A word that is large for the last prime is enough. */
  lemma LargeWordFits(w: nat, end: nat)
    requires 1 <= w && 5 * (end - 1) < Pow2(w)
    ensures AllFit(w, Group(w, OddPrimes(3, end)).closed)
  {
    hide FitsWord, Stops, Group, AllFit;
    OddPrimesExact(3, end);
    var qs := OddPrimes(3, end);
    forall i | 0 <= i < |qs|
      ensures 3 <= qs[i] && qs[i] % 2 == 1 && FitsWord(w, qs[i]) && !Stops(w, qs[i])
    {
      assert qs[i] in qs;
      SinglesFit(w, qs[i]);
    }
    SinglesSuffice(w, qs);
  }

  /** The residues 30, 109, 106, 16 and 28 of 256 .. 256^5 by 113 add up to 289. */
  lemma SpillOf113()
    ensures Spill(8, 113) == 289 && Stops(8, 113) && !FitsWord(8, 113) && Pow2(8) == 256 && Pow2(7) == 128
  {
    assert Pow2(3) == 8 && Pow2(6) == 64 && Pow2(7) == 128 && Pow2(8) == 256;
    assert Power(256, 1) == 256;
    assert Power(256, 2) == 65536;
    assert Power(256, 3) == 16777216;
    assert Power(256, 4) == 4294967296;
    assert Power(256, 5) == 1099511627776;
  }

  lemma ProductOfAtLeast(ps: seq<nat>, t: nat)
    requires OddNumbers(ps) && ps != [] && 43 <= t
    ensures 128 <= Prod(ps + [t])
  {
    hide Prod;
    ProdOdd(ps);
    ProdSnoc(ps, t);
    MulMonotone(3, Prod(ps), 43, t);
  }

  lemma PrimesAround113()
    ensures IsPrime(113) && IsPrime(127) && forall x | 113 < x < 127 && x % 2 == 1 :: !IsPrime(x)
  {
    assert Divides(5, 115) && Divides(3, 117) && Divides(7, 119) && Divides(11, 121) && Divides(3, 123) && Divides(5, 125);
    NoSmallFactor(113, 12);
    NoSmallFactor(127, 12);
  }

  lemma {:induction false} NoPrimesBetween(lo: nat, mid: nat, hi: nat)
    requires lo <= mid <= hi && forall x | mid < x <= hi && x % 2 == 1 :: !IsPrime(x)
    ensures OddPrimes(lo, hi) == OddPrimes(lo, mid)
  {
    hide IsPrime;
    if mid < hi {
      NoPrimesBetween(lo, mid, hi - 1);
    }
  }

  /** The exception is real: with 8-bit words and last prime 127 the prime 113 gets a line of its own, and that line cannot be used. */
  lemma SmallWordFails()
    ensures Spill(8, 113) == 289 && !AllFit(8, Group(8, OddPrimes(3, 127)).closed)
  {
    hide IsPrime, Group, Prod, OddPrimes, Stops, FitsWord, GoodGrouping, Spill;
    SpillOf113();
    PrimesAround113();
    var us := OddPrimes(3, 112);
    OddPrimesStep(3, 113);
    NoPrimesBetween(3, 114, 126);
    OddPrimesLast(3, 127);
    OddPrimesExact(3, 112);
    assert forall i | 0 <= i < |us| :: us[i] in us;
    GroupsAreGood(8, us);
    GroupSnoc(8, us, 113);
    GroupSnoc(8, us + [113], 127);
    var g := Group(8, us);
    assert Stops(8, Prod(g.open + [113])) by {
      OpenTested(8, g, us);
      StopsWith(g.open, 113);
    }
    assert Stops(8, Prod([113] + [127])) by { StopsWith([113], 127); }
    var closed := Group(8, OddPrimes(3, 127)).closed;
    assert closed == g.closed + [g.open] + [[113]];
    assert closed[|closed| - 1] == [113];
    assert !FitsLine(8, closed[|closed| - 1]);
  }

  lemma FitsBytes()
    ensures FitsTogether(8, 3) && FitsTogether(8, 15) && FitsTogether(8, 105) && FitsTogether(8, 11) && !FitsTogether(8, 1155)
  {
    SpillOf113();
    assert Power(256, 3) == 16777216 && Power(256, 4) == 4294967296 && Power(256, 5) == 1099511627776;
  }

  lemma PrimesUpTo11()
    ensures OddPrimes(3, 11) == [3, 5, 7, 11]
  {
    assert Divides(3, 9);
    NoSmallFactor(3, 2);
    NoSmallFactor(5, 3);
    NoSmallFactor(7, 3);
    NoSmallFactor(11, 4);
    NoOddPrimes(3, 2);
    OddPrimesLast(3, 3);
    OddPrimesLast(3, 5);
    OddPrimesLast(3, 7);
    OddPrimesLast(3, 11);
    NoPrimesBetween(3, 3, 4);
    NoPrimesBetween(3, 5, 6);
    NoPrimesBetween(3, 7, 10);
    hide IsPrime, OddPrimes;
  }

  /** With 8-bit words and last prime 11 there is one line, 3 * 5 * 7, and 11 is omitted. */
  lemma ByteGroups()
    ensures Group(8, OddPrimes(3, 11)) == Grouping([[3, 5, 7]], [11])
  {
    hide IsPrime, OddPrimes, FitsTogether, Stops, Prod;
    PrimesUpTo11();
    FitsBytes();
    StopsOrFits(8, 3);
    StopsOrFits(8, 15);
    StopsOrFits(8, 105);
    StopsOrFits(8, 1155);
    ProdOne(3);
    ProdSnoc([3], 5);
    ProdSnoc([3, 5], 7);
    ProdSnoc([3, 5, 7], 11);
    assert Group(8, []) == Grouping([], []);
    GroupSnoc(8, [], 3);
    GroupSnoc(8, [3], 5);
    GroupSnoc(8, [3, 5], 7);
    GroupSnoc(8, [3, 5, 7], 11);
    assert [] + [3] == [3] && [3] + [5] == [3, 5] && [3, 5] + [7] == [3, 5, 7] && [3, 5, 7] + [11] == [3, 5, 7, 11];
  }

  /** An input: the six limbs 94, 255, 255, 255, 255, 255 are a multiple of 113, and their fold leaves 4. */
  lemma MissedFactor(c: Constants)
    requires c.b1 == 30 && c.b2 == 109 && c.b3 == 106 && c.b4 == 16 && c.b5 == 28
    ensures AllWords(256, SixLimbs(256, 94))
    ensures Value(256, SixLimbs(256, 94), 0) % 113 == 0 && Folded(256, SixLimbs(256, 94), c, 0) % 113 == 4
  {
    hide Folded, Value, SixLimbs, AllWords;
    SixWords(256, 94);
    SixFolded(256, c, 94);
    assert ResidueSum(c) == 289;
    assert 94 + 255 * 289 == 65536 + 8253;
    SixValue();
  }

  lemma SixValue()
    ensures Value(256, SixLimbs(256, 94), 0) % 113 == 0
  {
    var ap := SixLimbs(256, 94);
    assert Value(256, ap, 6) == 0;
    assert Value(256, ap, 5) == 255;
    assert Value(256, ap, 4) == 65535;
    assert Value(256, ap, 3) == 16777215;
    assert Value(256, ap, 2) == 4294967295;
    assert Value(256, ap, 1) == 1099511627775;
    assert Value(256, ap, 0) == 281474976710494;
  }

  lemma OpenTested(w: nat, g: Grouping, qs: seq<nat>)
    requires GoodGrouping(w, g, qs)
    ensures OddNumbers(g.open)
  {
    hide Stops, Prod;
  }

  lemma StopsWith(ps: seq<nat>, t: nat)
    requires OddNumbers(ps) && 43 <= t && (ps == [] ==> t == 113)
    ensures Stops(8, Prod(ps + [t]))
  {
    hide Prod, Spill, Power;
    SpillOf113();
    if ps == [] {
      ProdOne(t);
      assert ps + [t] == [t];
    } else {
      ProductOfAtLeast(ps, t);
    }
  }

  // ---------- mpn_trialdiv ----------

  lemma {:induction false} FlattenPrefix(groups: seq<seq<nat>>, i: nat)
    requires i <= |groups|
    ensures Flatten(groups[..i]) <= Flatten(groups)
  {
    if i == |groups| {
      assert groups[..i] == groups;
    } else {
      var n := |groups| - 1;
      FlattenPrefix(groups[..n], i);
      assert groups[..n][..i] == groups[..i];
    }
  }

  /** Group i sits in the flattened list between the starts of lines i and i + 1. */
  lemma GroupInList(groups: seq<seq<nat>>, i: nat)
    requires i < |groups|
    ensures var lo := |Flatten(groups[..i])|; var hi := lo + |groups[i]|;
            && |Flatten(groups[..i + 1])| == hi <= |Flatten(groups)|
            && Flatten(groups)[lo..hi] == groups[i]
  {
    hide Flatten;
    FlattenPrefix(groups, i + 1);
    FlattenSnoc(groups[..i], groups[i]);
    assert groups[..i + 1] == groups[..i] + [groups[i]];
    var lo, all := |Flatten(groups[..i])|, Flatten(groups);
    assert all[..lo + |groups[i]|] == Flatten(groups[..i]) + groups[i];
    assert all[lo..lo + |groups[i]|] == all[..lo + |groups[i]|][lo..];
  }

  /** The product test on the remainder decides divisibility of the whole number. */
  lemma EntryDecides(h: nat, e: DtabEntry, p: nat, m: nat, N: nat, r: nat)
    requires 1 <= h && EntryRight(h, e, p) && m != 0 && Divides(p, m) && r == N % m && m < WordBase(h)
    ensures (r * e.binv) % WordBase(h) <= e.lim <==> Divides(p, N)
  {
    hide Divides, Inverts, WordBase;
    WordBaseFacts(h);
    var t := InverseWitness(e.binv, p, 2 * h);
    DivisibilityTest(WordBase(h), p, e.binv, t, r);
    RemainderDivides(p, m, N, r);
  }

  lemma InverseWitness(x: nat, n: nat, k: nat) returns (t: int)
    requires Inverts(x, n, k)
    ensures x * n == 1 + Pow2(k) * t
  {
    t :| InvertsBy(x, n, k, t);
  }

  lemma RemainderDivides(p: nat, m: nat, N: nat, r: nat)
    requires m != 0 && Divides(p, m) && r == N % m
    ensures Divides(p, r) <==> Divides(p, N)
  {
    var q, k := N / m, m / p;
    assert N == m * q + r && m == p * k;
    assert m * q == p * (k * q);
    ModOfSum(p, k * q, r);
  }

  lemma InverseNonzero(x: nat, n: nat, k: nat)
    requires Inverts(x, n, k) && 1 <= k
    ensures x != 0
  {
    InvertsMeans(x, n, k);
    assert 0 * n == 0;
  }

  /** What a call that starts at list position from reports about N. */
  ghost predicate TrialResult(dtab: seq<DtabEntry>, ps: seq<nat>, N: nat, from: nat, nprimes: int, found: nat) {
    && |dtab| == |ps|
    && (found == 0 ==> forall k: nat | from <= k < |ps| && k - from < nprimes :: !Divides(ps[k], N))
    && (found != 0 ==> exists k: nat :: FirstDivisor(dtab, ps, N, from, k, found))
  }

  ghost predicate FirstDivisor(dtab: seq<DtabEntry>, ps: seq<nat>, N: nat, from: nat, k: nat, binv: nat) {
    && from <= k < |ps| == |dtab| && dtab[k].binv == binv && Divides(ps[k], N)
    && forall j: nat | from <= j < k :: !Divides(ps[j], N)
  }

  /** The first divisor from position `from` on lies between lo and hi. */
  ghost predicate FoundBetween(dtab: seq<DtabEntry>, ps: seq<nat>, N: nat, from: nat, lo: nat, hi: nat, binv: nat) {
    exists k: nat :: lo <= k < hi && FirstDivisor(dtab, ps, N, from, k, binv)
  }

  ghost predicate NoneDivides(ps: seq<nat>, N: nat, from: nat, to: nat) {
    forall k: nat | from <= k < to && k < |ps| :: !Divides(ps[k], N)
  }

  /** What the loop over the primes of one line needs to know about each of them. */
  lemma PrimeOfLine(h: nat, dtab: seq<DtabEntry>, ptab: seq<PtabLine>, groups: seq<seq<nat>>, omitted: nat, i: nat, j: nat)
    requires 1 <= h && TablesRight(h, dtab, ptab, groups, omitted) && i < |ptab| && ptab[i].idx <= j < ptab[i].idx + ptab[i].np
    ensures j < |dtab| == |Flatten(groups)| && EntryRight(h, dtab[j], Flatten(groups)[j])
    ensures Divides(Flatten(groups)[j], ptab[i].ppp) && dtab[j].binv != 0
  {
    hide Divides, Flatten, ConstantsRight, Prod, OddPrimes, Stops, Inverts, WordBase, AllFit;
    var ps, lo, g := Flatten(groups), ptab[i].idx, groups[i];
    GroupInList(groups, i);
    assert ps[j] == ps[lo..lo + |g|][j - lo] == g[j - lo];
    assert Tested(2 * h, g) && LineRight(h, ptab[i], g);
    FactorOfProd(g, j - lo);
    assert EntryRight(h, dtab[j], ps[j]);
    InverseNonzero(dtab[j].binv, ps[j], 2 * h);
  }

  lemma LineFacts(h: nat, dtab: seq<DtabEntry>, ptab: seq<PtabLine>, groups: seq<seq<nat>>, omitted: nat, i: nat)
    requires 1 <= h && TablesRight(h, dtab, ptab, groups, omitted) && i < |ptab|
    ensures var line := ptab[i];
            && 1 <= line.ppp < WordBase(h) && 0 <= line.cps.cnt && Shl(2 * h, line.ppp, line.cps.cnt) == line.ppp * Pow2(line.cps.cnt)
            && Prepared(h, line.ppp, line.ppp * Pow2(line.cps.cnt), line.cps) && ResidueSum(line.cps) <= WordBase(h)
            && i < |groups| && line.idx == |Flatten(groups[..i])| && line.idx + line.np == |Flatten(groups[..i + 1])| <= |dtab|
  {
    hide Prepared, Prod, OddPrimes, Stops, WordBase, Flatten, Pow2, ConstantsRight, BitLength;
    assert LineRight(h, ptab[i], groups[i]) && Tested(2 * h, groups[i]) && FitsLine(2 * h, groups[i]);
    LineUsable(h, ptab[i], groups[i]);
    GroupInList(groups, i);
    var line := ptab[i];
    PreparedFacts(h, line.ppp, line.ppp * Pow2(line.cps.cnt), line.cps);
    WordBaseFacts(h);
    NormalisedBelow(WordBase(h), line.ppp * Pow2(line.cps.cnt));
    SmallMod(line.ppp * Pow2(line.cps.cnt), WordBase(h));
  }

  lemma NormalisedBelow(B: nat, d: nat)
    requires Normalised(B, d)
    ensures d < B
  {
  }

  /** The loop over the primes of one line: whether one divides N, and the first that does. */
  method TryLine(h: nat, dtab: seq<DtabEntry>, ptab: seq<PtabLine>, ghost groups: seq<seq<nat>>, ghost omitted: nat, i: nat,
                 r: nat, ghost N: nat, ghost from: nat)
    returns (found: nat)
    requires 1 <= h && TablesRight(h, dtab, ptab, groups, omitted) && i < |ptab|
    requires ptab[i].ppp != 0 && r == N % ptab[i].ppp
    requires from <= ptab[i].idx && NoneDivides(Flatten(groups), N, from, ptab[i].idx)
    ensures found == 0 ==> NoneDivides(Flatten(groups), N, from, ptab[i].idx + ptab[i].np)
    ensures found != 0 ==> FoundBetween(dtab, Flatten(groups), N, from, ptab[i].idx, ptab[i].idx + ptab[i].np, found)
  {
    hide *;
    ghost var ps := Flatten(groups);
    LineFacts(h, dtab, ptab, groups, omitted, i);
    var B := WordBase(h);
    var line := ptab[i];
    for j := line.idx to line.idx + line.np
      invariant NoneDivides(ps, N, from, j)
    {
      PrimeOfLine(h, dtab, ptab, groups, omitted, i, j);
      EntryDecides(h, dtab[j], ps[j], line.ppp, N, r);
      var q := (r * dtab[j].binv) % B;
      if q <= dtab[j].lim {
        FoundHere(dtab, ps, N, from, line.idx, line.idx + line.np, j);
        return dtab[j].binv;
      }
      NoneMore(ps, N, from, j);
    }
    return 0;
  }

  lemma FoundHere(dtab: seq<DtabEntry>, ps: seq<nat>, N: nat, from: nat, lo: nat, hi: nat, j: nat)
    requires from <= lo <= j < hi && j < |ps| == |dtab| && NoneDivides(ps, N, from, j) && Divides(ps[j], N)
    ensures FoundBetween(dtab, ps, N, from, lo, hi, dtab[j].binv)
  {
    assert FirstDivisor(dtab, ps, N, from, j, dtab[j].binv);
  }

  lemma NoneMore(ps: seq<nat>, N: nat, from: nat, j: nat)
    requires from <= j < |ps| && NoneDivides(ps, N, from, j) && !Divides(ps[j], N)
    ensures NoneDivides(ps, N, from, j + 1)
  {
  }

  lemma NoneYet(ps: seq<nat>, N: nat, from: nat)
    ensures NoneDivides(ps, N, from, from)
  {
  }

  lemma Position(groups: seq<seq<nat>>, i: nat)
    requires i <= |groups|
    ensures |Flatten(groups[..i])| <= |Flatten(groups)|
    ensures i == |groups| ==> |Flatten(groups[..i])| == |Flatten(groups)|
    ensures i == 0 ==> |Flatten(groups[..i])| == 0
  {
    hide Flatten;
    FlattenPrefix(groups, i);
    assert groups[..|groups|] == groups;
    assert groups[..0] == [];
    assert Flatten([]) == [] by { NoLines(1); }
  }

  /** mpn_trialdiv: tries the lines of the table from `where` on until nprimes primes have been tried. */
  method TrialDiv(h: nat, tp: seq<nat>, nprimes: int, dtab: seq<DtabEntry>, ptab: seq<PtabLine>, where: nat, inclusive: bool,
                  ghost groups: seq<seq<nat>>, ghost omitted: nat)
    returns (found: nat, where': nat)
    requires 1 <= h && 1 <= |tp| && AllWords(WordBase(h), tp)
    requires TablesRight(h, dtab, ptab, groups, omitted) && where <= |ptab| == |groups|
    ensures TrialResult(dtab, Flatten(groups), Value(WordBase(h), tp, 0), |Flatten(groups[..where])|, nprimes, found)
    ensures found == 0 <==> forall i | Tried(groups, where, nprimes, i) :: NoneInLine(groups, i, Value(WordBase(h), tp, 0))
    ensures found == 0 ==> where' == where
    ensures found != 0 ==> where' < |groups| && Tried(groups, where, nprimes, where')
    ensures found != 0 ==> FoundBetween(dtab, Flatten(groups), Value(WordBase(h), tp, 0), |Flatten(groups[..where])|,
                                        |Flatten(groups[..where'])|, |Flatten(groups[..where' + 1])|, found)
  {
    hide *;
    ghost var ps, N, from := Flatten(groups), Value(WordBase(h), tp, 0), |Flatten(groups[..where])|;
    TablesAgree(h, dtab, ptab, groups, omitted);
    Position(groups, where);
    NoneYet(ps, N, from);
    var left := nprimes;
    var i: nat := where;
    while i < |ptab|
      invariant where <= i <= |ptab|
      invariant from <= |Flatten(groups[..i])| && NoneDivides(ps, N, from, |Flatten(groups[..i])|)
      invariant left == nprimes - (|Flatten(groups[..i])| - from) && (i == where || 0 < left)
      invariant forall j | where <= j < i :: NoneInLine(groups, j, N)
    {
      TriedNext(groups, where, nprimes, i);
      LineFacts(h, dtab, ptab, groups, omitted, i);
      var line := ptab[i];
      var b := Shl(2 * h, line.ppp, line.cps.cnt);
      var r := Mod1s4p(h, tp, line.ppp, b, line.cps, inclusive);
      found := TryLine(h, dtab, ptab, groups, omitted, i, r, N, from);
      if found != 0 {
        ResultFound(dtab, ps, N, from, nprimes, line.idx, line.idx + line.np, found);
        LineFound(groups, dtab, N, from, i, found);
        return found, i;
      }
      LineNone(groups, N, from, i);
      left := left - line.np;
      if left <= 0 {
        CountEnds(groups, where, nprimes, i);
        ResultNone(dtab, ps, N, from, nprimes, line.idx + line.np);
        return 0, where;
      }
      i := i + 1;
    }
    Position(groups, i);
    AllTried(groups, where, nprimes);
    ResultNone(dtab, ps, N, from, nprimes, |Flatten(groups[..i])|);
    return 0, where;
  }

  /** The lines that a call looks at: the first, and every one before which fewer than nprimes primes have been tried. */
  ghost predicate Tried(groups: seq<seq<nat>>, where: nat, nprimes: int, i: nat) {
    where <= i < |groups| && (i == where || |Flatten(groups[..i])| - |Flatten(groups[..where])| < nprimes)
  }

  ghost predicate NoneInLine(groups: seq<seq<nat>>, i: nat, N: nat) {
    i < |groups| ==> forall k | 0 <= k < |groups[i]| :: !Divides(groups[i][k], N)
  }

  lemma TriedNext(groups: seq<seq<nat>>, where: nat, nprimes: int, i: nat)
    requires where <= i < |groups|
    ensures i == where || |Flatten(groups[..i])| - |Flatten(groups[..where])| < nprimes ==> Tried(groups, where, nprimes, i)
  {
  }

  lemma AllTried(groups: seq<seq<nat>>, where: nat, nprimes: int)
    ensures forall i: nat | Tried(groups, where, nprimes, i) :: where <= i < |groups|
  {
  }

  /** When nprimes primes have been tried after line i, no later line is looked at. */
  lemma CountEnds(groups: seq<seq<nat>>, where: nat, nprimes: int, i: nat)
    requires where <= i < |groups| && nprimes <= |Flatten(groups[..i + 1])| - |Flatten(groups[..where])|
    ensures forall j: nat | Tried(groups, where, nprimes, j) :: where <= j <= i
  {
    hide Flatten;
    forall j: nat | i < j < |groups|
      ensures !Tried(groups, where, nprimes, j)
    {
      FlattenMonotone(groups, i + 1, j);
    }
  }

  lemma FlattenMonotone(groups: seq<seq<nat>>, a: nat, b: nat)
    requires a <= b <= |groups|
    ensures |Flatten(groups[..a])| <= |Flatten(groups[..b])|
  {
    hide Flatten;
    FlattenPrefix(groups[..b], a);
    assert groups[..b][..a] == groups[..a];
  }

  lemma LineNone(groups: seq<seq<nat>>, N: nat, from: nat, i: nat)
    requires i < |groups| && from <= |Flatten(groups[..i])|
    requires NoneDivides(Flatten(groups), N, from, |Flatten(groups[..i + 1])|)
    ensures NoneInLine(groups, i, N)
  {
    hide Flatten, Divides;
    GroupInList(groups, i);
    var lo := |Flatten(groups[..i])|;
    forall k | 0 <= k < |groups[i]|
      ensures !Divides(groups[i][k], N)
    {
      assert Flatten(groups)[lo..lo + |groups[i]|][k] == Flatten(groups)[lo + k];
    }
  }

  lemma LineFound(groups: seq<seq<nat>>, dtab: seq<DtabEntry>, N: nat, from: nat, i: nat, found: nat)
    requires i < |groups|
    requires FoundBetween(dtab, Flatten(groups), N, from, |Flatten(groups[..i])|, |Flatten(groups[..i + 1])|, found)
    ensures !NoneInLine(groups, i, N)
  {
    hide Flatten, Divides;
    GroupInList(groups, i);
    var lo := |Flatten(groups[..i])|;
    var p: nat :| lo <= p < lo + |groups[i]| && FirstDivisor(dtab, Flatten(groups), N, from, p, found);
    assert Flatten(groups)[lo..lo + |groups[i]|][p - lo] == Flatten(groups)[p];
  }

  lemma TablesAgree(h: nat, dtab: seq<DtabEntry>, ptab: seq<PtabLine>, groups: seq<seq<nat>>, omitted: nat)
    requires TablesRight(h, dtab, ptab, groups, omitted)
    ensures |dtab| == |Flatten(groups)| && |ptab| == |groups|
  {
  }

  lemma ResultFound(dtab: seq<DtabEntry>, ps: seq<nat>, N: nat, from: nat, nprimes: int, lo: nat, hi: nat, found: nat)
    requires FoundBetween(dtab, ps, N, from, lo, hi, found) && found != 0
    ensures TrialResult(dtab, ps, N, from, nprimes, found)
  {
  }

  lemma ResultNone(dtab: seq<DtabEntry>, ps: seq<nat>, N: nat, from: nat, nprimes: int, to: nat)
    requires |dtab| == |ps| && NoneDivides(ps, N, from, to) && (nprimes <= to - from || |ps| <= to)
    ensures TrialResult(dtab, ps, N, from, nprimes, 0)
  {
  }

  /** Whether every line can be used, as the printed fields show. */
  method CheckTable(h: nat, ptab: seq<PtabLine>, ghost groups: seq<seq<nat>>) returns (usable: bool)
    requires 1 <= h && PtabRight(h, ptab, groups) && forall i | 0 <= i < |groups| :: Tested(2 * h, groups[i])
    ensures usable <==> AllFit(2 * h, groups)
  {
    hide LineRight, Tested, FitsLine, Flatten, WordBase, ResidueSum;
    for i := 0 to |ptab|
      invariant forall k | 0 <= k < i :: FitsLine(2 * h, groups[k])
    {
      LineChecked(h, ptab[i], groups[i]);
      if ptab[i].np == 0 || ptab[i].cps.cnt < 1 || WordBase(h) < ResidueSum(ptab[i].cps) {
        return false;
      }
    }
    return true;
  }

  lemma LineChecked(h: nat, line: PtabLine, g: seq<nat>)
    requires 1 <= h && LineRight(h, line, g) && Tested(2 * h, g)
    ensures FitsLine(2 * h, g) <==> line.np != 0 && 1 <= line.cps.cnt && ResidueSum(line.cps) <= WordBase(h)
  {
    hide ConstantsRight, Pow2, BitLength, Stops, Prod, Prepared, Spill, WordBase, ResidueSum;
    LineUsable(h, line, g);
    if !FitsLine(2 * h, g) && g != [] {
      ProdOne(g[0]);
      assert g == [g[0]];
      StoppedUnusable(h, line.ppp, line.cps);
    }
  }

  /**
   The generator and the reader together, for any word size and any last prime.  The tables
   can be used if and only if no closed group is empty or a single prime that fails the test.
   Then a call that may try every prime finds an odd prime factor below
   SMALLEST_OMITTED_PRIME exactly when there is one, and returns the inverse of the least.
   */
  method TrialDivideGenerated(h: nat, end: nat, tp: seq<nat>, inclusive: bool) returns (usable: bool, found: nat, omitted: nat)
    requires 1 <= h && 1 <= |tp| && AllWords(WordBase(h), tp)
    ensures 3 <= omitted && (usable <==> AllFit(2 * h, Group(2 * h, OddPrimes(3, end)).closed))
    ensures forall g | Greedy(2 * h, g, OddPrimes(3, end)) :: Flatten(g.closed) == OddPrimes(3, omitted - 1)
    ensures var N := Value(WordBase(h), tp, 0);
            usable ==> (found == 0 <==> forall p: nat | 3 <= p < omitted && IsPrime(p) :: !Divides(p, N))
    ensures var N := Value(WordBase(h), tp, 0);
            usable && found != 0 ==> LeastFactorFound(h, N, omitted, found)
  {
    hide *;
    ghost var groups := Group(2 * h, OddPrimes(3, end)).closed;
    var dtab;
    dtab, omitted := GenerateDtab(h, end);
    var ptab := GeneratePtab(h, end);
    GeneratedGroups(h, end);
    usable := CheckTable(h, ptab, groups);
    if !usable {
      return false, 0, omitted;
    }
    GeneratedTables(h, dtab, ptab, groups, omitted);
    TablesAgree(h, dtab, ptab, groups, omitted);
    Position(groups, 0);
    var where';
    found, where' := TrialDiv(h, tp, |dtab|, dtab, ptab, 0, inclusive, groups, omitted);
    WholeTable(h, dtab, Flatten(groups), omitted, Value(WordBase(h), tp, 0), found);
  }

  /** binv is the inverse of the least odd prime factor of N, which is below omitted. */
  ghost predicate LeastFactorFound(h: nat, N: nat, omitted: nat, binv: nat) {
    exists p: nat :: 3 <= p < omitted && IsPrime(p) && Divides(p, N) && Inverts(binv, p, 2 * h)
                     && forall q: nat | 3 <= q < p && IsPrime(q) :: !Divides(q, N)
  }

  lemma GeneratedGroups(h: nat, end: nat)
    ensures var groups := Group(2 * h, OddPrimes(3, end)).closed;
            forall i | 0 <= i < |groups| :: Tested(2 * h, groups[i])
  {
    hide OddPrimes, Tested, Group;
    OddPrimesExact(3, end);
    var qs := OddPrimes(3, end);
    assert forall i | 0 <= i < |qs| :: qs[i] in qs;
    GroupsAreGood(2 * h, qs);
  }

  lemma GeneratedTables(h: nat, dtab: seq<DtabEntry>, ptab: seq<PtabLine>, groups: seq<seq<nat>>, omitted: nat)
    requires 1 <= h && 3 <= omitted && AllFit(2 * h, groups) && forall i | 0 <= i < |groups| :: Tested(2 * h, groups[i])
    requires DtabRight(h, dtab, OddPrimes(3, omitted - 1)) && PtabRight(h, ptab, groups) && Flatten(groups) == OddPrimes(3, omitted - 1)
    ensures TablesRight(h, dtab, ptab, groups, omitted)
  {
    hide DtabRight, PtabRight, Flatten, OddPrimes, AllFit, Tested;
  }

  lemma WholeTable(h: nat, dtab: seq<DtabEntry>, ps: seq<nat>, omitted: nat, N: nat, found: nat)
    requires 3 <= omitted && ps == OddPrimes(3, omitted - 1) && DtabRight(h, dtab, ps) && TrialResult(dtab, ps, N, 0, |dtab|, found)
    ensures found == 0 <==> forall p: nat | 3 <= p < omitted && IsPrime(p) :: !Divides(p, N)
    ensures found != 0 ==> LeastFactorFound(h, N, omitted, found)
  {
    hide IsPrime, Divides, OddPrimes, Inverts;
    OddPrimesExact(3, omitted - 1);
    PrimesAreOdd();
    if found == 0 {
      forall p: nat | 3 <= p < omitted && IsPrime(p)
        ensures !Divides(p, N)
      {
        assert p in ps;
        var k: nat :| k < |ps| && ps[k] == p;
      }
    } else {
      var k: nat :| FirstDivisor(dtab, ps, N, 0, k, found);
      assert EntryRight(h, dtab[k], ps[k]) && ps[k] in ps;
      forall q: nat | 3 <= q < ps[k] && IsPrime(q)
        ensures !Divides(q, N)
      {
        assert q in ps;
        var j: nat :| j < |ps| && ps[j] == q;
        OddPrimesSorted(3, omitted - 1, j, k);
      }
    }
  }

  lemma PrimesAreOdd()
    ensures forall p: nat | 3 <= p && IsPrime(p) :: p % 2 == 1
  {
    forall p: nat | 3 <= p && IsPrime(p)
      ensures p % 2 == 1
    {
      assert !Divides(2, p);
    }
  }

  lemma {:induction false} OddPrimesSorted(lo: nat, hi: nat, j: nat, k: nat)
    requires j < |OddPrimes(lo, hi)| && k < |OddPrimes(lo, hi)|
    ensures j < k ==> OddPrimes(lo, hi)[j] < OddPrimes(lo, hi)[k]
    ensures k <= j ==> OddPrimes(lo, hi)[k] <= OddPrimes(lo, hi)[j]
    ensures OddPrimes(lo, hi)[j] <= hi && OddPrimes(lo, hi)[k] <= hi
  {
    hide IsPrime;
    var n := |OddPrimes(lo, hi - 1)|;
    if j < n && k < n {
      OddPrimesSorted(lo, hi - 1, j, k);
    } else if j < n {
      OddPrimesSorted(lo, hi - 1, j, j);
    } else if k < n {
      OddPrimesSorted(lo, hi - 1, k, k);
    }
  }
}

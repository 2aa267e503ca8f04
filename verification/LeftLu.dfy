/**
 data/LeftLU_CSC/leftLU_static.cpp: left-looking sparse LU factorisation in compressed
 columns, with a dense work vector and zero entries dropped from L and U.
 */
module LeftLu {
  import opened SparseVectors

  /** An n by n matrix in compressed columns, without repeated rows in a column. */
  ghost predicate Square(A: Compressed) {
    && WellFormed(A) && A.minor == A.major
    && forall j | 0 <= j < A.major :: DistinctIndices(A.idx, A.ptr[j], A.ptr[j + 1])
  }

  // ---------- the factorisation as a function of the input ----------

  /** The work vector f of column j after the updates by columns 0..i-1 of L. */
  ghost function Work(A: Compressed, j: nat, i: nat): (f: seq<real>)
    requires Square(A) && i <= j < A.major
    ensures |f| == A.major
    decreases j, i, 1
  {
    if i == 0 then
      seq(A.major, (k: nat) => At(A, j, k))
    else
      var f := Work(A, j, i - 1);
      var l := LowerColumn(A, i - 1);
      seq(A.major, k requires 0 <= k < A.major => if i - 1 < k then f[k] - f[i - 1] * l[k] else f[k])
  }

  /** Column i of the unit lower triangular factor. */
  ghost function LowerColumn(A: Compressed, i: nat): (l: seq<real>)
    requires Square(A) && i < A.major
    ensures |l| == A.major
    decreases i, i, 2
  {
    var f := Work(A, i, i);
    seq(A.major, k requires 0 <= k < A.major => if i <= k then Quotient(f[k], f[i]) else 0.0)
  }

  /** The finished work vector of column j: U above the diagonal, the pivot, and L scaled by it. */
  ghost function Column(A: Compressed, j: nat): (f: seq<real>)
    requires Square(A) && j < A.major
    ensures |f| == A.major
  {
    Work(A, j, j)
  }

  ghost function Pivot(A: Compressed, j: nat): real
    requires Square(A) && j < A.major
  {
    Column(A, j)[j]
  }

  ghost predicate NonzeroPivots(A: Compressed, j: nat)
    requires Square(A) && j < A.major
  {
    forall i: nat | i <= j :: Pivot(A, i) != 0.0
  }

  // ---------- A = L * (U + diag(d)) ----------

  ghost function L(A: Compressed, k: nat, i: nat): real
    requires Square(A) && k < A.major
  {
    if i < A.major then LowerColumn(A, i)[k] else 0.0
  }

  /** U + diag(d) */
  ghost function UpperWithPivots(A: Compressed, i: nat, j: nat): real
    requires Square(A) && j < A.major
  {
    if i <= j then Column(A, j)[i] else 0.0
  }

  /** (L * (U + diag(d)))[k][j] */
  ghost function Product(A: Compressed, k: nat, j: nat): real
    requires Square(A) && k < A.major && j < A.major
  {
    Sum(A.major, (i: nat) => L(A, k, i) * UpperWithPivots(A, i, j))
  }

  /** Later updates leave the entries at and above the current column alone. */
  lemma {:induction false} WorkSettled(A: Compressed, j: nat, i: nat, k: nat)
    requires Square(A) && i <= j < A.major && k <= i && k < A.major
    ensures Work(A, j, i)[k] == Work(A, j, k)[k]
    decreases i
  {
    if k < i {
      WorkSettled(A, j, i - 1, k);
    }
  }

  /** The sum of L[k][c] * (U + diag(d))[c][j] over the columns c below m. */
  ghost function PartialProduct(A: Compressed, k: nat, j: nat, m: nat): real
    requires Square(A) && k < A.major && j < A.major
  {
    Sum(m, (c: nat) => L(A, k, c) * UpperWithPivots(A, c, j))
  }

  lemma PartialProductStep(A: Compressed, k: nat, j: nat, m: nat)
    requires Square(A) && k < A.major && j < A.major
    ensures PartialProduct(A, k, j, 0) == 0.0
    ensures PartialProduct(A, k, j, m + 1) == PartialProduct(A, k, j, m) + L(A, k, m) * UpperWithPivots(A, m, j)
  {
    hide L, UpperWithPivots;
  }

  lemma WorkStep(A: Compressed, j: nat, i: nat, k: nat)
    requires Square(A) && 1 <= i <= j < A.major && k < A.major
    ensures Work(A, j, i)[k] == Work(A, j, i - 1)[k] -
              if i - 1 < k then L(A, k, i - 1) * Work(A, j, i - 1)[i - 1] else 0.0
  {
    hide At;
  }

  /** The work vector is what the first i columns have left of A's column. */
  lemma {:induction false} WorkIsRemainder(A: Compressed, j: nat, i: nat, k: nat)
    requires Square(A) && i <= j < A.major && k < A.major
    ensures Work(A, j, i)[k] == At(A, j, k) - PartialProduct(A, k, j, if i <= k then i else k)
    decreases i
  {
    hide At, L, PartialProduct, Work, UpperWithPivots;
    if i == 0 {
      WorkStart(A, j, k);
      PartialProductStep(A, k, j, 0);
    } else {
      WorkIsRemainder(A, j, i - 1, k);
      WorkStep(A, j, i, k);
      SettledIsUpper(A, j, i - 1);
      PartialProductStep(A, k, j, i - 1);
      if i - 1 < k {
        assert PartialProduct(A, k, j, i) == PartialProduct(A, k, j, i - 1) + L(A, k, i - 1) * Work(A, j, i - 1)[i - 1];
      }
    }
  }

  lemma WorkStart(A: Compressed, j: nat, k: nat)
    requires Square(A) && j < A.major && k < A.major
    ensures Work(A, j, 0)[k] == At(A, j, k)
  {
    hide At;
  }

  lemma SettledIsUpper(A: Compressed, j: nat, i: nat)
    requires Square(A) && i <= j < A.major
    ensures Work(A, j, i)[i] == UpperWithPivots(A, i, j)
  {
    hide Work;
    WorkSettled(A, j, j, i);
  }

  lemma {:induction false} SumOfTail(n: nat, m: nat, f: nat -> real)
    requires m <= n && forall k: nat | m <= k < n :: f(k) == 0.0
    ensures Sum(n, f) == Sum(m, f)
  {
    if m < n {
      SumOfTail(n - 1, m, f);
    }
  }

  /** Every column whose pivots up to its own are nonzero satisfies the matrix equation. */
  lemma FactorisationEquation(A: Compressed, k: nat, j: nat)
    requires Square(A) && k < A.major && j < A.major && NonzeroPivots(A, j)
    ensures Product(A, k, j) == At(A, j, k)
  {
    hide At, Work, Sum;
    var f := (i: nat) => L(A, k, i) * UpperWithPivots(A, i, j);
    var m := if k < j then k else j;
    WorkIsRemainder(A, j, j, k);
    forall i: nat | m + 1 <= i < A.major
      ensures f(i) == 0.0
    {
    }
    SumOfTail(A.major, m + 1, f);
    PartialProductStep(A, k, j, m);
    assert Pivot(A, m) != 0.0;
    QuotientTimes(Column(A, m)[k], Pivot(A, m));
    WorkSettled(A, j, j, m);
  }

  // ---------- what the compressed columns hold ----------

  /** Positions lo..hi list, in order, exactly the indices from..to with f nonzero, with their values. */
  ghost predicate Packed(f: seq<real>, vals: seq<real>, from: nat, to: nat, idx: seq<nat>, val: seq<real>, lo: nat, hi: nat) {
    && from <= to <= |f| == |vals| && InRange(idx, val, lo, hi)
    && StrictlySorted(idx, lo, hi)
    && (forall p | lo <= p < hi :: from <= idx[p] < to && f[idx[p]] != 0.0 && val[p] == vals[idx[p]])
    && (forall k | from <= k < to && f[k] != 0.0 :: k in idx[lo..hi])
  }

  ghost function NonzeroCount(f: seq<real>, from: nat, to: nat): nat
    requires from <= to <= |f|
  {
    if from == to then 0 else NonzeroCount(f, from, to - 1) + if f[to - 1] != 0.0 then 1 else 0
  }

  lemma NonzeroCountNone(f: seq<real>, from: nat)
    requires from <= |f|
    ensures NonzeroCount(f, from, from) == 0
  {
  }

  lemma NonzeroCountNext(f: seq<real>, from: nat, to: nat)
    requires from <= to < |f|
    ensures NonzeroCount(f, from, to + 1) == NonzeroCount(f, from, to) + if f[to] != 0.0 then 1 else 0
  {
  }

  lemma {:induction false} NonzeroCountGrows(f: seq<real>, from: nat, to: nat, to': nat)
    requires from <= to <= to' <= |f|
    ensures NonzeroCount(f, from, to) <= NonzeroCount(f, from, to')
  {
    if to < to' {
      NonzeroCountGrows(f, from, to, to' - 1);
    }
  }

  lemma PackedSkip(f: seq<real>, vals: seq<real>, from: nat, to: nat, idx: seq<nat>, val: seq<real>, lo: nat, hi: nat)
    requires Packed(f, vals, from, to, idx, val, lo, hi) && to < |f| && f[to] == 0.0
    ensures Packed(f, vals, from, to + 1, idx, val, lo, hi)
  {
  }

  lemma PackedAppend(f: seq<real>, vals: seq<real>, from: nat, to: nat, idx: seq<nat>, val: seq<real>,
                     idx': seq<nat>, val': seq<real>, lo: nat, hi: nat)
    requires Packed(f, vals, from, to, idx, val, lo, hi) && to < |f| && f[to] != 0.0
    requires hi < |idx| && hi < |val| && idx' == idx[hi := to] && val' == val[hi := vals[to]]
    ensures Packed(f, vals, from, to + 1, idx', val', lo, hi + 1)
  {
    forall k | from <= k < to + 1 && f[k] != 0.0
      ensures k in idx'[lo..hi + 1]
    {
      if k == to {
        assert idx'[lo..hi + 1][hi - lo] == to;
      } else {
        var p :| 0 <= p < hi - lo && idx[lo..hi][p] == k;
        assert idx'[lo..hi + 1][p] == k;
      }
    }
  }

  lemma PackedFrame(f: seq<real>, vals: seq<real>, from: nat, to: nat, idx: seq<nat>, val: seq<real>,
                    idx': seq<nat>, val': seq<real>, lo: nat, hi: nat)
    requires Packed(f, vals, from, to, idx, val, lo, hi) && InRange(idx', val', lo, hi)
    requires forall p | lo <= p < hi :: idx'[p] == idx[p] && val'[p] == val[p]
    ensures Packed(f, vals, from, to, idx', val', lo, hi)
  {
    assert idx'[lo..hi] == idx[lo..hi];
  }

  /** Dropping zeros does not matter: the dense entries are the values themselves. */
  lemma PackedEntry(f: seq<real>, vals: seq<real>, from: nat, to: nat, idx: seq<nat>, val: seq<real>, lo: nat, hi: nat, k: nat)
    requires Packed(f, vals, from, to, idx, val, lo, hi)
    requires from <= k < to && f[k] == 0.0 ==> vals[k] == 0.0
    ensures Entry(idx, val, lo, hi, k) == if from <= k < to then vals[k] else 0.0
  {
    if from <= k < to && f[k] != 0.0 {
      var p :| 0 <= p < hi - lo && idx[lo..hi][p] == k;
      EntryPresent(idx, val, lo, hi, lo + p);
    } else {
      EntryAbsent(idx, val, lo, hi, k);
    }
  }

  // ---------- the loops ----------

  method FillZero(f: array<real>)
    modifies f
    ensures forall k | 0 <= k < f.Length :: f[k] == 0.0
  {
    for k := 0 to f.Length
      invariant forall j | 0 <= j < k :: f[j] == 0.0
    {
      f[k] := 0.0;
    }
  }

  /** Uncompresses column j of A into the work vector. */
  method LoadColumn(A: Compressed, j: nat, f: array<real>)
    requires Square(A) && j < A.major && f.Length == A.major
    modifies f
    ensures f[..] == Work(A, j, 0)
  {
    FillZero(f);
    for p := A.ptr[j] to A.ptr[j + 1]
      invariant forall k | 0 <= k < A.major :: f[k] == Entry(A.idx, A.val, A.ptr[j], p, k)
    {
      EntryAbsent(A.idx, A.val, A.ptr[j], p, A.idx[p]);
      f[A.idx[p]] := A.val[p];
    }
  }

  ghost predicate Scattered(s: seq<real>, factor: real, idx: seq<nat>, val: seq<real>, lo: nat, hi: nat)
    requires InRange(idx, val, lo, hi)
  {
    forall k: nat | k < |s| :: s[k] == factor * Entry(idx, val, lo, hi, k)
  }

  lemma ScatterStep(s: seq<real>, s': seq<real>, factor: real, idx: seq<nat>, val: seq<real>, lo: nat, l: nat, x: real)
    requires InRange(idx, val, lo, l + 1) && lo <= l && StrictlySorted(idx, lo, l + 1) && idx[l] < |s|
    requires Scattered(s, factor, idx, val, lo, l)
    requires x == factor * val[l] && s' == s[idx[l] := x]
    ensures Scattered(s', factor, idx, val, lo, l + 1)
  {
    EntryAbsent(idx, val, lo, l, idx[l]);
    forall k: nat | k < |s'|
      ensures s'[k] == factor * Entry(idx, val, lo, l + 1, k)
    {
      assert Entry(idx, val, lo, l + 1, k) == if k == idx[l] then val[l] else Entry(idx, val, lo, l, k);
    }
  }

  /** Uncompresses f[i] times column i of L into the source vector. */
  method ScatterSource(n: nat, factor: real, src: array<real>, lR: array<nat>, lValues: array<real>, lo: nat, hi: nat)
    requires src.Length == n && src != lValues && InRange(lR[..], lValues[..], lo, hi)
    requires StrictlySorted(lR[..], lo, hi) && forall p | lo <= p < hi :: lR[p] < n
    modifies src
    ensures Scattered(src[..], factor, lR[..], lValues[..], lo, hi)
  {
    hide Scattered;
    FillZero(src);
    ghost var idx, val := lR[..], lValues[..];
    ScatterNothing(src[..], factor, idx, val, lo);
    for l := lo to hi
      invariant lR[..] == idx && lValues[..] == val
      invariant Scattered(src[..], factor, idx, val, lo, l)
    {
      ghost var s := src[..];
      var x := factor * lValues[l];
      src[lR[l]] := x;
      assert src[..] == s[idx[l] := x];
      ScatterStep(s, src[..], factor, idx, val, lo, l, x);
    }
  }

  lemma ScatterNothing(s: seq<real>, factor: real, idx: seq<nat>, val: seq<real>, lo: nat)
    requires InRange(idx, val, lo, lo) && forall k | 0 <= k < |s| :: s[k] == 0.0
    ensures Scattered(s, factor, idx, val, lo, lo)
  {
  }

  /** Subtracts f[i] times column i of L below row i. */
  method ApplyColumn(A: Compressed, j: nat, i: nat, f: array<real>, src: array<real>, lR: array<nat>, lValues: array<real>, lo: nat, hi: nat)
    requires Square(A) && i < j < A.major && f.Length == src.Length == A.major
    requires f != src && f != lValues && src != lValues
    requires f[..] == Work(A, j, i)
    requires Packed(Column(A, i), LowerColumn(A, i), i, A.major, lR[..], lValues[..], lo, hi)
    modifies f, src
    ensures f[..] == Work(A, j, i + 1)
  {
    hide Column, LowerColumn, Work, At, Scattered;
    ghost var idx, val := lR[..], lValues[..];
    ScatterSource(A.major, f[i], src, lR, lValues, lo, hi);
    ghost var f0, s := f[..], src[..];
    for k := i + 1 to A.major
      invariant src[..] == s
      invariant forall m | 0 <= m < A.major :: f[m] == if i < m < k then f0[m] - s[m] else f0[m]
    {
      f[k] := f[k] - src[k];
    }
    SourceIsLower(A, i, f0[i], s, idx, val, lo, hi);
    WorkUnfold(A, j, i, f0, f[..]);
  }

  lemma SourceIsLower(A: Compressed, i: nat, factor: real, s: seq<real>, idx: seq<nat>, val: seq<real>, lo: nat, hi: nat)
    requires Square(A) && i < A.major && |s| == A.major
    requires Packed(Column(A, i), LowerColumn(A, i), i, A.major, idx, val, lo, hi)
    requires Scattered(s, factor, idx, val, lo, hi)
    ensures forall k | i <= k < A.major :: s[k] == factor * LowerColumn(A, i)[k]
  {
    hide Column, LowerColumn, Packed, Square, Entry;
    var l := LowerColumn(A, i);
    assert lo <= hi <= |idx| && hi <= |val| by { PackedRange(Column(A, i), l, i, A.major, idx, val, lo, hi); }
    forall k | i <= k < A.major
      ensures s[k] == factor * l[k]
    {
      if Column(A, i)[k] == 0.0 {
        LowerZero(A, i, k);
      }
      PackedEntry(Column(A, i), l, i, A.major, idx, val, lo, hi, k);
      SameProduct(factor, Entry(idx, val, lo, hi, k), l[k]);
    }
  }

  lemma PackedRange(f: seq<real>, vals: seq<real>, from: nat, to: nat, idx: seq<nat>, val: seq<real>, lo: nat, hi: nat)
    requires Packed(f, vals, from, to, idx, val, lo, hi)
    ensures lo <= hi <= |idx| && hi <= |val|
  {
  }

  lemma SameProduct(c: real, x: real, y: real)
    requires x == y
    ensures c * x == c * y
  {
  }

  lemma LowerZero(A: Compressed, i: nat, k: nat)
    requires Square(A) && i < A.major && i <= k < A.major && Column(A, i)[k] == 0.0
    ensures LowerColumn(A, i)[k] == 0.0
  {
    hide Work;
  }

  lemma WorkUnfold(A: Compressed, j: nat, i: nat, f: seq<real>, f': seq<real>)
    requires Square(A) && i < j < A.major && f == Work(A, j, i) && |f'| == A.major
    requires forall m | 0 <= m < A.major :: f'[m] == if i < m then f[m] - f[i] * LowerColumn(A, i)[m] else f[m]
    ensures f' == Work(A, j, i + 1)
  {
    hide At, LowerColumn, Work;
    forall m | 0 <= m < A.major
      ensures f'[m] == Work(A, j, i + 1)[m]
    {
      WorkStep(A, j, i + 1, m);
    }
  }

  /** Copies the nonzero part of f above the diagonal into column j of U. */
  method StoreUpper(f: array<real>, j: nat, uR: array<nat>, uValues: array<real>, lo: nat) returns (hi: nat)
    requires j <= f.Length && f != uValues
    requires lo + NonzeroCount(f[..], 0, j) <= uR.Length && lo + NonzeroCount(f[..], 0, j) <= uValues.Length
    modifies uR, uValues
    ensures hi == lo + NonzeroCount(f[..], 0, j)
    ensures Packed(f[..], f[..], 0, j, uR[..], uValues[..], lo, hi)
    ensures forall p | 0 <= p < uR.Length && !(lo <= p < hi) :: uR[p] == old(uR[p])
    ensures forall p | 0 <= p < uValues.Length && !(lo <= p < hi) :: uValues[p] == old(uValues[p])
  {
    hide Packed;
    ghost var s := f[..];
    hi := lo;
    PackedEmpty(s, s, 0, uR[..], uValues[..], lo);
    for k := 0 to j
      invariant hi == lo + NonzeroCount(s, 0, k) && hi <= uR.Length && hi <= uValues.Length
      invariant Packed(s, s, 0, k, uR[..], uValues[..], lo, hi)
      invariant forall p | 0 <= p < uR.Length && !(lo <= p < hi) :: uR[p] == old(uR[p])
      invariant forall p | 0 <= p < uValues.Length && !(lo <= p < hi) :: uValues[p] == old(uValues[p])
    {
      NonzeroCountGrows(s, 0, k + 1, j);
      if f[k] != 0.0 {
        ghost var idx, val := uR[..], uValues[..];
        uR[hi] := k;
        uValues[hi] := f[k];
        assert uR[..] == idx[hi := k] && uValues[..] == val[hi := s[k]];
        PackedAppend(s, s, 0, k, idx, val, uR[..], uValues[..], lo, hi);
        hi := hi + 1;
      } else {
        PackedSkip(s, s, 0, k, uR[..], uValues[..], lo, hi);
      }
    }
  }

  lemma PackedEmpty(f: seq<real>, vals: seq<real>, from: nat, idx: seq<nat>, val: seq<real>, lo: nat)
    requires from <= |f| == |vals| && InRange(idx, val, lo, lo)
    ensures Packed(f, vals, from, from, idx, val, lo, lo)
  {
  }

  /** The values of the L part of a work vector. */
  ghost function Scaled(f: seq<real>, j: nat): (l: seq<real>)
    requires j < |f|
    ensures |l| == |f|
  {
    seq(|f|, k requires 0 <= k < |f| => if j <= k then Quotient(f[k], f[j]) else 0.0)
  }

  /** Copies the nonzero part of f from the diagonal on, divided by the pivot, into column j of L. */
  method StoreLower(f: array<real>, j: nat, lR: array<nat>, lValues: array<real>, lo: nat) returns (hi: nat)
    requires j < f.Length && f != lValues
    requires lo + NonzeroCount(f[..], j, f.Length) <= lR.Length
    requires lo + NonzeroCount(f[..], j, f.Length) <= lValues.Length
    modifies lR, lValues
    ensures hi == lo + NonzeroCount(f[..], j, f.Length)
    ensures Packed(f[..], Scaled(f[..], j), j, f.Length, lR[..], lValues[..], lo, hi)
    ensures forall p | 0 <= p < lR.Length && !(lo <= p < hi) :: lR[p] == old(lR[p])
    ensures forall p | 0 <= p < lValues.Length && !(lo <= p < hi) :: lValues[p] == old(lValues[p])
  {
    hide Packed, Quotient, NonzeroCount;
    ghost var s := f[..];
    ghost var scaled := Scaled(s, j);
    NonzeroCountNone(s, j);
    hi := lo;
    PackedEmpty(s, scaled, j, lR[..], lValues[..], lo);
    for k: nat := j to f.Length
      invariant hi == lo + NonzeroCount(s, j, k) && hi <= lR.Length && hi <= lValues.Length
      invariant Packed(s, scaled, j, k, lR[..], lValues[..], lo, hi)
      invariant forall p | 0 <= p < lR.Length && !(lo <= p < hi) :: lR[p] == old(lR[p])
      invariant forall p | 0 <= p < lValues.Length && !(lo <= p < hi) :: lValues[p] == old(lValues[p])
    {
      NonzeroCountGrows(s, j, k + 1, f.Length);
      NonzeroCountNext(s, j, k);
      if f[k] != 0.0 {
        ghost var idx, val := lR[..], lValues[..];
        lR[hi] := k;
        lValues[hi] := Quotient(f[k], f[j]);
        assert lR[..] == idx[hi := k] && lValues[..] == val[hi := scaled[k]];
        PackedAppend(s, scaled, j, k, idx, val, lR[..], lValues[..], lo, hi);
        hi := hi + 1;
      } else {
        PackedSkip(s, scaled, j, k, lR[..], lValues[..], lo, hi);
      }
    }
  }

  // ---------- the factorisation ----------

  /** Column starts with room for every column's nonzeros. */
  ghost predicate EnoughRoom(A: Compressed, lC: seq<nat>, uC: seq<nat>, lSize: nat, uSize: nat)
    requires Square(A)
  {
    && |lC| == |uC| == A.major + 1
    && (forall i, j | 0 <= i <= j <= A.major :: lC[i] <= lC[j] <= lSize && uC[i] <= uC[j] <= uSize)
    && (forall j | 0 <= j < A.major :: lC[j] + NonzeroCount(Column(A, j), j, A.major) <= lC[j + 1])
    && (forall j | 0 <= j < A.major :: uC[j] + NonzeroCount(Column(A, j), 0, j) <= uC[j + 1])
  }

  /** Column j of L occupies lC[j]..lCup[j], column j of U occupies uC[j]..uCup[j]. */
  ghost predicate ColumnStored(A: Compressed, lC: seq<nat>, uC: seq<nat>, lCup: seq<nat>, uCup: seq<nat>,
                               lR: seq<nat>, lValues: seq<real>, uR: seq<nat>, uValues: seq<real>, j: nat)
    requires Square(A) && j < A.major && |lC| == |uC| == A.major + 1 && |lCup| == |uCup| == A.major
  {
    && lCup[j] <= lC[j + 1] && uCup[j] <= uC[j + 1]
    && Packed(Column(A, j), LowerColumn(A, j), j, A.major, lR, lValues, lC[j], lCup[j])
    && Packed(Column(A, j), Column(A, j), 0, j, uR, uValues, uC[j], uCup[j])
  }

  lemma ColumnFrame(A: Compressed, lC: seq<nat>, uC: seq<nat>, lCup: seq<nat>, uCup: seq<nat>,
                    lR: seq<nat>, lValues: seq<real>, uR: seq<nat>, uValues: seq<real>,
                    lCup': seq<nat>, uCup': seq<nat>,
                    lR': seq<nat>, lValues': seq<real>, uR': seq<nat>, uValues': seq<real>, j: nat)
    requires Square(A) && j < A.major && |lC| == |uC| == A.major + 1 && |lCup| == |uCup| == |lCup'| == |uCup'| == A.major
    requires ColumnStored(A, lC, uC, lCup, uCup, lR, lValues, uR, uValues, j)
    requires lCup'[j] == lCup[j] && uCup'[j] == uCup[j]
    requires |lR'| == |lR| && |lValues'| == |lValues| && |uR'| == |uR| && |uValues'| == |uValues|
    requires lC[j + 1] <= |lR| && lC[j + 1] <= |lValues| && uC[j + 1] <= |uR| && uC[j + 1] <= |uValues|
    requires forall p | 0 <= p < lC[j + 1] :: lR'[p] == lR[p] && lValues'[p] == lValues[p]
    requires forall p | 0 <= p < uC[j + 1] :: uR'[p] == uR[p] && uValues'[p] == uValues[p]
    ensures ColumnStored(A, lC, uC, lCup', uCup', lR', lValues', uR', uValues', j)
  {
    hide Column, LowerColumn;
    PackedFrame(Column(A, j), LowerColumn(A, j), j, A.major, lR, lValues, lR', lValues', lC[j], lCup[j]);
    PackedFrame(Column(A, j), Column(A, j), 0, j, uR, uValues, uR', uValues', uC[j], uCup[j]);
  }

  /** lu_left_04 */
  method LuLeft04(A: Compressed, lC: seq<nat>, lCup: array<nat>, lR: array<nat>, lValues: array<real>,
                  uC: seq<nat>, uCup: array<nat>, uR: array<nat>, uValues: array<real>)
    requires Square(A) && lCup.Length == uCup.Length == A.major
    requires lR.Length == lValues.Length && uR.Length == uValues.Length
    requires |lC| == |uC| == A.major + 1
    requires EnoughRoom(A, lC, uC, lR.Length, uR.Length)
    requires lCup != lR && lCup != uCup && lCup != uR && lR != uCup && lR != uR && uCup != uR && lValues != uValues
    modifies lCup, lR, lValues, uCup, uR, uValues
    ensures forall j | 0 <= j < A.major ::
              ColumnStored(A, lC, uC, lCup[..], uCup[..], lR[..], lValues[..], uR[..], uValues[..], j)
  {
    hide Column, LowerColumn, Work, Packed, ColumnStored, Square, EnoughRoom, NonzeroCount;
    var f := new real[A.major];
    var src := new real[A.major];
    for j := 0 to A.major
      invariant forall c | 0 <= c < j ::
                  ColumnStored(A, lC, uC, lCup[..], uCup[..], lR[..], lValues[..], uR[..], uValues[..], c)
    {
      LoadColumn(A, j, f);
      for i := 0 to j
        invariant f[..] == Work(A, j, i)
        invariant forall c | 0 <= c < j ::
                    ColumnStored(A, lC, uC, lCup[..], uCup[..], lR[..], lValues[..], uR[..], uValues[..], c)
      {
        StoredLower(A, lC, uC, lCup[..], uCup[..], lR[..], lValues[..], uR[..], uValues[..], i);
        ApplyColumn(A, j, i, f, src, lR, lValues, lC[i], lCup[i]);
      }
      FinishedColumn(A, j, f[..]);
      StoreColumn(A, lC, uC, j, f, lCup, lR, lValues, uCup, uR, uValues);
    }
  }

  /** The two loops that store column j, with the column ends; earlier columns stay. */
  method StoreColumn(A: Compressed, lC: seq<nat>, uC: seq<nat>, j: nat, f: array<real>, lCup: array<nat>, lR: array<nat>, lValues: array<real>,
                     uCup: array<nat>, uR: array<nat>, uValues: array<real>)
    requires Square(A) && j < A.major && lCup.Length == uCup.Length == f.Length == A.major
    requires lR.Length == lValues.Length && uR.Length == uValues.Length && |lC| == |uC| == A.major + 1
    requires EnoughRoom(A, lC, uC, lR.Length, uR.Length)
    requires lCup != lR && lCup != uCup && lCup != uR && lR != uCup && lR != uR && uCup != uR && lValues != uValues
    requires f != lValues && f != uValues && f[..] == Column(A, j) && Scaled(f[..], j) == LowerColumn(A, j)
    requires forall c | 0 <= c < j ::
               ColumnStored(A, lC, uC, lCup[..], uCup[..], lR[..], lValues[..], uR[..], uValues[..], c)
    modifies lCup, lR, lValues, uCup, uR, uValues
    ensures forall c | 0 <= c <= j ::
              ColumnStored(A, lC, uC, lCup[..], uCup[..], lR[..], lValues[..], uR[..], uValues[..], c)
  {
    hide *;
    RoomForColumn(A, lC, uC, lR.Length, uR.Length, j);
    ghost var lCup0, uCup0, lR0, lValues0, uR0, uValues0 := lCup[..], uCup[..], lR[..], lValues[..], uR[..], uValues[..];
    var nnzUcur := StoreUpper(f, j, uR, uValues, uC[j]);
    uCup[j] := nnzUcur;
    var nnzLcur := StoreLower(f, j, lR, lValues, lC[j]);
    lCup[j] := nnzLcur;
    forall c | 0 <= c <= j
      ensures ColumnStored(A, lC, uC, lCup[..], uCup[..], lR[..], lValues[..], uR[..], uValues[..], c)
    {
      if c < j {
        ColumnFrame(A, lC, uC, lCup0, uCup0, lR0, lValues0, uR0, uValues0,
                    lCup[..], uCup[..], lR[..], lValues[..], uR[..], uValues[..], c);
      } else {
        StoredIntro(A, lC, uC, lCup[..], uCup[..], lR[..], lValues[..], uR[..], uValues[..], j);
      }
    }
  }

  lemma RoomForColumn(A: Compressed, lC: seq<nat>, uC: seq<nat>, lSize: nat, uSize: nat, j: nat)
    requires Square(A) && j < A.major && EnoughRoom(A, lC, uC, lSize, uSize)
    ensures lC[j] + NonzeroCount(Column(A, j), j, A.major) <= lC[j + 1] <= lSize
    ensures uC[j] + NonzeroCount(Column(A, j), 0, j) <= uC[j + 1] <= uSize
    ensures forall c, d | 0 <= c <= d <= A.major :: lC[c] <= lC[d] && uC[c] <= uC[d]
  {
  }

  lemma StoredLower(A: Compressed, lC: seq<nat>, uC: seq<nat>, lCup: seq<nat>, uCup: seq<nat>,
                    lR: seq<nat>, lValues: seq<real>, uR: seq<nat>, uValues: seq<real>, j: nat)
    requires Square(A) && j < A.major && |lC| == |uC| == A.major + 1 && |lCup| == |uCup| == A.major
    requires ColumnStored(A, lC, uC, lCup, uCup, lR, lValues, uR, uValues, j)
    ensures Packed(Column(A, j), LowerColumn(A, j), j, A.major, lR, lValues, lC[j], lCup[j])
  {
  }

  lemma FinishedColumn(A: Compressed, j: nat, f: seq<real>)
    requires Square(A) && j < A.major && f == Work(A, j, j)
    ensures f == Column(A, j) && Scaled(f, j) == LowerColumn(A, j)
  {
    hide Work;
  }

  lemma StoredIntro(A: Compressed, lC: seq<nat>, uC: seq<nat>, lCup: seq<nat>, uCup: seq<nat>,
                    lR: seq<nat>, lValues: seq<real>, uR: seq<nat>, uValues: seq<real>, j: nat)
    requires Square(A) && j < A.major && |lC| == |uC| == A.major + 1 && |lCup| == |uCup| == A.major
    requires lCup[j] <= lC[j + 1] && uCup[j] <= uC[j + 1]
    requires Packed(Column(A, j), LowerColumn(A, j), j, A.major, lR, lValues, lC[j], lCup[j])
    requires Packed(Column(A, j), Column(A, j), 0, j, uR, uValues, uC[j], uCup[j])
    ensures ColumnStored(A, lC, uC, lCup, uCup, lR, lValues, uR, uValues, j)
  {
  }

  // ---------- the stored factors ----------

  /** The stored columns have the entries of the factors, whatever zeros were dropped. */
  lemma StoredEntries(A: Compressed, lC: seq<nat>, uC: seq<nat>, lCup: seq<nat>, uCup: seq<nat>,
                      lR: seq<nat>, lValues: seq<real>, uR: seq<nat>, uValues: seq<real>, j: nat, k: nat)
    requires Square(A) && j < A.major && k < A.major && |lC| == |uC| == A.major + 1 && |lCup| == |uCup| == A.major
    requires ColumnStored(A, lC, uC, lCup, uCup, lR, lValues, uR, uValues, j)
    ensures InRange(lR, lValues, lC[j], lCup[j]) && InRange(uR, uValues, uC[j], uCup[j])
    ensures Entry(lR, lValues, lC[j], lCup[j], k) == L(A, k, j)
    ensures Entry(uR, uValues, uC[j], uCup[j], k) + (if k == j then Pivot(A, j) else 0.0) == UpperWithPivots(A, k, j)
  {
    hide Work, Entry;
    if j <= k && Column(A, j)[k] == 0.0 {
      LowerZero(A, j, k);
    }
    PackedEntry(Column(A, j), LowerColumn(A, j), j, A.major, lR, lValues, lC[j], lCup[j], k);
    PackedEntry(Column(A, j), Column(A, j), 0, j, uR, uValues, uC[j], uCup[j], k);
  }

  /** The dense entry (k, j) of a factor held in compressed columns start[j]..end[j]. */
  ghost function StoredAt(start: seq<nat>, end: seq<nat>, idx: seq<nat>, val: seq<real>, k: nat, j: nat): real {
    if j < |start| && j < |end| && InRange(idx, val, start[j], end[j]) then Entry(idx, val, start[j], end[j], k) else 0.0
  }

  /** A == L * (U + diag(d)) for the factors as they are stored, with the pivots d kept aside. */
  lemma StoredFactorisation(A: Compressed, lC: seq<nat>, uC: seq<nat>, lCup: seq<nat>, uCup: seq<nat>,
                            lR: seq<nat>, lValues: seq<real>, uR: seq<nat>, uValues: seq<real>, k: nat, j: nat)
    requires Square(A) && k < A.major && j < A.major && |lC| == |uC| == A.major + 1 && |lCup| == |uCup| == A.major
    requires forall c | 0 <= c < A.major :: ColumnStored(A, lC, uC, lCup, uCup, lR, lValues, uR, uValues, c)
    requires NonzeroPivots(A, j)
    ensures Sum(A.major, (i: nat) => StoredAt(lC, lCup, lR, lValues, k, i) *
                                 (StoredAt(uC, uCup, uR, uValues, i, j) + if i == j then Pivot(A, j) else 0.0))
         == At(A, j, k)
  {
    hide L, UpperWithPivots, Pivot, ColumnStored, Entry, At, NonzeroPivots, Square, Sum;
    var stored := (i: nat) => StoredAt(lC, lCup, lR, lValues, k, i) *
                              (StoredAt(uC, uCup, uR, uValues, i, j) + if i == j then Pivot(A, j) else 0.0);
    var dense := (i: nat) => L(A, k, i) * UpperWithPivots(A, i, j);
    forall i: nat | i < A.major
      ensures stored(i) == dense(i)
    {
      StoredEntries(A, lC, uC, lCup, uCup, lR, lValues, uR, uValues, i, k);
      StoredEntries(A, lC, uC, lCup, uCup, lR, lValues, uR, uValues, j, i);
    }
    SumExtensional(A.major, stored, dense);
    FactorisationEquation(A, k, j);
  }
}

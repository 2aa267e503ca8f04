/**
 data/Forward-Solve_CSC/forwSolCSC.c, data/Forward-Solve_CSR/forwSolCSR.c and
 data/GAXPY/gaxpy.cpp: the two forward solves with a sparse lower triangular matrix,
 and the product with a vector that undoes them.
 */
module TriangularSolve {
  import opened SparseVectors

  datatype Layout = ByColumn | ByRow

  /** M[i][j], and 0 outside M. */
  ghost function Coefficient(M: Compressed, layout: Layout, i: nat, j: nat): real
    requires WellFormed(M)
  {
    match layout
    case ByColumn => if j < M.major then At(M, j, i) else 0.0
    case ByRow => if i < M.major then At(M, i, j) else 0.0
  }

  function Component(x: seq<real>, k: nat): real {
    if k < |x| then x[k] else 0.0
  }

  /** The sum of M[i][k] * x[k] over the columns k below m. */
  ghost function Partial(M: Compressed, layout: Layout, x: seq<real>, i: nat, m: nat): real
    requires WellFormed(M)
  {
    if m == 0 then 0.0
    else Partial(M, layout, x, i, m - 1) + Coefficient(M, layout, i, m - 1) * Component(x, m - 1)
  }

  /** (M * x)[i] */
  ghost function Apply(M: Compressed, layout: Layout, x: seq<real>, i: nat): real
    requires WellFormed(M)
  {
    Partial(M, layout, x, i, if layout == ByColumn then M.major else M.minor)
  }

  /** M * x == b for an n by n matrix. */
  ghost predicate Solves(n: nat, M: Compressed, layout: Layout, x: seq<real>, b: seq<real>) {
    && WellFormed(M) && M.major == M.minor == n && |x| == |b| == n
    && forall i: nat | i < n :: Apply(M, layout, x, i) == b[i]
  }

  /** Lower triangular with a nonzero diagonal. */
  ghost predicate Nonsingular(n: nat, M: Compressed, layout: Layout) {
    && WellFormed(M)
    && (forall i: nat | i < n :: Coefficient(M, layout, i, i) != 0.0)
    && (forall i: nat, k: nat | i < k < n :: Coefficient(M, layout, i, k) == 0.0)
  }

  /** Compressed columns of a lower triangular matrix, each starting with its diagonal entry. */
  ghost predicate LowerColumns(L: Compressed) {
    && WellFormed(L) && L.major == L.minor
    && forall j: nat | j < L.major :: LowerColumn(L, j)
  }

  ghost predicate LowerColumn(L: Compressed, j: nat)
    requires WellFormed(L) && j < L.major
  {
    var lo, hi := L.ptr[j], L.ptr[j + 1];
    lo < hi && L.idx[lo] == j && L.val[lo] != 0.0 && forall p | lo < p < hi :: j < L.idx[p]
  }

  /** Compressed rows of a lower triangular matrix, each ending with its diagonal entry. */
  ghost predicate LowerRows(L: Compressed) {
    && WellFormed(L) && L.major == L.minor
    && forall i: nat | i < L.major :: LowerRow(L, i)
  }

  ghost predicate LowerRow(L: Compressed, i: nat)
    requires WellFormed(L) && i < L.major
  {
    var lo, hi := L.ptr[i], L.ptr[i + 1];
    lo < hi && L.idx[hi - 1] == i && L.val[hi - 1] != 0.0 && forall p | lo <= p < hi - 1 :: L.idx[p] < i
  }

  // ---------- entries of the triangular matrices ----------

  lemma {:induction false} EntrySplit(L: Compressed, lo: nat, mid: nat, hi: nat, i: nat)
    requires lo <= mid <= hi <= |L.idx| && hi <= |L.val|
    ensures Entry(L.idx, L.val, lo, hi, i) == Entry(L.idx, L.val, lo, mid, i) + Entry(L.idx, L.val, mid, hi, i)
    decreases hi
  {
    if mid < hi {
      EntrySplit(L, lo, mid, hi - 1, i);
    }
  }

  lemma ColumnEntries(L: Compressed, j: nat, i: nat)
    requires LowerColumns(L) && j < L.major
    ensures L.ptr[j] < L.ptr[j + 1] <= |L.idx| <= |L.val|
    ensures Coefficient(L, ByColumn, i, j)
         == if i < j then 0.0 else if i == j then L.val[L.ptr[j]] else Entry(L.idx, L.val, L.ptr[j] + 1, L.ptr[j + 1], i)
  {
    assert LowerColumn(L, j);
    var lo, hi := L.ptr[j], L.ptr[j + 1];
    EntrySplit(L, lo, lo + 1, hi, i);
    if i <= j {
      EntryAbsent(L.idx, L.val, lo + 1, hi, i);
    }
  }

  lemma RowEntries(L: Compressed, i: nat, j: nat)
    requires LowerRows(L) && i < L.major
    ensures L.ptr[i] < L.ptr[i + 1] <= |L.idx| <= |L.val|
    ensures Coefficient(L, ByRow, i, j)
         == if i < j then 0.0 else if i == j then L.val[L.ptr[i + 1] - 1] else Entry(L.idx, L.val, L.ptr[i], L.ptr[i + 1] - 1, j)
  {
    assert LowerRow(L, i);
    var lo, hi := L.ptr[i], L.ptr[i + 1];
    EntrySplit(L, lo, hi - 1, hi, j);
    if i <= j {
      EntryAbsent(L.idx, L.val, lo, hi - 1, j);
    }
  }

  lemma ColumnsNonsingular(L: Compressed)
    requires LowerColumns(L)
    ensures Nonsingular(L.major, L, ByColumn)
  {
    hide Coefficient, WellFormed, Entry;
    forall i: nat | i < L.major
      ensures Coefficient(L, ByColumn, i, i) != 0.0
    {
      ColumnEntries(L, i, i);
      assert LowerColumn(L, i);
    }
    forall i: nat, k: nat | i < k < L.major
      ensures Coefficient(L, ByColumn, i, k) == 0.0
    {
      ColumnEntries(L, k, i);
    }
  }

  lemma RowsNonsingular(L: Compressed)
    requires LowerRows(L)
    ensures Nonsingular(L.major, L, ByRow)
  {
    hide Coefficient, WellFormed, Entry;
    forall i: nat | i < L.major
      ensures Coefficient(L, ByRow, i, i) != 0.0
    {
      RowEntries(L, i, i);
      assert LowerRow(L, i);
    }
    forall i: nat, k: nat | i < k < L.major
      ensures Coefficient(L, ByRow, i, k) == 0.0
    {
      RowEntries(L, i, k);
    }
  }

  // ---------- uniqueness ----------

  lemma {:induction false} PartialSame(M: Compressed, layout: Layout, x: seq<real>, N: Compressed, layout': Layout, y: seq<real>, i: nat, m: nat)
    requires WellFormed(M) && WellFormed(N)
    requires forall k: nat | k < m :: Coefficient(M, layout, i, k) == Coefficient(N, layout', i, k) && Component(x, k) == Component(y, k)
    ensures Partial(M, layout, x, i, m) == Partial(N, layout', y, i, m)
  {
    hide WellFormed, Coefficient, Component;
    if m != 0 {
      PartialSame(M, layout, x, N, layout', y, i, m - 1);
      var a, b := Coefficient(M, layout, i, m - 1), Component(x, m - 1);
      assert a * b == Coefficient(N, layout', i, m - 1) * Component(y, m - 1);
    }
  }

  /** Only the columns up to the diagonal contribute. */
  lemma {:induction false} PartialTriangular(n: nat, M: Compressed, layout: Layout, x: seq<real>, i: nat, m: nat)
    requires Nonsingular(n, M, layout) && i < m <= n
    ensures Partial(M, layout, x, i, m) == Partial(M, layout, x, i, i + 1)
  {
    hide WellFormed, Coefficient, Component;
    if i + 1 < m {
      PartialTriangular(n, M, layout, x, i, m - 1);
      assert Coefficient(M, layout, i, m - 1) == 0.0;
      ZeroTimes(Coefficient(M, layout, i, m - 1), Component(x, m - 1));
    }
  }

  lemma PartialSnoc(M: Compressed, layout: Layout, x: seq<real>, i: nat, m: nat)
    requires WellFormed(M) && m < |x|
    ensures Partial(M, layout, x, i, m + 1) == Partial(M, layout, x, i, m) + Coefficient(M, layout, i, m) * x[m]
  {
    hide WellFormed, Coefficient;
  }

  lemma ZeroTimes(a: real, b: real)
    requires a == 0.0
    ensures a * b == 0.0
  {
  }

  lemma CancelFactor(a: real, u: real, v: real)
    requires a != 0.0 && a * u == a * v
    ensures u == v
  {
    assert a * (u - v) == 0.0;
  }

  /** Solutions of two lower triangular systems with the same entries and right-hand sides agree. */
  lemma {:induction false} SolutionsAgree(n: nat, M: Compressed, layout: Layout, x: seq<real>, N: Compressed, layout': Layout, y: seq<real>, b: seq<real>, i: nat)
    requires Solves(n, M, layout, x, b) && Solves(n, N, layout', y, b) && Nonsingular(n, M, layout) && i <= n
    requires forall r: nat, c: nat | r < n && c < n :: Coefficient(M, layout, r, c) == Coefficient(N, layout', r, c)
    ensures x[..i] == y[..i]
    decreases i
  {
    hide WellFormed, Coefficient, Partial;
    if i != 0 {
      var r := i - 1;
      SolutionsAgree(n, M, layout, x, N, layout', y, b, r);
      assert Nonsingular(n, N, layout');
      PartialTriangular(n, M, layout, x, r, n);
      PartialTriangular(n, N, layout', y, r, n);
      forall k: nat | k < r
        ensures Component(x, k) == Component(y, k)
      {
        assert x[..r][k] == y[..r][k];
      }
      PartialSame(M, layout, x, N, layout', y, r, r);
      PartialSnoc(M, layout, x, r, r);
      PartialSnoc(N, layout', y, r, r);
      assert Apply(M, layout, x, r) == b[r] == Apply(N, layout', y, r);
      CancelFactor(Coefficient(M, layout, r, r), x[r], y[r]);
      assert x[..i] == x[..r] + [x[r]] && y[..i] == y[..r] + [y[r]];
    }
  }

  /** The two layouts give the same answer, and there is only one. */
  lemma UniqueSolution(n: nat, M: Compressed, layout: Layout, x: seq<real>, N: Compressed, layout': Layout, y: seq<real>, b: seq<real>)
    requires Solves(n, M, layout, x, b) && Solves(n, N, layout', y, b) && Nonsingular(n, M, layout)
    requires forall r: nat, c: nat | r < n && c < n :: Coefficient(M, layout, r, c) == Coefficient(N, layout', r, c)
    ensures x == y
  {
    SolutionsAgree(n, M, layout, x, N, layout', y, b, n);
  }

  // ---------- lsolve ----------

  /** After columns 0..j-1: x holds the solution below j and the reduced right-hand side from j on. */
  ghost predicate Reduced(L: Compressed, b: seq<real>, x: seq<real>, j: nat) {
    && WellFormed(L) && |x| == |b| == L.major
    && forall i: nat | i < L.major :: b[i] == Partial(L, ByColumn, x, i, j) + if i < j then 0.0 else x[i]
  }

  /** In column j, the entries at positions lo..p below the diagonal have been applied to x'. */
  ghost predicate Applied(L: Compressed, j: nat, lo: nat, p: nat, x': seq<real>, xj: real, x: seq<real>) {
    && lo <= p <= |L.idx| && p <= |L.val| && |x| == |x'| == L.major && j < L.major && x[j] == xj
    && (forall i: nat | i < j :: x[i] == x'[i])
    && (forall i: nat | j < i < L.major :: x[i] == x'[i] - Amount(L, lo, p, i, xj))
  }

  /** What positions lo..p subtract from or add to row i. */
  ghost function Amount(L: Compressed, lo: nat, p: nat, i: nat, c: real): real
    requires lo <= p <= |L.idx| && p <= |L.val|
  {
    Entry(L.idx, L.val, lo, p, i) * c
  }

  lemma EntrySnoc(L: Compressed, lo: nat, p: nat, i: nat, c: real, product: real)
    requires lo <= p < |L.idx| && p < |L.val| && product == L.val[p] * c
    ensures Amount(L, lo, p + 1, i, c) == Amount(L, lo, p, i, c) + if L.idx[p] == i then product else 0.0
  {
    DistributeReal(Entry(L.idx, L.val, lo, p, i), L.val[p], c);
  }

  lemma ApplyOne(L: Compressed, j: nat, lo: nat, p: nat, x': seq<real>, xj: real, x: seq<real>, product: real)
    requires Applied(L, j, lo, p, x', xj, x) && p < |L.idx| && p < |L.val| && j < L.idx[p] < |x|
    requires product == L.val[p] * xj
    ensures Applied(L, j, lo, p + 1, x', xj, x[L.idx[p] := x[L.idx[p]] - product])
  {
    hide Amount;
    var y := x[L.idx[p] := x[L.idx[p]] - product];
    forall i: nat | j < i < L.major
      ensures y[i] == x'[i] - Amount(L, lo, p + 1, i, xj)
    {
      EntrySnoc(L, lo, p, i, xj, product);
    }
  }

  lemma ApplyNone(L: Compressed, j: nat, x': seq<real>, xj: real, x: seq<real>)
    requires LowerColumns(L) && |x'| == L.major && j < L.major && x == x'[j := xj]
    ensures L.ptr[j] < L.ptr[j + 1] <= |L.idx| <= |L.val|
    ensures Applied(L, j, L.ptr[j] + 1, L.ptr[j] + 1, x', xj, x)
  {
    ColumnEntries(L, j, 0);
  }

  lemma ReduceColumn(L: Compressed, b: seq<real>, j: nat, x': seq<real>, xj: real, x: seq<real>)
    requires LowerColumns(L) && j < L.major && Reduced(L, b, x', j)
    requires L.ptr[j] < |L.val| && L.ptr[j] < L.ptr[j + 1] && Applied(L, j, L.ptr[j] + 1, L.ptr[j + 1], x', xj, x)
    requires x'[j] == L.val[L.ptr[j]] * xj
    ensures Reduced(L, b, x, j + 1)
  {
    hide WellFormed, Entry, Coefficient, LowerColumns;
    forall i: nat | i < L.major
      ensures b[i] == Partial(L, ByColumn, x, i, j + 1) + if i < j + 1 then 0.0 else x[i]
    {
      PartialSame(L, ByColumn, x', L, ByColumn, x, i, j);
      ColumnEntries(L, j, i);
      ZeroTimes(0.0, xj);
    }
  }

  /** The column starts with a usable diagonal, and its other rows lie below. */
  lemma ColumnShape(L: Compressed, j: nat)
    requires LowerColumns(L) && j < L.major
    ensures |L.ptr| == L.major + 1 && L.ptr[j] < L.ptr[j + 1] <= |L.idx| <= |L.val|
    ensures L.val[L.ptr[j]] != 0.0
    ensures forall p | L.ptr[j] < p < L.ptr[j + 1] :: j < L.idx[p] < L.minor == L.major
  {
    assert LowerColumn(L, j);
  }

  /** The loops of lsolve. */
  method SolveColumns(n: nat, Lp: array<nat>, Li: array<nat>, Lx: array<real>, x: array<real>)
    requires x != Lx && x.Length == n && LowerColumns(Compressed(n, n, Lp[..], Li[..], Lx[..]))
    modifies x
    ensures Solves(n, Compressed(n, n, Lp[..], Li[..], Lx[..]), ByColumn, x[..], old(x[..]))
  {
    hide *;
    ghost var L, b := Compressed(n, n, Lp[..], Li[..], Lx[..]), x[..];
    StartReduced(L, b);
    for j := 0 to n
      invariant Reduced(L, b, x[..], j)
    {
      ColumnShape(L, j);
      ghost var x' := x[..];
      ghost var d, xj := Lx[Lp[j]], x[j] / Lx[Lp[j]];
      DivideBack(x[j], d);
      x[j] := x[j] / Lx[Lp[j]];
      ApplyNone(L, j, x', xj, x[..]);
      for p := Lp[j] + 1 to Lp[j + 1]
        invariant Applied(L, j, L.ptr[j] + 1, p, x', xj, x[..]) && x[j] == xj
      {
        ghost var y := x[..];
        assert L.idx[p] == Li[p] && L.val[p] == Lx[p];
        var product := Lx[p] * x[j];
        SameProduct(product, Lx[p], x[j], L.val[p], xj);
        ApplyOne(L, j, L.ptr[j] + 1, p, x', xj, y, product);
        x[Li[p]] := x[Li[p]] - product;
        assert x[..] == y[L.idx[p] := y[L.idx[p]] - product];
      }
      ReduceColumn(L, b, j, x', xj, x[..]);
    }
    AllReduced(L, b, x[..]);
  }

  /** Solves L * x = b in place, x holding b at the start; 0 is returned when an argument is missing. */
  method Lsolve(n: nat, Lp: array?<nat>, Li: array?<nat>, Lx: array<real>, x: array?<real>) returns (r: int)
    requires Lp != null && Li != null && x != null ==>
               x != Lx && x.Length == n && LowerColumns(Compressed(n, n, Lp[..], Li[..], Lx[..]))
    modifies x
    ensures r == if Lp == null || Li == null || x == null then 0 else 1
    ensures r == 0 ==> x == null || x[..] == old(x[..])
    ensures r == 1 ==> Solves(n, Compressed(n, n, Lp[..], Li[..], Lx[..]), ByColumn, x[..], old(x[..]))
  {
    if Lp == null || Li == null || x == null {
      return 0;
    }
    SolveColumns(n, Lp, Li, Lx, x);
    return 1;
  }

  lemma SameProduct(product: real, a: real, b: real, c: real, d: real)
    requires a == c && b == d && product == a * b
    ensures product == c * d
  {
  }

  lemma DivideBack(a: real, d: real)
    requires d != 0.0
    ensures a == d * (a / d)
  {
  }

  lemma StartReduced(L: Compressed, b: seq<real>)
    requires LowerColumns(L) && |b| == L.major
    ensures Reduced(L, b, b, 0)
  {
  }

  lemma AllReduced(L: Compressed, b: seq<real>, x: seq<real>)
    requires LowerColumns(L) && Reduced(L, b, x, L.major)
    ensures Solves(L.major, L, ByColumn, x, b)
  {
  }

  // ---------- the row-oriented solve ----------

  /** The sum over columns k below m of x[k] times the entry that positions lo..p hold for k. */
  ghost function RowSum(L: Compressed, lo: nat, p: nat, x: seq<real>, m: nat): real
    requires lo <= p <= |L.idx| && p <= |L.val|
  {
    if m == 0 then 0.0 else RowSum(L, lo, p, x, m - 1) + Entry(L.idx, L.val, lo, p, m - 1) * Component(x, m - 1)
  }

  lemma {:induction false} RowSumNone(L: Compressed, lo: nat, x: seq<real>, m: nat)
    requires lo <= |L.idx| && lo <= |L.val|
    ensures RowSum(L, lo, lo, x, m) == 0.0
  {
    if m != 0 {
      RowSumNone(L, lo, x, m - 1);
      ZeroTimes(0.0, Component(x, m - 1));
    }
  }

  lemma {:induction false} RowSumSnoc(L: Compressed, lo: nat, p: nat, x: seq<real>, m: nat, product: real)
    requires lo <= p < |L.idx| && p < |L.val| && product == L.val[p] * Component(x, L.idx[p])
    ensures RowSum(L, lo, p + 1, x, m) == RowSum(L, lo, p, x, m) + if L.idx[p] < m then product else 0.0
  {
    hide Entry, Component;
    if m != 0 {
      RowSumSnoc(L, lo, p, x, m - 1, product);
      var k := m - 1;
      var c := Component(x, k);
      EntrySnoc(L, lo, p, k, c, L.val[p] * c);
      if L.idx[p] == k {
        SameProduct(product, L.val[p], Component(x, L.idx[p]), L.val[p], c);
      }
    }
  }

  lemma {:induction false} RowSumIsPartial(L: Compressed, i: nat, x: seq<real>, m: nat)
    requires LowerRows(L) && m <= i < L.major
    ensures L.ptr[i] <= L.ptr[i + 1] - 1 <= |L.idx| && L.ptr[i + 1] - 1 <= |L.val|
    ensures RowSum(L, L.ptr[i], L.ptr[i + 1] - 1, x, m) == Partial(L, ByRow, x, i, m)
  {
    RowEntries(L, i, if m == 0 then 0 else m - 1);
    hide LowerRows, Entry, Coefficient, Component;
    if m != 0 {
      RowSumIsPartial(L, i, x, m - 1);
      assert WellFormed(L) by { RowsWellFormed(L); }
      var e := Entry(L.idx, L.val, L.ptr[i], L.ptr[i + 1] - 1, m - 1);
      SameProduct(e * Component(x, m - 1), e, Component(x, m - 1), Coefficient(L, ByRow, i, m - 1), Component(x, m - 1));
    }
  }

  lemma RowsWellFormed(L: Compressed)
    requires LowerRows(L)
    ensures WellFormed(L)
  {
  }

  /** The first i rows of the system hold. */
  ghost predicate RowsSolved(L: Compressed, b: seq<real>, x: seq<real>, i: nat) {
    && WellFormed(L) && |x| == |b| == L.major && i <= L.major
    && forall r: nat | r < i :: b[r] == Partial(L, ByRow, x, r, r + 1)
  }

  lemma BelowUpdate(x: seq<real>, i: nat, xi: real)
    requires i < |x|
    ensures forall k: nat | k < i :: Component(x, k) == Component(x[i := xi], k)
  {
  }

  lemma DiagonalTerm(L: Compressed, i: nat, y: seq<real>, tmp: real)
    requires WellFormed(L) && i < |y| && tmp == Coefficient(L, ByRow, i, i) * y[i]
    ensures Partial(L, ByRow, y, i, i + 1) == Partial(L, ByRow, y, i, i) + tmp
  {
    hide WellFormed, Coefficient;
  }

  lemma SolveRow(L: Compressed, b: seq<real>, x: seq<real>, i: nat, xi: real, tmp: real)
    requires LowerRows(L) && i < L.major && RowsSolved(L, b, x, i)
    requires L.ptr[i] <= L.ptr[i + 1] - 1 < |L.val| && L.ptr[i + 1] - 1 <= |L.idx|
    requires tmp == b[i] - RowSum(L, L.ptr[i], L.ptr[i + 1] - 1, x, i)
    requires tmp == L.val[L.ptr[i + 1] - 1] * xi
    ensures RowsSolved(L, b, x[i := xi], i + 1)
  {
    hide WellFormed, Entry, Coefficient, LowerRows, Partial, Component, RowSum;
    var y := x[i := xi];
    assert forall k: nat | k < i :: Component(x, k) == Component(y, k) by { BelowUpdate(x, i, xi); }
    RowSumIsPartial(L, i, x, i);
    RowEntries(L, i, i);
    PartialSame(L, ByRow, x, L, ByRow, y, i, i);
    DiagonalTerm(L, i, y, tmp);
    forall r: nat | r < i + 1
      ensures b[r] == Partial(L, ByRow, y, r, r + 1)
    {
      if r < i {
        PartialSame(L, ByRow, x, L, ByRow, y, r, r + 1);
      }
    }
  }

  /** The row ends with a usable diagonal, and its other columns lie before it. */
  lemma RowShape(L: Compressed, i: nat)
    requires LowerRows(L) && i < L.major
    ensures |L.ptr| == L.major + 1 && L.ptr[i] < L.ptr[i + 1] <= |L.idx| <= |L.val|
    ensures L.val[L.ptr[i + 1] - 1] != 0.0
    ensures forall p | L.ptr[i] <= p < L.ptr[i + 1] - 1 :: L.idx[p] < i
  {
    assert LowerRow(L, i);
  }

  /** Solves L * x = b by rows. */
  method ForwardSolveRows(n: nat, b: array<real>, rowPtr: array<nat>, colIdx: array<nat>, values: array<real>, x: array<real>)
    requires b.Length == x.Length == n && x != b && x != values
    requires LowerRows(Compressed(n, n, rowPtr[..], colIdx[..], values[..]))
    modifies x
    ensures Solves(n, Compressed(n, n, rowPtr[..], colIdx[..], values[..]), ByRow, x[..], b[..])
  {
    hide *;
    ghost var L := Compressed(n, n, rowPtr[..], colIdx[..], values[..]);
    StartRows(L, b[..], x[..]);
    for i := 0 to n
      invariant RowsSolved(L, b[..], x[..], i)
    {
      RowShape(L, i);
      ghost var y := x[..];
      var tmp := b[i];
      RowSumNone(L, L.ptr[i], y, i);
      for j := rowPtr[i] to rowPtr[i + 1] - 1
        invariant tmp == b[i] - RowSum(L, L.ptr[i], j, y, i) && x[..] == y
      {
        assert L.idx[j] == colIdx[j] && L.val[j] == values[j];
        var product := values[j] * x[colIdx[j]];
        ComponentAt(y, L.idx[j]);
        SameProduct(product, values[j], x[colIdx[j]], L.val[j], Component(y, L.idx[j]));
        RowSumSnoc(L, L.ptr[i], j, y, i, product);
        tmp := tmp - product;
      }
      ghost var d := values[rowPtr[i + 1] - 1];
      DivideBack(tmp, d);
      x[i] := tmp / values[rowPtr[i + 1] - 1];
      SolveRow(L, b[..], y, i, tmp / d, tmp);
      assert x[..] == y[i := tmp / d];
    }
    AllRows(L, b[..], x[..]);
  }

  lemma ComponentAt(x: seq<real>, k: nat)
    requires k < |x|
    ensures Component(x, k) == x[k]
  {
  }

  lemma StartRows(L: Compressed, b: seq<real>, x: seq<real>)
    requires LowerRows(L) && |x| == |b| == L.major
    ensures RowsSolved(L, b, x, 0)
  {
  }

  lemma AllRows(L: Compressed, b: seq<real>, x: seq<real>)
    requires LowerRows(L) && RowsSolved(L, b, x, L.major)
    ensures Solves(L.major, L, ByRow, x, b)
  {
    hide WellFormed, Coefficient, LowerRows, Partial, Nonsingular;
    RowsNonsingular(L);
    assert WellFormed(L) && L.major == L.minor by { RowsSquare(L); }
    forall i: nat | i < L.major
      ensures Apply(L, ByRow, x, i) == b[i]
    {
      PartialTriangular(L.major, L, ByRow, x, i, L.major);
    }
  }

  lemma RowsSquare(L: Compressed)
    requires LowerRows(L)
    ensures WellFormed(L) && L.major == L.minor
  {
  }

  // ---------- y = A * x + y ----------

  /** Columns below j have been added to y0, and column j's positions lo..p as well. */
  ghost predicate Added(A: Compressed, x: seq<real>, y0: seq<real>, y: seq<real>, j: nat, lo: nat, p: nat) {
    && WellFormed(A) && lo <= p <= |A.idx| && |y| == |y0|
    && forall i: nat | i < |y| :: y[i] == y0[i] + Partial(A, ByColumn, x, i, j) + Entry(A.idx, A.val, lo, p, i) * Component(x, j)
  }

  lemma AddOne(A: Compressed, x: seq<real>, y0: seq<real>, y: seq<real>, j: nat, lo: nat, p: nat, product: real)
    requires Added(A, x, y0, y, j, lo, p) && p < |A.idx| && p < |A.val| && A.idx[p] < |y| && product == A.val[p] * Component(x, j)
    ensures Added(A, x, y0, y[A.idx[p] := y[A.idx[p]] + product], j, lo, p + 1)
  {
    hide WellFormed, Partial, Entry, Component;
    forall i: nat | i < |y|
      ensures Entry(A.idx, A.val, lo, p + 1, i) * Component(x, j)
           == Entry(A.idx, A.val, lo, p, i) * Component(x, j) + if A.idx[p] == i then product else 0.0
    {
      EntrySnoc(A, lo, p, i, Component(x, j), product);
    }
  }

  lemma AddNone(A: Compressed, x: seq<real>, y0: seq<real>, y: seq<real>, j: nat)
    requires WellFormed(A) && j < A.major && Added(A, x, y0, y, j, 0, 0)
    ensures |A.ptr| == A.major + 1 && A.ptr[j] <= A.ptr[j + 1] <= |A.idx| <= |A.val|
    ensures Added(A, x, y0, y, j, A.ptr[j], A.ptr[j])
    ensures forall p | 0 <= p < |A.idx| :: A.idx[p] < A.minor
  {
  }

  lemma AddColumn(A: Compressed, x: seq<real>, y0: seq<real>, y: seq<real>, j: nat)
    requires WellFormed(A) && j < A.major && Added(A, x, y0, y, j, A.ptr[j], A.ptr[j + 1])
    ensures Added(A, x, y0, y, j + 1, 0, 0)
  {
    hide Entry, Component;
    forall i: nat | i < |y|
      ensures y[i] == y0[i] + Partial(A, ByColumn, x, i, j + 1) + Entry(A.idx, A.val, 0, 0, i) * Component(x, j + 1)
    {
      NoEntry(A, i);
      var e, c := Entry(A.idx, A.val, A.ptr[j], A.ptr[j + 1], i), Component(x, j);
      SameProduct(e * c, e, c, Coefficient(A, ByColumn, i, j), c);
      ZeroTimes(Entry(A.idx, A.val, 0, 0, i), Component(x, j + 1));
    }
  }

  lemma NoEntry(A: Compressed, i: nat)
    ensures Entry(A.idx, A.val, 0, 0, i) == 0.0
  {
  }

  lemma StartAdded(A: Compressed, x: seq<real>, y: seq<real>)
    requires WellFormed(A)
    ensures Added(A, x, y, y, 0, 0, 0)
  {
    forall i: nat | i < |y|
      ensures Entry(A.idx, A.val, 0, 0, i) * Component(x, 0) == 0.0
    {
      ZeroTimes(Entry(A.idx, A.val, 0, 0, i), Component(x, 0));
    }
  }

  /** y += A * x */
  method Gaxpy(values: array<real>, n: nat, Ap: array<nat>, Ai: array<nat>, x: array<real>, y: array<real>) returns (r: int)
    requires n <= x.Length && y != x && y != values
    requires WellFormed(Compressed(n, y.Length, Ap[..], Ai[..], values[..]))
    modifies y
    ensures r == 1
    ensures forall i: nat | i < y.Length ::
              y[i] == old(y[i]) + Apply(Compressed(n, y.Length, Ap[..], Ai[..], values[..]), ByColumn, x[..], i)
  {
    hide *;
    ghost var A, y0 := Compressed(n, y.Length, Ap[..], Ai[..], values[..]), y[..];
    StartAdded(A, x[..], y0);
    for j := 0 to n
      invariant Added(A, x[..], y0, y[..], j, 0, 0)
    {
      AddNone(A, x[..], y0, y[..], j);
      ComponentAt(x[..], j);
      for p := Ap[j] to Ap[j + 1]
        invariant Added(A, x[..], y0, y[..], j, A.ptr[j], p)
      {
        ghost var y' := y[..];
        assert A.idx[p] == Ai[p] && A.val[p] == values[p];
        var product := values[p] * x[j];
        SameProduct(product, values[p], x[j], A.val[p], Component(x[..], j));
        AddOne(A, x[..], y0, y', j, A.ptr[j], p, product);
        y[Ai[p]] := y[Ai[p]] + product;
        assert y[..] == y'[A.idx[p] := y'[A.idx[p]] + product];
      }
      AddColumn(A, x[..], y0, y[..], j);
    }
    AllAdded(A, x[..], y0, y[..]);
    assert forall i: nat | i < y.Length :: y0[i] == old(y[i]);
    return 1;
  }

  lemma AllAdded(A: Compressed, x: seq<real>, y0: seq<real>, y: seq<real>)
    requires Added(A, x, y0, y, A.major, 0, 0)
    ensures |y| == |y0| && forall i: nat | i < |y| :: y[i] == y0[i] + Apply(A, ByColumn, x, i)
  {
    forall i: nat | i < |y|
      ensures Entry(A.idx, A.val, 0, 0, i) * Component(x, A.major) == 0.0
    {
      ZeroTimes(Entry(A.idx, A.val, 0, 0, i), Component(x, A.major));
    }
  }

  // ---------- the three together ----------

  /** The two solves agree on the same matrix, and gaxpy gives the right-hand side back. */
  method SolveBothAndMultiply(n: nat, b: array<real>, Lp: array<nat>, Li: array<nat>, Lx: array<real>,
                              rowPtr: array<nat>, colIdx: array<nat>, values: array<real>)
    returns (x: array<real>, z: array<real>, y: array<real>)
    requires b.Length == n
    requires var L, R := Compressed(n, n, Lp[..], Li[..], Lx[..]), Compressed(n, n, rowPtr[..], colIdx[..], values[..]);
             && LowerColumns(L) && LowerRows(R)
             && forall r: nat, c: nat | r < n && c < n :: Coefficient(L, ByColumn, r, c) == Coefficient(R, ByRow, r, c)
    ensures x[..] == z[..] && y[..] == b[..]
  {
    hide *;
    ghost var L, R := Compressed(n, n, Lp[..], Li[..], Lx[..]), Compressed(n, n, rowPtr[..], colIdx[..], values[..]);
    assert WellFormed(L) && Nonsingular(n, L, ByColumn) by { ColumnsNonsingular(L); NonsingularWellFormed(n, L, ByColumn); }
    x, z, y := new real[n], new real[n], new real[n](_ => 0.0);
    forall i | 0 <= i < n { x[i] := b[i]; }
    assert x[..] == b[..];
    assert Lp[..] == L.ptr && Li[..] == L.idx && Lx[..] == L.val;
    var r := Lsolve(n, Lp, Li, Lx, x);
    assert Lp[..] == L.ptr && Li[..] == L.idx && Lx[..] == L.val;
    assert rowPtr[..] == R.ptr && colIdx[..] == R.idx && values[..] == R.val;
    ForwardSolveRows(n, b, rowPtr, colIdx, values, z);
    assert Lp[..] == L.ptr && Li[..] == L.idx && Lx[..] == L.val;
    assert rowPtr[..] == R.ptr && colIdx[..] == R.idx && values[..] == R.val;
    UniqueSolution(n, L, ByColumn, x[..], R, ByRow, z[..], b[..]);
    r := Gaxpy(Lx, n, Lp, Li, x, y);
    SolvesMeans(n, L, x[..], b[..]);
    assert y[..] == b[..];
  }

  lemma NonsingularWellFormed(n: nat, M: Compressed, layout: Layout)
    requires Nonsingular(n, M, layout)
    ensures WellFormed(M)
  {
  }

  lemma SolvesMeans(n: nat, M: Compressed, x: seq<real>, b: seq<real>)
    requires Solves(n, M, ByColumn, x, b)
    ensures WellFormed(M) && |x| == |b| == n && forall i: nat | i < n :: Apply(M, ByColumn, x, i) == b[i]
  {
  }
}

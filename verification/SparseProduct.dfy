/**
 data/SpSpMUL_CSC/smSmMul.c: the product of two matrices in compressed columns, with a
 mark array (version 1) and with a zero test on the accumulator (version 2).
 */
module SparseProduct {
  import opened SparseVectors

  /** One update of the accumulator x: x[row] += value. */
  datatype Term = Term(row: nat, value: real)

  // ---------- what a stream of updates leaves behind ----------

  /** The accumulated value of row i. */
  ghost function Total(ts: seq<Term>, i: nat): real {
    if ts == [] then 0.0
    else
      var t := ts[|ts| - 1];
      Total(ts[..|ts| - 1], i) + if t.row == i then t.value else 0.0
  }

  /** The rows, in the order of their first update. */
  ghost function Rows(ts: seq<Term>): seq<nat> {
    if ts == [] then []
    else
      var rows, i := Rows(ts[..|ts| - 1]), ts[|ts| - 1].row;
      if i in rows then rows else rows + [i]
  }

  /** The value of x[i] after the updates ts, when the updates cs have not been cleared. */
  ghost function After(cs: seq<Term>, ts: seq<Term>, i: nat): real {
    Total(cs, i) + Total(ts, i)
  }

  /** The rows version 2 lists: every row that is updated while its value is zero. */
  ghost function ZeroTestedRows(cs: seq<Term>, ts: seq<Term>): seq<nat> {
    if ts == [] then []
    else
      var rows, i := ZeroTestedRows(cs, ts[..|ts| - 1]), ts[|ts| - 1].row;
      if After(cs, ts[..|ts| - 1], i) == 0.0 then rows + [i] else rows
  }

  /** No row is updated again while its accumulated value is zero. */
  ghost predicate NoCancellation(ts: seq<Term>) {
    forall k | 0 <= k < |ts| && ts[k].row in Rows(ts[..k]) :: Total(ts[..k], ts[k].row) != 0.0
  }

  lemma {:induction false} TotalOfUntouched(ts: seq<Term>, i: nat)
    requires i !in Rows(ts)
    ensures Total(ts, i) == 0.0
  {
    if ts != [] {
      TotalOfUntouched(ts[..|ts| - 1], i);
    }
  }

  lemma {:induction false} RowsDistinct(ts: seq<Term>)
    ensures forall p, q | 0 <= p < q < |Rows(ts)| :: Rows(ts)[p] != Rows(ts)[q]
    ensures forall i :: i in Rows(ts) <==> exists k :: 0 <= k < |ts| && ts[k].row == i
  {
    if ts != [] {
      var n := |ts| - 1;
      RowsDistinct(ts[..n]);
      forall i
        ensures i in Rows(ts) <==> exists k :: 0 <= k < |ts| && ts[k].row == i
      {
        if k :| 0 <= k < |ts| && ts[k].row == i {
          assert k < n ==> ts[..n][k].row == i;
        }
        if i in Rows(ts) && i != ts[n].row {
          var k :| 0 <= k < n && ts[..n][k].row == i;
          assert ts[k].row == i;
        }
      }
    }
  }

  /** A prefix of the stream lists a prefix of the rows. */
  lemma {:induction false} RowsGrow(cs: seq<Term>, ts: seq<Term>, n: nat)
    requires n <= |ts|
    ensures Rows(ts[..n]) <= Rows(ts) && ZeroTestedRows(cs, ts[..n]) <= ZeroTestedRows(cs, ts)
  {
    if n == |ts| {
      assert ts[..n] == ts;
    } else {
      var m := |ts| - 1;
      RowsGrow(cs, ts[..m], n);
      assert ts[..m][..n] == ts[..n];
    }
  }

  lemma {:induction false} FewerRows(ts: seq<Term>)
    ensures |Rows(ts)| <= |ZeroTestedRows([], ts)|
  {
    if ts != [] {
      var n := |ts| - 1;
      FewerRows(ts[..n]);
      if ts[n].row !in Rows(ts[..n]) {
        TotalOfUntouched(ts[..n], ts[n].row);
      }
    }
  }

  /** The zero test lists the same rows exactly when nothing cancels. */
  lemma {:induction false} ZeroTestExact(ts: seq<Term>)
    ensures ZeroTestedRows([], ts) == Rows(ts) <==> NoCancellation(ts)
  {
    hide NoCancellation, Rows, ZeroTestedRows, Total;
    if ts == [] {
      EmptyNeverCancels();
    } else {
      var n := |ts| - 1;
      var us, t := ts[..n], ts[n];
      assert ts == us + [t];
      ZeroTestExact(us);
      FewerRows(us);
      RowsSnoc(us, t);
      PrefixCancellation(ts, n);
      ZeroTestStep(us, t);
    }
  }

  lemma ZeroTestStep(us: seq<Term>, t: Term)
    requires |Rows(us)| <= |ZeroTestedRows([], us)|
    ensures Rows(us + [t]) == ZeroTestedRows([], us + [t]) <==>
              Rows(us) == ZeroTestedRows([], us) && (t.row in Rows(us) ==> Total(us, t.row) != 0.0)
  {
    hide Rows, ZeroTestedRows, Total;
    RowsSnoc(us, t);
    ZeroTestedSnoc([], us, t);
    EmptyTotal(t.row);
    if t.row !in Rows(us) {
      TotalOfUntouched(us, t.row);
    }
    var a, b, x := Rows(us), ZeroTestedRows([], us), [t.row];
    if a + x == b + x {
      assert (a + x)[..|a|] == a && (b + x)[..|b|] == b;
    }
    assert |b + x| == |b| + 1;
  }

  lemma EmptyNeverCancels()
    ensures NoCancellation([]) && Rows([]) == ZeroTestedRows([], []) == []
  {
  }

  lemma PrefixCancellation(ts: seq<Term>, n: nat)
    requires n + 1 == |ts|
    ensures NoCancellation(ts) <==>
              NoCancellation(ts[..n]) && (ts[n].row in Rows(ts[..n]) ==> Total(ts[..n], ts[n].row) != 0.0)
  {
    forall k | 0 <= k < n
      ensures ts[..n][k] == ts[k] && ts[..n][..k] == ts[..k]
    {
    }
    hide Rows, Total;
    if NoCancellation(ts) {
      forall k | 0 <= k < n && ts[..n][k].row in Rows(ts[..n][..k])
        ensures Total(ts[..n][..k], ts[..n][k].row) != 0.0
      {
        assert ts[k].row in Rows(ts[..k]);
      }
    }
    if NoCancellation(ts[..n]) && (ts[n].row in Rows(ts[..n]) ==> Total(ts[..n], ts[n].row) != 0.0) {
      forall k | 0 <= k < |ts| && ts[k].row in Rows(ts[..k])
        ensures Total(ts[..k], ts[k].row) != 0.0
      {
        if k < n {
          assert ts[..n][k].row in Rows(ts[..n][..k]);
        }
      }
    }
  }

  /** Positive updates never cancel. */
  lemma {:induction false} PositiveTotal(ts: seq<Term>, i: nat)
    requires forall k | 0 <= k < |ts| :: 0.0 < ts[k].value
    ensures i in Rows(ts) ==> 0.0 < Total(ts, i)
    ensures 0.0 <= Total(ts, i)
  {
    if ts != [] {
      PositiveTotal(ts[..|ts| - 1], i);
    }
  }

  lemma PositiveNeverCancels(ts: seq<Term>)
    requires forall k | 0 <= k < |ts| :: 0.0 < ts[k].value
    ensures NoCancellation(ts)
  {
    forall k | 0 <= k < |ts| && ts[k].row in Rows(ts[..k])
      ensures Total(ts[..k], ts[k].row) != 0.0
    {
      PositiveTotal(ts[..k], ts[k].row);
    }
  }

  // ---------- the streams of a matrix product ----------

  ghost predicate Conform(A: Compressed, B: Compressed) {
    WellFormed(A) && WellFormed(B) && B.minor == A.major
  }

  ghost function UpdateBy(A: Compressed, b: real, p: nat): Term
    requires p < |A.idx| && p < |A.val|
  {
    Term(A.idx[p], b * A.val[p])
  }

  /** b times the stored values at positions lo..hi of A. */
  ghost function Scaled(A: Compressed, b: real, lo: nat, hi: nat): (ts: seq<Term>)
    requires WellFormed(A) && lo <= hi <= |A.idx|
    ensures |ts| == hi - lo && forall k | 0 <= k < |ts| :: ts[k] == UpdateBy(A, b, lo + k)
    decreases hi
  {
    if lo == hi then [] else Scaled(A, b, lo, hi - 1) + [UpdateBy(A, b, hi - 1)]
  }

  /** The updates made by positions lo..hi of B, each with a whole column of A. */
  ghost function Updates(A: Compressed, B: Compressed, lo: nat, hi: nat): seq<Term>
    requires Conform(A, B) && lo <= hi <= |B.idx|
    decreases hi
  {
    if lo == hi then []
    else
      var k := B.idx[hi - 1];
      Updates(A, B, lo, hi - 1) + Scaled(A, B.val[hi - 1], A.ptr[k], A.ptr[k + 1])
  }

  /** All updates for column j of the product. */
  ghost function Stream(A: Compressed, B: Compressed, j: nat): seq<Term>
    requires Conform(A, B) && j < B.major
  {
    Updates(A, B, B.ptr[j], B.ptr[j + 1])
  }

  lemma {:induction false} TotalConcat(s: seq<Term>, u: seq<Term>, i: nat)
    ensures Total(s + u, i) == Total(s, i) + Total(u, i)
  {
    if u == [] {
      assert s + u == s;
    } else {
      var n := |u| - 1;
      TotalConcat(s, u[..n], i);
      assert (s + u)[..|s + u| - 1] == s + u[..n];
    }
  }

  lemma TotalSnoc(s: seq<Term>, t: Term, i: nat)
    ensures Total(s + [t], i) == Total(s, i) + if t.row == i then t.value else 0.0
  {
    assert (s + [t])[..|s + [t]| - 1] == s;
  }

  lemma ScaledSnoc(A: Compressed, b: real, lo: nat, hi: nat)
    requires WellFormed(A) && lo <= hi < |A.idx|
    ensures Scaled(A, b, lo, hi + 1) == Scaled(A, b, lo, hi) + [UpdateBy(A, b, hi)]
  {
    var ts, us := Scaled(A, b, lo, hi + 1), Scaled(A, b, lo, hi) + [UpdateBy(A, b, hi)];
    assert forall k | 0 <= k < hi + 1 - lo :: us[k] == ts[k];
  }

  lemma ScaleSum(b: real, e: real, v: real, hit: bool)
    ensures b * (e + if hit then v else 0.0) == b * e + if hit then b * v else 0.0
    ensures b * 0.0 == 0.0
  {
  }

  lemma {:induction false} ScaledTotal(A: Compressed, b: real, lo: nat, hi: nat, i: nat)
    requires WellFormed(A) && lo <= hi <= |A.idx|
    ensures Total(Scaled(A, b, lo, hi), i) == b * Entry(A.idx, A.val, lo, hi, i)
    decreases hi
  {
    hide Total, WellFormed;
    assert |A.idx| <= |A.val| by { Positions(A); }
    if lo == hi {
      EmptyTotal(i);
      ScaleSum(b, 0.0, 0.0, false);
    } else {
      ScaledTotal(A, b, lo, hi - 1, i);
      TotalSnoc(Scaled(A, b, lo, hi - 1), UpdateBy(A, b, hi - 1), i);
      ScaleSum(b, Entry(A.idx, A.val, lo, hi - 1, i), A.val[hi - 1], A.idx[hi - 1] == i);
      ScaledSnoc(A, b, lo, hi - 1);
    }
  }

  /** A[i][k], and 0 outside A. */
  ghost function Coefficient(A: Compressed, i: nat, k: nat): real
    requires WellFormed(A)
  {
    if k < A.major then At(A, k, i) else 0.0
  }

  lemma {:induction false} UpdatesTotal(A: Compressed, B: Compressed, lo: nat, hi: nat, i: nat, g: nat -> real)
    requires Conform(A, B) && lo <= hi <= |B.idx|
    requires forall k: nat :: g(k) == Coefficient(A, i, k)
    ensures Total(Updates(A, B, lo, hi), i) == Dot(B.idx, B.val, lo, hi, g)
    decreases hi
  {
    hide Total, WellFormed, Entry;
    if lo == hi {
      assert Total([], i) == 0.0 by { EmptyTotal(i); }
    } else {
      UpdatesTotal(A, B, lo, hi - 1, i, g);
      assert WellFormed(B) && WellFormed(A);
      Reachable(A, B, hi - 1);
      var k, b := B.idx[hi - 1], B.val[hi - 1];
      TotalConcat(Updates(A, B, lo, hi - 1), Scaled(A, b, A.ptr[k], A.ptr[k + 1]), i);
      ScaledTotal(A, b, A.ptr[k], A.ptr[k + 1], i);
    }
  }

  lemma EmptyTotal(i: nat)
    ensures Total([], i) == 0.0
  {
  }

  lemma Positions(A: Compressed)
    requires WellFormed(A)
    ensures |A.idx| <= |A.val|
  {
  }

  /** Position p of B names a column of A. */
  lemma Reachable(A: Compressed, B: Compressed, p: nat)
    requires Conform(A, B) && p < |B.idx|
    ensures p < |B.val| && |A.ptr| == A.major + 1
    ensures B.idx[p] < A.major && A.ptr[B.idx[p]] <= A.ptr[B.idx[p] + 1] <= |A.idx|
  {
  }

  /** (A * B)[i][j] */
  ghost function Product(A: Compressed, B: Compressed, i: nat, j: nat): real
    requires Conform(A, B) && j < B.major
  {
    Sum(A.major, (k: nat) => Coefficient(A, i, k) * Coefficient(B, k, j))
  }

  /** What accumulates in x[i] for column j is the entry of the matrix product. */
  lemma StreamIsProduct(A: Compressed, B: Compressed, i: nat, j: nat)
    requires Conform(A, B) && j < B.major
    ensures Total(Stream(A, B, j), i) == Product(A, B, i, j)
  {
    hide Sum, Entry, Total, Updates;
    var g := (k: nat) => Coefficient(A, i, k);
    var f := (k: nat) => Coefficient(A, i, k) * Coefficient(B, k, j);
    UpdatesTotal(A, B, B.ptr[j], B.ptr[j + 1], i, g);
    forall k: nat | k < A.major
      ensures f(k) == Entry(B.idx, B.val, B.ptr[j], B.ptr[j + 1], k) * g(k)
    {
      assert Coefficient(B, k, j) == At(B, j, k);
    }
    DotIsDense(A.major, B.idx, B.val, B.ptr[j], B.ptr[j + 1], g, f);
    SumExtensional(A.major, f, (k: nat) => Coefficient(A, i, k) * Coefficient(B, k, j));
  }

  // ---------- the stored result ----------

  /** The updates of rows from n on, which clearing the first n entries of x leaves alone. */
  ghost function Uncleared(ts: seq<Term>, n: nat): seq<Term> {
    if ts == [] then []
    else
      var t := ts[|ts| - 1];
      Uncleared(ts[..|ts| - 1], n) + if n <= t.row then [t] else []
  }

  /** What is still in x when version 2 has cleared it for column j: one entry per column of B is cleared. */
  ghost function Carried(A: Compressed, B: Compressed, j: nat): seq<Term>
    requires Conform(A, B) && j <= B.major
  {
    if j == 0 then [] else Uncleared(Carried(A, B, j - 1) + Stream(A, B, j - 1), B.major)
  }

  /** What the totals of column j start from; version 1 overwrites at the first update. */
  ghost function Before(A: Compressed, B: Compressed, zeroTest: bool, j: nat): seq<Term>
    requires Conform(A, B) && j < B.major
  {
    if zeroTest then Carried(A, B, j) else []
  }

  ghost function Listed(A: Compressed, B: Compressed, zeroTest: bool, j: nat): seq<nat>
    requires Conform(A, B) && j < B.major
  {
    if zeroTest then ZeroTestedRows(Carried(A, B, j), Stream(A, B, j)) else Rows(Stream(A, B, j))
  }

  lemma {:induction false} UnclearedTotal(ts: seq<Term>, n: nat, i: nat)
    ensures Total(Uncleared(ts, n), i) == if n <= i then Total(ts, i) else 0.0
  {
    if ts != [] {
      var us, t := ts[..|ts| - 1], ts[|ts| - 1];
      UnclearedTotal(us, n, i);
      if n <= t.row {
        TotalSnoc(Uncleared(us, n), t, i);
      } else {
        assert Uncleared(ts, n) == Uncleared(us, n);
      }
    }
  }

  lemma {:induction false} NothingUncleared(ts: seq<Term>, n: nat)
    requires forall k | 0 <= k < |ts| :: ts[k].row < n
    ensures Uncleared(ts, n) == []
  {
    if ts != [] {
      NothingUncleared(ts[..|ts| - 1], n);
    }
  }

  /** With no more rows than columns everything is cleared. */
  lemma {:induction false} AllCleared(A: Compressed, B: Compressed, j: nat)
    requires Conform(A, B) && j <= B.major && A.minor <= B.major
    ensures Carried(A, B, j) == []
  {
    hide Conform, WellFormed, Updates, Uncleared;
    if j != 0 {
      AllCleared(A, B, j - 1);
      ColumnBounds(A, B, j - 1);
      UpdatesInRange(A, B, B.ptr[j - 1], B.ptr[j]);
      assert [] + Stream(A, B, j - 1) == Stream(A, B, j - 1);
      NothingUncleared(Stream(A, B, j - 1), B.major);
    }
  }

  /** From one column to the next: the entries behind the cleared ones keep their sums. */
  lemma CarriedNext(A: Compressed, B: Compressed, j: nat, i: nat)
    requires Conform(A, B) && j < B.major
    ensures Total(Carried(A, B, j + 1), i) == if B.major <= i then After(Carried(A, B, j), Stream(A, B, j), i) else 0.0
  {
    hide Conform, WellFormed, Stream, Total, Uncleared;
    UnclearedTotal(Carried(A, B, j) + Stream(A, B, j), B.major, i);
    TotalConcat(Carried(A, B, j), Stream(A, B, j), i);
  }

  /** The number of entries listed for the columns before j. */
  ghost function Start(A: Compressed, B: Compressed, zeroTest: bool, j: nat): nat
    requires Conform(A, B) && j <= B.major
  {
    if j == 0 then 0 else Start(A, B, zeroTest, j - 1) + |Listed(A, B, zeroTest, j - 1)|
  }

  lemma {:induction false} StartMonotone(A: Compressed, B: Compressed, zeroTest: bool, j: nat, k: nat)
    requires Conform(A, B) && j <= k <= B.major
    ensures Start(A, B, zeroTest, j) <= Start(A, B, zeroTest, k)
  {
    hide WellFormed, Listed, Stream;
    if j < k {
      StartMonotone(A, B, zeroTest, j, k - 1);
    }
  }

  /** Column j of the result: its rows in order, each with its accumulated value. */
  ghost predicate ColumnStored(A: Compressed, B: Compressed, zeroTest: bool, j: nat, ci: seq<nat>, cx: seq<real>)
    requires Conform(A, B) && j < B.major
  {
    var lo, hi := Start(A, B, zeroTest, j), Start(A, B, zeroTest, j + 1);
    && hi <= |ci| && hi <= |cx| && ci[lo..hi] == Listed(A, B, zeroTest, j)
    && forall p | lo <= p < hi :: cx[p] == After(Before(A, B, zeroTest, j), Stream(A, B, j), ci[p])
  }

  ghost predicate ProductStored(A: Compressed, B: Compressed, zeroTest: bool, cp: seq<nat>, ci: seq<nat>, cx: seq<real>) {
    && Conform(A, B) && |cp| == B.major + 1
    && Start(A, B, zeroTest, B.major) <= |ci| && Start(A, B, zeroTest, B.major) <= |cx|
    && (forall j | 0 <= j <= B.major :: cp[j] == Start(A, B, zeroTest, j))
    && forall j: nat | j < B.major :: ColumnStored(A, B, zeroTest, j, ci, cx)
  }

  // ---------- prefixes of a stream ----------

  /** The updates done when position p of B is being scaled and positions before q of A are done. */
  ghost function Done(A: Compressed, B: Compressed, j: nat, p: nat, q: nat): seq<Term>
    requires Conform(A, B) && j < B.major && B.ptr[j] <= p < |B.idx| && A.ptr[B.idx[p]] <= q <= |A.idx|
  {
    Updates(A, B, B.ptr[j], p) + Scaled(A, B.val[p], A.ptr[B.idx[p]], q)
  }

  lemma {:induction false} UpdatesGrow(A: Compressed, B: Compressed, lo: nat, p: nat, hi: nat)
    requires Conform(A, B) && lo <= p <= hi <= |B.idx|
    ensures Updates(A, B, lo, p) <= Updates(A, B, lo, hi)
    decreases hi
  {
    hide Conform, WellFormed;
    if p < hi {
      UpdatesGrow(A, B, lo, p, hi - 1);
    }
  }

  lemma {:induction false} ScaledGrow(A: Compressed, b: real, lo: nat, q: nat, hi: nat)
    requires WellFormed(A) && lo <= q <= hi <= |A.idx|
    ensures Scaled(A, b, lo, q) <= Scaled(A, b, lo, hi)
  {
  }

  /** One step of the inner loop does the next update of the stream. */
  lemma DoneStep(A: Compressed, B: Compressed, j: nat, p: nat, q: nat)
    requires Conform(A, B) && j < B.major && B.ptr[j] <= p < B.ptr[j + 1] && A.ptr[B.idx[p]] <= q < A.ptr[B.idx[p] + 1]
    ensures q < |A.idx| <= |A.val| && A.idx[q] < A.minor
    ensures Done(A, B, j, p, q + 1) == Done(A, B, j, p, q) + [UpdateBy(A, B.val[p], q)]
    ensures Done(A, B, j, p, q + 1) <= Stream(A, B, j)
  {
    hide Updates, Scaled;
    var k, b := B.idx[p], B.val[p];
    ScaledSnoc(A, b, A.ptr[k], q);
    UpdatesGrow(A, B, B.ptr[j], p + 1, B.ptr[j + 1]);
    ScaledGrow(A, b, A.ptr[k], q + 1, A.ptr[k + 1]);
    UpdatesSnoc(A, B, B.ptr[j], p);
    PrefixConcat(Updates(A, B, B.ptr[j], p), Scaled(A, b, A.ptr[k], q + 1), Scaled(A, b, A.ptr[k], A.ptr[k + 1]));
    AppendAssociates(Updates(A, B, B.ptr[j], p), Scaled(A, b, A.ptr[k], q), [UpdateBy(A, b, q)]);
  }

  lemma AppendAssociates(s: seq<Term>, t: seq<Term>, u: seq<Term>)
    ensures s + (t + u) == s + t + u
  {
  }

  lemma PrefixConcat(s: seq<Term>, t: seq<Term>, u: seq<Term>)
    requires t <= u
    ensures s + t <= s + u
  {
  }

  lemma UpdatesSnoc(A: Compressed, B: Compressed, lo: nat, p: nat)
    requires Conform(A, B) && lo <= p < |B.idx|
    ensures Updates(A, B, lo, p + 1) == Updates(A, B, lo, p) + Scaled(A, B.val[p], A.ptr[B.idx[p]], A.ptr[B.idx[p] + 1])
  {
  }

  // ---------- version 1: marks ----------

  /** The entries ci[from..nz] list the rows. */
  ghost predicate Lists(ci: seq<nat>, from: nat, nz: nat, rows: seq<nat>) {
    nz == from + |rows| && nz <= |ci| && ci[from..nz] == rows
  }

  /** After the updates ts of column j: w marks their rows, and x holds the totals of marked rows. */
  ghost predicate Marked(ts: seq<Term>, j: nat, m: nat, w: seq<nat>, x: seq<real>) {
    && m <= |w| && m <= |x|
    && (forall i: nat | i < m :: w[i] <= j + 1 && (w[i] == j + 1 <==> i in Rows(ts)))
    && (forall i: nat | i < m && i in Rows(ts) :: x[i] == Total(ts, i))
  }

  lemma RowsSnoc(ts: seq<Term>, t: Term)
    ensures Rows(ts + [t]) == if t.row in Rows(ts) then Rows(ts) else Rows(ts) + [t.row]
  {
    assert (ts + [t])[..|ts|] == ts;
  }

  lemma ZeroTestedSnoc(cs: seq<Term>, ts: seq<Term>, t: Term)
    ensures ZeroTestedRows(cs, ts + [t]) == if After(cs, ts, t.row) == 0.0 then ZeroTestedRows(cs, ts) + [t.row] else ZeroTestedRows(cs, ts)
  {
    assert (ts + [t])[..|ts|] == ts;
  }

  lemma FirstVisit(ts: seq<Term>, t: Term, j: nat, m: nat, w: seq<nat>, x: seq<real>)
    requires Marked(ts, j, m, w, x) && t.row < m && w[t.row] != j + 1
    ensures t.row !in Rows(ts)
    ensures Marked(ts + [t], j, m, w[t.row := j + 1], x[t.row := t.value])
  {
    hide Rows, Total;
    RowsSnoc(ts, t);
    TotalOfUntouched(ts, t.row);
    forall i: nat | i < m
      ensures Total(ts + [t], i) == if i == t.row then t.value else Total(ts, i)
    {
      TotalSnoc(ts, t, i);
    }
  }

  lemma Revisit(ts: seq<Term>, t: Term, j: nat, m: nat, w: seq<nat>, x: seq<real>)
    requires Marked(ts, j, m, w, x) && t.row < m && j + 1 <= w[t.row]
    ensures t.row in Rows(ts)
    ensures Marked(ts + [t], j, m, w, x[t.row := x[t.row] + t.value])
  {
    hide Rows, Total;
    RowsSnoc(ts, t);
    forall i: nat | i < m
      ensures Total(ts + [t], i) == if i == t.row then Total(ts, i) + t.value else Total(ts, i)
    {
      TotalSnoc(ts, t, i);
    }
  }

  lemma ListMore(ci: seq<nat>, from: nat, nz: nat, rows: seq<nat>, i: nat)
    requires Lists(ci, from, nz, rows) && nz < |ci|
    ensures Lists(ci[nz := i], from, nz + 1, rows + [i]) && ci[nz := i][..from] == ci[..from]
  {
  }

  /** A row that is still missing from the list leaves room for itself. */
  lemma RoomLeft(cs: seq<Term>, ts: seq<Term>, t: Term, all: seq<Term>)
    requires ts + [t] <= all
    ensures t.row !in Rows(ts) ==> |Rows(ts)| < |Rows(all)|
    ensures After(cs, ts, t.row) == 0.0 ==> |ZeroTestedRows(cs, ts)| < |ZeroTestedRows(cs, all)|
  {
    hide Rows, ZeroTestedRows, After;
    RowsSnoc(ts, t);
    ZeroTestedSnoc(cs, ts, t);
    RowsGrow(cs, all, |ts| + 1);
    assert all[..|ts| + 1] == ts + [t];
  }

  lemma DoneBounds(A: Compressed, B: Compressed, j: nat, p: nat)
    requires Conform(A, B) && j < B.major && B.ptr[j] <= p < B.ptr[j + 1]
    ensures p < |B.idx| <= |B.val| && B.idx[p] < A.major && |A.ptr| == A.major + 1
    ensures A.ptr[B.idx[p]] <= A.ptr[B.idx[p] + 1] <= |A.idx|
    ensures Done(A, B, j, p, A.ptr[B.idx[p]]) == Updates(A, B, B.ptr[j], p)
    ensures Done(A, B, j, p, A.ptr[B.idx[p] + 1]) == Updates(A, B, B.ptr[j], p + 1)
  {
    hide Updates;
    UpdatesSnoc(A, B, B.ptr[j], p);
    assert Scaled(A, B.val[p], A.ptr[B.idx[p]], A.ptr[B.idx[p]]) == [];
  }

  lemma ColumnBounds(A: Compressed, B: Compressed, j: nat)
    requires Conform(A, B) && j < B.major
    ensures |B.ptr| == B.major + 1 && B.ptr[j] <= B.ptr[j + 1] <= |B.idx|
    ensures Updates(A, B, B.ptr[j], B.ptr[j]) == []
    ensures Updates(A, B, B.ptr[j], B.ptr[j + 1]) == Stream(A, B, j)
  {
  }

  lemma UpdateValue(A: Compressed, b: real, p: nat, product: real)
    requires p < |A.idx| && p < |A.val| && product == b * A.val[p]
    ensures UpdateBy(A, b, p) == Term(A.idx[p], product)
  {
  }

  lemma ListLength(ci: seq<nat>, from: nat, nz: nat, rows: seq<nat>)
    requires Lists(ci, from, nz, rows)
    ensures nz == from + |rows|
  {
  }

  /** The state of version 1 after the updates ts of column j. */
  ghost predicate Listing(ts: seq<Term>, j: nat, m: nat, from: nat, nz: nat, ci: seq<nat>, w: seq<nat>, x: seq<real>) {
    Lists(ci, from, nz, Rows(ts)) && Marked(ts, j, m, w, x)
  }

  lemma VisitStep(ts: seq<Term>, t: Term, all: seq<Term>, j: nat, m: nat, from: nat, nz: nat, ci: seq<nat>, w: seq<nat>, x: seq<real>)
    requires Listing(ts, j, m, from, nz, ci, w, x) && ts + [t] <= all && t.row < m && from + |Rows(all)| <= |ci|
    ensures m <= |w| && m <= |x|
    ensures w[t.row] < j + 1 ==>
              && from <= nz < |ci| && ci[nz := t.row][..from] == ci[..from]
              && Listing(ts + [t], j, m, from, nz + 1, ci[nz := t.row], w[t.row := j + 1], x[t.row := t.value])
    ensures j + 1 <= w[t.row] ==> Listing(ts + [t], j, m, from, nz, ci, w, x[t.row := x[t.row] + t.value])
  {
    hide Rows, Total;
    RoomLeft([], ts, t, all);
    RowsSnoc(ts, t);
    if w[t.row] < j + 1 {
      FirstVisit(ts, t, j, m, w, x);
      ListMore(ci, from, nz, Rows(ts), t.row);
    } else {
      Revisit(ts, t, j, m, w, x);
    }
  }

  /** The two update loops for column j. */
  method ListColumn(A: Compressed, B: Compressed, j: nat, Ci: array<nat>, w: array<nat>, x: array<real>, from: nat) returns (nz: nat)
    requires Conform(A, B) && j < B.major
    requires A.minor <= w.Length && A.minor <= x.Length && Ci != w
    requires forall i | 0 <= i < A.minor :: w[i] <= j
    requires from + |Rows(Stream(A, B, j))| <= Ci.Length
    modifies Ci, w, x
    ensures Lists(Ci[..], from, nz, Rows(Stream(A, B, j))) && Ci[..from] == old(Ci[..from])
    ensures Marked(Stream(A, B, j), j, A.minor, w[..], x[..])
  {
    hide *;
    ColumnBounds(A, B, j);
    nz := from;
    StartListing(j, A.minor, from, Ci[..], w[..], x[..]);
    for p := B.ptr[j] to B.ptr[j + 1]
      invariant Listing(Updates(A, B, B.ptr[j], p), j, A.minor, from, nz, Ci[..], w[..], x[..])
      invariant Ci[..from] == old(Ci[..from])
    {
      DoneBounds(A, B, j, p);
      for q := A.ptr[B.idx[p]] to A.ptr[B.idx[p] + 1]
        invariant Listing(Done(A, B, j, p, q), j, A.minor, from, nz, Ci[..], w[..], x[..])
        invariant Ci[..from] == old(Ci[..from])
      {
        DoneStep(A, B, j, p, q);
        ghost var t := UpdateBy(A, B.val[p], q);
        var product := B.val[p] * A.val[q];
        UpdateValue(A, B.val[p], q, product);
        ghost var ci', w': seq<nat>, x' := Ci[..], w[..], x[..];
        VisitStep(Done(A, B, j, p, q), t, Stream(A, B, j), j, A.minor, from, nz, ci', w', x');
        if w[A.idx[q]] < j + 1 {
          w[A.idx[q]] := j + 1;
          Ci[nz] := A.idx[q];
          assert Ci[..] == ci'[nz := t.row];
          nz := nz + 1;
          x[A.idx[q]] := product;
          assert w[..] == w'[t.row := j + 1] && x[..] == x'[t.row := t.value];
        } else {
          x[A.idx[q]] := x[A.idx[q]] + product;
          assert x[..] == x'[t.row := x'[t.row] + t.value];
        }
      }
    }
    ListingMeans(Stream(A, B, j), j, A.minor, from, nz, Ci[..], w[..], x[..]);
  }

  lemma StartListing(j: nat, m: nat, from: nat, ci: seq<nat>, w: seq<nat>, x: seq<real>)
    requires m <= |w| && m <= |x| && from <= |ci| && forall i | 0 <= i < m :: w[i] <= j
    ensures Listing([], j, m, from, from, ci, w, x)
  {
  }

  lemma ListingMeans(ts: seq<Term>, j: nat, m: nat, from: nat, nz: nat, ci: seq<nat>, w: seq<nat>, x: seq<real>)
    requires Listing(ts, j, m, from, nz, ci, w, x)
    ensures Lists(ci, from, nz, Rows(ts)) && Marked(ts, j, m, w, x)
  {
  }

  // ---------- version 2: the zero test ----------

  ghost predicate Accumulated(cs: seq<Term>, ts: seq<Term>, m: nat, x: seq<real>) {
    m <= |x| && forall i: nat | i < m :: x[i] == After(cs, ts, i)
  }

  lemma Accumulate(cs: seq<Term>, ts: seq<Term>, t: Term, m: nat, x: seq<real>)
    requires Accumulated(cs, ts, m, x) && t.row < m
    ensures x[t.row] == After(cs, ts, t.row)
    ensures Accumulated(cs, ts + [t], m, x[t.row := x[t.row] + t.value])
  {
    hide Total;
    forall i: nat | i < m
      ensures After(cs, ts + [t], i) == if i == t.row then After(cs, ts, i) + t.value else After(cs, ts, i)
    {
      TotalSnoc(ts, t, i);
    }
  }

  /** The state of version 2 after the updates ts of a column. */
  ghost predicate Summing(cs: seq<Term>, ts: seq<Term>, m: nat, from: nat, nz: nat, ci: seq<nat>, x: seq<real>) {
    Lists(ci, from, nz, ZeroTestedRows(cs, ts)) && Accumulated(cs, ts, m, x)
  }

  lemma SumStep(cs: seq<Term>, ts: seq<Term>, t: Term, all: seq<Term>, m: nat, from: nat, nz: nat, ci: seq<nat>, x: seq<real>)
    requires Summing(cs, ts, m, from, nz, ci, x) && ts + [t] <= all && t.row < m && from + |ZeroTestedRows(cs, all)| <= |ci|
    ensures m <= |x|
    ensures x[t.row] == 0.0 ==>
              && from <= nz < |ci| && ci[nz := t.row][..from] == ci[..from]
              && Summing(cs, ts + [t], m, from, nz + 1, ci[nz := t.row], x[t.row := x[t.row] + t.value])
    ensures x[t.row] != 0.0 ==> Summing(cs, ts + [t], m, from, nz, ci, x[t.row := x[t.row] + t.value])
  {
    hide ZeroTestedRows, After;
    RoomLeft(cs, ts, t, all);
    ZeroTestedSnoc(cs, ts, t);
    Accumulate(cs, ts, t, m, x);
    if x[t.row] == 0.0 {
      ListMore(ci, from, nz, ZeroTestedRows(cs, ts), t.row);
    }
  }

  /** The update loops of version 2 for column j, after x has been cleared. */
  method SumColumn(A: Compressed, B: Compressed, j: nat, Ci: array<nat>, x: array<real>, from: nat) returns (nz: nat)
    requires Conform(A, B) && j < B.major
    requires Accumulated(Carried(A, B, j), [], A.minor, x[..])
    requires from + |ZeroTestedRows(Carried(A, B, j), Stream(A, B, j))| <= Ci.Length
    modifies Ci, x
    ensures Lists(Ci[..], from, nz, ZeroTestedRows(Carried(A, B, j), Stream(A, B, j))) && Ci[..from] == old(Ci[..from])
    ensures Accumulated(Carried(A, B, j), Stream(A, B, j), A.minor, x[..])
  {
    hide *;
    ColumnBounds(A, B, j);
    nz := from;
    ghost var cs := Carried(A, B, j);
    StartSumming(cs, A.minor, from, Ci[..], x[..]);
    for p := B.ptr[j] to B.ptr[j + 1]
      invariant Summing(cs, Updates(A, B, B.ptr[j], p), A.minor, from, nz, Ci[..], x[..])
      invariant Ci[..from] == old(Ci[..from])
    {
      DoneBounds(A, B, j, p);
      for q := A.ptr[B.idx[p]] to A.ptr[B.idx[p] + 1]
        invariant Summing(cs, Done(A, B, j, p, q), A.minor, from, nz, Ci[..], x[..])
        invariant Ci[..from] == old(Ci[..from])
      {
        DoneStep(A, B, j, p, q);
        ghost var t := UpdateBy(A, B.val[p], q);
        var product := B.val[p] * A.val[q];
        UpdateValue(A, B.val[p], q, product);
        ghost var ci', x' := Ci[..], x[..];
        SumStep(cs, Done(A, B, j, p, q), t, Stream(A, B, j), A.minor, from, nz, ci', x');
        if x[A.idx[q]] == 0.0 {
          Ci[nz] := A.idx[q];
          assert Ci[..] == ci'[nz := t.row];
          nz := nz + 1;
        }
        x[A.idx[q]] := x[A.idx[q]] + product;
        assert x[..] == x'[t.row := x'[t.row] + t.value];
      }
    }
    SummingMeans(cs, Stream(A, B, j), A.minor, from, nz, Ci[..], x[..]);
  }

  lemma StartSumming(cs: seq<Term>, m: nat, from: nat, ci: seq<nat>, x: seq<real>)
    requires from <= |ci| && Accumulated(cs, [], m, x)
    ensures Summing(cs, [], m, from, from, ci, x)
  {
  }

  lemma SummingMeans(cs: seq<Term>, ts: seq<Term>, m: nat, from: nat, nz: nat, ci: seq<nat>, x: seq<real>)
    requires Summing(cs, ts, m, from, nz, ci, x)
    ensures Lists(ci, from, nz, ZeroTestedRows(cs, ts)) && Accumulated(cs, ts, m, x)
  {
  }

  // ---------- whole products ----------

  lemma {:induction false} UpdatesInRange(A: Compressed, B: Compressed, lo: nat, hi: nat)
    requires Conform(A, B) && lo <= hi <= |B.idx|
    ensures forall k | 0 <= k < |Updates(A, B, lo, hi)| :: Updates(A, B, lo, hi)[k].row < A.minor
    decreases hi
  {
    if lo != hi {
      UpdatesInRange(A, B, lo, hi - 1);
      UpdatesSnoc(A, B, lo, hi - 1);
    }
  }

  lemma {:induction false} ListedInRange(cs: seq<Term>, ts: seq<Term>, m: nat)
    requires forall k | 0 <= k < |ts| :: ts[k].row < m
    ensures forall i | i in Rows(ts) || i in ZeroTestedRows(cs, ts) :: i < m
  {
    hide After;
    if ts != [] {
      var us, t := ts[..|ts| - 1], ts[|ts| - 1];
      assert ts == us + [t];
      ListedInRange(cs, us, m);
      RowsSnoc(us, t);
      ZeroTestedSnoc(cs, us, t);
      hide Rows, ZeroTestedRows;
    }
  }

  ghost predicate StoredUpTo(A: Compressed, B: Compressed, zeroTest: bool, n: nat, cp: seq<nat>, ci: seq<nat>, cx: seq<real>) {
    && Conform(A, B) && n <= B.major && n <= |cp|
    && (forall j: nat | j < n :: cp[j] == Start(A, B, zeroTest, j))
    && (forall j: nat | j < n :: ColumnStored(A, B, zeroTest, j, ci, cx))
  }

  lemma ColumnKept(A: Compressed, B: Compressed, zeroTest: bool, j: nat, n: nat, ci: seq<nat>, cx: seq<real>, ci': seq<nat>, cx': seq<real>)
    requires Conform(A, B) && j < n <= B.major && ColumnStored(A, B, zeroTest, j, ci, cx)
    requires var m := Start(A, B, zeroTest, n); m <= |ci| == |ci'| && m <= |cx| == |cx'| && ci[..m] == ci'[..m] && cx[..m] == cx'[..m]
    ensures ColumnStored(A, B, zeroTest, j, ci', cx')
  {
    hide Conform, WellFormed, Start, Stream, Listed, Before, After;
    StartMonotone(A, B, zeroTest, j, j + 1);
    StartMonotone(A, B, zeroTest, j + 1, n);
    var lo, hi, m := Start(A, B, zeroTest, j), Start(A, B, zeroTest, j + 1), Start(A, B, zeroTest, n);
    SliceOfPrefix(ci, m, lo, hi);
    SliceOfPrefix(ci', m, lo, hi);
    forall p | lo <= p < hi
      ensures ci'[p] == ci[p] && cx'[p] == cx[p]
    {
      assert ci'[..m][p] == ci[..m][p] && cx'[..m][p] == cx[..m][p];
    }
  }

  lemma StoreNext(A: Compressed, B: Compressed, zeroTest: bool, n: nat, cp: seq<nat>, ci: seq<nat>, cx: seq<real>, ci': seq<nat>, cx': seq<real>)
    requires StoredUpTo(A, B, zeroTest, n, cp, ci, cx) && n < B.major && n < |cp|
    requires var m := Start(A, B, zeroTest, n); m <= |ci| == |ci'| && m <= |cx| == |cx'| && ci[..m] == ci'[..m] && cx[..m] == cx'[..m]
    requires ColumnStored(A, B, zeroTest, n, ci', cx')
    ensures StoredUpTo(A, B, zeroTest, n + 1, cp[n := Start(A, B, zeroTest, n)], ci', cx')
  {
    hide Conform, WellFormed, Start, ColumnStored;
    forall j: nat | j < n
      ensures ColumnStored(A, B, zeroTest, j, ci', cx')
    {
      ColumnKept(A, B, zeroTest, j, n, ci, cx, ci', cx');
    }
  }

  /** The copy loop: Cx[p] = x[Ci[p]]. */
  method Gather(Ci: array<nat>, Cx: array<real>, x: array<real>, from: nat, nz: nat)
    requires from <= nz <= Ci.Length && nz <= Cx.Length && Cx != x
    requires forall p | from <= p < nz :: Ci[p] < x.Length
    modifies Cx
    ensures forall p | from <= p < nz :: Cx[p] == x[Ci[p]]
    ensures Cx[..from] == old(Cx[..from])
  {
    for p := from to nz
      invariant forall k | from <= k < p :: Cx[k] == x[Ci[k]]
      invariant Cx[..from] == old(Cx[..from])
    {
      Cx[p] := x[Ci[p]];
    }
  }

  /** Listing and gathering column j stores it. */
  lemma ColumnDone(A: Compressed, B: Compressed, zeroTest: bool, j: nat, nz: nat, ci: seq<nat>, cx: seq<real>, x: seq<real>)
    requires Conform(A, B) && j < B.major && Lists(ci, Start(A, B, zeroTest, j), nz, Listed(A, B, zeroTest, j)) && nz <= |cx|
    requires forall p | Start(A, B, zeroTest, j) <= p < nz :: ci[p] < |x| && cx[p] == x[ci[p]]
    requires forall i: nat | i < |x| && i in Listed(A, B, zeroTest, j) :: x[i] == After(Before(A, B, zeroTest, j), Stream(A, B, j), i)
    ensures nz == Start(A, B, zeroTest, j + 1) && ColumnStored(A, B, zeroTest, j, ci, cx)
  {
    hide Conform, WellFormed, Stream, Listed, Before, After;
    var lo, rows := Start(A, B, zeroTest, j), Listed(A, B, zeroTest, j);
    forall p | lo <= p < nz
      ensures cx[p] == After(Before(A, B, zeroTest, j), Stream(A, B, j), ci[p])
    {
      assert ci[p] == ci[lo..nz][p - lo];
      assert ci[p] in rows;
    }
  }

  /** What the marks say about the rows of a column. */
  lemma MarkedRows(A: Compressed, B: Compressed, j: nat, w: seq<nat>, x: seq<real>, ci: seq<nat>, from: nat, nz: nat)
    requires Conform(A, B) && j < B.major && Marked(Stream(A, B, j), j, A.minor, w, x)
    requires Lists(ci, from, nz, Rows(Stream(A, B, j)))
    ensures nz <= |ci| && A.minor <= |w| && A.minor <= |x|
    ensures forall i | 0 <= i < A.minor :: w[i] <= j + 1
    ensures forall p | from <= p < nz :: ci[p] < A.minor
    ensures forall i: nat | i < |x| && i in Rows(Stream(A, B, j)) :: x[i] == After(Before(A, B, false, j), Stream(A, B, j), i)
  {
    hide Conform, WellFormed, Updates, Rows;
    ColumnBounds(A, B, j);
    UpdatesInRange(A, B, B.ptr[j], B.ptr[j + 1]);
    ListedInRange([], Stream(A, B, j), A.minor);
    forall p | from <= p < nz
      ensures ci[p] < A.minor
    {
      assert ci[p] == ci[from..nz][p - from];
      assert ci[p] in Rows(Stream(A, B, j));
    }
  }

  lemma SumRows(A: Compressed, B: Compressed, j: nat, x: seq<real>, ci: seq<nat>, from: nat, nz: nat)
    requires Conform(A, B) && j < B.major && Accumulated(Carried(A, B, j), Stream(A, B, j), A.minor, x)
    requires Lists(ci, from, nz, Listed(A, B, true, j))
    ensures nz <= |ci| && A.minor <= |x|
    ensures forall p | from <= p < nz :: ci[p] < A.minor
    ensures forall i: nat | i < |x| && i in Listed(A, B, true, j) :: x[i] == After(Before(A, B, true, j), Stream(A, B, j), i)
  {
    hide Conform, WellFormed, Updates, ZeroTestedRows, Carried, After;
    ColumnBounds(A, B, j);
    UpdatesInRange(A, B, B.ptr[j], B.ptr[j + 1]);
    ListedInRange(Carried(A, B, j), Stream(A, B, j), A.minor);
    forall p | from <= p < nz
      ensures ci[p] < A.minor
    {
      assert ci[p] == ci[from..nz][p - from];
      assert ci[p] in Listed(A, B, true, j);
    }
  }

  lemma StartStep(A: Compressed, B: Compressed, zeroTest: bool, j: nat)
    requires Conform(A, B) && j < B.major
    ensures Start(A, B, zeroTest, j + 1) == Start(A, B, zeroTest, j) + |Listed(A, B, zeroTest, j)|
  {
    hide Conform, WellFormed, Stream, Listed;
  }

  lemma Capacity(A: Compressed, B: Compressed, zeroTest: bool, j: nat, capacity: nat)
    requires Conform(A, B) && j < B.major && Start(A, B, zeroTest, B.major) <= capacity
    ensures Start(A, B, zeroTest, j) + |Listed(A, B, zeroTest, j)| <= capacity
  {
    hide *;
    StartStep(A, B, zeroTest, j);
    StartMonotone(A, B, zeroTest, j + 1, B.major);
  }

  lemma StoreNone(A: Compressed, B: Compressed, zeroTest: bool, cp: seq<nat>, ci: seq<nat>, cx: seq<real>)
    requires Conform(A, B)
    ensures Start(A, B, zeroTest, 0) == 0 && StoredUpTo(A, B, zeroTest, 0, cp, ci, cx)
  {
  }

  lemma StoreAll(A: Compressed, B: Compressed, zeroTest: bool, cp: seq<nat>, ci: seq<nat>, cx: seq<real>)
    requires StoredUpTo(A, B, zeroTest, B.major, cp, ci, cx) && |cp| == B.major + 1
    requires Start(A, B, zeroTest, B.major) <= |ci| && Start(A, B, zeroTest, B.major) <= |cx|
    ensures ProductStored(A, B, zeroTest, cp[B.major := Start(A, B, zeroTest, B.major)], ci, cx)
  {
    hide Start, ColumnStored;
  }

  /** Version 1: the marks in w are never cleared between columns. */
  method Multiply(A: Compressed, B: Compressed, Cp: array<nat>, Ci: array<nat>, Cx: array<real>, w: array<nat>, x: array<real>)
    requires Conform(A, B) && Cp.Length == B.major + 1
    requires A.minor <= w.Length && A.minor <= x.Length && Ci != w && Cp != Ci && Cp != w && Cx != x
    requires forall i | 0 <= i < A.minor :: w[i] == 0
    requires Start(A, B, false, B.major) <= Ci.Length && Start(A, B, false, B.major) <= Cx.Length
    modifies Cp, Ci, Cx, w, x
    ensures ProductStored(A, B, false, Cp[..], Ci[..], Cx[..])
  {
    hide *;
    var nz := 0;
    StoreNone(A, B, false, Cp[..], Ci[..], Cx[..]);
    for j := 0 to B.major
      invariant nz == Start(A, B, false, j)
      invariant StoredUpTo(A, B, false, j, Cp[..], Ci[..], Cx[..])
      invariant forall i | 0 <= i < A.minor :: w[i] <= j
    {
      ghost var cp: seq<nat>, ci, cx := Cp[..], Ci[..], Cx[..];
      ListedIs(A, B, j);
      Capacity(A, B, false, j, Ci.Length);
      Capacity(A, B, false, j, Cx.Length);
      Cp[j] := nz;
      var from := nz;
      nz := ListColumn(A, B, j, Ci, w, x, from);
      ListLength(Ci[..], from, nz, Rows(Stream(A, B, j)));
      MarkedRows(A, B, j, w[..], x[..], Ci[..], from, nz);
      Gather(Ci, Cx, x, from, nz);
      ColumnDone(A, B, false, j, nz, Ci[..], Cx[..], x[..]);
      StoreNext(A, B, false, j, cp, ci, cx, Ci[..], Cx[..]);
      assert Cp[..] == cp[j := from];
    }
    StoreAll(A, B, false, Cp[..], Ci[..], Cx[..]);
    ghost var cp: seq<nat> := Cp[..];
    Cp[B.major] := nz;
    assert Cp[..] == cp[B.major := nz];
  }

  lemma ListedIs(A: Compressed, B: Compressed, j: nat)
    requires Conform(A, B) && j < B.major
    ensures Listed(A, B, false, j) == Rows(Stream(A, B, j))
    ensures Listed(A, B, true, j) == ZeroTestedRows(Carried(A, B, j), Stream(A, B, j))
  {
  }

  /**
   Version 2: for every column as many entries of x are cleared as B has columns, and then x
   is tested against zero.  What lies behind starts at zero and is never cleared.
   */
  method MultiplyZeroTest(A: Compressed, B: Compressed, Cp: array<nat>, Ci: array<nat>, Cx: array<real>, x: array<real>)
    requires Conform(A, B) && Cp.Length == B.major + 1
    requires A.minor <= x.Length && B.major <= x.Length && Cp != Ci && Cx != x
    requires forall i | B.major <= i < A.minor :: x[i] == 0.0
    requires Start(A, B, true, B.major) <= Ci.Length && Start(A, B, true, B.major) <= Cx.Length
    modifies Cp, Ci, Cx, x
    ensures ProductStored(A, B, true, Cp[..], Ci[..], Cx[..])
  {
    hide *;
    var nz := 0;
    StoreNone(A, B, true, Cp[..], Ci[..], Cx[..]);
    NothingCarriedYet(A, B, x[..]);
    for j := 0 to B.major
      invariant nz == Start(A, B, true, j)
      invariant StoredUpTo(A, B, true, j, Cp[..], Ci[..], Cx[..])
      invariant Behind(A, B, j, x[..])
    {
      ghost var cp: seq<nat>, ci, cx := Cp[..], Ci[..], Cx[..];
      ListedIs(A, B, j);
      Capacity(A, B, true, j, Ci.Length);
      Capacity(A, B, true, j, Cx.Length);
      ghost var dirty := x[..];
      forall i | 0 <= i < B.major { x[i] := 0.0; }
      Cleared(A, B, j, dirty, x[..]);
      Cp[j] := nz;
      var from := nz;
      nz := SumColumn(A, B, j, Ci, x, from);
      ListLength(Ci[..], from, nz, Listed(A, B, true, j));
      SumRows(A, B, j, x[..], Ci[..], from, nz);
      StillBehind(A, B, j, x[..]);
      Gather(Ci, Cx, x, from, nz);
      ColumnDone(A, B, true, j, nz, Ci[..], Cx[..], x[..]);
      StoreNext(A, B, true, j, cp, ci, cx, Ci[..], Cx[..]);
      assert Cp[..] == cp[j := from];
    }
    StoreAll(A, B, true, Cp[..], Ci[..], Cx[..]);
    ghost var cp: seq<nat> := Cp[..];
    Cp[B.major] := nz;
    assert Cp[..] == cp[B.major := nz];
  }

  /** The entries of x that are not cleared for column j. */
  ghost predicate Behind(A: Compressed, B: Compressed, j: nat, x: seq<real>)
    requires Conform(A, B) && j <= B.major
  {
    A.minor <= |x| && forall i: nat | B.major <= i < A.minor :: x[i] == Total(Carried(A, B, j), i)
  }

  lemma NothingCarriedYet(A: Compressed, B: Compressed, x: seq<real>)
    requires Conform(A, B) && A.minor <= |x| && forall i | B.major <= i < A.minor :: x[i] == 0.0
    ensures Behind(A, B, 0, x)
  {
    hide Conform;
  }

  lemma Cleared(A: Compressed, B: Compressed, j: nat, x: seq<real>, x': seq<real>)
    requires Conform(A, B) && j < B.major && Behind(A, B, j, x) && |x'| == |x|
    requires forall i | 0 <= i < |x| :: x'[i] == if i < B.major then 0.0 else x[i]
    ensures Accumulated(Carried(A, B, j), [], A.minor, x')
  {
    hide Conform, Carried;
    forall i: nat | i < A.minor
      ensures x'[i] == After(Carried(A, B, j), [], i)
    {
      EmptyTotal(i);
      if i < B.major {
        CarriedRows(A, B, j, i);
      }
    }
  }

  lemma CarriedRows(A: Compressed, B: Compressed, j: nat, i: nat)
    requires Conform(A, B) && j <= B.major && i < B.major
    ensures Total(Carried(A, B, j), i) == 0.0
  {
    hide Conform;
    if j != 0 {
      CarriedNext(A, B, j - 1, i);
    }
  }

  lemma StillBehind(A: Compressed, B: Compressed, j: nat, x: seq<real>)
    requires Conform(A, B) && j < B.major && Accumulated(Carried(A, B, j), Stream(A, B, j), A.minor, x)
    ensures Behind(A, B, j + 1, x)
  {
    hide Conform, Carried, After;
    forall i: nat | B.major <= i < A.minor
      ensures x[i] == Total(Carried(A, B, j + 1), i)
    {
      CarriedNext(A, B, j, i);
    }
  }

  // ---------- what has been stored ----------

  /** The matrix held by the result arrays. */
  ghost function Stored(A: Compressed, B: Compressed, zeroTest: bool, cp: seq<nat>, ci: seq<nat>, cx: seq<real>): Compressed
    requires ProductStored(A, B, zeroTest, cp, ci, cx)
  {
    var nz := Start(A, B, zeroTest, B.major);
    Compressed(B.major, A.minor, cp, ci[..nz], cx)
  }

  lemma {:induction false} StoredInRange(A: Compressed, B: Compressed, zeroTest: bool, n: nat, cp: seq<nat>, ci: seq<nat>, cx: seq<real>)
    requires ProductStored(A, B, zeroTest, cp, ci, cx) && n <= B.major
    ensures Start(A, B, zeroTest, n) <= |ci|
    ensures forall p: nat | p < Start(A, B, zeroTest, n) :: ci[p] < A.minor
  {
    hide Conform, WellFormed, Updates, Stream, Listed, Rows, Total;
    StartMonotone(A, B, zeroTest, n, B.major);
    if n != 0 {
      StoredInRange(A, B, zeroTest, n - 1, cp, ci, cx);
      ColumnRows(A, B, zeroTest, n - 1, ci, cx);
    }
  }

  /** The stored rows of a column are those of the stream, and in range. */
  lemma ColumnRows(A: Compressed, B: Compressed, zeroTest: bool, j: nat, ci: seq<nat>, cx: seq<real>)
    requires Conform(A, B) && j < B.major && ColumnStored(A, B, zeroTest, j, ci, cx)
    ensures var lo, hi := Start(A, B, zeroTest, j), Start(A, B, zeroTest, j + 1);
            && lo <= hi && (forall p: nat | lo <= p < hi :: ci[p] == Listed(A, B, zeroTest, j)[p - lo] && ci[p] < A.minor)
  {
    hide Conform, WellFormed, Updates, Stream, Listed, Before, After, Start;
    StartMonotone(A, B, zeroTest, j, j + 1);
    StreamRows(A, B, j);
    var lo, hi, rows := Start(A, B, zeroTest, j), Start(A, B, zeroTest, j + 1), Listed(A, B, zeroTest, j);
    forall p: nat | lo <= p < hi
      ensures ci[p] == rows[p - lo] && ci[p] < A.minor
    {
      assert ci[p] == ci[lo..hi][p - lo];
      assert rows[p - lo] in rows;
    }
  }

  /** Version 1 lists no row of a column twice. */
  lemma ColumnDistinct(A: Compressed, B: Compressed, j: nat, ci: seq<nat>, cx: seq<real>)
    requires Conform(A, B) && j < B.major && ColumnStored(A, B, false, j, ci, cx)
    ensures DistinctIndices(ci, Start(A, B, false, j), Start(A, B, false, j + 1))
  {
    hide Conform, WellFormed, Updates, Stream, Rows, Total, Start;
    ListedIs(A, B, j);
    RowsDistinct(Stream(A, B, j));
    ColumnRows(A, B, false, j, ci, cx);
  }

  lemma StreamRows(A: Compressed, B: Compressed, j: nat)
    requires Conform(A, B) && j < B.major
    ensures forall i | i in Listed(A, B, false, j) || i in Listed(A, B, true, j) :: i < A.minor
  {
    hide Conform, WellFormed, Updates, Rows, ZeroTestedRows, Carried;
    ColumnBounds(A, B, j);
    UpdatesInRange(A, B, B.ptr[j], B.ptr[j + 1]);
    ListedInRange(Carried(A, B, j), Stream(A, B, j), A.minor);
  }

  lemma StoredWellFormed(A: Compressed, B: Compressed, zeroTest: bool, cp: seq<nat>, ci: seq<nat>, cx: seq<real>)
    requires ProductStored(A, B, zeroTest, cp, ci, cx)
    ensures WellFormed(Stored(A, B, zeroTest, cp, ci, cx))
  {
    hide Conform, Updates, Stream, Listed, Rows, Total, Start, ColumnStored;
    StoredInRange(A, B, zeroTest, B.major, cp, ci, cx);
    forall j, k | 0 <= j <= k <= B.major
      ensures cp[j] <= cp[k] <= Start(A, B, zeroTest, B.major)
    {
      StartMonotone(A, B, zeroTest, j, k);
      StartMonotone(A, B, zeroTest, k, B.major);
    }
  }

  /** C = A * B, entry by entry; no row is repeated within a column. */
  lemma StoredIsProduct(A: Compressed, B: Compressed, cp: seq<nat>, ci: seq<nat>, cx: seq<real>, i: nat, j: nat)
    requires ProductStored(A, B, false, cp, ci, cx) && j < B.major
    ensures var C := Stored(A, B, false, cp, ci, cx);
            && WellFormed(C) && DistinctIndices(C.idx, C.ptr[j], C.ptr[j + 1]) && At(C, j, i) == Product(A, B, i, j)
  {
    hide Conform, Updates, Stream, Rows, Total, Start, Entry, Product, WellFormed;
    StoredWellFormed(A, B, false, cp, ci, cx);
    StartMonotone(A, B, false, j, j + 1);
    StartMonotone(A, B, false, j + 1, B.major);
    assert ColumnStored(A, B, false, j, ci, cx);
    ColumnRows(A, B, false, j, ci, cx);
    ColumnDistinct(A, B, j, ci, cx);
    StreamIsProduct(A, B, i, j);
    var C, ts := Stored(A, B, false, cp, ci, cx), Stream(A, B, j);
    ListedIs(A, B, j);
    var lo, hi := Start(A, B, false, j), Start(A, B, false, j + 1);
    forall p | lo <= p < hi
      ensures C.val[p] == Total(ts, C.idx[p])
    {
      EmptyTotal(ci[p]);
    }
    ColumnEntry(C, lo, hi, ts, i);
  }

  /** A range that holds each row of the stream once, with its total, reads as the totals. */
  lemma ColumnEntry(C: Compressed, lo: nat, hi: nat, ts: seq<Term>, i: nat)
    requires InRange(C.idx, C.val, lo, hi) && C.idx[lo..hi] == Rows(ts) && DistinctIndices(C.idx, lo, hi)
    requires forall p | lo <= p < hi :: C.val[p] == Total(ts, C.idx[p])
    ensures Entry(C.idx, C.val, lo, hi, i) == Total(ts, i)
  {
    hide Rows, Total, Entry;
    if i in Rows(ts) {
      var k :| 0 <= k < |Rows(ts)| && Rows(ts)[k] == i;
      assert C.idx[lo..hi][k] == C.idx[lo + k];
      EntryPresent(C.idx, C.val, lo, hi, lo + k);
    } else {
      assert forall p | lo <= p < hi :: C.idx[p] == C.idx[lo..hi][p - lo];
      TotalOfUntouched(ts, i);
      EntryAbsent(C.idx, C.val, lo, hi, i);
    }
  }

  ghost predicate NothingCancels(A: Compressed, B: Compressed)
    requires Conform(A, B)
  {
    forall j: nat | j < B.major :: NoCancellation(Stream(A, B, j))
  }

  /** The parts of the arrays that hold results are the same. */
  ghost predicate SameResult(nz: nat, cp: seq<nat>, ci: seq<nat>, cx: seq<real>, cp': seq<nat>, ci': seq<nat>, cx': seq<real>) {
    && nz <= |ci| && nz <= |ci'| && nz <= |cx| && nz <= |cx'|
    && cp == cp' && ci[..nz] == ci'[..nz] && cx[..nz] == cx'[..nz]
  }

  /** No row of a column still holds something from earlier columns. */
  ghost predicate NothingCarried(A: Compressed, B: Compressed)
    requires Conform(A, B)
  {
    forall j: nat, i: nat | j < B.major && i in Rows(Stream(A, B, j)) :: Total(Carried(A, B, j), i) == 0.0
  }

  lemma WideNothingCarried(A: Compressed, B: Compressed)
    requires Conform(A, B) && A.minor <= B.major
    ensures NothingCarried(A, B)
  {
    hide Conform, Stream, Carried, Rows;
    forall j: nat, i: nat | j < B.major && i in Rows(Stream(A, B, j))
      ensures Total(Carried(A, B, j), i) == 0.0
    {
      AllCleared(A, B, j);
      EmptyTotal(i);
    }
  }

  /** Rows that hold nothing are tested as if x were empty. */
  lemma {:induction false} CleanRows(cs: seq<Term>, ts: seq<Term>)
    requires forall i | i in Rows(ts) :: Total(cs, i) == 0.0
    ensures ZeroTestedRows(cs, ts) == ZeroTestedRows([], ts)
  {
    hide Total;
    if ts != [] {
      var us, t := ts[..|ts| - 1], ts[|ts| - 1];
      assert ts == us + [t];
      RowsSnoc(us, t);
      CleanRows(cs, us);
      EmptyTotal(t.row);
    }
  }

  /** Without carried values and cancellations both versions list the same rows. */
  lemma SameListed(A: Compressed, B: Compressed, j: nat)
    requires Conform(A, B) && j < B.major && NothingCancels(A, B) && NothingCarried(A, B)
    ensures Listed(A, B, true, j) == Listed(A, B, false, j)
  {
    hide Conform, WellFormed, Stream, Carried, Rows, ZeroTestedRows, NoCancellation, Total;
    CleanRows(Carried(A, B, j), Stream(A, B, j));
    ZeroTestExact(Stream(A, B, j));
  }

  lemma {:induction false} SameStart(A: Compressed, B: Compressed, n: nat)
    requires Conform(A, B) && n <= B.major && NothingCancels(A, B) && NothingCarried(A, B)
    ensures Start(A, B, true, n) == Start(A, B, false, n)
  {
    hide Conform, WellFormed, Listed, NothingCancels, NothingCarried;
    if n != 0 {
      SameStart(A, B, n - 1);
      SameListed(A, B, n - 1);
    }
  }

  lemma {:induction false} SamePrefix(A: Compressed, B: Compressed, n: nat, cp: seq<nat>, ci: seq<nat>, cx: seq<real>, cp': seq<nat>, ci': seq<nat>, cx': seq<real>)
    requires ProductStored(A, B, false, cp, ci, cx) && ProductStored(A, B, true, cp', ci', cx')
    requires n <= B.major && NothingCancels(A, B) && NothingCarried(A, B)
    ensures var m := Start(A, B, false, n);
            && m <= |ci| && m <= |ci'| && m <= |cx| && m <= |cx'| && ci[..m] == ci'[..m] && cx[..m] == cx'[..m]
  {
    hide Conform, WellFormed, NothingCancels, NothingCarried, Start, ColumnStored;
    StartMonotone(A, B, false, n, B.major);
    StartMonotone(A, B, true, n, B.major);
    SameStart(A, B, n);
    if n == 0 {
      StoreNone(A, B, false, cp, ci, cx);
    } else {
      SamePrefix(A, B, n - 1, cp, ci, cx, cp', ci', cx');
      SameStart(A, B, n - 1);
      StartMonotone(A, B, false, n - 1, n);
      assert ColumnStored(A, B, false, n - 1, ci, cx) && ColumnStored(A, B, true, n - 1, ci', cx');
      var lo, hi := Start(A, B, false, n - 1), Start(A, B, false, n);
      SameColumn(A, B, n - 1, ci, cx, ci', cx');
      SlicesJoin(ci, ci', lo, hi);
      SlicesJoin(cx, cx', lo, hi);
    }
  }

  lemma SameColumn(A: Compressed, B: Compressed, j: nat, ci: seq<nat>, cx: seq<real>, ci': seq<nat>, cx': seq<real>)
    requires Conform(A, B) && j < B.major && NothingCancels(A, B) && NothingCarried(A, B)
    requires ColumnStored(A, B, false, j, ci, cx) && ColumnStored(A, B, true, j, ci', cx')
    ensures var lo, hi := Start(A, B, false, j), Start(A, B, false, j + 1);
            && lo <= hi && hi <= |ci| && hi <= |ci'| && hi <= |cx| && hi <= |cx'|
            && ci[lo..hi] == ci'[lo..hi] && cx[lo..hi] == cx'[lo..hi]
  {
    hide Conform, WellFormed, Stream, Carried, NothingCancels, Total, Start, Rows, ZeroTestedRows;
    SameStart(A, B, j);
    SameStart(A, B, j + 1);
    SameListed(A, B, j);
    StartMonotone(A, B, false, j, j + 1);
    var lo, hi := Start(A, B, false, j), Start(A, B, false, j + 1);
    forall p | lo <= p < hi
      ensures cx[p] == cx'[p]
    {
      assert ci[p] == ci[lo..hi][p - lo] == ci'[lo..hi][p - lo] == ci'[p];
      assert ci[lo..hi][p - lo] in Rows(Stream(A, B, j));
      EmptyTotal(ci[p]);
    }
  }

  lemma SlicesJoin<T>(s: seq<T>, t: seq<T>, lo: nat, hi: nat)
    requires lo <= hi <= |s| && hi <= |t| && s[..lo] == t[..lo] && s[lo..hi] == t[lo..hi]
    ensures s[..hi] == t[..hi]
  {
    assert s[..hi] == s[..lo] + s[lo..hi] && t[..hi] == t[..lo] + t[lo..hi];
  }

  lemma SliceOfPrefix<T>(s: seq<T>, n: nat, lo: nat, hi: nat)
    requires lo <= hi <= n <= |s|
    ensures s[..n][lo..hi] == s[lo..hi]
  {
    forall k | 0 <= k < hi - lo
      ensures s[..n][lo..hi][k] == s[lo..hi][k]
    {
      assert s[..n][lo + k] == s[lo + k];
    }
  }

  /**
   Version 2 stores what version 1 stores exactly when no partial sum cancels to zero and no
   row of a column holds something that has not been cleared.
   */
  lemma VersionsAgree(A: Compressed, B: Compressed, cp: seq<nat>, ci: seq<nat>, cx: seq<real>, cp': seq<nat>, ci': seq<nat>, cx': seq<real>)
    requires ProductStored(A, B, false, cp, ci, cx) && ProductStored(A, B, true, cp', ci', cx')
    ensures SameResult(Start(A, B, false, B.major), cp, ci, cx, cp', ci', cx') <==> NothingCancels(A, B) && NothingCarried(A, B)
  {
    hide Conform, WellFormed, Stream, Carried, Rows, NoCancellation, Total, Start, ColumnStored, Listed;
    var nz := Start(A, B, false, B.major);
    if NothingCancels(A, B) && NothingCarried(A, B) {
      SamePrefix(A, B, B.major, cp, ci, cx, cp', ci', cx');
      forall j | 0 <= j <= B.major
        ensures cp[j] == cp'[j]
      {
        SameStart(A, B, j);
      }
      assert cp == cp';
    }
    if SameResult(nz, cp, ci, cx, cp', ci', cx') {
      forall j: nat | j < B.major
        ensures NoCancellation(Stream(A, B, j)) && forall i: nat | i in Rows(Stream(A, B, j)) :: Total(Carried(A, B, j), i) == 0.0
      {
        assert cp[j] == cp'[j] && cp[j + 1] == cp'[j + 1];
        assert ColumnStored(A, B, false, j, ci, cx) && ColumnStored(A, B, true, j, ci', cx');
        StartMonotone(A, B, false, j, j + 1);
        StartMonotone(A, B, false, j + 1, B.major);
        var lo, hi := cp[j], cp[j + 1];
        SliceOfPrefix(ci, nz, lo, hi);
        SliceOfPrefix(ci', nz, lo, hi);
        SliceOfPrefix(cx, nz, lo, hi);
        SliceOfPrefix(cx', nz, lo, hi);
        ColumnsEqual(A, B, j, ci, cx, ci', cx');
      }
    }
  }

  lemma ColumnsEqual(A: Compressed, B: Compressed, j: nat, ci: seq<nat>, cx: seq<real>, ci': seq<nat>, cx': seq<real>)
    requires Conform(A, B) && j < B.major && ColumnStored(A, B, false, j, ci, cx) && ColumnStored(A, B, true, j, ci', cx')
    requires Start(A, B, false, j) == Start(A, B, true, j) <= Start(A, B, false, j + 1) == Start(A, B, true, j + 1)
    requires var lo, hi := Start(A, B, false, j), Start(A, B, false, j + 1); ci[lo..hi] == ci'[lo..hi] && cx[lo..hi] == cx'[lo..hi]
    ensures NoCancellation(Stream(A, B, j)) && forall i: nat | i in Rows(Stream(A, B, j)) :: Total(Carried(A, B, j), i) == 0.0
  {
    hide Conform, WellFormed, Stream, Carried, Rows, ZeroTestedRows, NoCancellation, Total, Start;
    var lo, hi, rows := Start(A, B, false, j), Start(A, B, false, j + 1), Rows(Stream(A, B, j));
    forall i: nat | i in rows
      ensures Total(Carried(A, B, j), i) == 0.0
    {
      var k: nat :| k < |rows| && rows[k] == i;
      var p := lo + k;
      assert ci[p] == ci[lo..hi][k] == i && ci'[p] == ci'[lo..hi][k] == i;
      assert cx[p] == cx[lo..hi][k] == cx'[lo..hi][k] == cx'[p];
      EmptyTotal(i);
    }
    CleanRows(Carried(A, B, j), Stream(A, B, j));
    ZeroTestExact(Stream(A, B, j));
  }

  // ---------- what version 2 stores when something cancels ----------

  /** A row that is updated is listed by the zero test. */
  lemma {:induction false} ListedAtLeastOnce(ts: seq<Term>, i: nat)
    requires i in Rows(ts)
    ensures i in ZeroTestedRows([], ts)
  {
    hide Total;
    var n := |ts| - 1;
    EmptyTotal(i);
    if i in Rows(ts[..n]) {
      ListedAtLeastOnce(ts[..n], i);
    } else {
      TotalOfUntouched(ts[..n], i);
    }
  }

  ghost function Times(n: nat, x: real): real {
    n as real * x
  }

  lemma OnceMore(s: seq<nat>, r: nat, i: nat, x: real)
    ensures Times(multiset(s + [r])[i], x) == Times(multiset(s)[i], x) + if r == i then x else 0.0
  {
    var n := multiset(s)[i];
    assert multiset(s + [r])[i] == n + if r == i then 1 else 0;
    assert (n + 1) as real * x == n as real * x + x;
  }

  /** A range in which every position of a row holds the row's value reads as that value times the number of positions. */
  lemma {:induction false} RepeatedEntry(idx: seq<nat>, val: seq<real>, lo: nat, hi: nat, cs: seq<Term>, ts: seq<Term>, i: nat)
    requires InRange(idx, val, lo, hi) && forall p | lo <= p < hi :: val[p] == After(cs, ts, idx[p])
    ensures Entry(idx, val, lo, hi, i) == Times(multiset(idx[lo..hi])[i], After(cs, ts, i))
    decreases hi
  {
    hide After;
    if lo != hi {
      hide Times;
      RepeatedEntry(idx, val, lo, hi - 1, cs, ts, i);
      OnceMore(idx[lo..hi - 1], idx[hi - 1], i, After(cs, ts, i));
      assert idx[lo..hi] == idx[lo..hi - 1] + [idx[hi - 1]];
    } else {
      assert idx[lo..hi] == [];
    }
  }

  /** How often version 2 lists row i for column j. */
  ghost function Listings(A: Compressed, B: Compressed, i: nat, j: nat): nat
    requires Conform(A, B) && j < B.major
  {
    multiset(Listed(A, B, true, j))[i]
  }

  /** What row i still holds from the columns before j: nothing, unless the product has more rows than columns. */
  ghost function Rest(A: Compressed, B: Compressed, i: nat, j: nat): real
    requires Conform(A, B) && j < B.major
  {
    Total(Carried(A, B, j), i)
  }

  /** Version 2 stores what was not cleared and the entry of the product, together once for every time it lists the row. */
  lemma ZeroTestEntry(A: Compressed, B: Compressed, cp: seq<nat>, ci: seq<nat>, cx: seq<real>, i: nat, j: nat)
    requires ProductStored(A, B, true, cp, ci, cx) && j < B.major
    ensures var C := Stored(A, B, true, cp, ci, cx);
            WellFormed(C) && At(C, j, i) == Times(Listings(A, B, i, j), Rest(A, B, i, j) + Product(A, B, i, j))
    ensures A.minor <= B.major ==> Rest(A, B, i, j) == 0.0 && (Listings(A, B, i, j) == 0 ==> Product(A, B, i, j) == 0.0)
  {
    hide Conform, Updates, Stream, Carried, Listed, Rows, Total, Start, Entry, Product, WellFormed;
    StoredWellFormed(A, B, true, cp, ci, cx);
    StartMonotone(A, B, true, j, j + 1);
    StartMonotone(A, B, true, j + 1, B.major);
    assert ColumnStored(A, B, true, j, ci, cx);
    StreamIsProduct(A, B, i, j);
    var C, ts := Stored(A, B, true, cp, ci, cx), Stream(A, B, j);
    var lo, hi := Start(A, B, true, j), Start(A, B, true, j + 1);
    SliceOfPrefix(ci, Start(A, B, true, B.major), lo, hi);
    RepeatedEntry(C.idx, C.val, lo, hi, Carried(A, B, j), ts, i);
    if A.minor <= B.major {
      AllCleared(A, B, j);
      EmptyTotal(i);
      ListedIs(A, B, j);
      if i in Rows(ts) {
        ListedAtLeastOnce(ts, i);
      } else {
        TotalOfUntouched(ts, i);
      }
    }
  }

  /** Every row that is listed again has come back to zero at the end of its column. */
  ghost predicate RepeatsVanish(A: Compressed, B: Compressed)
    requires Conform(A, B)
  {
    forall i: nat, j: nat | j < B.major && 2 <= Listings(A, B, i, j) :: Product(A, B, i, j) == 0.0
  }

  ghost predicate ReadsAsProduct(A: Compressed, B: Compressed, C: Compressed)
    requires Conform(A, B)
  {
    WellFormed(C) && C.major == B.major && forall i: nat, j: nat | j < B.major :: At(C, j, i) == Product(A, B, i, j)
  }

  /** With no more rows than columns, version 2 stores A * B exactly when the rows that it lists more than once are zero in the product. */
  lemma ZeroTestIsProduct(A: Compressed, B: Compressed, cp: seq<nat>, ci: seq<nat>, cx: seq<real>)
    requires ProductStored(A, B, true, cp, ci, cx) && A.minor <= B.major
    ensures ReadsAsProduct(A, B, Stored(A, B, true, cp, ci, cx)) <==> RepeatsVanish(A, B)
  {
    hide Conform, Product, WellFormed, ColumnStored, At, Listings, Rest, Start, Times;
    var C := Stored(A, B, true, cp, ci, cx);
    StoredWellFormed(A, B, true, cp, ci, cx);
    forall i: nat, j: nat | j < B.major
      ensures At(C, j, i) == Product(A, B, i, j) <==> (2 <= Listings(A, B, i, j) ==> Product(A, B, i, j) == 0.0)
    {
      ZeroTestEntry(A, B, cp, ci, cx, i, j);
      TimesCount(Listings(A, B, i, j), Product(A, B, i, j));
    }
  }

  lemma TimesCount(n: nat, x: real)
    requires n == 0 ==> x == 0.0
    ensures Times(n, x) == x <==> (2 <= n ==> x == 0.0)
  {
    if 2 <= n {
      var m := (n - 1) as real;
      assert n as real == m + 1.0 && (m + 1.0) * x == m * x + x;
      if m * x == 0.0 {
        NoZeroDivisors(m, x);
      }
    } else if n == 1 {
      assert 1.0 * x == x;
    }
  }

  lemma NoZeroDivisors(a: real, b: real)
    requires a * b == 0.0
    ensures a == 0.0 || b == 0.0
  {
  }

  ghost predicate Positive(A: Compressed) {
    forall p | 0 <= p < |A.idx| && p < |A.val| :: 0.0 < A.val[p]
  }

  lemma {:induction false} UpdatesPositive(A: Compressed, B: Compressed, lo: nat, hi: nat)
    requires Conform(A, B) && lo <= hi <= |B.idx| && Positive(A) && Positive(B)
    ensures forall k | 0 <= k < |Updates(A, B, lo, hi)| :: 0.0 < Updates(A, B, lo, hi)[k].value
    decreases hi
  {
    hide WellFormed, Positive, Scaled;
    if lo != hi {
      Reachable(A, B, hi - 1);
      PositiveValue(B, hi - 1);
      UpdatesPositive(A, B, lo, hi - 1);
      UpdatesSnoc(A, B, lo, hi - 1);
      hide Updates;
      var lo', hi' := A.ptr[B.idx[hi - 1]], A.ptr[B.idx[hi - 1] + 1];
      ScaledPositive(A, B.val[hi - 1], lo', hi');
      PositiveConcat(Updates(A, B, lo, hi - 1), Scaled(A, B.val[hi - 1], lo', hi'));
    }
  }

  lemma PositiveConcat(s: seq<Term>, t: seq<Term>)
    requires (forall k | 0 <= k < |s| :: 0.0 < s[k].value) && (forall k | 0 <= k < |t| :: 0.0 < t[k].value)
    ensures forall k | 0 <= k < |s + t| :: 0.0 < (s + t)[k].value
  {
  }

  lemma PositiveValue(A: Compressed, p: nat)
    requires Positive(A) && p < |A.idx| && p < |A.val|
    ensures 0.0 < A.val[p]
  {
  }

  lemma ScaledPositive(A: Compressed, b: real, lo: nat, hi: nat)
    requires WellFormed(A) && lo <= hi <= |A.idx| && Positive(A) && 0.0 < b
    ensures forall k | 0 <= k < |Scaled(A, b, lo, hi)| :: 0.0 < Scaled(A, b, lo, hi)[k].value
  {
    forall k | 0 <= k < |Scaled(A, b, lo, hi)|
      ensures 0.0 < Scaled(A, b, lo, hi)[k].value
    {
      PositiveProduct(b, A.val[lo + k]);
    }
  }

  lemma PositiveProduct(b: real, v: real)
    requires 0.0 < b && 0.0 < v
    ensures 0.0 < b * v
  {
  }

  lemma PositiveMatrices(A: Compressed, B: Compressed)
    requires Conform(A, B) && Positive(A) && Positive(B)
    ensures NothingCancels(A, B)
  {
    hide WellFormed, Positive, NoCancellation, Updates;
    forall j: nat | j < B.major
      ensures NoCancellation(Stream(A, B, j))
    {
      ColumnBounds(A, B, j);
      UpdatesPositive(A, B, B.ptr[j], B.ptr[j + 1]);
      PositiveNeverCancels(Stream(A, B, j));
    }
  }

  /** Three columns of A with the one row holding 1, -1 and 1, all taken once. */
  ghost function RowOfThree(): Compressed {
    Compressed(3, 1, [0, 1, 2, 3], [0, 0, 0], [1.0, -1.0, 1.0])
  }

  ghost function AllOnce(): Compressed {
    Compressed(1, 3, [0, 3], [0, 1, 2], [1.0, 1.0, 1.0])
  }

  /** With a cancellation version 2 lists a row twice, and the stored entry reads as twice the product. */
  lemma CancellationRepeatsRow(cp: seq<nat>, ci: seq<nat>, cx: seq<real>)
    requires ProductStored(RowOfThree(), AllOnce(), true, cp, ci, cx)
    ensures !NothingCancels(RowOfThree(), AllOnce()) && !RepeatsVanish(RowOfThree(), AllOnce())
    ensures Listed(RowOfThree(), AllOnce(), true, 0) == [0, 0] && Listed(RowOfThree(), AllOnce(), false, 0) == [0]
    ensures Product(RowOfThree(), AllOnce(), 0, 0) == 1.0
    ensures var C := Stored(RowOfThree(), AllOnce(), true, cp, ci, cx); WellFormed(C) && At(C, 0, 0) == 2.0
  {
    hide Stream, Conform, Rows, ZeroTestedRows, NoCancellation, Product, WellFormed, ProductStored, At, Total;
    ThreeUpdates();
    CancellingStream();
    assert AllOnce().major == 1;
    StreamIsProduct(RowOfThree(), AllOnce(), 0, 0);
    ZeroTestEntry(RowOfThree(), AllOnce(), cp, ci, cx, 0, 0);
    assert Listings(RowOfThree(), AllOnce(), 0, 0) == 2;
  }

  /** A with three rows and one column, which holds 1 in the last row; B takes it twice. */
  ghost function LastOfThree(): Compressed {
    Compressed(1, 3, [0, 1], [2], [1.0])
  }

  ghost function TakenTwice(): Compressed {
    Compressed(2, 1, [0, 1, 2], [0, 0], [1.0, 1.0])
  }

  /** With more rows than columns x[2] is never cleared: the second column loses its entry. */
  lemma UnclearedRowLost(cp: seq<nat>, ci: seq<nat>, cx: seq<real>)
    requires ProductStored(LastOfThree(), TakenTwice(), true, cp, ci, cx)
    ensures NothingCancels(LastOfThree(), TakenTwice()) && !NothingCarried(LastOfThree(), TakenTwice())
    ensures Listed(LastOfThree(), TakenTwice(), true, 1) == [] && Product(LastOfThree(), TakenTwice(), 2, 1) == 1.0
    ensures var C := Stored(LastOfThree(), TakenTwice(), true, cp, ci, cx); WellFormed(C) && At(C, 1, 2) == 0.0
  {
    hide Stream, Carried, Conform, Rows, ZeroTestedRows, NoCancellation, Product, WellFormed, ProductStored, At, Total;
    var A, B, t := LastOfThree(), TakenTwice(), Term(2, 1.0);
    TwoUpdates();
    assert A.minor == 3 && B.major == 2;
    EmptyTotal(2);
    TotalSnoc([], t, 2);
    RowsSnoc([], t);
    EmptyNeverCancels();
    assert [] + [t] == [t];
    ZeroTestedSnoc([t], [], t);
    OneUpdate(t);
    StreamIsProduct(A, B, 2, 1);
    ZeroTestEntry(A, B, cp, ci, cx, 2, 1);
    assert 2 in Rows(Stream(A, B, 1));
    assert Listings(A, B, 2, 1) == 0;
    assert Times(0, Rest(A, B, 2, 1) + Product(A, B, 2, 1)) == 0.0;
  }

  lemma OneUpdate(t: Term)
    ensures NoCancellation([t]) && ZeroTestedRows([t], []) == []
  {
    assert [t][..0] == [];
  }

  lemma TwoUpdates()
    ensures var A, B := LastOfThree(), TakenTwice();
            && Conform(A, B) && Stream(A, B, 0) == Stream(A, B, 1) == [Term(2, 1.0)] && Carried(A, B, 1) == [Term(2, 1.0)]
  {
    var A, B, t := LastOfThree(), TakenTwice(), Term(2, 1.0);
    UpdatesSnoc(A, B, 0, 0);
    UpdatesSnoc(A, B, 1, 1);
    ScaledOne(A, 0);
    assert Stream(A, B, 0) == [t] && Stream(A, B, 1) == [t];
    assert Carried(A, B, 0) == [];
    assert [] + [t] == [t] && [t][..0] == [];
    assert Uncleared([t], 2) == [t];
  }

  lemma CancellingStream()
    ensures var ts := [Term(0, 1.0), Term(0, -1.0), Term(0, 1.0)];
            ZeroTestedRows([], ts) == [0, 0] && Rows(ts) == [0] && !NoCancellation(ts) && Total(ts, 0) == 1.0
  {
    hide Rows, ZeroTestedRows, Total, NoCancellation;
    var t, u := Term(0, 1.0), Term(0, -1.0);
    EmptyNeverCancels();
    EmptyTotal(0);
    TotalSnoc([], t, 0);
    TotalSnoc([t], u, 0);
    TotalSnoc([t, u], t, 0);
    RowsSnoc([], t);
    RowsSnoc([t], u);
    RowsSnoc([t, u], t);
    ZeroTestedSnoc([], [], t);
    ZeroTestedSnoc([], [t], u);
    ZeroTestedSnoc([], [t, u], t);
    assert [] + [t] == [t] && [t] + [u] == [t, u] && [t, u] + [t] == [t, u, t];
    ZeroTestExact([t, u, t]);
  }

  lemma ExampleConforms()
    ensures Conform(RowOfThree(), AllOnce())
  {
  }

  lemma ThreeUpdates()
    ensures Conform(RowOfThree(), AllOnce())
    ensures Stream(RowOfThree(), AllOnce(), 0) == [Term(0, 1.0), Term(0, -1.0), Term(0, 1.0)]
  {
    hide Conform, WellFormed, Scaled;
    ExampleConforms();
    var A, B := RowOfThree(), AllOnce();
    UpdatesSnoc(A, B, 0, 2);
    UpdatesSnoc(A, B, 0, 1);
    UpdatesSnoc(A, B, 0, 0);
    ScaledOne(A, 0);
    ScaledOne(A, 1);
    ScaledOne(A, 2);
  }

  lemma ScaledOne(A: Compressed, p: nat)
    requires WellFormed(A) && p < |A.idx| && p < |A.val|
    ensures Scaled(A, 1.0, p, p + 1) == [Term(A.idx[p], A.val[p])]
  {
    hide WellFormed;
    assert UpdateBy(A, 1.0, p) == Term(A.idx[p], A.val[p]);
  }
}

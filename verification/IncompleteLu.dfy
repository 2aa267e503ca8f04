/**
 data/ILU0_CSR/ilu0_csr.cpp: incomplete LU factorisation without fill-in, in place on the
 values of a CSR matrix.
 */
module IncompleteLu {
  import opened SparseVectors

  /** The static structure: sorted rows with an explicit diagonal position each. */
  datatype Pattern = Pattern(m: nat, rowptr: seq<nat>, colidx: seq<nat>, diagptr: seq<nat>)

  ghost predicate WellFormed(A: Pattern) {
    && |A.rowptr| == A.m + 1 && |A.diagptr| == A.m
    && (forall i {:trigger A.rowptr[i]} | 0 <= i <= A.m :: A.rowptr[i] <= |A.colidx|)
    && (forall i, j | 0 <= i <= j <= A.m :: A.rowptr[i] <= A.rowptr[j])
    && (forall i {:trigger A.diagptr[i]} | 0 <= i < A.m ::
          A.rowptr[i] <= A.diagptr[i] < A.rowptr[i + 1] && A.diagptr[i] < |A.colidx| && A.colidx[A.diagptr[i]] == i)
    && (forall p | 0 <= p < |A.colidx| :: A.colidx[p] < A.m)
    && (forall i {:trigger A.diagptr[i]} | 0 <= i < A.m :: StrictlySorted(A.colidx, A.rowptr[i], A.rowptr[i + 1]))
  }

  /** U[c][j]: the stored values of row c from its diagonal on. */
  ghost function Upper(A: Pattern, v: seq<real>, c: nat, j: nat): real
    requires WellFormed(A) && |v| == |A.colidx|
  {
    if c < A.m then Entry(A.colidx, v, A.diagptr[c], A.rowptr[c + 1], j) else 0.0
  }

  /** L[i][c]: the stored values of row i before its diagonal, and a unit diagonal. */
  ghost function Lower(A: Pattern, v: seq<real>, i: nat, c: nat): real
    requires WellFormed(A) && |v| == |A.colidx| && i < A.m
  {
    Entry(A.colidx, v, A.rowptr[i], A.diagptr[i], c) + if c == i then 1.0 else 0.0
  }

  /** (L * U)[i][j] */
  ghost function Product(A: Pattern, v: seq<real>, i: nat, j: nat): real
    requires WellFormed(A) && |v| == |A.colidx| && i < A.m
  {
    Sum(A.m, (c: nat) => Lower(A, v, i, c) * Upper(A, v, c, j))
  }

  /** The contribution of the multipliers at positions rowptr[i]..k of row i to column j. */
  ghost function Eliminated(A: Pattern, v: seq<real>, i: nat, k: nat, j: nat): real
    requires WellFormed(A) && |v| == |A.colidx| && i < A.m && A.rowptr[i] <= k <= A.diagptr[i]
  {
    Dot(A.colidx, v, A.rowptr[i], k, (c: nat) => Upper(A, v, c, j))
  }

  ghost predicate NonzeroPivots(A: Pattern, v: seq<real>, i: nat)
    requires WellFormed(A) && |v| == |A.colidx| && i <= A.m
  {
    forall c | 0 <= c < i :: v[A.diagptr[c]] != 0.0
  }

  // ---------- entries of the structure ----------

  lemma SortedPart(idx: seq<nat>, lo: nat, hi: nat, lo': nat, hi': nat)
    requires hi <= |idx| && StrictlySorted(idx, lo, hi) && lo <= lo' && hi' <= hi
    ensures StrictlySorted(idx, lo', hi') && DistinctIndices(idx, lo', hi')
  {
  }

  lemma UpperAt(A: Pattern, v: seq<real>, c: nat, q: nat)
    requires WellFormed(A) && |v| == |A.colidx| && c < A.m && A.diagptr[c] <= q < A.rowptr[c + 1]
    ensures Upper(A, v, c, A.colidx[q]) == v[q]
  {
    hide Entry;
    SortedPart(A.colidx, A.rowptr[c], A.rowptr[c + 1], A.diagptr[c], A.rowptr[c + 1]);
    EntryPresent(A.colidx, v, A.diagptr[c], A.rowptr[c + 1], q);
  }

  lemma UpperAbsent(A: Pattern, v: seq<real>, c: nat, j: nat)
    requires WellFormed(A) && |v| == |A.colidx|
    requires c < A.m ==> forall q | A.diagptr[c] <= q < A.rowptr[c + 1] :: A.colidx[q] != j
    ensures Upper(A, v, c, j) == 0.0
  {
    if c < A.m {
      EntryAbsent(A.colidx, v, A.diagptr[c], A.rowptr[c + 1], j);
    }
  }

  lemma UpperBelowDiagonal(A: Pattern, v: seq<real>, c: nat, j: nat)
    requires WellFormed(A) && |v| == |A.colidx| && j < c
    ensures Upper(A, v, c, j) == 0.0
  {
    if c < A.m {
      forall q | A.diagptr[c] <= q < A.rowptr[c + 1]
        ensures A.colidx[q] != j
      {
        RowSorted(A, c);
      }
    }
    UpperAbsent(A, v, c, j);
  }

  /** Rows of U above row i do not change when only row i is written. */
  lemma UpperFrame(A: Pattern, v: seq<real>, v': seq<real>, i: nat, c: nat, j: nat)
    requires WellFormed(A) && |v| == |v'| == |A.colidx| && c < i < A.m
    requires forall p | 0 <= p < A.rowptr[i] :: v[p] == v'[p]
    ensures Upper(A, v, c, j) == Upper(A, v', c, j)
  {
    assert A.rowptr[c + 1] <= A.rowptr[i];
    EntryFrame(A.colidx, v, v', A.diagptr[c], A.rowptr[c + 1], j);
  }

  lemma RowSorted(A: Pattern, i: nat)
    requires WellFormed(A) && i < A.m
    ensures A.rowptr[i] <= A.diagptr[i] < A.rowptr[i + 1] <= |A.colidx|
    ensures StrictlySorted(A.colidx, A.rowptr[i], A.rowptr[i + 1])
  {
  }

  lemma BeforeDiagonal(A: Pattern, i: nat, p: nat)
    requires WellFormed(A) && i < A.m && A.rowptr[i] <= p < A.rowptr[i + 1]
    ensures p < A.diagptr[i] <==> A.colidx[p] < i
    ensures A.diagptr[i] < p <==> i < A.colidx[p]
  {
    RowSorted(A, i);
  }

  lemma EliminatedFrame(A: Pattern, v: seq<real>, v': seq<real>, i: nat, k: nat, j: nat)
    requires WellFormed(A) && |v| == |v'| == |A.colidx| && i < A.m && A.rowptr[i] <= k <= A.diagptr[i]
    requires forall p | 0 <= p < k :: v[p] == v'[p]
    ensures Eliminated(A, v, i, k, j) == Eliminated(A, v', i, k, j)
  {
    hide Upper;
    forall p | A.rowptr[i] <= p < k
      ensures Upper(A, v, A.colidx[p], j) == Upper(A, v', A.colidx[p], j)
    {
      BeforeDiagonal(A, i, p);
      UpperFrame(A, v, v', i, A.colidx[p], j);
    }
    DotFrame(A.colidx, v, v', A.rowptr[i], k, (c: nat) => Upper(A, v, c, j), (c: nat) => Upper(A, v', c, j));
  }

  lemma EliminatedStep(A: Pattern, v: seq<real>, i: nat, k: nat, j: nat)
    requires WellFormed(A) && |v| == |A.colidx| && i < A.m && A.rowptr[i] <= k < A.diagptr[i]
    ensures Eliminated(A, v, i, k + 1, j) == Eliminated(A, v, i, k, j) + Update(A, v, v[k], A.colidx[k], j)
  {
    hide Upper;
  }

  /** What the multiplier x takes off column j when it is applied to row c of U. */
  ghost function Update(A: Pattern, v: seq<real>, x: real, c: nat, j: nat): real
    requires WellFormed(A) && |v| == |A.colidx|
  {
    x * Upper(A, v, c, j)
  }

  lemma UpdateAt(A: Pattern, v: seq<real>, x: real, c: nat, q: nat)
    requires WellFormed(A) && |v| == |A.colidx| && c < A.m && A.diagptr[c] <= q < A.rowptr[c + 1]
    ensures Update(A, v, x, c, A.colidx[q]) == x * v[q]
  {
    hide Upper;
    UpperAt(A, v, c, q);
  }

  lemma UpdateNone(A: Pattern, v: seq<real>, x: real, c: nat, j: nat)
    requires WellFormed(A) && |v| == |A.colidx| && Upper(A, v, c, j) == 0.0
    ensures Update(A, v, x, c, j) == 0.0
  {
    hide Upper;
  }

  lemma UpdateFrame(A: Pattern, v: seq<real>, v': seq<real>, i: nat, x: real, c: nat, j: nat)
    requires WellFormed(A) && |v| == |v'| == |A.colidx| && c < i < A.m
    requires forall p | 0 <= p < A.rowptr[i] :: v[p] == v'[p]
    ensures Update(A, v, x, c, j) == Update(A, v', x, c, j)
  {
    hide Upper;
    UpperFrame(A, v, v', i, c, j);
  }

  // ---------- the state of a row during elimination ----------

  /** Before position k of row i, the multipliers are final; from k on, updates are applied. */
  ghost predicate RowState(A: Pattern, orig: seq<real>, v: seq<real>, i: nat, k: nat)
    requires WellFormed(A) && |v| == |orig| == |A.colidx| && i < A.m && A.rowptr[i] <= k <= A.diagptr[i]
  {
    && (NonzeroPivots(A, v, i) ==>
          forall p | A.rowptr[i] <= p < k :: Eliminated(A, v, i, k, A.colidx[p]) == orig[p])
    && (forall p | k <= p < A.rowptr[i + 1] :: v[p] + Eliminated(A, v, i, k, A.colidx[p]) == orig[p])
  }

  /** Row i satisfies the factorisation at its stored positions. */
  ghost predicate RowFactored(A: Pattern, orig: seq<real>, v: seq<real>, i: nat)
    requires WellFormed(A) && |v| == |orig| == |A.colidx| && i < A.m
  {
    NonzeroPivots(A, v, i) ==>
      forall p | A.rowptr[i] <= p < A.rowptr[i + 1] ::
        Eliminated(A, v, i, A.diagptr[i], A.colidx[p]) + Upper(A, v, i, A.colidx[p]) == orig[p]
  }

  lemma RowEnd(A: Pattern, orig: seq<real>, v: seq<real>, i: nat)
    requires WellFormed(A) && |v| == |orig| == |A.colidx| && i < A.m
    requires RowState(A, orig, v, i, A.diagptr[i])
    ensures RowFactored(A, orig, v, i)
  {
    hide Upper, Eliminated;
    if NonzeroPivots(A, v, i) {
      forall p | A.rowptr[i] <= p < A.rowptr[i + 1]
        ensures Eliminated(A, v, i, A.diagptr[i], A.colidx[p]) + Upper(A, v, i, A.colidx[p]) == orig[p]
      {
        BeforeDiagonal(A, i, p);
        if p < A.diagptr[i] {
          UpperBelowDiagonal(A, v, i, A.colidx[p]);
        } else {
          UpperAt(A, v, i, p);
        }
      }
    }
  }

  /** One elimination step: position k is divided by its pivot, the rest of the row updated. */
  ghost predicate StepTaken(A: Pattern, v: seq<real>, v': seq<real>, i: nat, k: nat)
    requires WellFormed(A) && |v| == |v'| == |A.colidx| && i < A.m && A.rowptr[i] <= k < A.diagptr[i]
  {
    var c := A.colidx[k];
    && (forall p | 0 <= p < |v| && (p < k || A.rowptr[i + 1] <= p) :: v'[p] == v[p])
    && (c < A.m ==> v'[k] == Quotient(v[k], v[A.diagptr[c]]))
    && (forall p | k < p < A.rowptr[i + 1] :: v'[p] == v[p] - Update(A, v, v'[k], c, A.colidx[p]))
  }

  lemma RowAdvance(A: Pattern, orig: seq<real>, v: seq<real>, v': seq<real>, i: nat, k: nat)
    requires WellFormed(A) && |v| == |v'| == |orig| == |A.colidx| && i < A.m && A.rowptr[i] <= k < A.diagptr[i]
    requires RowState(A, orig, v, i, k) && StepTaken(A, v, v', i, k)
    ensures RowState(A, orig, v', i, k + 1)
  {
    hide Update, Eliminated, NonzeroPivots, Quotient;
    RowSorted(A, i);
    forall p | A.rowptr[i] <= p < A.rowptr[i + 1]
      ensures p <= k && NonzeroPivots(A, v', i) ==> Eliminated(A, v', i, k + 1, A.colidx[p]) == orig[p]
      ensures k < p ==> v'[p] + Eliminated(A, v', i, k + 1, A.colidx[p]) == orig[p]
    {
      AdvancePosition(A, orig, v, v', i, k, p);
    }
  }

  lemma AdvancePosition(A: Pattern, orig: seq<real>, v: seq<real>, v': seq<real>, i: nat, k: nat, p: nat)
    requires WellFormed(A) && |v| == |v'| == |orig| == |A.colidx| && i < A.m && A.rowptr[i] <= k < A.diagptr[i]
    requires RowState(A, orig, v, i, k) && StepTaken(A, v, v', i, k) && A.rowptr[i] <= p < A.rowptr[i + 1]
    ensures p <= k && NonzeroPivots(A, v', i) ==> Eliminated(A, v', i, k + 1, A.colidx[p]) == orig[p]
    ensures k < p ==> v'[p] + Eliminated(A, v', i, k + 1, A.colidx[p]) == orig[p]
  {
    hide Update, Eliminated, NonzeroPivots, Quotient;
    EliminatedAfterStep(A, v, v', i, k, A.colidx[p]);
    if p <= k && NonzeroPivots(A, v', i) {
      PivotsUnchanged(A, v, v', i, k);
      MultiplierTerm(A, v, v', i, k, p);
    }
  }

  lemma StepBounds(A: Pattern, i: nat, k: nat)
    requires WellFormed(A) && i < A.m && A.rowptr[i] <= k < A.diagptr[i]
    ensures k < A.rowptr[i + 1] <= |A.colidx| && A.colidx[k] < i
    ensures A.diagptr[A.colidx[k]] < A.rowptr[A.colidx[k] + 1] <= A.rowptr[i]
  {
    BeforeDiagonal(A, i, k);
  }

  lemma EliminatedAfterStep(A: Pattern, v: seq<real>, v': seq<real>, i: nat, k: nat, j: nat)
    requires WellFormed(A) && |v| == |v'| == |A.colidx| && i < A.m && A.rowptr[i] <= k < A.diagptr[i]
    requires forall p | 0 <= p < k :: v'[p] == v[p]
    ensures Eliminated(A, v', i, k + 1, j) == Eliminated(A, v, i, k, j) + Update(A, v, v'[k], A.colidx[k], j)
  {
    hide Update, Eliminated;
    StepBounds(A, i, k);
    EliminatedStep(A, v', i, k, j);
    EliminatedFrame(A, v, v', i, k, j);
    UpdateFrame(A, v, v', i, v'[k], A.colidx[k], j);
  }

  /** The new multiplier reproduces the value at its own column and adds nothing to its left. */
  lemma MultiplierTerm(A: Pattern, v: seq<real>, v': seq<real>, i: nat, k: nat, p: nat)
    requires WellFormed(A) && |v| == |v'| == |A.colidx| && i < A.m && A.rowptr[i] <= k < A.diagptr[i]
    requires StepTaken(A, v, v', i, k) && NonzeroPivots(A, v, i) && A.rowptr[i] <= p <= k
    ensures Update(A, v, v'[k], A.colidx[k], A.colidx[p]) == if p == k then v[k] else 0.0
  {
    hide Upper, Update, Quotient;
    var c := A.colidx[k];
    StepBounds(A, i, k);
    if p == k {
      UpdateAt(A, v, v'[k], c, A.diagptr[c]);
      QuotientTimes(v[k], v[A.diagptr[c]]);
    } else {
      RowSorted(A, i);
      UpperBelowDiagonal(A, v, c, A.colidx[p]);
      UpdateNone(A, v, v'[k], c, A.colidx[p]);
    }
  }

  lemma PivotsUnchanged(A: Pattern, v: seq<real>, v': seq<real>, i: nat, k: nat)
    requires WellFormed(A) && |v| == |v'| == |A.colidx| && i < A.m && A.rowptr[i] <= k < A.diagptr[i]
    requires forall p | 0 <= p < k :: v'[p] == v[p]
    ensures NonzeroPivots(A, v', i) <==> NonzeroPivots(A, v, i)
  {
    forall c | 0 <= c < i
      ensures A.diagptr[c] < k
    {
      assert A.rowptr[c + 1] <= A.rowptr[i];
    }
  }

  /** Writing row i changes nothing about the rows before it. */
  lemma EarlierRowKept(A: Pattern, orig: seq<real>, v: seq<real>, v': seq<real>, i: nat, r: nat)
    requires WellFormed(A) && |v| == |v'| == |orig| == |A.colidx| && r < i < A.m
    requires forall p | 0 <= p < A.rowptr[i] :: v'[p] == v[p]
    requires RowFactored(A, orig, v, r)
    ensures RowFactored(A, orig, v', r)
  {
    hide Upper, Eliminated;
    assert A.rowptr[r + 1] <= A.rowptr[i];
    forall c | 0 <= c < r
      ensures v'[A.diagptr[c]] == v[A.diagptr[c]]
    {
      assert A.rowptr[c + 1] <= A.rowptr[i];
    }
    forall p | A.rowptr[r] <= p < A.rowptr[r + 1]
      ensures Eliminated(A, v', r, A.diagptr[r], A.colidx[p]) == Eliminated(A, v, r, A.diagptr[r], A.colidx[p])
      ensures Upper(A, v', r, A.colidx[p]) == Upper(A, v, r, A.colidx[p])
    {
      EliminatedFrame(A, v, v', r, A.diagptr[r], A.colidx[p]);
      UpperFrame(A, v, v', i, r, A.colidx[p]);
    }
  }

  // ---------- the algorithm ----------

  /** Where the merge stands: row i updated before j1, and U's row c exhausted before j2. */
  ghost predicate Merged(A: Pattern, v1: seq<real>, v: seq<real>, i: nat, k: nat, j1: nat, j2: nat)
    requires WellFormed(A) && |v| == |v1| == |A.colidx| && i < A.m && A.rowptr[i] <= k < A.diagptr[i]
    requires A.colidx[k] < i
  {
    var c := A.colidx[k];
    && k + 1 <= j1 <= A.rowptr[i + 1] && A.diagptr[c] + 1 <= j2 <= A.rowptr[c + 1]
    && (forall p | 0 <= p < |v| && (p <= k || j1 <= p) :: v[p] == v1[p])
    && (forall p | k < p < j1 :: v[p] == v1[p] - Update(A, v1, v1[k], c, A.colidx[p]))
    && (forall p, q | j1 <= p < A.rowptr[i + 1] && A.diagptr[c] < q < j2 :: A.colidx[q] < A.colidx[p])
  }

  /** No position of U's row c matches column position p once the earlier ones are smaller. */
  lemma Unmatched(A: Pattern, v: seq<real>, i: nat, k: nat, j2: nat, p: nat)
    requires WellFormed(A) && |v| == |A.colidx| && i < A.m && A.rowptr[i] <= k < A.diagptr[i] && A.colidx[k] < i
    requires k < p < A.rowptr[i + 1]
    requires A.diagptr[A.colidx[k]] + 1 <= j2 <= A.rowptr[A.colidx[k] + 1]
    requires forall q | A.diagptr[A.colidx[k]] < q < j2 :: A.colidx[q] < A.colidx[p]
    requires j2 < A.rowptr[A.colidx[k] + 1] ==> A.colidx[p] < A.colidx[j2]
    ensures forall x :: Update(A, v, x, A.colidx[k], A.colidx[p]) == 0.0
  {
    hide Upper, Update;
    var c := A.colidx[k];
    RowSorted(A, i);
    RowSorted(A, c);
    forall q | A.diagptr[c] <= q < A.rowptr[c + 1]
      ensures A.colidx[q] != A.colidx[p]
    {
      if q == A.diagptr[c] {
        assert A.colidx[k] < A.colidx[p];
      } else if j2 < q {
        assert A.colidx[j2] < A.colidx[q];
      }
    }
    UpperAbsent(A, v, c, A.colidx[p]);
    forall x
      ensures Update(A, v, x, c, A.colidx[p]) == 0.0
    {
      UpdateNone(A, v, x, c, A.colidx[p]);
    }
  }

  /** ilu0RefCHiLL */
  method Ilu0(A: Pattern, values: array<real>)
    requires WellFormed(A) && values.Length == |A.colidx|
    modifies values
    ensures forall i, p | 0 <= i < A.m && NonzeroPivots(A, values[..], i) && A.rowptr[i] <= p < A.rowptr[i + 1] ::
              Product(A, values[..], i, A.colidx[p]) == old(values[p])
    ensures forall p | 0 <= p < values.Length && (p < A.rowptr[0] || A.rowptr[A.m] <= p) :: values[p] == old(values[p])
  {
    hide Upper, Eliminated, RowFactored, RowState, Product, NonzeroPivots;
    ghost var orig := values[..];
    for i := 0 to A.m
      invariant forall r | 0 <= r < i :: RowFactored(A, orig, values[..], r)
      invariant forall p | 0 <= p < values.Length && (p < A.rowptr[0] || A.rowptr[i] <= p) :: values[p] == orig[p]
    {
      ghost var before := values[..];
      FreshRow(A, orig, before, i);
      for k := A.rowptr[i] to A.diagptr[i]
        invariant RowState(A, orig, values[..], i, k)
        invariant forall p | 0 <= p < values.Length && (p < A.rowptr[i] || A.rowptr[i + 1] <= p) :: values[p] == before[p]
      {
        StepBounds(A, i, k);
        EliminateStep(A, values, orig, i, k);
      }
      RowEnd(A, orig, values[..], i);
      forall r | 0 <= r < i
        ensures RowFactored(A, orig, values[..], r)
      {
        EarlierRowKept(A, orig, before, values[..], i, r);
      }
    }
    forall i, p | 0 <= i < A.m && NonzeroPivots(A, values[..], i) && A.rowptr[i] <= p < A.rowptr[i + 1]
      ensures Product(A, values[..], i, A.colidx[p]) == orig[p]
    {
      FactorisationEquation(A, orig, values[..], i, p);
    }
  }

  /** A row not yet reached still holds the original values. */
  lemma FreshRow(A: Pattern, orig: seq<real>, v: seq<real>, i: nat)
    requires WellFormed(A) && |v| == |orig| == |A.colidx| && i < A.m
    requires forall p | A.rowptr[i] <= p < |v| :: v[p] == orig[p]
    ensures RowState(A, orig, v, i, A.rowptr[i])
  {
    hide Upper;
  }

  /** The body of the loop over k: divide by the pivot and merge U's row into the rest of row i. */
  method EliminateStep(A: Pattern, values: array<real>, ghost orig: seq<real>, i: nat, k: nat)
    requires WellFormed(A) && values.Length == |orig| == |A.colidx| && i < A.m
    requires A.rowptr[i] <= k < A.diagptr[i] && RowState(A, orig, values[..], i, k)
    modifies values
    ensures RowState(A, orig, values[..], i, k + 1)
    ensures forall p | 0 <= p < values.Length && (p < A.rowptr[i] || A.rowptr[i + 1] <= p) :: values[p] == old(values[p])
  {
    hide Upper, Update, Eliminated, RowState, Merged, StrictlySorted, Quotient;
    ghost var v := values[..];
    StepBounds(A, i, k);
    values[k] := Quotient(values[k], values[A.diagptr[A.colidx[k]]]);
    ghost var v1 := values[..];
    var j1: nat, j2: nat := k + 1, A.diagptr[A.colidx[k]] + 1;
    MergeStart(A, v1, i, k);
    while j1 < A.rowptr[i + 1] && j2 < A.rowptr[A.colidx[k] + 1]
      invariant Merged(A, v1, values[..], i, k, j1, j2)
      invariant k + 1 <= j1 <= A.rowptr[i + 1] && A.diagptr[A.colidx[k]] + 1 <= j2 <= A.rowptr[A.colidx[k] + 1]
      decreases A.rowptr[i + 1] - j1 + A.rowptr[A.colidx[k] + 1] - j2
    {
      ghost var w := values[..];
      if A.colidx[j1] == A.colidx[j2] {
        var product := values[k] * values[j2];
        MergeValue(A, v1, w, i, k, j1, j2, product);
        var updated := values[j1] - product;
        values[j1] := updated;
        assert values[..] == w[j1 := updated];
        MergeMatch(A, v1, w, values[..], i, k, j1, j2, updated);
        j1 := j1 + 1;
        j2 := j2 + 1;
      } else if A.colidx[j1] < A.colidx[j2] {
        MergeSkipInRow(A, v1, w, i, k, j1, j2);
        j1 := j1 + 1;
      } else {
        MergeSkipInPivot(A, v1, w, i, k, j1, j2);
        j2 := j2 + 1;
      }
    }
    MergeDone(A, v, v1, values[..], i, k, j1, j2);
    RowAdvance(A, orig, v, values[..], i, k);
  }

  lemma MergeStart(A: Pattern, v: seq<real>, i: nat, k: nat)
    requires WellFormed(A) && |v| == |A.colidx| && i < A.m && A.rowptr[i] <= k < A.diagptr[i] && A.colidx[k] < i
    ensures Merged(A, v, v, i, k, k + 1, A.diagptr[A.colidx[k]] + 1)
  {
    RowSorted(A, i);
    StepBounds(A, i, k);
  }

  /** At equal columns the product of the stored values is the update. */
  lemma MergeValue(A: Pattern, v1: seq<real>, v: seq<real>, i: nat, k: nat, j1: nat, j2: nat, product: real)
    requires WellFormed(A) && |v| == |v1| == |A.colidx| && i < A.m
    requires A.rowptr[i] <= k < A.diagptr[i] && A.colidx[k] < i && Merged(A, v1, v, i, k, j1, j2)
    requires j1 < A.rowptr[i + 1] && j2 < A.rowptr[A.colidx[k] + 1] && A.colidx[j1] == A.colidx[j2]
    requires product == v[k] * v[j2]
    ensures Update(A, v1, v1[k], A.colidx[k], A.colidx[j1]) == product
  {
    hide Update;
    StepBounds(A, i, k);
    assert v[k] == v1[k] && v[j2] == v1[j2];
    UpdateAt(A, v1, v1[k], A.colidx[k], j2);
  }

  /** Equal columns: the update is applied with U's value for that column. */
  lemma MergeMatch(A: Pattern, v1: seq<real>, v: seq<real>, v': seq<real>, i: nat, k: nat, j1: nat, j2: nat, x: real)
    requires WellFormed(A) && |v| == |v'| == |v1| == |A.colidx| && i < A.m
    requires A.rowptr[i] <= k < A.diagptr[i] && A.colidx[k] < i && Merged(A, v1, v, i, k, j1, j2)
    requires j1 < A.rowptr[i + 1] && j2 < A.rowptr[A.colidx[k] + 1] && A.colidx[j1] == A.colidx[j2]
    requires x == v[j1] - Update(A, v1, v1[k], A.colidx[k], A.colidx[j1]) && v' == v[j1 := x]
    ensures Merged(A, v1, v', i, k, j1 + 1, j2 + 1)
  {
    hide Update;
    RowSorted(A, i);
    RowSorted(A, A.colidx[k]);
  }

  /** The row's column comes first: U has no value there, so nothing is subtracted. */
  lemma MergeSkipInRow(A: Pattern, v1: seq<real>, v: seq<real>, i: nat, k: nat, j1: nat, j2: nat)
    requires WellFormed(A) && |v| == |v1| == |A.colidx| && i < A.m
    requires A.rowptr[i] <= k < A.diagptr[i] && A.colidx[k] < i && Merged(A, v1, v, i, k, j1, j2)
    requires j1 < A.rowptr[i + 1] && j2 < A.rowptr[A.colidx[k] + 1] && A.colidx[j1] < A.colidx[j2]
    ensures Merged(A, v1, v, i, k, j1 + 1, j2)
  {
    hide Update;
    RowSorted(A, i);
    Unmatched(A, v1, i, k, j2, j1);
  }

  /** U's column comes first: the row does not store it, so the update is dropped. */
  lemma MergeSkipInPivot(A: Pattern, v1: seq<real>, v: seq<real>, i: nat, k: nat, j1: nat, j2: nat)
    requires WellFormed(A) && |v| == |v1| == |A.colidx| && i < A.m
    requires A.rowptr[i] <= k < A.diagptr[i] && A.colidx[k] < i && Merged(A, v1, v, i, k, j1, j2)
    requires j1 < A.rowptr[i + 1] && j2 < A.rowptr[A.colidx[k] + 1] && A.colidx[j2] < A.colidx[j1]
    ensures Merged(A, v1, v, i, k, j1, j2 + 1)
  {
    hide Update;
    RowSorted(A, i);
  }

  lemma MergeDone(A: Pattern, v: seq<real>, v1: seq<real>, v2: seq<real>, i: nat, k: nat, j1: nat, j2: nat)
    requires WellFormed(A) && |v| == |v1| == |v2| == |A.colidx| && i < A.m
    requires A.rowptr[i] <= k < A.diagptr[i] && A.colidx[k] < i
    requires v1 == v[k := Quotient(v[k], v[A.diagptr[A.colidx[k]]])]
    requires Merged(A, v1, v2, i, k, j1, j2)
    requires j1 == A.rowptr[i + 1] || j2 == A.rowptr[A.colidx[k] + 1]
    ensures StepTaken(A, v, v2, i, k)
  {
    hide Update, Quotient;
    var c := A.colidx[k];
    StepBounds(A, i, k);
    forall p | k < p < A.rowptr[i + 1]
      ensures v2[p] == v[p] - Update(A, v, v2[k], c, A.colidx[p])
    {
      UpdateFrame(A, v, v1, i, v2[k], c, A.colidx[p]);
      if j1 <= p {
        Unmatched(A, v, i, k, j2, p);
      }
    }
  }

  // ---------- the matrix equation ----------

  /** (L * U)[i][j] is what the row's multipliers eliminated plus U[i][j]. */
  lemma ProductSplit(A: Pattern, v: seq<real>, i: nat, j: nat)
    requires WellFormed(A) && |v| == |A.colidx| && i < A.m
    ensures Product(A, v, i, j) == Eliminated(A, v, i, A.diagptr[i], j) + Upper(A, v, i, j)
  {
    hide Upper, Entry, Sum;
    var lo, hi := A.rowptr[i], A.diagptr[i];
    var u := (c: nat) => Upper(A, v, c, j);
    var f := (c: nat) => Entry(A.colidx, v, lo, hi, c) * u(c);
    var h := (c: nat) => Lower(A, v, i, c) * Upper(A, v, c, j);
    DotIsDense(A.m, A.colidx, v, lo, hi, u, f);
    forall p | lo <= p < hi
      ensures A.colidx[p] != i
    {
      BeforeDiagonal(A, i, p);
    }
    EntryAbsent(A.colidx, v, lo, hi, i);
    forall c: nat | c < A.m
      ensures h(c) == if c == i then f(c) + Upper(A, v, i, j) else f(c)
    {
      DistributeReal(Entry(A.colidx, v, lo, hi, c), if c == i then 1.0 else 0.0, Upper(A, v, c, j));
    }
    SumBump(A.m, f, h, i, Upper(A, v, i, j));
  }

  /**
   At every stored position of a row whose pivots above are nonzero,
   (L * U)[i][j] is the original A[i][j].
   */
  lemma FactorisationEquation(A: Pattern, orig: seq<real>, v: seq<real>, i: nat, p: nat)
    requires WellFormed(A) && |v| == |orig| == |A.colidx| && i < A.m && RowFactored(A, orig, v, i)
    requires NonzeroPivots(A, v, i) && A.rowptr[i] <= p < A.rowptr[i + 1]
    ensures Product(A, v, i, A.colidx[p]) == orig[p]
  {
    hide Upper, Eliminated, Product;
    ProductSplit(A, v, i, A.colidx[p]);
  }
}

/**
 Finite sums of reals, and the dense meaning of a compressed row or column: a range
 lo..hi of positions with an index and a value each.
 */
module SparseVectors {

  ghost function Sum(n: nat, f: nat -> real): real {
    if n == 0 then 0.0 else Sum(n - 1, f) + f(n - 1)
  }

  lemma {:induction false} SumExtensional(n: nat, f: nat -> real, g: nat -> real)
    requires forall k: nat | k < n :: f(k) == g(k)
    ensures Sum(n, f) == Sum(n, g)
  {
    if n != 0 {
      SumExtensional(n - 1, f, g);
    }
  }

  lemma {:induction false} SumZero(n: nat, f: nat -> real)
    requires forall k: nat | k < n :: f(k) == 0.0
    ensures Sum(n, f) == 0.0
  {
    if n != 0 {
      SumZero(n - 1, f);
    }
  }

  /** h = f + c at one index, f elsewhere. */
  lemma {:induction false} SumBump(n: nat, f: nat -> real, h: nat -> real, at: nat, c: real)
    requires at < n && h(at) == f(at) + c
    requires forall k: nat | k < n && k != at :: h(k) == f(k)
    ensures Sum(n, h) == Sum(n, f) + c
  {
    if at == n - 1 {
      SumExtensional(n - 1, h, f);
    } else {
      SumBump(n - 1, f, h, at, c);
    }
  }

  lemma {:induction false} SumAdd(n: nat, f: nat -> real, g: nat -> real, h: nat -> real)
    requires forall k: nat | k < n :: h(k) == f(k) + g(k)
    ensures Sum(n, h) == Sum(n, f) + Sum(n, g)
  {
    if n != 0 {
      SumAdd(n - 1, f, g, h);
    }
  }

  // ---------- compressed vectors ----------

  ghost predicate InRange(idx: seq<nat>, val: seq<real>, lo: nat, hi: nat) {
    lo <= hi <= |idx| && hi <= |val|
  }

  /** The dense entry at j: the sum of the values stored for index j. */
  ghost function Entry(idx: seq<nat>, val: seq<real>, lo: nat, hi: nat, j: nat): real
    requires InRange(idx, val, lo, hi)
    decreases hi
  {
    if lo == hi then 0.0
    else Entry(idx, val, lo, hi - 1, j) + if idx[hi - 1] == j then val[hi - 1] else 0.0
  }

  /** The scalar product with a dense vector, over the stored positions. */
  ghost function Dot(idx: seq<nat>, val: seq<real>, lo: nat, hi: nat, g: nat -> real): real
    requires InRange(idx, val, lo, hi)
    decreases hi
  {
    if lo == hi then 0.0
    else Dot(idx, val, lo, hi - 1, g) + val[hi - 1] * g(idx[hi - 1])
  }

  /**
   A matrix in compressed columns (CSC: major = columns, minor = rows) or in compressed
   rows (CSR: the other way round). Slice j holds positions ptr[j] .. ptr[j+1].
   */
  datatype Compressed = Compressed(major: nat, minor: nat, ptr: seq<nat>, idx: seq<nat>, val: seq<real>)

  ghost predicate WellFormed(A: Compressed) {
    && |A.ptr| == A.major + 1 && |A.idx| <= |A.val|
    && (forall j, k | 0 <= j <= k <= A.major :: A.ptr[j] <= A.ptr[k])
    && (forall j {:trigger A.ptr[j]} | 0 <= j <= A.major :: A.ptr[j] <= |A.idx|)
    && (forall p | 0 <= p < |A.idx| :: A.idx[p] < A.minor)
  }

  /** The dense entry at k of slice j: A[k][j] for CSC, A[j][k] for CSR. */
  ghost function At(A: Compressed, j: nat, k: nat): real
    requires WellFormed(A) && j < A.major
  {
    Entry(A.idx, A.val, A.ptr[j], A.ptr[j + 1], k)
  }

  ghost predicate StrictlySorted(idx: seq<nat>, lo: nat, hi: nat)
    requires hi <= |idx|
  {
    forall p, q | lo <= p < q < hi :: idx[p] < idx[q]
  }

  ghost predicate DistinctIndices(idx: seq<nat>, lo: nat, hi: nat)
    requires hi <= |idx|
  {
    forall p, q | lo <= p < q < hi :: idx[p] != idx[q]
  }

  lemma {:induction false} EntryAbsent(idx: seq<nat>, val: seq<real>, lo: nat, hi: nat, j: nat)
    requires InRange(idx, val, lo, hi) && forall p | lo <= p < hi :: idx[p] != j
    ensures Entry(idx, val, lo, hi, j) == 0.0
    decreases hi
  {
    if lo != hi {
      EntryAbsent(idx, val, lo, hi - 1, j);
    }
  }

  lemma {:induction false} EntryPresent(idx: seq<nat>, val: seq<real>, lo: nat, hi: nat, at: nat)
    requires InRange(idx, val, lo, hi) && lo <= at < hi && DistinctIndices(idx, lo, hi)
    ensures Entry(idx, val, lo, hi, idx[at]) == val[at]
    decreases hi
  {
    if at == hi - 1 {
      EntryAbsent(idx, val, lo, hi - 1, idx[at]);
    } else {
      EntryPresent(idx, val, lo, hi - 1, at);
    }
  }

  lemma {:induction false} EntryFrame(idx: seq<nat>, val: seq<real>, val': seq<real>, lo: nat, hi: nat, j: nat)
    requires InRange(idx, val, lo, hi) && InRange(idx, val', lo, hi)
    requires forall p | lo <= p < hi :: val[p] == val'[p]
    ensures Entry(idx, val, lo, hi, j) == Entry(idx, val', lo, hi, j)
    decreases hi
  {
    if lo != hi {
      EntryFrame(idx, val, val', lo, hi - 1, j);
    }
  }

  lemma {:induction false} DotFrame(idx: seq<nat>, val: seq<real>, val': seq<real>, lo: nat, hi: nat, g: nat -> real, g': nat -> real)
    requires InRange(idx, val, lo, hi) && InRange(idx, val', lo, hi)
    requires forall p | lo <= p < hi :: val[p] == val'[p] && g(idx[p]) == g'(idx[p])
    ensures Dot(idx, val, lo, hi, g) == Dot(idx, val', lo, hi, g')
    decreases hi
  {
    if lo != hi {
      DotFrame(idx, val, val', lo, hi - 1, g, g');
    }
  }

  lemma DistributeReal(a: real, b: real, c: real)
    ensures (a + b) * c == a * c + b * c
  {
  }

  lemma DenseStep(idx: seq<nat>, val: seq<real>, lo: nat, hi: nat, g: nat -> real, j: nat)
    requires InRange(idx, val, lo, hi) && lo < hi
    ensures Entry(idx, val, lo, hi, j) * g(j)
         == Entry(idx, val, lo, hi - 1, j) * g(j) + if j == idx[hi - 1] then val[hi - 1] * g(j) else 0.0
  {
    DistributeReal(Entry(idx, val, lo, hi - 1, j), val[hi - 1], g(j));
  }

  /** The product over the stored positions is the dense product of the entries. */
  lemma {:induction false} DotIsDense(n: nat, idx: seq<nat>, val: seq<real>, lo: nat, hi: nat, g: nat -> real, f: nat -> real)
    requires InRange(idx, val, lo, hi) && forall p | lo <= p < hi :: idx[p] < n
    requires forall j: nat | j < n :: f(j) == Entry(idx, val, lo, hi, j) * g(j)
    ensures Sum(n, f) == Dot(idx, val, lo, hi, g)
    decreases hi
  {
    hide Entry, Sum;
    if lo == hi {
      forall j: nat | j < n
        ensures f(j) == 0.0
      {
        EntryAbsent(idx, val, lo, hi, j);
      }
      SumZero(n, f);
    } else {
      var f' := (j: nat) => Entry(idx, val, lo, hi - 1, j) * g(j);
      DotIsDense(n, idx, val, lo, hi - 1, g, f');
      var at, c := idx[hi - 1], val[hi - 1];
      forall j: nat | j < n
        ensures f(j) == if j == at then f'(j) + c * g(at) else f'(j)
      {
        DenseStep(idx, val, lo, hi, g, j);
      }
      SumBump(n, f', f, at, c * g(at));
    }
  }

  /**
   The quotient of two doubles as exact reals.  Nothing is claimed about what follows a
   zero pivot, so the value for y == 0 is arbitrary.
   */
  function Quotient(x: real, y: real): real {
    if y == 0.0 then 0.0 else x / y
  }

  lemma QuotientTimes(x: real, y: real)
    requires y != 0.0
    ensures Quotient(x, y) * y == x && Quotient(y, y) == 1.0
  {
  }
}

/**
 * The compressed sparse row (CSR) matrix that the row utilities work on:
 * only the row count and the three arrays `indptr`, `indices` and `data`
 * are modelled, not the matrix object around them.
 */
module Csr {

  /** A CSR matrix with `nrows` rows; row `r` stores the entries
      `indices[indptr[r]..indptr[r+1]]` / `data[indptr[r]..indptr[r+1]]`. */
  datatype Matrix<T> = Matrix(nrows: nat, indptr: seq<int>, indices: seq<int>, data: seq<T>)

  /** The one shape fact every CSR matrix object guarantees: one row pointer
      per row plus the end pointer. Nothing is assumed about their values. */
  predicate Shaped<T>(m: Matrix<T>)
  {
    |m.indptr| == m.nrows + 1
  }

  /** A well-formed CSR matrix: the pointers start at 0, never decrease, end at
      the number of stored entries, and every stored entry has a value. */
  predicate WellFormed<T>(m: Matrix<T>)
  {
    && Shaped(m)
    && m.indptr[0] == 0
    && (forall r :: 0 <= r < m.nrows ==> m.indptr[r] <= m.indptr[r + 1])
    && m.indptr[m.nrows] == |m.indices|
    && |m.data| == |m.indices|
  }

  /** Non-decreasing between neighbours means non-decreasing between any two rows. */
  lemma {:induction false} PointersMonotone<T>(m: Matrix<T>, r: nat, s: nat)
    requires WellFormed(m)
    requires r <= s <= m.nrows
    ensures m.indptr[r] <= m.indptr[s]
  {
    if r < s {
      PointersMonotone(m, r, s - 1);
    }
  }

  /** In a well-formed matrix every row pointer lies between 0 and the entry count. */
  lemma PointersInRange<T>(m: Matrix<T>, r: nat)
    requires WellFormed(m)
    requires r <= m.nrows
    ensures 0 <= m.indptr[r] <= |m.indices|
  {
    PointersMonotone(m, 0, r);
    PointersMonotone(m, r, m.nrows);
  }

  /** Every stored entry of a well-formed matrix belongs to some row. */
  lemma EntryHasRow<T>(m: Matrix<T>, j: int)
    requires WellFormed(m)
    requires 0 <= j < |m.indices|
    ensures exists r :: 0 <= r < m.nrows && m.indptr[r] <= j < m.indptr[r + 1]
  {
    // walk down from the last row to the first one whose pointer is <= j
    var r := m.nrows - 1;
    while r > 0 && j < m.indptr[r]
      invariant 0 <= r < m.nrows
      invariant j < m.indptr[r + 1]
    {
      r := r - 1;
    }
    assert m.indptr[r] <= j < m.indptr[r + 1];
  }

  /** The rows of a well-formed matrix occupy disjoint slices. */
  lemma RowsDisjoint<T>(m: Matrix<T>, r: nat, s: nat, j: int)
    requires WellFormed(m)
    requires r < s < m.nrows
    requires m.indptr[r] <= j < m.indptr[r + 1]
    ensures !(m.indptr[s] <= j < m.indptr[s + 1])
  {
    PointersMonotone(m, r + 1, s);
  }
}

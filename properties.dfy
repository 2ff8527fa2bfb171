/**
 * What the row utilities promise: which rows the iterator yields, which row
 * each stored entry receives, and, for a well-formed matrix, that the row
 * index column is sorted and counts every row's entries, and the long-format
 * table together with the row count determines the matrix.
 */
module Properties {
  import opened Csr
  import opened Utils

  // ---------------------------------------------------------------------
  // The row iterator

  /** When row `n - 1` is non-empty, its slice is the last item. */
  lemma LastYield<T>(m: Matrix<T>, n: nat, rs: seq<RowSlice>)
    requires Shaped(m) && 0 < n <= m.nrows
    requires m.indptr[n - 1] < m.indptr[n]
    requires YieldsExactly(m, n, rs)
    ensures |rs| > 0 && rs[|rs| - 1] == SliceOf(m, n - 1)
  {
    assert SliceOf(m, n - 1) in rs;
    var k :| 0 <= k < |rs| && rs[k] == SliceOf(m, n - 1);
  }

  /** When row `n - 1` is non-empty, the items before its slice are what the
      first `n - 1` iterations yield. */
  lemma DropLastYield<T>(m: Matrix<T>, n: nat, rs: seq<RowSlice>)
    requires Shaped(m) && 0 < n <= m.nrows
    requires |rs| > 0 && rs[|rs| - 1] == SliceOf(m, n - 1)
    requires YieldsExactly(m, n, rs)
    ensures YieldsExactly(m, n - 1, rs[..|rs| - 1])
  {
    var prefix := rs[..|rs| - 1];
    forall r | 0 <= r < n - 1 && m.indptr[r] < m.indptr[r + 1]
      ensures SliceOf(m, r) in prefix
    {
      assert SliceOf(m, r) in rs;
      var i :| 0 <= i < |rs| && rs[i] == SliceOf(m, r);
      assert prefix[i] == rs[i];
    }
    forall i | 0 <= i < |prefix|
      ensures prefix[i].row < n - 1
    {
      assert rs[i].row < rs[|rs| - 1].row;
    }
  }

  /** Strictly increasing rows: the `k`-th item is at row `k` or later. */
  lemma {:induction false} IncreasingRowsBound(rs: seq<RowSlice>, k: nat)
    requires forall i, l :: 0 <= i < l < |rs| ==> rs[i].row < rs[l].row
    requires k < |rs|
    ensures rs[k].row >= k
  {
    if k > 0 {
      IncreasingRowsBound(rs, k - 1);
    }
  }

  /** When row `n - 1` is empty, nothing is yielded for it. */
  lemma SkipEmptyRow<T>(m: Matrix<T>, n: nat, rs: seq<RowSlice>)
    requires Shaped(m) && 0 < n <= m.nrows
    requires m.indptr[n - 1] >= m.indptr[n]
    requires YieldsExactly(m, n, rs)
    ensures YieldsExactly(m, n - 1, rs)
  {
    forall i | 0 <= i < |rs|
      ensures rs[i].row < n - 1
    {
      assert rs[i] == SliceOf(m, rs[i].row);
    }
    if |rs| > 0 {
      IncreasingRowsBound(rs, |rs| - 1);
    }
  }

  /** The three properties of `YieldsExactly` pin the yielded items down:
      any sequence that has them is what the iterator yields. */
  lemma {:induction false} YieldsExactlyIsIterRows<T>(m: Matrix<T>, n: nat, rs: seq<RowSlice>)
    requires Shaped(m) && n <= m.nrows
    requires YieldsExactly(m, n, rs)
    ensures rs == IterRowsUpTo(m, n)
  {
    if n == 0 {
    } else if m.indptr[n - 1] < m.indptr[n] {
      LastYield(m, n, rs);
      DropLastYield(m, n, rs);
      YieldsExactlyIsIterRows(m, n - 1, rs[..|rs| - 1]);
      assert rs == rs[..|rs| - 1] + [rs[|rs| - 1]];
    } else {
      SkipEmptyRow(m, n, rs);
      YieldsExactlyIsIterRows(m, n - 1, rs);
    }
  }

  // ---------------------------------------------------------------------
  // Slice assignments in order: the last slice that covers a position wins

  /** A position that no slice covers keeps its initial value. */
  lemma {:induction false} FillRowsUncovered(res: seq<int>, ss: seq<RowSlice>, j: int)
    requires 0 <= j < |res|
    requires forall k :: 0 <= k < |ss| ==> !Covers(ss[k], |res|, j)
    ensures FillRows(res, ss)[j] == res[j]
  {
    if ss != [] {
      FillRowsUncovered(res, ss[..|ss| - 1], j);
    }
  }

  /** A position receives the row of the last slice that covers it. */
  lemma {:induction false} FillRowsLastCover(res: seq<int>, ss: seq<RowSlice>, k: int, j: int)
    requires 0 <= j < |res|
    requires 0 <= k < |ss| && Covers(ss[k], |res|, j)
    requires forall l :: k < l < |ss| ==> !Covers(ss[l], |res|, j)
    ensures FillRows(res, ss)[j] == ss[k].row
  {
    if k < |ss| - 1 {
      FillRowsLastCover(res, ss[..|ss| - 1], k, j);
    }
  }

  /** An entry that no non-empty row's slice covers keeps the initial 0. */
  lemma RowIndicesUncovered<T>(m: Matrix<T>, j: int)
    requires Shaped(m)
    requires 0 <= j < |m.indices|
    requires forall r :: 0 <= r < m.nrows && m.indptr[r] < m.indptr[r + 1] ==> !Covers(SliceOf(m, r), |m.indices|, j)
    ensures RowIndices(m)[j] == 0
  {
    var ss := IterRows(m);
    IterRowsUpToYieldsExactly(m, m.nrows);
    forall k | 0 <= k < |ss|
      ensures !Covers(ss[k], |m.indices|, j)
    {
      assert ss[k] == SliceOf(m, ss[k].row);
    }
    FillRowsUncovered(Zeros(|m.indices|), ss, j);
  }

  /** An entry covered by the slice of non-empty row `r`, and by the slice of
      no later non-empty row, receives `r`. */
  lemma RowIndicesCovered<T>(m: Matrix<T>, r: nat, j: int)
    requires Shaped(m)
    requires 0 <= j < |m.indices|
    requires r < m.nrows && m.indptr[r] < m.indptr[r + 1]
    requires Covers(SliceOf(m, r), |m.indices|, j)
    requires forall s :: r < s < m.nrows && m.indptr[s] < m.indptr[s + 1] ==> !Covers(SliceOf(m, s), |m.indices|, j)
    ensures RowIndices(m)[j] == r
  {
    var ss := IterRows(m);
    IterRowsUpToYieldsExactly(m, m.nrows);
    assert SliceOf(m, r) in ss;
    var k :| 0 <= k < |ss| && ss[k] == SliceOf(m, r);
    forall l | k < l < |ss|
      ensures !Covers(ss[l], |m.indices|, j)
    {
      assert ss[l] == SliceOf(m, ss[l].row);
    }
    FillRowsLastCover(Zeros(|m.indices|), ss, k, j);
  }

  /** Every value after the slice assignments is the initial one or the row
      of one of the slices. */
  lemma {:induction false} FillRowsValues(res: seq<int>, ss: seq<RowSlice>, j: int)
    requires 0 <= j < |res|
    ensures FillRows(res, ss)[j] == res[j] || exists k :: 0 <= k < |ss| && FillRows(res, ss)[j] == ss[k].row
  {
    if ss != [] {
      var init := ss[..|ss| - 1];
      FillRowsValues(res, init, j);
      if FillRows(res, ss)[j] != ss[|ss| - 1].row && FillRows(res, ss)[j] != res[j] {
        var k :| 0 <= k < |init| && FillRows(res, init)[j] == init[k].row;
        assert FillRows(res, ss)[j] == ss[k].row;
      }
    }
  }

  /** Whatever the pointers hold, every row index is 0 or a row of the matrix. */
  lemma RowIndicesRange<T>(m: Matrix<T>, j: int)
    requires Shaped(m)
    requires 0 <= j < |m.indices|
    ensures 0 <= RowIndices(m)[j]
    ensures m.nrows > 0 ==> RowIndices(m)[j] < m.nrows
    ensures m.nrows == 0 ==> RowIndices(m)[j] == 0
  {
    IterRowsUpToYieldsExactly(m, m.nrows);
    FillRowsValues(Zeros(|m.indices|), IterRows(m), j);
  }

  // ---------------------------------------------------------------------
  // Well-formed matrices

  /** In a well-formed matrix slices need no normalisation. */
  lemma CoversWellFormed<T>(m: Matrix<T>, r: nat, j: int)
    requires WellFormed(m)
    requires r < m.nrows
    ensures Covers(SliceOf(m, r), |m.indices|, j) <==> m.indptr[r] <= j < m.indptr[r + 1]
  {
    PointersInRange(m, r);
    PointersInRange(m, r + 1);
  }

  /** In a well-formed matrix every entry of row `r`'s slice receives `r`. */
  lemma RowIndicesInSlice<T>(m: Matrix<T>, r: nat, j: int)
    requires WellFormed(m)
    requires r < m.nrows && 0 <= j < |m.indices|
    requires m.indptr[r] <= j < m.indptr[r + 1]
    ensures RowIndices(m)[j] == r
  {
    PointersInRange(m, r);
    PointersInRange(m, r + 1);
    CoversWellFormed(m, r, j);
    forall s | r < s < m.nrows && m.indptr[s] < m.indptr[s + 1]
      ensures !Covers(SliceOf(m, s), |m.indices|, j)
    {
      CoversWellFormed(m, s, j);
      RowsDisjoint(m, r, s, j);
    }
    RowIndicesCovered(m, r, j);
  }

  /** In a well-formed matrix the row index of entry `j` is `r` exactly when
      `j` lies in row `r`'s slice of the pointers. */
  lemma RowIndicesOfRow<T>(m: Matrix<T>, r: nat, j: int)
    requires WellFormed(m)
    requires r < m.nrows && 0 <= j < |m.indices|
    ensures RowIndices(m)[j] == r <==> m.indptr[r] <= j < m.indptr[r + 1]
  {
    if m.indptr[r] <= j < m.indptr[r + 1] {
      RowIndicesInSlice(m, r, j);
    } else {
      EntryHasRow(m, j);
      var owner :| 0 <= owner < m.nrows && m.indptr[owner] <= j < m.indptr[owner + 1];
      RowIndicesInSlice(m, owner, j);
    }
  }

  /** A row index column that never decreases. */
  ghost predicate Sorted(rows: seq<int>)
  {
    forall i, j :: 0 <= i <= j < |rows| ==> rows[i] <= rows[j]
  }

  /** In a well-formed matrix every row index is a row of the matrix, and the
      row index column never decreases. */
  lemma RowIndicesSorted<T>(m: Matrix<T>)
    requires WellFormed(m)
    ensures forall j :: 0 <= j < |m.indices| ==> 0 <= RowIndices(m)[j] < m.nrows
    ensures Sorted(RowIndices(m))
  {
    var rows := RowIndices(m);
    forall j | 0 <= j < |m.indices|
      ensures 0 <= rows[j] < m.nrows
    {
      EntryHasRow(m, j);
      var r :| 0 <= r < m.nrows && m.indptr[r] <= j < m.indptr[r + 1];
      RowIndicesOfRow(m, r, j);
    }
    forall i, j | 0 <= i <= j < |m.indices|
      ensures rows[i] <= rows[j]
    {
      RowIndicesOfRow(m, rows[i], i);
      RowIndicesOfRow(m, rows[j], j);
      if rows[j] < rows[i] {
        PointersMonotone(m, rows[j] + 1, rows[i]);
      }
    }
  }

  /** A value that occurs exactly at the positions `lo..hi` occurs `hi - lo` times. */
  lemma {:induction false} OccurrencesOfInterval(s: seq<int>, x: int, lo: int, hi: int)
    requires 0 <= lo <= hi <= |s|
    requires forall j :: 0 <= j < |s| ==> (s[j] == x <==> lo <= j < hi)
    ensures multiset(s)[x] == hi - lo
  {
    if s != [] {
      var n := |s| - 1;
      var init := s[..n];
      assert s == init + [s[n]];
      var lo', hi' := if lo < n then lo else n, if hi < n then hi else n;
      OccurrencesOfInterval(init, x, lo', hi');
    }
  }

  /** In a well-formed matrix row `r` occurs in the row index column exactly
      as often as it has stored entries. */
  lemma RowIndicesCount<T>(m: Matrix<T>, r: nat)
    requires WellFormed(m)
    requires r < m.nrows
    ensures multiset(RowIndices(m))[r] == m.indptr[r + 1] - m.indptr[r]
  {
    PointersInRange(m, r);
    PointersInRange(m, r + 1);
    forall j | 0 <= j < |m.indices|
      ensures RowIndices(m)[j] == r <==> m.indptr[r] <= j < m.indptr[r + 1]
    {
      RowIndicesOfRow(m, r, j);
    }
    OccurrencesOfInterval(RowIndices(m), r, m.indptr[r], m.indptr[r + 1]);
  }

  // ---------------------------------------------------------------------
  // The inverse: compressing a sorted row index column into row pointers

  /** The number of entries of `rows` that lie in rows below `r`. */
  function CountBelow(rows: seq<int>, r: int): (c: nat)
    ensures c <= |rows|
  {
    if rows == [] then 0
    else CountBelow(rows[..|rows| - 1], r) + (if rows[|rows| - 1] < r then 1 else 0)
  }

  /** The row pointers of a row index column: row `r` starts after every
      entry of an earlier row. */
  function RowPointers(rows: seq<int>, nrows: nat): (ptr: seq<int>)
    ensures |ptr| == nrows + 1
    ensures forall r :: 0 <= r <= nrows ==> 0 <= ptr[r] <= |rows|
  {
    seq(nrows + 1, r requires 0 <= r <= nrows => CountBelow(rows, r))
  }

  /** If exactly the first `k` entries lie below row `r`, then `k` entries do. */
  lemma {:induction false} CountBelowThreshold(rows: seq<int>, r: int, k: int)
    requires 0 <= k <= |rows|
    requires forall j :: 0 <= j < |rows| ==> (rows[j] < r <==> j < k)
    ensures CountBelow(rows, r) == k
  {
    if rows != [] {
      var n := |rows| - 1;
      CountBelowThreshold(rows[..n], r, if k < n then k else n);
    }
  }

  /** In a sorted column the entries below row `r` are exactly the first ones. */
  lemma {:induction false} SortedCountBelow(rows: seq<int>, r: int)
    requires Sorted(rows)
    ensures forall j :: 0 <= j < |rows| ==> (rows[j] < r <==> j < CountBelow(rows, r))
  {
    if rows != [] {
      var n := |rows| - 1;
      SortedCountBelow(rows[..n], r);
      if rows[n] < r && n > 0 {
        assert rows[n - 1] < r;
        assert rows[..n][n - 1] == rows[n - 1];
      }
    }
  }

  /** Expanding the pointers and compressing the result gives the pointers back. */
  lemma RowPointersOfRowIndices<T>(m: Matrix<T>)
    requires WellFormed(m)
    ensures RowPointers(RowIndices(m), m.nrows) == m.indptr
  {
    var rows := RowIndices(m);
    RowIndicesSorted(m);
    forall r | 0 <= r <= m.nrows
      ensures CountBelow(rows, r) == m.indptr[r]
    {
      forall j | 0 <= j < |rows|
        ensures rows[j] < r <==> j < m.indptr[r]
      {
        var owner := rows[j];
        RowIndicesOfRow(m, owner, j);
        if owner < r {
          PointersMonotone(m, owner + 1, r);
        } else {
          PointersMonotone(m, r, owner);
        }
      }
      PointersInRange(m, r);
      CountBelowThreshold(rows, r, m.indptr[r]);
    }
  }

  /** Compressing a sorted column of rows below `nrows` gives well-formed
      pointers, and expanding those pointers gives the column back. */
  lemma RowIndicesOfRowPointers<T>(nrows: nat, rows: seq<int>, indices: seq<int>, data: seq<T>)
    requires |indices| == |rows| && |data| == |rows|
    requires Sorted(rows)
    requires forall j :: 0 <= j < |rows| ==> 0 <= rows[j] < nrows
    ensures WellFormed(Matrix(nrows, RowPointers(rows, nrows), indices, data))
    ensures RowIndices(Matrix(nrows, RowPointers(rows, nrows), indices, data)) == rows
  {
    var ptr := RowPointers(rows, nrows);
    var m := Matrix(nrows, ptr, indices, data);
    forall r | 0 <= r <= nrows
      ensures forall j :: 0 <= j < |rows| ==> (rows[j] < r <==> j < ptr[r])
    {
      SortedCountBelow(rows, r);
    }
    CountBelowThreshold(rows, 0, 0);
    CountBelowThreshold(rows, nrows, |rows|);
    forall r | 0 <= r < nrows
      ensures ptr[r] <= ptr[r + 1]
    {
      if ptr[r] > 0 {
        assert rows[ptr[r] - 1] < r;
      }
    }
    assert WellFormed(m);
    forall j | 0 <= j < |rows|
      ensures RowIndices(m)[j] == rows[j]
    {
      RowIndicesOfRow(m, rows[j], j);
    }
  }

  // ---------------------------------------------------------------------
  // The long-format table

  /** The table of a well-formed matrix has one triple per stored entry, in
      storage order: triple `j` names the row whose slice holds entry `j`,
      and carries that entry's column and value unchanged. */
  lemma FrameTriples<T>(m: Matrix<T>)
    requires WellFormed(m)
    ensures ToFrame(m).Ok? && |ToFrame(m).value| == |m.indices|
    ensures forall j :: 0 <= j < |m.indices| ==>
      var t := ToFrame(m).value[j];
      && 0 <= t.row < m.nrows
      && m.indptr[t.row] <= j < m.indptr[t.row + 1]
      && t.col == m.indices[j]
      && t.value == m.data[j]
  {
    var table := ToFrame(m).value;
    RowIndicesSorted(m);
    forall j | 0 <= j < |m.indices|
      ensures m.indptr[table[j].row] <= j < m.indptr[table[j].row + 1]
    {
      assert table[j].row == Rows(table)[j];
      RowIndicesOfRow(m, table[j].row, j);
    }
    assert forall j :: 0 <= j < |m.indices| ==> table[j].col == Cols(table)[j] && table[j].value == Values(table)[j];
  }

  /** Rebuilds a matrix from its long-format table. */
  function FromFrame<T>(frame: seq<Triple<T>>, nrows: nat): Matrix<T>
  {
    Matrix(nrows, RowPointers(Rows(frame), nrows), Cols(frame), Values(frame))
  }

  /** The table of a well-formed matrix is built, and rebuilding the matrix
      from it gives the matrix back: no stored entry is lost or moved. */
  lemma FrameRoundTrip<T>(m: Matrix<T>)
    requires WellFormed(m)
    ensures ToFrame(m).Ok?
    ensures FromFrame(ToFrame(m).value, m.nrows) == m
  {
    RowPointersOfRowIndices(m);
  }

  /** A table whose rows are sorted and below `nrows` is the table of the
      matrix rebuilt from it. */
  lemma FrameOfFromFrame<T>(frame: seq<Triple<T>>, nrows: nat)
    requires Sorted(Rows(frame))
    requires forall j :: 0 <= j < |frame| ==> 0 <= frame[j].row < nrows
    ensures WellFormed(FromFrame(frame, nrows))
    ensures ToFrame(FromFrame(frame, nrows)) == Ok(frame)
  {
    RowIndicesOfRowPointers(nrows, Rows(frame), Cols(frame), Values(frame));
    var table := ToFrame(FromFrame(frame, nrows)).value;
    forall j | 0 <= j < |frame|
      ensures table[j] == frame[j]
    {
      assert table[j].row == Rows(table)[j] == Rows(frame)[j];
      assert table[j].col == Cols(table)[j];
      assert table[j].value == Values(table)[j];
    }
    assert table == frame;
  }
}

/**
 * The CSR row utilities: iterating over the non-empty row slices of a CSR
 * matrix, expanding the row pointers into one row index per stored entry
 * (CSR to coordinate form), and the long-format (row, col, data) triples.
 *
 * Slices follow array slicing semantics of the host array library: a
 * negative bound counts from the end, and bounds are clamped to the array.
 */
module Utils {
  import opened Csr

  /** One item yielded by the row iterator: a row and its raw slice bounds. */
  datatype RowSlice = RowSlice(row: nat, lo: int, hi: int)

  /** The slice of row `r`, as read from the row pointers. */
  function SliceOf<T>(m: Matrix<T>, r: nat): RowSlice
    requires Shaped(m) && r < m.nrows
  {
    RowSlice(r, m.indptr[r], m.indptr[r + 1])
  }

  /** `rs` is exactly what iterating over the first `n` rows yields: each item
      is the slice of its row, that slice is non-empty, rows come in strictly
      increasing order (so there are at most `n` items), and every non-empty
      row below `n` is there. */
  ghost predicate YieldsExactly<T>(m: Matrix<T>, n: nat, rs: seq<RowSlice>)
    requires Shaped(m) && n <= m.nrows
  {
    && |rs| <= n
    && (forall k :: 0 <= k < |rs| ==> rs[k].row < n && rs[k] == SliceOf(m, rs[k].row) && rs[k].lo < rs[k].hi)
    && (forall k, l :: 0 <= k < l < |rs| ==> rs[k].row < rs[l].row)
    && (forall r :: 0 <= r < n && m.indptr[r] < m.indptr[r + 1] ==> SliceOf(m, r) in rs)
  }

  /** The items the row iterator yields during its first `n` iterations. */
  function IterRowsUpTo<T>(m: Matrix<T>, n: nat): (rs: seq<RowSlice>)
    requires Shaped(m) && n <= m.nrows
    ensures |rs| <= n
  {
    if n == 0 then []
    else
      var prev := IterRowsUpTo(m, n - 1);
      var lo, hi := m.indptr[n - 1], m.indptr[n];
      if hi > lo then prev + [RowSlice(n - 1, lo, hi)] else prev
  }

  /** Iteration `n - 1` extends what was yielded before it with the slice of
      row `n - 1` when that slice is non-empty. */
  lemma YieldStep<T>(m: Matrix<T>, n: nat, prev: seq<RowSlice>)
    requires Shaped(m) && 0 < n <= m.nrows
    requires YieldsExactly(m, n - 1, prev)
    ensures m.indptr[n - 1] < m.indptr[n] ==> YieldsExactly(m, n, prev + [SliceOf(m, n - 1)])
    ensures m.indptr[n - 1] >= m.indptr[n] ==> YieldsExactly(m, n, prev)
  {
    if m.indptr[n - 1] < m.indptr[n] {
      var rs := prev + [SliceOf(m, n - 1)];
      forall r | 0 <= r < n && m.indptr[r] < m.indptr[r + 1]
        ensures SliceOf(m, r) in rs
      {
        if r < n - 1 {
          var i :| 0 <= i < |prev| && prev[i] == SliceOf(m, r);
          assert rs[i] == prev[i];
        } else {
          assert rs[|rs| - 1] == SliceOf(m, r);
        }
      }
    }
  }

  /** The first `n` iterations yield exactly the non-empty rows below `n`,
      in increasing order, each with its own slice. */
  lemma {:induction false} IterRowsUpToYieldsExactly<T>(m: Matrix<T>, n: nat)
    requires Shaped(m) && n <= m.nrows
    ensures YieldsExactly(m, n, IterRowsUpTo(m, n))
  {
    if n > 0 {
      IterRowsUpToYieldsExactly(m, n - 1);
      YieldStep(m, n, IterRowsUpTo(m, n - 1));
    }
  }

  /** Everything the row iterator yields. */
  function IterRows<T>(m: Matrix<T>): seq<RowSlice>
    requires Shaped(m)
  {
    IterRowsUpTo(m, m.nrows)
  }

  /** The row iterator as the loop it is: visit every row in order and emit
      the row and its slice when the slice is non-empty. */
  method SparseIterRows<T>(m: Matrix<T>) returns (rs: seq<RowSlice>)
    requires Shaped(m)
    ensures rs == IterRows(m)
  {
    rs := [];
    for row := 0 to m.nrows
      invariant rs == IterRowsUpTo(m, row)
    {
      var lo, hi := m.indptr[row], m.indptr[row + 1];
      if hi > lo {
        rs := rs + [RowSlice(row, lo, hi)];
      }
    }
  }

  /** Normalises a slice bound for an array of length `len`: a negative bound
      counts from the end, and the result is clamped to `0..len`. */
  function Clamp(i: int, len: nat): (k: nat)
    ensures k <= len
    ensures 0 <= i <= len ==> k == i
  {
    if i < 0 then (if i + len < 0 then 0 else i + len)
    else if i > len then len
    else i
  }

  /** Position `j` of an array of length `len` lies in the slice `s`. */
  predicate Covers(s: RowSlice, len: nat, j: int)
  {
    Clamp(s.lo, len) <= j < Clamp(s.hi, len)
  }

  /** `res` after the slice assignment `res[s.lo:s.hi] = s.row`: with bounds
      inside the array, the positions `s.lo..s.hi` are overwritten and the
      rest is kept; a slice that starts at or past the end changes nothing. */
  function Assign(res: seq<int>, s: RowSlice): (r: seq<int>)
    ensures |r| == |res|
    ensures 0 <= s.lo <= s.hi <= |res| ==> r == res[..s.lo] + seq(s.hi - s.lo, _ => s.row) + res[s.hi..]
    ensures s.lo >= |res| ==> r == res
  {
    seq(|res|, j requires 0 <= j < |res| => if Covers(s, |res|, j) then s.row else res[j])
  }

  /** `res` after the slice assignments of `ss`, in order. */
  function FillRows(res: seq<int>, ss: seq<RowSlice>): (r: seq<int>)
    ensures |r| == |res|
  {
    if ss == [] then res else Assign(FillRows(res, ss[..|ss| - 1]), ss[|ss| - 1])
  }

  function Zeros(n: nat): seq<int>
  {
    seq(n, _ => 0)
  }

  /** The row index of every stored entry: a zero array as long as `indices`
      in which every yielded row slice has been overwritten with its row. */
  function RowIndices<T>(m: Matrix<T>): (res: seq<int>)
    requires Shaped(m)
    ensures |res| == |m.indices|
  {
    FillRows(Zeros(|m.indices|), IterRows(m))
  }

  /** Allocates a zero array as long as `indices` and, for every yielded row,
      assigns the row to its slice. */
  method SparseRowIndices<T>(m: Matrix<T>) returns (res: array<int>)
    requires Shaped(m)
    ensures fresh(res)
    ensures res.Length == |m.indices|
    ensures res[..] == RowIndices(m)
  {
    res := new int[|m.indices|](_ => 0);
    var slices := SparseIterRows(m);
    for k := 0 to |slices|
      invariant res[..] == FillRows(Zeros(res.Length), slices[..k])
    {
      var s := slices[k];
      var lo, hi := Clamp(s.lo, res.Length), Clamp(s.hi, res.Length);
      forall j | lo <= j < hi {
        res[j] := s.row;
      }
      assert slices[..k + 1][..k] == slices[..k];
    }
    assert slices[..|slices|] == slices;
  }

  /** One row of the long-format table. */
  datatype Triple<T> = Triple(row: int, col: int, value: T)

  /** Building the table fails when its columns differ in length. */
  datatype FrameError = LengthMismatch(rows: nat, values: nat)

  datatype Result<R> = Ok(value: R) | Err(error: FrameError)

  function Rows<T>(frame: seq<Triple<T>>): (s: seq<int>)
    ensures |s| == |frame|
    ensures forall j :: 0 <= j < |frame| ==> s[j] == frame[j].row
  {
    seq(|frame|, j requires 0 <= j < |frame| => frame[j].row)
  }

  function Cols<T>(frame: seq<Triple<T>>): (s: seq<int>)
    ensures |s| == |frame|
    ensures forall j :: 0 <= j < |frame| ==> s[j] == frame[j].col
  {
    seq(|frame|, j requires 0 <= j < |frame| => frame[j].col)
  }

  function Values<T>(frame: seq<Triple<T>>): (s: seq<T>)
    ensures |s| == |frame|
    ensures forall j :: 0 <= j < |frame| ==> s[j] == frame[j].value
  {
    seq(|frame|, j requires 0 <= j < |frame| => frame[j].value)
  }

  /** The long-format table of a matrix: the row index column next to the
      `indices` and `data` columns, one triple per stored entry in storage
      order; it fails when `data` and `indices` differ in length. */
  function ToFrame<T>(m: Matrix<T>): (r: Result<seq<Triple<T>>>)
    requires Shaped(m)
    ensures r.Ok? <==> |m.data| == |m.indices|
    ensures r.Err? ==> r.error == LengthMismatch(|m.indices|, |m.data|)
    ensures r.Ok? ==> Rows(r.value) == RowIndices(m) && Cols(r.value) == m.indices && Values(r.value) == m.data
  {
    if |m.data| != |m.indices| then Err(LengthMismatch(|m.indices|, |m.data|))
    else
      var rows := RowIndices(m);
      Ok(seq(|m.indices|, j requires 0 <= j < |m.indices| => Triple(rows[j], m.indices[j], m.data[j])))
  }
}

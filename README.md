# CSR row utilities of probabilistic TF-IDF, in Dafny

The probabilistic TF-IDF package keeps its token counts in compressed sparse
row (CSR) matrices. Its row utilities do three things:

- walk the row pointer array `indptr` and yield `(row, slice)` for every row
  whose slice `indptr[row]..indptr[row + 1]` is non-empty;
- expand the row pointers into one row index per stored entry, aligned with
  `indices`: start from a zero array as long as `indices` and write each
  yielded row into its slice;
- turn a matrix into a long-format table of `(row, col, data)` triples.

This project models those three operations and proves what they promise.

- `csr.dfy` (module `Csr`): the matrix as its row count and the three arrays
  `indptr`, `indices` and `data`. `Shaped` is the only fact about them that
  the code relies on: there is one pointer per row plus the end pointer.
  `WellFormed` adds the rest of the CSR format: the pointers start at 0, never
  decrease, and end at the entry count, and `data` is as long as `indices`.
- `utils.dfy` (module `Utils`): the operations.
  - The iterator is a loop method (`SparseIterRows`) proved equal to a
    recursive function (`IterRowsUpTo`). The function is characterised by
    `YieldsExactly`.
  - The row-index expansion is a method (`SparseRowIndices`). It fills a fresh
    array with one `forall` slice assignment per yielded row, and is proved
    equal to the function `RowIndices`.
  - The table is the function `ToFrame`.
- `properties.dfy` (module `Properties`): the lemmas.
  - Which entry receives which row, for any shaped matrix.
  - For a well-formed matrix: entry `j` gets row `r` exactly when `j` lies in
    row `r`'s slice; the row index column is sorted; each row occurs as often
    as it has entries.
  - Compressing a sorted row index column back into row pointers
    (`RowPointers`) inverts the expansion in both directions.
  - For a well-formed matrix, the table together with the row count
    determines the matrix (`FrameRoundTrip`). The table alone does not record
    the row count, so trailing empty rows are not visible in it.

The model requires only that shape fact, so the pointers may hold any values.
This is deliberately more general than a freshly constructed matrix object,
which also starts its pointers at 0 and has `indices` and `data` of equal
length; those arrays can be replaced after construction, and the model covers
that case too. A slice is read the way the array library reads one: a
negative bound counts from the end of the array, and both bounds are clamped
to the array (`Clamp`). Slices may therefore overlap, and a later row then
overwrites an earlier one. The well-formed case is the one where every entry
lies in exactly one row's slice.

## Model

| member | source | states |
|---|---|---|
| `Utils.IterRowsUpToYieldsExactly` | src/ptfidf/utils.py:5-10 | the iterator yields exactly the rows with `hi > lo`, each at most once, in strictly increasing order, all below the row count, each with the slice `indptr[row]..indptr[row + 1]` |
| `Utils.YieldStep` | src/ptfidf/utils.py:7-10 | one loop iteration appends row `n - 1` with its slice when that slice is non-empty, and adds nothing when it is empty |
| `Utils.IterRowsUpTo` | src/ptfidf/utils.py:7-10 | the recursive model of the first `n` loop iterations yields at most `n` items; what it yields is stated by `Utils.IterRowsUpToYieldsExactly` |
| `Utils.SparseIterRows` | src/ptfidf/utils.py:5-10 | the loop over all rows returns exactly the items the iterator yields |
| `Properties.YieldsExactlyIsIterRows` | src/ptfidf/utils.py:5-10 | the iterator's characterisation is complete: any sequence with those properties is what the iterator yields |
| `Properties.SkipEmptyRow` | src/ptfidf/utils.py:8-9 | an empty row yields nothing |
| `Utils.Clamp` | src/ptfidf/utils.py:17 | a slice bound is normalised into `0..len`, and a bound already in range is kept |
| `Utils.Assign` | src/ptfidf/utils.py:17 | one slice assignment `res[slc] = row` keeps the array length; with bounds inside the array it overwrites exactly the positions `lo..hi` with the row and keeps the rest; a slice starting at or past the end changes nothing (other bounds are normalised by `Utils.Clamp`) |
| `Utils.FillRows` | src/ptfidf/utils.py:16-17 | the slice assignments of all yielded rows, in order, keep the array length; the value each position ends with is stated by `Properties.FillRowsUncovered` and `Properties.FillRowsLastCover` (the last covering slice wins) |
| `Utils.RowIndices` | src/ptfidf/utils.py:13-18 | the row index array is exactly as long as `indices` |
| `Utils.SparseRowIndices` | src/ptfidf/utils.py:13-18 | returns a fresh array as long as `indices` whose contents are the row indices: zeros, then each yielded row written over its slice |
| `Properties.FillRowsUncovered` | src/ptfidf/utils.py:15-17 | after the slice assignments, a position that no slice covers keeps its initial value |
| `Properties.FillRowsLastCover` | src/ptfidf/utils.py:16-17 | after the slice assignments, a position holds the row of the last slice that covers it |
| `Properties.FillRowsValues` | src/ptfidf/utils.py:15-17 | every value after the slice assignments is the initial value or the row of one of the slices |
| `Properties.RowIndicesUncovered` | src/ptfidf/utils.py:15-17 | an entry in no non-empty row's slice stays 0 |
| `Properties.RowIndicesCovered` | src/ptfidf/utils.py:16-17 | an entry in the slice of non-empty row `r`, and of no later non-empty row, gets `r` |
| `Properties.RowIndicesRange` | src/ptfidf/utils.py:15-17 | for any pointers, every row index is non-negative and below the row count; with no rows, every row index is 0 |
| `Properties.RowIndicesInSlice` | src/ptfidf/utils.py:13-18 | in a well-formed matrix every entry of row `r`'s slice gets `r` |
| `Properties.RowIndicesOfRow` | src/ptfidf/utils.py:13-18 | in a well-formed matrix, entry `j` gets row `r` if and only if `indptr[r] <= j < indptr[r + 1]` |
| `Properties.RowIndicesSorted` | src/ptfidf/utils.py:13-18 | in a well-formed matrix every row index is a row of the matrix, and the row index array is non-decreasing |
| `Properties.RowIndicesCount` | src/ptfidf/utils.py:13-18 | in a well-formed matrix row `r` occurs exactly `indptr[r + 1] - indptr[r]` times |
| `Properties.RowPointersOfRowIndices` | src/ptfidf/utils.py:13-18 | expanding well-formed row pointers and compressing the result gives back the same pointers |
| `Properties.RowIndicesOfRowPointers` | src/ptfidf/utils.py:13-18 | compressing a sorted column of rows below the row count gives well-formed pointers, and expanding them gives back the same column |
| `Utils.ToFrame` | src/ptfidf/utils.py:21-23 | the table is built exactly when `data` is as long as `indices`, and is otherwise a length-mismatch error; when built, its columns are the row indices, `indices` and `data`, in storage order |
| `Properties.FrameTriples` | src/ptfidf/utils.py:21-23 | for a well-formed matrix there is one triple per stored entry; triple `j` names the row whose slice holds `j` and carries `indices[j]` and `data[j]` unchanged |
| `Properties.FrameRoundTrip` | src/ptfidf/utils.py:21-23 | the matrix rebuilt from the table of a well-formed matrix, given its row count, is that matrix |
| `Properties.FrameOfFromFrame` | src/ptfidf/utils.py:21-23 | a table with sorted rows below the row count is the table of the matrix rebuilt from it |

## Left out

- The data frame object that the table is handed to is a foreign library call. Only the
  sequence of triples is modelled, together with the library's refusal of columns of
  different lengths, which becomes the `LengthMismatch` error.
- The sparse matrix object is not modelled. Only its row count and its `indptr`, `indices`
  and `data` arrays are. The model requires one row pointer per row plus the end pointer,
  the only fact the code relies on. On a freshly constructed object `indices` and `data`
  also have equal lengths, so the `LengthMismatch` path is reachable only after one of
  those arrays has been replaced. The column count is not modelled; no operation
  here reads it.
- The iterator is lazy (a generator). It is modelled as the complete sequence it yields.
  Its only consumer reads the matrix and writes to a separate array, so the interleaving
  of the two changes nothing.
- The row index array has the integer type of `indices`. The model uses unbounded
  integers; every value written is a row number, which that type holds.
- The Beta-Bernoulli observation model, the MAP estimator, the Beta distribution and
  entity statistics types are outside this model: they are floating-point
  special-function arithmetic and numerical optimisation. This includes the log-Beta normaliser and
  expected log-probability helpers that serve as a floating-point oracle in
  tests/test_observation_model.py.

# pggraphblas matrix core in Dafny

This project models `src/matrix.c` of pggraphblas, a PostgreSQL extension that puts
SuiteSparse:GraphBLAS matrices into SQL. A matrix here is a value
`Matrix(nrows, ncols, entries)`: a shape and a finite map from `(row, col)` to an
int64 value, where every key lies inside the shape (`Matrix.Valid`). The GraphBLAS
calls the extension makes are given the meaning that the GraphBLAS C API
Specification assigns them: `GrB_Matrix_new`, `GrB_Matrix_build` (section 4.2.5),
`GrB_Matrix_nrows/ncols/nvals`, `GrB_Matrix_extractTuples`, `GrB_mxm` (section 4.3.1)
and `GrB_eWiseMult` (section 4.3.4). `CHECK` is read as "abort the SQL call on any
GrB_Info other than success". Every error is therefore a `Result.Err`. It is either
`GraphBLAS(info)` or `Host(message)`, the second carrying the message PostgreSQL
raises, from the extension or from palloc.

Modules, one per component of the file:

- `Common` (common.dfy): `Option`, `Result`, the failing GrB_Info codes, and the error type.
- `Sparse` (sparse.dfy): the matrix value, `GrB_Matrix_new`, and the shape queries
  `matrix_nrows`, `matrix_ncols` and `matrix_nvals`.
- `Builder` (build.dfy): `GrB_Matrix_build`. It folds the triples in input order with
  the SECOND or PLUS duplicate operator. Input order is how SuiteSparse:GraphBLAS
  combines duplicates; the GraphBLAS specification does not fix that order.
- `Aggregate` (aggregate.dfy): the aggregate state class. It covers `matrix_agg_acc`
  and `matrix_final_int4` with its lockstep copy loop.
- `Extract` (extract.dfy): `GrB_Matrix_extractTuples` as an enumeration in some
  order, and the `matrix_extract` cursor (`call_cntr` / `max_calls`).
- `Literal` (literal.dfy): `matrix_in` on the array that `array_in` returns, plus the
  corrected decoder (see Findings).
- `Display` (display.dfy): `matrix_out`, and a parser that reads the counts back.
- `Algebra` (algebra.dfy): `matrix_x_matrix` (PLUS_TIMES) and `matrix_ewise_mult` (TIMES).

Behaviour of `src/matrix.c` worth noting:
- The aggregate sizes its result `count x count`, where count is the number of
  triples. The literal path sizes it `(count + 1) x (count + 1)`.
- An index outside the shape fails with `GrB_INDEX_OUT_OF_BOUNDS`.
- `matrix_x_matrix` fails when `ncols(A) != nrows(B)`, because `GrB_mxm` returns
  `GrB_DIMENSION_MISMATCH` and `CHECK` aborts.
- Extraction order is whatever `extractTuples` gives; no particular order is promised.
- The literal decoder reads `count = dims[0] + lb[0] - 1` triples, whatever the number
  of columns (see Findings).

## Model

| member | source | states |
|---|---|---|
| Sparse.NewMatrix | src/matrix.c:87-90 | GrB_Matrix_new gives a valid matrix of the requested shape with no entries |
| Sparse.NRows | src/matrix.c:296-304 | accessor for the row count; its ensures only repeats the shape bound that validity already gives |
| Sparse.NCols | src/matrix.c:306-314 | accessor for the column count; its ensures only repeats the shape bound that validity already gives |
| Sparse.NVals | src/matrix.c:316-324 | nvals never exceeds nrows * ncols (entries are distinct in-shape cells) |
| Builder.Build | src/matrix.c:92-97 | build succeeds iff the output is empty and every index lies in the shape; otherwise it fails with OUTPUT_NOT_EMPTY or INDEX_OUT_OF_BOUNDS; on success the shape is kept and there is exactly one entry per distinct input coordinate |
| Builder.AccumulateKeys | src/matrix.c:92-97 | folding the triples yields exactly the set of input coordinates as keys, whatever the duplicate operator |
| Builder.SecondKeepsLast | src/matrix.c:92-97 | with SECOND, the value stored at a coordinate is the value of the last triple naming it |
| Builder.PlusSums | src/matrix.c:257-262 | with PLUS, the value stored at a coordinate is the sum of the values of all triples naming it (reference sum taken front to back) |
| Aggregate.AggState.constructor | src/matrix.c:24-25 | a freshly allocated state has three empty lists |
| Aggregate.AggState.Append | src/matrix.c:38-40 | each list gets exactly its element appended at the end; earlier elements are unchanged and the lengths stay equal |
| Aggregate.MatrixAggAcc | src/matrix.c:18-40 | a null row, col or value fails with "matrices cannot contain null values" before the state is touched; otherwise a null state is replaced by a fresh one holding just the triple, and a given state gets the triple appended and is returned |
| Aggregate.MatrixFinalInt4 | src/matrix.c:54-98 | a null state gives SQL NULL; otherwise the result is the build, with SECOND, of the lists copied slot for slot into a new count x count matrix, count being the number of triples |
| Aggregate.AggregateLastValueWins | src/matrix.c:87-97 | the aggregate fails with INDEX_OUT_OF_BOUNDS iff some index is outside [0, count); otherwise it is count x count, nvals is the number of distinct coordinates, and each coordinate holds its last value |
| Extract.ExtractTuples | src/matrix.c:124-134 | the snapshot lists every entry with its value exactly once, nvals tuples in all, in an unspecified order |
| Extract.EnumerationCoversEntries | src/matrix.c:130-136 | any such enumeration reaches every entry of the matrix |
| Extract.RebuildFromExtraction | src/matrix.c:130-134 | building a fresh matrix of the same shape from an extraction gives the original matrix back, with either duplicate operator |
| Extract.Cursor.FirstCall | src/matrix.c:116-137 | the first call snapshots an enumeration of the matrix, sets max_calls to nvals and starts call_cntr at 0 |
| Extract.Cursor.Next | src/matrix.c:151-165 | while call_cntr < max_calls a call returns snapshot tuple call_cntr and advances the counter; after that every call returns done and changes nothing; done means all snapshot tuples were emitted in order |
| Display.Decimal | src/matrix.c:292 | %lu prints at least one digit, only digits, and no leading zero |
| Display.DecimalRoundTrip | src/matrix.c:292 | reading back the printed digits gives the number |
| Display.FormatRoundTrip | src/matrix.c:292 | the display string "{R, C, V}::matrix" parses back to exactly (R, C, V) |
| Display.MatrixOut | src/matrix.c:267-294 | the text output is exactly "{nrows, ncols, nvals}::matrix" in `%lu` decimal, and parses back to those three counts |
| Display.DisplayExample | src/matrix.c:292 | a 3 x 3 matrix with two entries prints as "{3, 3, 2}::matrix" |
| Literal.AllocRequestSize | src/matrix.c:236-238 | `sizeof(GrB_Index) * count` in size_t: below 2^64, a multiple of 8, 8 * count for a non-negative count and 2^64 + 8 * count for a negative one |
| Literal.AllocError | src/matrix.c:236 | palloc0's error is "invalid memory alloc request size " followed by the decimal digits of the requested size, which read back to that size |
| Literal.AllocErrorForMinusOne | src/matrix.c:234-236 | for count = -1 the message ends in 18446744073709551608 |
| Literal.DecodeLiteral | src/matrix.c:218-262 | the checks fail in source order: nulls, then not 2-D, then a first dimension other than 3, then a negative count (palloc0's "invalid memory alloc request size" error with the wrapped size_t byte count); on success the matrix is (count + 1) x (count + 1) with count = dims[0] + lb[0] - 1 |
| Literal.MatrixIn | src/matrix.c:168-265 | the index loop fills the row, column and value arrays so that the result is the as-written decode |
| Literal.DecodeSumsDuplicates | src/matrix.c:234-262 | triple i is (data[i], data[i + count], data[i + 2 * count]); the decode fails with INDEX_OUT_OF_BOUNDS iff a read index is outside [0, count]; otherwise there is one entry per coordinate read, holding the sum of its values |
| Literal.DecodeReadsColumnsWhenCountIsWidth | src/matrix.c:240-246 | when dims[1] == count, the stride reads decode grid column i as triple i |
| Literal.WidthEqualsCountDecodesByColumns | src/matrix.c:234-262 | when dims[1] == count, the as-written decode equals the corrected column-wise decode |
| Literal.DecodersDisagreeWhenCountIsNotWidth | src/matrix.c:234-262 | when dims[1] != count and both decoders succeed, their results differ, so the as-written decode is right exactly when the width is count |
| Literal.StrideMisreadsWideLiteral | src/matrix.c:234-246 | the four-column literal '{{0,1,2,3},{0,1,2,3},{1,1,1,1}}' decodes, as written, to (0,3) -> 2, (1,0) -> 3, (2,1) -> 1 in a 4 x 4 matrix |
| Literal.NarrowLiteralOverreads | src/matrix.c:236-246 | the two-column literal '{{0,1},{0,1},{1,1}}' makes the source read nine elements of a six-element array, while the corrected decoder builds (0,0) -> 1, (1,1) -> 1 in a 3 x 3 matrix |
| Literal.DecodeLiteralByColumns | src/matrix.c:218-262 | corrected decoder: the same checks in the same order, then N = dims[1] triples in an (N + 1) x (N + 1) matrix |
| Literal.ColumnsBecomeTriples | src/matrix.c:242-262 | corrected decoder: it fails iff some column's indices are outside [0, N]; otherwise its keys are exactly the (grid[0][c], grid[1][c]), each holding the sum of the grid[2][c] naming it |
| Literal.ColumnsReadWideLiteral | src/matrix.c:234-246 | the corrected decoder reads the four-column literal as the diagonal (i,i) -> 1 in a 5 x 5 matrix |
| Algebra.Mxm | src/matrix.c:342 | GrB_mxm fails with DIMENSION_MISMATCH iff the shapes of C, A and B do not chain; on success the result is valid and has C's shape |
| Algebra.MatrixXMatrix | src/matrix.c:326-344 | fails with DIMENSION_MISMATCH iff ncols(A) != nrows(B); otherwise the result is nrows(A) x ncols(B), C[i,j] is present iff some k has A[i,k] and B[k,j], and its value is the PLUS_TIMES sum over those k |
| Algebra.RightIdentity | src/matrix.c:342 | A x I = A |
| Algebra.LeftIdentity | src/matrix.c:342 | I x B = B |
| Algebra.ProductWithEmpty | src/matrix.c:342 | multiplying A by a B with no entries gives an empty nrows(A) x ncols(B) matrix |
| Algebra.EmptyTimesMatrix | src/matrix.c:342 | multiplying an A with no entries by any B gives an empty nrows(A) x ncols(B) matrix |
| Algebra.EWiseMult | src/matrix.c:362 | GrB_eWiseMult fails with DIMENSION_MISMATCH iff A, B and C do not share one shape; on success the result is valid and has C's shape |
| Algebra.MatrixEWiseMult | src/matrix.c:346-364 | fails with DIMENSION_MISMATCH iff A and B differ in shape; otherwise C[i,j] is present iff both A[i,j] and B[i,j] are, and is their product |
| Algebra.EWiseMultCommutes | src/matrix.c:362 | A .* B = B .* A, including the failure on mismatched shapes |
| Algebra.EWiseMultAssociates | src/matrix.c:362 | (A .* B) .* C = A .* (B .* C) for matrices of one shape |
| Algebra.EWiseMultNValsBound | src/matrix.c:362 | the element-wise product has no more entries than either operand |

## Left out

- PostgreSQL plumbing is not modelled. This covers the fmgr argument and return macros,
  `AggCheckCallContext` and its error, memory-context switching and `palloc`, the SRF
  tuple-descriptor setup and its "function returning record" error, and heap-tuple
  formation.
- The transaction-reset callbacks that free matrices (`context_callback_matrix_free`
  and its registration) are not modelled. They manage resource lifetime and do not
  change what any call returns.
- `array_in` text parsing is not modelled. Its result enters as `Literal.ArrayValue`,
  whose `WellFormed` predicate states what `array_in` guarantees.
- Literal.Count: lower bounds are unbounded integers, not C ints, so the int overflow
  of `dims[0] + lb[0] - 1` for a lower bound near 2^31 is not modelled.
- Literal.MatrixIn, Literal.DecodeLiteral, Literal.DecodeSumsDuplicates: require
  `3 * count <= |data|`. The source reads `3 * count`
  elements whatever the array length. For fewer elements it reads past the buffer,
  which has no defined result to model.
- The duplicate operators are `GrB_SECOND_FP32` and `GrB_PLUS_FP32`, applied to an
  INT64 matrix. Values are therefore cast through 32-bit floats. The model uses exact
  integer SECOND and PLUS. The two differ for magnitudes beyond 2^24.
- Values are unbounded integers. int64 wrap-around in PLUS, TIMES and PLUS_TIMES is
  not modelled.
- Indices are unbounded integers. A negative int64 index becomes a huge `GrB_Index`
  in C, and the model treats it as out of bounds, which is the same outcome.
- Sparse.NRows, Sparse.NCols, Sparse.NVals: return the count as a natural number.
  The `Int64GetDatum` cast of a count at or above 2^63 is not modelled; GraphBLAS
  dimensions stay far below that.
- Failures of `GrB_Matrix_new` and of allocation (out of memory) are not modelled. A
  negative literal count is the exception: it is modelled as palloc's size error,
  including the byte count it prints.
- `matrix_out` also calls `GrB_Matrix_extractTuples` into arrays it never reads. This
  has no observable effect and is not modelled.
- The order of `GrB_Matrix_extractTuples` is not fixed. `Extract.ExtractTuples`
  promises only some enumeration.
- Aggregate.MatrixFinalInt4: tests for a null state first. The source reads
  `list_length(mstate->rows)` at line 55, before its null test at line 61. For a null
  state that dereferences a null pointer, unless the SQL declaration makes the final
  function strict. That declaration is not part of this model.
- Matrices are immutable values here, so "the algebra and extraction never change A or
  B" holds by construction rather than by a separate lemma.

## Findings

| source | as written | input that shows it | evidently intended | confidence | as-written member | corrected member |
|---|---|---|---|---|---|---|
| src/matrix.c:234-246 | `count = dims[0] + lb[0] - 1` is 3 for the default lower bound, whatever the number of columns. Triple i is read as `(data[i], data[i+count], data[i+2*count])`. | `'{{0,1,2,3},{0,1,2,3},{1,1,1,1}}'` decodes to (0,3) -> 2, (1,0) -> 3, (2,1) -> 1 instead of the diagonal. `'{{0,1},{0,1},{1,1}}'` reads 9 elements of a 6-element array. | count = dims[1], the number of columns, so that triple i is column i of the grid | high; not executed | Literal.StrideMisreadsWideLiteral | Literal.DecodeLiteralByColumns |

`Literal.MatrixIn` keeps the code's behaviour. `Literal.DecodeLiteralByColumns` is the
corrected decoder. `Literal.ColumnsBecomeTriples` proves its column-wise meaning, and
`Literal.ColumnsReadWideLiteral` and `Literal.NarrowLiteralOverreads` show it on the
two inputs above.

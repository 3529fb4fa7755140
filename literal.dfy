/** matrix_in: the matrix type's input function. The text is parsed by array_in as an
    int8[] (not modelled); the result is validated, cut into row, column and value
    arrays, and built with PLUS into a (count + 1) x (count + 1) matrix. */
module Literal {
  import opened Common
  import opened Sparse
  import opened Builder
  import opened Display

  /** What array_in returns: ARR_HASNULL, ARR_NDIM, ARR_DIMS, ARR_LBOUND and the
      elements at ARR_DATA_PTR in row-major order. */
  datatype ArrayValue = ArrayValue(hasNull: bool, ndim: int, dims: seq<int>, lb: seq<int>, data: seq<int>) {

    /** What array_in guarantees of its result: one length and one lower bound per
        dimension, and dims[0] * dims[1] elements in a null-free 2-D array. */
    predicate WellFormed() {
      && 0 <= ndim && |dims| == ndim && |lb| == ndim
      && (forall k | 0 <= k < ndim :: dims[k] >= 0)
      && (!hasNull && ndim == 2 ==> |data| == dims[0] * dims[1])
    }

    /** The three checks of matrix_in pass. */
    predicate PassesChecks()
      requires WellFormed()
    {
      !hasNull && ndim == 2 && dims[0] == 3
    }

    /** Element [r][c] of the grid, counting from 0 in both dimensions. */
    function Cell(r: nat, c: nat): int
      requires WellFormed() && PassesChecks()
      requires r < 3 && c < dims[1]
    {
      assert r * dims[1] + c < 3 * dims[1] by { RowMajorBound(r, c, dims[1]); }
      data[r * dims[1] + c]
    }
  }

  lemma RowMajorBound(r: nat, c: nat, width: nat)
    requires r < 3 && c < width
    ensures r * width + c < 3 * width
  {
    assert r * width <= 2 * width;
  }

  const NullsMessage := "Array may not contain NULLs"
  const NotTwoDimensionalMessage := "Two-dimesional arrays are required"
  const FirstDimensionMessage := "First dimension must contain 3 arrays"
  /** palloc0's refusal of an oversized request; the size follows, printed by %zu. */
  const AllocMessage := "invalid memory alloc request size"

  /** sizeof(GrB_Index) * count as C computes it: count converted to size_t and the
      product taken modulo 2^64. */
  function AllocRequestSize(count: int): (size: nat)
    ensures size < 0x1_0000_0000_0000_0000 && size % 8 == 0
    ensures 0 <= count < 0x2000_0000_0000_0000 ==> size == 8 * count
    ensures -0x2000_0000_0000_0000 <= count < 0 ==> size == 0x1_0000_0000_0000_0000 + 8 * count
  {
    (8 * count) % 0x1_0000_0000_0000_0000
  }

  /** The error palloc0 raises when matrix_in asks for a negative count of indices. */
  function AllocError(count: int): (e: Error)
    ensures e.Host? && |e.message| > |AllocMessage| + 1
    ensures e.message[..|AllocMessage| + 1] == AllocMessage + " "
    ensures var digits := e.message[|AllocMessage| + 1..];
      AllDigits(digits) && DigitsValue(digits) == AllocRequestSize(count)
  {
    var digits := Decimal(AllocRequestSize(count));
    DecimalRoundTrip(AllocRequestSize(count));
    assert (AllocMessage + " " + digits)[|AllocMessage| + 1..] == digits;
    Host(AllocMessage + " " + digits)
  }

  /** Printing 10 * q + d appends the digit d to the printing of q. */
  lemma DecimalAppendsDigit(q: nat, d: nat)
    requires q >= 1 && d < 10
    ensures Decimal(10 * q + d) == Decimal(q) + [DigitChar(d)]
  {
    assert (10 * q + d) / 10 == q && (10 * q + d) % 10 == d;
  }

  /** %zu of 2^64 - 8, five digits at a time. */
  lemma PrintedSizeDigits5()
    ensures Decimal(18446) == "18446"
  {
    assert Decimal(1) == "1";
    DecimalAppendsDigit(1, 8);
    assert Decimal(18) == "18";
    DecimalAppendsDigit(18, 4);
    assert Decimal(184) == "184";
    DecimalAppendsDigit(184, 4);
    assert Decimal(1844) == "1844";
    DecimalAppendsDigit(1844, 6);
    assert Decimal(18446) == "18446";
  }

  lemma PrintedSizeDigits10()
    ensures Decimal(1844674407) == "1844674407"
  {
    PrintedSizeDigits5();
    DecimalAppendsDigit(18446, 7);
    assert Decimal(184467) == "184467";
    DecimalAppendsDigit(184467, 4);
    assert Decimal(1844674) == "1844674";
    DecimalAppendsDigit(1844674, 4);
    assert Decimal(18446744) == "18446744";
    DecimalAppendsDigit(18446744, 0);
    assert Decimal(184467440) == "184467440";
    DecimalAppendsDigit(184467440, 7);
    assert Decimal(1844674407) == "1844674407";
  }

  lemma PrintedSizeDigits15()
    ensures Decimal(184467440737095) == "184467440737095"
  {
    PrintedSizeDigits10();
    DecimalAppendsDigit(1844674407, 3);
    assert Decimal(18446744073) == "18446744073";
    DecimalAppendsDigit(18446744073, 7);
    assert Decimal(184467440737) == "184467440737";
    DecimalAppendsDigit(184467440737, 0);
    assert Decimal(1844674407370) == "1844674407370";
    DecimalAppendsDigit(1844674407370, 9);
    assert Decimal(18446744073709) == "18446744073709";
    DecimalAppendsDigit(18446744073709, 5);
    assert Decimal(184467440737095) == "184467440737095";
  }

  lemma PrintedSizeDigits20()
    ensures Decimal(18446744073709551608) == "18446744073709551608"
  {
    PrintedSizeDigits15();
    DecimalAppendsDigit(184467440737095, 5);
    assert Decimal(1844674407370955) == "1844674407370955";
    DecimalAppendsDigit(1844674407370955, 1);
    assert Decimal(18446744073709551) == "18446744073709551";
    DecimalAppendsDigit(18446744073709551, 6);
    assert Decimal(184467440737095516) == "184467440737095516";
    DecimalAppendsDigit(184467440737095516, 0);
    assert Decimal(1844674407370955160) == "1844674407370955160";
    DecimalAppendsDigit(1844674407370955160, 8);
    assert Decimal(18446744073709551608) == "18446744073709551608";
  }

  /** With lb[0] = -3 the count is -1, and palloc0 is asked for 2^64 - 8 bytes. */
  lemma AllocErrorForMinusOne()
    ensures AllocError(-1) == Host(AllocMessage + " 18446744073709551608")
  {
    assert AllocRequestSize(-1) == 18446744073709551608;
    PrintedSizeDigits20();
  }

  /** count = dims[0] + lb[0] - 1, the upper bound of the first dimension. */
  function Count(a: ArrayValue): int
    requires a.WellFormed() && a.PassesChecks()
  {
    a.dims[0] + a.lb[0] - 1
  }

  /** The source reads 3 * count elements; this model admits only literals for which
      those reads stay inside the array (outside it the C reads past the buffer). */
  predicate ReadsInData(a: ArrayValue)
    requires a.WellFormed()
  {
    a.PassesChecks() && Count(a) >= 0 ==> 3 * Count(a) <= |a.data|
  }

  /** Block k of count consecutive elements: data[k * count + i] for i < count. */
  function Block(data: seq<int>, count: nat, k: nat): (b: seq<int>)
    requires (k + 1) * count <= |data|
    ensures |b| == count
    ensures forall i | 0 <= i < count :: b[i] == data[k * count + i]
  {
    data[k * count..(k + 1) * count]
  }

  /** matrix_in as written: the checks in source order, then triple i is
      (data[i], data[i + count], data[i + 2 * count]) and duplicates are summed. */
  function DecodeLiteral(a: ArrayValue): (r: Result<Matrix, Error>)
    requires a.WellFormed() && ReadsInData(a)
    ensures a.hasNull ==> r == Err(Host(NullsMessage))
    ensures !a.hasNull && a.ndim != 2 ==> r == Err(Host(NotTwoDimensionalMessage))
    ensures !a.hasNull && a.ndim == 2 && a.dims[0] != 3 ==> r == Err(Host(FirstDimensionMessage))
    ensures a.PassesChecks() && Count(a) < 0 ==> r == Err(AllocError(Count(a)))
    ensures r.Ok? ==> a.PassesChecks() && Count(a) >= 0
    ensures r.Ok? ==> r.value.Valid() && r.value.nrows == r.value.ncols == Count(a) + 1
  {
    if a.hasNull then Err(Host(NullsMessage))
    else if a.ndim != 2 then Err(Host(NotTwoDimensionalMessage))
    else if a.dims[0] != 3 then Err(Host(FirstDimensionMessage))
    else if Count(a) < 0 then Err(AllocError(Count(a)))
    else
      var count := Count(a);
      Build(NewMatrix(count + 1, count + 1), Block(a.data, count, 0), Block(a.data, count, 1), Block(a.data, count, 2), Plus)
  }

  /** matrix_in: the index loop filling row_indices, col_indices and matrix_vals. */
  method MatrixIn(a: ArrayValue) returns (r: Result<Matrix, Error>)
    requires a.WellFormed() && ReadsInData(a)
    ensures r == DecodeLiteral(a)
  {
    if a.hasNull {
      return Err(Host(NullsMessage));
    }
    if a.ndim != 2 {
      return Err(Host(NotTwoDimensionalMessage));
    }
    if a.dims[0] != 3 {
      return Err(Host(FirstDimensionMessage));
    }
    var count := a.dims[0] + a.lb[0] - 1;
    if count < 0 {
      return Err(AllocError(count));
    }
    var rowIndices := new int[count];
    var colIndices := new int[count];
    var matrixVals := new int[count];
    var data := a.data;
    assert count == Count(a);
    assert 3 * count <= |data|;
    for i := 0 to count
      invariant forall j | 0 <= j < i :: rowIndices[j] == data[j]
      invariant forall j | 0 <= j < i :: colIndices[j] == data[j + count]
      invariant forall j | 0 <= j < i :: matrixVals[j] == data[j + count + count]
    {
      rowIndices[i] := data[i];
      colIndices[i] := data[i + count];
      matrixVals[i] := data[i + count + count];
    }
    assert rowIndices[..] == Block(data, count, 0);
    assert colIndices[..] == Block(data, count, 1);
    assert matrixVals[..] == Block(data, count, 2);
    r := Build(NewMatrix(count + 1, count + 1), rowIndices[..], colIndices[..], matrixVals[..], Plus);
  }

  /** On a decodable literal: the build fails exactly when a read index falls outside
      [0, count], and otherwise holds, at each coordinate read, the sum of the values
      read for it. */
  lemma DecodeSumsDuplicates(a: ArrayValue)
    requires a.WellFormed() && ReadsInData(a)
    requires a.PassesChecks() && Count(a) >= 0
    ensures var count := Count(a);
      var rows, cols, vals := Block(a.data, count, 0), Block(a.data, count, 1), Block(a.data, count, 2);
      && (DecodeLiteral(a).Err? <==> exists i | 0 <= i < count :: !(0 <= rows[i] <= count && 0 <= cols[i] <= count))
      && (DecodeLiteral(a).Err? ==> DecodeLiteral(a).error == GraphBLAS(IndexOutOfBounds))
      && (DecodeLiteral(a).Ok? ==> DecodeLiteral(a).value.entries.Keys == Coords(rows, cols))
      && (DecodeLiteral(a).Ok? ==> forall c | c in DecodeLiteral(a).value.entries ::
            DecodeLiteral(a).value.entries[c] == SumAt(rows, cols, vals, c))
  {
    var count := Count(a);
    var rows, cols, vals := Block(a.data, count, 0), Block(a.data, count, 1), Block(a.data, count, 2);
    var r := DecodeLiteral(a);
    if r.Ok? {
      forall c | c in r.value.entries ensures r.value.entries[c] == SumAt(rows, cols, vals, c) {
        PlusSums(rows, cols, vals, c);
      }
    }
  }

  /** The stride-count reads decode the grid's columns only when the grid has exactly
      count columns: then triple i is column i. */
  lemma DecodeReadsColumnsWhenCountIsWidth(a: ArrayValue, i: nat)
    requires a.WellFormed() && a.PassesChecks()
    requires a.dims[1] == Count(a) && i < a.dims[1]
    ensures Block(a.data, Count(a), 0)[i] == a.Cell(0, i)
    ensures Block(a.data, Count(a), 1)[i] == a.Cell(1, i)
    ensures Block(a.data, Count(a), 2)[i] == a.Cell(2, i)
  {
  }

  /** Row r of the grid, as a sequence of dims[1] elements. */
  function GridLine(a: ArrayValue, r: nat): (s: seq<int>)
    requires a.WellFormed() && a.PassesChecks() && r < 3
    ensures |s| == a.dims[1]
    ensures forall c | 0 <= c < a.dims[1] :: s[c] == a.Cell(r, c)
  {
    Block(a.data, a.dims[1], r)
  }

  /** The decoder the checks and the text format call for: N = dims[1] triples, triple
      i being column i of the grid, built with PLUS into an (N + 1) x (N + 1) matrix. */
  function DecodeLiteralByColumns(a: ArrayValue): (r: Result<Matrix, Error>)
    requires a.WellFormed()
    ensures a.hasNull ==> r == Err(Host(NullsMessage))
    ensures !a.hasNull && a.ndim != 2 ==> r == Err(Host(NotTwoDimensionalMessage))
    ensures !a.hasNull && a.ndim == 2 && a.dims[0] != 3 ==> r == Err(Host(FirstDimensionMessage))
    ensures r.Ok? ==> a.PassesChecks()
    ensures r.Ok? ==> r.value.Valid() && r.value.nrows == r.value.ncols == a.dims[1] + 1
  {
    if a.hasNull then Err(Host(NullsMessage))
    else if a.ndim != 2 then Err(Host(NotTwoDimensionalMessage))
    else if a.dims[0] != 3 then Err(Host(FirstDimensionMessage))
    else
      var n := a.dims[1];
      Build(NewMatrix(n + 1, n + 1), GridLine(a, 0), GridLine(a, 1), GridLine(a, 2), Plus)
  }

  /** On literals whose width is count the as-written decoder agrees with the corrected
      one. */
  lemma WidthEqualsCountDecodesByColumns(a: ArrayValue)
    requires a.WellFormed() && a.PassesChecks() && ReadsInData(a) && a.dims[1] == Count(a)
    ensures DecodeLiteral(a) == DecodeLiteralByColumns(a)
  {
    var n := Count(a);
    assert Block(a.data, n, 0) == GridLine(a, 0);
    assert Block(a.data, n, 1) == GridLine(a, 1);
    assert Block(a.data, n, 2) == GridLine(a, 2);
  }

  /** On any other literal where both succeed they disagree, so the as-written decoder
      is right exactly when the width is count. */
  lemma DecodersDisagreeWhenCountIsNotWidth(a: ArrayValue)
    requires a.WellFormed() && a.PassesChecks() && ReadsInData(a) && a.dims[1] != Count(a)
    requires DecodeLiteral(a).Ok? && DecodeLiteralByColumns(a).Ok?
    ensures DecodeLiteral(a) != DecodeLiteralByColumns(a)
  {
  }

  /** The corrected decoder turns column c of the grid into triple c: it fails exactly
      when some column's row or column index is outside [0, N], and otherwise holds
      one entry per distinct (grid[0][c], grid[1][c]), the sum of grid[2][c] over the
      columns naming it. */
  lemma ColumnsBecomeTriples(a: ArrayValue)
    requires a.WellFormed() && a.PassesChecks()
    ensures var n := a.dims[1];
      var r := DecodeLiteralByColumns(a);
      && (r.Err? <==> exists c | 0 <= c < n :: !(0 <= a.Cell(0, c) <= n && 0 <= a.Cell(1, c) <= n))
      && (r.Err? ==> r.error == GraphBLAS(IndexOutOfBounds))
      && (r.Ok? ==> forall c | 0 <= c < n :: (a.Cell(0, c), a.Cell(1, c)) in r.value.entries)
      && (r.Ok? ==> forall k | k in r.value.entries :: exists c | 0 <= c < n :: k == (a.Cell(0, c), a.Cell(1, c)))
      && (r.Ok? ==> forall k | k in r.value.entries ::
            r.value.entries[k] == SumAt(GridLine(a, 0), GridLine(a, 1), GridLine(a, 2), k))
  {
    var n := a.dims[1];
    var rows, cols, vals := GridLine(a, 0), GridLine(a, 1), GridLine(a, 2);
    var r := DecodeLiteralByColumns(a);
    if r.Ok? {
      forall c | 0 <= c < n ensures (a.Cell(0, c), a.Cell(1, c)) in r.value.entries {
        assert (rows[c], cols[c]) in Coords(rows, cols);
      }
      forall k | k in r.value.entries ensures exists c | 0 <= c < n :: k == (a.Cell(0, c), a.Cell(1, c)) {
        var c :| 0 <= c < n && k == (rows[c], cols[c]);
      }
      forall k | k in r.value.entries ensures r.value.entries[k] == SumAt(rows, cols, vals, k) {
        PlusSums(rows, cols, vals, k);
      }
    } else {
      var c :| 0 <= c < n && !NewMatrix(n + 1, n + 1).InShape((rows[c], cols[c]));
    }
  }

  /** The literal '{{0,1,2,3},{0,1,2,3},{1,1,1,1}}': four triples (i, i, 1). */
  function WideLiteral(): ArrayValue {
    ArrayValue(false, 2, [3, 4], [1, 1], [0, 1, 2, 3, 0, 1, 2, 3, 1, 1, 1, 1])
  }

  lemma AccumulateMisread()
    ensures Accumulate([0, 1, 2], [3, 0, 1], [2, 3, 1], Plus) == map[(0, 3) := 2, (1, 0) := 3, (2, 1) := 1]
  {
    assert Accumulate([0], [3], [2], Plus) == map[(0, 3) := 2];
    assert [0, 1][..1] == [0] && [3, 0][..1] == [3] && [2, 3][..1] == [2];
    assert Accumulate([0, 1], [3, 0], [2, 3], Plus) == map[(0, 3) := 2, (1, 0) := 3];
    assert [0, 1, 2][..2] == [0, 1] && [3, 0, 1][..2] == [3, 0] && [2, 3, 1][..2] == [2, 3];
  }

  lemma AccumulateDiagonal()
    ensures Accumulate([0, 1, 2, 3], [0, 1, 2, 3], [1, 1, 1, 1], Plus)
      == map[(0, 0) := 1, (1, 1) := 1, (2, 2) := 1, (3, 3) := 1]
  {
    assert Accumulate([0], [0], [1], Plus) == map[(0, 0) := 1];
    assert [0, 1][..1] == [0] && [1, 1][..1] == [1];
    assert Accumulate([0, 1], [0, 1], [1, 1], Plus) == map[(0, 0) := 1, (1, 1) := 1];
    assert [0, 1, 2][..2] == [0, 1] && [1, 1, 1][..2] == [1, 1];
    assert Accumulate([0, 1, 2], [0, 1, 2], [1, 1, 1], Plus) == map[(0, 0) := 1, (1, 1) := 1, (2, 2) := 1];
    assert [0, 1, 2, 3][..3] == [0, 1, 2] && [1, 1, 1, 1][..3] == [1, 1, 1];
  }

  /** As written, matrix_in reads this literal with stride count = 3, not 4, and builds
      (0,3) -> 2, (1,0) -> 3, (2,1) -> 1 in a 4 x 4 matrix. */
  lemma StrideMisreadsWideLiteral()
    ensures WideLiteral().WellFormed() && ReadsInData(WideLiteral())
    ensures DecodeLiteral(WideLiteral()) == Ok(Matrix(4, 4, map[(0, 3) := 2, (1, 0) := 3, (2, 1) := 1]))
  {
    var a := WideLiteral();
    assert Count(a) == 3;
    var rows, cols, vals := Block(a.data, 3, 0), Block(a.data, 3, 1), Block(a.data, 3, 2);
    assert rows == [0, 1, 2] && cols == [3, 0, 1] && vals == [2, 3, 1];
    assert DecodeLiteral(a) == Build(NewMatrix(4, 4), rows, cols, vals, Plus);
    assert AllInShape(NewMatrix(4, 4), rows, cols);
    AccumulateMisread();
  }

  /** The corrected decoder reads the same literal as the diagonal (i,i) -> 1 in a
      5 x 5 matrix. */
  lemma ColumnsReadWideLiteral()
    ensures DecodeLiteralByColumns(WideLiteral())
      == Ok(Matrix(5, 5, map[(0, 0) := 1, (1, 1) := 1, (2, 2) := 1, (3, 3) := 1]))
  {
    var a := WideLiteral();
    var rows, cols, vals := GridLine(a, 0), GridLine(a, 1), GridLine(a, 2);
    assert rows == [0, 1, 2, 3] && cols == [0, 1, 2, 3] && vals == [1, 1, 1, 1];
    assert DecodeLiteralByColumns(a) == Build(NewMatrix(5, 5), rows, cols, vals, Plus);
    assert AllInShape(NewMatrix(5, 5), rows, cols);
    AccumulateDiagonal();
  }

  /** The two-column literal '{{0,1},{0,1},{1,1}}' has six elements, but with count = 3
      matrix_in reads nine: it lies outside what this model of the source admits. The
      corrected decoder builds (0,0) -> 1, (1,1) -> 1 in a 3 x 3 matrix. */
  lemma NarrowLiteralOverreads()
    ensures var a := ArrayValue(false, 2, [3, 2], [1, 1], [0, 1, 0, 1, 1, 1]);
      && a.WellFormed() && !ReadsInData(a)
      && DecodeLiteralByColumns(a) == Ok(Matrix(3, 3, map[(0, 0) := 1, (1, 1) := 1]))
  {
    var a := ArrayValue(false, 2, [3, 2], [1, 1], [0, 1, 0, 1, 1, 1]);
    assert GridLine(a, 0) == [0, 1] && GridLine(a, 1) == [0, 1] && GridLine(a, 2) == [1, 1];
    assert [0, 1][..1] == [0] && [1, 1][..1] == [1];
    assert Accumulate([0], [0], [1], Plus) == map[(0, 0) := 1];
    assert Accumulate([0, 1], [0, 1], [1, 1], Plus) == map[(0, 0) := 1, (1, 1) := 1];
  }
}

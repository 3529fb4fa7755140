/** The matrix(bigint, bigint, bigint) aggregate: matrix_agg_acc appends one
    (row, col, value) triple per input row to the state's three lists, and
    matrix_final_int4 copies them into arrays and builds a count x count matrix. */
module Aggregate {
  import opened Common
  import opened Sparse
  import opened Builder

  /** pgGrB_Matrix_AggState: three parallel lists of int64 values. */
  class AggState {
    var rows: seq<int>
    var cols: seq<int>
    var vals: seq<int>

    /** The lists are appended to in lockstep, so they always have one length. */
    ghost predicate Valid()
      reads this
    {
      |rows| == |cols| == |vals|
    }

    /** palloc0 of a fresh state: three empty lists. */
    constructor ()
      ensures Valid()
      ensures rows == [] && cols == [] && vals == []
    {
      rows, cols, vals := [], [], [];
    }

    /** The three lappend calls. */
    method Append(row: int, col: int, val: int)
      requires Valid()
      modifies this
      ensures Valid()
      ensures rows == old(rows) + [row]
      ensures cols == old(cols) + [col]
      ensures vals == old(vals) + [val]
    {
      rows := rows + [row];
      cols := cols + [col];
      vals := vals + [val];
    }
  }

  const NullValueMessage := "matrices cannot contain null values"

  /** matrix_agg_acc(state, row, col, val): a null argument among row, col and val
      raises an error before the state is touched; otherwise the state (created empty
      when the incoming state is null) gets the triple appended and is returned. */
  method MatrixAggAcc(state: AggState?, row: Option<int>, col: Option<int>, val: Option<int>)
    returns (r: Result<AggState, Error>)
    requires state != null ==> state.Valid()
    modifies state
    ensures r.Err? <==> row.None? || col.None? || val.None?
    ensures r.Err? ==> r.error == Host(NullValueMessage)
    ensures r.Err? && state != null ==> unchanged(state)
    ensures r.Ok? ==> r.value.Valid()
    ensures r.Ok? && state == null ==>
      (fresh(r.value) && r.value.rows == [row.value] && r.value.cols == [col.value] && r.value.vals == [val.value])
    ensures r.Ok? && state != null ==>
      (&& r.value == state
       && state.rows == old(state.rows) + [row.value]
       && state.cols == old(state.cols) + [col.value]
       && state.vals == old(state.vals) + [val.value])
  {
    if row.None? || col.None? || val.None? {
      return Err(Host(NullValueMessage));
    }
    var mstate: AggState;
    if state == null {
      mstate := new AggState();
    } else {
      mstate := state;
    }
    mstate.Append(row.value, col.value, val.value);
    r := Ok(mstate);
  }

  /** matrix_final_int4(state): a null state yields SQL NULL. Otherwise the three lists
      are copied in lockstep into arrays of length count = number of triples, and the
      triples are built into a new count x count matrix with the SECOND operator. */
  method MatrixFinalInt4(state: AggState?) returns (r: Option<Result<Matrix, Error>>)
    requires state != null ==> state.Valid()
    ensures r.None? <==> state == null
    ensures r.Some? ==> r.value == Build(NewMatrix(|state.rows|, |state.rows|), state.rows, state.cols, state.vals, Second)
    ensures r.Some? && r.value.Ok? ==> r.value.value.nrows == r.value.value.ncols == |state.rows|
  {
    if state == null {
      return None;
    }
    var count := |state.rows|;
    var rowIndices := new int[count];
    var colIndices := new int[count];
    var matrixVals := new int[count];
    var n := 0;
    while n < count
      invariant 0 <= n <= count
      invariant rowIndices[..n] == state.rows[..n]
      invariant colIndices[..n] == state.cols[..n]
      invariant matrixVals[..n] == state.vals[..n]
    {
      rowIndices[n] := state.rows[n];
      colIndices[n] := state.cols[n];
      matrixVals[n] := state.vals[n];
      n := n + 1;
    }
    assert rowIndices[..] == state.rows && colIndices[..] == state.cols && matrixVals[..] == state.vals;
    var c := NewMatrix(count, count);
    r := Some(Build(c, rowIndices[..], colIndices[..], matrixVals[..], Second));
  }

  /** What the aggregate returns for a non-empty input: its failure cases and, on
      success, one entry per distinct coordinate holding the coordinate's last value. */
  lemma {:induction false} AggregateLastValueWins(rows: seq<int>, cols: seq<int>, vals: seq<int>)
    requires |rows| == |cols| == |vals|
    ensures var r := Build(NewMatrix(|rows|, |rows|), rows, cols, vals, Second);
      && (r.Err? <==> exists i | 0 <= i < |rows| :: !(0 <= rows[i] < |rows| && 0 <= cols[i] < |rows|))
      && (r.Err? ==> r.error == GraphBLAS(IndexOutOfBounds))
      && (r.Ok? ==> r.value.nrows == r.value.ncols == |rows| && NVals(r.value) == |Coords(rows, cols)|)
      && (r.Ok? ==> forall i | 0 <= i < |rows| && (forall j | i < j < |rows| :: (rows[j], cols[j]) != (rows[i], cols[i]))
                      :: r.value.entries[(rows[i], cols[i])] == vals[i])
  {
    var r := Build(NewMatrix(|rows|, |rows|), rows, cols, vals, Second);
    if r.Ok? {
      forall i | 0 <= i < |rows| && (forall j | i < j < |rows| :: (rows[j], cols[j]) != (rows[i], cols[i]))
        ensures r.value.entries[(rows[i], cols[i])] == vals[i]
      {
        SecondKeepsLast(rows, cols, vals, i);
      }
    }
  }
}

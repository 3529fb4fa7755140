/** GrB_Matrix_build (section 4.2.5 of the GraphBLAS C API Specification): fill an
    empty matrix from three parallel index/value arrays, folding the values that share
    a coordinate with a duplicate operator. The fold runs in input order, as
    SuiteSparse:GraphBLAS does; the specification itself leaves that order open. */
module Builder {
  import opened Common
  import opened Sparse

  /** The duplicate operators the source passes: GrB_SECOND_FP32 in the aggregate,
      GrB_PLUS_FP32 in the literal decoder (taken here as exact integer operators). */
  datatype DupOp = Second | Plus

  function Combine(dup: DupOp, earlier: int, later: int): int {
    match dup
    case Second => later
    case Plus => earlier + later
  }

  predicate AllInShape(c: Matrix, rows: seq<int>, cols: seq<int>)
    requires |rows| == |cols|
  {
    forall i | 0 <= i < |rows| :: c.InShape((rows[i], cols[i]))
  }

  /** The coordinates named by the input triples. */
  ghost function Coords(rows: seq<int>, cols: seq<int>): set<Coord>
    requires |rows| == |cols|
  {
    set i | 0 <= i < |rows| :: (rows[i], cols[i])
  }

  /** The entries after folding the triples one by one, in order, into an empty map. */
  function Accumulate(rows: seq<int>, cols: seq<int>, vals: seq<int>, dup: DupOp): map<Coord, int>
    requires |rows| == |cols| == |vals|
    decreases |rows|
  {
    if |rows| == 0 then map[]
    else
      var n := |rows| - 1;
      var m := Accumulate(rows[..n], cols[..n], vals[..n], dup);
      var c := (rows[n], cols[n]);
      m[c := if c in m then Combine(dup, m[c], vals[n]) else vals[n]]
  }

  /** GrB_Matrix_build into c with nvals = |rows|. The output must have no entries
      (an API error, checked first); every index must lie inside c's shape. */
  function Build(c: Matrix, rows: seq<int>, cols: seq<int>, vals: seq<int>, dup: DupOp): (r: Result<Matrix, Error>)
    requires c.Valid()
    requires |rows| == |cols| == |vals|
    ensures r.Ok? <==> |c.entries| == 0 && AllInShape(c, rows, cols)
    ensures r.Err? ==> r.error == GraphBLAS(if |c.entries| != 0 then OutputNotEmpty else IndexOutOfBounds)
    ensures r.Ok? ==> r.value.Valid() && r.value.nrows == c.nrows && r.value.ncols == c.ncols
    ensures r.Ok? ==> r.value.entries.Keys == Coords(rows, cols)
  {
    if |c.entries| != 0 then Err(GraphBLAS(OutputNotEmpty))
    else if !AllInShape(c, rows, cols) then Err(GraphBLAS(IndexOutOfBounds))
    else
      AccumulateKeys(rows, cols, vals, dup);
      Ok(Matrix(c.nrows, c.ncols, Accumulate(rows, cols, vals, dup)))
  }

  lemma CoordsSnoc(rows: seq<int>, cols: seq<int>)
    requires |rows| == |cols| > 0
    ensures Coords(rows, cols) == Coords(rows[..|rows| - 1], cols[..|cols| - 1]) + {(rows[|rows| - 1], cols[|cols| - 1])}
  {
    var n := |rows| - 1;
    forall c | c in Coords(rows, cols)
      ensures c in Coords(rows[..n], cols[..n]) + {(rows[n], cols[n])}
    {
      var i :| 0 <= i < |rows| && c == (rows[i], cols[i]);
      if i < n {
        assert (rows[..n][i], cols[..n][i]) == c;
      }
    }
    forall c | c in Coords(rows[..n], cols[..n])
      ensures c in Coords(rows, cols)
    {
      var i :| 0 <= i < n && c == (rows[..n][i], cols[..n][i]);
      assert (rows[i], cols[i]) == c;
    }
  }

  /** One entry per distinct input coordinate, whatever the duplicate operator. */
  lemma {:induction false} AccumulateKeys(rows: seq<int>, cols: seq<int>, vals: seq<int>, dup: DupOp)
    requires |rows| == |cols| == |vals|
    ensures Accumulate(rows, cols, vals, dup).Keys == Coords(rows, cols)
    decreases |rows|
  {
    if |rows| == 0 {
      assert Coords(rows, cols) == {};
    } else {
      var n := |rows| - 1;
      AccumulateKeys(rows[..n], cols[..n], vals[..n], dup);
      CoordsSnoc(rows, cols);
    }
  }

  /** With SECOND, the value kept at a coordinate is that of its last triple. */
  lemma {:induction false} SecondKeepsLast(rows: seq<int>, cols: seq<int>, vals: seq<int>, i: nat)
    requires |rows| == |cols| == |vals|
    requires i < |rows|
    requires forall j | i < j < |rows| :: (rows[j], cols[j]) != (rows[i], cols[i])
    ensures (rows[i], cols[i]) in Accumulate(rows, cols, vals, Second)
    ensures Accumulate(rows, cols, vals, Second)[(rows[i], cols[i])] == vals[i]
    decreases |rows|
  {
    var n := |rows| - 1;
    if i < n {
      SecondKeepsLast(rows[..n], cols[..n], vals[..n], i);
    }
  }

  /** Reference definition of the PLUS fold: the sum, taken front to back, of the
      values of every triple at coordinate c. */
  function SumAt(rows: seq<int>, cols: seq<int>, vals: seq<int>, c: Coord): int
    requires |rows| == |cols| == |vals|
    decreases |rows|
  {
    if |rows| == 0 then 0
    else (if (rows[0], cols[0]) == c then vals[0] else 0) + SumAt(rows[1..], cols[1..], vals[1..], c)
  }

  lemma {:induction false} SumAtSnoc(rows: seq<int>, cols: seq<int>, vals: seq<int>, c: Coord)
    requires |rows| == |cols| == |vals| > 0
    ensures var n := |rows| - 1;
      SumAt(rows, cols, vals, c)
        == SumAt(rows[..n], cols[..n], vals[..n], c) + (if (rows[n], cols[n]) == c then vals[n] else 0)
    decreases |rows|
  {
    var n := |rows| - 1;
    if n > 0 {
      SumAtSnoc(rows[1..], cols[1..], vals[1..], c);
      assert rows[1..][..n - 1] == rows[..n][1..];
      assert cols[1..][..n - 1] == cols[..n][1..];
      assert vals[1..][..n - 1] == vals[..n][1..];
    }
  }

  /** With PLUS, the value at a coordinate is the sum of all its triples' values. */
  lemma {:induction false} PlusSums(rows: seq<int>, cols: seq<int>, vals: seq<int>, c: Coord)
    requires |rows| == |cols| == |vals|
    ensures c in Accumulate(rows, cols, vals, Plus) <==> c in Coords(rows, cols)
    ensures c in Accumulate(rows, cols, vals, Plus) ==> Accumulate(rows, cols, vals, Plus)[c] == SumAt(rows, cols, vals, c)
    ensures c !in Accumulate(rows, cols, vals, Plus) ==> SumAt(rows, cols, vals, c) == 0
    decreases |rows|
  {
    AccumulateKeys(rows, cols, vals, Plus);
    if |rows| > 0 {
      var n := |rows| - 1;
      PlusSums(rows[..n], cols[..n], vals[..n], c);
      SumAtSnoc(rows, cols, vals, c);
    }
  }

  /** A coordinate named by exactly one triple keeps that triple's value, whatever the operator. */
  lemma {:induction false} UniqueCoordKeepsValue(rows: seq<int>, cols: seq<int>, vals: seq<int>, dup: DupOp, i: nat)
    requires |rows| == |cols| == |vals|
    requires i < |rows|
    requires forall j | 0 <= j < |rows| && j != i :: (rows[j], cols[j]) != (rows[i], cols[i])
    ensures (rows[i], cols[i]) in Accumulate(rows, cols, vals, dup)
    ensures Accumulate(rows, cols, vals, dup)[(rows[i], cols[i])] == vals[i]
    decreases |rows|
  {
    var n := |rows| - 1;
    if i < n {
      UniqueCoordKeepsValue(rows[..n], cols[..n], vals[..n], dup, i);
    } else {
      AccumulateKeys(rows[..n], cols[..n], vals[..n], dup);
      assert (rows[i], cols[i]) !in Coords(rows[..n], cols[..n]);
    }
  }
}

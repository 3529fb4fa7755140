/** The sparse matrix value held by a pgGrB_Matrix: a shape and a finite map from
    coordinates to int64 values, with at most one value per coordinate. */
module Sparse {

  /** (row, column); GrB_Index is unsigned, so a negative int64 index is never inside a shape. */
  type Coord = (int, int)

  datatype Matrix = Matrix(nrows: nat, ncols: nat, entries: map<Coord, int>) {

    predicate InShape(c: Coord) {
      0 <= c.0 < nrows && 0 <= c.1 < ncols
    }

    /** Every stored entry lies inside the shape. */
    predicate Valid() {
      forall c | c in entries :: InShape(c)
    }
  }

  /** GrB_Matrix_new: a matrix of the given shape with no entries. */
  function NewMatrix(nrows: nat, ncols: nat): (m: Matrix)
    ensures m.Valid() && |m.entries| == 0
    ensures m.nrows == nrows && m.ncols == ncols
  {
    Matrix(nrows, ncols, map[])
  }

  /** GrB_Matrix_nrows: the row count bounds every stored row index. */
  function NRows(m: Matrix): (n: nat)
    requires m.Valid()
    ensures forall c | c in m.entries :: 0 <= c.0 < n
  {
    m.nrows
  }

  /** GrB_Matrix_ncols: the column count bounds every stored column index. */
  function NCols(m: Matrix): (n: nat)
    requires m.Valid()
    ensures forall c | c in m.entries :: 0 <= c.1 < n
  {
    m.ncols
  }

  /** GrB_Matrix_nvals: the number of explicit entries, never more than the cells of the shape. */
  function NVals(m: Matrix): (n: nat)
    requires m.Valid()
    ensures n <= m.nrows * m.ncols
  {
    GridCardinality(m.nrows, m.ncols);
    assert m.entries.Keys <= Grid(m.nrows, m.ncols);
    SubsetCardinality(m.entries.Keys, Grid(m.nrows, m.ncols));
    |m.entries|
  }

  /** All coordinates of an nrows x ncols shape. */
  ghost function Grid(nrows: nat, ncols: nat): set<Coord> {
    set i, j | 0 <= i < nrows && 0 <= j < ncols :: (i, j)
  }

  ghost function GridRow(i: int, ncols: nat): set<Coord> {
    set j | 0 <= j < ncols :: (i, j)
  }

  lemma {:induction false} GridRowCardinality(i: int, ncols: nat)
    ensures |GridRow(i, ncols)| == ncols
  {
    if ncols > 0 {
      GridRowCardinality(i, ncols - 1);
      assert GridRow(i, ncols) == GridRow(i, ncols - 1) + {(i, ncols - 1)};
    } else {
      assert GridRow(i, ncols) == {};
    }
  }

  lemma {:induction false} GridCardinality(nrows: nat, ncols: nat)
    ensures |Grid(nrows, ncols)| == nrows * ncols
  {
    if nrows > 0 {
      GridCardinality(nrows - 1, ncols);
      GridRowCardinality(nrows - 1, ncols);
      GridSplit(nrows, ncols);
      assert |Grid(nrows, ncols)| == (nrows - 1) * ncols + ncols;
      assert (nrows - 1) * ncols + ncols == nrows * ncols by {
        DistributeOne(nrows, ncols);
      }
    } else {
      assert Grid(nrows, ncols) == {};
    }
  }

  lemma DistributeOne(a: int, b: int)
    ensures (a - 1) * b + b == a * b
  {
  }

  lemma GridSplit(nrows: nat, ncols: nat)
    requires nrows > 0
    ensures Grid(nrows, ncols) == Grid(nrows - 1, ncols) + GridRow(nrows - 1, ncols)
    ensures Grid(nrows - 1, ncols) !! GridRow(nrows - 1, ncols)
  {
    forall c | c in Grid(nrows, ncols)
      ensures c in Grid(nrows - 1, ncols) + GridRow(nrows - 1, ncols)
    {
      if c.0 < nrows - 1 {
        assert c in Grid(nrows - 1, ncols);
      } else {
        assert c in GridRow(nrows - 1, ncols);
      }
    }
  }

  lemma SubsetCardinality<T>(a: set<T>, b: set<T>)
    requires a <= b
    ensures |a| <= |b|
  {
    assert b == a + (b - a);
  }
}

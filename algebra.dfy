/** matrix_x_matrix and matrix_ewise_mult: each creates a new nrows(A) x ncols(B) matrix
    C and fills it with GrB_mxm over the PLUS_TIMES_INT64 semiring or GrB_eWiseMult
    with TIMES_INT64 (sections 4.3.1 and 4.3.4 of the GraphBLAS C API Specification),
    without mask or accumulator. A and B are values and are never changed. */
module Algebra {
  import opened Common
  import opened Sparse

  /** PLUS_TIMES reduction over the inner index k < n, taking only the k where both
      A[i,k] and B[k,j] are present. */
  function Dot(a: Matrix, b: Matrix, i: int, j: int, n: nat): int {
    if n == 0 then 0
    else
      var k := n - 1;
      Dot(a, b, i, j, k) + (if (i, k) in a.entries && (k, j) in b.entries then a.entries[(i, k)] * b.entries[(k, j)] else 0)
  }

  /** Some inner index k has both A[i,k] and B[k,j] present. */
  predicate Linked(a: Matrix, b: Matrix, i: int, j: int) {
    exists k | 0 <= k < a.ncols :: (i, k) in a.entries && (k, j) in b.entries
  }

  /** The cells of the nrows(A) x ncols(B) result that some inner index links. */
  function ProductPattern(a: Matrix, b: Matrix): set<Coord> {
    set i, j | 0 <= i < a.nrows && 0 <= j < b.ncols && Linked(a, b, i, j) :: (i, j)
  }

  /** GrB_mxm(C, NULL, NULL, PLUS_TIMES, A, B, NULL): the shapes must chain; C's old
      entries are replaced by the product's. */
  function Mxm(c: Matrix, a: Matrix, b: Matrix): (r: Result<Matrix, Error>)
    requires c.Valid() && a.Valid() && b.Valid()
    ensures r.Ok? <==> a.ncols == b.nrows && c.nrows == a.nrows && c.ncols == b.ncols
    ensures r.Err? ==> r.error == GraphBLAS(DimensionMismatch)
    ensures r.Ok? ==> r.value.Valid() && r.value.nrows == c.nrows && r.value.ncols == c.ncols
  {
    if a.ncols != b.nrows || c.nrows != a.nrows || c.ncols != b.ncols then Err(GraphBLAS(DimensionMismatch))
    else Ok(Matrix(c.nrows, c.ncols, map p | p in ProductPattern(a, b) :: Dot(a, b, p.0, p.1, a.ncols)))
  }

  /** matrix_x_matrix(A, B): C = A (+.*) B in a new nrows(A) x ncols(B) matrix. Fails
      with DimensionMismatch exactly when ncols(A) != nrows(B); otherwise C[i,j] is
      present iff some k has A[i,k] and B[k,j], and then is the sum of A[i,k] * B[k,j]
      over those k. */
  function MatrixXMatrix(a: Matrix, b: Matrix): (r: Result<Matrix, Error>)
    requires a.Valid() && b.Valid()
    ensures r.Ok? <==> a.ncols == b.nrows
    ensures r.Err? ==> r.error == GraphBLAS(DimensionMismatch)
    ensures r.Ok? ==> r.value.Valid() && r.value.nrows == a.nrows && r.value.ncols == b.ncols
    ensures r.Ok? ==> forall i, j :: (i, j) in r.value.entries <==> Linked(a, b, i, j)
    ensures r.Ok? ==> forall p | p in r.value.entries :: r.value.entries[p] == Dot(a, b, p.0, p.1, a.ncols)
  {
    var r := Mxm(NewMatrix(a.nrows, b.ncols), a, b);
    if r.Ok? then
      assert forall i, j :: (i, j) in r.value.entries <==> Linked(a, b, i, j) by {
        forall i, j | Linked(a, b, i, j) ensures (i, j) in ProductPattern(a, b) {
          var k :| 0 <= k < a.ncols && (i, k) in a.entries && (k, j) in b.entries;
          assert a.InShape((i, k)) && b.InShape((k, j));
        }
      }
      r
    else r
  }


  /** The n x n identity: 1 on the diagonal, nothing elsewhere. */
  function Identity(n: nat): (m: Matrix)
    ensures m.Valid() && m.nrows == m.ncols == n
    ensures forall p :: p in m.entries <==> 0 <= p.0 < n && p.1 == p.0
    ensures forall p | p in m.entries :: m.entries[p] == 1
  {
    Matrix(n, n, map p | p in Diagonal(n) :: 1)
  }

  function Diagonal(n: nat): (d: set<Coord>)
    ensures forall p :: p in d <==> 0 <= p.0 < n && p.1 == p.0
  {
    set i | 0 <= i < n :: (i, i)
  }

  lemma {:induction false} DotRightIdentity(a: Matrix, n: nat, i: int, j: int, m: nat)
    requires m <= n
    ensures Dot(a, Identity(n), i, j, m) == if (i, j) in a.entries && 0 <= j < m then a.entries[(i, j)] else 0
  {
    if m > 0 {
      DotRightIdentity(a, n, i, j, m - 1);
      var k := m - 1;
      assert (k, j) in Identity(n).entries <==> k == j;
    }
  }

  lemma {:induction false} DotLeftIdentity(b: Matrix, n: nat, i: int, j: int, m: nat)
    requires m <= n
    ensures Dot(Identity(n), b, i, j, m) == if (i, j) in b.entries && 0 <= i < m then b.entries[(i, j)] else 0
  {
    if m > 0 {
      DotLeftIdentity(b, n, i, j, m - 1);
      var k := m - 1;
      assert (i, k) in Identity(n).entries <==> k == i && 0 <= i < n;
    }
  }

  /** A x I = A. */
  lemma RightIdentity(a: Matrix)
    requires a.Valid()
    ensures MatrixXMatrix(a, Identity(a.ncols)) == Ok(a)
  {
    var c := MatrixXMatrix(a, Identity(a.ncols)).value;
    forall p | p in a.entries ensures p in c.entries && c.entries[p] == a.entries[p] {
      RightIdentityKeepsEntry(a, p);
    }
    forall p | p in c.entries ensures p in a.entries {
      RightIdentityAddsNothing(a, p);
    }
    assert c.entries == a.entries;
    assert c == a;
  }

  lemma RightIdentityKeepsEntry(a: Matrix, p: Coord)
    requires a.Valid() && p in a.entries
    ensures MatrixXMatrix(a, Identity(a.ncols)).Ok?
    ensures p in MatrixXMatrix(a, Identity(a.ncols)).value.entries
    ensures MatrixXMatrix(a, Identity(a.ncols)).value.entries[p] == a.entries[p]
  {
    var id := Identity(a.ncols);
    assert (p.0, p.1) in a.entries && (p.1, p.1) in id.entries;
    assert Linked(a, id, p.0, p.1);
    DotRightIdentity(a, a.ncols, p.0, p.1, a.ncols);
  }

  lemma RightIdentityAddsNothing(a: Matrix, p: Coord)
    requires a.Valid()
    requires MatrixXMatrix(a, Identity(a.ncols)).Ok?
    requires p in MatrixXMatrix(a, Identity(a.ncols)).value.entries
    ensures p in a.entries
  {
    var id := Identity(a.ncols);
    assert Linked(a, id, p.0, p.1);
    var k :| 0 <= k < a.ncols && (p.0, k) in a.entries && (k, p.1) in id.entries;
    assert k == p.1;
  }

  /** I x B = B. */
  lemma LeftIdentity(b: Matrix)
    requires b.Valid()
    ensures MatrixXMatrix(Identity(b.nrows), b) == Ok(b)
  {
    var c := MatrixXMatrix(Identity(b.nrows), b).value;
    forall p | p in b.entries ensures p in c.entries && c.entries[p] == b.entries[p] {
      LeftIdentityKeepsEntry(b, p);
    }
    forall p | p in c.entries ensures p in b.entries {
      LeftIdentityAddsNothing(b, p);
    }
    assert c.entries == b.entries;
    assert c == b;
  }

  lemma LeftIdentityKeepsEntry(b: Matrix, p: Coord)
    requires b.Valid() && p in b.entries
    ensures MatrixXMatrix(Identity(b.nrows), b).Ok?
    ensures p in MatrixXMatrix(Identity(b.nrows), b).value.entries
    ensures MatrixXMatrix(Identity(b.nrows), b).value.entries[p] == b.entries[p]
  {
    var id := Identity(b.nrows);
    assert (p.0, p.0) in id.entries && (p.0, p.1) in b.entries;
    assert Linked(id, b, p.0, p.1);
    DotLeftIdentity(b, b.nrows, p.0, p.1, b.nrows);
  }

  lemma LeftIdentityAddsNothing(b: Matrix, p: Coord)
    requires b.Valid()
    requires MatrixXMatrix(Identity(b.nrows), b).Ok?
    requires p in MatrixXMatrix(Identity(b.nrows), b).value.entries
    ensures p in b.entries
  {
    var id := Identity(b.nrows);
    assert Linked(id, b, p.0, p.1);
    var k :| 0 <= k < id.ncols && (p.0, k) in id.entries && (k, p.1) in b.entries;
    assert k == p.0;
  }

  /** Multiplying an empty A by any B gives a result with no entries. */
  lemma EmptyTimesMatrix(nrows: nat, b: Matrix)
    requires b.Valid()
    ensures MatrixXMatrix(NewMatrix(nrows, b.nrows), b) == Ok(NewMatrix(nrows, b.ncols))
  {
    var r := MatrixXMatrix(NewMatrix(nrows, b.nrows), b);
    assert r.value.entries.Keys == {};
  }

  /** Multiplying A by a B with no entries gives a result with no entries. */
  lemma ProductWithEmpty(a: Matrix, ncols: nat)
    requires a.Valid()
    ensures MatrixXMatrix(a, NewMatrix(a.ncols, ncols)) == Ok(NewMatrix(a.nrows, ncols))
  {
    var r := MatrixXMatrix(a, NewMatrix(a.ncols, ncols));
    assert r.value.entries.Keys == {};
  }

  /** GrB_eWiseMult(C, NULL, NULL, TIMES, A, B, NULL): A, B and C must share one shape;
      C's old entries are replaced by the products on the intersection of A and B. */
  function EWiseMult(c: Matrix, a: Matrix, b: Matrix): (r: Result<Matrix, Error>)
    requires c.Valid() && a.Valid() && b.Valid()
    ensures r.Ok? <==> c.nrows == a.nrows == b.nrows && c.ncols == a.ncols == b.ncols
    ensures r.Err? ==> r.error == GraphBLAS(DimensionMismatch)
    ensures r.Ok? ==> r.value.Valid() && r.value.nrows == c.nrows && r.value.ncols == c.ncols
  {
    if !(c.nrows == a.nrows == b.nrows && c.ncols == a.ncols == b.ncols) then Err(GraphBLAS(DimensionMismatch))
    else Ok(Matrix(c.nrows, c.ncols, map p | p in a.entries.Keys * b.entries.Keys :: a.entries[p] * b.entries[p]))
  }

  /** matrix_ewise_mult(A, B): C = A .* B in a new nrows(A) x ncols(B) matrix. Fails with
      DimensionMismatch exactly when A and B differ in shape; otherwise C[i,j] is present
      iff both A[i,j] and B[i,j] are, and is their product. */
  function MatrixEWiseMult(a: Matrix, b: Matrix): (r: Result<Matrix, Error>)
    requires a.Valid() && b.Valid()
    ensures r.Ok? <==> a.nrows == b.nrows && a.ncols == b.ncols
    ensures r.Err? ==> r.error == GraphBLAS(DimensionMismatch)
    ensures r.Ok? ==> r.value.Valid() && r.value.nrows == a.nrows && r.value.ncols == b.ncols
    ensures r.Ok? ==> forall p :: p in r.value.entries <==> p in a.entries && p in b.entries
    ensures r.Ok? ==> forall p | p in r.value.entries :: r.value.entries[p] == a.entries[p] * b.entries[p]
  {
    EWiseMult(NewMatrix(a.nrows, b.ncols), a, b)
  }

  /** A .* B = B .* A, including the failure when the shapes differ. */
  lemma EWiseMultCommutes(a: Matrix, b: Matrix)
    requires a.Valid() && b.Valid()
    ensures MatrixEWiseMult(a, b) == MatrixEWiseMult(b, a)
  {
    var r, s := MatrixEWiseMult(a, b), MatrixEWiseMult(b, a);
    if r.Ok? {
      assert r.value.entries == s.value.entries;
    }
  }

  /** (A .* B) .* C = A .* (B .* C) for matrices of one shape. */
  lemma EWiseMultAssociates(a: Matrix, b: Matrix, c: Matrix)
    requires a.Valid() && b.Valid() && c.Valid()
    requires a.nrows == b.nrows == c.nrows && a.ncols == b.ncols == c.ncols
    ensures MatrixEWiseMult(a, b).Ok? && MatrixEWiseMult(b, c).Ok?
    ensures MatrixEWiseMult(MatrixEWiseMult(a, b).value, c) == MatrixEWiseMult(a, MatrixEWiseMult(b, c).value)
  {
    var ab, bc := MatrixEWiseMult(a, b).value, MatrixEWiseMult(b, c).value;
    var left, right := MatrixEWiseMult(ab, c).value, MatrixEWiseMult(a, bc).value;
    forall p | p in left.entries ensures p in right.entries && left.entries[p] == right.entries[p] {
      assert (a.entries[p] * b.entries[p]) * c.entries[p] == a.entries[p] * (b.entries[p] * c.entries[p]);
    }
    assert left.entries == right.entries;
  }

  /** The element-wise product has no more entries than either operand. */
  lemma EWiseMultNValsBound(a: Matrix, b: Matrix)
    requires a.Valid() && b.Valid()
    requires MatrixEWiseMult(a, b).Ok?
    ensures NVals(MatrixEWiseMult(a, b).value) <= NVals(a)
    ensures NVals(MatrixEWiseMult(a, b).value) <= NVals(b)
  {
    var c := MatrixEWiseMult(a, b).value;
    assert c.entries.Keys <= a.entries.Keys && c.entries.Keys <= b.entries.Keys;
    SubsetCardinality(c.entries.Keys, a.entries.Keys);
    SubsetCardinality(c.entries.Keys, b.entries.Keys);
  }
}

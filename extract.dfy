/** matrix_extract: a set-returning function that, on its first call, snapshots the
    matrix's tuples with GrB_Matrix_extractTuples and then emits one tuple per call
    until call_cntr reaches max_calls = nvals. */
module Extract {
  import opened Common
  import opened Sparse
  import opened Builder

  /** One output row (row, col, value). */
  datatype Tuple = Tuple(row: int, col: int, val: int)

  function Key(t: Tuple): Coord {
    (t.row, t.col)
  }

  ghost function Keys(ts: seq<Tuple>): set<Coord> {
    set i | 0 <= i < |ts| :: Key(ts[i])
  }

  /** ts lists entries of m, each with its stored value, no coordinate twice, and as
      many tuples as m has entries. The order is left open, as the C API leaves it. */
  ghost predicate IsEnumeration(m: Matrix, ts: seq<Tuple>) {
    && |ts| == |m.entries|
    && (forall i | 0 <= i < |ts| :: Key(ts[i]) in m.entries && m.entries[Key(ts[i])] == ts[i].val)
    && (forall i, j | 0 <= i < j < |ts| :: Key(ts[i]) != Key(ts[j]))
  }

  lemma KeysSnoc(ts: seq<Tuple>, t: Tuple)
    ensures Keys(ts + [t]) == Keys(ts) + {Key(t)}
  {
    var us := ts + [t];
    forall c | c in Keys(us) ensures c in Keys(ts) + {Key(t)} {
      var i :| 0 <= i < |us| && c == Key(us[i]);
      if i < |ts| {
        assert Key(ts[i]) == c;
      }
    }
    forall c | c in Keys(ts) ensures c in Keys(us) {
      var i :| 0 <= i < |ts| && c == Key(ts[i]);
      assert Key(us[i]) == c;
    }
    assert Key(us[|ts|]) == Key(t);
  }

  /** GrB_Matrix_extractTuples: every entry of m, once each, in some order. */
  method ExtractTuples(m: Matrix) returns (ts: seq<Tuple>)
    ensures IsEnumeration(m, ts)
    ensures Keys(ts) == m.entries.Keys
  {
    ts := [];
    var remaining := m.entries.Keys;
    while remaining != {}
      invariant remaining <= m.entries.Keys
      invariant Keys(ts) == m.entries.Keys - remaining
      invariant |ts| + |remaining| == |m.entries|
      invariant forall i | 0 <= i < |ts| :: Key(ts[i]) in m.entries && m.entries[Key(ts[i])] == ts[i].val
      invariant forall i, j | 0 <= i < j < |ts| :: Key(ts[i]) != Key(ts[j])
      decreases |remaining|
    {
      var c :| c in remaining;
      var t := Tuple(c.0, c.1, m.entries[c]);
      KeysSnoc(ts, t);
      ts := ts + [t];
      remaining := remaining - {c};
    }
  }

  lemma {:induction false} DistinctKeysCardinality(ts: seq<Tuple>)
    requires forall i, j | 0 <= i < j < |ts| :: Key(ts[i]) != Key(ts[j])
    ensures |Keys(ts)| == |ts|
    decreases |ts|
  {
    if |ts| > 0 {
      var n := |ts| - 1;
      DistinctKeysCardinality(ts[..n]);
      assert ts == ts[..n] + [ts[n]];
      KeysSnoc(ts[..n], ts[n]);
      assert Key(ts[n]) !in Keys(ts[..n]);
    }
  }

  /** Any enumeration reaches every entry: the snapshot misses nothing. */
  lemma EnumerationCoversEntries(m: Matrix, ts: seq<Tuple>)
    requires IsEnumeration(m, ts)
    ensures Keys(ts) == m.entries.Keys
  {
    DistinctKeysCardinality(ts);
    assert Keys(ts) <= m.entries.Keys;
    var missing := m.entries.Keys - Keys(ts);
    assert m.entries.Keys == Keys(ts) + missing;
    assert |missing| == 0;
  }

  function Rows(ts: seq<Tuple>): (s: seq<int>)
    ensures |s| == |ts| && forall i | 0 <= i < |ts| :: s[i] == ts[i].row
  {
    seq(|ts|, i requires 0 <= i < |ts| => ts[i].row)
  }

  function Cols(ts: seq<Tuple>): (s: seq<int>)
    ensures |s| == |ts| && forall i | 0 <= i < |ts| :: s[i] == ts[i].col
  {
    seq(|ts|, i requires 0 <= i < |ts| => ts[i].col)
  }

  function Vals(ts: seq<Tuple>): (s: seq<int>)
    ensures |s| == |ts| && forall i | 0 <= i < |ts| :: s[i] == ts[i].val
  {
    seq(|ts|, i requires 0 <= i < |ts| => ts[i].val)
  }

  lemma ExtractionCoords(ts: seq<Tuple>)
    ensures Coords(Rows(ts), Cols(ts)) == Keys(ts)
  {
    var rows, cols := Rows(ts), Cols(ts);
    forall k | k in Keys(ts) ensures k in Coords(rows, cols) {
      var i :| 0 <= i < |ts| && k == Key(ts[i]);
      assert (rows[i], cols[i]) == k;
    }
    forall k | k in Coords(rows, cols) ensures k in Keys(ts) {
      var i :| 0 <= i < |rows| && k == (rows[i], cols[i]);
      assert Key(ts[i]) == k;
    }
  }

  lemma ExtractionInShape(m: Matrix, ts: seq<Tuple>)
    requires m.Valid()
    requires IsEnumeration(m, ts)
    ensures AllInShape(NewMatrix(m.nrows, m.ncols), Rows(ts), Cols(ts))
  {
    var rows, cols := Rows(ts), Cols(ts);
    forall i | 0 <= i < |rows| ensures NewMatrix(m.nrows, m.ncols).InShape((rows[i], cols[i])) {
      assert (rows[i], cols[i]) == Key(ts[i]);
    }
  }

  lemma ExtractionValues(m: Matrix, ts: seq<Tuple>, dup: DupOp, k: Coord)
    requires IsEnumeration(m, ts)
    requires k in Coords(Rows(ts), Cols(ts))
    ensures k in Accumulate(Rows(ts), Cols(ts), Vals(ts), dup)
    ensures Accumulate(Rows(ts), Cols(ts), Vals(ts), dup)[k] == m.entries[k]
  {
    var rows, cols, vals := Rows(ts), Cols(ts), Vals(ts);
    var i :| 0 <= i < |rows| && k == (rows[i], cols[i]);
    forall j | 0 <= j < |rows| && j != i ensures (rows[j], cols[j]) != (rows[i], cols[i]) {
      assert (rows[j], cols[j]) == Key(ts[j]) && (rows[i], cols[i]) == Key(ts[i]);
      if j < i {
        assert Key(ts[j]) != Key(ts[i]);
      } else {
        assert Key(ts[i]) != Key(ts[j]);
      }
    }
    UniqueCoordKeepsValue(rows, cols, vals, dup, i);
    assert k == Key(ts[i]);
  }

  /** Round trip: building a fresh matrix of m's shape from any extraction of m gives m
      back, with either duplicate operator (an extraction has no duplicates). */
  lemma RebuildFromExtraction(m: Matrix, ts: seq<Tuple>, dup: DupOp)
    requires m.Valid()
    requires IsEnumeration(m, ts)
    ensures Build(NewMatrix(m.nrows, m.ncols), Rows(ts), Cols(ts), Vals(ts), dup) == Ok(m)
  {
    var rows, cols, vals := Rows(ts), Cols(ts), Vals(ts);
    ExtractionInShape(m, ts);
    EnumerationCoversEntries(m, ts);
    ExtractionCoords(ts);
    AccumulateKeys(rows, cols, vals, dup);
    var acc := Accumulate(rows, cols, vals, dup);
    assert acc.Keys == m.entries.Keys;
    forall k | k in acc ensures acc[k] == m.entries[k] {
      ExtractionValues(m, ts, dup, k);
    }
    assert acc == m.entries;
    assert Build(NewMatrix(m.nrows, m.ncols), rows, cols, vals, dup) == Ok(Matrix(m.nrows, m.ncols, acc));
  }

  /** The per-query state of matrix_extract: the snapshot taken on the first call
      (state->rows/cols/vals), funcctx->max_calls and funcctx->call_cntr. */
  class Cursor {
    const tuples: seq<Tuple>
    const maxCalls: nat
    var callCntr: nat
    /** The tuples returned so far, in order. */
    ghost var emitted: seq<Tuple>

    ghost predicate Valid()
      reads this
    {
      && maxCalls == |tuples|
      && callCntr <= maxCalls
      && emitted == tuples[..callCntr]
    }

    /** The SRF_IS_FIRSTCALL branch: snapshot nvals tuples of m. */
    constructor FirstCall(m: Matrix)
      requires m.Valid()
      ensures Valid()
      ensures IsEnumeration(m, tuples) && maxCalls == NVals(m)
      ensures callCntr == 0 && emitted == []
    {
      var ts := ExtractTuples(m);
      tuples := ts;
      maxCalls := |ts|;
      callCntr := 0;
      emitted := [];
    }

    /** One call: the next snapshotted tuple while call_cntr < max_calls
        (SRF_RETURN_NEXT advances the counter), otherwise done. */
    method Next() returns (r: Option<Tuple>)
      requires Valid()
      modifies this
      ensures Valid()
      ensures old(callCntr) < maxCalls ==> r == Some(tuples[old(callCntr)]) && callCntr == old(callCntr) + 1
      ensures old(callCntr) == maxCalls ==> r == None && callCntr == old(callCntr) && emitted == old(emitted)
      ensures r.None? ==> emitted == tuples
    {
      if callCntr < maxCalls {
        r := Some(tuples[callCntr]);
        emitted := emitted + [tuples[callCntr]];
        callCntr := callCntr + 1;
      } else {
        r := None;
      }
    }
  }
}

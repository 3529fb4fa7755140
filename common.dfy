/** Shared result types: the GraphBLAS failure codes the core can meet, and the
    errors the PostgreSQL host raises with ereport/elog. */
module Common {

  datatype Option<+T> = None | Some(value: T)

  datatype Result<+T, +E> = Ok(value: T) | Err(error: E)

  /** The non-success GrB_Info codes that the modelled GraphBLAS calls can return. */
  datatype Info =
    | IndexOutOfBounds   // GrB_INDEX_OUT_OF_BOUNDS: a build index outside the shape
    | DimensionMismatch  // GrB_DIMENSION_MISMATCH: operand shapes do not fit together
    | OutputNotEmpty     // GrB_OUTPUT_NOT_EMPTY: build into a matrix that already has entries

  /** Every error aborts the SQL call: either CHECK saw a failing GrB_Info, or
      PostgreSQL raised an error with the given message, from the extension or from
      palloc. */
  datatype Error =
    | GraphBLAS(info: Info)
    | Host(message: string)
}

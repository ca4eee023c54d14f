/** Positions, sizes, errors and the small option/result wrappers shared by
    the sheet and its cells. */
module Common {

  /** Number of rows and columns a position may address. The validity rule
      itself lives outside the modelled files; these are the bounds it is
      taken to use. */
  const MAX_ROWS: int := 16384
  const MAX_COLS: int := 16384

  datatype Position = Position(row: int, col: int) {
    /** Inside the grid: both coordinates non-negative and below the maxima. */
    predicate IsValid() {
      0 <= row < MAX_ROWS && 0 <= col < MAX_COLS
    }
  }

  /** The sentinel position; its coordinates stand for "no row / no column". */
  const NONE: Position := Position(-1, -1)

  /** Number of rows and columns of a box anchored at (0, 0). */
  datatype Size = Size(rows: int, cols: int)

  datatype Option<+T> = None | Some(value: T)

  /** The two exceptions the sheet throws. */
  datatype Error = InvalidPosition | CircularDependency

  datatype Result<+T> = Ok(value: T) | Err(error: Error)
}

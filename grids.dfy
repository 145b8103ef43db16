/** Shapes shared by every component: grids as sequences of rows, and the
    ways a carving operation can fail. */
module Grids {

  /** Every row of `g` has exactly `w` cells (a numpy array of width `w`). */
  predicate IsRect<T>(g: seq<seq<T>>, w: nat) {
    forall y | 0 <= y < |g| :: |g[y]| == w
  }

  /** Every row of `g` is as wide as the first one. */
  predicate IsGrid<T>(g: seq<seq<T>>) {
    forall y | 0 <= y < |g| :: |g[y]| == |g[0]|
  }

  /** The exceptions the numpy operations raise on degenerate shapes. */
  datatype CarveError =
    | NoRows        // indexing row 0 of a table with no rows
    | NoColumns     // argmin over an empty row
    | EmptyReshape  // reshaping a zero-size selection with an inferred axis
                    // when the given dimensions multiply to zero

  datatype Result<T> = Ok(value: T) | Err(error: CarveError)

  /** What a state-changing operation reports: it ran to completion, or it
      raised `error` part way. */
  datatype Status = Done | Failed(error: CarveError)
}

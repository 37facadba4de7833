/** The ways the solver stops without an answer (each a panic in the source),
    and the result type that carries them. */
module Panics {
  import opened Pipes

  datatype Failure =
    | NoRows                                            // the input has no line, so there is no first row
    | NoConnection(row: nat, col: nat, steps: nat)      // no allowed continuation from the current cell
    | OutOfRange(row: nat, col: nat, dir: Direction)    // the neighbour index lies outside the grid

  datatype Result<T> = Ok(value: T) | Err(error: Failure)
}

/** Optional values, results and the errors the program raises. */
module Outcomes {

  /** Python's `Optional[T]`: `None` or a present value. */
  datatype Option<+T> = None | Some(value: T)

  /** The `ValueError`s raised by the grid and the search step, plus the
      non-terminating trace loop, which is reported instead of running forever. */
  datatype Error =
    | UnknownColor    // a cell colour outside the palette reached `CellState.from_color`
    | AlreadyVisited  // `visit_grid_cell` on a cell that already has a parent
    | StartNotSet     // `init_queue` while no start point is recorded
    | TraceDiverges   // `trace_path` whose parent chain never reaches the start point

  /** The outcome of an operation that may raise. A raised error propagates out
      of the main loop and ends the program, so a failure carries no state. */
  datatype Result<+T> = Success(value: T) | Failure(error: Error)
}

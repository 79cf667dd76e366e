/** Failure-carrying results for the operations of the simulation that can raise. */
module Outcome {

  /** The exceptional exits of the simulation, named after what the program raises. */
  datatype Failure =
    | NoEmptyCell      // sampling a cell from an empty list of empty cells
    | NoAgentOfKind    // looking up the agents of a kind of which none was ever created
    | DivisionByZero   // the Gini denominator n * sum(capitals) is zero
    | IndexOutOfRange  // reading the sorted capitals past their end

  datatype Result<T> = Ok(value: T) | Err(error: Failure)
}

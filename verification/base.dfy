/** Failure-carrying results shared by every module of the model.
    The source signals every failure with an unchecked exception; the model
    returns `Err` with the kind of failure instead. */
module Base {

  datatype Option<+T> = None | Some(value: T)

  /** The failure kinds the engine can raise. */
  datatype Error =
    | CannotReplace        // replacing below a variable
    | CannotUnfreeze       // unfreezing a variable
    | Unorientable         // an equation the order cannot orient, outside unfailing mode
    | ReductionDivergence  // normalisation exceeded its pass budget
    | IncompleteSystem     // normal form asked of a system not (ground-)complete
    | OutOfFuel            // a loop the source leaves unbounded ran out of fuel
    | NotGroundComplete    // completion stopped without reaching a ground-complete system

  datatype Result<+T> = Ok(value: T) | Err(error: Error) {
    predicate IsFailure() {
      Err?
    }

    function PropagateFailure<U>(): Result<U>
      requires Err?
    {
      Err(error)
    }

    function Extract(): T
      requires Ok?
    {
      value
    }
  }
}

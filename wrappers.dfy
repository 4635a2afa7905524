/** Failure-carrying results shared by every module of the model. */
module Wrappers {

  datatype Option<+T> = None | Some(value: T)

  /** The outcome of an operation that the source can abort by raising or
      throwing: `Ok` carries the value, `Err` names the exception. */
  datatype Result<+T, +E> = Ok(value: T) | Err(error: E) {
    predicate IsFailure() { Err? }
    function PropagateFailure<U>(): Result<U, E> requires Err? { Err(error) }
    function Extract(): T requires Ok? { value }
  }

  /** The exceptions the modelled code raises or throws, by name. */
  datatype Exception =
    | TypeError | AttributeError | KeyError | ValueError | IOError | RuntimeError | IndexError | OverflowError | StopIteration
    | InvalidArgument   // C++ std::invalid_argument
    | ParseError        // a Rust Err string
    | StructError       // Python struct.error
}

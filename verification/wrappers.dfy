/**
  Failure-compatible wrappers shared by the whole model.

  The runtime distinguishes two kinds of failure. A C++ exception thrown by
  a coroutine body is ordinary data (`Exception`), routed by the frame's
  exception dispatch. A protocol violation (constructing a storage cell
  twice, resuming a finished frame, touching a freed frame, ...) is a fatal
  programming error in the source: it is undefined behaviour or a failed
  `assert`. The model makes those explicit as `Fault(Defect)` so that the
  concrete coroutine bodies can be proved never to commit one.
 */
module Wrappers {

  datatype Option<+T> = None | Some(value: T) {
    predicate IsFailure() {
      None?
    }

    function PropagateFailure<U>(): Option<U>
      requires None?
    {
      None
    }

    function Extract(): T
      requires Some?
    {
      value
    }
  }

  /** The exceptions that the modelled bodies can throw (`std::invalid_argument`
      and `std::out_of_range`, both raised by `std::stoi`). */
  datatype Exception = InvalidArgument | OutOfRange

  /** Protocol violations: each one is undefined behaviour or an assertion
      failure in the source. */
  datatype Defect =
    | DoubleConstruct       // placement-new into a storage cell that already holds a value
    | DoubleDestroy         // destroying a storage cell that holds nothing
    | ResumeAfterDone       // resuming a frame whose `done()` is true
    | UnknownIndex(index: nat) // a suspension index or try block the switch does not handle
    | UseAfterFree          // resuming or destroying a frame that was already deleted
    | ResumeNull            // calling `resume()` through a null handle
    | TransferFromInline    // an inline frame's step returned a non-null handle (`assert(!h)`)
    | TransferAfterCatch    // a handler returned a non-null handle on a live frame (`assert(!handle)`)
    | MissingValue          // dereferencing an empty `std::optional`
    | Terminate             // `std::terminate()`

  datatype Outcome<+T> = Ok(value: T) | Fault(defect: Defect) {
    predicate IsFailure() {
      Fault?
    }

    function PropagateFailure<U>(): Outcome<U>
      requires Fault?
    {
      Fault(defect)
    }

    function Extract(): T
      requires Ok?
    {
      value
    }
  }
}

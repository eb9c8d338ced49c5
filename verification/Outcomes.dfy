/** Result values of the source, and the panics that end the machine. */
module Outcomes {

  datatype Option<+T> = None | Some(value: T)

  /** The source's Result template. */
  datatype Result<+T> = Success(value: T) | Failure

  datatype PanicCode =
    | OutOfMemory
    | IncompatibleParameter
    | AddRefToUnallocatedPage
    | ReleaseUnallocatedPage
    | AllocationInNonReferenceCountedTable

  /** A call either returns or stops the machine for good; nothing is claimed about memory after a panic. */
  datatype Outcome<+T> = Done(value: T) | Panicked(code: PanicCode) {
    /** The code of the panic, if there is one. */
    function Panic(): Option<PanicCode> {
      if Panicked? then Some(code) else None
    }

    predicate IsFailure() {
      Panicked?
    }

    function PropagateFailure<U>(): Outcome<U>
      requires Panicked?
    {
      Panicked(code)
    }

    function Extract(): T
      requires Done?
    {
      value
    }
  }
}

/** Error values standing for the C++ exceptions the library throws, and the
    result wrappers every fallible operation of the model returns. */
module Wrappers {

  /** The exception classes that the library's operations throw. */
  datatype Error =
    | InvalidArgument      // std::invalid_argument
    | OverflowError        // std::overflow_error
    | DomainError          // std::domain_error
    | ZeroDivisionError    // mppp::zero_division_error
    | BadAlloc             // std::bad_alloc
    | SafeCastFailure      // piranha::safe_cast_failure
    | RuntimeError         // std::runtime_error, from an element's own constructor

  /** `safe_cast_failure` derives from `std::invalid_argument`, so a handler for
      the latter also catches the former. */
  predicate IsInvalidArgument(e: Error)
  {
    e.InvalidArgument? || e.SafeCastFailure?
  }

  datatype Option<T> = None | Some(value: T)

  datatype Result<T> = Ok(value: T) | Err(error: Error)
  {
    predicate IsFailure() { Err? }

    function PropagateFailure<U>(): Result<U>
      requires Err?
    {
      Err(error)
    }

    function Extract(): T
      requires Ok?
    {
      value
    }
  }

  /** The outcome of an operation that returns nothing but may throw. */
  datatype Outcome = Pass | Fail(error: Error)
  {
    predicate IsFailure() { Fail? }

    function PropagateFailure(): Outcome
      requires Fail?
    {
      this
    }
  }
}

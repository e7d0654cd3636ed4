/** Value types shared by both fan-in combinators: optional slots, the
    success-or-rethrow result of `await_resume`, opaque exceptions and
    coroutine handles. */
module Outcomes {

  /** A slot that may still hold its default-constructed (or indeterminate) value. */
  datatype Option<T> = None | Some(value: T)

  /** What `await_resume` yields: the results, or a rethrown exception. */
  datatype Result<T, E> = Success(value: T) | Failure(error: E)

  /** An opaque `std::exception_ptr` captured with `std::current_exception()`. */
  datatype Exc = Exc(id: nat)

  /** A `coroutine_handle<>`: null, or the handle of one suspended coroutine.
      Invoking a handle (`resume()`, `value()`) is recorded, never executed. */
  datatype Handle = Null | Coroutine(id: nat)

  /** What one awaited task produces when a helper coroutine `co_await`s it:
      a value, or an exception caught by the helper's `catch (...)`. */
  datatype TaskOutcome<V> = Returned(value: V) | Threw(error: Exc)
}

/** Failure-carrying datatypes used across the model.
- Option<T>: a value or nothing; stands for a Python result that may be `None`.
- Outcome<E>: success without a value, or an error; the effect of a setter.
- Result<R, E>: a value or an error; a validation that may raise `ValueError`.
 */
module Wrappers {

  datatype Option<+T> = None | Some(value: T)

  datatype Outcome<+E> = Pass | Fail(error: E)

  datatype Result<+R, +E> = Success(value: R) | Failure(error: E)
}

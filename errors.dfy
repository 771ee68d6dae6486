/** Error kinds of the menu service and the result type its operations return.
    `Conflict` is the duplicate-title error of create and `Internal` the
    generic failure every `catch` block falls back to. `NotFound` belongs to
    the service's error vocabulary, but every not-found it raises is thrown
    inside a `try` whose `catch` replaces it with `Internal` (its
    `instanceof AppError` test fails for the factories of
    src/errors/app-error.ts, which this model takes to be the `AppError` the
    service imports), so no operation returns it. */
module Errors {

  datatype ErrorKind = NotFound | Conflict | Internal

  datatype Result<+T> = Ok(value: T) | Err(error: ErrorKind)

  datatype Option<+T> = None | Some(value: T)
}

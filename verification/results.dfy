/** Outcomes of the service operations: an optional value, and a value or one of
    the HTTP exceptions the services throw. `TypeError` stands for a JavaScript
    runtime error (a property read on `null` or `undefined`), which the framework
    reports as an internal error. */
module Results {

  datatype Option<+T> = None | Some(value: T)

  datatype Exception =
    | BadRequest
    | Unauthorized
    | NotFound
    | Conflict
    | InternalServerError
    | TypeError

  datatype Result<+T> = Success(value: T) | Failure(error: Exception) {

    predicate IsFailure() {
      Failure?
    }

    function PropagateFailure<U>(): Result<U>
      requires Failure?
    {
      Failure(error)
    }

    function Extract(): T
      requires Success?
    {
      value
    }
  }
}

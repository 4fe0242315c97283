/** Shared value types of the backend model: optional values, results of
    operations that can throw, and HTTP replies as status/value pairs. */
module Common {

  /** A user's `_id`. */
  type UserId = nat

  /** A value that may be absent: `undefined`/`null` in the JavaScript source. */
  datatype Option<+T> = None | Some(value: T)

  /** The outcome of an operation that either returns a value or throws an
      `Error` carrying a message. */
  datatype Result<+T> = Success(value: T) | Failure(error: string)

  /** An HTTP reply: a status with a JSON body, or a status with the
      `{ message }` body the handlers send on every error path. */
  datatype Reply<+T> = Ok(status: nat, body: T) | Error(status: nat, message: string)

  /** JavaScript truthiness of an optional string field of a request body:
      `undefined` and `""` are falsy, every other string is truthy. */
  predicate Truthy(field: Option<string>)
  {
    field.Some? && field.value != []
  }
}

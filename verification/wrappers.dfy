/** Failure-carrying datatypes shared by every service of the model. */
module Wrappers {

  /** A nullable value: `null`/`undefined` in the source become `None`. */
  datatype Option<T> = None | Some(value: T)

  /** The exception classes the services throw, plus a rejection raised by the
      storage layer itself (a unique-key or foreign-key violation) that no
      service turns into a friendlier exception. */
  datatype ErrorKind =
    | NotFound       // NotFoundException, 404
    | Forbidden      // ForbiddenException, 403
    | BadRequest     // BadRequestException, 400
    | Conflict       // ConflictException, 409
    | Unauthorized   // UnauthorizedException, 401
    | StorageError   // an unhandled database error, 500

  /** Either the value a service returns or the exception it throws. */
  datatype Result<T> = Ok(value: T) | Err(kind: ErrorKind, message: string)

  /** A JavaScript truthiness test on an optional string: `undefined`, `null`
      and `""` are all falsy. */
  predicate Truthy(s: Option<string>) {
    s.Some? && s.value != ""
  }
}

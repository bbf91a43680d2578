/** The result and validation-error taxonomy shared by the handlers and the room aggregate. */
module Validation {

  datatype Option<+T> = None | Some(value: T)

  /** A handler or repository outcome: a success value or one error value. */
  datatype Result<+T, +E> = Success(value: T) | Failure(error: E)

  /** The three failure kinds (NotFoundError, BadRequestError, NotAuthorizedError). */
  datatype ErrorKind = NotFound | BadRequest | NotAuthorized

  /** One field-level failure: the property it is about and a human-readable message. */
  datatype ValidationFailure = ValidationFailure(propertyName: string, errorMessage: string)

  /** A failure of one kind, carrying its ordered list of field-level failures. */
  datatype ValidationError = ValidationError(kind: ErrorKind, errors: seq<ValidationFailure>)

  /** The failure carries at least one (property, message) entry. */
  predicate WellFormed(e: ValidationError) {
    |e.errors| > 0
  }

  /** The error holds exactly one failure, of the given kind, on the given property. */
  predicate IsSingle(e: ValidationError, kind: ErrorKind, property: string) {
    e.kind == kind && |e.errors| == 1 && e.errors[0].propertyName == property
  }
}

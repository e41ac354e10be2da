/** The error payloads: a coded error response and an accumulating list of field errors. */
module Errors {

  const StatusBadRequest: int := 400
  const StatusUnauthorized: int := 401
  const StatusForbidden: int := 403
  const StatusNotFound: int := 404
  const StatusInternalServerError: int := 500

  /** The reason phrase of an HTTP status code; the empty string for a code it does not know. */
  function StatusText(code: int): string {
    match code
    case 200 => "OK"
    case 201 => "Created"
    case 400 => "Bad Request"
    case 401 => "Unauthorized"
    case 403 => "Forbidden"
    case 404 => "Not Found"
    case 500 => "Internal Server Error"
    case _ => ""
  }

  /** An error with an HTTP status code; its error text is its message. */
  datatype ErrorResponse = ErrorResponse(code: int, status: string, message: string) {
    function Error(): string {
      message
    }
  }

  function NewErrorResponse(code: int, message: string): (r: ErrorResponse)
    ensures r.code == code
    ensures r.Error() == message
    ensures r.status == StatusText(code)
  {
    ErrorResponse(code, StatusText(code), message)
  }

  const ErrBadRequest: ErrorResponse := NewErrorResponse(StatusBadRequest, "bad request")
  const ErrUnauthorized: ErrorResponse := NewErrorResponse(StatusUnauthorized, "unauthorized")
  const ErrForbidden: ErrorResponse := NewErrorResponse(StatusForbidden, "forbidden")
  const ErrNotFound: ErrorResponse := NewErrorResponse(StatusNotFound, "not found")
  const ErrInternalServerError: ErrorResponse := NewErrorResponse(StatusInternalServerError, "internal server error")

  /** One offending field and what is wrong with it. */
  datatype ValidationError = ValidationError(field: string, message: string)

  /** A collection of field errors under one summary message; its error text is that message. */
  datatype ValidationErrors = ValidationErrors(code: int, status: string, message: string, errors: seq<ValidationError>) {

    function Error(): string {
      message
    }

    /** Appends one field error, keeping every earlier one where it was. */
    function Add(field: string, message: string): (r: ValidationErrors)
      ensures |r.errors| == |errors| + 1
      ensures r.errors[..|errors|] == errors
      ensures r.errors[|errors|] == ValidationError(field, message)
      ensures r.code == code && r.status == status && r.Error() == this.message
    {
      this.(errors := errors + [ValidationError(field, message)])
    }

    predicate HasErrors() {
      |errors| > 0
    }
  }

  /** A 400 validation failure carrying the given message and field errors unchanged. */
  function NewValidationError(message: string, errors: seq<ValidationError>): (r: ValidationErrors)
    ensures r.code == StatusBadRequest
    ensures r.status == "Bad Request"
    ensures r.Error() == message
    ensures r.errors == errors
    ensures r.HasErrors() <==> |errors| > 0
  {
    ValidationErrors(StatusBadRequest, StatusText(StatusBadRequest), message, errors)
  }

  /** After any Add the collection reports errors, and the added entry is the last one. */
  lemma AddReportsErrors(v: ValidationErrors, field: string, message: string)
    ensures v.Add(field, message).HasErrors()
    ensures v.Add(field, message).errors[|v.Add(field, message).errors| - 1] == ValidationError(field, message)
  {
  }
}

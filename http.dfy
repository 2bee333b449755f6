/**
 * HTTP statuses used by the services and the GenericResponse envelope
 * (model/response/GenericResponse.java).
 */
module Http {
  import opened Wrappers

  /** The members of Spring's HttpStatus that the application uses. */
  datatype HttpStatus =
    | Ok | Created | BadRequest | Unauthorized | Forbidden | NotFound | Conflict | InternalServerError
  {
    /** HttpStatus.value(): the numeric code. */
    function Value(): (code: nat)
      ensures 200 <= code < 600
    {
      match this
      case Ok => 200
      case Created => 201
      case BadRequest => 400
      case Unauthorized => 401
      case Forbidden => 403
      case NotFound => 404
      case Conflict => 409
      case InternalServerError => 500
    }

    /** HttpStatus.getReasonPhrase(). */
    function ReasonPhrase(): string {
      match this
      case Ok => "OK"
      case Created => "Created"
      case BadRequest => "Bad Request"
      case Unauthorized => "Unauthorized"
      case Forbidden => "Forbidden"
      case NotFound => "Not Found"
      case Conflict => "Conflict"
      case InternalServerError => "Internal Server Error"
    }
  }

  /** Distinct statuses carry distinct codes, so a code identifies its status. */
  lemma ValueInjective(a: HttpStatus, b: HttpStatus)
    ensures a.Value() == b.Value() ==> a == b
  {
  }

  /** The response envelope: `data` and `error` are Java references, so they may be absent (null). */
  datatype GenericResponse<T> = GenericResponse(status: string, statusCode: int, data: Option<T>, error: Option<string>)
  {
    predicate IsSuccess() { status == "success" }

    /** The envelope invariant the two factories establish. */
    predicate WellFormed() {
      && (status == "success" || status == "error")
      && (status == "success" ==> error == None)
      && (status == "error" ==> data == None && error != None)
    }
  }

  /** GenericResponse.success: the data is carried, the error is null. */
  function Success<T>(data: T, status: HttpStatus): (r: GenericResponse<T>)
    ensures r.IsSuccess() && r.WellFormed()
    ensures r.data == Some(data) && r.statusCode == status.Value()
    ensures !(r.data.Some? && r.error.Some?)
  {
    GenericResponse("success", status.Value(), Some(data), None)
  }

  /** GenericResponse.error: the message is carried, the data is null. */
  function Error<T>(errorMessage: string, status: HttpStatus): (r: GenericResponse<T>)
    ensures !r.IsSuccess() && r.WellFormed()
    ensures r.error == Some(errorMessage) && r.statusCode == status.Value()
    ensures !(r.data.Some? && r.error.Some?)
  {
    GenericResponse("error", status.Value(), None, Some(errorMessage))
  }
}

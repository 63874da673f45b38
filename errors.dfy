/** The service's error taxonomy and how each kind becomes an HTTP
    response with a JSON `{"error": ...}` body. */
module Errors {
  import opened Base
  import opened Http

  /** `AppError`: four kinds, each carrying the message shown to the client. */
  datatype AppError =
    | BadRequest(message: string)
    | Unauthorized(message: string)
    | NotFound(message: string)
    | Internal(message: string)

  /** Any error of the database driver, whatever it says. */
  datatype DbError = DbError(detail: string)

  const DatabaseErrorMessage := "Database error"

  /** `IntoResponse for AppError`: the kind picks the status, the message
      becomes the body's `error` field unchanged. */
  function IntoResponse(e: AppError): (r: Response)
    ensures e.BadRequest? ==> r.status == StatusBadRequest
    ensures e.Unauthorized? ==> r.status == StatusUnauthorized
    ensures e.NotFound? ==> r.status == StatusNotFound
    ensures e.Internal? ==> r.status == StatusInternalServerError
    ensures r.body == ErrorJson(e.message)
  {
    var status := match e
      case BadRequest(_) => StatusBadRequest
      case Unauthorized(_) => StatusUnauthorized
      case NotFound(_) => StatusNotFound
      case Internal(_) => StatusInternalServerError;
    Response(status, ErrorJson(e.message))
  }

  /** `From<sqlx::Error> for AppError`: every database error becomes the
      same internal error, dropping its content. */
  function FromDbError(e: DbError): (r: AppError)
    ensures r.Internal? && r.message == DatabaseErrorMessage
  {
    Internal(DatabaseErrorMessage)
  }

  /** Recovers the error from a rendered response: the partner of
      `IntoResponse`. */
  function FromResponse(r: Response): (e: Option<AppError>)
  {
    match r.body
    case ErrorJson(m) =>
      if r.status == StatusBadRequest then Some(BadRequest(m))
      else if r.status == StatusUnauthorized then Some(Unauthorized(m))
      else if r.status == StatusNotFound then Some(NotFound(m))
      else if r.status == StatusInternalServerError then Some(Internal(m))
      else None
    case _ => None
  }

  /** Rendering loses nothing: the response determines the error. */
  lemma FromIntoResponse(e: AppError)
    ensures FromResponse(IntoResponse(e)) == Some(e)
  {
  }

  /** Distinct kinds get distinct status codes. */
  lemma StatusDeterminesKind(e1: AppError, e2: AppError)
    ensures IntoResponse(e1).status == IntoResponse(e2).status <==>
      (e1.BadRequest? && e2.BadRequest?) || (e1.Unauthorized? && e2.Unauthorized?) ||
      (e1.NotFound? && e2.NotFound?) || (e1.Internal? && e2.Internal?)
  {
  }

  /** A converted database error always renders as 500 with the fixed body,
      so two database errors give the same response whatever they say. */
  lemma DbErrorRendersGeneric(e1: DbError, e2: DbError)
    ensures IntoResponse(FromDbError(e1)) == Response(StatusInternalServerError, ErrorJson(DatabaseErrorMessage))
    ensures IntoResponse(FromDbError(e1)) == IntoResponse(FromDbError(e2))
  {
  }
}

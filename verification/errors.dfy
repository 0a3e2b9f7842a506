/** The API's error taxonomy (`ErrorAPI` and its four subclasses) and the
    result types through which the pipeline reports them. */
module Errors {
  import opened Wrappers

  /** The fields of an `ErrorAPI` instance. */
  datatype ErrorRecord = ErrorRecord(code: string, message: string, details: string, httpStatus: int)

  /** The base constructor `ErrorAPI(codigo, mensaje, detalles, codigo_http=400)`. */
  function NewApiError(code: string, message: string, details: string, httpStatus: int := 400): (e: ErrorRecord)
    ensures e.code == code && e.message == message && e.details == details
    ensures e.httpStatus == httpStatus
  {
    ErrorRecord(code, message, details, httpStatus)
  }

  /** The base constructor's status defaults to 400 (Bad Request). */
  lemma DefaultStatusIs400(code: string, message: string, details: string)
    ensures NewApiError(code, message, details).httpStatus == 400
  {
  }

  /** The four kinds the core raises or declares, with what each carries. */
  datatype ApiError =
    | InvalidFormat(details: string)          // ErrorFormatoInvalido
    | InappropriateContent(details: string)   // ErrorContenidoInapropiado
    | SessionNotFound(sessionId: string)      // ErrorSesionNoEncontrada
    | DuplicateMessage(messageId: string)     // ErrorMensajeDuplicado

  const SessionDetailPrefix: string := "No se encontraron mensajes para la sesion: "
  const DuplicateDetailPrefix: string := "Ya existe un mensaje con el id: "

  /** The fields each subclass constructor sets. */
  function Record(e: ApiError): (r: ErrorRecord)
    ensures Parse(r) == Some(e)
    ensures r.httpStatus == 400 <==> e.InvalidFormat?
    ensures r.httpStatus == 404 <==> e.SessionNotFound?
    ensures r.httpStatus == 409 <==> e.DuplicateMessage?
    ensures r.httpStatus == 422 <==> e.InappropriateContent?
  {
    match e
    case InvalidFormat(d) =>
      NewApiError("INVALID_FORMAT", "Formato de mensaje invalido", d, 400)
    case InappropriateContent(d) =>
      NewApiError("INAPPROPRIATE_CONTENT", "El mensaje contiene contenido inapropiado", d, 422)
    case SessionNotFound(s) =>
      NewApiError("SESSION_NOT_FOUND", "Sesion no encontrada", SessionDetailPrefix + s, 404)
    case DuplicateMessage(m) =>
      NewApiError("DUPLICATE_MESSAGE", "Mensaje duplicado", DuplicateDetailPrefix + m, 409)
  }

  /** Recovers the kind and its argument from the record's code and details:
      the code identifies the kind, and the session or message id is what follows
      the fixed prefix of the details. */
  function Parse(r: ErrorRecord): Option<ApiError> {
    if r.code == "INVALID_FORMAT" then Some(InvalidFormat(r.details))
    else if r.code == "INAPPROPRIATE_CONTENT" then Some(InappropriateContent(r.details))
    else if r.code == "SESSION_NOT_FOUND" && SessionDetailPrefix <= r.details then
      Some(SessionNotFound(r.details[|SessionDetailPrefix|..]))
    else if r.code == "DUPLICATE_MESSAGE" && DuplicateDetailPrefix <= r.details then
      Some(DuplicateMessage(r.details[|DuplicateDetailPrefix|..]))
    else None
  }

  /** A computation that either yields a value or raises an API error. */
  datatype Result<+T> = Ok(value: T) | Err(error: ApiError)

  /** A check that either passes or raises an API error. */
  datatype Outcome = Pass | Fail(error: ApiError)
}

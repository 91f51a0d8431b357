/** The kernel-exception listener that turns any exception thrown while serving
    an `/api/` path into a JSON error body. */
module ExceptionSubscriber {

  import opened Wrappers
  import opened Text

  /** A thrown `Throwable`: its message, where it was thrown, and the status code
      it carries when it implements `HttpExceptionInterface`. */
  datatype Exception = Exception(message: string, httpStatus: Option<int>, file: string, line: int, trace: string)

  /** The `debug` block added in the dev environment. */
  datatype Debug = Debug(message: string, file: string, line: int, trace: string)

  datatype ErrorBody = ErrorBody(status: int, error: string, debug: Option<Debug>)

  datatype JsonResponse = JsonResponse(statusCode: int, data: ErrorBody)

  const InternalServerError: int := 500

  /** The codes that have a message of their own outside dev. */
  const NamedCodes: set<int> := {400, 401, 403, 404, 405, 422}

  /** `getErrorMessage` outside dev. */
  function PublicMessage(code: int): string {
    match code
    case 400 => "Bad Request"
    case 401 => "Unauthorized"
    case 403 => "Forbidden"
    case 404 => "Resource not found"
    case 405 => "Method not allowed"
    case 422 => "Unprocessable entity"
    case _ => "An error occurred"
  }

  /** `getErrorMessage`: the exception's own message in dev, the fixed table elsewhere. */
  function ErrorMessage(environment: string, ex: Exception, code: int): (m: string)
    ensures environment == "dev" ==> m == ex.message
    ensures environment != "dev" ==> (m == "An error occurred" <==> code !in NamedCodes)
  {
    if environment == "dev" then ex.message else PublicMessage(code)
  }

  /** `onKernelException`: None when the listener returns without setting a response. */
  function OnKernelException(path: string, environment: string, ex: Exception): (r: Option<JsonResponse>)
    ensures r.Some? <==> StartsWith(path, "/api/")
    ensures r.Some? ==> r.value.statusCode == r.value.data.status
    ensures r.Some? ==> r.value.statusCode == (if ex.httpStatus.Some? then ex.httpStatus.value else InternalServerError)
    ensures r.Some? ==> (r.value.data.debug.Some? <==> environment == "dev")
    ensures r.Some? && environment == "dev" ==>
              r.value.data.error == ex.message && r.value.data.debug == Some(Debug(ex.message, ex.file, ex.line, ex.trace))
  {
    if !StartsWith(path, "/api/") then None
    else
      var code := if ex.httpStatus.Some? then ex.httpStatus.value else InternalServerError;
      var debug := if environment == "dev" then Some(Debug(ex.message, ex.file, ex.line, ex.trace)) else None;
      Some(JsonResponse(code, ErrorBody(code, ErrorMessage(environment, ex, code), debug)))
  }

  /** Outside dev nothing of the exception reaches the client but its status
      code: two exceptions with the same code give the same response. */
  lemma PublicResponseHidesDetails(path: string, environment: string, ex1: Exception, ex2: Exception)
    requires environment != "dev"
    requires ex1.httpStatus == ex2.httpStatus
    ensures OnKernelException(path, environment, ex1) == OnKernelException(path, environment, ex2)
  {
  }

  /** Outside dev, a plain (non-HTTP) exception always reads "An error occurred" with status 500. */
  lemma PlainExceptionIs500(path: string, environment: string, ex: Exception)
    requires StartsWith(path, "/api/") && environment != "dev" && ex.httpStatus.None?
    ensures OnKernelException(path, environment, ex)
      == Some(JsonResponse(500, ErrorBody(500, "An error occurred", None)))
  {
  }

  /** The message table outside dev, code by code. */
  lemma PublicMessages()
    ensures PublicMessage(400) == "Bad Request" && PublicMessage(401) == "Unauthorized"
    ensures PublicMessage(403) == "Forbidden" && PublicMessage(404) == "Resource not found"
    ensures PublicMessage(405) == "Method not allowed" && PublicMessage(422) == "Unprocessable entity"
    ensures forall code :: code !in NamedCodes ==> PublicMessage(code) == "An error occurred"
  {
  }
}

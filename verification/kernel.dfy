/** One request end to end: an action's outcome, and for a throw the JSON the
    exception listener answers with. A throw during a flush is rolled back, so
    the store is the one the request started from. */
module Kernel {

  import opened Wrappers
  import opened Text
  import opened Http
  import opened ExceptionSubscriber
  import opened Store
  import AppointmentController

  /** What the client receives: the action's reply, the listener's error
      response, or (off `/api/`) no JSON at all. */
  datatype Response<+T> = Answered(reply: Reply<T>) | ErrorJson(response: JsonResponse) | Unhandled

  /** Serving a request: the store afterwards and the response. */
  function Serve<T>(s: Store, path: string, environment: string, o: Outcome<T>): (r: (Store, Response<T>))
    ensures o.Replied? ==> r == (o.store, Answered(o.reply))
    ensures o.Threw? ==> r.0 == s
    ensures o.Threw? && StartsWith(path, "/api/") ==>
              r.1.ErrorJson? && r.1.response.statusCode == (if o.ex.httpStatus.Some? then o.ex.httpStatus.value else 500)
    ensures o.Threw? && !StartsWith(path, "/api/") ==> r.1.Unhandled?
  {
    match o
    case Replied(after, reply) => (after, Answered(reply))
    case Threw(ex) =>
      match OnKernelException(path, environment, ex)
      case Some(response) => (s, ErrorJson(response))
      case None => (s, Unhandled)
  }

  /** Every throw the actions can raise (a NOT NULL violation or an unparsable
      date) carries no HTTP status: outside dev the client sees a bare 500
      "An error occurred" and the store is untouched. */
  lemma ThrowsAreServerErrors<T>(s: Store, path: string, environment: string, o: Outcome<T>)
    requires o.Threw? && o.ex.httpStatus.None?
    requires StartsWith(path, "/api/") && environment != "dev"
    ensures Serve(s, path, environment, o) == (s, ErrorJson(JsonResponse(500, ErrorBody(500, "An error occurred", None))))
  {
    PlainExceptionIs500(path, environment, o.ex);
  }

  /** An appointment posted without `clientId` passes validation and fails in
      the database: a 500, whose dev body names the column. */
  lemma MissingClientIsServerError(s: Store, p: AppointmentController.AppointmentPayload, now: int, environment: string)
    requires AppointmentController.Accepted(s, p, now) && !p.clientId.IsSet()
    ensures var r := Serve(s, "/api/appointments", environment, AppointmentController.Create(s, Decoded(p), now));
            && r.0 == s && r.1.ErrorJson? && r.1.response.statusCode == 500
            && (environment == "dev" ==> r.1.response.data.error == NotNullViolation("appointment.client_id").message)
            && (environment != "dev" ==> r.1.response.data.error == "An error occurred")
  {
    AppointmentController.MissingClientThrows(s, p, now);
    var ex := NotNullViolation("appointment.client_id");
    assert StartsWith("/api/appointments", "/api/");
    if environment != "dev" {
      PlainExceptionIs500("/api/appointments", environment, ex);
    }
  }
}

/** The Appointment entity: a dated visit of a user to a client. */
module AppointmentEntity {

  import opened Wrappers
  import opened Validation

  const Types: seq<string> := ["Installation", "Visite technique", "Signature", "SAV", "Autre"]
  const Statuses: seq<string> := ["scheduled", "completed", "cancelled", "urgent"]
  const DefaultStatus: string := "scheduled"

  /** Dates are Unix timestamps in seconds; `client` and `user` are row ids. */
  datatype Appointment = Appointment(
    date: Option<int>,
    appointmentType: string,
    status: string,
    address: Option<string>,
    notes: Option<string>,
    createdAt: int,
    updatedAt: int,
    client: Option<nat>,
    user: Option<nat>)

  /** Every `Assert` constraint of the class holds. */
  predicate Valid(a: Appointment) {
    && a.date.Some?
    && a.appointmentType in Types
    && a.status in Statuses
  }

  function Violations(a: Appointment): (vs: seq<Violation>)
    ensures |vs| == 0 <==> Valid(a)
    ensures Fields(vs) <= {"appointmentDate", "type", "status"}
    ensures a.date.None? ==> Violation("appointmentDate", Blank) in vs
    ensures a.appointmentType == "" ==> Violation("type", Blank) in vs && Violation("type", NotAChoice) in vs
    ensures a.status !in Statuses ==> Violation("status", NotAChoice) in vs
  {
    var vs :=
      NotBlankOption("appointmentDate", a.date)
      + NotBlank("type", a.appointmentType) + Choice("type", a.appointmentType, Types)
      + Choice("status", a.status, Statuses);
    FieldsWithin(vs, {"appointmentDate", "type", "status"});
    vs
  }

  /** The `client_id` and `user_id` columns are NOT NULL, and no validator checks them. */
  predicate Persistable(a: Appointment) {
    a.client.Some? && a.user.Some?
  }

  /** The status "confirmed" used by the dashboard's type declarations is refused. */
  lemma ConfirmedRejected(a: Appointment)
    requires a.status == "confirmed"
    ensures !Valid(a)
    ensures Violation("status", NotAChoice) in Violations(a)
  {
  }
}

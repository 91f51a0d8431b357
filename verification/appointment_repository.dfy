/** `AppointmentRepository`: today's agenda and the filtered, paged list. */
module AppointmentRepository {

  import opened Wrappers
  import opened Table
  import opened AppointmentEntity
  import StatusQuery
  import Query
  import Arith

  /** The appointment date as a sort key. Every stored appointment has a date
      (the column is NOT NULL and the validator demands one), so the value for
      a missing date is never compared. */
  function DateOf(a: Appointment): int {
    if a.date.Some? then a.date.value else 0
  }

  // --- findTodayAppointments ------------------------------------------------

  /** `appointmentDate >= today AND appointmentDate < tomorrow AND status != 'cancelled'`;
      the two midnights are passed in. */
  predicate IsToday(a: Appointment, today: int, tomorrow: int) {
    a.date.Some? && today <= a.date.value < tomorrow && a.status != "cancelled"
  }

  function TodayTest(today: int, tomorrow: int): Appointment -> bool {
    (a: Appointment) => IsToday(a, today, tomorrow)
  }

  /** `ORDER BY appointmentDate ASC`, written as a descending order on the negated date. */
  function EarliestFirst(): Row<Appointment> -> int {
    (x: Row<Appointment>) => -DateOf(x.val)
  }

  /** Today's appointments that are not cancelled, earliest first. */
  function FindTodayAppointments(t: seq<Row<Appointment>>, today: int, tomorrow: int): (r: seq<Row<Appointment>>)
    ensures forall x :: x in r <==> x in t && IsToday(x.val, today, tomorrow)
    ensures forall i, j :: 0 <= i < j < |r| ==> r[i].val.date.Some? && r[j].val.date.Some? && r[i].val.date.value <= r[j].val.date.value
    ensures multiset(r) == multiset(Keep(t, TodayTest(today, tomorrow)))
  {
    var r := Query.Ordered(t, TodayTest(today, tomorrow), EarliestFirst());
    forall x | x in r
      ensures x in t && IsToday(x.val, today, tomorrow)
    {
      assert x in multiset(r);
    }
    forall x | x in t && IsToday(x.val, today, tomorrow)
      ensures x in r
    {
      assert x in multiset(Keep(t, TodayTest(today, tomorrow)));
    }
    forall i, j | 0 <= i < j < |r|
      ensures r[i].val.date.Some? && r[j].val.date.Some? && r[i].val.date.value <= r[j].val.date.value
    {
      assert r[i] in r && r[j] in r;
      assert EarliestFirst()(r[i]) >= EarliestFirst()(r[j]);
    }
    r
  }

  // --- findWithFilters --------------------------------------------------------

  /** `if ($status)` and `if ($type)`: each filter applies only when its value is
      truthy. Unlike the client and quote lists, "all" is a real filter here. */
  predicate Filtered(a: Appointment, status: Option<string>, appointmentType: Option<string>) {
    && (StatusQuery.Truthy(status) ==> a.status == status.value)
    && (StatusQuery.Truthy(appointmentType) ==> a.appointmentType == appointmentType.value)
  }

  function FilterTest(status: Option<string>, appointmentType: Option<string>): Appointment -> bool {
    (a: Appointment) => Filtered(a, status, appointmentType)
  }

  /** `ORDER BY appointmentDate DESC`. */
  function LatestFirst(): Row<Appointment> -> int {
    (x: Row<Appointment>) => DateOf(x.val)
  }

  /** The appointments both filters accept, latest first, one page. */
  function FindWithFilters(t: seq<Row<Appointment>>, status: Option<string>, appointmentType: Option<string>,
                           page: nat, limit: nat): (r: seq<Row<Appointment>>)
    requires page >= 1 && limit >= 1
    ensures |r| <= limit
    ensures forall x :: x in r ==> x in t && Filtered(x.val, status, appointmentType)
    ensures forall i, j :: 0 <= i < j < |r| ==> DateOf(r[i].val) >= DateOf(r[j].val)
    ensures Offset(page, limit) >= |Keep(t, FilterTest(status, appointmentType))| ==> r == []
    ensures Offset(page, limit) < |Keep(t, FilterTest(status, appointmentType))| ==>
              |r| == Min(limit, |Keep(t, FilterTest(status, appointmentType))| - Offset(page, limit))
  {
    var r := Query.FindPage(t, FilterTest(status, appointmentType), LatestFirst(), page, limit);
    assert SortedDesc(r, LatestFirst());
    r
  }

  /** Pages of the list follow one another latest date first, and with unique
      ids no appointment is listed on two pages. */
  lemma PagesInOrder(t: seq<Row<Appointment>>, status: Option<string>, appointmentType: Option<string>,
                     p: nat, q: nat, limit: nat)
    requires 1 <= p < q && limit >= 1
    ensures forall x, y :: (x in FindWithFilters(t, status, appointmentType, p, limit)
                        && y in FindWithFilters(t, status, appointmentType, q, limit)) ==> DateOf(x.val) >= DateOf(y.val)
    ensures UniqueIds(t) ==> forall x :: x in FindWithFilters(t, status, appointmentType, p, limit)
                                     ==> x !in FindWithFilters(t, status, appointmentType, q, limit)
  {
    Query.PagesInOrder(t, FilterTest(status, appointmentType), LatestFirst(), p, q, limit);
  }

  /** With neither filter the list pages through the whole table. */
  lemma NoFilterKeepsAll(t: seq<Row<Appointment>>, status: Option<string>, appointmentType: Option<string>)
    requires !StatusQuery.Truthy(status) && !StatusQuery.Truthy(appointmentType)
    ensures Keep(t, FilterTest(status, appointmentType)) == t
  {
  }

  /** Paging loses no appointment: each accepted one is on some page no later
      than ceil(count / limit). */
  lemma PagesCoverFiltered(t: seq<Row<Appointment>>, status: Option<string>, appointmentType: Option<string>,
                           limit: nat, x: Row<Appointment>) returns (p: nat)
    requires limit >= 1 && x in t && Filtered(x.val, status, appointmentType)
    ensures 1 <= p <= Arith.CeilDiv(|Keep(t, FilterTest(status, appointmentType))|, limit)
    ensures x in FindWithFilters(t, status, appointmentType, p, limit)
  {
    p := Query.PagesCoverKept(t, FilterTest(status, appointmentType), LatestFirst(), limit, x);
  }
}

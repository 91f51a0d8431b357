/** `AppointmentController`: the actions under `/api/appointments`. */
module AppointmentController {

  import opened Wrappers
  import opened Table
  import opened Validation
  import opened Http
  import opened Store
  import opened AppointmentEntity
  import AppointmentRepository

  /** The keys `create` and `update` read from the body (`update` ignores the ids). */
  datatype AppointmentPayload = AppointmentPayload(
    appointmentDate: Field<DateInput>,
    appointmentType: Field<string>,
    status: Field<string>,
    address: Field<string>,
    notes: Field<string>,
    clientId: Field<nat>,
    userId: Field<nat>)

  /** `isset($data['appointmentDate'])` with a string `new \DateTime` rejects. */
  predicate BadDate(f: Field<DateInput>) {
    f == Given(Unparsable)
  }

  /** The date a key sets, if it is set and parses. */
  function DateOf(f: Field<DateInput>, current: Option<int>): Option<int> {
    match f
    case Given(Parsed(at)) => Some(at)
    case _ => current
  }

  /** `create`: `new Appointment()`, the setters with their `??` defaults, and the
      client and user the ids resolved to. */
  function Build(p: AppointmentPayload, now: int, client: Ref, user: Ref): Appointment {
    Appointment(DateOf(p.appointmentDate, None), p.appointmentType.Or(""), p.status.Or(DefaultStatus),
                p.address.OrNull(), p.notes.OrNull(), now, now, client.AsLink(), user.AsLink())
  }

  /** `update`: each property set only when its key `isset`. */
  function Patch(a: Appointment, p: AppointmentPayload): Appointment {
    a.(date := DateOf(p.appointmentDate, a.date),
       appointmentType := p.appointmentType.Over(a.appointmentType),
       status := p.status.Over(a.status),
       address := p.address.OverNull(a.address),
       notes := p.notes.OverNull(a.notes))
  }

  // --- list, today, show ------------------------------------------------------

  /** `list`: a page of the appointments both optional filters accept, latest
      first (this list reports no pagination block). */
  function List(s: Store, q: ListQuery, appointmentType: Option<string>): (r: Reply<seq<Row<Appointment>>>)
    ensures r.Success? && r.status == 200 && r.data.Some?
    ensures |r.data.value| <= LimitParam(q.limit, 100) <= 100
    ensures forall x :: x in r.data.value ==>
              x in s.appointments && AppointmentRepository.Filtered(x.val, q.status, appointmentType)
    ensures forall i, j :: 0 <= i < j < |r.data.value| ==>
              AppointmentRepository.DateOf(r.data.value[i].val) >= AppointmentRepository.DateOf(r.data.value[j].val)
    ensures var matching := |Keep(s.appointments, AppointmentRepository.FilterTest(q.status, appointmentType))|;
            var o := Offset(PageParam(q.page), LimitParam(q.limit, 100));
            && (o >= matching ==> r.data.value == [])
            && (o < matching ==> |r.data.value| == Min(LimitParam(q.limit, 100), matching - o))
  {
    Found(AppointmentRepository.FindWithFilters(s.appointments, q.status, appointmentType,
                                                PageParam(q.page), LimitParam(q.limit, 100)))
  }

  /** Listing page after page walks the appointments latest first, and in a
      good store no appointment is listed twice. */
  lemma ListInOrder(s: Store, q: ListQuery, appointmentType: Option<string>, p1: nat, p2: nat)
    requires 1 <= p1 < p2
    ensures forall x, y :: (x in List(s, q.(page := Some(p1)), appointmentType).data.value
                         && y in List(s, q.(page := Some(p2)), appointmentType).data.value) ==>
              AppointmentRepository.DateOf(x.val) >= AppointmentRepository.DateOf(y.val)
    ensures Good(s) ==> forall x :: x in List(s, q.(page := Some(p1)), appointmentType).data.value
                                ==> x !in List(s, q.(page := Some(p2)), appointmentType).data.value
  {
    AppointmentRepository.PagesInOrder(s.appointments, q.status, appointmentType, p1, p2, LimitParam(q.limit, 100));
  }

  /** `today`: today's appointments that are not cancelled, earliest first; the
      two midnights bounding today are passed in. */
  function Today(s: Store, today: int, tomorrow: int): (r: Reply<seq<Row<Appointment>>>)
    ensures r.Success? && r.status == 200 && r.data.Some?
    ensures forall x :: x in r.data.value <==> x in s.appointments && AppointmentRepository.IsToday(x.val, today, tomorrow)
    ensures forall i, j :: 0 <= i < j < |r.data.value| ==>
              && r.data.value[i].val.date.Some? && r.data.value[j].val.date.Some?
              && r.data.value[i].val.date.value <= r.data.value[j].val.date.value
    ensures multiset(r.data.value) == multiset(Keep(s.appointments, AppointmentRepository.TodayTest(today, tomorrow)))
  {
    Found(AppointmentRepository.FindTodayAppointments(s.appointments, today, tomorrow))
  }

  function Show(s: Store, id: nat): (r: Reply<Appointment>)
    ensures r.Success? <==> id in Ids(s.appointments)
    ensures r.Success? ==> r.data == Find(s.appointments, id)
    ensures r.Failure? ==> r == NotFound("Appointment")
  {
    ShowRow(s.appointments, id, "Appointment")
  }

  // --- create ---------------------------------------------------------------

  /** Whether `create` gets past the reference lookups and the validator. */
  predicate Accepted(s: Store, p: AppointmentPayload, now: int) {
    && !BadDate(p.appointmentDate)
    && !Resolve(s.clients, p.clientId).Unknown?
    && !Resolve(s.users, p.userId).Unknown?
    && Valid(Build(p, now, Resolve(s.clients, p.clientId), Resolve(s.users, p.userId)))
  }

  /** `create`. In order: 400 on a falsy body; a throw on an unparsable date;
      400 "Client not found" / "User not found" for an id naming no row; 400
      with the violations; then the flush, which throws when the client or the
      user was not given (their columns are NOT NULL and nothing validates them). */
  function Create(s: Store, body: Body<AppointmentPayload>, now: int): (o: Outcome<Row<Appointment>>)
    ensures o.Replied? && o.reply.status == 201 <==>
              body.Decoded? && Accepted(s, body.payload, now) && body.payload.clientId.IsSet() && body.payload.userId.IsSet()
    ensures o.Threw? <==>
              body.Decoded? && (BadDate(body.payload.appointmentDate)
                                || (Accepted(s, body.payload, now) && !(body.payload.clientId.IsSet() && body.payload.userId.IsSet())))
    ensures o.Threw? ==> o.ex.httpStatus.None?
    ensures o.Replied? && o.reply.status != 201 ==> o.store == s && o.reply.Failure? && o.reply.status == 400
    ensures o.Replied? && o.reply.status == 201 ==>
              && o.reply.Success? && o.reply.data.Some? && o.reply.data.value.id == s.next
              && o.reply.data.value.val == Build(body.payload, now, Resolve(s.clients, body.payload.clientId),
                                                 Resolve(s.users, body.payload.userId))
              && o.reply.data.value.val.date.Some?
              && OwnedBy(o.reply.data.value.val.client, s.clients)
              && o.reply.data.value.val.user.Some? && o.reply.data.value.val.user.value in Ids(s.users)
              && o.store == s.(appointments := Insert(s.appointments, s.next, o.reply.data.value.val), next := s.next + 1)
  {
    match body
    case Falsy => Replied(s, InvalidJson())
    case Decoded(p) =>
      if BadDate(p.appointmentDate) then Threw(UnparsableDate())
      else
        var client := Resolve(s.clients, p.clientId);
        var user := Resolve(s.users, p.userId);
        if client.Unknown? then Replied(s, UnknownReference("Client"))
        else if user.Unknown? then Replied(s, UnknownReference("User"))
        else Persist(s, Build(p, now, client, user))
  }

  /** The validator, then `persist` and `flush`. */
  function Persist(s: Store, a: Appointment): (o: Outcome<Row<Appointment>>)
    ensures o.Replied? && o.reply.status == 201 <==> Valid(a) && Persistable(a)
    ensures o.Threw? <==> Valid(a) && !Persistable(a)
    ensures o.Threw? ==> o.ex.httpStatus.None?
    ensures o.Replied? && o.reply.status != 201 ==> o.store == s && o.reply.Failure? && o.reply.status == 400
    ensures o.Replied? && o.reply.status == 201 ==>
              && o.reply == Created("Appointment created successfully", Row(s.next, a))
              && o.store == s.(appointments := Insert(s.appointments, s.next, a), next := s.next + 1)
  {
    var vs := Violations(a);
    if |vs| > 0 then Replied(s, ValidationError(vs))
    else if a.client.None? then Threw(NotNullViolation("appointment.client_id"))
    else if a.user.None? then Threw(NotNullViolation("appointment.user_id"))
    else
      Replied(s.(appointments := Insert(s.appointments, s.next, a), next := s.next + 1),
              Created("Appointment created successfully", Row(s.next, a)))
  }

  /** The references are checked before the validator runs: an unknown client
      is reported even when the rest of the body is invalid. */
  lemma UnknownClientFirst(s: Store, p: AppointmentPayload, now: int)
    requires !BadDate(p.appointmentDate) && Resolve(s.clients, p.clientId).Unknown?
    ensures Create(s, Decoded(p), now) == Replied(s, UnknownReference("Client"))
  {
  }

  /** A valid appointment without a client passes the validator and fails at
      the flush, naming the column. */
  lemma MissingClientThrows(s: Store, p: AppointmentPayload, now: int)
    requires Accepted(s, p, now) && !p.clientId.IsSet()
    ensures Create(s, Decoded(p), now) == Threw(NotNullViolation("appointment.client_id"))
  {
  }

  lemma CreateKeepsGood(s: Store, body: Body<AppointmentPayload>, now: int)
    requires Good(s)
    ensures var o := Create(s, body, now); o.Replied? ==> Good(o.store)
  {
    var o := Create(s, body, now);
    if o.Replied? && o.reply.status == 201 {
      var a := o.reply.data.value.val;
      assert o.store == s.(appointments := Insert(s.appointments, s.next, a), next := s.next + 1);
      InsertAppointmentGood(s, a);
    }
  }

  /** A created appointment is what `show` then returns. */
  lemma CreateThenShow(s: Store, body: Body<AppointmentPayload>, now: int)
    requires Good(s)
    requires Create(s, body, now).Replied? && Create(s, body, now).reply.status == 201
    ensures var o := Create(s, body, now);
            Show(o.store, s.next) == Found(o.reply.data.value.val)
  {
    assert s.next !in Ids(s.appointments);
  }

  // --- update ---------------------------------------------------------------

  /** `update`: 404 for an unknown id whatever the body; 400 on a falsy body; a
      throw on an unparsable date; 400 with the violations; otherwise the
      patched row replaces the old one. */
  function Update(s: Store, id: nat, body: Body<AppointmentPayload>): (o: Outcome<Row<Appointment>>)
    ensures id !in Ids(s.appointments) ==> o == Replied(s, NotFound("Appointment"))
    ensures o.Threw? <==> id in Ids(s.appointments) && body.Decoded? && BadDate(body.payload.appointmentDate)
    ensures o.Replied? && o.reply.status == 200 <==>
              && id in Ids(s.appointments) && body.Decoded? && !BadDate(body.payload.appointmentDate)
              && Valid(Patch(Find(s.appointments, id).value, body.payload))
    ensures o.Replied? && o.reply.status != 200 ==> o.store == s && o.reply.Failure?
    ensures o.Replied? && o.reply.status == 200 ==>
              && Find(o.store.appointments, id) == Some(Patch(Find(s.appointments, id).value, body.payload))
              && SameExcept(o.store.appointments, s.appointments, id)
              && o.store.(appointments := s.appointments) == s
  {
    match Find(s.appointments, id)
    case None => Replied(s, NotFound("Appointment"))
    case Some(current) =>
      match body
      case Falsy => Replied(s, InvalidJson())
      case Decoded(p) =>
        if BadDate(p.appointmentDate) then Threw(UnparsableDate())
        else
          var a := Patch(current, p);
          var vs := Violations(a);
          if |vs| > 0 then Replied(s, ValidationError(vs))
          else
            UpdateFind(s.appointments, id, a, id);
            UpdateSameExcept(s.appointments, id, a);
            Replied(s.(appointments := Table.Update(s.appointments, id, a)), Done("Appointment updated successfully"))
  }

  lemma PatchIdempotent(a: Appointment, p: AppointmentPayload)
    ensures Patch(Patch(a, p), p) == Patch(a, p)
  {
  }

  /** An update never touches the client, the user or the creation time. */
  lemma PatchKeepsLinks(a: Appointment, p: AppointmentPayload)
    ensures Patch(a, p).client == a.client && Patch(a, p).user == a.user
    ensures Patch(a, p).createdAt == a.createdAt && Patch(a, p).updatedAt == a.updatedAt
    ensures a.date.Some? ==> Patch(a, p).date.Some?
  {
  }

  lemma UpdateKeepsGood(s: Store, id: nat, body: Body<AppointmentPayload>)
    requires Good(s)
    ensures var o := Update(s, id, body); o.Replied? ==> Good(o.store)
  {
    var o := Update(s, id, body);
    if o.Replied? && o.reply.status == 200 {
      var current := Find(s.appointments, id).value;
      var a := Patch(current, body.payload);
      PatchKeepsLinks(current, body.payload);
      UpdateKeyed(s.appointments, s.next, id, a);
      assert Row(id, current) in s.appointments;
      var linked := (b: Appointment) => b.date.Some? && OwnedBy(b.client, s.clients);
      UpdateKeepsAll(s.appointments, id, a, linked);
    }
  }

  // --- delete ---------------------------------------------------------------

  function Delete(s: Store, id: nat): (o: Outcome<Row<Appointment>>)
    ensures o.Replied?
    ensures id !in Ids(s.appointments) ==> o == Replied(s, NotFound("Appointment"))
    ensures id in Ids(s.appointments) ==>
              && o.reply == Done("Appointment deleted successfully")
              && Ids(o.store.appointments) == Ids(s.appointments) - {id}
              && (forall x :: x in o.store.appointments <==> x in s.appointments && x.id != id)
              && o.store.(appointments := s.appointments) == s
  {
    if Find(s.appointments, id).None? then Replied(s, NotFound("Appointment"))
    else Replied(s.(appointments := Table.Delete(s.appointments, id)), Done("Appointment deleted successfully"))
  }

  lemma DeleteKeepsGood(s: Store, id: nat)
    requires Good(s)
    ensures Good(Delete(s, id).store)
  {
    DeleteBelow(s.appointments, id, s.next);
  }

  /** Creating an appointment and deleting it again leaves the store as it
      was, but for the id counter. */
  lemma CreateThenDelete(s: Store, body: Body<AppointmentPayload>, now: int)
    requires Good(s)
    requires Create(s, body, now).Replied? && Create(s, body, now).reply.status == 201
    ensures Delete(Create(s, body, now).store, s.next) == Replied(s.(next := s.next + 1), Done("Appointment deleted successfully"))
  {
    var o := Create(s, body, now);
    var a := o.reply.data.value.val;
    assert o.store == s.(appointments := Insert(s.appointments, s.next, a), next := s.next + 1);
    DeleteNewest(s, a);
  }

  /** Deleting the row just inserted under the counter undoes the insertion. */
  lemma DeleteNewest(s: Store, a: Appointment)
    requires Keyed(s.appointments, s.next)
    ensures Delete(s.(appointments := Insert(s.appointments, s.next, a), next := s.next + 1), s.next)
         == Replied(s.(next := s.next + 1), Done("Appointment deleted successfully"))
  {
    assert s.next !in Ids(s.appointments);
    DeleteInserted(s.appointments, s.next, a);
  }
}

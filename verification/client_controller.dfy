/** `ClientController`: the actions under `/api/clients`. Deleting a client
    deletes its appointments, quotes and solar studies with it. */
module ClientController {

  import opened Wrappers
  import opened Table
  import opened Validation
  import opened Http
  import opened Store
  import opened ClientEntity
  import ClientRepository
  import StatusQuery

  /** The keys `create` and `update` read from the body. */
  datatype ClientPayload = ClientPayload(
    firstName: Field<string>,
    lastName: Field<string>,
    email: Field<string>,
    phone: Field<string>,
    address: Field<string>,
    postalCode: Field<string>,
    city: Field<string>,
    status: Field<string>,
    notes: Field<string>)

  /** What a body without any of the keys (or a truthy JSON scalar) amounts to. */
  const NoKeys: ClientPayload :=
    ClientPayload(Absent, Absent, Absent, Absent, Absent, Absent, Absent, Absent, Absent)

  /** `create`: `new Client()` and the setters with their `??` defaults. */
  function Build(p: ClientPayload, now: int): Client {
    Client(p.firstName.Or(""), p.lastName.Or(""), p.email.Or(""), p.phone.Or(""),
           p.address.OrNull(), p.postalCode.OrNull(), p.city.OrNull(),
           p.status.Or(DefaultStatus), p.notes.OrNull(), now, now, None)
  }

  /** `update`: each property set only when its key `isset`. */
  function Patch(c: Client, p: ClientPayload): Client {
    c.(firstName := p.firstName.Over(c.firstName),
       lastName := p.lastName.Over(c.lastName),
       email := p.email.Over(c.email),
       phone := p.phone.Over(c.phone),
       address := p.address.OverNull(c.address),
       postalCode := p.postalCode.OverNull(c.postalCode),
       city := p.city.OverNull(c.city),
       status := p.status.Over(c.status),
       notes := p.notes.OverNull(c.notes))
  }

  // --- list -----------------------------------------------------------------

  /** `list`: a page of the clients with the requested status (default "all"),
      newest first, and a total counted under the same filter. */
  function List(s: Store, q: ListQuery): (r: Reply<Listing<Row<Client>>>)
    ensures r.Success? && r.status == 200 && r.data.Some?
    ensures var l := r.data.value;
            && 1 <= l.pagination.page && 1 <= l.pagination.limit <= 100
            && |l.items| <= l.pagination.limit
            && l.pagination.total == |StatusQuery.Selected(s.clients, Some(q.status.GetOr("all")), ClientRepository.StatusOf)|
            && (forall x :: x in l.items ==> x in s.clients && StatusQuery.Matches(Some(q.status.GetOr("all")), x.val.status))
            && l.pagination.page == PageParam(q.page) && l.pagination.limit == LimitParam(q.limit, 100)
            && (Offset(l.pagination.page, l.pagination.limit) >= l.pagination.total ==> l.items == [])
            && (Offset(l.pagination.page, l.pagination.limit) < l.pagination.total ==>
                  |l.items| == Min(l.pagination.limit, l.pagination.total - Offset(l.pagination.page, l.pagination.limit)))
  {
    var page := PageParam(q.page);
    var limit := LimitParam(q.limit, 100);
    var status := q.status.GetOr("all");
    var items := ClientRepository.FindByStatusWithPagination(s.clients, status, page, limit);
    var total := ClientRepository.CountByStatus(s.clients, if status != "all" then Some(status) else None);
    Success(200, None, Some(Listing(items, Paginate(page, limit, total))))
  }

  /** The list loses no client: each client the filter selects is listed on a
      page no later than the `pages` count of the reply. */
  lemma ListPagesCover(s: Store, q: ListQuery, x: Row<Client>) returns (p: nat)
    requires x in s.clients && StatusQuery.Matches(Some(q.status.GetOr("all")), x.val.status)
    ensures 1 <= p <= List(s, q).data.value.pagination.pages
    ensures x in List(s, q.(page := Some(p))).data.value.items
  {
    var limit := LimitParam(q.limit, 100);
    p := ClientRepository.PagesCoverSelection(s.clients, q.status.GetOr("all"), limit, x);
  }

  /** Listing page after page walks the clients newest first, and in a good
      store no client is listed twice. */
  lemma ListInOrder(s: Store, q: ListQuery, p1: nat, p2: nat)
    requires 1 <= p1 < p2
    ensures forall x, y :: (x in List(s, q.(page := Some(p1))).data.value.items
                         && y in List(s, q.(page := Some(p2))).data.value.items) ==> x.val.createdAt >= y.val.createdAt
    ensures Good(s) ==> forall x :: x in List(s, q.(page := Some(p1))).data.value.items
                                ==> x !in List(s, q.(page := Some(p2))).data.value.items
  {
    var status, limit := q.status.GetOr("all"), LimitParam(q.limit, 100);
    assert List(s, q.(page := Some(p1))).data.value.items == ClientRepository.FindByStatusWithPagination(s.clients, status, p1, limit);
    assert List(s, q.(page := Some(p2))).data.value.items == ClientRepository.FindByStatusWithPagination(s.clients, status, p2, limit);
    ClientRepository.PagesInOrder(s.clients, status, p1, p2, limit);
  }

  // --- show -----------------------------------------------------------------

  function Show(s: Store, id: nat): (r: Reply<Client>)
    ensures r.Success? <==> id in Ids(s.clients)
    ensures r.Success? ==> r.data == Find(s.clients, id)
    ensures r.Failure? ==> r == NotFound("Client")
  {
    ShowRow(s.clients, id, "Client")
  }

  // --- create ---------------------------------------------------------------

  /** `create`: 400 on a falsy body, 400 with the violations when the built
      client is invalid, otherwise a new row under a fresh id. */
  function Create(s: Store, body: Body<ClientPayload>, now: int, isEmail: string -> bool): (o: Outcome<Row<Client>>)
    ensures o.Replied?
    ensures o.reply.status == 201 <==> body.Decoded? && Valid(Build(body.payload, now), isEmail)
    ensures o.reply.status != 201 ==> o.store == s && o.reply.Failure? && o.reply.status == 400
    ensures body.Falsy? ==> o.reply == InvalidJson()
    ensures body.Decoded? && o.reply.status != 201 ==>
              o.reply.details.Keys == Fields(Violations(Build(body.payload, now), isEmail)) != {}
    ensures o.reply.status == 201 ==>
              && o.reply.Success? && o.reply.data == Some(Row(s.next, Build(body.payload, now)))
              && Find(o.store.clients, s.next) == (if s.next in Ids(s.clients) then Find(s.clients, s.next)
                                                   else Some(Build(body.payload, now)))
              && Ids(o.store.clients) == Ids(s.clients) + {s.next}
              && (forall k :: k != s.next ==> Find(o.store.clients, k) == Find(s.clients, k))
              && o.store.(clients := s.clients, next := s.next) == s
  {
    match body
    case Falsy => Replied(s, InvalidJson())
    case Decoded(p) =>
      var c := Build(p, now);
      var vs := Violations(c, isEmail);
      if |vs| > 0 then
        DetailsKeys(vs);
        assert vs[0].field in Fields(vs);
        Replied(s, ValidationError(vs))
      else
        Replied(s.(clients := Insert(s.clients, s.next, c), next := s.next + 1),
                Created("Client created successfully", Row(s.next, c)))
  }

  /** A body with none of the keys is refused, naming the four required properties. */
  lemma CreateWithoutKeys(s: Store, now: int, isEmail: string -> bool)
    ensures var o := Create(s, Decoded(NoKeys), now, isEmail);
            && o.Replied? && o.store == s && o.reply.status == 400
            && {"firstName", "lastName", "email", "phone"} <= o.reply.details.Keys
  {
    var vs := Violations(Build(NoKeys, now), isEmail);
    assert Violation("firstName", Blank) in vs;
    assert Violation("lastName", Blank) in vs by {
      assert NotBlank("lastName", "") == [Violation("lastName", Blank)];
    }
    assert Violation("email", Blank) in vs;
    assert Violation("phone", Blank) in vs;
    DetailsKeys(vs);
  }

  /** A created client is what `show` then returns. */
  lemma CreateThenShow(s: Store, body: Body<ClientPayload>, now: int, isEmail: string -> bool)
    requires Good(s)
    requires Create(s, body, now, isEmail).reply.status == 201
    ensures var o := Create(s, body, now, isEmail);
            Show(o.store, o.reply.data.value.id) == Found(o.reply.data.value.val)
  {
    assert s.next !in Ids(s.clients);
  }

  /** Creating a client and deleting it again leaves the store as it was, but
      for the id counter, which never goes back. */
  lemma CreateThenDelete(s: Store, body: Body<ClientPayload>, now: int, isEmail: string -> bool)
    requires Good(s)
    requires Create(s, body, now, isEmail).reply.status == 201
    ensures var o := Create(s, body, now, isEmail);
            Delete(o.store, o.reply.data.value.id) == Replied(s.(next := s.next + 1), Done("Client deleted successfully"))
  {
    var id := s.next;
    var c := Build(body.payload, now);
    var t := s.(clients := Insert(s.clients, id, c), next := id + 1);
    assert Create(s, body, now, isEmail) == Replied(t, Created("Client created successfully", Row(id, c)));
    assert id !in Ids(s.clients);
    DeleteInserted(s.clients, id, c);
    NothingOwnedByFresh(s);
    assert Find(t.clients, id).Some?;
    assert Delete(t, id).store == s.(next := id + 1);
  }

  /** No appointment, quote or study belongs to the id the counter hands out next. */
  lemma NothingOwnedByFresh(s: Store)
    requires Good(s)
    ensures Keep(s.appointments, AppointmentSurvives(s.next)) == s.appointments
    ensures Keep(s.quotes, QuoteSurvives(s.next)) == s.quotes
    ensures Keep(s.studies, StudySurvives(s.next)) == s.studies
  {
    assert s.next !in Ids(s.clients);
    forall i | 0 <= i < |s.appointments| ensures AppointmentSurvives(s.next)(s.appointments[i].val) {
      assert s.appointments[i] in s.appointments;
    }
    forall i | 0 <= i < |s.quotes| ensures QuoteSurvives(s.next)(s.quotes[i].val) {
      assert s.quotes[i] in s.quotes;
    }
    forall i | 0 <= i < |s.studies| ensures StudySurvives(s.next)(s.studies[i].val) {
      assert s.studies[i] in s.studies;
    }
  }

  lemma CreateKeepsGood(s: Store, body: Body<ClientPayload>, now: int, isEmail: string -> bool)
    requires Good(s)
    ensures Good(Create(s, body, now, isEmail).store)
  {
    if Create(s, body, now, isEmail).reply.status == 201 {
      var c := Build(body.payload, now);
      InsertKeyed(s.clients, s.next, c);
      KeyedLater(s.appointments, s.next, s.next + 1);
      KeyedLater(s.quotes, s.next, s.next + 1);
      KeyedLater(s.studies, s.next, s.next + 1);
      KeyedLater(s.users, s.next, s.next + 1);
      KeyedLater(s.activities, s.next, s.next + 1);
    }
  }

  // --- update ---------------------------------------------------------------

  /** `update`: 404 for an unknown id whatever the body, then 400 on a falsy
      body or an invalid result; otherwise the patched row replaces the old one. */
  function Update(s: Store, id: nat, body: Body<ClientPayload>, isEmail: string -> bool): (o: Outcome<Row<Client>>)
    ensures o.Replied?
    ensures id !in Ids(s.clients) ==> o == Replied(s, NotFound("Client"))
    ensures o.reply.status == 200 <==>
              id in Ids(s.clients) && body.Decoded? && Valid(Patch(Find(s.clients, id).value, body.payload), isEmail)
    ensures o.reply.status != 200 ==> o.store == s && o.reply.Failure?
    ensures o.reply.status == 200 ==>
              && Find(o.store.clients, id) == Some(Patch(Find(s.clients, id).value, body.payload))
              && SameExcept(o.store.clients, s.clients, id)
              && o.store.(clients := s.clients) == s
  {
    match Find(s.clients, id)
    case None => Replied(s, NotFound("Client"))
    case Some(current) =>
      match body
      case Falsy => Replied(s, InvalidJson())
      case Decoded(p) =>
        var c := Patch(current, p);
        var vs := Violations(c, isEmail);
        if |vs| > 0 then Replied(s, ValidationError(vs))
        else
          UpdateFind(s.clients, id, c, id);
          UpdateSameExcept(s.clients, id, c);
          Replied(s.(clients := Table.Update(s.clients, id, c)), Done("Client updated successfully"))
  }

  /** Applying a patch twice is applying it once. */
  lemma PatchIdempotent(c: Client, p: ClientPayload)
    ensures Patch(Patch(c, p), p) == Patch(c, p)
  {
  }

  /** A partial update can set a nullable property but never clear it: null
      in the body leaves the old value. */
  lemma PatchNeverClears(c: Client, p: ClientPayload)
    ensures c.address.Some? ==> Patch(c, p).address.Some?
    ensures c.postalCode.Some? ==> Patch(c, p).postalCode.Some?
    ensures c.city.Some? ==> Patch(c, p).city.Some?
    ensures c.notes.Some? ==> Patch(c, p).notes.Some?
    ensures p.address == Null ==> Patch(c, p).address == c.address
  {
  }

  /** Sending the same successful update twice changes nothing the second time. */
  lemma UpdateIdempotent(s: Store, id: nat, body: Body<ClientPayload>, isEmail: string -> bool)
    requires Update(s, id, body, isEmail).reply.status == 200
    ensures var o := Update(s, id, body, isEmail);
            Update(o.store, id, body, isEmail) == o
  {
    var o := Update(s, id, body, isEmail);
    var c := Patch(Find(s.clients, id).value, body.payload);
    PatchIdempotent(Find(s.clients, id).value, body.payload);
    UpdateTwice(s.clients, id, c);
  }

  lemma UpdateKeepsGood(s: Store, id: nat, body: Body<ClientPayload>, isEmail: string -> bool)
    requires Good(s)
    ensures Good(Update(s, id, body, isEmail).store)
  {
    var o := Update(s, id, body, isEmail);
    if o.reply.status == 200 {
      var c := Patch(Find(s.clients, id).value, body.payload);
      UpdateFind(s.clients, id, c, id);
      UpdateKeyed(s.clients, s.next, id, c);
    }
  }

  // --- delete ---------------------------------------------------------------

  /** The rows of the dependent tables that survive the deletion of client `id`. */
  function AppointmentSurvives(id: nat): AppointmentEntity.Appointment -> bool {
    (a: AppointmentEntity.Appointment) => a.client != Some(id)
  }

  function QuoteSurvives(id: nat): QuoteEntity.Quote -> bool {
    (q: QuoteEntity.Quote) => q.client != Some(id)
  }

  function StudySurvives(id: nat): SolarStudyEntity.SolarStudy -> bool {
    (t: SolarStudyEntity.SolarStudy) => t.client != Some(id)
  }

  /** `delete`: 404 for an unknown id; otherwise the client goes, and with it,
      through `cascade: ['remove']`, every appointment, quote and study it owns.
      Activities that name the client keep their (now dangling) reference. */
  function Delete(s: Store, id: nat): (o: Outcome<Row<Client>>)
    ensures o.Replied?
    ensures id !in Ids(s.clients) ==> o == Replied(s, NotFound("Client"))
    ensures id in Ids(s.clients) ==>
              && o.reply == Done("Client deleted successfully")
              && Ids(o.store.clients) == Ids(s.clients) - {id}
              && (forall x :: x in o.store.clients <==> x in s.clients && x.id != id)
              && (forall x :: x in o.store.appointments <==> x in s.appointments && x.val.client != Some(id))
              && (forall x :: x in o.store.quotes <==> x in s.quotes && x.val.client != Some(id))
              && (forall x :: x in o.store.studies <==> x in s.studies && x.val.client != Some(id))
              && o.store.users == s.users && o.store.activities == s.activities && o.store.next == s.next
  {
    if Find(s.clients, id).None? then Replied(s, NotFound("Client"))
    else
      Replied(s.(clients := Table.Delete(s.clients, id),
                 appointments := Keep(s.appointments, AppointmentSurvives(id)),
                 quotes := Keep(s.quotes, QuoteSurvives(id)),
                 studies := Keep(s.studies, StudySurvives(id))),
              Done("Client deleted successfully"))
  }

  /** The cascade keeps every remaining appointment, quote and study owned by
      a remaining client. */
  lemma DeleteKeepsGood(s: Store, id: nat)
    requires Good(s)
    ensures Good(Delete(s, id).store)
  {
    var o := Delete(s, id);
    if id in Ids(s.clients) {
      KeepBelow(s.appointments, AppointmentSurvives(id), s.next);
      KeepBelow(s.quotes, QuoteSurvives(id), s.next);
      KeepBelow(s.studies, StudySurvives(id), s.next);
      DeleteBelow(s.clients, id, s.next);
    }
  }
}

/** The database the actions read and write, the result of an action, and the
    integrity the actions keep. */
module Store {

  import opened Wrappers
  import opened Table
  import opened Http
  import opened ExceptionSubscriber
  import ClientEntity
  import AppointmentEntity
  import QuoteEntity
  import SolarStudyEntity
  import ActivityEntity
  import UserEntity

  /** One table per entity. Ids come from one counter; the database keeps one
      per table, which gives the same freshness. */
  datatype Store = Store(
    clients: seq<Row<ClientEntity.Client>>,
    appointments: seq<Row<AppointmentEntity.Appointment>>,
    quotes: seq<Row<QuoteEntity.Quote>>,
    studies: seq<Row<SolarStudyEntity.SolarStudy>>,
    users: seq<Row<UserEntity.User>>,
    activities: seq<Row<ActivityEntity.Activity>>,
    next: nat)

  /** An action either answers, with the store as it leaves it, or throws; a
      failed flush rolls back, so a throw leaves the store as it was. */
  datatype Outcome<+T> = Replied(store: Store, reply: Reply<T>) | Threw(ex: Exception)

  /** The exception a flush raises when a NOT NULL column is left null. Where it
      was thrown from is not modelled. */
  function NotNullViolation(column: string): (ex: Exception)
    ensures ex.httpStatus.None?
  {
    Exception(NotNullPrefix + column, None, "", 0, "")
  }

  const NotNullPrefix: string :=
    "An exception occurred while executing a query: SQLSTATE[23000]: Integrity constraint violation: "
    + "19 NOT NULL constraint failed: "

  /** The exception `new \DateTime($value)` throws for a string it cannot parse. */
  function UnparsableDate(): (ex: Exception)
    ensures ex.httpStatus.None?
  {
    Exception("DateTime::__construct(): Failed to parse time string", None, "", 0, "")
  }

  predicate Keyed<T>(t: seq<Row<T>>, next: nat) {
    UniqueIds(t) && IdsBelow(t, next)
  }

  /** A client reference that names an existing client. */
  predicate OwnedBy(client: Option<nat>, clients: seq<Row<ClientEntity.Client>>) {
    client.Some? && client.value in Ids(clients)
  }

  /** A reference to another row in a request body, once looked up: not given,
      naming a row, or naming none. */
  datatype Ref = Unset | Known(id: nat) | Unknown {
    function AsLink(): Option<nat> {
      if Known? then Some(id) else None
    }
  }

  /** `if (isset($data['xId'])) { $x = $repository->find($data['xId']); ... }`. */
  function Resolve<T>(t: seq<Row<T>>, f: Field<nat>): (r: Ref)
    ensures r.Unset? <==> !f.IsSet()
    ensures r.Known? <==> f.IsSet() && f.value in Ids(t)
    ensures r.Known? ==> r.id == f.value
  {
    if !f.IsSet() then Unset
    else if Find(t, f.value).Some? then Known(f.value)
    else Unknown
  }

  /** Primary keys are unique and below the counter, every appointment has a
      date, and every appointment, quote and study belongs to an existing client. */
  predicate Good(s: Store) {
    && Keyed(s.clients, s.next)
    && Keyed(s.appointments, s.next)
    && Keyed(s.quotes, s.next)
    && Keyed(s.studies, s.next)
    && Keyed(s.users, s.next)
    && Keyed(s.activities, s.next)
    && (forall x :: x in s.appointments ==> x.val.date.Some?)
    && (forall x :: x in s.appointments ==> OwnedBy(x.val.client, s.clients))
    && (forall x :: x in s.quotes ==> OwnedBy(x.val.client, s.clients))
    && (forall x :: x in s.studies ==> OwnedBy(x.val.client, s.clients))
  }

  /** The `show` actions: the row, or 404 `"<Entity> not found"`. */
  function ShowRow<T>(t: seq<Row<T>>, id: nat, entity: string): (r: Reply<T>)
    ensures r.Success? <==> id in Ids(t)
    ensures r.Success? ==> r.status == 200 && r.data == Find(t, id)
    ensures r.Failure? ==> r == NotFound(entity)
  {
    match Find(t, id)
    case Some(v) => Found(v)
    case None => NotFound(entity)
  }

  /** Inserting a row under the counter's value and advancing it keeps the table keyed. */
  lemma InsertKeyed<T>(t: seq<Row<T>>, next: nat, v: T)
    requires Keyed(t, next)
    ensures Keyed(Insert(t, next, v), next + 1)
  {
    assert next !in Ids(t);
  }

  /** Replacing a row's value keeps the table keyed. */
  lemma UpdateKeyed<T>(t: seq<Row<T>>, next: nat, id: nat, v: T)
    requires Keyed(t, next)
    ensures Keyed(Update(t, id, v), next)
  {
    UpdateFind(t, id, v, id);
    UpdateBelow(t, id, v, next);
  }

  /** Advancing the counter keeps a good store good. */
  lemma GoodLater(s: Store, later: nat)
    requires Good(s) && s.next <= later
    ensures Good(s.(next := later))
  {
  }

  /** Inserting an appointment with a date and an existing client keeps a good store good. */
  lemma InsertAppointmentGood(s: Store, a: AppointmentEntity.Appointment)
    requires Good(s) && a.date.Some? && OwnedBy(a.client, s.clients)
    ensures Good(s.(appointments := Insert(s.appointments, s.next, a), next := s.next + 1))
  {
    GoodLater(s, s.next + 1);
    InsertKeyed(s.appointments, s.next, a);
    var t := Insert(s.appointments, s.next, a);
    assert forall x :: x in t ==> x in s.appointments || x == Row(s.next, a);
  }

  /** Inserting a quote of an existing client keeps a good store good. */
  lemma InsertQuoteGood(s: Store, q: QuoteEntity.Quote)
    requires Good(s) && OwnedBy(q.client, s.clients)
    ensures Good(s.(quotes := Insert(s.quotes, s.next, q), next := s.next + 1))
  {
    GoodLater(s, s.next + 1);
    InsertKeyed(s.quotes, s.next, q);
    var t := Insert(s.quotes, s.next, q);
    assert forall x :: x in t ==> x in s.quotes || x == Row(s.next, q);
  }

  /** Inserting a study of an existing client keeps a good store good. */
  lemma InsertStudyGood(s: Store, st: SolarStudyEntity.SolarStudy)
    requires Good(s) && OwnedBy(st.client, s.clients)
    ensures Good(s.(studies := Insert(s.studies, s.next, st), next := s.next + 1))
  {
    GoodLater(s, s.next + 1);
    InsertKeyed(s.studies, s.next, st);
    var t := Insert(s.studies, s.next, st);
    assert forall x :: x in t ==> x in s.studies || x == Row(s.next, st);
  }

  lemma KeyedLater<T>(t: seq<Row<T>>, next: nat, later: nat)
    requires Keyed(t, next) && next <= later
    ensures Keyed(t, later)
  {
  }
}

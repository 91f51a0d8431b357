/** `ActivityController`: the dashboard feed under `/api/activities`. */
module ActivityController {

  import opened Wrappers
  import opened Table
  import opened Validation
  import opened Http
  import opened Store
  import opened ActivityEntity

  datatype ActivityPayload = ActivityPayload(
    activityType: Field<string>,
    title: Field<string>,
    description: Field<string>,
    status: Field<string>,
    userId: Field<nat>,
    clientId: Field<nat>)

  /** `create`: `new Activity()`, the setters with their `??` defaults, and the
      user and the client when their ids name rows; an unknown id is ignored. */
  function Build(p: ActivityPayload, now: int, user: Ref, client: Ref): Activity {
    New(now).(activityType := Some(p.activityType.Or("")), title := Some(p.title.Or("")),
              description := p.description.OrNull(), status := p.status.Or(DefaultStatus),
              user := user.AsLink(), client := client.AsLink())
  }

  /** One entry of the feed: the activity and its "time ago" label. */
  datatype FeedItem = FeedItem(row: Row<Activity>, time: string)

  /** `list`: the limit is `min(50, max(1, limit ?? 10))`; the rows are those
      `findRecent` returns for it, each labelled with the time elapsed since its
      creation. `findRecent` is a parameter. */
  function List(q: Option<int>, now: int, findRecent: nat -> seq<Row<Activity>>): (r: Reply<seq<FeedItem>>)
    ensures r.Success? && r.status == 200 && r.data.Some?
    ensures |r.data.value| == |findRecent(LimitParam(q, 50))|
    ensures forall i :: 0 <= i < |r.data.value| ==>
              && r.data.value[i].row == findRecent(LimitParam(q, 50))[i]
              && ReadLabel(r.data.value[i].time).Some?
              && Describes(ReadLabel(r.data.value[i].time).value, now - r.data.value[i].row.val.createdAt)
  {
    var rows := findRecent(LimitParam(q, 50));
    Found(seq(|rows|, i requires 0 <= i < |rows| => FeedItem(rows[i], RelativeTime(now - rows[i].val.createdAt))))
  }

  function Show(s: Store, id: nat): (r: Reply<Activity>)
    ensures r.Success? <==> id in Ids(s.activities)
    ensures r.Success? ==> r.data == Find(s.activities, id)
    ensures r.Failure? ==> r == NotFound("Activity")
  {
    ShowRow(s.activities, id, "Activity")
  }

  /** `create`: 400 on a falsy body; 400 with the violations; otherwise the
      activity is stored. It never throws: both links are nullable. */
  function Create(s: Store, body: Body<ActivityPayload>, now: int): (o: Outcome<Row<Activity>>)
    ensures o.Replied?
    ensures o.reply.status == 201 <==>
              body.Decoded? && Valid(Build(body.payload, now, Resolve(s.users, body.payload.userId),
                                           Resolve(s.clients, body.payload.clientId)))
    ensures o.reply.status != 201 ==> o.store == s && o.reply.Failure? && o.reply.status == 400
    ensures o.reply.status == 201 ==>
              && o.reply.Success? && o.reply.data.Some? && o.reply.data.value.id == s.next
              && var a := o.reply.data.value.val;
              && a == Build(body.payload, now, Resolve(s.users, body.payload.userId), Resolve(s.clients, body.payload.clientId))
              && a.createdAt == now
              && (a.user.Some? ==> a.user.value in Ids(s.users))
              && (a.client.Some? ==> a.client.value in Ids(s.clients))
              && o.store == s.(activities := Insert(s.activities, s.next, a), next := s.next + 1)
  {
    match body
    case Falsy => Replied(s, InvalidJson())
    case Decoded(p) =>
      var a := Build(p, now, Resolve(s.users, p.userId), Resolve(s.clients, p.clientId));
      var vs := Violations(a);
      if |vs| > 0 then Replied(s, ValidationError(vs))
      else
        Replied(s.(activities := Insert(s.activities, s.next, a), next := s.next + 1),
                Created("Activity created successfully", Row(s.next, a)))
  }

  /** An id naming no row has the effect of no id at all. */
  lemma UnknownIdsIgnored(s: Store, p: ActivityPayload, now: int)
    requires p.userId.IsSet() && p.userId.value !in Ids(s.users)
    requires p.clientId.IsSet() && p.clientId.value !in Ids(s.clients)
    ensures Create(s, Decoded(p), now) == Create(s, Decoded(p.(userId := Absent, clientId := Absent)), now)
  {
  }

  /** Without a type or a title the default "" is refused, with a violation
      named after the missing key. */
  lemma TypeAndTitleRequired(s: Store, p: ActivityPayload, now: int)
    requires !p.activityType.IsSet() || !p.title.IsSet()
    ensures var o := Create(s, Decoded(p), now);
            o.store == s && o.reply.status == 400
            && (!p.title.IsSet() ==> "title" in o.reply.details)
            && (!p.activityType.IsSet() ==> "type" in o.reply.details)
  {
    var a := Build(p, now, Resolve(s.users, p.userId), Resolve(s.clients, p.clientId));
    var vs := Violations(a);
    DetailsKeys(vs);
    if !p.title.IsSet() {
      assert Violation("title", Blank) in vs;
    }
    if !p.activityType.IsSet() {
      assert Violation("type", Blank) in vs;
    }
  }

  lemma CreateKeepsGood(s: Store, body: Body<ActivityPayload>, now: int)
    requires Good(s)
    ensures Good(Create(s, body, now).store)
  {
    var o := Create(s, body, now);
    if o.reply.status == 201 {
      GoodLater(s, s.next + 1);
      InsertKeyed(s.activities, s.next, o.reply.data.value.val);
    }
  }

  function Delete(s: Store, id: nat): (o: Outcome<Row<Activity>>)
    ensures o.Replied?
    ensures id !in Ids(s.activities) ==> o == Replied(s, NotFound("Activity"))
    ensures id in Ids(s.activities) ==>
              && o.reply == Done("Activity deleted successfully")
              && Ids(o.store.activities) == Ids(s.activities) - {id}
              && (forall x :: x in o.store.activities <==> x in s.activities && x.id != id)
              && o.store.(activities := s.activities) == s
  {
    if Find(s.activities, id).None? then Replied(s, NotFound("Activity"))
    else Replied(s.(activities := Table.Delete(s.activities, id)), Done("Activity deleted successfully"))
  }

  lemma DeleteKeepsGood(s: Store, id: nat)
    requires Good(s)
    ensures Good(Delete(s, id).store)
  {
    DeleteBelow(s.activities, id, s.next);
  }

  /** Creating an activity and deleting it again leaves the store as it was,
      but for the id counter. */
  lemma CreateThenDelete(s: Store, body: Body<ActivityPayload>, now: int)
    requires Good(s) && Create(s, body, now).reply.status == 201
    ensures Delete(Create(s, body, now).store, s.next) == Replied(s.(next := s.next + 1), Done("Activity deleted successfully"))
  {
    var o := Create(s, body, now);
    assert s.next !in Ids(s.activities);
    DeleteInserted(s.activities, s.next, o.reply.data.value.val);
  }
}

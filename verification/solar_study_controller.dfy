/** `SolarStudyController`: the actions under `/api/solar-studies`. */
module SolarStudyController {

  import opened Wrappers
  import opened Table
  import opened Validation
  import opened Http
  import opened Store
  import opened SolarStudyEntity

  /** The keys `create` and `update` read from the body (`update` ignores
      `clientId`). Decimals are in hundredths. */
  datatype StudyPayload = StudyPayload(
    projectName: Field<string>,
    roofSurface: Field<int>,
    estimatedPower: Field<int>,
    annualProduction: Field<int>,
    estimatedCost: Field<int>,
    annualSavings: Field<int>,
    paybackPeriod: Field<int>,
    status: Field<string>,
    notes: Field<string>,
    clientId: Field<nat>)

  /** `create`: `new SolarStudy()` stamps both dates, then the setters with
      their `??` defaults. */
  function Build(p: StudyPayload, now: int, client: Ref): SolarStudy {
    SolarStudy(p.projectName.Or(""), p.roofSurface.OrNull(), p.estimatedPower.OrNull(),
               p.annualProduction.OrNull(), p.estimatedCost.OrNull(), p.annualSavings.OrNull(),
               p.paybackPeriod.OrNull(), p.status.Or(DefaultStatus), p.notes.OrNull(), now, now,
               client.AsLink())
  }

  /** `update`: each property set only when its key `isset`. */
  function Patch(st: SolarStudy, p: StudyPayload): SolarStudy {
    st.(projectName := p.projectName.Over(st.projectName),
        roofSurface := p.roofSurface.OverNull(st.roofSurface),
        estimatedPower := p.estimatedPower.OverNull(st.estimatedPower),
        annualProduction := p.annualProduction.OverNull(st.annualProduction),
        estimatedCost := p.estimatedCost.OverNull(st.estimatedCost),
        annualSavings := p.annualSavings.OverNull(st.annualSavings),
        paybackPeriod := p.paybackPeriod.OverNull(st.paybackPeriod),
        status := p.status.Over(st.status),
        notes := p.notes.OverNull(st.notes))
  }

  /** `list`: `findAll()`, every study, unfiltered and unpaged. */
  function List(s: Store): (r: Reply<seq<Row<SolarStudy>>>)
    ensures r.Success? && r.status == 200 && r.data.Some?
    ensures forall x :: x in r.data.value <==> x in s.studies
    ensures |r.data.value| == |s.studies|
  {
    Found(s.studies)
  }

  function Show(s: Store, id: nat): (r: Reply<SolarStudy>)
    ensures r.Success? <==> id in Ids(s.studies)
    ensures r.Success? ==> r.data == Find(s.studies, id)
    ensures r.Failure? ==> r == NotFound("Solar study")
  {
    ShowRow(s.studies, id, "Solar study")
  }

  /** `create`: 400 on a falsy body; 400 "Client not found" for an unknown
      `clientId`; 400 with the violations; then the flush, which throws when
      no client was given, since no constraint asks for one. */
  function Create(s: Store, body: Body<StudyPayload>, now: int): (o: Outcome<Row<SolarStudy>>)
    ensures o.Replied? && o.reply.status == 201 <==>
              && body.Decoded? && !Resolve(s.clients, body.payload.clientId).Unknown?
              && Valid(Build(body.payload, now, Resolve(s.clients, body.payload.clientId)))
              && body.payload.clientId.IsSet()
    ensures o.Threw? <==>
              && body.Decoded? && Resolve(s.clients, body.payload.clientId).Unset?
              && Valid(Build(body.payload, now, Unset))
    ensures o.Threw? ==> o.ex == NotNullViolation("solar_study.client_id")
    ensures o.Replied? && o.reply.status != 201 ==> o.store == s && o.reply.Failure? && o.reply.status == 400
    ensures o.Replied? && o.reply.status == 201 ==>
              && o.reply.Success? && o.reply.data.Some?
              && o.reply.data.value.id == s.next
              && o.reply.data.value.val == Build(body.payload, now, Resolve(s.clients, body.payload.clientId))
              && OwnedBy(o.reply.data.value.val.client, s.clients)
              && o.reply.data.value.val.createdAt == now
              && o.store == s.(studies := Insert(s.studies, s.next, o.reply.data.value.val), next := s.next + 1)
  {
    match body
    case Falsy => Replied(s, InvalidJson())
    case Decoded(p) =>
      var client := Resolve(s.clients, p.clientId);
      if client.Unknown? then Replied(s, UnknownReference("Client"))
      else
        var st := Build(p, now, client);
        var vs := Violations(st);
        if |vs| > 0 then Replied(s, ValidationError(vs))
        else if st.client.None? then Threw(NotNullViolation("solar_study.client_id"))
        else
          Replied(s.(studies := Insert(s.studies, s.next, st), next := s.next + 1),
                  Created("Solar study created successfully", Row(s.next, st)))
  }

  /** Only a project name is required of the body: with it and an existing
      client, every other key may be left out. */
  lemma NameAndClientSuffice(s: Store, name: string, client: nat, now: int)
    requires name != "" && client in Ids(s.clients)
    ensures var p := StudyPayload(Given(name), Absent, Absent, Absent, Absent, Absent, Absent, Absent, Absent, Given(client));
            var o := Create(s, Decoded(p), now);
            o.Replied? && o.reply.status == 201 && o.reply.data.value.val.status == "pending"
  {
  }

  lemma CreateKeepsGood(s: Store, body: Body<StudyPayload>, now: int)
    requires Good(s)
    ensures var o := Create(s, body, now); o.Replied? ==> Good(o.store)
  {
    var o := Create(s, body, now);
    if o.Replied? && o.reply.status == 201 {
      var st := o.reply.data.value.val;
      assert o.store == s.(studies := Insert(s.studies, s.next, st), next := s.next + 1);
      InsertStudyGood(s, st);
    }
  }

  /** `update`: 404 for an unknown id whatever the body; 400 on a falsy body;
      400 with the violations; otherwise the patched row replaces the old one. */
  function Update(s: Store, id: nat, body: Body<StudyPayload>): (o: Outcome<Row<SolarStudy>>)
    ensures o.Replied?
    ensures id !in Ids(s.studies) ==> o.reply == NotFound("Solar study")
    ensures o.reply.status == 200 <==>
              id in Ids(s.studies) && body.Decoded? && Valid(Patch(Find(s.studies, id).value, body.payload))
    ensures o.reply.status != 200 ==> o.store == s && o.reply.Failure?
    ensures o.reply.status == 200 ==>
              && Find(o.store.studies, id) == Some(Patch(Find(s.studies, id).value, body.payload))
              && SameExcept(o.store.studies, s.studies, id)
              && o.store.(studies := s.studies) == s
  {
    match Find(s.studies, id)
    case None => Replied(s, NotFound("Solar study"))
    case Some(current) =>
      match body
      case Falsy => Replied(s, InvalidJson())
      case Decoded(p) =>
        var st := Patch(current, p);
        var vs := Violations(st);
        if |vs| > 0 then Replied(s, ValidationError(vs))
        else
          UpdateFind(s.studies, id, st, id);
          UpdateSameExcept(s.studies, id, st);
          Replied(s.(studies := Table.Update(s.studies, id, st)), Done("Solar study updated successfully"))
  }

  lemma PatchIdempotent(st: SolarStudy, p: StudyPayload)
    ensures Patch(Patch(st, p), p) == Patch(st, p)
  {
  }

  /** An update keeps the client and the creation date, and never clears a
      number that was set. */
  lemma PatchKeeps(st: SolarStudy, p: StudyPayload)
    ensures Patch(st, p).client == st.client && Patch(st, p).createdAt == st.createdAt
    ensures st.roofSurface.Some? ==> Patch(st, p).roofSurface.Some?
    ensures st.paybackPeriod.Some? ==> Patch(st, p).paybackPeriod.Some?
  {
  }

  lemma UpdateKeepsGood(s: Store, id: nat, body: Body<StudyPayload>)
    requires Good(s)
    ensures Good(Update(s, id, body).store)
  {
    var o := Update(s, id, body);
    if o.reply.status == 200 {
      var current := Find(s.studies, id).value;
      var st := Patch(current, body.payload);
      PatchKeeps(current, body.payload);
      UpdateKeyed(s.studies, s.next, id, st);
      assert Row(id, current) in s.studies;
      UpdateKeepsAll(s.studies, id, st, (b: SolarStudy) => OwnedBy(b.client, s.clients));
    }
  }

  function Delete(s: Store, id: nat): (o: Outcome<Row<SolarStudy>>)
    ensures o.Replied?
    ensures id !in Ids(s.studies) ==> o == Replied(s, NotFound("Solar study"))
    ensures id in Ids(s.studies) ==>
              && o.reply == Done("Solar study deleted successfully")
              && Ids(o.store.studies) == Ids(s.studies) - {id}
              && (forall x :: x in o.store.studies <==> x in s.studies && x.id != id)
              && o.store.(studies := s.studies) == s
  {
    if Find(s.studies, id).None? then Replied(s, NotFound("Solar study"))
    else Replied(s.(studies := Table.Delete(s.studies, id)), Done("Solar study deleted successfully"))
  }

  lemma DeleteKeepsGood(s: Store, id: nat)
    requires Good(s)
    ensures Good(Delete(s, id).store)
  {
    DeleteBelow(s.studies, id, s.next);
  }

  /** Creating a study and deleting it again leaves the store as it was, but
      for the id counter. */
  lemma CreateThenDelete(s: Store, body: Body<StudyPayload>, now: int)
    requires Good(s)
    requires Create(s, body, now).Replied? && Create(s, body, now).reply.status == 201
    ensures Delete(Create(s, body, now).store, s.next) == Replied(s.(next := s.next + 1), Done("Solar study deleted successfully"))
  {
    var o := Create(s, body, now);
    var v := o.reply.data.value.val;
    assert o.store == s.(studies := Insert(s.studies, s.next, v), next := s.next + 1);
    DeleteNewest(s, v);
  }

  /** Deleting the row just inserted under the counter undoes the insertion. */
  lemma DeleteNewest(s: Store, v: SolarStudy)
    requires Keyed(s.studies, s.next)
    ensures Delete(s.(studies := Insert(s.studies, s.next, v), next := s.next + 1), s.next)
         == Replied(s.(next := s.next + 1), Done("Solar study deleted successfully"))
  {
    assert s.next !in Ids(s.studies);
    DeleteInserted(s.studies, s.next, v);
  }
}

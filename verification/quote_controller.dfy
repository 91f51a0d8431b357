/** `QuoteController`: the actions under `/api/quotes`, including the `send`
    and `sign` transitions, which check nothing but the id. */
module QuoteController {

  import opened Wrappers
  import opened Table
  import opened Validation
  import opened Http
  import opened Store
  import opened QuoteEntity
  import QuoteRepository
  import StatusQuery

  /** The keys `create` and `update` read from the body (`update` ignores the
      ids). Amounts are in hundredths. */
  datatype QuotePayload = QuotePayload(
    amount: Field<int>,
    powerKwc: Field<int>,
    status: Field<string>,
    description: Field<string>,
    validUntil: Field<DateInput>,
    clientId: Field<nat>,
    userId: Field<nat>)

  predicate BadDate(f: Field<DateInput>) {
    f == Given(Unparsable)
  }

  function DateOf(f: Field<DateInput>, current: Option<int>): Option<int> {
    match f
    case Given(Parsed(at)) => Some(at)
    case _ => current
  }

  /** `create`: `new Quote()` (which draws the reference) and the setters;
      a missing amount defaults to "0". */
  function Build(p: QuotePayload, now: int, year: nat, n: nat, client: Ref, user: Ref): (q: Quote)
    requires 1 <= n <= 9999
    ensures ParseReference(q.reference) == Some((year, n)) && q.signedAt.None?
    ensures q.client == client.AsLink() && q.user == user.AsLink()
  {
    New(now, year, n).(amount := Some(p.amount.Or(0)), powerKwc := p.powerKwc.OrNull(),
                       status := p.status.Or(DefaultStatus), description := p.description.OrNull(),
                       validUntil := DateOf(p.validUntil, None), client := client.AsLink(), user := user.AsLink())
  }

  /** `update`: each property set only when its key `isset`. */
  function Patch(q: Quote, p: QuotePayload): Quote {
    q.(amount := p.amount.OverNull(q.amount),
       powerKwc := p.powerKwc.OverNull(q.powerKwc),
       status := p.status.Over(q.status),
       description := p.description.OverNull(q.description),
       validUntil := DateOf(p.validUntil, q.validUntil))
  }

  // --- list and show ----------------------------------------------------------

  /** `list`: a page of the quotes with the requested status (default "all"),
      newest first, and a total counted under the same filter. */
  function List(s: Store, q: ListQuery): (r: Reply<Listing<Row<Quote>>>)
    ensures r.Success? && r.status == 200 && r.data.Some?
    ensures var l := r.data.value;
            && 1 <= l.pagination.page && 1 <= l.pagination.limit <= 100
            && |l.items| <= l.pagination.limit
            && l.pagination.total == |StatusQuery.Selected(s.quotes, Some(q.status.GetOr("all")), QuoteRepository.StatusOf)|
            && (forall x :: x in l.items ==> x in s.quotes && StatusQuery.Matches(Some(q.status.GetOr("all")), x.val.status))
            && l.pagination.page == PageParam(q.page) && l.pagination.limit == LimitParam(q.limit, 100)
            && (Offset(l.pagination.page, l.pagination.limit) >= l.pagination.total ==> l.items == [])
            && (Offset(l.pagination.page, l.pagination.limit) < l.pagination.total ==>
                  |l.items| == Min(l.pagination.limit, l.pagination.total - Offset(l.pagination.page, l.pagination.limit)))
  {
    var page := PageParam(q.page);
    var limit := LimitParam(q.limit, 100);
    var status := q.status.GetOr("all");
    var items := QuoteRepository.FindByStatusWithPagination(s.quotes, status, page, limit);
    var total := QuoteRepository.CountByStatus(s.quotes, if status != "all" then Some(status) else None);
    Success(200, None, Some(Listing(items, Paginate(page, limit, total))))
  }

  /** The list loses no quote: each quote the filter selects is listed on a
      page no later than the `pages` count of the reply. */
  lemma ListPagesCover(s: Store, q: ListQuery, x: Row<Quote>) returns (p: nat)
    requires x in s.quotes && StatusQuery.Matches(Some(q.status.GetOr("all")), x.val.status)
    ensures 1 <= p <= List(s, q).data.value.pagination.pages
    ensures x in List(s, q.(page := Some(p))).data.value.items
  {
    var limit := LimitParam(q.limit, 100);
    p := QuoteRepository.PagesCoverSelection(s.quotes, q.status.GetOr("all"), limit, x);
  }

  /** Listing page after page walks the quotes newest first, and in a good
      store no quote is listed twice. */
  lemma ListInOrder(s: Store, q: ListQuery, p1: nat, p2: nat)
    requires 1 <= p1 < p2
    ensures forall x, y :: (x in List(s, q.(page := Some(p1))).data.value.items
                         && y in List(s, q.(page := Some(p2))).data.value.items) ==> x.val.createdAt >= y.val.createdAt
    ensures Good(s) ==> forall x :: x in List(s, q.(page := Some(p1))).data.value.items
                                ==> x !in List(s, q.(page := Some(p2))).data.value.items
  {
    var status, limit := q.status.GetOr("all"), LimitParam(q.limit, 100);
    assert List(s, q.(page := Some(p1))).data.value.items == QuoteRepository.FindByStatusWithPagination(s.quotes, status, p1, limit);
    assert List(s, q.(page := Some(p2))).data.value.items == QuoteRepository.FindByStatusWithPagination(s.quotes, status, p2, limit);
    QuoteRepository.PagesInOrder(s.quotes, status, p1, p2, limit);
  }

  function Show(s: Store, id: nat): (r: Reply<Quote>)
    ensures r.Success? <==> id in Ids(s.quotes)
    ensures r.Success? ==> r.data == Find(s.quotes, id)
    ensures r.Failure? ==> r == NotFound("Quote")
  {
    ShowRow(s.quotes, id, "Quote")
  }

  // --- create ---------------------------------------------------------------

  /** Whether `create` gets past the date, the reference lookups and the validator. */
  predicate Accepted(s: Store, p: QuotePayload, now: int, year: nat, n: nat)
    requires 1 <= n <= 9999
  {
    && !BadDate(p.validUntil)
    && !Resolve(s.clients, p.clientId).Unknown?
    && !Resolve(s.users, p.userId).Unknown?
    && Valid(Build(p, now, year, n, Resolve(s.clients, p.clientId), Resolve(s.users, p.userId)))
  }

  /** `create`. In order: 400 on a falsy body; a throw on an unparsable
      `validUntil`; 400 "Client not found" / "User not found"; 400 with the
      violations; then the flush, which throws when the client or the user was
      not given. The year and the random number of the reference are passed in. */
  function Create(s: Store, body: Body<QuotePayload>, now: int, year: nat, n: nat): (o: Outcome<Row<Quote>>)
    requires 1 <= n <= 9999
    ensures o.Replied? && o.reply.status == 201 <==>
              body.Decoded? && Accepted(s, body.payload, now, year, n)
              && body.payload.clientId.IsSet() && body.payload.userId.IsSet()
    ensures o.Threw? <==>
              body.Decoded? && (BadDate(body.payload.validUntil)
                                || (Accepted(s, body.payload, now, year, n)
                                    && !(body.payload.clientId.IsSet() && body.payload.userId.IsSet())))
    ensures o.Replied? && o.reply.status == 201 ==>
              && o.reply.Success? && o.reply.data.Some?
              && var row := o.reply.data.value;
              && row.id == s.next && Valid(row.val)
              && row.val == Build(body.payload, now, year, n, Resolve(s.clients, body.payload.clientId),
                                  Resolve(s.users, body.payload.userId))
              && ParseReference(row.val.reference) == Some((year, n))
              && row.val.status in Statuses && row.val.signedAt.None?
              && OwnedBy(row.val.client, s.clients)
              && row.val.user.Some? && row.val.user.value in Ids(s.users)
              && o.store == s.(quotes := Insert(s.quotes, s.next, row.val), next := s.next + 1)
    ensures o.Replied? && o.reply.status != 201 ==> o.store == s && o.reply.Failure? && o.reply.status == 400
    ensures o.Threw? ==> o.ex.httpStatus.None?
    ensures body.Decoded? && !body.payload.amount.IsSet() ==> !(o.Replied? && o.reply.status == 201)
  {
    match body
    case Falsy => Replied(s, InvalidJson())
    case Decoded(p) =>
      if BadDate(p.validUntil) then Threw(UnparsableDate())
      else Admit(s, p, now, year, n)
  }

  /** `create` once the date has parsed: the reference lookups, then the
      validator and the flush. */
  function Admit(s: Store, p: QuotePayload, now: int, year: nat, n: nat): (o: Outcome<Row<Quote>>)
    requires 1 <= n <= 9999 && !BadDate(p.validUntil)
    ensures o.Replied? && o.reply.status == 201 <==>
              Accepted(s, p, now, year, n) && p.clientId.IsSet() && p.userId.IsSet()
    ensures o.Threw? <==> Accepted(s, p, now, year, n) && !(p.clientId.IsSet() && p.userId.IsSet())
    ensures o.Threw? ==> o.ex.httpStatus.None?
    ensures o.Replied? && o.reply.status != 201 ==> o.store == s && o.reply.Failure? && o.reply.status == 400
    ensures o.Replied? && o.reply.status == 201 ==>
              && o.reply.Success? && o.reply.data.Some?
              && var row := o.reply.data.value;
              && row.id == s.next && Valid(row.val)
              && row.val == Build(p, now, year, n, Resolve(s.clients, p.clientId), Resolve(s.users, p.userId))
              && ParseReference(row.val.reference) == Some((year, n))
              && row.val.status in Statuses && row.val.signedAt.None?
              && OwnedBy(row.val.client, s.clients)
              && row.val.user.Some? && row.val.user.value in Ids(s.users)
              && o.store == s.(quotes := Insert(s.quotes, s.next, row.val), next := s.next + 1)
  {
    var client := Resolve(s.clients, p.clientId);
    var user := Resolve(s.users, p.userId);
    if client.Unknown? then Replied(s, UnknownReference("Client"))
    else if user.Unknown? then Replied(s, UnknownReference("User"))
    else Persist(s, Build(p, now, year, n, client, user))
  }

  /** The validator, then `persist` and `flush`. */
  function Persist(s: Store, q: Quote): (o: Outcome<Row<Quote>>)
    ensures o.Replied? && o.reply.status == 201 <==> Valid(q) && Persistable(q)
    ensures o.Threw? <==> Valid(q) && !Persistable(q)
    ensures o.Threw? ==> o.ex.httpStatus.None?
    ensures o.Replied? && o.reply.status != 201 ==> o.store == s && o.reply.Failure? && o.reply.status == 400
    ensures o.Replied? && o.reply.status == 201 ==>
              && o.reply == Created("Quote created successfully", Row(s.next, q))
              && o.store == s.(quotes := Insert(s.quotes, s.next, q), next := s.next + 1)
  {
    var vs := Violations(q);
    if |vs| > 0 then Replied(s, ValidationError(vs))
    else if q.client.None? then Threw(NotNullViolation("quote.client_id"))
    else if q.user.None? then Threw(NotNullViolation("quote.user_id"))
    else
      Replied(s.(quotes := Insert(s.quotes, s.next, q), next := s.next + 1),
              Created("Quote created successfully", Row(s.next, q)))
  }

  /** Without an amount the default "0" trips `Positive`: the quote is refused
      with a violation on `amount`, after the references have been checked. */
  lemma MissingAmountRefused(s: Store, p: QuotePayload, now: int, year: nat, n: nat)
    requires 1 <= n <= 9999 && !p.amount.IsSet() && !BadDate(p.validUntil)
    requires !Resolve(s.clients, p.clientId).Unknown? && !Resolve(s.users, p.userId).Unknown?
    ensures var o := Create(s, Decoded(p), now, year, n);
            o.Replied? && o.store == s && o.reply.status == 400 && "amount" in o.reply.details
  {
    var q := Build(p, now, year, n, Resolve(s.clients, p.clientId), Resolve(s.users, p.userId));
    var vs := Violations(q);
    assert Violation("amount", NotPositive) in vs;
    DetailsKeys(vs);
    assert "amount" in Fields(vs);
  }

  lemma CreateKeepsGood(s: Store, body: Body<QuotePayload>, now: int, year: nat, n: nat)
    requires 1 <= n <= 9999 && Good(s)
    ensures var o := Create(s, body, now, year, n); o.Replied? ==> Good(o.store)
  {
    var o := Create(s, body, now, year, n);
    if o.Replied? && o.reply.status == 201 {
      var q := o.reply.data.value.val;
      assert o.store == s.(quotes := Insert(s.quotes, s.next, q), next := s.next + 1);
      InsertQuoteGood(s, q);
    }
  }

  // --- update ---------------------------------------------------------------

  /** `update`: 404 for an unknown id whatever the body; 400 on a falsy body; a
      throw on an unparsable `validUntil`; 400 with the violations; otherwise
      the patched row replaces the old one. */
  function Update(s: Store, id: nat, body: Body<QuotePayload>): (o: Outcome<Row<Quote>>)
    ensures id !in Ids(s.quotes) ==> o == Replied(s, NotFound("Quote"))
    ensures o.Threw? <==> id in Ids(s.quotes) && body.Decoded? && BadDate(body.payload.validUntil)
    ensures o.Replied? && o.reply.status == 200 <==>
              && id in Ids(s.quotes) && body.Decoded? && !BadDate(body.payload.validUntil)
              && Valid(Patch(Find(s.quotes, id).value, body.payload))
    ensures o.Replied? && o.reply.status != 200 ==> o.store == s && o.reply.Failure?
    ensures o.Replied? && o.reply.status == 200 ==>
              && Find(o.store.quotes, id) == Some(Patch(Find(s.quotes, id).value, body.payload))
              && SameExcept(o.store.quotes, s.quotes, id)
              && o.store.(quotes := s.quotes) == s
  {
    match Find(s.quotes, id)
    case None => Replied(s, NotFound("Quote"))
    case Some(current) =>
      match body
      case Falsy => Replied(s, InvalidJson())
      case Decoded(p) =>
        if BadDate(p.validUntil) then Threw(UnparsableDate())
        else
          var q := Patch(current, p);
          var vs := Violations(q);
          if |vs| > 0 then Replied(s, ValidationError(vs))
          else
            UpdateFind(s.quotes, id, q, id);
            UpdateSameExcept(s.quotes, id, q);
            Replied(s.(quotes := Table.Update(s.quotes, id, q)), Done("Quote updated successfully"))
  }

  lemma PatchIdempotent(q: Quote, p: QuotePayload)
    ensures Patch(Patch(q, p), p) == Patch(q, p)
  {
  }

  /** An update never touches the reference, the signing date, the links or
      the timestamps. */
  lemma PatchKeeps(q: Quote, p: QuotePayload)
    ensures Patch(q, p).reference == q.reference && Patch(q, p).signedAt == q.signedAt
    ensures Patch(q, p).client == q.client && Patch(q, p).user == q.user
    ensures Patch(q, p).createdAt == q.createdAt && Patch(q, p).updatedAt == q.updatedAt
  {
  }

  lemma UpdateKeepsGood(s: Store, id: nat, body: Body<QuotePayload>)
    requires Good(s)
    ensures var o := Update(s, id, body); o.Replied? ==> Good(o.store)
  {
    var o := Update(s, id, body);
    if o.Replied? && o.reply.status == 200 {
      var current := Find(s.quotes, id).value;
      var q := Patch(current, body.payload);
      PatchKeeps(current, body.payload);
      UpdateKeyed(s.quotes, s.next, id, q);
      assert Row(id, current) in s.quotes;
      UpdateKeepsAll(s.quotes, id, q, (b: Quote) => OwnedBy(b.client, s.clients));
    }
  }

  // --- send and sign ----------------------------------------------------------

  /** Sets the status of a quote and nothing else but, optionally, its signing date. */
  function Transition(s: Store, id: nat, q: Quote, message: string): (o: Outcome<Row<Quote>>)
    requires id in Ids(s.quotes)
    ensures o.Replied? && o.reply == Done(message)
    ensures Find(o.store.quotes, id) == Some(q) && SameExcept(o.store.quotes, s.quotes, id)
    ensures o.store.(quotes := s.quotes) == s
  {
    UpdateFind(s.quotes, id, q, id);
    UpdateSameExcept(s.quotes, id, q);
    Replied(s.(quotes := Table.Update(s.quotes, id, q)), Done(message))
  }

  /** `send`: status "sent", whatever the current status; no validation. */
  function Send(s: Store, id: nat): (o: Outcome<Row<Quote>>)
    ensures o.Replied?
    ensures id !in Ids(s.quotes) ==> o == Replied(s, NotFound("Quote"))
    ensures id in Ids(s.quotes) ==>
              && o.reply == Done("Quote sent successfully")
              && Find(o.store.quotes, id) == Some(Find(s.quotes, id).value.(status := "sent"))
              && SameExcept(o.store.quotes, s.quotes, id)
              && o.store.(quotes := s.quotes) == s
  {
    match Find(s.quotes, id)
    case None => Replied(s, NotFound("Quote"))
    case Some(q) => Transition(s, id, q.(status := "sent"), "Quote sent successfully")
  }

  /** `sign`: status "signed" and the signing date set to now, whatever the
      current status; no validation. */
  function Sign(s: Store, id: nat, now: int): (o: Outcome<Row<Quote>>)
    ensures o.Replied?
    ensures id !in Ids(s.quotes) ==> o == Replied(s, NotFound("Quote"))
    ensures id in Ids(s.quotes) ==>
              && o.reply == Done("Quote signed successfully")
              && Find(o.store.quotes, id) == Some(SetSignedAt(Find(s.quotes, id).value.(status := "signed"), Some(now)))
              && SameExcept(o.store.quotes, s.quotes, id)
              && o.store.(quotes := s.quotes) == s
  {
    match Find(s.quotes, id)
    case None => Replied(s, NotFound("Quote"))
    case Some(q) => Transition(s, id, SetSignedAt(q.(status := "signed"), Some(now)), "Quote signed successfully")
  }

  /** Sending twice is sending once. */
  lemma SendIdempotent(s: Store, id: nat)
    ensures Send(Send(s, id).store, id) == Send(s, id)
  {
    if id in Ids(s.quotes) {
      var q := Find(s.quotes, id).value.(status := "sent");
      UpdateTwice(s.quotes, id, q);
      UpdateFind(s.quotes, id, q, id);
    }
  }

  /** Nothing stops a signed quote from being sent again: it goes back to
      "sent" and keeps its signing date. */
  lemma SendAfterSign(s: Store, id: nat, now: int)
    requires id in Ids(s.quotes)
    ensures var o := Send(Sign(s, id, now).store, id);
            Find(o.store.quotes, id).value.status == "sent" && Find(o.store.quotes, id).value.signedAt == Some(now)
  {
  }

  /** Signing any quote, even a rejected one, makes it count as signed. */
  lemma SignAnyStatus(s: Store, id: nat, now: int)
    requires id in Ids(s.quotes)
    ensures var q := Find(Sign(s, id, now).store.quotes, id).value;
            q.status == "signed" && q.signedAt == Some(now)
            && q.(status := Find(s.quotes, id).value.status, signedAt := Find(s.quotes, id).value.signedAt)
               == Find(s.quotes, id).value
  {
  }

  lemma TransitionKeepsGood(s: Store, id: nat, now: int)
    requires Good(s)
    ensures Good(Send(s, id).store) && Good(Sign(s, id, now).store)
  {
    if id in Ids(s.quotes) {
      var current := Find(s.quotes, id).value;
      assert Row(id, current) in s.quotes;
      TransitionGood(s, id, current.(status := "sent"));
      TransitionGood(s, id, SetSignedAt(current.(status := "signed"), Some(now)));
    }
  }

  lemma TransitionGood(s: Store, id: nat, q: Quote)
    requires Good(s) && id in Ids(s.quotes) && OwnedBy(q.client, s.clients)
    ensures Good(s.(quotes := Table.Update(s.quotes, id, q)))
  {
    UpdateKeyed(s.quotes, s.next, id, q);
    var t := Table.Update(s.quotes, id, q);
    forall x | x in t
      ensures OwnedBy(x.val.client, s.clients)
    {
      var i :| 0 <= i < |t| && t[i] == x;
      assert s.quotes[i] in s.quotes;
    }
  }

  // --- delete ---------------------------------------------------------------

  function Delete(s: Store, id: nat): (o: Outcome<Row<Quote>>)
    ensures o.Replied?
    ensures id !in Ids(s.quotes) ==> o == Replied(s, NotFound("Quote"))
    ensures id in Ids(s.quotes) ==>
              && o.reply == Done("Quote deleted successfully")
              && Ids(o.store.quotes) == Ids(s.quotes) - {id}
              && (forall x :: x in o.store.quotes <==> x in s.quotes && x.id != id)
              && o.store.(quotes := s.quotes) == s
  {
    if Find(s.quotes, id).None? then Replied(s, NotFound("Quote"))
    else Replied(s.(quotes := Table.Delete(s.quotes, id)), Done("Quote deleted successfully"))
  }

  lemma DeleteKeepsGood(s: Store, id: nat)
    requires Good(s)
    ensures Good(Delete(s, id).store)
  {
    DeleteBelow(s.quotes, id, s.next);
  }

  /** Creating a quote and deleting it again leaves the store as it was, but
      for the id counter. */
  lemma CreateThenDelete(s: Store, body: Body<QuotePayload>, now: int, year: nat, n: nat)
    requires 1 <= n <= 9999 && Good(s)
    requires Create(s, body, now, year, n).Replied? && Create(s, body, now, year, n).reply.status == 201
    ensures Delete(Create(s, body, now, year, n).store, s.next) == Replied(s.(next := s.next + 1), Done("Quote deleted successfully"))
  {
    var o := Create(s, body, now, year, n);
    var v := o.reply.data.value.val;
    assert o.store == s.(quotes := Insert(s.quotes, s.next, v), next := s.next + 1);
    DeleteNewest(s, v);
  }

  /** Deleting the row just inserted under the counter undoes the insertion. */
  lemma DeleteNewest(s: Store, v: Quote)
    requires Keyed(s.quotes, s.next)
    ensures Delete(s.(quotes := Insert(s.quotes, s.next, v), next := s.next + 1), s.next)
         == Replied(s.(next := s.next + 1), Done("Quote deleted successfully"))
  {
    assert s.next !in Ids(s.quotes);
    DeleteInserted(s.quotes, s.next, v);
  }
}

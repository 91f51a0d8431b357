/** The Quote entity: a priced offer to a client, identified by a reference of
    the form `Q-<year>-<nnnn>` that the constructor assigns. */
module QuoteEntity {

  import opened Wrappers
  import opened Validation
  import opened Text

  const Statuses: seq<string> := ["draft", "sent", "signed", "rejected"]
  const DefaultStatus: string := "draft"

  /** Amounts are held in hundredths (euro cents, hundredths of a kWc); dates
      are Unix timestamps in seconds. */
  datatype Quote = Quote(
    reference: string,
    amount: Option<int>,
    powerKwc: Option<int>,
    status: string,
    description: Option<string>,
    validUntil: Option<int>,
    signedAt: Option<int>,
    createdAt: int,
    updatedAt: int,
    client: Option<nat>,
    user: Option<nat>)

  // --- generateReference ----------------------------------------------------

  /** `'Q-' . date('Y') . '-' . str_pad((string) n, 4, '0', STR_PAD_LEFT)`, with
      the current year and the random draw n passed in. */
  function Reference(year: nat, n: nat): (r: string)
    requires 1 <= n <= 9999
    ensures StartsWith(r, "Q-") && r != ""
    ensures ParseReference(r) == Some((year, n))
  {
    var y := NatToString(year);
    var d := PadLeft(NatToString(n), 4, '0');
    NatToStringShort(n, 4);
    ZeroPadParses(n, 4);
    ParseReferenceOf(y, d);
    "Q-" + y + "-" + d
  }

  lemma ParseReferenceOf(y: string, d: string)
    requires 1 <= |y| && AllDigits(y) && |d| == 4 && AllDigits(d)
    ensures ParseReference("Q-" + y + "-" + d) == Some((ParseDigits(y), ParseDigits(d)))
  {
    var r := "Q-" + y + "-" + d;
    assert |r| == |y| + 7;
    assert r[..2] == "Q-";
    assert r[2..|r| - 5] == y;
    assert r[|r| - 5] == '-';
    assert r[|r| - 4..] == d;
    assert AllDigits(r[2..|r| - 5]) && AllDigits(r[|r| - 4..]);
  }

  /** With a four-digit year the reference is eleven characters long. */
  lemma ReferenceLength(year: nat, n: nat)
    requires 1 <= n <= 9999 && 1000 <= year <= 9999
    ensures |Reference(year, n)| == 11
  {
    NatToStringLength(year, 3);
    NatToStringShort(n, 4);
  }

  /** Reads a reference back: "Q-", a non-empty digit string, "-", then four digits. */
  function ParseReference(s: string): Option<(nat, nat)> {
    if |s| >= 8 && s[..2] == "Q-" && s[|s| - 5] == '-'
       && AllDigits(s[2..|s| - 5]) && AllDigits(s[|s| - 4..])
    then Some((ParseDigits(s[2..|s| - 5]), ParseDigits(s[|s| - 4..])))
    else None
  }

  /** Two references are equal exactly when they were drawn for the same year and number. */
  lemma ReferenceInjective(y1: nat, n1: nat, y2: nat, n2: nat)
    requires 1 <= n1 <= 9999 && 1 <= n2 <= 9999
    ensures Reference(y1, n1) == Reference(y2, n2) <==> y1 == y2 && n1 == n2
  {
  }

  /** The constructor: timestamps, a fresh reference, status draft, never signed. */
  function New(now: int, year: nat, n: nat): (q: Quote)
    requires 1 <= n <= 9999
    ensures q.reference != "" && ParseReference(q.reference) == Some((year, n))
    ensures q.status == DefaultStatus && q.signedAt.None?
    ensures q.amount.None? && q.client.None? && q.user.None?
    ensures q.createdAt == now && q.updatedAt == now
  {
    Quote(Reference(year, n), None, None, DefaultStatus, None, None, None, now, now, None, None)
  }

  // --- constraints ----------------------------------------------------------

  predicate Valid(q: Quote) {
    && q.reference != ""
    && q.amount.Some? && q.amount.value > 0
    && (q.powerKwc.None? || q.powerKwc.value > 0)
    && q.status in Statuses
  }

  function Violations(q: Quote): (vs: seq<Violation>)
    ensures |vs| == 0 <==> Valid(q)
    ensures Fields(vs) <= {"reference", "amount", "powerKwc", "status"}
    ensures q.amount.None? ==> Violation("amount", Blank) in vs
    ensures q.amount.Some? && q.amount.value <= 0 ==> Violation("amount", NotPositive) in vs
    ensures q.status !in Statuses ==> Violation("status", NotAChoice) in vs
  {
    var vs :=
      NotBlank("reference", q.reference)
      + NotBlankOption("amount", q.amount) + Positive("amount", q.amount)
      + Positive("powerKwc", q.powerKwc)
      + Choice("status", q.status, Statuses);
    FieldsWithin(vs, {"reference", "amount", "powerKwc", "status"});
    vs
  }

  /** The `client_id` and `user_id` columns are NOT NULL, and no validator checks them. */
  predicate Persistable(q: Quote) {
    q.client.Some? && q.user.Some?
  }

  /** A new quote's reference never trips the NotBlank constraint. */
  lemma NewReferenceNotBlank(now: int, year: nat, n: nat)
    requires 1 <= n <= 9999
    ensures Violation("reference", Blank) !in Violations(New(now, year, n))
  {
    ReferenceNotBlank(New(now, year, n));
  }

  /** Only a blank reference gives a violation on `reference`. */
  lemma ReferenceNotBlank(q: Quote)
    requires q.reference != ""
    ensures Violation("reference", Blank) !in Violations(q)
  {
    var rest := NotBlankOption("amount", q.amount) + Positive("amount", q.amount)
                + Positive("powerKwc", q.powerKwc) + Choice("status", q.status, Statuses);
    assert Violations(q) == rest;
    assert forall v :: v in rest ==> v.field != "reference";
  }

  /** `setSignedAt`: the only writer of the signing date; nothing else changes. */
  function SetSignedAt(q: Quote, at: Option<int>): (r: Quote)
    ensures r.signedAt == at
    ensures r.(signedAt := q.signedAt) == q
  {
    q.(signedAt := at)
  }
}

/** The Client entity: its properties, its validation constraints, its full
    name, and the helpers that keep its three one-to-many collections
    (appointments, quotes, solar studies) in step with the items' own
    `client` reference. */
module ClientEntity {

  import opened Wrappers
  import opened Validation

  const Statuses: seq<string> := ["prospect", "active", "inactive"]
  const DefaultStatus: string := "prospect"

  datatype Client = Client(
    firstName: string,
    lastName: string,
    email: string,
    phone: string,
    address: Option<string>,
    postalCode: Option<string>,
    city: Option<string>,
    status: string,
    notes: Option<string>,
    createdAt: int,
    updatedAt: int,
    assignedTo: Option<nat>)

  /** Every `Assert` constraint of the class holds (`isEmail` is the opaque
      address-syntax check of `Assert\Email`). */
  predicate Valid(c: Client, isEmail: string -> bool) {
    && 2 <= |c.firstName| <= 100
    && 2 <= |c.lastName| <= 100
    && c.email != "" && isEmail(c.email)
    && c.phone != ""
    && c.status in Statuses
  }

  /** The violations the validator reports, property by property in declaration order. */
  function Violations(c: Client, isEmail: string -> bool): (vs: seq<Violation>)
    ensures |vs| == 0 <==> Valid(c, isEmail)
    ensures Fields(vs) <= {"firstName", "lastName", "email", "phone", "status"}
    ensures c.firstName == "" ==> Violation("firstName", Blank) in vs && Violation("firstName", TooShort) in vs
    ensures c.status !in Statuses ==> Violation("status", NotAChoice) in vs
  {
    var vs :=
      NotBlank("firstName", c.firstName) + Length("firstName", c.firstName, 2, 100)
      + NotBlank("lastName", c.lastName) + Length("lastName", c.lastName, 2, 100)
      + NotBlank("email", c.email) + Email("email", c.email, isEmail)
      + NotBlank("phone", c.phone)
      + Choice("status", c.status, Statuses);
    FieldsWithin(vs, {"firstName", "lastName", "email", "phone", "status"});
    vs
  }

  /** `getFullName`. */
  function FullName(c: Client): string {
    c.firstName + " " + c.lastName
  }

  /** A first name without a space can be read back from the full name: the
      full name splits at its first space into the first and the last name. */
  lemma FullNameSplits(c: Client, i: nat)
    requires forall k :: 0 <= k < |c.firstName| ==> c.firstName[k] != ' '
    requires i < |FullName(c)| && FullName(c)[i] == ' '
    requires forall k :: 0 <= k < i ==> FullName(c)[k] != ' '
    ensures FullName(c)[..i] == c.firstName
    ensures FullName(c)[i + 1..] == c.lastName
  {
    var f := FullName(c);
    assert f[|c.firstName|] == ' ';
    assert forall k :: 0 <= k < |c.firstName| ==> f[k] == c.firstName[k];
  }

  // --- addAppointment / addQuote / addSolarStudy and their remove* --------
  //
  // The three collections use the same code; the model states it once. A
  // collection holds item ids; `link` is the item's own `client` property
  // (the id of the client it points to, or null).

  predicate NoDuplicates(items: seq<nat>) {
    forall i, j :: 0 <= i < j < |items| ==> items[i] != items[j]
  }

  /** `add*`: when the item is new to the collection, append it and point it here. */
  function AddItem(owner: nat, items: seq<nat>, item: nat, link: Option<nat>): (r: (seq<nat>, Option<nat>))
    ensures item in r.0
    ensures item in items ==> r == (items, link)
    ensures item !in items ==> r.0 == items + [item] && r.1 == Some(owner)
    ensures NoDuplicates(items) ==> NoDuplicates(r.0)
  {
    if item in items then (items, link) else (items + [item], Some(owner))
  }

  /** `Collection::removeElement`: drop the first occurrence. */
  function RemoveFirst(items: seq<nat>, item: nat): (r: seq<nat>)
    ensures item in items ==> multiset(r) == multiset(items) - multiset{item}
    ensures item !in items ==> r == items
  {
    if |items| == 0 then []
    else
      assert items == [items[0]] + items[1..];
      if items[0] == item then items[1..]
      else [items[0]] + RemoveFirst(items[1..], item)
  }

  /** `remove*`: when the item was in the collection, take it out and clear its
      reference only if it pointed to this client. */
  function RemoveItem(owner: nat, items: seq<nat>, item: nat, link: Option<nat>): (r: (seq<nat>, Option<nat>))
    ensures item !in items ==> r == (items, link)
    ensures item in items ==> multiset(r.0) == multiset(items) - multiset{item}
    ensures item in items && link == Some(owner) ==> r.1 == None
    ensures item in items && link != Some(owner) ==> r.1 == link
    ensures NoDuplicates(items) ==> item !in r.0
  {
    if item in items then
      NoDuplicatesRemove(items, item);
      (RemoveFirst(items, item), if link == Some(owner) then None else link)
    else (items, link)
  }

  lemma {:induction false} NoDuplicatesRemove(items: seq<nat>, item: nat)
    requires item in items
    ensures NoDuplicates(items) ==> item !in RemoveFirst(items, item)
  {
    if NoDuplicates(items) && items[0] != item {
      NoDuplicatesRemove(items[1..], item);
    } else if NoDuplicates(items) {
      assert forall j :: 1 <= j < |items| ==> items[j] != item;
    }
  }

  /** Adding is idempotent: a second `add*` of the same item changes nothing. */
  lemma AddItemIdempotent(owner: nat, items: seq<nat>, item: nat, link: Option<nat>)
    ensures var r := AddItem(owner, items, item, link); AddItem(owner, r.0, item, r.1) == r
  {
  }

  /** While every item in the collection points back to the owner, `add*` leaves
      the item in the collection and pointing to the owner, and keeps that invariant. */
  lemma AddItemLinks(owner: nat, items: seq<nat>, item: nat, link: Option<nat>)
    requires item in items ==> link == Some(owner)
    ensures var r := AddItem(owner, items, item, link); item in r.0 && r.1 == Some(owner)
  {
  }

  /** Removing a freshly added item restores the collection and leaves the item unlinked. */
  lemma RemoveUndoesAdd(owner: nat, items: seq<nat>, item: nat, link: Option<nat>)
    requires item !in items
    ensures var a := AddItem(owner, items, item, link); RemoveItem(owner, a.0, item, a.1) == (items, None)
  {
    RemoveLastFresh(items, item);
  }

  lemma {:induction false} RemoveLastFresh(items: seq<nat>, item: nat)
    requires item !in items
    ensures RemoveFirst(items + [item], item) == items
  {
    if |items| > 0 {
      assert (items + [item])[1..] == items[1..] + [item];
      RemoveLastFresh(items[1..], item);
      assert items == [items[0]] + items[1..];
    }
  }
}

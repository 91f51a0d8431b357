/** `UserController`: the actions under `/api/users`. The user's own
    constraints, the state of a new user and the password hasher come in as
    `UserRules`. */
module UserController {

  import opened Wrappers
  import opened Table
  import opened Validation
  import opened Http
  import opened Store
  import opened UserEntity

  /** The `roles` key: `setRoles` is called only when it holds a JSON array. */
  datatype RolesInput = List(roles: seq<string>) | NotAList

  datatype UserPayload = UserPayload(
    email: Field<string>,
    firstName: Field<string>,
    lastName: Field<string>,
    phone: Field<string>,
    password: Field<string>,
    roles: Field<RolesInput>)

  /** The password is stored hashed, and only when the key is set. */
  function PasswordOf(p: UserPayload, rules: UserRules, current: Option<string>): Option<string> {
    if p.password.IsSet() then Some(rules.hash(p.password.value)) else current
  }

  function RolesOf(p: UserPayload, current: seq<string>): seq<string> {
    match p.roles
    case Given(List(rs)) => rs
    case _ => current
  }

  /** `create`: `new User()`, then the setters with their `??` defaults. */
  function Build(p: UserPayload, rules: UserRules): User {
    rules.blank.(email := p.email.Or(""), firstName := p.firstName.Or(""), lastName := p.lastName.Or(""),
                 phone := p.phone.OrNull(), password := PasswordOf(p, rules, rules.blank.password),
                 roles := RolesOf(p, rules.blank.roles))
  }

  /** `update`: each property set only when its key `isset`. */
  function Patch(u: User, p: UserPayload, rules: UserRules): User {
    u.(email := p.email.Over(u.email), firstName := p.firstName.Over(u.firstName),
       lastName := p.lastName.Over(u.lastName), phone := p.phone.OverNull(u.phone),
       password := PasswordOf(p, rules, u.password), roles := RolesOf(p, u.roles))
  }

  /** `list`: `findAll()`, every user. */
  function List(s: Store): (r: Reply<seq<Row<User>>>)
    ensures r.Success? && r.status == 200 && r.data.Some?
    ensures forall x :: x in r.data.value <==> x in s.users
    ensures |r.data.value| == |s.users|
  {
    Found(s.users)
  }

  function Show(s: Store, id: nat): (r: Reply<User>)
    ensures r.Success? <==> id in Ids(s.users)
    ensures r.Success? ==> r.data == Find(s.users, id)
    ensures r.Failure? ==> r == NotFound("User")
  {
    ShowRow(s.users, id, "User")
  }

  /** `create`: 400 on a falsy body; 400 with the violations; then the flush,
      which throws when no password was given and the new user has none. */
  function Create(s: Store, body: Body<UserPayload>, rules: UserRules): (o: Outcome<Row<User>>)
    ensures o.Replied? && o.reply.status == 201 <==>
              body.Decoded? && |rules.violations(Build(body.payload, rules))| == 0 && Persistable(Build(body.payload, rules))
    ensures o.Threw? <==>
              body.Decoded? && |rules.violations(Build(body.payload, rules))| == 0 && !Persistable(Build(body.payload, rules))
    ensures o.Threw? ==> o.ex == NotNullViolation("user.password")
    ensures o.Replied? && o.reply.status != 201 ==> o.store == s && o.reply.Failure? && o.reply.status == 400
    ensures o.Replied? && o.reply.status == 201 ==>
              && o.reply.Success? && o.reply.data.Some? && o.reply.data.value.id == s.next
              && var u := o.reply.data.value.val;
              && u == Build(body.payload, rules)
              && (body.payload.password.IsSet() ==> u.password == Some(rules.hash(body.payload.password.value)))
              && u.email == body.payload.email.Or("")
              && o.store == s.(users := Insert(s.users, s.next, u), next := s.next + 1)
  {
    match body
    case Falsy => Replied(s, InvalidJson())
    case Decoded(p) =>
      var u := Build(p, rules);
      var vs := rules.violations(u);
      if |vs| > 0 then Replied(s, ValidationError(vs))
      else if u.password.None? then Threw(NotNullViolation("user.password"))
      else
        Replied(s.(users := Insert(s.users, s.next, u), next := s.next + 1),
                Created("User created successfully", Row(s.next, u)))
  }

  /** A body without a password still creates the user when the new user
      already has a password, and otherwise reaches the database and fails there. */
  lemma NoPasswordThrows(s: Store, p: UserPayload, rules: UserRules)
    requires !p.password.IsSet() && rules.blank.password.None? && |rules.violations(Build(p, rules))| == 0
    ensures Create(s, Decoded(p), rules) == Threw(NotNullViolation("user.password"))
  {
  }

  lemma CreateKeepsGood(s: Store, body: Body<UserPayload>, rules: UserRules)
    requires Good(s)
    ensures var o := Create(s, body, rules); o.Replied? ==> Good(o.store)
  {
    var o := Create(s, body, rules);
    if o.Replied? && o.reply.status == 201 {
      GoodLater(s, s.next + 1);
      InsertKeyed(s.users, s.next, o.reply.data.value.val);
    }
  }

  /** `update`: 404 for an unknown id whatever the body; 400 on a falsy body;
      400 with the violations; otherwise the patched user replaces the old one. */
  function Update(s: Store, id: nat, body: Body<UserPayload>, rules: UserRules): (o: Outcome<Row<User>>)
    ensures o.Replied?
    ensures id !in Ids(s.users) ==> o.reply == NotFound("User")
    ensures o.reply.status == 200 <==>
              id in Ids(s.users) && body.Decoded? && |rules.violations(Patch(Find(s.users, id).value, body.payload, rules))| == 0
    ensures o.reply.status != 200 ==> o.store == s && o.reply.Failure?
    ensures o.reply.status == 200 ==>
              && Find(o.store.users, id) == Some(Patch(Find(s.users, id).value, body.payload, rules))
              && SameExcept(o.store.users, s.users, id)
              && o.store.(users := s.users) == s
  {
    match Find(s.users, id)
    case None => Replied(s, NotFound("User"))
    case Some(current) =>
      match body
      case Falsy => Replied(s, InvalidJson())
      case Decoded(p) =>
        var u := Patch(current, p, rules);
        var vs := rules.violations(u);
        if |vs| > 0 then Replied(s, ValidationError(vs))
        else
          UpdateFind(s.users, id, u, id);
          UpdateSameExcept(s.users, id, u);
          Replied(s.(users := Table.Update(s.users, id, u)), Done("User updated successfully"))
  }

  /** An update without a password keeps the stored hash; one with a password
      stores its hash. Roles change only for a JSON array. */
  lemma PatchPassword(u: User, p: UserPayload, rules: UserRules)
    ensures !p.password.IsSet() ==> Patch(u, p, rules).password == u.password
    ensures p.password.IsSet() ==> Patch(u, p, rules).password == Some(rules.hash(p.password.value))
    ensures !(p.roles.Given? && p.roles.value.List?) ==> Patch(u, p, rules).roles == u.roles
    ensures Patch(u, p, rules).createdAt == u.createdAt
  {
  }

  /** Patching keeps a user persistable: an update can never clear the password. */
  lemma PatchKeepsPersistable(u: User, p: UserPayload, rules: UserRules)
    requires Persistable(u)
    ensures Persistable(Patch(u, p, rules))
  {
  }

  lemma UpdateKeepsGood(s: Store, id: nat, body: Body<UserPayload>, rules: UserRules)
    requires Good(s)
    ensures Good(Update(s, id, body, rules).store)
  {
    var o := Update(s, id, body, rules);
    if o.reply.status == 200 {
      UpdateKeyed(s.users, s.next, id, Patch(Find(s.users, id).value, body.payload, rules));
    }
  }

  /** `delete`: removes the user only. Appointments, quotes and activities that
      name the user keep the dangling id, since the database does not enforce
      the foreign keys. */
  function Delete(s: Store, id: nat): (o: Outcome<Row<User>>)
    ensures o.Replied?
    ensures id !in Ids(s.users) ==> o == Replied(s, NotFound("User"))
    ensures id in Ids(s.users) ==>
              && o.reply == Done("User deleted successfully")
              && Ids(o.store.users) == Ids(s.users) - {id}
              && (forall x :: x in o.store.users <==> x in s.users && x.id != id)
              && o.store.(users := s.users) == s
  {
    if Find(s.users, id).None? then Replied(s, NotFound("User"))
    else Replied(s.(users := Table.Delete(s.users, id)), Done("User deleted successfully"))
  }

  lemma DeleteKeepsGood(s: Store, id: nat)
    requires Good(s)
    ensures Good(Delete(s, id).store)
  {
    DeleteBelow(s.users, id, s.next);
  }

  /** Creating a user and deleting it again leaves the store as it was, but
      for the id counter. */
  lemma CreateThenDelete(s: Store, body: Body<UserPayload>, rules: UserRules)
    requires Good(s)
    requires Create(s, body, rules).Replied? && Create(s, body, rules).reply.status == 201
    ensures Delete(Create(s, body, rules).store, s.next) == Replied(s.(next := s.next + 1), Done("User deleted successfully"))
  {
    var o := Create(s, body, rules);
    assert s.next !in Ids(s.users);
    DeleteInserted(s.users, s.next, o.reply.data.value.val);
  }
}

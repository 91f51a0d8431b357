/** The User entity as far as the user actions touch it. Its class and its
    validation constraints are not part of this model: the actions receive the
    freshly constructed user, the validator and the password hasher as parameters. */
module UserEntity {

  import opened Wrappers
  import opened Validation

  datatype User = User(
    email: string,
    firstName: string,
    lastName: string,
    phone: Option<string>,
    password: Option<string>,
    roles: seq<string>,
    createdAt: int)

  /** What the user actions depend on but cannot see: the state `new User()`
      leaves, the validator's verdict, and `hashPassword`. */
  datatype UserRules = UserRules(
    blank: User,
    violations: User -> seq<Violation>,
    hash: string -> string)

  /** The `password` column is NOT NULL. */
  predicate Persistable(u: User) {
    u.password.Some?
  }
}

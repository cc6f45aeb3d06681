/** The user record, the HTTP responses the user views return, and the
    admin permission gate that guards the admin endpoints. */
module Users {

  datatype Option<+T> = None | Some(value: T)

  /** A row of the user table. `createdAt` is the creation timestamp the
      admin listing orders by, as an abstract integer clock value. The
      password hash is never read by the modelled views and is left out. */
  datatype User = User(
    pk: int,
    username: string,
    email: string,
    firstName: string,
    lastName: string,
    isActive: bool,
    isStaff: bool,
    isSuperuser: bool,
    createdAt: int)

  /** The permission gate of the admin views: the framework's admin check,
      which asks for staff status and nothing else. */
  predicate IsAdminUser(caller: User) {
    caller.isStaff
  }

  const HTTP_200_OK: int := 200
  const HTTP_400_BAD_REQUEST: int := 400
  const HTTP_403_FORBIDDEN: int := 403

  /** The JSON body of a response: `{'message': ...}`, `{'error': ...}`, or
      the admin listing `{'count': ..., 'users': [...]}`. */
  datatype Body =
    | Message(message: string)
    | Error(error: string)
    | UserList(count: int, users: seq<User>)

  datatype Response = Response(status: int, body: Body)

  /** A table keyed by primary key: every row sits under its own pk. */
  ghost predicate WellKeyed(table: map<int, User>) {
    forall k :: k in table ==> table[k].pk == k
  }
}

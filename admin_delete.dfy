/** The admin delete endpoint: a guarded removal of one row from the shared
    user table, which refuses self-deletion and superuser deletion and turns
    every failure, including a missing target, into a generic 400. */
module AdminDelete {
  import opened Users
  import AdminList

  const SELF_DELETE_ERROR: string := "You cannot delete your own account."
  const SUPERUSER_DELETE_ERROR: string := "Superusers can only be deleted via Django admin."
  const DELETE_FAILED_ERROR: string := "Failed to delete user."

  /** The success message, naming the username read before the row went. */
  function DeletedMessage(username: string): string {
    "User " + username + " has been deleted."
  }

  /** The two safety checks of the delete endpoint, in their order: the
      self-deletion refusal first, the superuser refusal second. `None`
      means both checks pass and the row may be removed. */
  function DeleteGuard(target: User, caller: User): (r: Option<Response>)
    ensures r.None? <==> target.pk != caller.pk && !target.isSuperuser
    ensures target.pk == caller.pk ==>
      r == Some(Response(HTTP_403_FORBIDDEN, Error(SELF_DELETE_ERROR)))
    ensures target.pk != caller.pk && target.isSuperuser ==>
      r == Some(Response(HTTP_403_FORBIDDEN, Error(SUPERUSER_DELETE_ERROR)))
    ensures r.Some? ==> r.value.status == HTTP_403_FORBIDDEN
  {
    if target.pk == caller.pk then
      Some(Response(HTTP_403_FORBIDDEN, Error(SELF_DELETE_ERROR)))
    else if target.isSuperuser then
      Some(Response(HTTP_403_FORBIDDEN, Error(SUPERUSER_DELETE_ERROR)))
    else
      None
  }

  /** A superuser admin who targets their own row is told they cannot delete
      their own account: the self check runs first. */
  lemma SelfCheckComesFirst(admin: User)
    requires IsAdminUser(admin) && admin.isSuperuser
    ensures DeleteGuard(admin, admin) == Some(Response(HTTP_403_FORBIDDEN, Error(SELF_DELETE_ERROR)))
  {
  }

  /** The user table shared by the admin views, keyed by primary key. */
  class UserStore {
    var table: map<int, User>

    ghost predicate Valid()
      reads this
    {
      WellKeyed(table)
    }

    constructor (initial: map<int, User>)
      requires WellKeyed(initial)
      ensures Valid() && table == initial
    {
      table := initial;
    }

    /** `get_object` by primary key. */
    function GetObject(pk: int): (r: Option<User>)
      reads this
      requires Valid()
      ensures r.Some? <==> exists u :: u in table.Values && u.pk == pk
      ensures r.Some? ==> r.value in table.Values && r.value.pk == pk
    {
      if pk in table then
        assert table[pk] in table.Values;
        Some(table[pk])
      else
        assert forall u :: u in table.Values ==> u.pk != pk by {
          forall u | u in table.Values ensures u.pk != pk {
            AdminList.KeyOfValue(table, u);
          }
        }
        None
    }

    /** `perform_destroy`: removes exactly the row of `instance`. */
    method PerformDestroy(instance: User)
      requires Valid()
      modifies this
      ensures Valid()
      ensures table == old(table) - {instance.pk}
    {
      table := table - {instance.pk};
    }

    /** `destroy` on the row with primary key `pk`, called by `caller`, who
        has passed the admin permission gate. */
    method Destroy(caller: User, pk: int) returns (resp: Response)
      requires Valid() && IsAdminUser(caller)
      modifies this
      ensures Valid()
      // a failed lookup lands in the catch-all handler
      ensures pk !in old(table) ==>
        resp == Response(HTTP_400_BAD_REQUEST, Error(DELETE_FAILED_ERROR)) && table == old(table)
      // the caller's own row
      ensures pk in old(table) && pk == caller.pk ==>
        resp == Response(HTTP_403_FORBIDDEN, Error(SELF_DELETE_ERROR)) && table == old(table)
      // somebody else's superuser row
      ensures pk in old(table) && pk != caller.pk && old(table)[pk].isSuperuser ==>
        resp == Response(HTTP_403_FORBIDDEN, Error(SUPERUSER_DELETE_ERROR)) && table == old(table)
      // both guards pass: exactly that row goes
      ensures pk in old(table) && pk != caller.pk && !old(table)[pk].isSuperuser ==>
        resp == Response(HTTP_200_OK, Message(DeletedMessage(old(table)[pk].username)))
        && table == old(table) - {pk}
      // the table changes exactly when the response is a success
      ensures resp.status == HTTP_200_OK <==> table != old(table)
      // no row is ever added or altered
      ensures table.Keys <= old(table).Keys
      ensures forall k :: k in table ==> table[k] == old(table)[k]
    {
      var found := GetObject(pk);
      if found.None? {
        return Response(HTTP_400_BAD_REQUEST, Error(DELETE_FAILED_ERROR));
      }
      var instance := found.value;
      var refusal := DeleteGuard(instance, caller);
      if refusal.Some? {
        return refusal.value;
      }
      var username := instance.username;
      PerformDestroy(instance);
      assert pk in old(table) && pk !in table;
      return Response(HTTP_200_OK, Message(DeletedMessage(username)));
    }
  }

  /** After a successful delete of `pk`, no listing shows that user any more,
      and every other user the listing showed before is still shown. */
  lemma {:induction false} DeletedUserLeavesListing(table: map<int, User>, pk: int, search: Option<string>)
    requires WellKeyed(table)
    ensures WellKeyed(table - {pk})
    ensures forall u :: u in AdminList.ListUsers(table - {pk}, search).body.users ==> u.pk != pk
    ensures forall u :: u in AdminList.ListUsers(table, search).body.users && u.pk != pk ==>
      u in AdminList.ListUsers(table - {pk}, search).body.users
  {
    var after := table - {pk};
    forall u | u in AdminList.ListUsers(after, search).body.users ensures u.pk != pk {
      AdminList.KeyOfValue(after, u);
      var k :| k in after && after[k] == u;
    }
    forall u | u in AdminList.ListUsers(table, search).body.users && u.pk != pk
      ensures u in AdminList.ListUsers(after, search).body.users
    {
      AdminList.KeyOfValue(table, u);
      var k :| k in table && table[k] == u;
      assert k in after && after[k] == u;
    }
  }
}

/** The admin user listing: every user ordered newest first by creation
    time, optionally narrowed by a search term matched case-insensitively
    against username, email, first name and last name. */
module AdminList {
  import opened Users
  import opened Text

  /** Newest first: creation times never increase along the sequence. */
  ghost predicate Descending(us: seq<User>) {
    forall i, j :: 0 <= i < j < |us| ==> us[i].createdAt >= us[j].createdAt
  }

  /** No two users of the sequence share a primary key. */
  ghost predicate DistinctPks(us: seq<User>) {
    forall i, j :: 0 <= i < j < |us| ==> us[i].pk != us[j].pk
  }

  /** The primary keys of the users of a sequence. */
  ghost function PkSet(us: seq<User>): set<int>
    decreases |us|
  {
    if us == [] then {} else {us[0].pk} + PkSet(us[1..])
  }

  lemma {:induction false} PkSetMembership(us: seq<User>, k: int)
    ensures k in PkSet(us) <==> exists i :: 0 <= i < |us| && us[i].pk == k
    decreases |us|
  {
    if us != [] {
      PkSetMembership(us[1..], k);
      if exists i :: 0 <= i < |us| && us[i].pk == k {
        var i :| 0 <= i < |us| && us[i].pk == k;
        if i > 0 {
          assert us[1..][i - 1].pk == k;
        }
      }
      if exists i :: 0 <= i < |us[1..]| && us[1..][i].pk == k {
        var i :| 0 <= i < |us[1..]| && us[1..][i].pk == k;
        assert us[i + 1].pk == k;
      }
    }
  }

  /** `a` is obtained from `b` by deleting elements, keeping the order. */
  predicate IsSubsequence<T(==)>(a: seq<T>, b: seq<T>)
    decreases |b|
  {
    if a == [] then true
    else if b == [] then false
    else (a[0] == b[0] && IsSubsequence(a[1..], b[1..])) || IsSubsequence(a, b[1..])
  }

  /** `k` is a key of `table` whose user was created no earlier than any other. */
  ghost predicate IsNewest(table: map<int, User>, k: int) {
    k in table && forall j :: j in table ==> table[j].createdAt <= table[k].createdAt
  }

  lemma SomeKey(table: map<int, User>)
    requires table != map[]
    ensures exists k :: k in table
  {
    if forall k :: k !in table {
      assert false;
    }
  }

  lemma KeyOfValue(table: map<int, User>, u: User)
    requires u in table.Values
    ensures exists k :: k in table && table[k] == u
  {
    if forall k :: k in table ==> table[k] != u {
      assert false;
    }
  }

  lemma {:induction false} NewestExists(table: map<int, User>)
    requires table != map[]
    ensures exists k :: IsNewest(table, k)
    decreases |table|
  {
    SomeKey(table);
    var k0 :| k0 in table;
    var rest := table - {k0};
    assert rest.Keys == table.Keys - {k0};
    if forall j :: j in table ==> j == k0 {
      assert IsNewest(table, k0);
    } else {
      var j1 :| j1 in table && j1 != k0;
      assert j1 in rest;
      assert |rest.Keys| < |table.Keys|;
      NewestExists(rest);
      var k1 :| IsNewest(rest, k1);
      forall j | j in table ensures j == k0 || j in rest {
      }
      if table[k0].createdAt <= table[k1].createdAt {
        assert IsNewest(table, k1);
      } else {
        assert IsNewest(table, k0);
      }
    }
  }

  /** The table's primary keys in `order_by('-created_at')` order, newest
      first. Among users created at the same time the order is an
      unspecified choice, as it is for the database. */
  ghost function OrderedPks(table: map<int, User>): (ks: seq<int>)
    ensures table != map[] ==> |ks| > 0 && IsNewest(table, ks[0])
    ensures table == map[] ==> ks == []
    decreases |table|
  {
    if table == map[] then []
    else
      NewestExists(table);
      var k :| IsNewest(table, k);
      assert (table - {k}).Keys == table.Keys - {k};
      [k] + OrderedPks(table - {k})
  }

  /** The ordering lists every key of the table exactly once. */
  lemma {:induction false} OrderedPksArePks(table: map<int, User>)
    ensures |OrderedPks(table)| == |table|
    ensures forall i :: 0 <= i < |OrderedPks(table)| ==> OrderedPks(table)[i] in table
    ensures forall k :: k in table ==> k in OrderedPks(table)
    ensures forall i, j :: 0 <= i < j < |OrderedPks(table)| ==> OrderedPks(table)[i] != OrderedPks(table)[j]
    decreases |table|
  {
    if table != map[] {
      var ks := OrderedPks(table);
      var k := ks[0];
      var rest := table - {k};
      assert rest.Keys == table.Keys - {k};
      assert ks[1..] == OrderedPks(rest);
      OrderedPksArePks(rest);
      assert forall j :: j in table ==> j == k || j in rest;
      assert forall i :: 1 <= i < |ks| ==> ks[i] == ks[1..][i - 1];
    }
  }

  /** The ordering is newest first. */
  lemma {:induction false} OrderedPksNewestFirst(table: map<int, User>)
    ensures forall i :: 0 <= i < |OrderedPks(table)| ==> OrderedPks(table)[i] in table
    ensures forall i, j :: 0 <= i < j < |OrderedPks(table)| ==>
      table[OrderedPks(table)[i]].createdAt >= table[OrderedPks(table)[j]].createdAt
    decreases |table|
  {
    OrderedPksArePks(table);
    if table != map[] {
      var ks := OrderedPks(table);
      var k := ks[0];
      var rest := table - {k};
      assert rest.Keys == table.Keys - {k};
      assert ks[1..] == OrderedPks(rest);
      OrderedPksNewestFirst(rest);
      assert IsNewest(table, k);
      forall i, j | 0 <= i < j < |ks|
        ensures table[ks[i]].createdAt >= table[ks[j]].createdAt
      {
        if i > 0 {
          assert ks[i] == ks[1..][i - 1] && ks[j] == ks[1..][j - 1];
        }
      }
    }
  }

  /** `User.objects.all().order_by('-created_at')`: every user of the table,
      once each, newest first. */
  ghost function AllUsers(table: map<int, User>): (us: seq<User>)
    ensures |us| == |table|
    ensures forall u :: u in us <==> u in table.Values
    ensures Descending(us)
    ensures WellKeyed(table) ==> DistinctPks(us)
  {
    OrderedPksArePks(table);
    OrderedPksNewestFirst(table);
    var ks := OrderedPks(table);
    var us := seq(|ks|, i requires 0 <= i < |ks| => table[ks[i]]);
    assert forall u :: u in table.Values ==> u in us by {
      forall u | u in table.Values ensures u in us {
        KeyOfValue(table, u);
        var k :| k in table && table[k] == u;
        var i :| 0 <= i < |ks| && ks[i] == k;
        assert us[i] == u;
      }
    }
    us
  }

  /** The search predicate: the term occurs, ignoring case, in the username,
      the email, the first name or the last name. */
  predicate Matches(u: User, term: string) {
    IContains(u.username, term) || IContains(u.email, term)
    || IContains(u.firstName, term) || IContains(u.lastName, term)
  }

  /** Every user matches the empty term, and the case of the term does not
      matter. */
  lemma MatchesIgnoresCase(u: User, term: string)
    ensures Matches(u, "")
    ensures Matches(u, Upper(term)) == Matches(u, term)
    ensures Matches(u, Lower(term)) == Matches(u, term)
  {
    EmptyNeedleEverywhere(u.username);
    IContainsIgnoresCase(u.username, term);
    IContainsIgnoresCase(u.email, term);
    IContainsIgnoresCase(u.firstName, term);
    IContainsIgnoresCase(u.lastName, term);
  }

  /** The queryset filter: the users that match, in their original order. */
  function Filter(us: seq<User>, term: string): (r: seq<User>)
    ensures forall i :: 0 <= i < |r| ==> Matches(r[i], term)
    ensures IsSubsequence(r, us)
    decreases |us|
  {
    if us == [] then []
    else if Matches(us[0], term) then [us[0]] + Filter(us[1..], term)
    else Filter(us[1..], term)
  }

  /** A search term is applied only when it is present and non-empty. */
  predicate SearchGiven(search: Option<string>) {
    search.Some? && search.value != ""
  }

  /** The keys of the rows the search keeps: every key when no term is given. */
  ghost function MatchingPks(table: map<int, User>, search: Option<string>): set<int> {
    set k | k in table && (SearchGiven(search) ==> Matches(table[k], search.value))
  }

  /** `get_queryset` followed by `list`: the 200 response with the ordered,
      possibly filtered users and their count. */
  ghost function ListUsers(table: map<int, User>, search: Option<string>): (r: Response)
    requires WellKeyed(table)
    ensures r.status == HTTP_200_OK && r.body.UserList?
    ensures r.body.count == |r.body.users|
    ensures r.body.count == |MatchingPks(table, search)|
    ensures DistinctPks(r.body.users)
    ensures forall u :: u in r.body.users <==>
      (u in table.Values && (SearchGiven(search) ==> Matches(u, search.value)))
    ensures Descending(r.body.users)
    ensures IsSubsequence(r.body.users, AllUsers(table))
    ensures !SearchGiven(search) ==> r.body.users == AllUsers(table)
  {
    var all := AllUsers(table);
    if SearchGiven(search) then
      var users := Filter(all, search.value);
      FilterMembership(all, search.value);
      SubsequenceDescending(users, all);
      SubsequenceDistinct(users, all);
      CountMatchingRows(table, search, users);
      Response(HTTP_200_OK, UserList(|users|, users))
    else
      SubsequenceReflexive(all);
      CountMatchingRows(table, search, all);
      Response(HTTP_200_OK, UserList(|all|, all))
  }

  /** A sequence of users with distinct keys is as long as its set of keys. */
  lemma {:induction false} DistinctPksCount(us: seq<User>)
    requires DistinctPks(us)
    ensures |us| == |PkSet(us)|
    decreases |us|
  {
    if us != [] {
      var tail := us[1..];
      assert DistinctPks(tail);
      DistinctPksCount(tail);
      PkSetMembership(tail, us[0].pk);
      forall m | 0 <= m < |tail| ensures tail[m].pk != us[0].pk {
        assert tail[m] == us[m + 1];
      }
      assert us[0].pk !in PkSet(tail);
    }
  }

  /** A listing holding exactly the kept rows, once each, has as many users as
      there are kept keys. */
  lemma CountMatchingRows(table: map<int, User>, search: Option<string>, users: seq<User>)
    requires WellKeyed(table) && DistinctPks(users)
    requires forall u :: u in users <==>
      (u in table.Values && (SearchGiven(search) ==> Matches(u, search.value)))
    ensures |users| == |MatchingPks(table, search)|
  {
    DistinctPksCount(users);
    forall k | k in MatchingPks(table, search) ensures k in PkSet(users) {
      assert table[k] in table.Values;
      assert table[k] in users;
      var i :| 0 <= i < |users| && users[i] == table[k];
      PkSetMembership(users, k);
    }
    forall k | k in PkSet(users) ensures k in MatchingPks(table, search) {
      PkSetMembership(users, k);
      var i :| 0 <= i < |users| && users[i].pk == k;
      assert users[i] in users;
      KeyOfValue(table, users[i]);
    }
    assert PkSet(users) == MatchingPks(table, search);
  }

  /** A subsequence of a list with distinct keys has distinct keys. */
  lemma {:induction false} SubsequenceDistinct(a: seq<User>, b: seq<User>)
    requires IsSubsequence(a, b) && DistinctPks(b)
    ensures DistinctPks(a)
    decreases |b|
  {
    if a != [] {
      assert DistinctPks(b[1..]);
      if a[0] == b[0] && IsSubsequence(a[1..], b[1..]) {
        SubsequenceDistinct(a[1..], b[1..]);
        SubsequenceElements(a[1..], b[1..]);
        forall j | 1 <= j < |a| ensures a[0].pk != a[j].pk {
          assert a[j] in a[1..];
          var m :| 0 <= m < |b[1..]| && b[1..][m] == a[j];
          assert b[m + 1] == a[j];
        }
        forall i, j | 0 <= i < j < |a| ensures a[i].pk != a[j].pk {
          if i > 0 {
            assert a[i] == a[1..][i - 1] && a[j] == a[1..][j - 1];
          }
        }
      } else {
        SubsequenceDistinct(a, b[1..]);
      }
    }
  }

  /** A user survives the filter exactly when it was in the input and matches. */
  lemma {:induction false} FilterMembership(us: seq<User>, term: string)
    ensures forall u :: u in Filter(us, term) <==> (u in us && Matches(u, term))
    decreases |us|
  {
    if us != [] {
      FilterMembership(us[1..], term);
      assert us == [us[0]] + us[1..];
    }
  }

  /** The filter never returns more users than it was given. */
  lemma {:induction false} FilterShrinks(us: seq<User>, term: string)
    ensures |Filter(us, term)| <= |us|
    decreases |us|
  {
    if us != [] {
      FilterShrinks(us[1..], term);
    }
  }

  /** The empty term keeps every user, in order. */
  lemma {:induction false} FilterEmptyTerm(us: seq<User>)
    ensures Filter(us, "") == us
    decreases |us|
  {
    if us != [] {
      EmptyNeedleEverywhere(us[0].username);
      FilterEmptyTerm(us[1..]);
    }
  }

  lemma {:induction false} SubsequenceReflexive<T>(s: seq<T>)
    ensures IsSubsequence(s, s)
    decreases |s|
  {
    if s != [] {
      SubsequenceReflexive(s[1..]);
    }
  }

  lemma {:induction false} SubsequenceElements<T>(a: seq<T>, b: seq<T>)
    requires IsSubsequence(a, b)
    ensures forall x :: x in a ==> x in b
    decreases |b|
  {
    if a != [] {
      if a[0] == b[0] && IsSubsequence(a[1..], b[1..]) {
        SubsequenceElements(a[1..], b[1..]);
        assert a == [a[0]] + a[1..];
      } else {
        SubsequenceElements(a, b[1..]);
      }
    }
  }

  /** Keeping order: a subsequence of a newest-first list is newest first. */
  lemma {:induction false} SubsequenceDescending(a: seq<User>, b: seq<User>)
    requires IsSubsequence(a, b) && Descending(b)
    ensures Descending(a)
    decreases |b|
  {
    if a != [] {
      assert Descending(b[1..]);
      if a[0] == b[0] && IsSubsequence(a[1..], b[1..]) {
        SubsequenceDescending(a[1..], b[1..]);
        SubsequenceElements(a[1..], b[1..]);
        forall j | 1 <= j < |a| ensures a[0].createdAt >= a[j].createdAt {
          assert a[j] in a[1..];
          var m :| 0 <= m < |b[1..]| && b[1..][m] == a[j];
          assert b[m + 1] == a[j];
        }
      } else {
        SubsequenceDescending(a, b[1..]);
      }
    }
  }
}

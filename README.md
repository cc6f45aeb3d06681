# Admin user management and logout guard of the users API

This project models the two pieces of original logic in the users API of a
username/password authentication backend (`backend/users/views.py`), plus
the one guard of its logout endpoint, and proves their properties in Dafny.

- **Admin user deletion** (`AdminUserDetailView.destroy`). The user table
  is a `map<int, User>` keyed by primary key, held by the class
  `AdminDelete.UserStore`. `Destroy` looks the target up. A missing target
  falls into the catch-all handler and gets 400 "Failed to delete user.".
  Deleting one's own account is refused with 403. That check runs first,
  so a superuser admin deleting themselves gets the self-deletion error.
  Deleting another superuser is refused with 403. Otherwise exactly that
  row is removed, and the 200 message names the username read before the
  delete. The table changes exactly when the response is 200, and no row is
  ever added or altered.
- **Admin user listing and search** (`AdminUserListView.get_queryset` and
  `list`). `AllUsers` is `User.objects.all().order_by('-created_at')`: every
  row once, newest first. When a search term is present and non-empty,
  `Filter` keeps the users for whom the term occurs, ignoring case, in the
  username, email, first name or last name. A user is in the result exactly
  when they are in the table and match. No user appears twice, and the
  result is newest first. The response `count` is the number of users
  returned, which is also the number of table rows that match. Without a
  term, or with the empty term, the result is the whole ordered list. The
  model also proves that the filtered listing is a subsequence of the
  unfiltered one. That holds for one fixed order among users created at
  the same time. The source runs the two listings as separate queries, so
  for the database it holds only when creation times are pairwise distinct.
- **Logout guard** (`LogoutView.post`). A missing or empty `refresh` value
  gives 400 "Refresh token is required.", and no token is handed to the
  token library. Otherwise the token library's outcome is a parameter:
  blacklisted gives 200, the library's token error gives 400 "Invalid or
  expired token.", and any other error gives 400 "Logout failed. Please try
  again.".

The admin permission gate is the framework's admin check. It grants access
on staff status alone ("requires staff status", views.py:256 and 325), and
is the predicate `Users.IsAdminUser`, a precondition of `Destroy`.

Case-insensitive matching (`icontains`) is modelled as substring search
after lowercasing ASCII letters (`Text.IContains`). `Text.Contains` is a
recursive substring test. `Text.ContainsIffOccurs` proves that it agrees
with the positional definition.

The docstring of the admin detail view (views.py:330-336) promises
"204 No Content" for a deletion and "404 Not Found" for a missing user. The
code answers otherwise, and the model follows the code:
- A successful delete answers 200 with a message (views.py:393-396).
- A failed lookup answers 400 "Failed to delete user." (views.py:398-403).
  The not-found exception raised by `get_object` (views.py:372) is caught
  by the view's `except Exception` handler.

Files: `users.dfy` (user record, responses, admin gate), `text.dfy` (case
folding and substring search), `admin_list.dfy` (ordering and search),
`admin_delete.dfy` (the user table and guarded delete), `logout.dfy` (logout
guard).

## Model

| member | source | states |
|---|---|---|
| `Text.ContainsIffOccurs` | backend/users/views.py:287-290 | the recursive substring test holds exactly when the term occurs at some position of the text |
| `Text.IContainsIgnoresCase` | backend/users/views.py:287-290 | whether a term matches does not change when the text or the term is upper- or lower-cased |
| `Text.IContains` | backend/users/views.py:287-290 | the `icontains` lookup: the ASCII-lowercased term occurs at some position of the ASCII-lowercased field |
| `AdminList.Matches` | backend/users/views.py:286-291 | the OR of the four `Q(...)` lookups: the term occurs, ignoring case, in the username, the email, the first name or the last name |
| `AdminList.MatchesIgnoresCase` | backend/users/views.py:286-291 | every user matches the empty term, and upper- or lower-casing the term never changes whether a user matches |
| `AdminList.SearchGiven` | backend/users/views.py:283-285 | `if search:`: the filter applies only when the `search` parameter is present and non-empty |
| `AdminList.OrderedPks` | backend/users/views.py:282 | `order_by('-created_at')` as a choice of key: the first key of a non-empty table belongs to a newest user, and an empty table gives no keys |
| `AdminList.OrderedPksArePks` | backend/users/views.py:282 | the ordering lists every primary key of the table exactly once and nothing else |
| `AdminList.OrderedPksNewestFirst` | backend/users/views.py:282 | along the ordering, creation times never increase |
| `AdminList.AllUsers` | backend/users/views.py:282 | the unfiltered queryset holds exactly the table's users, one per row, newest first |
| `AdminList.Filter` | backend/users/views.py:285-291 | every user the search keeps matches the term in one of the four fields, and the kept users are a subsequence of the input |
| `AdminList.FilterMembership` | backend/users/views.py:286-291 | a user survives the search exactly when they were in the input and the term occurs case-insensitively in their username, email, first name or last name |
| `AdminList.FilterShrinks` | backend/users/views.py:286-291 | the search never returns more users than it was given |
| `AdminList.FilterEmptyTerm` | backend/users/views.py:285-291 | matching with the empty term would keep every user in order, so skipping the filter for an empty term loses nothing |
| `AdminList.SubsequenceDescending` | backend/users/views.py:282-291 | filtering a newest-first list keeps it newest first |
| `AdminList.SubsequenceDistinct` | backend/users/views.py:282-291 | filtering a list with distinct primary keys keeps the keys distinct |
| `AdminList.CountMatchingRows` | backend/users/views.py:304 | a listing holding exactly the matching rows, once each, is as long as the set of matching keys, the number `queryset.count()` reports |
| `AdminList.ListUsers` | backend/users/views.py:282-306 | status 200; count equals the number of users and the number of matching table rows; no user twice; a user is listed iff in the table and, when a non-empty term is given, matching it; newest first; a subsequence of the unfiltered list for the model's fixed tie order; with no term or an empty term, the whole unfiltered list |
| `AdminDelete.DeleteGuard` | backend/users/views.py:374-386 | both checks pass iff the target is not the caller and not a superuser; the caller's own row gets the self-deletion 403 whatever its flags; another superuser gets the superuser 403 |
| `AdminDelete.SelfCheckComesFirst` | backend/users/views.py:375-386 | a superuser admin targeting themselves gets the self-deletion error, not the superuser error |
| `AdminDelete.UserStore.GetObject` | backend/users/views.py:372 | the lookup by primary key succeeds exactly when some row of the table has that primary key, and then returns a row of the table with that key |
| `AdminDelete.UserStore.PerformDestroy` | backend/users/views.py:389 | removes exactly the instance's row |
| `AdminDelete.UserStore.Destroy` | backend/users/views.py:369-403 | missing target: 400 "Failed to delete user.", table unchanged; own row: 403, unchanged; another superuser: 403, unchanged; otherwise that row alone is removed and the 200 message names its username; the table changes iff the status is 200; no row is added or altered |
| `AdminDelete.DeletedUserLeavesListing` | backend/users/views.py:282-291 | after a row is removed, no listing shows that user, and every other user a listing showed before is still shown |
| `Users.IsAdminUser` | backend/users/views.py:274 | the admin permission gate of both admin views: the caller has staff status |
| `Logout.RefreshMissing` | backend/users/views.py:183-185 | `if not refresh_token:`: the `refresh` value is absent or the empty string |
| `Logout.Post` | backend/users/views.py:182-216 | a missing or empty refresh value gives 400 "Refresh token is required." and hands no token to the token library; "required" is given iff the value is missing; a supplied value is the one handed over; 200 iff a value is supplied and blacklisting succeeds |
| `Logout.MissingRefreshIgnoresTokenLibrary` | backend/users/views.py:183-189 | with no refresh value the response does not depend on the token library at all |

## Left out

- Registration (`RegisterView.create`): its validation and password hashing belong to a serializer that is not part of this model.
- Admin update (`AdminUserDetailView.update`): its partial-update semantics belong to a serializer that is not part of this model.
- Login, token refresh and blacklisting: foreign library calls and cryptography. The blacklisting outcome is a parameter of `Logout.Post`.
- The profile and health-check views: they return the caller's record and a constant response.
- The internals of the framework's authentication and admin permission checks: the admin gate is the predicate `IsAdminUser`, a precondition of `Destroy`.
- Logging, response rendering and the serializers' field selection: a listing returns the user records themselves.
- The URL routing table in `backend/users/urls.py`.
- `AdminList.Matches`: database collation and Unicode case folding are not modelled; only ASCII letters are case-folded.
- `AdminList.OrderedPks`: among users with equal creation times the database order is unspecified, and may differ between the filtered and the unfiltered query. The model makes one fixed choice. The subsequence clause of `AdminList.ListUsers` depends on that choice, so for the database it holds only when creation times are pairwise distinct. The membership, count and newest-first clauses hold whatever the order among ties.
- `AdminDelete.UserStore.Destroy`: exceptions other than a failed lookup (a database error inside the delete) are not modelled; the source turns them into the same generic 400.
- `AdminList.ListUsers`: the 500 response for a database error during listing is not modelled.
- `Logout.Post`: a request body that is not a mapping, or a non-string `refresh` value, is not modelled; the field is an optional string.
- Concurrent requests on the same user table: each operation is one atomic step.

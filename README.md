# Employee records API: a verified model

This project models the core of a small FastAPI service that keeps employee
records behind a stub login. It has three parts:

- **The employee repository** (`app/crud.py` over the tables of
  `app/models.py`). It is a table of rows in which the id is the primary key
  and the email is unique. It supports lookup by id, a listing filtered
  exactly on department and role and then cut by offset and limit, create,
  partial update and delete.
- **The endpoint handlers** (`app/main.py`). Every employee endpoint first
  passes the token gate. Create and update reject a name that is blank after
  `strip()`. Listing turns `page` into `skip = (page - 1) * limit`, with
  `limit` bounded by 10. A missing record maps to 404.
- **The stub credential check** (`app/auth.py`). It accepts exactly one
  username/password pair and exactly one token.

Modules:

- `Http` holds the framework values: `HTTPException` plus an option type and
  a result type.
- `Text` is Python's `str.strip`.
- `Schemas` holds the request and response shapes.
- `Models` holds the two tables and their column constraints.
- `Auth`, `Crud` and `App` are the modules described above.

How the model is built:

- Every repository call ends in one of two ways: a committed new table with
  the returned row, or the unchanged (rolled-back) table with an
  `HTTPException`.
- The three writes are methods of `Crud.EmployeeStore`. Their postconditions
  tie the return value and the new `rows` to `CreateSpec`, `UpdateSpec` and
  `DeleteSpec`.
- The properties are proved as lemmas about those functions.
- `UpdateEmployee` runs the same `setattr` loop as the source, over the
  `exclude_unset` items.
- One quirk is modelled on purpose. Every IntegrityError is reported as
  "Email already exists". That includes the NOT NULL failure from an update
  that sends `name: null`, because that update skips the blank-name check
  (`Crud.UpdateNullName`).

The code stores no password hashes and issues one fixed token that never
expires. It has no superuser tier, no `search` parameter and no `order_by`.
Its filters match exactly, and `limit` is capped with `le=10`. The model
adds none of these.

The database is taken to be SQLite, the backend `app/database.py` gives
special settings. This fixes three behaviours:

- A new row's id is one more than the largest id in the table, or 1 when
  the table is empty. The table is therefore kept in ascending id order.
- A negative OFFSET counts as 0.
- A negative LIMIT means no limit.

The row order is an abstraction. The code has no `order_by`, so it does not
promise any order.

Parameters stand in for four things:

- The database clock. `date_joined` is the `now` argument of create.
- The HTTP layer. The bearer credential is an `Option<string>`, `None` when
  the request carries none.
- Form and JSON decoding. The Dafny values are the decoded values.
- The query string. `page` and `limit` are integers.

## Model

| member | source | states |
|---|---|---|
| `Text.Strip` | app/main.py:36 | `strip()` returns the contiguous piece of the string left once the whitespace at both ends is removed: everything cut off is whitespace, and the result neither starts nor ends with whitespace. It is empty exactly when every character is Python whitespace. |
| `Schemas.UpdateData` | app/schemas.py:21-25 | The `exclude_unset` items of an `EmployeeUpdate` list every sent field once, with the value sent (an explicit null included), and no unsent field. |
| `Models.InsertUser` | app/models.py:5-16 | An insert into `users` fails exactly when the username or the email is taken. Otherwise it appends one row with a fresh id, `is_active` defaulting to true, `is_superuser` to false, `created_at` set and `updated_at` null. The username, email and id stay unique. |
| `Models.AppendUser` | app/models.py:5-16 | Appending a user row with a larger id keeps the id, username and email constraints exactly when no existing row has its username or its email. |
| `Models.Flush` | app/models.py:22-23 | An employee object's attributes become a row exactly when name and email are non-null (the NOT NULL constraints). The row keeps the id and `date_joined`. |
| `Models.NextEmployeeId` | app/models.py:21 | The id a new employee row gets is larger than every id in the table, so it is fresh. |
| `Auth.AuthenticateUser` | app/auth.py:6-9 | Succeeds exactly for username "admin" with password "password" and then returns the principal `{"username": "admin"}`. Every other pair is rejected. |
| `Auth.CreateAccessToken` | app/auth.py:11-12 | Whatever the claims, the token is "secret-token". |
| `Auth.GetCurrentUser` | app/auth.py:14-22 | Accepts exactly the token "secret-token" and then returns the admin principal. Any other token raises 401 "Could not validate credentials" with `WWW-Authenticate: Bearer`. |
| `Auth.RequireUser` | app/auth.py:4-22 | The gate passes exactly for the bearer credential "secret-token". A request with no credential gets 401 "Not authenticated". Every failure is a 401 with `WWW-Authenticate: Bearer`. |
| `Auth.IssuedTokenAccepted` | app/auth.py:11-21 | Round trip: the token issued for any claims is accepted by `get_current_user` and by the gate. |
| `Crud.IndexOf` | app/crud.py:7 | `filter(id == employee_id).first()` finds the first row with that id, or reports that no row has it. |
| `Crud.GetEmployee` | app/crud.py:6-7 | Returns a row of the table whose id is `employee_id`, or nothing exactly when no row has that id. With unique ids it is the one such row. |
| `Crud.Filtered` | app/crud.py:10-14 | Keeps exactly the rows whose department and role equal the filters. A `None` or empty-string filter does not restrict, and with neither restricting the table is returned whole. |
| `Crud.FilteredKeepsOrder` | app/crud.py:10-14 | Filtering keeps the table order: rows in ascending id order stay in ascending id order, so with `Filtered`'s membership clause the filtered rows are fixed. |
| `Crud.Window` | app/crud.py:15 | `offset(skip).limit(limit)` yields consecutive rows from the offset, at most `limit` of them, stopping early only at the end. A negative offset counts as 0 and a negative limit as no limit. |
| `Crud.WindowLength` | app/crud.py:15 | A window holds exactly the rows left after the offset, cut to the limit. |
| `Crud.WindowDetermined` | app/crud.py:15 | The window is unique for given rows, offset and limit. |
| `Crud.AdjacentWindows` | app/crud.py:15 | The window at `skip` followed by the window at `skip + limit` is the window at `skip` of twice the limit. |
| `Crud.GetEmployees` | app/crud.py:9-15 | Returns at most `limit` rows when `limit >= 0`. Each is a row of the table matching the filters. Together they are the window of the filtered rows at `skip`. |
| `Crud.ApplyItemsField` | app/crud.py:33-34 | After the `setattr` loop over items with distinct keys, each named field holds its item's value and each other field is unchanged. |
| `Crud.UpdateDataField` | app/crud.py:32-34 | For one field, the `setattr` loop over the `exclude_unset` items gives the value sent if the field was sent, and the old value otherwise. |
| `Crud.UpdateDataIsOverlay` | app/crud.py:32-34 | The `setattr` loop over the `exclude_unset` items equals the field-by-field partial-update rule. |
| `Crud.CreateSpec` | app/crud.py:17-26 | A create leaves a table that satisfies the id and email constraints, after commit or after rollback. |
| `Crud.UpdateSpec` | app/crud.py:28-41 | An update leaves a table that satisfies the id and email constraints, after commit or after rollback. |
| `Crud.DeleteSpec` | app/crud.py:43-49 | A delete leaves a table that satisfies the id and email constraints. |
| `Crud.RemoveAt` | app/crud.py:47 | Deleting a row keeps every other row, in order, and keeps the table's constraints. |
| `Crud.RemoveAtMembers` | app/crud.py:47 | With unique ids, the rows left after deleting row `k` are exactly the rows whose id differs from that row's id. |
| `Crud.AppendUnique` | app/models.py:23 | Adding a row keeps emails unique exactly when no existing row has its email. |
| `Crud.ReplaceUnique` | app/models.py:23 | Rewriting a row keeps emails unique exactly when no other row has its new email. |
| `Crud.CreateWithNewEmail` | app/crud.py:17-23 | For an email not in the table, exactly one row is added after the others. It has the draft's name, email, department and role, a fresh id and the insert time. Existing rows are unchanged, and a lookup by the new id returns the row. |
| `Crud.CreateWithTakenEmail` | app/crud.py:24-26 | For an email already in the table, the result is 400 "Email already exists" and the table is exactly as before. |
| `Crud.UpdateAbsent` | app/crud.py:29-31 | For an absent id, the result is 404 "Employee not found" and nothing changes. |
| `Crud.UpdatePresent` | app/crud.py:32-41 | For a present id, the new attributes are the old ones overlaid with exactly the sent fields. The update commits exactly when name and email stay non-null and no other row has the email. Then only that row changes, keeping its id and `date_joined`. Otherwise the result is 400 "Email already exists" and the table is as before. |
| `Crud.UpdateNullName` | app/crud.py:39-41 | Sending `name: null` for a present row fails with 400 "Email already exists" and the table is unchanged. |
| `Crud.DeleteAbsent` | app/crud.py:44-46 | For an absent id, the result is 404 "Employee not found" and nothing changes. |
| `Crud.DeletePresent` | app/crud.py:47-49 | For a present id, the deleted row is returned. The table loses exactly that row, keeps every other row, and a later lookup of the id finds nothing. |
| `Crud.DeleteKeepsOthers` | app/crud.py:47-48 | After a delete, a lookup of any other id gives what it gave before. |
| `Crud.EmployeeStore.CreateEmployee` | app/crud.py:17-26 | The returned row or exception, and the new table, are those of `CreateSpec`. The table constraints are preserved. |
| `Crud.EmployeeStore.UpdateEmployee` | app/crud.py:28-41 | The `setattr` loop followed by commit or rollback gives the return value and the new table of `UpdateSpec`. The table constraints are preserved. |
| `Crud.EmployeeStore.DeleteEmployee` | app/crud.py:43-49 | The returned row or exception, and the new table, are those of `DeleteSpec`. The table constraints are preserved. |
| `App.ToSchema` | app/schemas.py:14-16 | The `Employee` response carries the row's name, email, department, role, id and `date_joined`. |
| `App.ToSchemas` | app/main.py:40 | The list response holds one `Employee` per row, in the same order. |
| `App.LoginForAccessToken` | app/main.py:20-32 | Rejected credentials give 401 "Incorrect username or password" with `WWW-Authenticate: Bearer`, the same response for every rejected pair. Accepted ones give 200 with token "secret-token" of type "bearer". |
| `App.LoginTokenOpensGate` | app/main.py:29-32 | The token from a successful login passes the gate of every employee endpoint. |
| `App.ReadEmployees` | app/main.py:40-44 | Without a valid token the response is 401. With one, a limit above 10 gets 422 and any other limit gets 200. A 200 list is the requested page of the table, holds at most `limit` records when `limit >= 0`, each a stored row matching the filters. |
| `App.PageIsWindow` | app/main.py:42-43 | For `page >= 1` and a limit from 0 to 10, page `p` lists the filtered rows from index `(p - 1) * limit`, and as many as the window size allows. |
| `App.ConsecutivePages` | app/main.py:42-43 | Pages `p` and `p + 1` together are the window of twice the limit starting at page `p`. |
| `App.NegativeLimitListsAll` | app/main.py:41-43 | As written, `limit = -1` on page 1 passes validation and returns every matching row, however many there are (see Findings). |
| `App.ReadEmployeesBounded` | app/main.py:41 | With `limit` checked from 1 to 10, a 200 page never holds more than ten records. Otherwise it behaves as the handler does. |
| `App.ReadEmployee` | app/main.py:46-51 | Without a valid token the response is 401. An absent id gives 404 "Employee not found". A present id gives 200 with that record. |
| `App.CreateEmployee` | app/main.py:34-38 | Without a valid token the response is 401 and the table is untouched. A blank name after `strip()` gives 400 "Name cannot be empty" and the table is untouched. Otherwise the outcome is the repository's, with 201 on success. |
| `App.UpdateEmployee` | app/main.py:53-57 | Without a valid token the response is 401 and the table is untouched. A sent, non-null, blank name gives 400 and the table is untouched. An omitted or null name skips the check. Otherwise the outcome is the repository's, with 200 on success. |
| `App.DeleteEmployee` | app/main.py:59-62 | Without a valid token the response is 401 and the table is untouched. Otherwise the outcome is the repository's: 204 with no body on success, 404 for an absent id. |

## Left out

- `app/database.py` is not part of this model. Engine creation, pooling and the SQLite pragma listener are infrastructure. Only SQLite's id, OFFSET and LIMIT behaviour is modelled.
- `app/config.py` is not part of this model. The settings are never read by the authentication code.
- `app/init_admin.py` is not part of this model. It is a console script, and it imports helpers that `app/auth.py` does not define.
- The `get_db` session lifecycle and `create_all` at import are left out. Commit and rollback are modelled as "new table, or unchanged table plus error".
- Framework dependency injection, form and JSON decoding, the 422 for a missing or mistyped body field, and query-string integer coercion are left out. The model takes the decoded values as inputs.
- Parsing of the `Authorization` header by `OAuth2PasswordBearer` (scheme matching) is left out. It is framework code; the model receives the bearer credential or `None`.
- The `String(100)` lengths are left out. SQLite does not enforce declared VARCHAR lengths, so nothing in this setup rejects a longer value. A backend that did would raise a DataError, which no handler catches.
- Backends other than SQLite are left out. Their id allocation differs, and some of them reject a negative LIMIT or OFFSET with an uncaught error (500).
- Integers outside SQLite's signed 64-bit range are left out: an `employee_id` (bound into the WHERE clause of get, update and delete), a `limit`, or a page number whose offset `(page - 1) * limit` falls outside it. The driver cannot bind such a value and raises an uncaught error (500). The model instead answers 404 for such an id (`App.ReadEmployee`, `Crud.UpdateSpec`, `Crud.DeleteSpec`), and lists every row for a `limit` below the range.
- Concurrent requests are left out. Each model call is one whole transaction.
- `schemas.TokenData` and `schemas.User` are left out. No shown code uses them.
- `Crud.GetEmployees`: the rows come back in ascending id order in the model. The code has no `order_by`, so any order the database picks is possible.
- `Crud.EmployeeStore.CreateEmployee`: the id of a new row follows SQLite's rule (largest id plus one). The code itself only relies on the id being fresh.

## Findings

| source | as written | input that shows it | evidently intended | confidence | as-written member | corrected member |
|---|---|---|---|---|---|---|
| app/main.py:41 | `limit` has only an upper bound (`Query(default=10, le=10)`), and SQLite treats a negative LIMIT as no limit | `GET /api/employees/?limit=-1` when more than ten employees match | `1 <= limit <= 10`, so no page holds more than ten records | medium; not executed | `App.NegativeLimitListsAll` | `App.ReadEmployeesBounded` |

# TaskBase server core in Dafny

TaskBase is a small multi-user to-do service. Its Express server keeps two
SQLite tables: `users` has an autoincrement id, a UNIQUE email and a bcrypt
password hash. `todos` has an autoincrement id, an owner `user_id`, a title
and a `done` flag that defaults to 0. The server exposes register and login
routes, which issue JWT bearer tokens. It also exposes list, create, update
and delete routes for todos, each behind a bearer-token gate and scoped to
the caller's own rows.

This project models that request logic as a state machine:

- `wrappers.dfy`: `Option`.
- `js.dfy`: the JSON values a request body carries, and JavaScript truthiness:
  `!x`, `Number(!!x)` and `??`.
- `crypto.dfy`: bcrypt and jsonwebtoken, modelled as functions supplied from
  outside (`Primitives`). `Lawful` states the only facts the server relies on:
  a password matches its own hash; a token issued for some claims verifies to
  exactly those claims; an issued token is never empty.
- `tables.dfy`: the two tables as sequences of rows in id order. Each SQL
  statement the handlers run is a function. The lemmas prove per-user
  isolation, delete idempotence, "at most one row", list order, and that the
  list is determined by its rows and its order.
- `auth.dfy`: the `auth` middleware. It takes the token after `"Bearer "`,
  denies with "Missing token" or "Invalid token", and otherwise hands the
  handler the verified claims.
- `api.dfy`: class `Server`, which holds the tables and their AUTOINCREMENT
  counters (`sqlite_sequence`). It has one method per route handler and per
  startup step. `Login` and `List` only read the store, so they are functions.
  `Handle` runs one request end to end, gate included. `Valid()` is the schema
  invariant: ascending ids within the counters, unique emails, `done` in {0, 1},
  and every todo's owner is a stored user (the foreign key). Every method keeps
  it, so it holds after any sequence of requests.
  `Scenario`, `Session`, `TodoLifecycle`, `Complete`, `Cleanup` and `StaleToken` are
  client methods. They walk through a first run, one user's session, and a
  token for a user that does not exist, asserting every response.

The foreign libraries appear only through `Primitives`, and the salt bcrypt
would draw at random is an explicit argument. Each request is one atomic step.

Behaviour worth knowing:

- Update with `done` omitted sets `done` to 0 (`Number(!!undefined)` is 0),
  while an omitted or null title keeps its value.
- Login for a known email with no password makes `bcrypt.compareSync` throw.
  Express answers with its default 500 page (`Uncaught`), not 401.
- The first-run seed makes the demo user and its welcome todo both id 1. A
  newly registered user's first todo is therefore id 2, and `PUT /todos/1` by
  that user is 404.
- better-sqlite3 builds SQLite with foreign keys enforced, so
  `FOREIGN KEY(user_id) REFERENCES users(id)` holds. A token whose id names
  no user still passes the gate, but creating a todo with it fails the INSERT,
  and Express answers 500. Users are never deleted, so every todo's owner is
  always a stored user.

## Model

| member | source | states |
|---|---|---|
| `Tables.HasUser` | server/index.js:30 | the foreign-key check holds exactly when some stored user has that id |
| `Tables.OwnersExistAppendUser` | server/index.js:30 | inserting a user keeps every todo's owner a stored user |
| `Tables.OwnersExistAppendTodo` | server/index.js:30 | a todo whose owner is a stored user can be appended without breaking the foreign key |
| `Tables.OwnersExistSetRow` | server/index.js:102-103 | the update keeps every row's owner, so the foreign key still holds |
| `Tables.FindUser` | server/index.js:77 | the lookup returns a stored user with that email, and returns nothing exactly when no stored user has it |
| `Tables.Owned` | server/index.js:85 | `WHERE user_id=?` keeps exactly the rows whose owner is the given user |
| `Tables.FindById` | server/index.js:93 | `WHERE id=?` returns a row with that id, and returns nothing exactly when no row has it |
| `Tables.FindOwned` | server/index.js:100 | `WHERE id=? AND user_id=?` returns a row with that id owned by that user, and returns nothing exactly when there is none |
| `Tables.DeleteOwned` | server/index.js:109 | the delete keeps exactly the rows that do not have both that id and that owner |
| `Tables.SetRow` | server/index.js:102-103 | the update gives the rows with that id the new title and flag; ids, owners, order and all other rows stay as they were |
| `Tables.Reverse` | server/index.js:85 | `ORDER BY id DESC` on an ascending table puts row i at position n-1-i |
| `Tables.FindUserExact` | server/index.js:21 | with UNIQUE emails, looking up a stored user's email finds exactly that user |
| `Tables.AppendUserKeepsValid` | server/index.js:19-22 | inserting a user with a new email and the next id keeps ascending ids and unique emails |
| `Tables.AppendTodoKeepsValid` | server/index.js:24-28 | inserting a todo with the next id and `done` 0 keeps ids ascending within the counter, and its id exceeds every id issued before |
| `Tables.OwnedAscending` | server/index.js:85 | one user's rows keep ascending id order |
| `Tables.ListDescending` | server/index.js:85 | the list holds exactly the caller's rows, in strictly descending id order |
| `Tables.DescendingUnique` | server/index.js:85 | two strictly descending lists with the same rows are equal, so the list is fully determined |
| `Tables.OwnedAppend` | server/index.js:92 | an inserted row is added last to its owner's rows; no other user's rows change |
| `Tables.FindAppended` | server/index.js:92-93 | after an insert with a fresh id, selecting that id returns the inserted row |
| `Tables.DeleteIdempotent` | server/index.js:109 | deleting twice leaves the same table as deleting once |
| `Tables.DeleteAbsent` | server/index.js:109 | deleting when the caller owns no row with that id changes nothing |
| `Tables.DeleteIsolation` | server/index.js:109 | a delete by one user leaves every other user's rows as they were, including their rows with the same id |
| `Tables.DeleteAscending` | server/index.js:109 | a delete keeps the ids ascending |
| `Tables.DeleteAtMostOne` | server/index.js:109 | with ascending ids, a delete removes at most one row |
| `Tables.SetRowIsolation` | server/index.js:100-103 | an update of rows the caller owns leaves every other user's rows as they were |
| `Tables.IdNamesOneRow` | server/index.js:25 | with autoincrement ids, an id names at most one row |
| `Tables.SetRowKeepsValid` | server/index.js:102-103 | the update changes no id and stores `done` 0 or 1, so ids stay ascending within the counter and every flag stays 0 or 1 |
| `Tables.SetRowFind` | server/index.js:102-104 | after the update, selecting the id returns the old row with the new title and flag |
| `Js.Present` | server/index.js:63 | a text field passes `!field` (also used for `!title` at line 91) exactly when it is present and non-empty |
| `Js.Coalesce` | server/index.js:103 | `title ?? todo.title`: only undefined/null fall back to the old title; any given string, "" included, is kept |
| `Js.Flag` | server/index.js:103 | `Number(!!done)` is 0 or 1, and it is 1 exactly when `done` is truthy |
| `Auth.ExtractToken` | server/index.js:46-48 | a token exists exactly when the header starts with "Bearer " and something follows; the header is then "Bearer " followed by the token |
| `Auth.Authenticate` | server/index.js:45-54 | no token gives "Missing token"; a token that fails verification gives "Invalid token"; the gate passes exactly when verification succeeds, with the verified claims |
| `Auth.BearerRoundTrip` | client-app/src/api.js:10 | the header the client builds from a non-empty token yields that token back |
| `Auth.IssuedTokenPasses` | server/index.js:44-51 | a token the server signed for some claims passes the gate as exactly those claims |
| `Api.Server.Schema` | server/index.js:19-31 | a valid store meets the schema: each PRIMARY KEY id names one row (AUTOINCREMENT, ids within their counters), `email` is UNIQUE, `done` is 0 or 1, and the FOREIGN KEY finds a stored user for every todo |
| `Api.Server.constructor` | server/index.js:18-32 | a new database starts with empty tables and zero counters |
| `Api.Server.Seed` | server/index.js:35-41 | if the demo email is taken, nothing changes; otherwise the demo user and its welcome todo (`done` 0) are inserted with the next ids |
| `Api.Server.InsertUser` | server/index.js:66 | the user row is appended with id one past the counter, and the invariant is kept |
| `Api.Server.InsertTodo` | server/index.js:92 | when no user has the owner id the INSERT fails and nothing changes; otherwise the row is appended with `done` 0 and an id larger than every id issued; only the owner's rows change |
| `Api.Server.Register` | server/index.js:61-73 | a falsy field gives 400 and a taken email gives 409, both with no change; otherwise one user row is added and a token for its id and email is returned |
| `Api.Server.Login` | server/index.js:75-81 | an unknown email and a wrong password give the same 401; a known email without a password gives 500; success returns a token for exactly the stored id and email |
| `Api.Server.List` | server/index.js:84-87 | 200 with exactly the caller's rows, in strictly descending id order |
| `Api.Server.Create` | server/index.js:89-95 | a falsy title gives 400 with no change; a caller id that no user has fails the foreign key: 500 with no change; otherwise one row (caller, title, `done` 0, fresh larger id) is added and returned with 201; other users' rows are unchanged |
| `Api.Server.Update` | server/index.js:97-106 | no row with that id owned by the caller gives 404 with no change; otherwise only that row changes; its title is kept when null/undefined and `done` becomes `Number(!!done)` |
| `Api.Server.Delete` | server/index.js:108-111 | always 204; removes at most the caller's row with that id; other users' rows are unchanged; repeating it changes nothing |
| `Api.Server.Handle` | server/index.js:45-111 | registration and login get exactly their handler's response and new state (400/409 leave the users and counters alone, success adds one user and advances the counter by one); a todo route runs its handler only when the gate passes; a denied request gets 401 with the gate's message and changes nothing; a passing request gets exactly its handler's response and new state (list changes nothing, update and delete keep both counters, create's 400 and 500 keep them); no request changes another user's rows; the counters never decrease |
| `Api.LoginAfterRegistration` | server/index.js:79-80 | a stored user logs in with its password, and the token returned passes the gate as that user's id and email |

## Left out

- HTTP plumbing is not modelled: Express setup, CORS, JSON body parsing, the health route, `listen` and environment reads.
- Non-string JSON values for `email`, `password` and `title` are not modelled. Absent and `null` are both `None`; any JSON value is allowed for `done`.
- The `:id` path segment arrives already converted to an integer. SQLite's text-to-integer comparison affinity is not modelled.
- Login with a missing email is assumed to bind as SQL NULL, which matches no row, so it gives 401.
- bcrypt internals and cost factor are not modelled. `hash`, `compare`, `sign` and `verify` are arbitrary functions obeying `Lawful`. Nothing assumes that a wrong password fails `compare`.
- JWT expiry (7 days) and the wall clock are not modelled. `verify` may reject any token the server did not sign, but not a token it did sign.
- The `created_at` column and its clock value are not modelled.
- The 500 "Server error" branch of registration (a non-UNIQUE database failure) is not modelled. A UNIQUE violation is modelled as an explicit check for an existing email.
- Ids are unbounded integers. SQLite's AUTOINCREMENT fails once it reaches 2^63-1, and `lastInsertRowid` loses precision as a JavaScript number above 2^53; neither limit is modelled.
- Strings are sequences of Unicode scalar values. JavaScript strings are UTF-16 and may hold lone surrogates; that difference is not modelled.
- Concurrency between requests is not modelled; each handler is one atomic step.
- The client application (`client-app/src/App.jsx`, the `fetch`/`localStorage` code of `client-app/src/api.js`) is not part of this model.

# User registry of the BTC prediction API

This project models the user registry behind the `/signup` and `/login` routes of a
small FastAPI service. The registry is a `users` table of records
`{id, username, email, hashed_password}`. In that table `id` is an autoincrement
primary key, and `username` and `email` are both declared unique.

- **Signup** is insert-if-absent. It refuses the request with a conflict when any stored
  record has the same username or the same email. Otherwise it stores a record whose
  password is the plaintext behind the literal prefix `"hashed_"`, and it returns the
  record's public fields `id`, `username` and `email`.
- **Login** looks the username up. It succeeds when the stored password equals
  `"hashed_" + password`, and then reports the user's id and username.
  Otherwise it fails with invalid credentials.

Everything is in `registry.dfy`, module `UserRegistry`:

- The table is the class `UserTable`. It holds the records in insertion order as a
  `seq<User>` and holds the next id to assign as a counter. The counter stands for SQLite's
  autoincrement key, which gives 1 to the first row and, since nothing is ever deleted,
  one more than the last row to every later one.
- `Valid()` is `TableInvariant`: usernames pairwise distinct, emails pairwise distinct,
  ids positive, strictly increasing and below the counter, and the counter 1 for an empty
  table and one more than the last id otherwise.
- A query `filter(...).first()` is the function `First`. It gives the position of the
  earliest matching record.
- Login's logic is the pure function `Authenticate` over the records. The method
  `UserTable.Login` has no `modifies` clause, so Dafny's framing guarantees it leaves the
  table unchanged on every path.
- Errors are the variants `Conflict` and `InvalidCredentials` of a `Result`, not exceptions.

## Model

| member | source | states |
|---|---|---|
| `UserRegistry.FakeHash` | main.py:100 | the stored password is exactly `"hashed_"` followed by the plaintext: its length, its prefix and its remainder |
| `UserRegistry.FakeHashInjective` | main.py:100-110 | two plaintexts give the same stored password if and only if they are equal, which is what makes login by `"hashed_" + password` correct |
| `UserRegistry.First` | main.py:97 | `.first()` of a filtered query: when it finds a position, that record matches and no earlier one does; it finds nothing exactly when no record matches |
| `UserRegistry.Matches` | main.py:97-109 | both query filters accept a record with the queried username; the signup filter (line 97) also accepts one with the queried email, the login filter (line 109) nothing else; a filter matches if and only if one of these holds |
| `UserRegistry.NewRecord` | main.py:100-101 | the inserted record carries the request's username and email under the id the table assigns, and its stored password is the plaintext behind `"hashed_"` |
| `UserRegistry.Public` | main.py:42-47 | the `UserOut` response is the record's id, username and email; that it hides exactly the password is stated by `PublicHidesPassword` |
| `UserRegistry.PublicHidesPassword` | main.py:95-105 | two records give the same signup response exactly when they differ at most in the stored password, so the response reveals every public field and no password |
| `UserRegistry.ConflictQuery` | main.py:97-99 | the signup lookup finds a record if and only if some stored user has the username or has the email, even when the other field differs |
| `UserRegistry.SignupPreservesInvariant` | main.py:23-28 | appending a record whose username and email are both unused, with the counter's id, keeps usernames unique, emails unique, ids increasing and below the advanced counter, and the counter one more than the last id |
| `UserRegistry.Authenticate` | main.py:107-112 | login fails only with invalid credentials; a success names a stored record with that username and stored password `"hashed_" + password`, and reports its id and username; an unknown username always fails |
| `UserRegistry.AuthenticateIff` | main.py:109-112 | with unique usernames, login succeeds if and only if a record with that username and matching stored password exists, and then returns exactly that record's id and username |
| `UserRegistry.SignupThenLogin` | main.py:100-112 | after a successful signup of (u, e, p), logging in as u with p returns the new id and u, and logging in as u with any other password fails |
| `UserRegistry.UserTable.constructor` | main.py:23-28 | a new table is empty, satisfies the invariant and will give id 1 to its first row |
| `UserRegistry.UserTable.Signup` | main.py:95-105 | fails with `Conflict` if and only if the username or the email is already stored, and then nothing changes; otherwise appends exactly one record (given username and email, password `"hashed_" + password`) with all old records untouched, advances the counter, returns the new record's id, username and email (no password), and the new id differs from every existing id; the invariant is kept |
| `UserRegistry.UserTable.Login` | main.py:107-112 | on a valid table, succeeds if and only if a record with that username and stored password `"hashed_" + password` exists, then returns that record's id and username, otherwise fails with invalid credentials; having no `modifies` clause, it changes nothing whether it succeeds or fails |
| `UserRegistry.AliceScenario` | main.py:95-112 | on an empty table: signing up alice gives id 1; signing up again with her username and another email is a conflict; login with her password gives id 1; login with another password fails |

## Left out

- Database plumbing (engine, session factory, per-request session open and close) and
  the implicit schema creation at start-up: I/O and library plumbing; the table is an
  abstract sequence.
- The prediction route, the loading of the model artifacts from disk and the scaler and
  regressor calls: foreign calls on floating-point data. The "model not loaded" guard is
  not modelled either.
- The FastAPI application, the CORS middleware, the root route and the server launch:
  web framework wiring.
- HTTP status codes, detail strings and JSON/pydantic validation: only the error variant
  is kept. All request fields are taken to be present strings.
- Concurrent signups: the check-then-insert relies on the database's unique constraints
  when two requests race. Requests are modelled as sequential, so the constraint never fires.
- `UserRegistry.First`: SQL gives no order for rows without `ORDER BY`, and the model
  takes insertion order. With unique usernames login does not depend on the order
  (`AuthenticateIff`). Signup depends only on whether some row matches.
- String comparison is exact character equality, as in SQLite's default collation; no
  case folding or normalisation is modelled.
- Failures of the database itself while committing or refreshing a new row (disk or lock
  errors): storage I/O; a signup whose name and email are free always succeeds in the model.
- The 64-bit limit of SQLite row ids: once the largest possible id is in use, SQLite picks
  an unused id at random, so ids would no longer grow in insertion order; the model's ids
  are unbounded integers, and `IdsBelow` describes the store only below that limit.

# User records CRUD service: validators and table operations

This project models the core of a small Flask/SQLAlchemy service that keeps
user records (`id`, `name`, `email`, `age`) in one table. Dafny proves
properties of that model.

- `validators.dfy` (module `Validators`) covers the three `@validates` hooks
  of the `User` model. `validate_name` wants at least 3 characters, with no
  trimming and no upper bound. `validate_email` wants an `@` and a `.`
  anywhere in the string. `validate_age` wants `age >= 0`. The module also
  holds the table's `age >= 0` check constraint. Each validator is a
  function that returns its argument unchanged or a `FieldError`.
- `table.dfy` (module `Table`) describes the committed table as a value
  (`map<Id, Row>`) and defines its invariant: every row passes the
  validators and no two rows share an email. It has the pure steps behind
  the handlers:
  - `NewRow`: the `User(...)` constructor of create.
  - `Replace`: the three attribute assignments of update.
  - `EmailHeld`: the unique-index test at commit, comparing emails exactly.
  - `CreateCheck` and `UpdateCheck`: everything each handler checks before
    its commit succeeds. The handlers' contracts are stated through them.

  The lemmas here give the exact accept/reject conditions, show that each
  write keeps the invariant, and cover the duplicate-email scenario.
- `api.dfy` (module `Api`) has a class `UserStore`. Its `rows` field is the
  committed table, and its methods are the five handlers: list, get,
  create, update and delete. Each handler returns the HTTP status and a
  result (`Error` is `NotFound` for 404 or `BadRequest(reason)` for 400).
  The methods' `ensures` clauses say what the new table is and that
  nothing else changes. Four client methods at the end of the file chain
  these calls: create then get, create twice with one email, delete then
  get, and update of an absent id.
- `wrappers.dfy` holds `Option` and `Result`.

Where the code is stricter or looser than a reader might expect, the model
follows the code:
- There is no trimming and no length cap on names, and no upper bound on age.
- The email check is only "contains `@` and contains `.`".
- There are no timestamps.
- An update replaces all three fields and needs all three keys.
- Every failure except a missing id is the same 400.
- Listing promises no order.

The reason carried by a 400 records which step raised. `create_user`
evaluates `data['name']`, `data['email']` and `data['age']` as call
arguments before any validator runs. `update_user` looks up each key and
validates it before moving to the next field. So a body with a short name
and no email fails create with a missing key, but fails update with a
rejected name (`Table.ReasonOrderDiffers`).

## Model

| member | source | states |
|---|---|---|
| `Validators.ValidateName` | models.py:15-19 | accepts iff the name has at least 3 characters (no trimming, no upper bound) and then returns it unchanged; otherwise fails with NameTooShort |
| `Validators.ValidateEmail` | models.py:21-25 | accepts iff an '@' occurs at some position and a '.' occurs at some position, and then returns the input unchanged; otherwise fails with InvalidEmail |
| `Validators.ValidateAge` | models.py:27-31 | accepts iff age >= 0 (no upper bound) and then returns it unchanged; otherwise fails with NegativeAge |
| `Validators.EmailAcceptsAnyOrder` | models.py:23 | every string with an '@' somewhere before a '.', or a '.' somewhere before an '@', with anything before, between and after, is accepted |
| `Validators.Examples` | models.py:16-31 | three spaces is a valid name, "ab" is not; "a.b@c" is a valid email, "a@b" is not; age 0 is accepted, -1 is not |
| `Table.Error.Status` | app.py:25-53 | NotFound answers 404 and every BadRequest answers 400 |
| `Table.NewRow` | app.py:32 | builds a row iff all three keys are present and all three validators accept, and the row then holds exactly the body's values; when a key is missing, the failure is a missing key |
| `Table.Replace` | app.py:47-49 | replaces all three fields iff all three keys are present and valid; a missing name is reported first |
| `Table.ReplaceAgreesWithNewRow` | app.py:32-49 | update accepts exactly the bodies create accepts and yields the same row whatever the row held before |
| `Table.ReasonOrderDiffers` | app.py:32-49 | for a short name and a missing email, create reports the missing key and update reports the rejected name |
| `Table.CreateCheck` | app.py:32-37 | the row create_user commits: on success it passes every validator, holds the body's values and no stored row has its email; a failure carries the constructor's reason, or DuplicateEmail when the constructor succeeded |
| `Table.UpdateCheck` | app.py:46-53 | the row update_user commits for a present key: on success it passes every validator, holds the body's values and no OTHER row has its email; a failure carries the assignments' reason, or DuplicateEmail when they succeeded |
| `Table.CreateAcceptedIff` | app.py:29-37 | a create commits iff all keys are present, name length >= 3, the email has '@' and '.', age >= 0, and no stored row has that email |
| `Table.UpdateAcceptedIff` | app.py:46-53 | an update of a present row commits iff all keys are present and valid and no OTHER row has the email, so keeping the row's own email is allowed |
| `Table.CreatePreservesInvariant` | app.py:32-35 | a committed create keeps every row valid and emails unique, adds exactly one key holding the body's row, and leaves every existing row unchanged |
| `Table.UpdatePreservesInvariant` | app.py:47-50 | a committed update keeps the invariant and the key set, replaces that row with the body's row, and leaves every other row unchanged |
| `Table.DeletePreservesInvariant` | app.py:61-62 | removing a row keeps the invariant |
| `Table.CommittedRowsMeetCheck` | models.py:13 | every row of a table satisfying the invariant meets the check constraint age >= 0, so the constraint never refuses a validated row |
| `Table.AtMostOneHolder` | models.py:10 | with the unique-email invariant, at most one row holds any given email |
| `Table.SecondCreateIsDuplicate` | app.py:29-37 | after a committed create, a second valid create with the same email is refused as DuplicateEmail, and exactly one row holds that email |
| `Table.UpperBound` | models.py:8 | every finite set of keys has a strict upper bound |
| `Table.FreshIdExists` | models.py:8 | there is always a positive key not yet in use |
| `Api.UserStore.constructor` | app.py:66-67 | creating the tables on an empty database gives an empty table that satisfies the invariant |
| `Api.UserStore.GetUsers` | app.py:14-17 | answers 200 with every stored row exactly once, each with its id, name, email and age, and nothing else, in no promised order |
| `Api.UserStore.GetUser` | app.py:20-25 | answers 200 with exactly that row's id, name, email and age when the id is present, and 404 NotFound otherwise; the table is not modified |
| `Api.UserStore.AllocateId` | models.py:8 | the store's new key is positive and not currently in the table |
| `Api.UserStore.CreateUser` | app.py:28-37 | follows CreateCheck: a failure answers 400 with its reason and leaves the table unchanged; a success answers 201 with the new row under a positive, previously unused id, adds exactly that row, keeps every existing row and keeps the invariant |
| `Api.UserStore.UpdateUser` | app.py:40-53 | an absent id gives 404 without looking at the body; otherwise follows UpdateCheck: a failure answers 400 and commits nothing, a success answers 200, replaces only that row and keeps its id and the invariant |
| `Api.UserStore.DeleteUser` | app.py:56-63 | a present id is removed and every other row is kept (200); an absent id gives 404 with the table unchanged |
| `Api.CreateThenGet` | app.py:21-35 | get after a successful create returns the created id with exactly the name, email and age that were sent |
| `Api.CreateTwice` | app.py:29-37 | two creates with the same email: the second gives 400 DuplicateEmail and exactly one row holds the email |
| `Api.DeleteThenGet` | app.py:56-63 | get after delete on the same id gives 404 |
| `Api.UpdateAbsent` | app.py:42-44 | update of an absent id with an entirely invalid body gives 404 and changes nothing |

## Left out

- HTTP plumbing is not modelled: Flask routing, `request.json` parsing, JSON serialisation, the `/` home route, configuration loading and `app.run`. The model receives a typed `Payload` in which an absent key is `None`.
- Python strings holding lone surrogate code points are not modelled: Dafny's `char` holds Unicode scalar values only.
- Non-string or non-integer field values are not modelled (for example `len` of an int, or a JSON `null`). Inputs are typed instead.
- Error message texts are not modelled. A 400 carries a `Reason` rather than `str(e)`.
- SQLAlchemy session internals are not modelled. update_user can leave a partially assigned object in the session when a later field fails, and no handler calls rollback. Only the committed table is modelled, and it is unchanged on every 400.
- Id generation by the database engine is not modelled. A new id is any positive key not in the table (`Api.UserStore.AllocateId`), not a counter. The engine may reuse a freed key.
- `Table.EmailHeld`: the unique index on `email` is modelled as exact string equality. An engine whose collation ignores case (MySQL's default, for one) would refuse more creates and updates as duplicates than `Table.CreateCheck` and `Table.UpdateCheck` do. The engine is not part of this model.
- Column length limits `String(50)` and `String(120)` are not modelled. Whether they are enforced depends on the database engine.
- Database integer width is not modelled: ids and ages are unbounded integers.
- delete_user's commit failure is not modelled. It lies outside any try block and depends on the engine.
- Concurrency is not modelled: each handler is one atomic step on the table.
- seed.py is not modelled. It generates random data with Faker, prints progress and computes floating-point statistics. Its insert-if-email-absent loop only repeats the create rule.

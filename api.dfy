/** The request handlers of app.py as methods on the user table. The
    database session becomes the object's `rows` field, holding the
    committed table; a handler that raises inside its `try` answers 400 and
    commits nothing.

    Not modelled: the ORM's in-memory objects. update_user may already have
    assigned `user.name` when a later field fails and never rolls back; the
    session is discarded when the request ends, so the committed table, which
    is all that later requests see, is unchanged. */
module Api {
  import opened Wrappers
  import opened Validators
  import opened Table

  const OK := 200
  const CREATED := 201

  class UserStore {
    /** The committed `user` table. */
    var rows: Rows

    ghost predicate Valid()
      reads this
    {
      Invariant(rows)
    }

    /** Creating the tables on an empty database. */
    constructor ()
      ensures Valid() && rows == map[]
    {
      rows := map[];
    }

    /** get_users: every stored row, once each, with its id. `User.query.all()`
        has no ORDER BY, so no order is promised. */
    method GetUsers() returns (status: int, users: seq<User>)
      ensures status == OK
      ensures |users| == |rows|
      ensures forall i :: 0 <= i < |users| ==> users[i].id in rows && users[i] == UserOf(users[i].id, rows[users[i].id])
      ensures forall i, j :: 0 <= i < j < |users| ==> users[i].id != users[j].id
      ensures forall id :: id in rows ==> UserOf(id, rows[id]) in users
    {
      status, users := OK, [];
      var pending := rows.Keys;
      while pending != {}
        invariant pending <= rows.Keys
        invariant |users| + |pending| == |rows|
        invariant forall i :: 0 <= i < |users| ==>
                    users[i].id in rows && users[i].id !in pending && users[i] == UserOf(users[i].id, rows[users[i].id])
        invariant forall i, j :: 0 <= i < j < |users| ==> users[i].id != users[j].id
        invariant forall id :: id in rows && id !in pending ==> UserOf(id, rows[id]) in users
        decreases pending
      {
        var id :| id in pending;
        users := users + [UserOf(id, rows[id])];
        pending := pending - {id};
      }
    }

    /** get_user: the stored row under `id`, or 404. */
    method GetUser(id: Id) returns (status: int, res: Result<User, Error>)
      ensures res.Success? <==> id in rows
      ensures res.Success? ==> res.value == UserOf(id, rows[id])
      ensures res.Failure? ==> res.error == NotFound
      ensures status == if res.Success? then OK else res.error.Status()
    {
      if id in rows {
        res := Success(UserOf(id, rows[id]));
        status := OK;
      } else {
        res := Failure(NotFound);
        status := res.error.Status();
      }
    }

    /** The store's choice of primary key for a new row: some positive key
        not in use. Which one is left open (the engine may reuse a freed key). */
    method AllocateId() returns (id: Id)
      ensures id >= 1 && id !in rows
    {
      FreshIdExists(rows);
      id :| id >= 1 && id !in rows;
    }

    /** create_user: build the row (key lookups, then the validators), add
        it and commit; the unique index refuses a taken email. Any failure
        answers 400 and adds nothing. */
    method CreateUser(body: Payload) returns (status: int, res: Result<User, Error>)
      requires Valid()
      modifies this
      ensures Valid()
      ensures status == if res.Success? then CREATED else res.error.Status()
      ensures match CreateCheck(old(rows), body)
              case Failure(reason) =>
                res == Failure(BadRequest(reason)) && rows == old(rows)
              case Success(row) =>
                && res.Success? && res.value.id >= 1 && res.value.id !in old(rows)
                && res.value == UserOf(res.value.id, row)
                && rows == old(rows)[res.value.id := row]
    {
      // The steps of CreateCheck, in the order create_user performs them.
      var built := NewRow(body);
      if built.Failure? {
        res := Failure(BadRequest(built.error));
        status := res.error.Status();
        return;
      }
      var row := built.value;
      // add the new row and commit; the unique index is checked here
      if EmailHeld(rows, row.email, None) {
        res := Failure(BadRequest(DuplicateEmail));
        status := res.error.Status();
        return;
      }
      var id := AllocateId();
      CreatePreservesInvariant(rows, body, id);
      rows := rows[id := row];
      res := Success(UserOf(id, row));
      status := CREATED;
    }

    /** update_user: 404 for an absent key before the body is looked at;
        otherwise replace all three fields of that row and commit. Any
        failure answers 400 and commits nothing. */
    method UpdateUser(id: Id, body: Payload) returns (status: int, res: Result<User, Error>)
      requires Valid()
      modifies this
      ensures Valid()
      ensures status == if res.Success? then OK else res.error.Status()
      ensures id !in old(rows) ==> res == Failure(NotFound) && rows == old(rows)
      ensures id in old(rows) ==>
                match UpdateCheck(old(rows), id, body)
                case Failure(reason) =>
                  res == Failure(BadRequest(reason)) && rows == old(rows)
                case Success(row) =>
                  res == Success(UserOf(id, row)) && rows == old(rows)[id := row]
    {
      if id !in rows {
        res := Failure(NotFound);
        status := res.error.Status();
        return;
      }
      // The steps of UpdateCheck, in the order update_user performs them:
      // assign the three fields in turn, each through its validator
      var replaced := Replace(rows[id], body);
      if replaced.Failure? {
        res := Failure(BadRequest(replaced.error));
        status := res.error.Status();
        return;
      }
      var row := replaced.value;
      // commit; the unique index is checked here
      if EmailHeld(rows, row.email, Some(id)) {
        res := Failure(BadRequest(DuplicateEmail));
        status := res.error.Status();
        return;
      }
      UpdatePreservesInvariant(rows, id, body);
      rows := rows[id := row];
      res := Success(UserOf(id, row));
      status := OK;
    }

    /** delete_user: remove exactly that row, or 404 and no change. */
    method DeleteUser(id: Id) returns (status: int, res: Result<Id, Error>)
      requires Valid()
      modifies this
      ensures Valid()
      ensures status == if res.Success? then OK else res.error.Status()
      ensures res.Success? <==> id in old(rows)
      ensures res.Success? ==> res.value == id && rows == old(rows) - {id}
      ensures res.Failure? ==> res.error == NotFound && rows == old(rows)
    {
      if id !in rows {
        res := Failure(NotFound);
        status := res.error.Status();
        return;
      }
      DeletePreservesInvariant(rows, id);
      rows := rows - {id};
      res := Success(id);
      status := OK;
    }
  }

  /** A client: create, then get the new id, answers the fields that were
      sent. */
  method CreateThenGet(store: UserStore, body: Payload) returns (found: Result<User, Error>)
    requires store.Valid()
    requires NewRow(body).Success? && !EmailHeld(store.rows, body.email.value, None)
    modifies store
    ensures store.Valid()
    ensures found.Success? && found.value.id !in old(store.rows)
    ensures found.value == User(found.value.id, body.name.value, body.email.value, body.age.value)
  {
    var status, created := store.CreateUser(body);
    var status';
    status', found := store.GetUser(created.value.id);
  }

  /** A client: two creates with the same email; the second answers 400 as
      a duplicate and the table holds one row with that email. */
  method CreateTwice(store: UserStore, first: Payload, second: Payload) returns (again: Result<User, Error>)
    requires store.Valid()
    requires NewRow(first).Success? && !EmailHeld(store.rows, first.email.value, None)
    requires NewRow(second).Success? && second.email == first.email
    modifies store
    ensures store.Valid()
    ensures again == Failure(BadRequest(DuplicateEmail))
    ensures |Holders(store.rows, first.email.value)| == 1
  {
    ghost var before := store.rows;
    var status, created := store.CreateUser(first);
    assert store.rows[created.value.id].email == second.email.value;
    var status';
    status', again := store.CreateUser(second);
    SecondCreateIsDuplicate(before, first, created.value.id, second);
  }

  /** A client: delete then get on the same id answers 404. */
  method DeleteThenGet(store: UserStore, id: Id) returns (found: Result<User, Error>)
    requires store.Valid()
    modifies store
    ensures store.Valid()
    ensures found == Failure(NotFound)
  {
    var status, deleted := store.DeleteUser(id);
    var status';
    status', found := store.GetUser(id);
  }

  /** A client: update of an absent id answers 404 even when every field of
      the body is missing or invalid. */
  method UpdateAbsent(store: UserStore, id: Id) returns (status: int)
    requires store.Valid() && id !in store.rows
    modifies store
    ensures store.Valid() && store.rows == old(store.rows)
    ensures status == 404
  {
    var res;
    status, res := store.UpdateUser(id, Payload(None, Some("no-at-sign"), Some(-1)));
  }
}

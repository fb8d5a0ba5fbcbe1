/** The committed contents of the `user` table as a value, and the pure
    steps behind the handlers of app.py: building a row from a request body
    (the `User(...)` constructor and the three attribute assignments of an
    update, each running its validator), the unique-email test the store
    applies at commit, and the table invariant every commit keeps. */
module Table {
  import opened Wrappers
  import opened Validators

  /** Primary keys are handed out by the store; the routes only take
      non-negative integers. */
  type Id = nat

  /** One stored row, without its key. */
  datatype Row = Row(name: string, email: string, age: int)

  /** The JSON object the handlers return: `{id, name, email, age}`. */
  datatype User = User(id: Id, name: string, email: string, age: int)

  /** The committed table: primary key to row. */
  type Rows = map<Id, Row>

  /** A request body; `None` is a key absent from the JSON object. */
  datatype Payload = Payload(name: Option<string>, email: Option<string>, age: Option<int>)

  datatype Key = NameKey | EmailKey | AgeKey

  /** Why a write was answered with 400: a key lookup raised, a validator
      raised, or the commit hit the unique index on `email`. */
  datatype Reason = MissingKey(key: Key) | Rejected(field: FieldError) | DuplicateEmail

  /** The error answers of the handlers. */
  datatype Error = NotFound | BadRequest(reason: Reason) {
    function Status(): (code: int)
      ensures code == 404 <==> NotFound?
      ensures code == 400 <==> BadRequest?
    {
      if NotFound? then 404 else 400
    }
  }

  function UserOf(id: Id, row: Row): User {
    User(id, row.name, row.email, row.age)
  }

  /** Every field of `row` passes its validator (so also the check
      constraint on `age`). */
  predicate RowValid(row: Row) {
    FieldsValid(row.name, row.email, row.age)
  }

  /** Some row other than `exempt` already holds exactly `email`: the
      condition under which the unique index refuses a commit, taking the
      index to compare strings exactly (as SQLite and PostgreSQL do by
      default; an engine whose collation ignores case refuses more). */
  predicate EmailHeld(rows: Rows, email: string, exempt: Option<Id>) {
    exists id :: id in rows && Some(id) != exempt && rows[id].email == email
  }

  /** No two rows share an email. */
  ghost predicate EmailsUnique(rows: Rows) {
    forall a, b :: a in rows && b in rows && a != b ==> rows[a].email != rows[b].email
  }

  /** What every committed state of the table satisfies. */
  ghost predicate Invariant(rows: Rows) {
    && (forall id :: id in rows ==> RowValid(rows[id]))
    && EmailsUnique(rows)
  }

  /** The keys of the rows holding `email`. */
  ghost function Holders(rows: Rows, email: string): set<Id> {
    set id | id in rows && rows[id].email == email
  }

  /** The constructor call of create_user (app.py:32): the three key
      lookups run first, as call arguments, and only then the three
      validators, in keyword order. */
  function NewRow(body: Payload): (r: Result<Row, Reason>)
    ensures r.Success? <==>
              body.name.Some? && body.email.Some? && body.age.Some?
              && FieldsValid(body.name.value, body.email.value, body.age.value)
    ensures r.Success? ==> r.value == Row(body.name.value, body.email.value, body.age.value)
    ensures r.Failure? && (body.name.None? || body.email.None? || body.age.None?) ==> r.error.MissingKey?
  {
    if body.name.None? then Failure(MissingKey(NameKey))
    else if body.email.None? then Failure(MissingKey(EmailKey))
    else if body.age.None? then Failure(MissingKey(AgeKey))
    else
      match ValidateName(body.name.value)
      case Failure(e) => Failure(Rejected(e))
      case Success(name) =>
        match ValidateEmail(body.email.value)
        case Failure(e) => Failure(Rejected(e))
        case Success(email) =>
          match ValidateAge(body.age.value)
          case Failure(e) => Failure(Rejected(e))
          case Success(age) => Success(Row(name, email, age))
  }

  /** The three attribute assignments of update_user (app.py:47-49)
      applied to the loaded row: each field's lookup is followed at once by
      its validator, so a bad name is reported before a missing email. All
      three fields are replaced. */
  function Replace(oldRow: Row, body: Payload): (r: Result<Row, Reason>)
    ensures r.Success? <==>
              body.name.Some? && body.email.Some? && body.age.Some?
              && FieldsValid(body.name.value, body.email.value, body.age.value)
    ensures r.Success? ==> r.value == Row(body.name.value, body.email.value, body.age.value)
    ensures r.Failure? && body.name.None? ==> r.error == MissingKey(NameKey)
  {
    if body.name.None? then Failure(MissingKey(NameKey))
    else match ValidateName(body.name.value)
    case Failure(e) => Failure(Rejected(e))
    case Success(name) =>
      if body.email.None? then Failure(MissingKey(EmailKey))
      else match ValidateEmail(body.email.value)
      case Failure(e) => Failure(Rejected(e))
      case Success(email) =>
        if body.age.None? then Failure(MissingKey(AgeKey))
        else match ValidateAge(body.age.value)
        case Failure(e) => Failure(Rejected(e))
        case Success(age) => Success(oldRow.(name := name, email := email, age := age))
  }

  /** An update is a full replace: whatever the row held before, it accepts
      exactly the bodies a create accepts and produces the same row. Only the
      reason for a refusal can differ (see ReasonOrderDiffers). */
  lemma ReplaceAgreesWithNewRow(oldRow: Row, body: Payload)
    ensures Replace(oldRow, body).Success? <==> NewRow(body).Success?
    ensures Replace(oldRow, body).Success? ==> Replace(oldRow, body).value == NewRow(body).value
  {
  }

  /** A body with a too-short name and no email: create reports the missing
      key, update the rejected name. */
  lemma ReasonOrderDiffers(oldRow: Row)
    ensures NewRow(Payload(Some("ab"), None, Some(30))) == Failure(MissingKey(EmailKey))
    ensures Replace(oldRow, Payload(Some("ab"), None, Some(30))) == Failure(Rejected(NameTooShort))
  {
  }

  /** Everything create_user checks before its commit succeeds: the row
      the constructor builds, then the unique index on `email`. On success
      the table gains this row under a fresh key; on failure it is 400 with
      this reason and nothing is added. */
  function CreateCheck(rows: Rows, body: Payload): (r: Result<Row, Reason>)
    ensures r.Success? ==> RowValid(r.value) && forall k :: k in rows ==> rows[k].email != r.value.email
    ensures r.Success? ==>
              && body.name.Some? && body.email.Some? && body.age.Some?
              && r.value == Row(body.name.value, body.email.value, body.age.value)
    ensures r.Failure? && NewRow(body).Failure? ==> r.error == NewRow(body).error
    ensures r.Failure? && NewRow(body).Success? ==> r.error == DuplicateEmail
  {
    match NewRow(body)
    case Failure(e) => Failure(e)
    case Success(row) =>
      if EmailHeld(rows, row.email, None) then Failure(DuplicateEmail) else Success(row)
  }

  /** Everything update_user checks, for a present key, before its commit
      succeeds: the three assignments, then the unique index, which does not
      count the row's own current email. */
  function UpdateCheck(rows: Rows, id: Id, body: Payload): (r: Result<Row, Reason>)
    requires id in rows
    ensures r.Success? ==> RowValid(r.value) && forall k :: k in rows && k != id ==> rows[k].email != r.value.email
    ensures r.Success? ==>
              && body.name.Some? && body.email.Some? && body.age.Some?
              && r.value == Row(body.name.value, body.email.value, body.age.value)
    ensures r.Failure? && Replace(rows[id], body).Failure? ==> r.error == Replace(rows[id], body).error
    ensures r.Failure? && Replace(rows[id], body).Success? ==> r.error == DuplicateEmail
  {
    match Replace(rows[id], body)
    case Failure(e) => Failure(e)
    case Success(row) =>
      if EmailHeld(rows, row.email, Some(id)) then Failure(DuplicateEmail) else Success(row)
  }

  /** Create succeeds exactly when all three keys are present, every field
      passes its validator and no row holds the email yet. */
  lemma CreateAcceptedIff(rows: Rows, body: Payload)
    ensures CreateCheck(rows, body).Success? <==>
              && body.name.Some? && body.email.Some? && body.age.Some?
              && |body.name.value| >= MinNameLength
              && Occurs('@', body.email.value) && Occurs('.', body.email.value)
              && body.age.value >= 0
              && forall k :: k in rows ==> rows[k].email != body.email.value
  {
  }

  /** Update of a present row succeeds exactly when all three keys are
      present, every field passes, and no OTHER row holds the email: keeping
      the row's own email is not a duplicate. */
  lemma UpdateAcceptedIff(rows: Rows, id: Id, body: Payload)
    requires id in rows
    ensures UpdateCheck(rows, id, body).Success? <==>
              && body.name.Some? && body.email.Some? && body.age.Some?
              && |body.name.value| >= MinNameLength
              && Occurs('@', body.email.value) && Occurs('.', body.email.value)
              && body.age.value >= 0
              && forall k :: k in rows && k != id ==> rows[k].email != body.email.value
  {
  }

  /** A successful create adds exactly the body's row under a new key `id`
      and keeps the invariant; every other row is untouched. */
  lemma CreatePreservesInvariant(rows: Rows, body: Payload, id: Id)
    requires Invariant(rows) && id !in rows
    requires CreateCheck(rows, body).Success?
    ensures var rows' := rows[id := CreateCheck(rows, body).value];
            && Invariant(rows')
            && rows'.Keys == rows.Keys + {id}
            && rows'[id] == NewRow(body).value
            && forall k :: k in rows ==> rows'[k] == rows[k]
  {
  }

  /** A successful update replaces that one row and keeps the invariant. */
  lemma UpdatePreservesInvariant(rows: Rows, id: Id, body: Payload)
    requires Invariant(rows) && id in rows
    requires UpdateCheck(rows, id, body).Success?
    ensures var rows' := rows[id := UpdateCheck(rows, id, body).value];
            && Invariant(rows')
            && rows'.Keys == rows.Keys
            && rows'[id] == NewRow(body).value
            && forall k :: k in rows && k != id ==> rows'[k] == rows[k]
  {
  }

  /** Removing a row keeps the invariant. */
  lemma DeletePreservesInvariant(rows: Rows, id: Id)
    requires Invariant(rows)
    ensures Invariant(rows - {id})
  {
  }

  /** Every committed row satisfies the table's check constraint
      `age >= 0`, because the age validator already refused anything else. */
  lemma CommittedRowsMeetCheck(rows: Rows)
    requires Invariant(rows)
    ensures forall id :: id in rows ==> AgeCheckConstraint(rows[id].age)
  {
  }

  /** With unique emails at most one row holds any given email. */
  lemma {:induction false} AtMostOneHolder(rows: Rows, email: string)
    requires EmailsUnique(rows)
    ensures |Holders(rows, email)| <= 1
  {
    var h := Holders(rows, email);
    if h != {} {
      var a :| a in h;
      assert h == {a} by {
        forall b | b in h ensures b == a {
        }
      }
    }
  }

  /** Two creates with the same email: once the first has committed under
      `id`, the second is refused as a duplicate whatever else it carries,
      and exactly one row holds that email. */
  lemma SecondCreateIsDuplicate(rows: Rows, first: Payload, id: Id, second: Payload)
    requires Invariant(rows) && id !in rows
    requires CreateCheck(rows, first).Success?
    requires NewRow(second).Success? && second.email == first.email
    ensures CreateCheck(rows[id := CreateCheck(rows, first).value], second) == Failure(DuplicateEmail)
    ensures |Holders(rows[id := CreateCheck(rows, first).value], first.email.value)| == 1
  {
    var rows' := rows[id := CreateCheck(rows, first).value];
    CreatePreservesInvariant(rows, first, id);
    assert rows'[id].email == first.email.value;
    assert EmailHeld(rows', second.email.value, None);
    AtMostOneHolder(rows', first.email.value);
    assert id in Holders(rows', first.email.value);
  }

  /** Every finite set of keys has a strict upper bound. */
  lemma {:induction false} UpperBound(keys: set<Id>) returns (bound: Id)
    ensures forall k :: k in keys ==> k < bound
  {
    if keys == {} {
      bound := 0;
    } else {
      var k :| k in keys;
      var rest := UpperBound(keys - {k});
      bound := if k < rest then rest else k + 1;
      forall x | x in keys ensures x < bound {
        if x != k {
          assert x in keys - {k};
        }
      }
    }
  }

  /** There is always a positive key not yet in use, so the store can
      always hand one out. */
  lemma FreshIdExists(rows: Rows)
    ensures exists id: Id :: id >= 1 && id !in rows
  {
    var bound := UpperBound(rows.Keys);
    assert bound + 1 >= 1 && bound + 1 !in rows;
  }
}

/** The three field validators of the `User` model (models.py) and the
    column-level rules of its table: the `age >= 0` check constraint and the
    unique `email` column.

    Each validator either hands its argument back unchanged (the ORM then
    stores it) or raises; a raise is a `Failure` carrying which rule failed.
    Strings are sequences of Unicode scalar values: Python's code points
    other than lone surrogates, which `char` cannot hold. */
module Validators {
  import opened Wrappers

  /** Which validator rejected its field. */
  datatype FieldError = NameTooShort | InvalidEmail | NegativeAge

  /** Shortest name `validate_name` accepts. There is no upper bound. */
  const MinNameLength: nat := 3

  /** `c` occurs somewhere in `s`. */
  predicate Occurs(c: char, s: string) {
    exists i :: 0 <= i < |s| && s[i] == c
  }

  /** `validate_name`: a name of fewer than three characters is refused;
      nothing is trimmed, so whitespace counts. */
  function ValidateName(name: string): (r: Result<string, FieldError>)
    ensures r.Success? <==> |name| >= MinNameLength
    ensures r.Success? ==> r.value == name
    ensures r.Failure? ==> r.error == NameTooShort
  {
    if |name| < MinNameLength then Failure(NameTooShort) else Success(name)
  }

  /** `validate_email`: the address must contain an '@' and a '.', anywhere
      and in either order; nothing else is checked. */
  function ValidateEmail(email: string): (r: Result<string, FieldError>)
    ensures r.Success? <==> Occurs('@', email) && Occurs('.', email)
    ensures r.Success? ==> r.value == email
    ensures r.Failure? ==> r.error == InvalidEmail
  {
    if '@' !in email || '.' !in email then Failure(InvalidEmail) else Success(email)
  }

  /** `validate_age`: negative ages are refused; there is no upper bound. */
  function ValidateAge(age: int): (r: Result<int, FieldError>)
    ensures r.Success? <==> age >= 0
    ensures r.Success? ==> r.value == age
    ensures r.Failure? ==> r.error == NegativeAge
  {
    if age < 0 then Failure(NegativeAge) else Success(age)
  }

  /** The table's check constraint `check_age_positive`. */
  predicate AgeCheckConstraint(age: int) {
    age >= 0
  }

  /** A row whose three fields all pass their validators. */
  predicate FieldsValid(name: string, email: string, age: int) {
    ValidateName(name).Success? && ValidateEmail(email).Success? && ValidateAge(age).Success?
  }

  /** The email rule is about the presence of the two characters only: the
      order does not matter and neither does anything around them. */
  lemma EmailAcceptsAnyOrder(a: string, b: string, c: string)
    ensures ValidateEmail(a + "@" + b + "." + c).Success?
    ensures ValidateEmail(a + "." + b + "@" + c).Success?
  {
    var s1 := a + "@" + b + "." + c;
    assert s1[|a|] == '@' && s1[|a| + 1 + |b|] == '.';
    var s2 := a + "." + b + "@" + c;
    assert s2[|a|] == '.' && s2[|a| + 1 + |b|] == '@';
  }

  /** Worked cases of the rules as written: three spaces make a valid name,
      "a.b@c" is an email (the dot precedes the '@'), "a@b" is not. */
  lemma Examples()
    ensures ValidateName("   ") == Success("   ")
    ensures ValidateName("ab") == Failure(NameTooShort)
    ensures ValidateEmail("a.b@c") == Success("a.b@c")
    ensures ValidateEmail("a@b") == Failure(InvalidEmail)
    ensures ValidateAge(0) == Success(0)
    ensures ValidateAge(-1) == Failure(NegativeAge)
  {
  }
}

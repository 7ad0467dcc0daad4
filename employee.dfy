/** A system user (`Employee`, table `employees`). Password hashing is an
    abstract function `hash` given as a parameter; checking a password
    hashes it and compares with the stored hash. */
module Employees {
  import opened Text

  /** The two `position` choices. The column does not enforce them. */
  const AdminPosition: string := "Admin"
  const CashierPosition: string := "Cashier"

  datatype Employee = Employee(
    username: string,
    passwordHash: string,
    firstName: string,
    lastName: string,
    position: string,
    isActive: bool)

  /** The field choices: one of the two positions. */
  predicate FieldsValid(e: Employee)
  {
    e.position == AdminPosition || e.position == CashierPosition
  }

  /** A new employee record: active, with the given password hash. */
  function NewEmployee(username: string, passwordHash: string, firstName: string, lastName: string, position: string): (e: Employee)
    ensures e.isActive
    ensures e.username == username && e.passwordHash == passwordHash
    ensures e.firstName == firstName && e.lastName == lastName && e.position == position
  {
    Employee(username, passwordHash, firstName, lastName, position, true)
  }

  /** `full_name`: first and last name separated by one space. */
  function FullName(e: Employee): (r: string)
    ensures |r| == |e.firstName| + 1 + |e.lastName|
    ensures r[..|e.firstName|] == e.firstName && r[|e.firstName|] == ' ' && r[|e.firstName| + 1..] == e.lastName
  {
    e.firstName + " " + e.lastName
  }

  /** Names without blanks are recovered by splitting the full name on
      whitespace. */
  lemma FullNameSplits(e: Employee)
    requires e.firstName != [] && NoWhitespace(e.firstName)
    requires e.lastName != [] && NoWhitespace(e.lastName)
    ensures SplitWhitespace(FullName(e)) == [e.firstName, e.lastName]
  {
    var ts := [e.firstName, e.lastName];
    assert ts[1..] == [e.lastName];
    assert JoinSpaced(ts) == FullName(e);
    SplitJoinRoundTrip(ts);
  }

  predicate IsAdmin(e: Employee) { e.position == AdminPosition }

  predicate IsCashier(e: Employee) { e.position == CashierPosition }

  /** No employee is both; a valid one is exactly one of the two. */
  lemma AdminOrCashier(e: Employee)
    ensures !(IsAdmin(e) && IsCashier(e))
    ensures FieldsValid(e) <==> IsAdmin(e) || IsCashier(e)
  {
    assert AdminPosition[0] != CashierPosition[0];
  }

  /** `set_password(raw)`: stores the hash of `raw`; nothing else changes. */
  function SetPassword(e: Employee, raw: string, hash: string -> string): (r: Employee)
    ensures r.(passwordHash := e.passwordHash) == e
    ensures CheckPassword(r, raw, hash)
  {
    e.(passwordHash := hash(raw))
  }

  /** `check_password(raw)`: `raw` hashes to the stored hash. */
  predicate CheckPassword(e: Employee, raw: string, hash: string -> string)
  {
    hash(raw) == e.passwordHash
  }

  /** What the hasher guarantees: an encoded password never equals the raw
      one (it carries the algorithm, salt and digest), and different
      passwords encode differently. */
  ghost predicate HashLaws(hash: string -> string)
  {
    (forall p :: hash(p) != p) &&
    (forall p, q :: hash(p) == hash(q) ==> p == q)
  }

  /** After `set_password(p)` the stored value is not `p`, `p` checks, and
      no other password does. */
  lemma SetPasswordChecks(e: Employee, p: string, q: string, hash: string -> string)
    requires HashLaws(hash)
    ensures SetPassword(e, p, hash).passwordHash != p
    ensures CheckPassword(SetPassword(e, p, hash), q, hash) <==> q == p
  {
  }

  /** Whatever the stored hash, at most one password checks against it. */
  lemma CheckPasswordUnique(e: Employee, p: string, q: string, hash: string -> string)
    requires HashLaws(hash)
    ensures CheckPassword(e, p, hash) && CheckPassword(e, q, hash) ==> p == q
  {
  }

  /** A new employee meets the position choices exactly when given one of
      the two positions; setting a password does not affect them. */
  lemma PositionChoices(username: string, passwordHash: string, firstName: string, lastName: string,
                        position: string, e: Employee, raw: string, hash: string -> string)
    ensures FieldsValid(NewEmployee(username, passwordHash, firstName, lastName, position)) <==>
              position == AdminPosition || position == CashierPosition
    ensures FieldsValid(SetPassword(e, raw, hash)) <==> FieldsValid(e)
  {
  }
}

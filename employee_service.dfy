/** The employee operations (`EmployeeService`): authentication with an
    audit entry, creation, update, soft deletion and the listings. The
    password hasher is the parameter `hash`. */
module EmployeeService {
  import opened Wrappers
  import Employees
  import Audit
  import Ordering
  import opened Storage

  datatype Error = EmployeeNotFound | DuplicateUsername

  // ---------------------------------------------------------------------
  // Queries

  /** Employee `k` is active and has that username. */
  predicate ActiveNamed(employees: seq<Employees.Employee>, username: string, k: nat)
  {
    k < |employees| && employees[k].username == username && employees[k].isActive
  }

  /** `Employee.objects.get(username=..., is_active=True)`. */
  function FindActive(employees: seq<Employees.Employee>, username: string): (r: Option<nat>)
    ensures r.Some? ==> ActiveNamed(employees, username, r.value)
    ensures r.None? <==> forall k: nat :: !ActiveNamed(employees, username, k)
  {
    var holds := (k: nat) => ActiveNamed(employees, username, k);
    var r := Ordering.Find(|employees|, holds);
    assert r.None? ==> forall k: nat :: !ActiveNamed(employees, username, k) by {
      if r.None? {
        forall k: nat ensures !ActiveNamed(employees, username, k) {
          if k < |employees| {
            assert !holds(k);
          }
        }
      }
    }
    r
  }

  /** Whom `authenticate` lets in: the active employee with that username,
      when the password checks against the stored hash. */
  function AuthenticatedId(employees: seq<Employees.Employee>, username: string, password: string, hash: string -> string)
    : (r: Option<nat>)
    ensures r.Some? ==> ActiveNamed(employees, username, r.value) && Employees.CheckPassword(employees[r.value], password, hash)
    ensures (forall k: nat :: !ActiveNamed(employees, username, k)) ==> r.None?
  {
    match FindActive(employees, username)
    case None => None
    case Some(k) => if Employees.CheckPassword(employees[k], password, hash) then Some(k) else None
  }

  /** With unique usernames, `authenticate` succeeds exactly for an active
      employee of that username whose password checks. */
  lemma AuthenticatedExactly(employees: seq<Employees.Employee>, username: string, password: string, hash: string -> string, k: nat)
    requires UniqueUsernames(employees)
    ensures AuthenticatedId(employees, username, password, hash) == Some(k) <==>
              ActiveNamed(employees, username, k) && Employees.CheckPassword(employees[k], password, hash)
  {
    if ActiveNamed(employees, username, k) {
      var j := FindActive(employees, username).value;
      assert employees[j].username == employees[k].username;
    }
  }

  /** `get_all_employees`: the active employees. */
  function AllEmployees(employees: seq<Employees.Employee>): (r: seq<nat>)
    ensures forall k: nat :: k in r <==> k < |employees| && employees[k].isActive
    ensures Ordering.Distinct(r)
  {
    var all := Ordering.Range(|employees|);
    Ordering.RangeDistinct(|employees|);
    Ordering.WhereDistinct(all, (k: nat) => k < |employees| && employees[k].isActive);
    forall k: nat ensures k in all <==> k < |employees| {
      Ordering.RangeMembers(|employees|, k);
    }
    Ordering.Where(all, (k: nat) => k < |employees| && employees[k].isActive)
  }

  /** `get_employee_by_id` is `Storage.RowById` on the employees table. */

  /** Some employee other than `except` already has that username. */
  predicate UsernameTaken(employees: seq<Employees.Employee>, username: string, except: int)
  {
    exists k :: 0 <= k < |employees| && k != except && employees[k].username == username
  }

  // ---------------------------------------------------------------------
  // Updates

  /** One keyword argument of `update_employee`: a field of the employee
      by name, or a name the employee has no attribute for. */
  datatype Setting =
    | Username(username: string)
    | FirstName(firstName: string)
    | LastName(lastName: string)
    | Position(position: string)
    | IsActive(isActive: bool)
    | PasswordHash(passwordHash: string)
    | Unknown(key: string)

  /** `setattr` for one setting; a name without an attribute is skipped. */
  function ApplySetting(e: Employees.Employee, s: Setting): Employees.Employee
  {
    match s
    case Username(v) => e.(username := v)
    case FirstName(v) => e.(firstName := v)
    case LastName(v) => e.(lastName := v)
    case Position(v) => e.(position := v)
    case IsActive(v) => e.(isActive := v)
    case PasswordHash(v) => e.(passwordHash := v)
    case Unknown(_) => e
  }

  /** The settings applied in order. */
  function ApplySettings(e: Employees.Employee, ss: seq<Setting>): Employees.Employee
  {
    if ss == [] then e else ApplySetting(ApplySettings(e, ss[..|ss| - 1]), ss[|ss| - 1])
  }

  /** The employee `update_employee` saves: the password re-hashed when one
      is given, then the other settings applied in order. */
  function Updated(e: Employees.Employee, password: Option<string>, ss: seq<Setting>, hash: string -> string): Employees.Employee
  {
    ApplySettings(if password.Some? then Employees.SetPassword(e, password.value, hash) else e, ss)
  }

  /** No setting writes the stored hash directly. */
  predicate NoRawHash(ss: seq<Setting>)
  {
    forall k :: 0 <= k < |ss| ==> !ss[k].PasswordHash?
  }

  /** Settings other than the stored hash leave the stored hash alone. */
  lemma {:induction false} SettingsKeepHash(e: Employees.Employee, ss: seq<Setting>)
    requires NoRawHash(ss)
    ensures ApplySettings(e, ss).passwordHash == e.passwordHash
  {
    if ss != [] {
      var n := |ss| - 1;
      assert forall k :: 0 <= k < n ==> ss[..n][k] == ss[k];
      SettingsKeepHash(e, ss[..n]);
    }
  }

  /** A password given to `update_employee` is stored hashed, never raw,
      and is the one that then checks. */
  lemma UpdatedPasswordHashed(e: Employees.Employee, p: string, ss: seq<Setting>, hash: string -> string, q: string)
    requires NoRawHash(ss) && Employees.HashLaws(hash)
    ensures Updated(e, Some(p), ss, hash).passwordHash == hash(p) != p
    ensures Employees.CheckPassword(Updated(e, Some(p), ss, hash), q, hash) <==> q == p
  {
    SettingsKeepHash(Employees.SetPassword(e, p, hash), ss);
    Employees.SetPasswordChecks(e, p, q, hash);
  }

  /** Names the employee has no attribute for change nothing. */
  lemma {:induction false} UnknownIgnored(e: Employees.Employee, ss: seq<Setting>, key: string)
    ensures ApplySettings(e, ss + [Unknown(key)]) == ApplySettings(e, ss)
  {
    assert (ss + [Unknown(key)])[..|ss|] == ss;
  }

  /** `authenticate`: lets in the active employee with that username whose
      password checks, logging one login entry; otherwise nothing is
      written. */
  method Authenticate(db: Database, username: string, password: string, hash: string -> string) returns (r: Option<nat>)
    requires db.Valid()
    modifies db
    ensures db.Valid()
    ensures r == AuthenticatedId(old(db.employees), username, password, hash)
    ensures r.None? ==> unchanged(db)
    ensures r.Some? ==> db.auditLog == old(db.auditLog) + [Audit.Entry(r.value, Audit.Login, "Employee " + username + " logged in")]
    ensures db.employees == old(db.employees) && db.items == old(db.items) && db.customers == old(db.customers)
    ensures db.coupons == old(db.coupons) && db.transactions == old(db.transactions)
    ensures db.lines == old(db.lines) && db.rentals == old(db.rentals)
  {
    var found := FindActive(db.employees, username);
    if found.None? {
      return None;
    }
    var k := found.value;
    if !Employees.CheckPassword(db.employees[k], password, hash) {
      return None;
    }
    db.auditLog := db.auditLog + [Audit.Entry(k, Audit.Login, "Employee " + username + " logged in")];
    return Some(k);
  }

  /** `logout`: logs one logout entry for an existing employee, active or
      not; an unknown id writes nothing. */
  method Logout(db: Database, id: int)
    requires db.Valid()
    modifies db
    ensures db.Valid()
    ensures !(0 <= id < |old(db.employees)|) ==> unchanged(db)
    ensures 0 <= id < |old(db.employees)| ==>
              db.auditLog == old(db.auditLog) + [Audit.Entry(id, Audit.Logout, "Employee " + old(db.employees)[id].username + " logged out")]
    ensures db.employees == old(db.employees) && db.items == old(db.items) && db.customers == old(db.customers)
    ensures db.coupons == old(db.coupons) && db.transactions == old(db.transactions)
    ensures db.lines == old(db.lines) && db.rentals == old(db.rentals)
  {
    if 0 <= id < |db.employees| {
      db.auditLog := db.auditLog + [Audit.Entry(id, Audit.Logout, "Employee " + db.employees[id].username + " logged out")];
    }
  }

  /** `create_employee`: stores a new active employee with the password
      hashed and logs its creation. A username already taken makes the
      insert fail and nothing is written. */
  method CreateEmployee(db: Database, username: string, password: string, firstName: string, lastName: string,
                        position: string, hash: string -> string)
    returns (r: Result<nat, Error>)
    requires db.Valid()
    modifies db
    ensures db.Valid()
    ensures r.Failure? <==> UsernameTaken(old(db.employees), username, -1)
    ensures r.Failure? ==> r.error == DuplicateUsername && unchanged(db)
    ensures r.Success? ==>
              r.value == |old(db.employees)| &&
              db.employees == old(db.employees) + [Employees.NewEmployee(username, hash(password), firstName, lastName, position)] &&
              db.auditLog == old(db.auditLog) + [Audit.Entry(r.value, Audit.EmployeeCreated, "New employee " + username + " created")]
    ensures db.items == old(db.items) && db.customers == old(db.customers) && db.coupons == old(db.coupons)
    ensures db.transactions == old(db.transactions) && db.lines == old(db.lines) && db.rentals == old(db.rentals)
  {
    var e := Employees.Employee(username, "", firstName, lastName, position, true);
    e := Employees.SetPassword(e, password, hash);
    if exists k :: 0 <= k < |db.employees| && db.employees[k].username == username {
      return Failure(DuplicateUsername);
    }
    var id := |db.employees|;
    db.employees := db.employees + [e];
    db.auditLog := db.auditLog + [Audit.Entry(id, Audit.EmployeeCreated, "New employee " + username + " created")];
    RefsGrow(db.transactions, db.lines, db.rentals, old(db.auditLog), id, |db.items|, |db.customers|, |db.transactions|,
             id + 1, |db.items|, |db.customers|, |db.transactions|);
    return Success(id);
  }

  /** `update_employee`: loads the employee, re-hashes a given password,
      applies the other settings one by one, saves and logs the update.
      A username another employee has makes the save fail and nothing is
      written. */
  method UpdateEmployee(db: Database, id: int, password: Option<string>, settings: seq<Setting>, hash: string -> string)
    returns (r: Result<Employees.Employee, Error>)
    requires db.Valid()
    modifies db
    ensures db.Valid()
    ensures !(0 <= id < |old(db.employees)|) ==> r == Failure(EmployeeNotFound) && unchanged(db)
    ensures 0 <= id < |old(db.employees)| ==>
              var e := Updated(old(db.employees)[id], password, settings, hash);
              if UsernameTaken(old(db.employees), e.username, id) then
                r == Failure(DuplicateUsername) && unchanged(db)
              else
                r == Success(e) && db.employees == old(db.employees)[id := e] &&
                db.auditLog == old(db.auditLog) + [Audit.Entry(id, Audit.EmployeeUpdated, "Employee " + e.username + " updated")]
    ensures db.items == old(db.items) && db.customers == old(db.customers) && db.coupons == old(db.coupons)
    ensures db.transactions == old(db.transactions) && db.lines == old(db.lines) && db.rentals == old(db.rentals)
  {
    if !(0 <= id < |db.employees|) {
      return Failure(EmployeeNotFound);
    }
    var e := db.employees[id];
    if password.Some? {
      e := Employees.SetPassword(e, password.value, hash);
    }
    var i := 0;
    while i < |settings|
      invariant 0 <= i <= |settings|
      invariant e == ApplySettings(if password.Some? then Employees.SetPassword(db.employees[id], password.value, hash) else db.employees[id], settings[..i])
    {
      assert settings[..i + 1][..i] == settings[..i];
      e := ApplySetting(e, settings[i]);
      i := i + 1;
    }
    assert settings[..i] == settings;
    if exists k :: 0 <= k < |db.employees| && k != id && db.employees[k].username == e.username {
      return Failure(DuplicateUsername);
    }
    db.employees := db.employees[id := e];
    db.auditLog := db.auditLog + [Audit.Entry(id, Audit.EmployeeUpdated, "Employee " + e.username + " updated")];
    return Success(e);
  }

  /** `delete_employee`: a soft delete. The employee stays, marked
      inactive, and the deactivation is logged. */
  method DeleteEmployee(db: Database, id: int) returns (r: Result<Employees.Employee, Error>)
    requires db.Valid()
    modifies db
    ensures db.Valid()
    ensures !(0 <= id < |old(db.employees)|) ==> r == Failure(EmployeeNotFound) && unchanged(db)
    ensures 0 <= id < |old(db.employees)| ==>
              var e := old(db.employees)[id].(isActive := false);
              r == Success(e) && db.employees == old(db.employees)[id := e] &&
              db.auditLog == old(db.auditLog) + [Audit.Entry(id, Audit.EmployeeDeleted, "Employee " + e.username + " deactivated")]
    ensures db.items == old(db.items) && db.customers == old(db.customers) && db.coupons == old(db.coupons)
    ensures db.transactions == old(db.transactions) && db.lines == old(db.lines) && db.rentals == old(db.rentals)
  {
    if !(0 <= id < |db.employees|) {
      return Failure(EmployeeNotFound);
    }
    var e := db.employees[id];
    e := e.(isActive := false);
    db.employees := db.employees[id := e];
    db.auditLog := db.auditLog + [Audit.Entry(id, Audit.EmployeeDeleted, "Employee " + e.username + " deactivated")];
    return Success(e);
  }

  /** After a soft delete the employee is no longer listed and can no
      longer log in, whatever the password; nobody else is affected. */
  lemma DeletedCannotAuthenticate(employees: seq<Employees.Employee>, id: nat, password: string, hash: string -> string)
    requires UniqueUsernames(employees) && id < |employees|
    ensures var after := employees[id := employees[id].(isActive := false)];
            AuthenticatedId(after, employees[id].username, password, hash).None? &&
            id !in AllEmployees(after) &&
            (forall k: nat :: k != id ==> (k in AllEmployees(after) <==> k in AllEmployees(employees)))
  {
    var after := employees[id := employees[id].(isActive := false)];
    forall k: nat ensures !ActiveNamed(after, employees[id].username, k) {
      if k < |employees| && k != id {
        assert employees[k].username != employees[id].username;
      }
    }
  }
}

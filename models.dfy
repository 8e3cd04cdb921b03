/** The two database tables (app/models.py) and the column constraints the
    database enforces on them when a transaction commits. */
module Models {
  import opened Http
  import Schemas

  type DateTime = Schemas.DateTime

  // ---------------------------------------------------------------- users

  /** A row of `users`. Username, email and hashed password are NOT NULL;
      `updated_at` is null until the row is first updated. */
  datatype User = User(
    id: int,
    username: string,
    email: string,
    hashedPassword: string,
    fullName: Option<string>,
    isActive: bool,
    isSuperuser: bool,
    createdAt: DateTime,
    updatedAt: Option<DateTime>)

  /** The columns an INSERT into `users` names; a `None` flag is a column
      left out of the INSERT, so its column default applies. */
  datatype NewUser = NewUser(
    username: string,
    email: string,
    hashedPassword: string,
    fullName: Option<string> := None,
    isActive: Option<bool> := None,
    isSuperuser: Option<bool> := None)

  /** The primary key and the two UNIQUE columns of `users`, with rows kept
      in ascending id order. */
  predicate UsersValid(t: seq<User>) {
    forall i, j :: 0 <= i < j < |t| ==>
      t[i].id < t[j].id && t[i].username != t[j].username && t[i].email != t[j].email
  }

  /** The id SQLite gives a new row: one more than the largest, 1 at first. */
  function NextUserId(t: seq<User>): int {
    if t == [] then 1 else t[|t| - 1].id + 1
  }

  /** An INSERT into `users` at time `now`: rejected (an IntegrityError,
      `None`) exactly when the username or the email is already taken;
      otherwise one row is appended with a fresh id, `is_active` defaulting
      to true, `is_superuser` to false, `created_at` set and `updated_at`
      null. */
  function InsertUser(t: seq<User>, u: NewUser, now: DateTime): (r: Option<seq<User>>)
    requires UsersValid(t)
    ensures r.Some? <==> forall i :: 0 <= i < |t| ==> t[i].username != u.username && t[i].email != u.email
    ensures r.Some? ==> UsersValid(r.value) && |r.value| == |t| + 1 && r.value[..|t|] == t
    ensures r.Some? ==>
      var n := r.value[|t|];
      && n.username == u.username && n.email == u.email
      && n.hashedPassword == u.hashedPassword && n.fullName == u.fullName
      && n.isActive == u.isActive.GetOr(true)
      && n.isSuperuser == u.isSuperuser.GetOr(false)
      && n.createdAt == now && n.updatedAt == None
      && forall i :: 0 <= i < |t| ==> t[i].id != n.id
  {
    var row := User(NextUserId(t), u.username, u.email, u.hashedPassword, u.fullName,
                    u.isActive.GetOr(true), u.isSuperuser.GetOr(false), now, None);
    NextUserIdFresh(t);
    AppendUser(t, row);
    assert (t + [row])[..|t|] == t && (t + [row])[|t|] == row;
    if UsersValid(t + [row]) then Some(t + [row]) else None
  }

  lemma {:induction false} NextUserIdFresh(t: seq<User>)
    requires UsersValid(t)
    ensures forall i :: 0 <= i < |t| ==> t[i].id < NextUserId(t)
  {
    forall i | 0 <= i < |t| ensures t[i].id < NextUserId(t) {
      assert i == |t| - 1 || t[i].id < t[|t| - 1].id;
    }
  }

  /** Appending a row with a larger id keeps the table valid exactly when
      no row has its username or its email. */
  lemma {:induction false} AppendUser(t: seq<User>, row: User)
    requires UsersValid(t)
    requires forall i :: 0 <= i < |t| ==> t[i].id < row.id
    ensures UsersValid(t + [row]) <==>
      forall i :: 0 <= i < |t| ==> t[i].username != row.username && t[i].email != row.email
  {
    var t' := t + [row];
    if forall i :: 0 <= i < |t| ==> t[i].username != row.username && t[i].email != row.email {
      forall i, j | 0 <= i < j < |t'|
        ensures t'[i].id < t'[j].id && t'[i].username != t'[j].username && t'[i].email != t'[j].email
      {
        if j == |t| { assert t'[j] == row && t'[i] == t[i]; }
        else { assert t'[i] == t[i] && t'[j] == t[j]; }
      }
    } else {
      var i :| 0 <= i < |t| && !(t[i].username != row.username && t[i].email != row.email);
      assert t'[i] == t[i] && t'[|t|] == row;
    }
  }

  // ------------------------------------------------------------ employees

  /** A row of `employees`: `id` is the primary key, name and email are
      NOT NULL, department and role may be null, and `date_joined` is set
      by the database at insert and never changed (there is no update
      timestamp column). */
  datatype Employee = Employee(
    id: int,
    name: string,
    email: string,
    department: Option<string>,
    role: Option<string>,
    dateJoined: DateTime)

  /** The mapped attributes of an `Employee` object in a session before it
      is flushed: any of them may hold null at that point. */
  datatype EmployeeAttrs = EmployeeAttrs(
    name: Option<string>,
    email: Option<string>,
    department: Option<string>,
    role: Option<string>)

  function AttrsOf(e: Employee): EmployeeAttrs {
    EmployeeAttrs(Some(e.name), Some(e.email), e.department, e.role)
  }

  /** The row that attributes become when flushed, or `None` when the NOT
      NULL constraint on name or email fails. */
  function Flush(id: int, a: EmployeeAttrs, dateJoined: DateTime): (r: Option<Employee>)
    ensures r.Some? <==> a.name != None && a.email != None
    ensures r.Some? ==> AttrsOf(r.value) == a && r.value.id == id && r.value.dateJoined == dateJoined
  {
    match (a.name, a.email)
    case (Some(name), Some(email)) => Some(Employee(id, name, email, a.department, a.role, dateJoined))
    case _ => None
  }

  /** The UNIQUE constraint on `employees.email`. */
  predicate UniqueEmails(t: seq<Employee>) {
    forall i, j :: 0 <= i < j < |t| ==> t[i].email != t[j].email
  }

  /** The primary key, with rows kept in ascending id order. */
  predicate IdsAscending(t: seq<Employee>) {
    forall i, j :: 0 <= i < j < |t| ==> t[i].id < t[j].id
  }

  /** Everything the database guarantees about a committed `employees`
      table: no two rows share an id and no two rows share an email. */
  predicate EmployeesValid(t: seq<Employee>) {
    IdsAscending(t) && UniqueEmails(t)
  }

  /** The id SQLite gives a new row: one more than the largest, 1 at first. */
  function NextEmployeeId(t: seq<Employee>): (id: int)
    requires IdsAscending(t)
    ensures forall i :: 0 <= i < |t| ==> t[i].id < id
  {
    if t == [] then 1 else t[|t| - 1].id + 1
  }
}

/** The employee repository (app/crud.py). The table is a sequence of rows
    in ascending id order; the two queries are functions of it, and the three
    writes are methods of `EmployeeStore`, each tied to a specification
    function that gives the outcome of one transaction: the value returned or
    the exception raised, and the table as it stands after commit or
    rollback. */
module Crud {
  import opened Http
  import opened Models
  import Schemas

  const NotFound: HttpException := HttpException(404, "Employee not found", NoHeaders)

  /** Every IntegrityError (UNIQUE or NOT NULL) is reported with this. */
  const EmailExists: HttpException := HttpException(400, "Email already exists", NoHeaders)

  // -------------------------------------------------------------- queries

  /** The position of the first row whose id is `id`. */
  function IndexOf(t: seq<Employee>, id: int): (k: Option<nat>)
    ensures k.Some? ==> k.value < |t| && t[k.value].id == id
    ensures k.Some? ==> forall j :: 0 <= j < k.value ==> t[j].id != id
    ensures k.None? ==> forall j :: 0 <= j < |t| ==> t[j].id != id
  {
    if t == [] then None
    else if t[0].id == id then Some(0)
    else match IndexOf(t[1..], id)
      case None => None
      case Some(k) => Some(k + 1)
  }

  /** `get_employee`: the row with that id, or nothing when there is none. */
  function GetEmployee(t: seq<Employee>, employeeId: int): (r: Option<Employee>)
    ensures r.Some? ==> r.value in t && r.value.id == employeeId
    ensures r.None? <==> forall j :: 0 <= j < |t| ==> t[j].id != employeeId
    ensures IdsAscending(t) ==> forall j :: 0 <= j < |t| && t[j].id == employeeId ==> r == Some(t[j])
  {
    match IndexOf(t, employeeId)
    case None => None
    case Some(k) => Some(t[k])
  }

  /** A filter restricts only when it is truthy in Python: not None and not
      the empty string. */
  predicate Restricts(filter: Option<string>) {
    filter.Some? && filter.value != ""
  }

  /** `column == filter` as SQL evaluates it for a restricting filter: a null
      column never matches. */
  predicate Matches(e: Employee, department: Option<string>, role: Option<string>) {
    && (Restricts(department) ==> e.department == department)
    && (Restricts(role) ==> e.role == role)
  }

  /** The rows that pass the department and role filters, in table order. */
  function Filtered(t: seq<Employee>, department: Option<string>, role: Option<string>): (r: seq<Employee>)
    ensures |r| <= |t|
    ensures forall e :: e in r <==> e in t && Matches(e, department, role)
    ensures !Restricts(department) && !Restricts(role) ==> r == t
  {
    if t == [] then []
    else if Matches(t[0], department, role) then [t[0]] + Filtered(t[1..], department, role)
    else Filtered(t[1..], department, role)
  }

  /** Filtering keeps the table order: on a table in ascending id order the
      filtered rows are in ascending id order too, which with the membership
      clause of `Filtered` fixes them completely. */
  lemma {:induction false} FilteredKeepsOrder(t: seq<Employee>, department: Option<string>, role: Option<string>)
    requires IdsAscending(t)
    ensures IdsAscending(Filtered(t, department, role))
  {
    if t != [] {
      var rest := Filtered(t[1..], department, role);
      assert IdsAscending(t[1..]) by {
        forall i, j | 0 <= i < j < |t[1..]| ensures t[1..][i].id < t[1..][j].id {
          assert t[1..][i] == t[i + 1] && t[1..][j] == t[j + 1];
        }
      }
      FilteredKeepsOrder(t[1..], department, role);
      if Matches(t[0], department, role) {
        var r := [t[0]] + rest;
        forall i, j | 0 <= i < j < |r| ensures r[i].id < r[j].id {
          if i == 0 {
            assert r[j] == rest[j - 1] && rest[j - 1] in rest;
            var k :| 0 <= k < |t[1..]| && t[1..][k] == rest[j - 1];
            assert t[k + 1] == rest[j - 1];
          } else {
            assert r[i] == rest[i - 1] && r[j] == rest[j - 1];
          }
        }
      }
    }
  }

  /** `r` is what `OFFSET skip LIMIT limit` leaves of `s` under SQLite: a
      negative offset counts as 0 and a negative limit means no limit. The
      rows of `r` are consecutive rows of `s` starting at the offset, there
      are at most `limit` of them, and `r` stops early only at the end of
      `s`. */
  ghost predicate IsWindow(r: seq<Employee>, s: seq<Employee>, skip: int, limit: int) {
    var lo := if skip < 0 then 0 else skip;
    && (forall i :: 0 <= i < |r| ==> lo + i < |s| && r[i] == s[lo + i])
    && (limit >= 0 ==> |r| <= limit)
    && (limit < 0 || |r| < limit ==> lo + |r| >= |s|)
  }

  function Window(s: seq<Employee>, skip: int, limit: int): (r: seq<Employee>)
    ensures IsWindow(r, s, skip, limit)
  {
    var lo := if skip < 0 then 0 else if skip > |s| then |s| else skip;
    var hi := if limit < 0 || lo + limit > |s| then |s| else lo + limit;
    s[lo..hi]
  }

  /** The number of rows a window holds: what is left after the offset,
      cut to the limit when the limit is not negative. */
  function WindowSize(n: nat, skip: int, limit: int): nat {
    var lo := if skip < 0 then 0 else skip;
    var left := if lo >= n then 0 else n - lo;
    if limit < 0 || left < limit then left else limit
  }

  lemma {:induction false} WindowLength(r: seq<Employee>, s: seq<Employee>, skip: int, limit: int)
    requires IsWindow(r, s, skip, limit)
    ensures |r| == WindowSize(|s|, skip, limit)
  {
    if |r| > 0 {
      var lo := if skip < 0 then 0 else skip;
      var last := r[|r| - 1];
      assert lo + (|r| - 1) < |s| && last == s[lo + (|r| - 1)];
    }
  }

  /** At most one sequence is the window of `s` at `skip` and `limit`. */
  lemma {:induction false} WindowDetermined(r1: seq<Employee>, r2: seq<Employee>, s: seq<Employee>, skip: int, limit: int)
    requires IsWindow(r1, s, skip, limit) && IsWindow(r2, s, skip, limit)
    ensures r1 == r2
  {
    WindowLength(r1, s, skip, limit);
    WindowLength(r2, s, skip, limit);
    var lo := if skip < 0 then 0 else skip;
    forall i | 0 <= i < |r1| ensures r1[i] == r2[i] {
      assert r1[i] == s[lo + i] == r2[i];
    }
  }

  /** Two windows side by side are one window of twice the size. */
  lemma {:induction false} AdjacentWindows(s: seq<Employee>, skip: int, limit: int)
    requires skip >= 0 && limit >= 0
    ensures Window(s, skip, limit) + Window(s, skip + limit, limit) == Window(s, skip, 2 * limit)
  {
    var a := if skip > |s| then |s| else skip;
    var b := if skip + limit > |s| then |s| else skip + limit;
    var c := if skip + 2 * limit > |s| then |s| else skip + 2 * limit;
    assert Window(s, skip, limit) == s[a..b];
    assert Window(s, skip + limit, limit) == s[b..c];
    assert Window(s, skip, 2 * limit) == s[a..c];
    assert s[a..b] + s[b..c] == s[a..c];
  }

  /** `get_employees`: the filtered rows, then the offset and the limit. */
  function GetEmployees(t: seq<Employee>, skip: int := 0, limit: int := 10,
                        department: Option<string> := None, role: Option<string> := None): (r: seq<Employee>)
    ensures limit >= 0 ==> |r| <= limit
    ensures forall e :: e in r ==> e in t && Matches(e, department, role)
    ensures IsWindow(r, Filtered(t, department, role), skip, limit)
  {
    Window(Filtered(t, department, role), skip, limit)
  }

  // ------------------------------------------------- updating attributes

  /** One attribute of an `Employee` object, by field name. */
  function AttrOf(a: EmployeeAttrs, f: Schemas.Field): Option<string> {
    match f
    case Name => a.name
    case Email => a.email
    case Department => a.department
    case Role => a.role
  }

  /** `setattr(db_employee, key, value)`. */
  function SetAttr(a: EmployeeAttrs, item: (Schemas.Field, Option<string>)): EmployeeAttrs {
    match item.0
    case Name => a.(name := item.1)
    case Email => a.(email := item.1)
    case Department => a.(department := item.1)
    case Role => a.(role := item.1)
  }

  /** The attributes after `setattr` for each item in turn. */
  function ApplyItems(a: EmployeeAttrs, items: seq<(Schemas.Field, Option<string>)>): EmployeeAttrs {
    if items == [] then a else SetAttr(ApplyItems(a, items[..|items| - 1]), items[|items| - 1])
  }

  /** The partial-update rule stated field by field: a sent field takes the
      value sent (null included), an omitted field keeps its value. */
  function Overlay(a: EmployeeAttrs, u: Schemas.EmployeeUpdate): EmployeeAttrs {
    EmployeeAttrs(
      if u.name.Sent? then u.name.value else a.name,
      if u.email.Sent? then u.email.value else a.email,
      if u.department.Sent? then u.department.value else a.department,
      if u.role.Sent? then u.role.value else a.role)
  }

  /** With distinct keys, each item's field ends with the item's value and
      every field no item names is left alone. */
  lemma {:induction false} ApplyItemsField(a: EmployeeAttrs, items: seq<(Schemas.Field, Option<string>)>, f: Schemas.Field)
    requires forall i, j :: 0 <= i < j < |items| ==> items[i].0 != items[j].0
    ensures forall i :: 0 <= i < |items| && items[i].0 == f ==> AttrOf(ApplyItems(a, items), f) == items[i].1
    ensures (forall i :: 0 <= i < |items| ==> items[i].0 != f) ==> AttrOf(ApplyItems(a, items), f) == AttrOf(a, f)
  {
    if items != [] {
      var n := |items| - 1;
      var init := items[..n];
      ApplyItemsField(a, init, f);
      assert forall i :: 0 <= i < n ==> init[i] == items[i];
    }
  }

  lemma {:induction false} UpdateDataField(a: EmployeeAttrs, u: Schemas.EmployeeUpdate, f: Schemas.Field)
    ensures AttrOf(ApplyItems(a, Schemas.UpdateData(u)), f) == AttrOf(Overlay(a, u), f)
  {
    var items := Schemas.UpdateData(u);
    var sent := Schemas.FieldOf(u, f);
    assert AttrOf(Overlay(a, u), f) == if sent.Sent? then sent.value else AttrOf(a, f) by {
      match f
      case Name =>
      case Email =>
      case Department =>
      case Role =>
    }
    ApplyItemsField(a, items, f);
    if sent.Sent? {
      var i :| 0 <= i < |items| && items[i] == (f, sent.value);
      assert items[i].0 == f;
    } else {
      forall i | 0 <= i < |items| ensures items[i].0 != f {
        assert Schemas.FieldOf(u, items[i].0).Sent?;
      }
    }
  }

  /** Writing the `exclude_unset` items one by one is the partial-update
      rule. */
  lemma {:induction false} UpdateDataIsOverlay(a: EmployeeAttrs, u: Schemas.EmployeeUpdate)
    ensures ApplyItems(a, Schemas.UpdateData(u)) == Overlay(a, u)
  {
    UpdateDataField(a, u, Schemas.Name);
    UpdateDataField(a, u, Schemas.Email);
    UpdateDataField(a, u, Schemas.Department);
    UpdateDataField(a, u, Schemas.Role);
  }

  // ------------------------------------------------------- transactions

  /** What one repository call ends with: its return value or exception,
      and the committed (or rolled-back) table. */
  datatype Outcome = Outcome(result: Result<Employee>, table: seq<Employee>)

  /** Commit `candidate` if the database accepts it, else roll back to `t`. */
  function Commit(t: seq<Employee>, candidate: seq<Employee>, row: Employee): Outcome {
    if EmployeesValid(candidate) then Outcome(Ok(row), candidate) else Outcome(Err(EmailExists), t)
  }

  /** `create_employee` issued at time `now`. */
  function CreateSpec(t: seq<Employee>, employee: Schemas.EmployeeCreate, now: DateTime): (o: Outcome)
    requires EmployeesValid(t)
    ensures EmployeesValid(o.table)
  {
    var row := Employee(NextEmployeeId(t), employee.name, employee.email, employee.department, employee.role, now);
    Commit(t, t + [row], row)
  }

  /** `update_employee`. */
  function UpdateSpec(t: seq<Employee>, employeeId: int, employee: Schemas.EmployeeUpdate): (o: Outcome)
    requires EmployeesValid(t)
    ensures EmployeesValid(o.table)
  {
    match IndexOf(t, employeeId)
    case None => Outcome(Err(NotFound), t)
    case Some(k) =>
      var attrs := ApplyItems(AttrsOf(t[k]), Schemas.UpdateData(employee));
      match Flush(t[k].id, attrs, t[k].dateJoined)
      case None => Outcome(Err(EmailExists), t)
      case Some(row) => Commit(t, t[k := row], row)
  }

  /** `delete_employee`. */
  function DeleteSpec(t: seq<Employee>, employeeId: int): (o: Outcome)
    requires EmployeesValid(t)
    ensures EmployeesValid(o.table)
  {
    match IndexOf(t, employeeId)
    case None => Outcome(Err(NotFound), t)
    case Some(k) => Outcome(Ok(t[k]), RemoveAt(t, k))
  }

  /** The table without its `k`-th row, the others in order. */
  function RemoveAt(t: seq<Employee>, k: nat): (r: seq<Employee>)
    requires k < |t|
    ensures |r| == |t| - 1
    ensures forall i :: 0 <= i < |r| ==> r[i] == t[if i < k then i else i + 1]
    ensures EmployeesValid(t) ==> EmployeesValid(r)
  {
    t[..k] + t[k + 1..]
  }

  /** With unique ids, the rows left are exactly the rows with another id. */
  lemma {:induction false} RemoveAtMembers(t: seq<Employee>, k: nat)
    requires IdsAscending(t) && k < |t|
    ensures forall e :: e in RemoveAt(t, k) <==> e in t && e.id != t[k].id
  {
    var rest := RemoveAt(t, k);
    forall e ensures e in rest <==> e in t && e.id != t[k].id {
      if e in t && e.id != t[k].id {
        var j :| 0 <= j < |t| && t[j] == e;
        assert j != k;
        assert rest[if j < k then j else j - 1] == e;
      }
      if e in rest {
        var i :| 0 <= i < |rest| && rest[i] == e;
        var j := if i < k then i else i + 1;
        assert t[j] == e && j != k;
      }
    }
  }

  // ------------------------------------------------ what the writes mean

  /** Appending a row keeps emails unique exactly when no row has its email. */
  lemma {:induction false} AppendUnique(t: seq<Employee>, row: Employee)
    requires UniqueEmails(t)
    ensures UniqueEmails(t + [row]) <==> forall j :: 0 <= j < |t| ==> t[j].email != row.email
  {
    if forall j :: 0 <= j < |t| ==> t[j].email != row.email {
      forall i, j | 0 <= i < j < |t + [row]| ensures (t + [row])[i].email != (t + [row])[j].email {
        if j == |t| { assert (t + [row])[j] == row && (t + [row])[i] == t[i]; }
        else { assert (t + [row])[i] == t[i] && (t + [row])[j] == t[j]; }
      }
    } else {
      var j :| 0 <= j < |t| && t[j].email == row.email;
      assert (t + [row])[j] == t[j] && (t + [row])[|t|] == row;
    }
  }

  /** Replacing row `k` keeps emails unique exactly when no other row has the
      new row's email. */
  lemma {:induction false} ReplaceUnique(t: seq<Employee>, k: nat, row: Employee)
    requires UniqueEmails(t) && k < |t|
    ensures UniqueEmails(t[k := row]) <==> forall j :: 0 <= j < |t| && j != k ==> t[j].email != row.email
  {
    if !(forall j :: 0 <= j < |t| && j != k ==> t[j].email != row.email) {
      var j :| 0 <= j < |t| && j != k && t[j].email == row.email;
      if j < k { assert t[k := row][j].email == t[k := row][k].email; }
      else { assert t[k := row][k].email == t[k := row][j].email; }
    }
  }

  /** Create with an email no row has: exactly one row is added, after the
      others, carrying the draft's fields, a fresh id and the insert time;
      the existing rows are unchanged and a lookup by the new id finds it. */
  lemma {:induction false} CreateWithNewEmail(t: seq<Employee>, employee: Schemas.EmployeeCreate, now: DateTime)
    requires EmployeesValid(t)
    requires forall j :: 0 <= j < |t| ==> t[j].email != employee.email
    ensures var o := CreateSpec(t, employee, now);
      && o.result.Ok?
      && var e := o.result.value;
      && e.name == employee.name && e.email == employee.email
      && e.department == employee.department && e.role == employee.role
      && e.dateJoined == now
      && (forall j :: 0 <= j < |t| ==> t[j].id != e.id)
      && o.table == t + [e]
      && GetEmployee(o.table, e.id) == Some(e)
  {
    var row := Employee(NextEmployeeId(t), employee.name, employee.email, employee.department, employee.role, now);
    AppendUnique(t, row);
    assert (t + [row])[|t|] == row;
  }

  /** Create with an email already in the table: 400 "Email already exists"
      and the table exactly as before. */
  lemma {:induction false} CreateWithTakenEmail(t: seq<Employee>, employee: Schemas.EmployeeCreate, now: DateTime)
    requires EmployeesValid(t)
    requires exists j :: 0 <= j < |t| && t[j].email == employee.email
    ensures CreateSpec(t, employee, now) == Outcome(Err(EmailExists), t)
  {
    var row := Employee(NextEmployeeId(t), employee.name, employee.email, employee.department, employee.role, now);
    AppendUnique(t, row);
  }

  /** Update of an id no row has: 404 and nothing changes. */
  lemma {:induction false} UpdateAbsent(t: seq<Employee>, employeeId: int, employee: Schemas.EmployeeUpdate)
    requires EmployeesValid(t)
    requires GetEmployee(t, employeeId).None?
    ensures UpdateSpec(t, employeeId, employee) == Outcome(Err(NotFound), t)
  {
  }

  /** Update of a present row. The new attributes are the old ones overlaid
      with exactly the fields sent. The update commits exactly when those
      leave name and email non-null and no other row has that email; then
      only that row changes, keeping its id and `date_joined`. Otherwise the
      error is 400 "Email already exists" and the table is as before. */
  lemma {:induction false} UpdatePresent(t: seq<Employee>, employeeId: int, employee: Schemas.EmployeeUpdate)
    requires EmployeesValid(t)
    requires GetEmployee(t, employeeId).Some?
    ensures
      var before := GetEmployee(t, employeeId).value;
      var attrs := Overlay(AttrsOf(before), employee);
      var o := UpdateSpec(t, employeeId, employee);
      && (o.result.Ok? <==>
            && attrs.name.Some? && attrs.email.Some?
            && forall j :: 0 <= j < |t| && t[j].id != employeeId ==> Some(t[j].email) != attrs.email)
      && (o.result.Ok? ==>
            && AttrsOf(o.result.value) == attrs
            && o.result.value.id == employeeId
            && o.result.value.dateJoined == before.dateJoined
            && |o.table| == |t|
            && (forall j :: 0 <= j < |t| ==> o.table[j] == if t[j].id == employeeId then o.result.value else t[j])
            && GetEmployee(o.table, employeeId) == Some(o.result.value))
      && (o.result.Err? ==> o == Outcome(Err(EmailExists), t))
  {
    var k := IndexOf(t, employeeId).value;
    assert t[k] == GetEmployee(t, employeeId).value;
    UpdateDataIsOverlay(AttrsOf(t[k]), employee);
    var attrs := Overlay(AttrsOf(t[k]), employee);
    match Flush(t[k].id, attrs, t[k].dateJoined)
    case None =>
    case Some(row) =>
      ReplaceUnique(t, k, row);
      assert IdsAscending(t[k := row]);
      assert forall j :: 0 <= j < |t| ==> (t[j].id == employeeId <==> j == k);
      if EmployeesValid(t[k := row]) {
        assert t[k := row][k] == row && row.id == employeeId;
      }
  }

  /** An update that sends `name: null` for a present row fails the NOT NULL
      constraint and is reported as "Email already exists". */
  lemma {:induction false} UpdateNullName(t: seq<Employee>, employeeId: int, employee: Schemas.EmployeeUpdate)
    requires EmployeesValid(t)
    requires GetEmployee(t, employeeId).Some?
    requires employee.name == Schemas.Sent(None)
    ensures UpdateSpec(t, employeeId, employee) == Outcome(Err(EmailExists), t)
  {
    UpdatePresent(t, employeeId, employee);
  }

  /** Delete of an id no row has: 404 and nothing changes. */
  lemma {:induction false} DeleteAbsent(t: seq<Employee>, employeeId: int)
    requires EmployeesValid(t)
    requires GetEmployee(t, employeeId).None?
    ensures DeleteSpec(t, employeeId) == Outcome(Err(NotFound), t)
  {
  }

  /** Delete of a present row returns it and removes exactly it: the table
      loses one row, holds every other row and no row with that id. */
  lemma {:induction false} DeletePresent(t: seq<Employee>, employeeId: int)
    requires EmployeesValid(t)
    requires GetEmployee(t, employeeId).Some?
    ensures
      var o := DeleteSpec(t, employeeId);
      && o.result == Ok(GetEmployee(t, employeeId).value)
      && |o.table| == |t| - 1
      && (forall e :: e in o.table <==> e in t && e.id != employeeId)
      && GetEmployee(o.table, employeeId).None?
  {
    var k := IndexOf(t, employeeId).value;
    RemoveAtMembers(t, k);
  }

  /** Delete leaves every other id as it was: a lookup of any other id
      gives what it gave before. */
  lemma {:induction false} DeleteKeepsOthers(t: seq<Employee>, employeeId: int, other: int)
    requires EmployeesValid(t)
    requires other != employeeId
    ensures GetEmployee(DeleteSpec(t, employeeId).table, other) == GetEmployee(t, other)
  {
    match IndexOf(t, employeeId)
    case None =>
    case Some(k) =>
      var rest := RemoveAt(t, k);
      if j :| 0 <= j < |t| && t[j].id == other {
        assert j != k;
        assert rest[if j < k then j else j - 1] == t[j];
      } else {
        assert forall i :: 0 <= i < |rest| ==> rest[i].id != other by {
          forall i | 0 <= i < |rest| ensures rest[i].id != other {
            assert rest[i] == t[if i < k then i else i + 1];
          }
        }
      }
  }

  // -------------------------------------------------------------- the store

  /** The `employees` table as the session sees it between requests. */
  class EmployeeStore {
    var rows: seq<Employee>

    ghost predicate Valid()
      reads this
    {
      EmployeesValid(rows)
    }

    constructor ()
      ensures Valid() && rows == []
    {
      rows := [];
    }

    /** `create_employee`: add and commit, or roll back on IntegrityError. */
    method CreateEmployee(employee: Schemas.EmployeeCreate, now: DateTime) returns (r: Result<Employee>)
      requires Valid()
      modifies this
      ensures Valid()
      ensures Outcome(r, rows) == CreateSpec(old(rows), employee, now)
    {
      var dbEmployee := Employee(NextEmployeeId(rows), employee.name, employee.email,
                                 employee.department, employee.role, now);
      var candidate := rows + [dbEmployee];
      if EmployeesValid(candidate) {
        rows := candidate;
        r := Ok(dbEmployee);
      } else {
        r := Err(EmailExists);
      }
    }

    /** `update_employee`: look the row up, `setattr` each sent field in
      turn, then commit, or roll back on IntegrityError. */
    method UpdateEmployee(employeeId: int, employee: Schemas.EmployeeUpdate) returns (r: Result<Employee>)
      requires Valid()
      modifies this
      ensures Valid()
      ensures Outcome(r, rows) == UpdateSpec(old(rows), employeeId, employee)
    {
      var found := IndexOf(rows, employeeId);
      if found.None? {
        return Err(NotFound);
      }
      var k := found.value;
      var updateData := Schemas.UpdateData(employee);
      var attrs := AttrsOf(rows[k]);
      var i := 0;
      while i < |updateData|
        invariant 0 <= i <= |updateData|
        invariant attrs == ApplyItems(AttrsOf(rows[k]), updateData[..i])
      {
        assert updateData[..i + 1][..i] == updateData[..i];
        attrs := SetAttr(attrs, updateData[i]);
        i := i + 1;
      }
      assert updateData[..i] == updateData;
      match Flush(rows[k].id, attrs, rows[k].dateJoined)
      case None =>
        r := Err(EmailExists);
      case Some(dbEmployee) =>
        var candidate := rows[k := dbEmployee];
        if EmployeesValid(candidate) {
          rows := candidate;
          r := Ok(dbEmployee);
        } else {
          r := Err(EmailExists);
        }
    }

    /** `delete_employee`: look the row up, delete it and commit. */
    method DeleteEmployee(employeeId: int) returns (r: Result<Employee>)
      requires Valid()
      modifies this
      ensures Valid()
      ensures Outcome(r, rows) == DeleteSpec(old(rows), employeeId)
    {
      var found := IndexOf(rows, employeeId);
      if found.None? {
        return Err(NotFound);
      }
      var k := found.value;
      r := Ok(rows[k]);
      rows := RemoveAt(rows, k);
    }
  }
}

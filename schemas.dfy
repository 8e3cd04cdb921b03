/** The request and response shapes of the employee API (app/schemas.py). */
module Schemas {
  import opened Http

  /** The `datetime` the database stores in `date_joined`; its value is
      opaque to the application. */
  type DateTime = int

  /** `EmployeeCreate`: name and email are required plain strings (no format
      check on the email); department and role default to null. */
  datatype EmployeeCreate = EmployeeCreate(
    name: string,
    email: string,
    department: Option<string> := None,
    role: Option<string> := None)

  /** The `Employee` response: the base fields plus `id` and `date_joined`. */
  datatype Employee = Employee(
    name: string,
    email: string,
    department: Option<string>,
    role: Option<string>,
    id: int,
    dateJoined: DateTime)

  /** Whether the client sent a field of a partial update at all. `Sent(None)`
      is an explicit JSON null, which pydantic counts as set. */
  datatype Patch<+T> = Unset | Sent(value: T)

  /** `EmployeeUpdate`: every field optional; an omitted field is unset. */
  datatype EmployeeUpdate = EmployeeUpdate(
    name: Patch<Option<string>> := Unset,
    email: Patch<Option<string>> := Unset,
    department: Patch<Option<string>> := Unset,
    role: Patch<Option<string>> := Unset)

  /** The names of the fields of `EmployeeUpdate`, in declaration order. */
  datatype Field = Name | Email | Department | Role

  function FieldOf(u: EmployeeUpdate, f: Field): Patch<Option<string>> {
    match f
    case Name => u.name
    case Email => u.email
    case Department => u.department
    case Role => u.role
  }

  /** `u.dict(exclude_unset=True)` as its sequence of items: every field the
      client sent, once, with the value it sent, and no other field. */
  function UpdateData(u: EmployeeUpdate): (items: seq<(Field, Option<string>)>)
    ensures forall i, j :: 0 <= i < j < |items| ==> items[i].0 != items[j].0
    ensures forall i :: 0 <= i < |items| ==> FieldOf(u, items[i].0) == Sent(items[i].1)
    ensures forall f: Field :: FieldOf(u, f).Sent? ==> (f, FieldOf(u, f).value) in items
  {
    (if u.name.Sent? then [(Name, u.name.value)] else [])
    + (if u.email.Sent? then [(Email, u.email.value)] else [])
    + (if u.department.Sent? then [(Department, u.department.value)] else [])
    + (if u.role.Sent? then [(Role, u.role.value)] else [])
  }

  /** `Token`: the access token and its type. */
  datatype Token = Token(accessToken: string, tokenType: string)
}

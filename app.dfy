/** The endpoint handlers (app/main.py). Each employee endpoint first passes
    the token gate; those that mutate the table are methods on the store,
    the others are functions of it. */
module App {
  import opened Http
  import Auth
  import Crud
  import Models
  import Schemas
  import Text

  datatype Body =
    | TokenBody(token: Schemas.Token)
    | EmployeeBody(employee: Schemas.Employee)
    | EmployeeListBody(employees: seq<Schemas.Employee>)
    | DetailBody(detail: string)
    | ValidationErrorBody
    | NoBody

  datatype Response = Response(statusCode: int, body: Body, headers: map<string, string>)

  /** How the framework renders a raised `HTTPException`. */
  function ErrorResponse(e: HttpException): Response {
    Response(e.statusCode, DetailBody(e.detail), e.headers)
  }

  const NameEmpty: HttpException := HttpException(400, "Name cannot be empty", NoHeaders)

  const IncorrectLogin: HttpException :=
    HttpException(401, "Incorrect username or password", Auth.BearerChallenge)

  /** The 422 a query parameter outside its declared bounds gets. */
  const InvalidQuery: Response := Response(422, ValidationErrorBody, NoHeaders)

  /** The declared upper bound of `limit` (`Query(default=10, le=10)`). */
  const MaxLimit: int := 10

  /** The `Employee` response model read from a row. */
  function ToSchema(e: Models.Employee): (r: Schemas.Employee)
    ensures r.id == e.id && r.dateJoined == e.dateJoined
    ensures r.name == e.name && r.email == e.email
    ensures r.department == e.department && r.role == e.role
  {
    Schemas.Employee(e.name, e.email, e.department, e.role, e.id, e.dateJoined)
  }

  function ToSchemas(rows: seq<Models.Employee>): (r: seq<Schemas.Employee>)
    ensures |r| == |rows| && forall i :: 0 <= i < |rows| ==> r[i] == ToSchema(rows[i])
  {
    if rows == [] then [] else [ToSchema(rows[0])] + ToSchemas(rows[1..])
  }

  /** A repository result as the endpoint returns it: the record with the
      endpoint's success status, or the exception. */
  function Reply(result: Result<Models.Employee>, status: int): Response {
    match result
    case Ok(e) => Response(status, EmployeeBody(ToSchema(e)), NoHeaders)
    case Err(e) => ErrorResponse(e)
  }

  // ------------------------------------------------------------- POST /token

  /** `login_for_access_token`: 401 for every pair the stub rejects, else
      the issued token with type "bearer". */
  function LoginForAccessToken(username: string, password: string): (r: Response)
    ensures r.statusCode == 200 <==> Auth.AuthenticateUser(username, password).Some?
    ensures r.statusCode == 200 ==> r.body == TokenBody(Schemas.Token("secret-token", "bearer"))
    ensures r.statusCode != 200 ==>
      r == Response(401, DetailBody("Incorrect username or password"), map["WWW-Authenticate" := "Bearer"])
  {
    match Auth.AuthenticateUser(username, password)
    case None => ErrorResponse(IncorrectLogin)
    case Some(user) =>
      var accessToken := Auth.CreateAccessToken(map["sub" := user.username]);
      Response(200, TokenBody(Schemas.Token(accessToken, "bearer")), NoHeaders)
  }

  /** The token a successful login hands out opens the gate. */
  lemma {:induction false} LoginTokenOpensGate(username: string, password: string)
    requires LoginForAccessToken(username, password).statusCode == 200
    ensures LoginForAccessToken(username, password).body.TokenBody?
    ensures Auth.RequireUser(Some(LoginForAccessToken(username, password).body.token.accessToken)) == Ok(Auth.Admin)
  {
    var user := Auth.AuthenticateUser(username, password).value;
    Auth.IssuedTokenAccepted(map["sub" := user.username]);
  }

  // ------------------------------------------------------ GET /api/employees/

  /** The records `read_employees` lists for page `page`: `get_employees`
      with `skip = (page - 1) * limit`. */
  function Page(rows: seq<Models.Employee>, page: int, limit: int,
                department: Option<string>, role: Option<string>): seq<Schemas.Employee> {
    ToSchemas(Crud.GetEmployees(rows, (page - 1) * limit, limit, department, role))
  }

  /** `read_employees`: the gate, the `le=10` bound on `limit`, then the
      page. */
  function ReadEmployees(store: Crud.EmployeeStore, bearer: Option<string>, page: int := 1, limit: int := 10,
                         department: Option<string> := None, role: Option<string> := None): (r: Response)
    reads store
    ensures Auth.RequireUser(bearer).Err? ==> r == ErrorResponse(Auth.RequireUser(bearer).error)
    ensures Auth.RequireUser(bearer).Ok? ==> (r.statusCode == 200 <==> limit <= MaxLimit)
    ensures Auth.RequireUser(bearer).Ok? && limit > MaxLimit ==> r == InvalidQuery
    ensures r.statusCode == 200 ==> r.body == EmployeeListBody(Page(store.rows, page, limit, department, role))
    ensures r.statusCode == 200 && limit >= 0 ==> |r.body.employees| <= limit
    ensures r.statusCode == 200 ==> forall x :: x in r.body.employees ==>
      exists e :: e in store.rows && Crud.Matches(e, department, role) && x == ToSchema(e)
  {
    match Auth.RequireUser(bearer)
    case Err(e) => ErrorResponse(e)
    case Ok(_) =>
      if limit > MaxLimit then InvalidQuery
      else
        var employees := Crud.GetEmployees(store.rows, (page - 1) * limit, limit, department, role);
        assert forall i :: 0 <= i < |employees| ==> employees[i] in employees;
        Response(200, EmployeeListBody(Page(store.rows, page, limit, department, role)), NoHeaders)
  }

  /** Page `page` of the filtered rows is the window starting at row
      `(page - 1) * limit`: its `i`-th entry is that row plus `i`, and it
      holds `limit` entries unless the rows run out first. */
  lemma {:induction false} PageIsWindow(rows: seq<Models.Employee>, page: int, limit: int,
                                        department: Option<string>, role: Option<string>)
    requires page >= 1 && 0 <= limit <= MaxLimit
    ensures
      var f := Crud.Filtered(rows, department, role);
      var skip := (page - 1) * limit;
      var p := Page(rows, page, limit, department, role);
      && skip >= 0
      && |p| == Crud.WindowSize(|f|, skip, limit)
      && forall i :: 0 <= i < |p| ==> skip + i < |f| && p[i] == ToSchema(f[skip + i])
  {
    var f := Crud.Filtered(rows, department, role);
    var skip := (page - 1) * limit;
    PageOffsets(page, limit);
    Crud.WindowLength(Crud.GetEmployees(rows, skip, limit, department, role), f, skip, limit);
  }

  /** Two consecutive pages together are the window of twice the size. */
  lemma {:induction false} ConsecutivePages(rows: seq<Models.Employee>, page: int, limit: int,
                                            department: Option<string>, role: Option<string>)
    requires page >= 1 && 0 <= limit <= MaxLimit
    ensures Page(rows, page, limit, department, role) + Page(rows, page + 1, limit, department, role)
      == ToSchemas(Crud.Window(Crud.Filtered(rows, department, role), (page - 1) * limit, 2 * limit))
  {
    var f := Crud.Filtered(rows, department, role);
    var skip := (page - 1) * limit;
    var next := (page + 1 - 1) * limit;
    PageOffsets(page, limit);
    Crud.AdjacentWindows(f, skip, limit);
    ToSchemasAppend(Crud.Window(f, skip, limit), Crud.Window(f, next, limit));
  }

  /** The offsets of page `page` and of the page after it. */
  lemma PageOffsets(page: int, limit: int)
    requires page >= 1 && limit >= 0
    ensures (page - 1) * limit >= 0
    ensures (page + 1 - 1) * limit == (page - 1) * limit + limit
  {
    assert (page - 1) * limit + limit == page * limit;
  }

  lemma {:induction false} ToSchemasAppend(a: seq<Models.Employee>, b: seq<Models.Employee>)
    ensures ToSchemas(a + b) == ToSchemas(a) + ToSchemas(b)
  {
    var l, r := ToSchemas(a + b), ToSchemas(a) + ToSchemas(b);
    assert |l| == |r|;
    forall i | 0 <= i < |l| ensures l[i] == r[i] {
      if i < |a| { assert (a + b)[i] == a[i]; } else { assert (a + b)[i] == b[i - |a|]; }
    }
  }

  /** As written, `limit` has an upper bound only: `limit = -1` passes
      validation, the offset on page 1 is 0 and SQLite takes a negative
      limit as no limit, so every matching row comes back, however many
      there are. */
  lemma {:induction false} NegativeLimitListsAll(store: Crud.EmployeeStore, bearer: Option<string>,
                                                 department: Option<string>, role: Option<string>)
    requires Auth.RequireUser(bearer).Ok?
    ensures
      var r := ReadEmployees(store, bearer, 1, -1, department, role);
      && r.statusCode == 200
      && r.body.employees == ToSchemas(Crud.Filtered(store.rows, department, role))
  {
    var f := Crud.Filtered(store.rows, department, role);
    Crud.WindowDetermined(Crud.Window(f, 0, -1), f, f, 0, -1);
    assert Page(store.rows, 1, -1, department, role) == ToSchemas(f);
  }

  /** `read_employees` with `limit` bounded below as well as above
      (`Query(default=10, ge=1, le=10)`): no page ever holds more than ten
      records. */
  function ReadEmployeesBounded(store: Crud.EmployeeStore, bearer: Option<string>, page: int := 1, limit: int := 10,
                                department: Option<string> := None, role: Option<string> := None): (r: Response)
    reads store
    ensures Auth.RequireUser(bearer).Err? ==> r == ErrorResponse(Auth.RequireUser(bearer).error)
    ensures Auth.RequireUser(bearer).Ok? ==> (r.statusCode == 200 <==> 1 <= limit <= MaxLimit)
    ensures Auth.RequireUser(bearer).Ok? && !(1 <= limit <= MaxLimit) ==> r == InvalidQuery
    ensures r.statusCode == 200 ==> r == ReadEmployees(store, bearer, page, limit, department, role)
    ensures r.statusCode == 200 ==> r.body.EmployeeListBody? && |r.body.employees| <= MaxLimit
  {
    match Auth.RequireUser(bearer)
    case Err(e) => ErrorResponse(e)
    case Ok(_) =>
      if limit < 1 || limit > MaxLimit then InvalidQuery
      else ReadEmployees(store, bearer, page, limit, department, role)
  }

  // ------------------------------------------------ GET /api/employees/{id}/

  /** `read_employee`: the gate, then the record, or 404 when absent. */
  function ReadEmployee(store: Crud.EmployeeStore, bearer: Option<string>, employeeId: int): (r: Response)
    reads store
    ensures Auth.RequireUser(bearer).Err? ==> r == ErrorResponse(Auth.RequireUser(bearer).error)
    ensures Auth.RequireUser(bearer).Ok? && (forall j :: 0 <= j < |store.rows| ==> store.rows[j].id != employeeId) ==>
      r == Response(404, DetailBody("Employee not found"), map[])
    ensures Auth.RequireUser(bearer).Ok? && Models.IdsAscending(store.rows) ==>
      forall j :: 0 <= j < |store.rows| && store.rows[j].id == employeeId ==>
        r == Response(200, EmployeeBody(ToSchema(store.rows[j])), map[])
  {
    match Auth.RequireUser(bearer)
    case Err(e) => ErrorResponse(e)
    case Ok(_) =>
      match Crud.GetEmployee(store.rows, employeeId)
      case None => ErrorResponse(Crud.NotFound)
      case Some(e) => Response(200, EmployeeBody(ToSchema(e)), NoHeaders)
  }

  // ------------------------------------------------------ POST /api/employees/

  /** `create_employee`: the gate, the blank-name check, then the
      repository; nothing is written unless both checks pass. */
  method CreateEmployee(store: Crud.EmployeeStore, bearer: Option<string>, employee: Schemas.EmployeeCreate,
                        now: Models.DateTime) returns (r: Response)
    requires store.Valid()
    modifies store
    ensures store.Valid()
    ensures Auth.RequireUser(bearer).Err? ==>
      r == ErrorResponse(Auth.RequireUser(bearer).error) && store.rows == old(store.rows)
    ensures Auth.RequireUser(bearer).Ok? && Text.IsBlank(employee.name) ==>
      r == Response(400, DetailBody("Name cannot be empty"), map[]) && store.rows == old(store.rows)
    ensures Auth.RequireUser(bearer).Ok? && !Text.IsBlank(employee.name) ==>
      var o := Crud.CreateSpec(old(store.rows), employee, now);
      store.rows == o.table && r == Reply(o.result, 201)
  {
    var currentUser := Auth.RequireUser(bearer);
    if currentUser.Err? {
      return ErrorResponse(currentUser.error);
    }
    if Text.IsBlank(employee.name) {
      return ErrorResponse(NameEmpty);
    }
    var result := store.CreateEmployee(employee, now);
    r := Reply(result, 201);
  }

  // ------------------------------------------------ PUT /api/employees/{id}/

  /** The blank-name check of an update: only a sent, non-null name is
      checked. An omitted name and an explicit null both read as `None`. */
  predicate UpdateNameBlank(employee: Schemas.EmployeeUpdate) {
    employee.name.Sent? && employee.name.value.Some? && Text.IsBlank(employee.name.value.value)
  }

  /** `update_employee`: the gate, the blank-name check, then the
      repository. */
  method UpdateEmployee(store: Crud.EmployeeStore, bearer: Option<string>, employeeId: int,
                        employee: Schemas.EmployeeUpdate) returns (r: Response)
    requires store.Valid()
    modifies store
    ensures store.Valid()
    ensures Auth.RequireUser(bearer).Err? ==>
      r == ErrorResponse(Auth.RequireUser(bearer).error) && store.rows == old(store.rows)
    ensures Auth.RequireUser(bearer).Ok? && UpdateNameBlank(employee) ==>
      r == Response(400, DetailBody("Name cannot be empty"), map[]) && store.rows == old(store.rows)
    ensures Auth.RequireUser(bearer).Ok? && !UpdateNameBlank(employee) ==>
      var o := Crud.UpdateSpec(old(store.rows), employeeId, employee);
      store.rows == o.table && r == Reply(o.result, 200)
  {
    var currentUser := Auth.RequireUser(bearer);
    if currentUser.Err? {
      return ErrorResponse(currentUser.error);
    }
    var name := if employee.name.Sent? then employee.name.value else None;
    if name.Some? && Text.IsBlank(name.value) {
      return ErrorResponse(NameEmpty);
    }
    var result := store.UpdateEmployee(employeeId, employee);
    r := Reply(result, 200);
  }

  // --------------------------------------------- DELETE /api/employees/{id}/

  /** `delete_employee`: the gate, then the repository; 204 with no body on
      success. */
  method DeleteEmployee(store: Crud.EmployeeStore, bearer: Option<string>, employeeId: int) returns (r: Response)
    requires store.Valid()
    modifies store
    ensures store.Valid()
    ensures Auth.RequireUser(bearer).Err? ==>
      r == ErrorResponse(Auth.RequireUser(bearer).error) && store.rows == old(store.rows)
    ensures Auth.RequireUser(bearer).Ok? ==>
      var o := Crud.DeleteSpec(old(store.rows), employeeId);
      && store.rows == o.table
      && r == if o.result.Ok? then Response(204, NoBody, map[]) else ErrorResponse(o.result.error)
  {
    var currentUser := Auth.RequireUser(bearer);
    if currentUser.Err? {
      return ErrorResponse(currentUser.error);
    }
    var result := store.DeleteEmployee(employeeId);
    if result.Err? {
      return ErrorResponse(result.error);
    }
    r := Response(204, NoBody, NoHeaders);
  }
}

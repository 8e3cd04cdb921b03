/** The stub credential and token check (app/auth.py): one fixed credential
    pair, one fixed token, no hashing, no signature and no expiry. */
module Auth {
  import opened Http

  /** The principal `{"username": ...}` the stub hands out. */
  datatype Principal = Principal(username: string)

  const AdminUsername: string := "admin"
  const AdminPassword: string := "password"
  const SecretToken: string := "secret-token"
  const Admin: Principal := Principal(AdminUsername)

  const BearerChallenge: map<string, string> := map["WWW-Authenticate" := "Bearer"]

  /** The exception `get_current_user` raises on any other token. */
  const CredentialsException: HttpException :=
    HttpException(401, "Could not validate credentials", BearerChallenge)

  /** The exception the `OAuth2PasswordBearer` dependency raises when the
      request carries no bearer credential at all. */
  const NotAuthenticated: HttpException :=
    HttpException(401, "Not authenticated", BearerChallenge)

  /** `authenticate_user`: the admin principal for the one accepted pair,
      `False` (here `None`) for every other pair. */
  function AuthenticateUser(username: string, password: string): (r: Option<Principal>)
    ensures r.Some? <==> username == "admin" && password == "password"
    ensures r.Some? ==> r.value == Principal("admin")
  {
    if username == AdminUsername && password == AdminPassword then Some(Admin) else None
  }

  /** `create_access_token`: the claims are ignored. */
  function CreateAccessToken(data: map<string, string>): (token: string)
    ensures token == "secret-token"
  {
    SecretToken
  }

  /** `get_current_user`: the admin principal for the one accepted token,
      the 401 credentials exception for any other. */
  function GetCurrentUser(token: string): (r: Result<Principal>)
    ensures r.Ok? <==> token == "secret-token"
    ensures r.Ok? ==> r.value == Principal("admin")
    ensures r.Err? ==> r.error == HttpException(401, "Could not validate credentials", map["WWW-Authenticate" := "Bearer"])
  {
    if token == SecretToken then Ok(Admin) else Err(CredentialsException)
  }

  /** The token gate every employee endpoint depends on: the framework's
      bearer extraction (`None` when the request has no bearer credential)
      followed by `get_current_user`. */
  function RequireUser(bearer: Option<string>): (r: Result<Principal>)
    ensures r.Ok? <==> bearer == Some("secret-token")
    ensures r.Ok? ==> r.value == Principal("admin")
    ensures r.Err? ==> r.error.statusCode == 401 && r.error.headers == map["WWW-Authenticate" := "Bearer"]
    ensures bearer == None ==> r == Err(NotAuthenticated)
  {
    match bearer
    case None => Err(NotAuthenticated)
    case Some(token) => GetCurrentUser(token)
  }

  /** Whatever claims a token is issued for, the gate accepts it. */
  lemma {:induction false} IssuedTokenAccepted(data: map<string, string>)
    ensures GetCurrentUser(CreateAccessToken(data)) == Ok(Admin)
    ensures RequireUser(Some(CreateAccessToken(data))) == Ok(Admin)
  {
  }
}

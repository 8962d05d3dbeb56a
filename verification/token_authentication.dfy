/**
 The `token.authentication` model's operations as pure transitions: each takes
 the token table (and whatever the request reads from outside it) and returns
 the answer or the error raised, together with the table as the executed
 statements left it.
 */
module TokenAuthentication {
  import opened Wrappers
  import opened TokenTable
  import KeyGen
  import Rows

  /** The errors the operations raise. */
  datatype Failure =
    | UserNotFound      // login: no user with that login
    | InvalidPassword   // login: the credential check did not pass
    | TokenNotFound     // get_user, logout: no row holds the key
    | TokenExpired      // get_user: the row was expired and has been deleted
    | TokenNotProvided  // logout: the Authorization header is missing or empty
    | UniqueViolation   // create/write rejected by a `unique` constraint
    | ExpirationUnset   // get_user compared an unset expiration with the clock

  datatype HttpError = HttpError(status: int, body: string)

  /** The HTTP answer of an error raised as an HTTP exception; None for the
      two failures that surface as unhandled exceptions instead. The
      "User not found" text of `login` is the exception's description, which
      the explicit `Response(status=404)` replaces, so that answer has an
      empty body. */
  function Response(f: Failure): (r: Option<HttpError>)
    ensures r.None? <==> f == UniqueViolation || f == ExpirationUnset
    ensures r.Some? ==> r.value.status in {400, 401, 404}
  {
    match f
    case UserNotFound => Some(HttpError(404, ""))
    case InvalidPassword => Some(HttpError(401, "Invalid password"))
    case TokenNotFound => Some(HttpError(404, "Token not found"))
    case TokenExpired => Some(HttpError(400, "Token expired"))
    case TokenNotProvided => Some(HttpError(400, "Token not provided"))
    case UniqueViolation => None
    case ExpirationUnset => None
  }

  /** What `get_token` returns: the key and whether the row was created or renewed. */
  datatype Issued = Issued(key: string, created: bool, renewed: bool)

  /** The answer of an operation together with the table it leaves behind. */
  datatype Outcome<T> = Outcome(result: Result<T, Failure>, table: Table)

  /**
   What a request reads from outside the table: `fields.Datetime.now()` and
   `fields.Datetime.today()` in seconds, the draws of `secrets.choice`, the
   value of `int(time.time())`, and the default expiration a created row
   receives (the field default of the `expiration_date` column).
   */
  datatype Env = Env(now: int, today: int, pick: nat -> KeyGen.CharIndex, stamp: nat,
                     createdExpiration: int)

  /** The key `generate_token_key()` produces for this request. */
  function FreshKey(env: Env): string
  {
    KeyGen.GenerateTokenKey(KeyGen.DefaultLength, env.pick, env.stamp)
  }

  /** The column default as written: computed once, when the model class is
      loaded on day `loadDay`, and then shared by every row created later. */
  function ClassDefault(loadDay: int): int
  {
    loadDay + Month
  }

  /** The default a per-row default would give: thirty days from the day the
      row is created. */
  function CreationDefault(today: int): int
  {
    today + Month
  }

  /** The row `get_token` creates for a user without one: the fresh key and
      the column default. */
  function NewRow(user: UserId, env: Env): Token
  {
    Token(user, FreshKey(env), Some(env.createdExpiration))
  }

  /** The row at `i` after the renewal `write`: fresh key, thirty days from `today`. */
  function RenewedRow(row: Token, env: Env): Token
  {
    row.(key := FreshKey(env), expiration := Some(env.today + Month))
  }

  /** The creation branch of `get_token` on the cleaned table `c`. */
  function CreateToken(c: Table, user: UserId, env: Env): (r: Outcome<Issued>)
    ensures r.result.Ok? <==> forall x :: x in c ==> x.user != user && x.key != FreshKey(env)
    ensures r.result.Ok? ==>
      && r.result.value == Issued(FreshKey(env), true, false)
      && |r.table| == |c| + 1
      && forall x :: x in r.table <==> x in c || x == NewRow(user, env)
    ensures r.result.Err? ==> r.result.error == UniqueViolation && r.table == c
    ensures Wellformed(c) ==> Wellformed(r.table)
  {
    match Insert(c, NewRow(user, env))
    case None => Outcome(Err(UniqueViolation), c)
    case Some(c') => Outcome(Ok(Issued(FreshKey(env), true, false)), c')
  }

  /** The renewal branch of `get_token` on the cleaned table `c`, for the
      expired row at `i`. */
  function RenewToken(c: Table, i: nat, env: Env): (r: Outcome<Issued>)
    requires i < |c|
    ensures r.result.Ok? <==>
      forall j :: 0 <= j < |c| && j != i ==> c[j].user != c[i].user && c[j].key != FreshKey(env)
    ensures r.result.Ok? ==>
      && r.result.value == Issued(FreshKey(env), false, true)
      && |r.table| == |c|
      && RenewedRow(c[i], env) in r.table
      && (forall x :: x in r.table ==> x == RenewedRow(c[i], env) || x in c)
      && (forall x :: x in c && x != c[i] ==> x in r.table)
    ensures r.result.Ok? && Wellformed(c) ==>
      forall x :: x in r.table <==> x == RenewedRow(c[i], env) || (x in c && x != c[i])
    ensures r.result.Err? ==> r.result.error == UniqueViolation && r.table == c
    ensures Wellformed(c) ==> Wellformed(r.table)
  {
    match Write(c, i, RenewedRow(c[i], env))
    case None => Outcome(Err(UniqueViolation), c)
    case Some(c') => Outcome(Ok(Issued(FreshKey(env), false, true)), c')
  }

  /**
   `get_token(user)`: delete the rows with an unset expiration, then create a
   row for a user who has none, return the key of a row that is still valid,
   or give an expired row a new key and a new expiration.
   */
  function GetToken(t: Table, user: UserId, env: Env): (r: Outcome<Issued>)
    // the cleanup removes exactly the rows with an unset expiration, and no
    // row of another user is touched
    ensures forall x :: x in r.table ==> x.expiration.Some?
    ensures forall x: Token :: x.user != user ==> (x in r.table <==> x in t && x.expiration.Some?)
    // both constraints and non-empty keys are kept
    ensures Wellformed(t) ==> Wellformed(r.table)
    // the only failure is a constraint rejecting the write, which leaves the
    // cleaned table
    ensures r.result.Err? ==> r.result.error == UniqueViolation && r.table == WithoutUnset(t)
    // the key returned is the key of the user's row
    ensures r.result.Ok? ==> exists e :: Token(user, r.result.value.key, Some(e)) in r.table
  {
    var c := WithoutUnset(t);
    WithoutUnsetKeeps(t);
    match RowOfUser(c, user)
    case None => CreateToken(c, user, env)
    case Some(i) =>
      if c[i].expiration.value >= env.now then Outcome(Ok(Issued(c[i].key, false, false)), c)
      else RenewToken(c, i, env)
  }

  /** `bool(key)` for the Authorization header: present and not empty. */
  predicate Provided(header: Option<string>)
  {
    header.Some? && header.value != ""
  }

  /**
   `get_user()`: resolve the Authorization header to the user owning that
   key; an expired row is deleted and reported.
   */
  function GetUser(t: Table, header: Option<string>, now: int): (r: Outcome<Option<UserId>>)
    ensures r.result == Ok(None) <==> !Provided(header)
    ensures r.result.Ok? && r.result.value.Some? ==>
      Provided(header) && exists x :: x in t && x.key == header.value && x.user == r.result.value.value && ValidAt(x, now)
    ensures r.result == Err(TokenNotFound) <==> Provided(header) && !KeyInUse(t, header.value)
    ensures r.result == Err(TokenExpired) ==>
      exists i :: 0 <= i < |t| && t[i].key == header.value && t[i].expiration.Some? && t[i].expiration.value < now
                  && r.table == Rows.RemoveAt(t, i)
    ensures r.result == Err(ExpirationUnset) ==> exists x :: x in t && x.key == header.value && x.expiration.None?
    // the first row holding the key decides between the three remaining answers
    ensures r.result == Err(ExpirationUnset) <==>
      Provided(header) && RowOfKey(t, header.value).Some? && t[RowOfKey(t, header.value).value].expiration.None?
    ensures r.result == Err(TokenExpired) <==>
      && Provided(header) && RowOfKey(t, header.value).Some?
      && t[RowOfKey(t, header.value).value].expiration.Some?
      && t[RowOfKey(t, header.value).value].expiration.value < now
    ensures r.result.Ok? && r.result.value.Some? <==>
      Provided(header) && RowOfKey(t, header.value).Some? && ValidAt(t[RowOfKey(t, header.value).value], now)
    ensures r.result != Err(TokenExpired) ==> r.table == t
    ensures r.result.Err? ==> r.result.error in {TokenNotFound, TokenExpired, ExpirationUnset}
    ensures Wellformed(t) ==> Wellformed(r.table)
  {
    if !Provided(header) then Outcome(Ok(None), t)
    else
      match RowOfKey(t, header.value)
      case None => Outcome(Err(TokenNotFound), t)
      case Some(i) =>
        if t[i].expiration.None? then Outcome(Err(ExpirationUnset), t)
        else if t[i].expiration.value < now then
          RemoveAtKeeps(t, i);
          Outcome(Err(TokenExpired), Rows.RemoveAt(t, i))
        else Outcome(Ok(Some(t[i].user)), t)
  }

  const LogoutMessage: string := "User logout successfully"

  /** `logout()`: delete the row holding the Authorization header's key. */
  function Logout(t: Table, header: Option<string>): (r: Outcome<string>)
    ensures !Provided(header) ==> r.result == Err(TokenNotProvided)
    ensures r.result == Err(TokenNotFound) <==> Provided(header) && !KeyInUse(t, header.value)
    ensures r.result.Ok? <==> Provided(header) && KeyInUse(t, header.value)
    ensures r.result.Ok? ==>
      && r.result.value == LogoutMessage
      && exists i :: 0 <= i < |t| && t[i].key == header.value && r.table == Rows.RemoveAt(t, i)
    ensures r.result.Err? ==> r.table == t
    ensures Wellformed(t) ==> Wellformed(r.table)
  {
    if !Provided(header) then Outcome(Err(TokenNotProvided), t)
    else
      match RowOfKey(t, header.value)
      case None => Outcome(Err(TokenNotFound), t)
      case Some(i) =>
        RemoveAtKeeps(t, i);
        Outcome(Ok(LogoutMessage), Rows.RemoveAt(t, i))
  }

  /** A `res.users` record as the login search sees it. */
  datatype User = User(id: UserId, login: string, active: bool)

  /** What `_check_credentials` did: raised, or returned a value of the given truthiness. */
  datatype CredentialOutcome = Raised | Returned(truthy: bool)

  /** `res.users` `search([("login", "=", login)], limit=1)`; the ORM skips
      archived users. */
  function FindUser(users: seq<User>, login: string): (r: Option<nat>)
    ensures r.Some? ==> r.value < |users| && users[r.value].active && users[r.value].login == login
    ensures r.None? <==> forall u :: u in users ==> !(u.active && u.login == login)
  {
    Rows.First(users, (u: User) => u.active && u.login == login)
  }

  /**
   `login(login, password)`: find the user, run the credential check, and on
   a falsy result issue a token through `get_token`. A raised exception and a
   truthy result both answer 401.
   */
  function Login(t: Table, users: seq<User>, login: string, password: string,
                 check: (UserId, string) -> CredentialOutcome, env: Env): (r: Outcome<string>)
    ensures r.result == Err(UserNotFound) <==> forall u :: u in users ==> !(u.active && u.login == login)
    ensures r.result == Err(InvalidPassword) <==>
      FindUser(users, login).Some? && check(users[FindUser(users, login).value].id, password) != Returned(false)
    ensures r.result in {Err(UserNotFound), Err(InvalidPassword)} ==> r.table == t
    // a token is issued only when the check returned a falsy value
    ensures r.result.Ok? ==>
      exists u :: u in users && u.active && u.login == login && check(u.id, password) == Returned(false)
    ensures FindUser(users, login).Some? && check(users[FindUser(users, login).value].id, password) == Returned(false) ==>
      var g := GetToken(t, users[FindUser(users, login).value].id, env);
      && r.table == g.table
      && (g.result.Ok? ==> r.result == Ok(g.result.value.key))
      && (g.result.Err? ==> r.result == Err(g.result.error))
    ensures Wellformed(t) ==> Wellformed(r.table)
  {
    match FindUser(users, login)
    case None => Outcome(Err(UserNotFound), t)
    case Some(i) =>
      var user := users[i];
      var failed := match check(user.id, password)
        case Raised => true
        case Returned(truthy) => truthy;
      if failed then Outcome(Err(InvalidPassword), t)
      else
        var g := GetToken(t, user.id, env);
        match g.result
        case Ok(issued) => Outcome(Ok(issued.key), g.table)
        case Err(e) => Outcome(Err(e), g.table)
  }
}

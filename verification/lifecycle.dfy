/**
 Properties of the token lifecycle: what each branch of `get_token` does, how
 `get_token` and `get_user` agree on validity, what a retry after an expiry or
 a logout sees, and what a client holding a freshly issued key sees.
 */
module Lifecycle {
  import opened Wrappers
  import opened TokenTable
  import opened TokenAuthentication
  import Rows

  /** A user without a row left after the cleanup gets exactly one new row,
      holding the fresh key and the column default, unless another row
      already holds that key. */
  lemma GetTokenCreates(t: Table, user: UserId, env: Env)
    requires forall x :: x in t && x.user == user ==> x.expiration.None?
    ensures var r := GetToken(t, user, env);
      var c := WithoutUnset(t);
      && (r.result.Ok? <==> !KeyInUse(c, FreshKey(env)))
      && (r.result.Ok? ==>
            && r.result.value == Issued(FreshKey(env), true, false)
            && |r.table| == |c| + 1
            && forall y :: y in r.table <==> y in c || y == NewRow(user, env))
  {
  }

  /** A user whose row is valid at `now` gets its key back and the table
      loses only the rows with an unset expiration. */
  lemma GetTokenReturnsValid(t: Table, x: Token, env: Env)
    requires Wellformed(t)
    requires x in t && ValidAt(x, env.now)
    ensures GetToken(t, x.user, env) == Outcome(Ok(Issued(x.key, false, false)), WithoutUnset(t))
  {
    WithoutUnsetKeeps(t);
    RowOfUserUnique(WithoutUnset(t), x);
  }

  /** The path `get_token` takes for a user whose row has expired: the
      cleanup keeps the row, the search finds it, and the write succeeds. */
  lemma RenewalPath(t: Table, x: Token, env: Env) returns (i: nat)
    requires Wellformed(t)
    requires x in t && x.expiration.Some? && x.expiration.value < env.now
    requires forall y :: y in t && y.key == FreshKey(env) ==> y == x
    ensures Wellformed(WithoutUnset(t))
    ensures i < |WithoutUnset(t)| && WithoutUnset(t)[i] == x
    ensures GetToken(t, x.user, env) == RenewToken(WithoutUnset(t), i, env)
    ensures RenewToken(WithoutUnset(t), i, env).result.Ok?
  {
    var c := WithoutUnset(t);
    WithoutUnsetKeeps(t);
    RowOfUserUnique(c, x);
    i := RowOfUser(c, x.user).value;
    forall j | 0 <= j < |c| && j != i
      ensures c[j].user != c[i].user && c[j].key != FreshKey(env)
    {
      assert c[j].user != c[i].user;
      assert c[j] != x;
    }
  }

  /** A user whose row has expired before `now` gets the fresh key back,
      flagged as renewed, and keeps exactly one row: the table keeps the
      size the cleanup left. */
  lemma GetTokenRenewsExpired(t: Table, x: Token, env: Env)
    requires Wellformed(t)
    requires x in t && x.expiration.Some? && x.expiration.value < env.now
    requires forall y :: y in t && y.key == FreshKey(env) ==> y == x
    ensures var r := GetToken(t, x.user, env);
      && r.result == Ok(Issued(FreshKey(env), false, true))
      && |r.table| == |WithoutUnset(t)|
  {
    var i := RenewalPath(t, x, env);
  }

  /** The renewal replaces the expired row by (same user, fresh key,
      `today` + 30 days) and keeps every other row with a set expiration. */
  lemma RenewalReplacesRow(t: Table, x: Token, env: Env)
    requires Wellformed(t)
    requires x in t && x.expiration.Some? && x.expiration.value < env.now
    requires forall y :: y in t && y.key == FreshKey(env) ==> y == x
    ensures forall y :: y in GetToken(t, x.user, env).table <==>
      (y in t && y.expiration.Some? && y != x) || y == Token(x.user, FreshKey(env), Some(env.today + Month))
  {
    var i := RenewalPath(t, x, env);
    var c := WithoutUnset(t);
    var r := RenewToken(c, i, env);
    var n := RenewedRow(c[i], env);
    assert n == Token(x.user, FreshKey(env), Some(env.today + Month));
    forall y: Token
      ensures y in r.table <==> (y in t && y.expiration.Some? && y != x) || y == n
    {
      assert y in r.table <==> y == n || (y in c && y != x);
      assert y in c <==> y in t && y.expiration.Some?;
    }
  }

  /** After a renewal the old key opens nothing: no row holds it any more
      (unless the fresh key happens to equal it). */
  lemma RenewalRetiresOldKey(t: Table, x: Token, env: Env)
    requires Wellformed(t)
    requires x in t && x.expiration.Some? && x.expiration.value < env.now
    requires forall y :: y in t && y.key == FreshKey(env) ==> y == x
    requires FreshKey(env) != x.key
    ensures !KeyInUse(GetToken(t, x.user, env).table, x.key)
  {
    RenewalReplacesRow(t, x, env);
    var r := GetToken(t, x.user, env);
    forall y | y in r.table
      ensures y.key != x.key
    {
      if y in t && y != x {
        RowOfKeyUnique(t, y);
        RowOfKeyUnique(t, x);
      }
    }
  }

  /** The flags of a successful `get_token` say which branch ran: created
      means the user had no row, neither flag means the user's row was valid,
      renewed means it had expired. */
  lemma GetTokenFlagsExplained(t: Table, user: UserId, env: Env)
    requires GetToken(t, user, env).result.Ok?
    ensures var r := GetToken(t, user, env); var issued := r.result.value;
      && !(issued.created && issued.renewed)
      && (issued.created ==>
            && (forall x :: x in t && x.user == user ==> x.expiration.None?)
            && NewRow(user, env) in r.table && issued.key == FreshKey(env))
      && (!issued.created && !issued.renewed ==>
            && r.table == WithoutUnset(t)
            && exists e :: e >= env.now && Token(user, issued.key, Some(e)) in t)
      && (issued.renewed ==>
            && issued.key == FreshKey(env)
            && exists x :: x in t && x.user == user && x.expiration.Some? && x.expiration.value < env.now
                           && RenewedRow(x, env) in r.table)
  {
    var c := WithoutUnset(t);
    match RowOfUser(c, user)
    case None =>
    case Some(i) =>
      assert c[i] in t && c[i].expiration.Some?;
      assert c[i] == Token(user, c[i].key, Some(c[i].expiration.value));
  }

  /** `get_token` and `get_user` use the same notion of validity: a row is
      kept as it is by the one exactly when the other resolves its key, and
      that is when its expiration is at or after `now`. */
  lemma ValidityAgrees(t: Table, x: Token, env: Env)
    requires Wellformed(t)
    requires x in t && x.expiration.Some?
    ensures GetToken(t, x.user, env).result == Ok(Issued(x.key, false, false)) <==> ValidAt(x, env.now)
    ensures GetUser(t, Some(x.key), env.now).result == Ok(Some(x.user)) <==> ValidAt(x, env.now)
  {
    var c := WithoutUnset(t);
    WithoutUnsetKeeps(t);
    RowOfUserUnique(c, x);
    RowOfKeyUnique(t, x);
  }

  /** The second of expiry itself is still valid, for both operations. */
  lemma ExpirySecondIsValid(t: Table, x: Token, env: Env)
    requires Wellformed(t)
    requires x in t && x.expiration == Some(env.now)
    ensures GetToken(t, x.user, env).result == Ok(Issued(x.key, false, false))
    ensures GetUser(t, Some(x.key), env.now).result == Ok(Some(x.user))
  {
    ValidityAgrees(t, x, env);
  }

  /** Once `get_token` has handed out a key, asking again while that row is
      valid returns the same key and changes nothing. */
  lemma GetTokenStable(t: Table, user: UserId, env: Env, later: Env, e: int)
    requires Wellformed(t)
    requires GetToken(t, user, env).result.Ok?
    requires Token(user, GetToken(t, user, env).result.value.key, Some(e)) in GetToken(t, user, env).table
    requires e >= later.now
    ensures var r := GetToken(t, user, env);
      GetToken(r.table, user, later) == Outcome(Ok(Issued(r.result.value.key, false, false)), r.table)
  {
    var r := GetToken(t, user, env);
    WithoutUnsetKeeps(r.table);
    GetTokenReturnsValid(r.table, Token(user, r.result.value.key, Some(e)), later);
  }

  /** A key that `get_user` reported as expired is gone: exactly its row was
      deleted, and every later lookup of it reports it unknown. */
  lemma ExpiredThenNotFound(t: Table, key: string, now: int, later: int)
    requires Wellformed(t)
    requires GetUser(t, Some(key), now).result == Err(TokenExpired)
    ensures var t' := GetUser(t, Some(key), now).table;
      && (forall y :: y in t' <==> y in t && y.key != key)
      && GetUser(t', Some(key), later).result == Err(TokenNotFound)
  {
    var t' := GetUser(t, Some(key), now).table;
    var i :| 0 <= i < |t| && t[i].key == key && t' == Rows.RemoveAt(t, i);
    RemoveAtKeeps(t, i);
    forall y | y in t && y.key == key
      ensures y == t[i]
    {
      RowOfKeyUnique(t, y);
      RowOfKeyUnique(t, t[i]);
    }
  }

  /** Logging out removes exactly the row holding the key; logging out again
      with the same key, or resolving it, reports it unknown. */
  lemma LogoutThenNotFound(t: Table, key: string, now: int)
    requires Wellformed(t)
    requires Logout(t, Some(key)).result.Ok?
    ensures var t' := Logout(t, Some(key)).table;
      && (forall y :: y in t' <==> y in t && y.key != key)
      && Logout(t', Some(key)).result == Err(TokenNotFound)
      && GetUser(t', Some(key), now).result == Err(TokenNotFound)
  {
    var t' := Logout(t, Some(key)).table;
    var i :| 0 <= i < |t| && t[i].key == key && t' == Rows.RemoveAt(t, i);
    RemoveAtKeeps(t, i);
    forall y | y in t && y.key == key
      ensures y == t[i]
    {
      RowOfKeyUnique(t, y);
      RowOfKeyUnique(t, t[i]);
    }
  }

  /** `get_user` resolves the key of a row with a set expiration to the
      row's user exactly while the row is valid, and reports it expired
      after that. */
  lemma ResolvesWhileValid(t: Table, x: Token, later: int)
    requires Wellformed(t)
    requires x in t && x.expiration.Some?
    ensures GetUser(t, Some(x.key), later).result == Ok(Some(x.user)) <==> ValidAt(x, later)
    ensures GetUser(t, Some(x.key), later).result == Err(TokenExpired) <==> !ValidAt(x, later)
  {
    RowOfKeyUnique(t, x);
  }

  /** The key `get_token` hands out sits in the user's row, whose expiration
      is the column default for a created row, thirty days after `today` for
      a renewed one, and at or after `now` for a row returned as it was. */
  lemma IssuedRow(t: Table, user: UserId, env: Env)
    requires Wellformed(t)
    requires GetToken(t, user, env).result.Ok?
    ensures var r := GetToken(t, user, env); var issued := r.result.value;
      exists e ::
        && Token(user, issued.key, Some(e)) in r.table
        && (issued.created ==> e == env.createdExpiration)
        && (issued.renewed ==> e == env.today + Month)
        && (!issued.created && !issued.renewed ==> e >= env.now)
  {
    var r := GetToken(t, user, env);
    var issued := r.result.value;
    GetTokenFlagsExplained(t, user, env);
    var e :| Token(user, issued.key, Some(e)) in r.table;
    var x := Token(user, issued.key, Some(e));
    if issued.created {
      RowOfUserUnique(r.table, NewRow(user, env));
      RowOfUserUnique(r.table, x);
    } else if issued.renewed {
      var prev :| prev in t && prev.user == user && prev.expiration.Some? && prev.expiration.value < env.now
                 && RenewedRow(prev, env) in r.table;
      RowOfUserUnique(r.table, RenewedRow(prev, env));
      RowOfUserUnique(r.table, x);
    } else {
      var e' :| e' >= env.now && Token(user, issued.key, Some(e')) in t;
      WithoutUnsetKeeps(t);
      RowOfKeyUnique(r.table, Token(user, issued.key, Some(e')));
      RowOfKeyUnique(r.table, x);
    }
  }

  /** The key `get_token` hands out resolves to its user for exactly as long
      as its row's expiration allows, and is reported expired after that. */
  lemma IssuedKeyResolves(t: Table, user: UserId, env: Env, later: int)
    requires Wellformed(t)
    requires GetToken(t, user, env).result.Ok?
    ensures var r := GetToken(t, user, env); var issued := r.result.value;
      exists e ::
        && Token(user, issued.key, Some(e)) in r.table
        && (issued.created ==> e == env.createdExpiration)
        && (issued.renewed ==> e == env.today + Month)
        && (!issued.created && !issued.renewed ==> e >= env.now)
        && (GetUser(r.table, Some(issued.key), later).result == Ok(Some(user)) <==> e >= later)
        && (GetUser(r.table, Some(issued.key), later).result == Err(TokenExpired) <==> e < later)
  {
    var r := GetToken(t, user, env);
    var issued := r.result.value;
    IssuedRow(t, user, env);
    var e :| && Token(user, issued.key, Some(e)) in r.table
             && (issued.created ==> e == env.createdExpiration)
             && (issued.renewed ==> e == env.today + Month)
             && (!issued.created && !issued.renewed ==> e >= env.now);
    ResolvesWhileValid(r.table, Token(user, issued.key, Some(e)), later);
  }

  /** A successful login answers with the key of the user's row: it resolves
      to the user at any later second up to that row's expiration, and is
      reported expired after it. */
  lemma LoginThenGetUser(t: Table, users: seq<User>, login: string, password: string,
                         check: (UserId, string) -> CredentialOutcome, env: Env, later: int)
    requires Wellformed(t)
    requires Login(t, users, login, password, check, env).result.Ok?
    ensures var r := Login(t, users, login, password, check, env);
      var id := users[FindUser(users, login).value].id;
      var issued := GetToken(t, id, env).result.value;
      exists e ::
        && Token(id, r.result.value, Some(e)) in r.table
        && (issued.created ==> e == env.createdExpiration)
        && (issued.renewed ==> e == env.today + Month)
        && (!issued.created && !issued.renewed ==> e >= env.now)
        && (GetUser(r.table, Some(r.result.value), later).result == Ok(Some(id)) <==> e >= later)
  {
    var id := users[FindUser(users, login).value].id;
    IssuedKeyResolves(t, id, env, later);
  }

  /**
   The column default as written makes first logins useless once the server
   has been up for more than thirty days: a user without a token logs in,
   receives a key, and that key is rejected as expired in the same second
   (and deleted).
   */
  lemma StaleDefaultLoginUnusable(t: Table, users: seq<User>, login: string, password: string,
                                  check: (UserId, string) -> CredentialOutcome, env: Env, loadDay: int)
    requires Wellformed(t)
    requires env.createdExpiration == ClassDefault(loadDay) && env.now > ClassDefault(loadDay)
    requires FindUser(users, login).Some?
    requires check(users[FindUser(users, login).value].id, password) == Returned(false)
    requires forall x :: x in t ==> x.user != users[FindUser(users, login).value].id
    requires !KeyInUse(t, FreshKey(env))
    ensures var r := Login(t, users, login, password, check, env);
      && r.result.Ok?
      && GetUser(r.table, Some(r.result.value), env.now).result == Err(TokenExpired)
  {
    var id := users[FindUser(users, login).value].id;
    GetTokenCreates(t, id, env);
    LoginThenGetUser(t, users, login, password, check, env, env.now);
  }

  /**
   With a per-row default of thirty days from the day of creation, every
   successful login answers with a key that resolves to the user at once.
   */
  lemma IntendedDefaultLoginUsable(t: Table, users: seq<User>, login: string, password: string,
                                   check: (UserId, string) -> CredentialOutcome, env: Env)
    requires Wellformed(t)
    requires env.createdExpiration == CreationDefault(env.today)
    requires env.today <= env.now <= env.today + Month
    requires Login(t, users, login, password, check, env).result.Ok?
    ensures var r := Login(t, users, login, password, check, env);
      GetUser(r.table, Some(r.result.value), env.now).result == Ok(Some(users[FindUser(users, login).value].id))
  {
    LoginThenGetUser(t, users, login, password, check, env, env.now);
  }

  /** The HTTP answers of `get_user`: 404 "Token not found" for a key no row
      holds, 400 "Token expired" for a key whose row has expired, and no
      other HTTP error; only an unset expiration escapes unhandled. */
  lemma GetUserAnswers(t: Table, header: Option<string>, now: int)
    ensures var e := GetUser(t, header, now).result;
      && (Provided(header) && !KeyInUse(t, header.value) ==>
            e.Err? && Response(e.error) == Some(HttpError(404, "Token not found")))
      && (Provided(header) && RowOfKey(t, header.value).Some?
          && t[RowOfKey(t, header.value).value].expiration.Some?
          && t[RowOfKey(t, header.value).value].expiration.value < now ==>
            e.Err? && Response(e.error) == Some(HttpError(400, "Token expired")))
      && (e.Err? && Response(e.error).Some? ==>
            Response(e.error).value in {HttpError(404, "Token not found"), HttpError(400, "Token expired")})
      && (e.Err? && Response(e.error).None? ==> e.error == ExpirationUnset)
  {
  }

  /** The HTTP answers of `logout`: 400 "Token not provided" without a key,
      404 "Token not found" for a key no row holds; every error it raises is
      an HTTP exception. */
  lemma LogoutAnswers(t: Table, header: Option<string>)
    ensures var e := Logout(t, header).result;
      && (!Provided(header) ==> e.Err? && Response(e.error) == Some(HttpError(400, "Token not provided")))
      && (Provided(header) && !KeyInUse(t, header.value) ==>
            e.Err? && Response(e.error) == Some(HttpError(404, "Token not found")))
      && (e.Err? ==> Response(e.error).Some?)
  {
  }

  /** The HTTP answers of `login`: 404 with an empty body when no active user
      has the login, 401 "Invalid password" when the credential check raised
      or returned a truthy value; the only error without an HTTP answer is a
      unique constraint rejecting the token write. */
  lemma LoginAnswers(t: Table, users: seq<User>, login: string, password: string,
                     check: (UserId, string) -> CredentialOutcome, env: Env)
    ensures var e := Login(t, users, login, password, check, env).result;
      && ((forall u :: u in users ==> !(u.active && u.login == login)) ==>
            e.Err? && Response(e.error) == Some(HttpError(404, "")))
      && (FindUser(users, login).Some? && check(users[FindUser(users, login).value].id, password) != Returned(false) ==>
            e.Err? && Response(e.error) == Some(HttpError(401, "Invalid password")))
      && (e.Err? && Response(e.error).None? ==> e.error == UniqueViolation)
  {
  }
}

/**
 The `token.authentication` table: one row per issued token, holding the
 owning user, the bearer key and the expiration date (seconds; None when the
 column is unset). Rows are kept in id order, so the ORM's `limit=1` search
 returns the first matching row.
 */
module TokenTable {
  import opened Wrappers
  import Rows

  /** Database id of a `res.users` record. */
  type UserId = int

  datatype Token = Token(user: UserId, key: string, expiration: Option<int>)

  type Table = seq<Token>

  /** Thirty days in seconds, the `timedelta(days=30)` of a renewal. */
  const Month: int := 30 * 24 * 60 * 60

  function UserOf(tok: Token): UserId
  {
    tok.user
  }

  function KeyOf(tok: Token): string
  {
    tok.key
  }

  /** `unique (user_id)`: no user owns two rows. */
  ghost predicate UniqueUsers(t: Table)
  {
    forall i, j :: 0 <= i < |t| && 0 <= j < |t| && t[i].user == t[j].user ==> i == j
  }

  /** `unique (key)`: no key is held by two rows. */
  ghost predicate UniqueKeys(t: Table)
  {
    forall i, j :: 0 <= i < |t| && 0 <= j < |t| && t[i].key == t[j].key ==> i == j
  }

  /** The two SQL constraints of the table. */
  ghost predicate Constraints(t: Table)
  {
    UniqueUsers(t) && UniqueKeys(t)
  }

  /** The constraints are the generic column uniqueness of both columns. */
  lemma ConstraintsByColumn(t: Table)
    ensures Constraints(t) <==> Rows.UniqueBy(t, UserOf) && Rows.UniqueBy(t, KeyOf)
  {
  }

  /** The table invariant: both constraints hold and every stored key is a
      non-empty string, as every key the model writes is a generated one. */
  ghost predicate Wellformed(t: Table)
  {
    Constraints(t) && forall x :: x in t ==> x.key != ""
  }

  /** A token is valid at `now` until and including its expiration second. */
  predicate ValidAt(tok: Token, now: int)
  {
    tok.expiration.Some? && tok.expiration.value >= now
  }

  /** `search([("user_id", "=", user)], limit=1)`. */
  function RowOfUser(t: Table, user: UserId): (r: Option<nat>)
    ensures r.Some? ==> r.value < |t| && t[r.value].user == user
    ensures r.None? <==> forall x :: x in t ==> x.user != user
  {
    Rows.First(t, (tok: Token) => tok.user == user)
  }

  /** `search([("key", "=", key)], limit=1)`. */
  function RowOfKey(t: Table, key: string): (r: Option<nat>)
    ensures r.Some? ==> r.value < |t| && t[r.value].key == key
    ensures r.None? <==> forall x :: x in t ==> x.key != key
  {
    Rows.First(t, (tok: Token) => tok.key == key)
  }

  /** `search([("expiration_date", "=", False)]).unlink()`: the table without
      the rows whose expiration is unset. */
  function WithoutUnset(t: Table): (r: Table)
    ensures forall x :: x in r <==> x in t && x.expiration.Some?
  {
    Rows.Keep(t, IsSet)
  }

  predicate IsSet(tok: Token)
  {
    tok.expiration.Some?
  }

  /** The cleanup keeps both constraints, and removes nothing when every
      expiration is set. */
  lemma WithoutUnsetKeeps(t: Table)
    ensures Constraints(t) ==> Constraints(WithoutUnset(t))
    ensures Wellformed(t) ==> Wellformed(WithoutUnset(t))
    ensures (forall x :: x in t ==> x.expiration.Some?) ==> WithoutUnset(t) == t
  {
    ConstraintsByColumn(t);
    ConstraintsByColumn(WithoutUnset(t));
    if Constraints(t) {
      Rows.KeepUnique(t, IsSet, UserOf);
      Rows.KeepUnique(t, IsSet, KeyOf);
    }
  }

  /** `create(row)`: the row is appended unless one of the `unique`
      constraints rejects it (None). */
  function Insert(t: Table, row: Token): (r: Option<Table>)
    ensures r.Some? <==> forall x :: x in t ==> x.user != row.user && x.key != row.key
    ensures r.Some? ==> |r.value| == |t| + 1 && forall x :: x in r.value <==> x in t || x == row
    ensures r.Some? && Wellformed(t) && row.key != "" ==> Wellformed(r.value)
  {
    if exists x :: x in t && (x.user == row.user || x.key == row.key) then None
    else Some(t + [row])
  }

  /** `write(row)` on the row at index `i`: the row is overwritten unless one
      of the `unique` constraints rejects the new values (None). */
  function Write(t: Table, i: nat, row: Token): (r: Option<Table>)
    requires i < |t|
    ensures r.Some? <==> forall j :: 0 <= j < |t| && j != i ==> t[j].user != row.user && t[j].key != row.key
    ensures r.Some? ==> |r.value| == |t| && row in r.value
    ensures r.Some? ==> forall x :: x in r.value ==> x == row || x in t
    ensures r.Some? ==> forall x :: x in t && x != t[i] ==> x in r.value
    ensures r.Some? && Wellformed(t) && row.key != "" ==>
      && Wellformed(r.value)
      && forall x :: x in r.value <==> x == row || (x in t && x != t[i])
  {
    if exists j :: 0 <= j < |t| && j != i && (t[j].user == row.user || t[j].key == row.key) then None
    else
      Rows.UpdateMembers(t, i, row);
      ConstraintsByColumn(t);
      Rows.UpdateExact(t, i, row, KeyOf);
      assert t[i := row][i] == row;
      Some(t[i := row])
  }

  predicate KeyInUse(t: Table, key: string)
  {
    exists x :: x in t && x.key == key
  }

  /** With unique keys, a key names one row, and `RowOfKey` finds it. */
  lemma RowOfKeyUnique(t: Table, x: Token)
    requires Constraints(t)
    requires x in t
    ensures RowOfKey(t, x.key).Some? && t[RowOfKey(t, x.key).value] == x
  {
    var i := RowOfKey(t, x.key).value;
    var j :| 0 <= j < |t| && t[j] == x;
    assert t[i].key == t[j].key;
  }

  /** With unique users, a user owns one row, and `RowOfUser` finds it. */
  lemma RowOfUserUnique(t: Table, x: Token)
    requires Constraints(t)
    requires x in t
    ensures RowOfUser(t, x.user).Some? && t[RowOfUser(t, x.user).value] == x
  {
    var i := RowOfUser(t, x.user).value;
    var j :| 0 <= j < |t| && t[j] == x;
    assert t[i].user == t[j].user;
  }

  /** `unlink()` of the row at `i` keeps the invariant and removes exactly that row. */
  lemma RemoveAtKeeps(t: Table, i: nat)
    requires i < |t|
    ensures Wellformed(t) ==> Wellformed(Rows.RemoveAt(t, i))
    ensures Wellformed(t) ==> forall x :: x in Rows.RemoveAt(t, i) <==> x in t && x != t[i]
  {
    if Wellformed(t) {
      ConstraintsByColumn(t);
      ConstraintsByColumn(Rows.RemoveAt(t, i));
      Rows.RemoveAtUnique(t, i, UserOf);
      Rows.RemoveAtUnique(t, i, KeyOf);
    }
  }
}

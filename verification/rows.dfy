/**
 Generic operations on a sequence of database rows kept in id order: the
 ORM's `search(domain, limit=1)` (the first matching row), the unlink of every
 row matching a domain, the unlink of one row, and the uniqueness that a SQL
 `unique` constraint guarantees for one column.
 */
module Rows {
  import opened Wrappers

  /** The index of the first row satisfying `p`, or None when no row does. */
  function First<T>(s: seq<T>, p: T -> bool): (r: Option<nat>)
    ensures r.Some? ==> r.value < |s| && p(s[r.value])
    ensures r.Some? ==> forall j :: 0 <= j < r.value ==> !p(s[j])
    ensures r.None? <==> forall j :: 0 <= j < |s| ==> !p(s[j])
  {
    if |s| == 0 then None
    else if p(s[0]) then Some(0)
    else
      match First(s[1..], p)
      case None => None
      case Some(i) => Some(i + 1)
  }

  /** The rows satisfying `p`, in their original order: what remains after
      unlinking every row that does not satisfy `p`. */
  function Keep<T(!new)>(s: seq<T>, p: T -> bool): (r: seq<T>)
    ensures |r| <= |s|
    ensures forall x :: x in r <==> x in s && p(x)
    ensures (forall j :: 0 <= j < |s| ==> p(s[j])) ==> r == s
  {
    if |s| == 0 then []
    else if p(s[0]) then [s[0]] + Keep(s[1..], p)
    else Keep(s[1..], p)
  }

  /** The rows without the one at index `i`. */
  function RemoveAt<T>(s: seq<T>, i: nat): (r: seq<T>)
    requires i < |s|
    ensures |r| == |s| - 1
    ensures forall k :: 0 <= k < i ==> r[k] == s[k]
    ensures forall k :: i <= k < |r| ==> r[k] == s[k + 1]
  {
    s[..i] + s[i + 1..]
  }

  /** No two rows agree on the column `f`: a SQL `unique (f)` constraint. */
  ghost predicate UniqueBy<T, K>(s: seq<T>, f: T -> K)
  {
    forall i, j :: 0 <= i < |s| && 0 <= j < |s| && f(s[i]) == f(s[j]) ==> i == j
  }

  /** No row occurs twice. */
  ghost predicate Distinct<T>(s: seq<T>)
  {
    forall i, j :: 0 <= i < |s| && 0 <= j < |s| && s[i] == s[j] ==> i == j
  }

  lemma UniqueIsDistinct<T, K>(s: seq<T>, f: T -> K)
    requires UniqueBy(s, f)
    ensures Distinct(s)
  {
    forall i, j | 0 <= i < |s| && 0 <= j < |s| && s[i] == s[j]
      ensures i == j
    {
      assert f(s[i]) == f(s[j]);
    }
  }

  /** Unlinking every row outside a domain keeps a column unique. */
  lemma {:induction false} KeepUnique<T(!new), K>(s: seq<T>, p: T -> bool, f: T -> K)
    requires UniqueBy(s, f)
    ensures UniqueBy(Keep(s, p), f)
  {
    if |s| > 0 {
      var tail := s[1..];
      assert UniqueBy(tail, f) by {
        forall i, j | 0 <= i < |tail| && 0 <= j < |tail| && f(tail[i]) == f(tail[j])
          ensures i == j
        {
          assert f(s[i + 1]) == f(s[j + 1]);
        }
      }
      KeepUnique(tail, p, f);
      if p(s[0]) {
        var rest := Keep(tail, p);
        var r := [s[0]] + rest;
        assert r == Keep(s, p);
        forall k | 0 <= k < |rest|
          ensures f(rest[k]) != f(s[0])
        {
          assert rest[k] in tail;
          var m :| 0 <= m < |tail| && tail[m] == rest[k];
          assert s[m + 1] == rest[k];
        }
        forall i, j | 0 <= i < |r| && 0 <= j < |r| && f(r[i]) == f(r[j])
          ensures i == j
        {
          if i > 0 {
            assert r[i] == rest[i - 1];
          }
          if j > 0 {
            assert r[j] == rest[j - 1];
          }
        }
      }
    }
  }

  /** Unlinking one row keeps a column unique, and removes exactly that row. */
  lemma RemoveAtUnique<T(!new), K>(s: seq<T>, i: nat, f: T -> K)
    requires i < |s|
    requires UniqueBy(s, f)
    ensures UniqueBy(RemoveAt(s, i), f)
    ensures forall x :: x in RemoveAt(s, i) <==> x in s && x != s[i]
  {
    var r := RemoveAt(s, i);
    forall a, b | 0 <= a < |r| && 0 <= b < |r| && f(r[a]) == f(r[b])
      ensures a == b
    {
      var a' := if a < i then a else a + 1;
      var b' := if b < i then b else b + 1;
      assert r[a] == s[a'] && r[b] == s[b'];
    }
    UniqueIsDistinct(s, f);
    forall x
      ensures x in r <==> x in s && x != s[i]
    {
      if x in r {
        var a :| 0 <= a < |r| && r[a] == x;
        var a' := if a < i then a else a + 1;
        assert s[a'] == x;
      }
      if x in s && x != s[i] {
        var a' :| 0 <= a' < |s| && s[a'] == x;
        if a' < i {
          assert r[a'] == x;
        } else {
          assert r[a' - 1] == x;
        }
      }
    }
  }

  /** Overwriting the row at `i` with `y` keeps every row that differs from
      the old one and adds nothing but `y`. */
  lemma UpdateMembers<T>(s: seq<T>, i: nat, y: T)
    requires i < |s|
    ensures forall x :: x in s && x != s[i] ==> x in s[i := y]
    ensures forall x :: x in s[i := y] ==> x == y || x in s
  {
    forall x | x in s && x != s[i]
      ensures x in s[i := y]
    {
      var j :| 0 <= j < |s| && s[j] == x;
      assert s[i := y][j] == x;
    }
  }

  /** When a column is unique, overwriting the row at `i` replaces exactly that row. */
  lemma UpdateExact<T(!new), K>(s: seq<T>, i: nat, y: T, f: T -> K)
    requires i < |s|
    ensures UniqueBy(s, f) ==> forall x :: x in s[i := y] <==> x == y || (x in s && x != s[i])
  {
    if UniqueBy(s, f) {
      UniqueIsDistinct(s, f);
      UpdateMembers(s, i, y);
      assert s[i := y][i] == y;
      forall x | x in s[i := y] && x != y
        ensures x in s && x != s[i]
      {
        var j :| 0 <= j < |s| && s[i := y][j] == x;
        assert j != i && s[j] == x;
      }
    }
  }
}

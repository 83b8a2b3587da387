/**
  The Room DAO over table `tbl_users`, as operations on an immutable table.
  Each suspend call is one atomic step of the database.
*/
module UserDao {
  import opened Optional
  import opened Text
  import opened Users

  /** The table: rows keyed by their primary key, so the store holds at most
      one record per `nim`. */
  type Table = t: map<string, User> | forall k :: k in t ==> t[k].nim == k
    witness map[]

  /** `r` agrees with `t` on every key other than `key`. */
  ghost predicate AgreeExcept(t: Table, r: Table, key: string)
  {
    forall k :: k != key ==> (k in r <==> k in t) && (k in r && k in t ==> r[k] == t[k])
  }

  /** `@Insert(onConflict = REPLACE)`: the row keyed `u.nim` becomes `u`,
      whether or not that key was present. */
  function InsertUser(t: Table, u: User): (r: Table)
    ensures u.nim in r && r[u.nim] == u
    ensures r.Keys == t.Keys + {u.nim}
    ensures AgreeExcept(t, r, u.nim)
  {
    t[u.nim := u]
  }

  /** `SELECT * FROM tbl_users WHERE nim = :nim LIMIT 1`; null when absent. */
  function GetUserWithNim(t: Table, nim: string): (r: Option<User>)
    ensures r.Some? <==> nim in t
    ensures r.Some? ==> r.value.nim == nim && r.value in t.Values
  {
    if nim in t then Some(t[nim]) else None
  }

  /** `@Update`: rewrites the row whose key is `u.nim`; no row, no change. */
  function UpdateUser(t: Table, u: User): (r: Table)
    ensures r.Keys == t.Keys
    ensures u.nim in t ==> r[u.nim] == u
    ensures u.nim !in t ==> r == t
    ensures AgreeExcept(t, r, u.nim)
  {
    if u.nim in t then t[u.nim := u] else t
  }

  /** `@Delete`: removes the row whose key is `u.nim`; the other fields of
      `u` play no part. */
  function DeleteUser(t: Table, u: User): (r: Table)
    ensures r.Keys == t.Keys - {u.nim}
    ensures AgreeExcept(t, r, u.nim)
    ensures |r| <= |t| <= |r| + 1
  {
    t - {u.nim}
  }

  lemma InsertThenGet(t: Table, u: User)
    ensures GetUserWithNim(InsertUser(t, u), u.nim) == Some(u)
  {
  }

  /** After an update, the key holds the new record exactly when it was
      already present. */
  lemma UpdateThenGet(t: Table, u: User)
    ensures GetUserWithNim(UpdateUser(t, u), u.nim) == (if u.nim in t then Some(u) else None)
  {
  }

  lemma DeleteThenGet(t: Table, u: User, nim: string)
    ensures GetUserWithNim(DeleteUser(t, u), nim) == (if nim == u.nim then None else GetUserWithNim(t, nim))
  {
  }

  // ---------------------------------------------------------------------
  // Full scan, ORDER BY nama ASC
  // ---------------------------------------------------------------------

  predicate SortedByNama(us: seq<User>)
  {
    forall i, j :: 0 <= i < j < |us| ==> NoLater(us[i].nama, us[j].nama)
  }

  /** A result `SELECT * FROM tbl_users ORDER BY nama ASC` may return: every
      row exactly once, non-decreasing by name. Rows with equal names may
      come in any order. */
  ghost predicate IsScanOf(us: seq<User>, t: Table)
  {
    SortedByNama(us) && multiset(us) == multiset(t.Values)
  }

  lemma PrependSorted(x: User, us: seq<User>)
    requires SortedByNama(us)
    requires forall j :: 0 <= j < |us| ==> NoLater(x.nama, us[j].nama)
    ensures SortedByNama([x] + us)
  {
  }

  /** One step of the sort: `u` placed before the first row whose name
      sorts after it. */
  function InsertByNama(u: User, us: seq<User>): (r: seq<User>)
    requires SortedByNama(us)
    ensures SortedByNama(r)
    ensures multiset(r) == multiset(us) + multiset{u}
    decreases |us|
  {
    if |us| == 0 then
      [u]
    else if NoLater(u.nama, us[0].nama) then
      InsertFrontSorted(u, us);
      [u] + us
    else
      NoLaterTotal(u.nama, us[0].nama);
      var rest := InsertByNama(u, us[1..]);
      assert us == [us[0]] + us[1..];
      InsertBehindSorted(us[0], u, us[1..], rest);
      [us[0]] + rest
  }

  lemma InsertFrontSorted(u: User, us: seq<User>)
    requires SortedByNama(us) && |us| > 0 && NoLater(u.nama, us[0].nama)
    ensures SortedByNama([u] + us)
  {
    forall j | 0 <= j < |us|
      ensures NoLater(u.nama, us[j].nama)
    {
      if j > 0 {
        NoLaterTransitive(u.nama, us[0].nama, us[j].nama);
      }
    }
    PrependSorted(u, us);
  }

  lemma InsertBehindSorted(x: User, u: User, tail: seq<User>, rest: seq<User>)
    requires SortedByNama([x] + tail) && NoLater(x.nama, u.nama)
    requires SortedByNama(rest) && multiset(rest) == multiset(tail) + multiset{u}
    ensures SortedByNama([x] + rest)
  {
    forall j | 0 <= j < |rest|
      ensures NoLater(x.nama, rest[j].nama)
    {
      assert rest[j] in multiset(rest);
      if rest[j] != u {
        assert rest[j] in multiset(tail);
        assert rest[j] in tail;
        var k :| 0 <= k < |tail| && tail[k] == rest[j];
        assert ([x] + tail)[0] == x && ([x] + tail)[k + 1] == tail[k];
      }
    }
    PrependSorted(x, rest);
  }

  /** The rows stored under `keys`. */
  ghost function RowsUnder(t: Table, keys: set<string>): set<User>
    requires keys <= t.Keys
  {
    set k | k in keys :: t[k]
  }

  lemma RowsUnderSplit(t: Table, keys: set<string>, k: string)
    requires keys <= t.Keys && k in keys
    ensures RowsUnder(t, keys) == RowsUnder(t, keys - {k}) + {t[k]}
    ensures t[k] !in RowsUnder(t, keys - {k})
  {
  }

  /** `getAllUsers()`, one emission: a name-ordered permutation of the rows. */
  method GetAllUsers(t: Table) returns (r: seq<User>)
    ensures SortedByNama(r)
    ensures multiset(r) == multiset(t.Values)
  {
    r := [];
    var pending := t.Keys;
    assert RowsUnder(t, pending) == t.Values;
    while pending != {}
      invariant pending <= t.Keys
      invariant SortedByNama(r)
      invariant multiset(r) + multiset(RowsUnder(t, pending)) == multiset(t.Values)
      decreases |pending|
    {
      var k :| k in pending;
      RowsUnderSplit(t, pending, k);
      r := InsertByNama(t[k], r);
      pending := pending - {k};
    }
  }

  /** The scan lists each `nim` once, as a list keyed by `nim` needs. */
  lemma ScanKeysDistinct(us: seq<User>, t: Table, i: int, j: int)
    requires IsScanOf(us, t)
    requires 0 <= i < j < |us|
    ensures us[i].nim != us[j].nim
  {
    if us[i].nim == us[j].nim {
      assert us[i] in multiset(t.Values) && us[j] in multiset(t.Values);
      assert us[i] == us[j];
      RepeatedElementCount(us, i, j);
      assert false;
    }
  }

  lemma RepeatedElementCount<T>(us: seq<T>, i: int, j: int)
    requires 0 <= i < j < |us| && us[i] == us[j]
    ensures multiset(us)[us[i]] >= 2
  {
    var x := us[i];
    assert us == us[..i] + [x] + us[i + 1..j] + [x] + us[j + 1..];
  }
}

/** The relational store the handlers talk to, reduced to its semantics: the `users` table
    with UNIQUE `username` and `email`, the dependent tables `personal_info`, `address` and
    `social_info` keyed by `user_id`, an AUTO_INCREMENT counter, one transaction at a time,
    and the pool whose `held` count says how many connections are checked out. */
module Store {
  import opened Js
  import opened Http

  /** A rejected store call: mysql2's `error.code`, `error.sqlMessage` (absent on errors that
      do not come from the server) and `error.message`. */
  datatype StoreError = StoreError(code: string, sqlMessage: Option<string>, message: string)

  /** The one store interaction of a request that fails, if any, with its error. Interaction
      0 is `pool.getConnection()`; the handler's awaits on the connection follow in program
      order (each handler's comment lists them). */
  datatype Fault = NoFault | FailAt(step: nat, err: StoreError)

  function Injected(f: Fault, k: nat): (r: Option<StoreError>)
    ensures r.Some? <==> f.FailAt? && f.step == k
    ensures r.Some? ==> r.value == f.err
  {
    if f.FailAt? && f.step == k then Some(f.err) else None
  }

  /** A row of a dependent table: the `user_id` it belongs to and its other columns. */
  datatype ChildRow = ChildRow(userId: int, cols: map<string, string>)

  datatype Table = PersonalInfo | Address | SocialInfo

  /** The persisted data. `users` is in primary-key order, the order a `SELECT` without
      `ORDER BY` reads an InnoDB table in. */
  datatype Tables = Tables(users: seq<UserRow>, personalInfo: seq<ChildRow>,
                           address: seq<ChildRow>, socialInfo: seq<ChildRow>)

  predicate IdsIncreasing(users: seq<UserRow>)
  {
    forall i, j :: 0 <= i < j < |users| ==> users[i].id < users[j].id
  }

  predicate IdsBelow(users: seq<UserRow>, n: int)
  {
    forall i :: 0 <= i < |users| ==> users[i].id < n
  }

  /** No two rows share a (non-NULL) value of `col`: a UNIQUE key. */
  predicate UniqueColumn(users: seq<UserRow>, col: string)
  {
    forall i, j :: 0 <= i < j < |users| && col in users[i].cols && col in users[j].cols ==>
      users[i].cols[col] != users[j].cols[col]
  }

  /** The invariant of the `users` table under the counter value `nextId`. */
  ghost predicate WellFormed(t: Tables, nextId: int)
  {
    IdsIncreasing(t.users) && IdsBelow(t.users, nextId)
    && UniqueColumn(t.users, "username") && UniqueColumn(t.users, "email")
  }

  const DuplicatePrefix := "Duplicate entry "
  const ForKey := " for key "

  /** The name MySQL 8 gives the UNIQUE key on column `col` of `users`. */
  function KeyName(col: string): string
  {
    "users." + col
  }

  /** MySQL 8's text for a rejected duplicate in the UNIQUE key `users.<col>`:
      `Duplicate entry '<v>' for key 'users.<col>'`. */
  function DuplicateMessage(col: string, v: string): string
  {
    DuplicatePrefix + "'" + v + "'" + ForKey + "'" + KeyName(col) + "'"
  }

  function DuplicateError(col: string, v: string): StoreError
  {
    StoreError("ER_DUP_ENTRY", Some(DuplicateMessage(col, v)), DuplicateMessage(col, v))
  }

  /** `v` is the value of `col` in some row other than the row `except` names. */
  predicate Taken(users: seq<UserRow>, col: string, v: string, except: Option<int>)
  {
    exists i :: 0 <= i < |users| && Some(users[i].id) != except && col in users[i].cols && users[i].cols[col] == v
  }

  /** The error a write of `cols` into a `users` row draws from the UNIQUE keys, the
      username key reported before the email key; `None` when both keys accept it. */
  function UniqueViolation(users: seq<UserRow>, cols: map<string, string>, except: Option<int>): (r: Option<StoreError>)
    ensures r.None? <==>
      !("username" in cols && Taken(users, "username", cols["username"], except))
      && !("email" in cols && Taken(users, "email", cols["email"], except))
    ensures "username" in cols && Taken(users, "username", cols["username"], except) ==>
      r == Some(DuplicateError("username", cols["username"]))
  {
    if "username" in cols && Taken(users, "username", cols["username"], except) then
      Some(DuplicateError("username", cols["username"]))
    else if "email" in cols && Taken(users, "email", cols["email"], except) then
      Some(DuplicateError("email", cols["email"]))
    else None
  }

  /** `SELECT * FROM users WHERE id = ?`: the matching row, if any. */
  function FindById(users: seq<UserRow>, id: int): (r: Option<UserRow>)
    ensures r.Some? <==> exists i :: 0 <= i < |users| && users[i].id == id
    ensures r.Some? ==> r.value in users && r.value.id == id
  {
    if users == [] then None
    else if users[0].id == id then Some(users[0])
    else
      var r := FindById(users[1..], id);
      assert forall i :: 1 <= i < |users| ==> users[i] == users[1..][i - 1];
      assert r.Some? ==> (exists i :: 0 <= i < |users[1..]| && users[1..][i].id == id);
      r
  }

  /** In a table with increasing ids, the row `FindById` returns is the only row with that id. */
  lemma FindByIdUnique(users: seq<UserRow>, i: nat)
    requires IdsIncreasing(users) && i < |users|
    ensures FindById(users, users[i].id) == Some(users[i])
  {
    var r := FindById(users, users[i].id);
    var k :| 0 <= k < |users| && users[k] == r.value;
    if k < i { assert users[k].id < users[i].id; }
    if k > i { assert users[i].id < users[k].id; }
  }

  /** The row's `col` holds `v` (a NULL parameter matches nothing). */
  predicate HasValue(x: UserRow, col: string, v: Option<string>)
  {
    v.Some? && col in x.cols && x.cols[col] == v.value
  }

  /** The rows whose `col` equals `v`, in table order. */
  function RowsWhere(users: seq<UserRow>, col: string, v: Option<string>): (r: seq<UserRow>)
    ensures forall x :: x in r <==> x in users && v.Some? && col in x.cols && x.cols[col] == v.value
  {
    if users == [] then []
    else
      var rest := RowsWhere(users[1..], col, v);
      assert forall x :: x in users <==> x == users[0] || x in users[1..];
      if v.Some? && col in users[0].cols && users[0].cols[col] == v.value then [users[0]] + rest else rest
  }

  /** `WHERE c1 = ? OR c2 = ?`: the rows matching either value, in table order (a NULL
      parameter matches nothing). */
  function RowsWhereEither(users: seq<UserRow>, c1: string, v1: Option<string>, c2: string, v2: Option<string>): (r: seq<UserRow>)
    ensures forall x :: x in r <==>
      x in users && ((v1.Some? && c1 in x.cols && x.cols[c1] == v1.value) || (v2.Some? && c2 in x.cols && x.cols[c2] == v2.value))
    ensures |r| <= |users|
  {
    if users == [] then []
    else
      var rest := RowsWhereEither(users[1..], c1, v1, c2, v2);
      var x := users[0];
      assert forall y :: y in users <==> y == x || y in users[1..];
      if (v1.Some? && c1 in x.cols && x.cols[c1] == v1.value) || (v2.Some? && c2 in x.cols && x.cols[c2] == v2.value)
      then [x] + rest else rest
  }

  /** The first row `RowsWhere` returns is the first row of the table that matches. */
  lemma {:induction false} RowsWhereFirstMatch(users: seq<UserRow>, col: string, v: Option<string>, k: nat)
    requires k < |users| && HasValue(users[k], col, v)
    requires forall j :: 0 <= j < k ==> !HasValue(users[j], col, v)
    ensures RowsWhere(users, col, v) != [] && RowsWhere(users, col, v)[0] == users[k]
  {
    if k > 0 {
      assert !HasValue(users[0], col, v);
      assert forall j :: 0 <= j < k - 1 ==> users[1..][j] == users[j + 1];
      RowsWhereFirstMatch(users[1..], col, v, k - 1);
    }
  }

  /** The first row `RowsWhereEither` returns is the first row of the table that matches
      either value. */
  lemma {:induction false} RowsWhereEitherFirstMatch(users: seq<UserRow>, c1: string, v1: Option<string>,
                                                     c2: string, v2: Option<string>, k: nat)
    requires k < |users| && (HasValue(users[k], c1, v1) || HasValue(users[k], c2, v2))
    requires forall j :: 0 <= j < k ==> !(HasValue(users[j], c1, v1) || HasValue(users[j], c2, v2))
    ensures RowsWhereEither(users, c1, v1, c2, v2) != [] && RowsWhereEither(users, c1, v1, c2, v2)[0] == users[k]
  {
    if k > 0 {
      assert !(HasValue(users[0], c1, v1) || HasValue(users[0], c2, v2));
      assert forall j :: 0 <= j < k - 1 ==> users[1..][j] == users[j + 1];
      RowsWhereEitherFirstMatch(users[1..], c1, v1, c2, v2, k - 1);
    }
  }

  /** The columns of the first row of `rows` that belongs to `userId`; `{}` when none does
      (`rows[0] || {}`). */
  function FirstChild(rows: seq<ChildRow>, userId: int): (r: map<string, string>)
    ensures (forall k :: 0 <= k < |rows| ==> rows[k].userId != userId) ==> r == map[]
    ensures forall k :: 0 <= k < |rows| && rows[k].userId == userId && (forall j :: 0 <= j < k ==> rows[j].userId != userId) ==> r == rows[k].cols
  {
    if rows == [] then map[]
    else if rows[0].userId == userId then rows[0].cols
    else
      var r := FirstChild(rows[1..], userId);
      assert forall k :: 1 <= k < |rows| ==> rows[k] == rows[1..][k - 1];
      r
  }

  function AddChild(t: Tables, table: Table, row: ChildRow): Tables
  {
    match table
    case PersonalInfo => t.(personalInfo := t.personalInfo + [row])
    case Address => t.(address := t.address + [row])
    case SocialInfo => t.(socialInfo := t.socialInfo + [row])
  }

  /** What `UPDATE … SET c1 = ?, …, cn = ?` with the body `b` does to a row's columns: every
      listed column takes the body's value, or NULL when the body lacks it. */
  function Assign(cols: map<string, string>, listed: set<string>, b: Body): (r: map<string, string>)
    ensures forall c :: c in listed ==> (c in r <==> c in b) && (c in b ==> r[c] == b[c])
    ensures forall c :: c !in listed ==> (c in r <==> c in cols) && (c in cols ==> r[c] == cols[c])
  {
    (cols - listed) + Pick(b, listed)
  }

  /** `users` with the row `id` updated as `Assign` says (no row changes when none has that id). */
  function UpdateRows(users: seq<UserRow>, id: int, listed: set<string>, b: Body): (r: seq<UserRow>)
    ensures |r| == |users|
    ensures forall i :: 0 <= i < |r| ==> r[i].id == users[i].id
    ensures forall i :: 0 <= i < |r| ==>
      r[i].cols == if users[i].id == id then Assign(users[i].cols, listed, b) else users[i].cols
  {
    seq(|users|, i requires 0 <= i < |users| =>
      if users[i].id == id then UserRow(id, Assign(users[i].cols, listed, b)) else users[i])
  }

  /** The error the UNIQUE keys raise against updating the row `id` (none when no row has it). */
  function UpdateViolation(users: seq<UserRow>, id: int, listed: set<string>, b: Body): (r: Option<StoreError>)
    ensures FindById(users, id).None? ==> r.None?
    ensures FindById(users, id).Some? ==> r == UniqueViolation(users, Assign(FindById(users, id).value.cols, listed, b), Some(id))
  {
    match FindById(users, id)
    case None => None
    case Some(row) => UniqueViolation(users, Assign(row.cols, listed, b), Some(id))
  }

  function UpdateChildRows(rows: seq<ChildRow>, userId: int, listed: set<string>, b: Body): (r: seq<ChildRow>)
    ensures |r| == |rows|
    ensures forall i :: 0 <= i < |r| ==> r[i].userId == rows[i].userId
    ensures forall i :: 0 <= i < |r| ==>
      r[i].cols == if rows[i].userId == userId then Assign(rows[i].cols, listed, b) else rows[i].cols
  {
    seq(|rows|, i requires 0 <= i < |rows| =>
      if rows[i].userId == userId then ChildRow(userId, Assign(rows[i].cols, listed, b)) else rows[i])
  }

  function UpdateChildren(t: Tables, table: Table, userId: int, listed: set<string>, b: Body): Tables
  {
    match table
    case PersonalInfo => t.(personalInfo := UpdateChildRows(t.personalInfo, userId, listed, b))
    case Address => t.(address := UpdateChildRows(t.address, userId, listed, b))
    case SocialInfo => t.(socialInfo := UpdateChildRows(t.socialInfo, userId, listed, b))
  }

  function WithoutUser(users: seq<UserRow>, id: int): (r: seq<UserRow>)
    ensures forall x :: x in r <==> x in users && x.id != id
    ensures |r| <= |users|
  {
    if users == [] then []
    else
      var rest := WithoutUser(users[1..], id);
      assert forall x :: x in users <==> x == users[0] || x in users[1..];
      if users[0].id == id then rest else [users[0]] + rest
  }

  lemma {:induction false} WithoutUserKeepsOrder(users: seq<UserRow>, id: int)
    requires IdsIncreasing(users)
    ensures IdsIncreasing(WithoutUser(users, id))
    decreases |users|
  {
    if users != [] {
      var tail := users[1..];
      var rest := WithoutUser(tail, id);
      assert IdsIncreasing(tail);
      WithoutUserKeepsOrder(tail, id);
      if users[0].id != id {
        assert forall k :: 0 <= k < |tail| ==> users[0].id < tail[k].id;
        assert forall x :: x in rest ==> users[0].id < x.id;
        var r := [users[0]] + rest;
        assert forall i :: 0 < i < |r| ==> r[i] == rest[i - 1];
        assert IdsIncreasing(r);
      }
    }
  }

  /** Keeping only some rows of a table, in an order of increasing ids, keeps a UNIQUE key unique. */
  lemma SubsetUnique(before: seq<UserRow>, after: seq<UserRow>, col: string)
    requires UniqueColumn(before, col) && IdsIncreasing(before) && IdsIncreasing(after)
    requires forall x :: x in after ==> x in before
    ensures UniqueColumn(after, col)
  {
    forall i, j | 0 <= i < j < |after| && col in after[i].cols && col in after[j].cols
      ensures after[i].cols[col] != after[j].cols[col]
    {
      assert after[i] in before && after[j] in before;
      var i' :| 0 <= i' < |before| && before[i'] == after[i];
      var j' :| 0 <= j' < |before| && before[j'] == after[j];
      assert after[i].id < after[j].id;
      assert i' < j';
    }
  }

  function WithoutChildren(rows: seq<ChildRow>, userId: int): (r: seq<ChildRow>)
    ensures forall x :: x in r <==> x in rows && x.userId != userId
  {
    if rows == [] then []
    else
      var rest := WithoutChildren(rows[1..], userId);
      assert forall x :: x in rows <==> x == rows[0] || x in rows[1..];
      if rows[0].userId == userId then rest else [rows[0]] + rest
  }

  /** Removing an id that no row has leaves the table as it was. */
  lemma {:induction false} WithoutAbsentUser(users: seq<UserRow>, id: int)
    requires forall i :: 0 <= i < |users| ==> users[i].id != id
    ensures WithoutUser(users, id) == users
    decreases |users|
  {
    if users != [] {
      assert forall i :: 0 <= i < |users[1..]| ==> users[1..][i] == users[i + 1];
      WithoutAbsentUser(users[1..], id);
      assert users == [users[0]] + users[1..];
    }
  }

  lemma {:induction false} WithoutAbsentChildren(rows: seq<ChildRow>, userId: int)
    requires forall i :: 0 <= i < |rows| ==> rows[i].userId != userId
    ensures WithoutChildren(rows, userId) == rows
    decreases |rows|
  {
    if rows != [] {
      assert forall i :: 0 <= i < |rows[1..]| ==> rows[1..][i] == rows[i + 1];
      WithoutAbsentChildren(rows[1..], userId);
      assert rows == [rows[0]] + rows[1..];
    }
  }

  /** `DELETE FROM users WHERE id = ?`, with the dependent rows removed by their foreign
      keys' `ON DELETE CASCADE`. */
  function DeleteUserTables(t: Tables, id: int): (r: Tables)
    ensures forall x :: x in r.users <==> x in t.users && x.id != id
    ensures forall x :: x in r.personalInfo <==> x in t.personalInfo && x.userId != id
    ensures forall x :: x in r.address <==> x in t.address && x.userId != id
    ensures forall x :: x in r.socialInfo <==> x in t.socialInfo && x.userId != id
  {
    Tables(WithoutUser(t.users, id), WithoutChildren(t.personalInfo, id),
           WithoutChildren(t.address, id), WithoutChildren(t.socialInfo, id))
  }

  /** The connection pool; `held` counts the connections checked out and not yet released. */
  class Pool {
    var held: nat

    constructor ()
      ensures held == 0
    {
      held := 0;
    }

    /** `await pool.getConnection()`; `fail` is the rejection, if this call is the failing one. */
    method GetConnection(fail: Option<StoreError>) returns (err: Option<StoreError>)
      modifies this
      ensures err == fail
      ensures held == old(held) + (if fail.None? then 1 else 0)
    {
      err := fail;
      if fail.None? {
        held := held + 1;
      }
    }

    /** `connection.release()`. */
    method Release()
      requires held > 0
      modifies this
      ensures held == old(held) - 1
    {
      held := held - 1;
    }
  }

  /** The database behind the pool. Every statement outside a transaction commits at once;
      between `BeginTransaction` and `Commit`/`Rollback` the statements can be undone. */
  class Database {
    var users: seq<UserRow>
    var personalInfo: seq<ChildRow>
    var address: seq<ChildRow>
    var socialInfo: seq<ChildRow>
    /** The AUTO_INCREMENT counter of `users`. A rollback does not give back the values it handed out. */
    var nextId: int
    /** `LAST_INSERT_ID()` of the connection. */
    var lastInsertId: int
    /** The tables as they were at `beginTransaction`, while a transaction is open. */
    var snapshot: Option<Tables>

    function Data(): Tables
      reads this
    {
      Tables(users, personalInfo, address, socialInfo)
    }

    ghost predicate Valid()
      reads this
    {
      WellFormed(Data(), nextId) && (snapshot.Some? ==> WellFormed(snapshot.value, nextId))
    }

    constructor ()
      ensures Valid() && Data() == Tables([], [], [], []) && snapshot == None
    {
      users, personalInfo, address, socialInfo := [], [], [], [];
      nextId, lastInsertId := 1, 0;
      snapshot := None;
    }

    method BeginTransaction(fail: Option<StoreError>) returns (err: Option<StoreError>)
      requires Valid()
      modifies this
      ensures Valid() && err == fail
      ensures Data() == old(Data()) && nextId == old(nextId) && lastInsertId == old(lastInsertId)
      ensures snapshot == if fail.None? then Some(old(Data())) else old(snapshot)
    {
      err := fail;
      if fail.None? {
        snapshot := Some(Data());
      }
    }

    method Commit(fail: Option<StoreError>) returns (err: Option<StoreError>)
      requires Valid()
      modifies this
      ensures Valid() && err == fail
      ensures Data() == old(Data()) && nextId == old(nextId) && lastInsertId == old(lastInsertId)
      ensures snapshot == if fail.None? then None else old(snapshot)
    {
      err := fail;
      if fail.None? {
        snapshot := None;
      }
    }

    /** `connection.rollback()`: the tables return to the transaction's snapshot (nothing
        changes when no transaction is open). */
    method Rollback()
      requires Valid()
      modifies this
      ensures Valid() && snapshot == None
      ensures Data() == if old(snapshot).Some? then old(snapshot).value else old(Data())
      ensures nextId == old(nextId) && lastInsertId == old(lastInsertId)
    {
      if snapshot.Some? {
        var t := snapshot.value;
        users, personalInfo, address, socialInfo := t.users, t.personalInfo, t.address, t.socialInfo;
      }
      snapshot := None;
    }

    /** `INSERT INTO users …` with the columns `cols`; on success the new row takes the next
        AUTO_INCREMENT value, which `lastInsertId` then holds. InnoDB hands the value out
        before it checks the UNIQUE keys, so an insert the server rejects as a duplicate
        consumes it too; `lastInsertId` only changes on success. */
    method InsertUser(cols: map<string, string>, fail: Option<StoreError>) returns (err: Option<StoreError>)
      requires Valid()
      modifies this
      ensures Valid() && snapshot == old(snapshot)
      ensures err == if fail.Some? then fail else UniqueViolation(old(users), cols, None)
      ensures nextId == old(nextId) + if fail.None? then 1 else 0
      ensures err.None? ==> users == old(users) + [UserRow(old(nextId), cols)] && lastInsertId == old(nextId)
      ensures err.Some? ==> users == old(users) && lastInsertId == old(lastInsertId)
      ensures personalInfo == old(personalInfo) && address == old(address) && socialInfo == old(socialInfo)
    {
      err := if fail.Some? then fail else UniqueViolation(users, cols, None);
      if fail.None? {
        if err.None? {
          var row := UserRow(nextId, cols);
          users := users + [row];
          lastInsertId := nextId;
          UniqueAfterWrite(old(users), users, "username", |users| - 1);
          UniqueAfterWrite(old(users), users, "email", |users| - 1);
        }
        nextId := nextId + 1;
      }
    }

    /** `INSERT INTO <table> …` of one dependent row. */
    method InsertChild(table: Table, row: ChildRow, fail: Option<StoreError>) returns (err: Option<StoreError>)
      requires Valid()
      modifies this
      ensures Valid() && err == fail
      ensures Data() == if fail.None? then AddChild(old(Data()), table, row) else old(Data())
      ensures nextId == old(nextId) && lastInsertId == old(lastInsertId) && snapshot == old(snapshot)
    {
      err := fail;
      if fail.None? {
        match table
        case PersonalInfo => personalInfo := personalInfo + [row];
        case Address => address := address + [row];
        case SocialInfo => socialInfo := socialInfo + [row];
      }
    }

    /** `UPDATE users SET <listed> = ? … WHERE id = ?`. A missing id matches no row and is no error. */
    method UpdateUser(id: int, listed: set<string>, b: Body, fail: Option<StoreError>) returns (err: Option<StoreError>)
      requires Valid()
      modifies this
      ensures Valid() && snapshot == old(snapshot) && nextId == old(nextId) && lastInsertId == old(lastInsertId)
      ensures err == if fail.Some? then fail else UpdateViolation(old(users), id, listed, b)
      ensures users == if err.None? then UpdateRows(old(users), id, listed, b) else old(users)
      ensures personalInfo == old(personalInfo) && address == old(address) && socialInfo == old(socialInfo)
    {
      if fail.Some? {
        return fail;
      }
      var found := FindById(users, id);
      match found {
        case None =>
          err := None;
          assert UpdateRows(users, id, listed, b) == users;
        case Some(row) =>
          var cols := Assign(row.cols, listed, b);
          err := UniqueViolation(users, cols, Some(id));
          if err.None? {
            var old_users := users;
            users := UpdateRows(users, id, listed, b);
            UniqueAfterUpdate(old_users, users, id, "username", cols);
            UniqueAfterUpdate(old_users, users, id, "email", cols);
          }
      }
    }

    /** `UPDATE <table> SET <listed> = ? … WHERE user_id = ?`. */
    method UpdateChild(table: Table, userId: int, listed: set<string>, b: Body, fail: Option<StoreError>) returns (err: Option<StoreError>)
      requires Valid()
      modifies this
      ensures Valid() && err == fail
      ensures Data() == if fail.None? then UpdateChildren(old(Data()), table, userId, listed, b) else old(Data())
      ensures nextId == old(nextId) && lastInsertId == old(lastInsertId) && snapshot == old(snapshot)
    {
      err := fail;
      if fail.None? {
        match table
        case PersonalInfo => personalInfo := UpdateChildRows(personalInfo, userId, listed, b);
        case Address => address := UpdateChildRows(address, userId, listed, b);
        case SocialInfo => socialInfo := UpdateChildRows(socialInfo, userId, listed, b);
      }
    }

    /** `DELETE FROM users WHERE id = ?` (a missing id deletes nothing and is no error). */
    method DeleteUser(id: int, fail: Option<StoreError>) returns (err: Option<StoreError>)
      requires Valid()
      modifies this
      ensures Valid() && err == fail
      ensures Data() == if fail.None? then DeleteUserTables(old(Data()), id) else old(Data())
      ensures nextId == old(nextId) && lastInsertId == old(lastInsertId) && snapshot == old(snapshot)
    {
      err := fail;
      if fail.None? {
        WithoutUserKeepsOrder(users, id);
        SubsetUnique(users, WithoutUser(users, id), "username");
        SubsetUnique(users, WithoutUser(users, id), "email");
        var t := DeleteUserTables(Data(), id);
        users, personalInfo, address, socialInfo := t.users, t.personalInfo, t.address, t.socialInfo;
      }
    }
  }

  /** Appending a row whose unique columns are not taken keeps the key unique. */
  lemma UniqueAfterWrite(before: seq<UserRow>, after: seq<UserRow>, col: string, k: nat)
    requires UniqueColumn(before, col)
    requires k == |before| && |after| == k + 1 && after == before + [after[k]]
    requires !(col in after[k].cols && Taken(before, col, after[k].cols[col], None))
    ensures UniqueColumn(after, col)
  {
    forall i, j | 0 <= i < j < |after| && col in after[i].cols && col in after[j].cols
      ensures after[i].cols[col] != after[j].cols[col]
    {
      if j == k {
        assert after[i] == before[i];
        assert Some(before[i].id) != None;
      } else {
        assert after[i] == before[i] && after[j] == before[j];
      }
    }
  }

  /** Rewriting the row `id` with columns whose unique values no other row has keeps the key unique. */
  lemma UniqueAfterUpdate(before: seq<UserRow>, after: seq<UserRow>, id: int, col: string, cols: map<string, string>)
    requires UniqueColumn(before, col) && IdsIncreasing(before)
    requires |after| == |before|
    requires forall i :: 0 <= i < |after| ==> after[i].id == before[i].id
    requires forall i :: 0 <= i < |after| ==> after[i].cols == if before[i].id == id then cols else before[i].cols
    requires !(col in cols && Taken(before, col, cols[col], Some(id)))
    ensures UniqueColumn(after, col)
  {
    forall i, j | 0 <= i < j < |after| && col in after[i].cols && col in after[j].cols
      ensures after[i].cols[col] != after[j].cols[col]
    {
      assert before[i].id < before[j].id;
      if before[j].id == id {
        assert Some(before[i].id) != Some(id);
      } else if before[i].id == id {
        assert Some(before[j].id) != Some(id);
      }
    }
  }
}

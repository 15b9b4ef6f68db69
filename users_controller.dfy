/** controllers/usersController.js: the CRUD routes over `users` with the dependent
    `address` and `social_info` rows. Every route takes its connection with an `await`
    outside the `try` (interaction 0), so a failing `getConnection` rejects the handler's
    promise with nothing sent. */
module UsersController {
  import opened Js
  import opened Http
  import opened Store
  import opened Duplicates
  import opened UserVerification
  import opened Crud

  /** The columns of the `users` insert and update (lines 46, 85). */
  const UserColumns: set<string> := {"username", "first_name", "last_name", "email", "password", "age", "phone", "gender", "date_of_birth"}
  const AddressColumns: set<string> := {"city", "street", "postal_code", "state", "country"}
  const SocialColumns: set<string> := {"profile_picture", "bio", "website", "occupation", "company", "skill", "language"}

  /** `POST /`. The connection is taken before `verificateUser`, and the 400 return does not
      release it. The user row and the two dependent rows are written one after the other
      without a transaction (`Crud.CreateResult`). */
  method Create(pool: Pool, db: Database, b: Body, f: Fault) returns (out: Outcome)
    requires db.Valid() && db.snapshot == None
    modifies pool, db
    ensures db.Valid() && db.snapshot == None
    ensures Injected(f, 0).Some? ==> out == Unhandled && pool.held == old(pool.held) && db.Data() == old(db.Data())
    ensures Injected(f, 0).None? && !VerificateUser(b).isValid ==>
      out == Sent(400, Message(VerificateUser(b).message.value))
      && pool.held == old(pool.held) + 1 && db.Data() == old(db.Data())
    ensures Injected(f, 0).None? && VerificateUser(b).isValid ==>
      pool.held == old(pool.held)
      && db.Data() == CreateResult(old(db.Data()), old(db.nextId), Pick(b, UserColumns), Pick(b, AddressColumns), Pick(b, SocialColumns), f)
      && out == match CreateError(old(db.users), Pick(b, UserColumns), f)
                case None => Sent(201, Message(CreatedMessage))
                case Some(e) => DuplicateCatch(e, CreateFailedMessage)
  {
    var connErr := pool.GetConnection(Injected(f, 0));
    if connErr.Some? {
      return Unhandled;
    }
    var verification := VerificateUser(b);
    if !verification.isValid {
      return Sent(400, Message(verification.message.value));
    }
    var err := InsertWithChildren(db, Pick(b, UserColumns), Pick(b, AddressColumns), Pick(b, SocialColumns), f);
    if err.None? {
      out := Sent(201, Message(CreatedMessage));
    } else {
      out := DuplicateCatch(err.value, CreateFailedMessage);
    }
    pool.Release();
  }

  /** The first error of the three updates: interaction 1 updates `users`, 2 `address`,
      3 `social_info`. An id with no row is no error. */
  function UpdateError(users: seq<UserRow>, id: int, b: Body, f: Fault): (r: Option<StoreError>)
    ensures r.None? <==>
      Injected(f, 1).None? && UpdateViolation(users, id, UserColumns, b).None?
      && Injected(f, 2).None? && Injected(f, 3).None?
    // a UNIQUE key refusing the `users` update is the error reported
    ensures Injected(f, 1).None? && UpdateViolation(users, id, UserColumns, b).Some? ==>
      r == UpdateViolation(users, id, UserColumns, b)
    ensures FindById(users, id).None? && (f.FailAt? ==> f.step !in {1, 2, 3}) ==> r.None?
  {
    if Injected(f, 1).Some? then Injected(f, 1)
    else if UpdateViolation(users, id, UserColumns, b).Some? then UpdateViolation(users, id, UserColumns, b)
    else if Injected(f, 2).Some? then Injected(f, 2)
    else Injected(f, 3)
  }

  /** The tables after the three updates, each committed on its own. */
  function UpdateResult(t: Tables, id: int, b: Body, f: Fault): (r: Tables)
    ensures r.personalInfo == t.personalInfo
    // updates never add or remove rows, nor change a key
    ensures |r.users| == |t.users| && forall i :: 0 <= i < |r.users| ==> r.users[i].id == t.users[i].id
    ensures |r.address| == |t.address| && |r.socialInfo| == |t.socialInfo|
    // a refused `users` update stops the sequence before anything is written
    ensures Injected(f, 1).Some? || UpdateViolation(t.users, id, UserColumns, b).Some? ==> r == t
  {
    if Injected(f, 1).Some? || UpdateViolation(t.users, id, UserColumns, b).Some? then t
    else
      var withUser := t.(users := UpdateRows(t.users, id, UserColumns, b));
      if Injected(f, 2).Some? then withUser
      else
        var withAddress := UpdateChildren(withUser, Address, id, AddressColumns, b);
        if Injected(f, 3).Some? then withAddress else UpdateChildren(withAddress, SocialInfo, id, SocialColumns, b)
  }

  /** Lines 85-89. */
  method UpdateAll(db: Database, id: int, b: Body, f: Fault) returns (err: Option<StoreError>)
    requires db.Valid()
    modifies db
    ensures db.Valid() && db.snapshot == old(db.snapshot) && db.nextId == old(db.nextId)
    ensures err == UpdateError(old(db.users), id, b, f)
    ensures db.Data() == UpdateResult(old(db.Data()), id, b, f)
  {
    err := db.UpdateUser(id, UserColumns, b, Injected(f, 1));
    if err.Some? {
      return;
    }
    err := db.UpdateChild(Address, id, AddressColumns, b, Injected(f, 2));
    if err.Some? {
      return;
    }
    err := db.UpdateChild(SocialInfo, id, SocialColumns, b, Injected(f, 3));
  }

  /** A failure after the `users` update leaves that update in place: the three updates are
      not atomic. */
  lemma UpdatePartialState(t: Tables, id: int, b: Body, e: StoreError)
    requires UpdateViolation(t.users, id, UserColumns, b).None?
    ensures UpdateResult(t, id, b, FailAt(2, e)) == t.(users := UpdateRows(t.users, id, UserColumns, b))
    ensures UpdateError(t.users, id, b, FailAt(2, e)) == Some(e)
  {
  }

  /** Updating the row `id` to a username that another row holds is refused by the UNIQUE
      key, and the `catch` answers 400 with the username message. */
  lemma UpdateTakenUsernameRefused(users: seq<UserRow>, id: int, b: Body, f: Fault, k: nat)
    requires FindById(users, id).Some? && "username" in b
    requires k < |users| && users[k].id != id
    requires "username" in users[k].cols && users[k].cols["username"] == b["username"]
    requires Injected(f, 1).None?
    ensures UpdateError(users, id, b, f) == Some(DuplicateError("username", b["username"]))
    ensures DuplicateCatch(UpdateError(users, id, b, f).value, UpdateFailedMessage) == Sent(400, Message(UsernameTakenMessage))
  {
    var cols := Assign(FindById(users, id).value.cols, UserColumns, b);
    assert "username" in UserColumns;
    assert "username" in cols && cols["username"] == b["username"];
    assert Taken(users, "username", b["username"], Some(id)) by {
      assert Some(users[k].id) != Some(id);
    }
    DuplicateCatchUsername(b["username"], UpdateFailedMessage);
  }

  /** An id that no row has is reported as updated, and nothing changes in `users`. */
  lemma UpdateMissingIdReportsSuccess(t: Tables, id: int, b: Body, f: Fault)
    requires forall i :: 0 <= i < |t.users| ==> t.users[i].id != id
    requires f.FailAt? ==> f.step !in {1, 2, 3}
    ensures UpdateError(t.users, id, b, f).None?
    ensures UpdateResult(t, id, b, f).users == t.users
  {
    var u := UpdateRows(t.users, id, UserColumns, b);
    assert forall i :: 0 <= i < |u| ==> u[i] == t.users[i];
  }

  /** `PUT /:id`. `verificateUser` runs before the connection is taken; success is
      reported whether or not a row has the id. */
  method Update(pool: Pool, db: Database, id: int, b: Body, f: Fault) returns (out: Outcome)
    requires db.Valid() && db.snapshot == None
    modifies pool, db
    ensures db.Valid() && db.snapshot == None
    ensures !VerificateUser(b).isValid ==>
      out == Sent(400, Message(VerificateUser(b).message.value)) && pool.held == old(pool.held) && db.Data() == old(db.Data())
    ensures VerificateUser(b).isValid && Injected(f, 0).Some? ==>
      out == Unhandled && pool.held == old(pool.held) && db.Data() == old(db.Data())
    ensures VerificateUser(b).isValid && Injected(f, 0).None? ==>
      pool.held == old(pool.held) && db.Data() == UpdateResult(old(db.Data()), id, b, f)
      && out == match UpdateError(old(db.users), id, b, f)
                case None => Sent(200, Message(UpdatedMessage))
                case Some(e) => DuplicateCatch(e, UpdateFailedMessage)
  {
    var verification := VerificateUser(b);
    if !verification.isValid {
      return Sent(400, Message(verification.message.value));
    }
    var connErr := pool.GetConnection(Injected(f, 0));
    if connErr.Some? {
      return Unhandled;
    }
    var err := UpdateAll(db, id, b, f);
    if err.None? {
      out := Sent(200, Message(UpdatedMessage));
    } else {
      out := DuplicateCatch(err.value, UpdateFailedMessage);
    }
    pool.Release();
  }
}

/** src/controllers/usersController.js: the CRUD routes of the `src` application. `GET /`
    merges every user with its first address and social-info rows in a loop of queries; the
    POST route maps only the error code `ER_DUP_FIELD` to a 400. `GET /:id` and
    `DELETE /:id` are `Crud.FetchById` and `Crud.DeleteRoute`. */
module SrcUsersController {
  import opened Js
  import opened Http
  import opened Store
  import opened Crud
  import opened Duplicates

  /** The columns of the `users` insert (line 104) and of the two dependent inserts
      (lines 108-109). */
  const UserColumns: set<string> := {"username", "first_name", "last_name", "email", "password", "date_of_birth", "phone", "gender"}
  const AddressColumns: set<string> := {"city", "street", "postal_code", "state", "country"}
  const SocialColumns: set<string> := {"profile_picture", "bio", "status", "website", "occupation", "company", "skill", "language"}

  /** The columns the PUT route sets (line 151), all of them on `users`. */
  const UpdateColumns: set<string> := {"first_name", "last_name", "email", "password", "date_of_birth", "phone", "gender",
    "profile_picture", "bio", "status", "city", "street", "postal_code", "state", "country", "nationality",
    "occupation", "company", "website", "social_media", "interests", "skill", "education", "language"}

  const FiveFieldsMessage := "Nome de usuário, nome, sobrenome, email e senha são obrigatórios"
  const UsernameExistsMessage := "Nome de usuário já existe. Escolha outro nome de usuário."

  // ---------------------------------------------------------------------------------
  // GET /
  // ---------------------------------------------------------------------------------

  /** Whether one of the per-user queries fails: interaction 2 + 2k is the `address`
      query of the k-th user, 3 + 2k its `social_info` query. */
  predicate LoopFails(n: nat, f: Fault)
  {
    f.FailAt? && 2 <= f.step < 2 + 2 * n
  }

  /** The loop of lines 53-71. It only reads the store. */
  method MergeDetails(db: Database, f: Fault) returns (err: Option<StoreError>, merged: seq<FullUser>)
    ensures err.Some? <==> LoopFails(|db.users|, f)
    ensures err.Some? ==> err == Some(f.err)
    ensures err.None? ==> |merged| == |db.users|
    ensures err.None? ==> forall i :: 0 <= i < |merged| ==>
      merged[i] == FullUser(db.users[i], FirstChild(db.address, db.users[i].id), FirstChild(db.socialInfo, db.users[i].id))
  {
    var users := db.users;
    merged := [];
    var i := 0;
    while i < |users|
      invariant 0 <= i <= |users|
      invariant |merged| == i
      invariant forall k :: 0 <= k < i ==>
        merged[k] == FullUser(users[k], FirstChild(db.address, users[k].id), FirstChild(db.socialInfo, users[k].id))
      invariant !LoopFails(i, f)
    {
      var userId := users[i].id;
      if Injected(f, 2 + 2 * i).Some? {
        return Injected(f, 2 + 2 * i), [];
      }
      var address := FirstChild(db.address, userId);
      if Injected(f, 3 + 2 * i).Some? {
        return Injected(f, 3 + 2 * i), [];
      }
      var socialInfo := FirstChild(db.socialInfo, userId);
      merged := merged + [FullUser(users[i], address, socialInfo)];
      i := i + 1;
    }
    err := None;
  }

  /** A user with no `address` row is listed with `{}` in its place. */
  lemma NoAddressGivesEmpty(t: Tables, i: nat)
    requires i < |t.users| && forall k :: 0 <= k < |t.address| ==> t.address[k].userId != t.users[i].id
    ensures FirstChild(t.address, t.users[i].id) == map[]
  {
  }

  method GetAll(pool: Pool, db: Database, f: Fault) returns (out: Outcome)
    modifies pool
    ensures pool.held == old(pool.held)
    ensures Injected(f, 0).Some? ==> out == Unhandled
    ensures Injected(f, 0).None? && (Injected(f, 1).Some? || LoopFails(|db.users|, f)) ==>
      out == StoreFailure(FetchFailedMessage, f.err)
    ensures Injected(f, 0).None? && Injected(f, 1).None? && !LoopFails(|db.users|, f) ==>
      out.Sent? && out.status == 200 && out.body.FullRecords? && |out.body.users| == |db.users|
      && forall i :: 0 <= i < |db.users| ==>
        out.body.users[i] == FullUser(db.users[i], FirstChild(db.address, db.users[i].id), FirstChild(db.socialInfo, db.users[i].id))
  {
    var connErr := pool.GetConnection(Injected(f, 0));
    if connErr.Some? {
      return Unhandled;
    }
    if Injected(f, 1).Some? {
      out := StoreFailure(FetchFailedMessage, f.err);
    } else {
      var err, merged := MergeDetails(db, f);
      if err.Some? {
        out := StoreFailure(FetchFailedMessage, err.value);
      } else {
        out := Sent(200, FullRecords(merged));
      }
    }
    pool.Release();
  }

  // ---------------------------------------------------------------------------------
  // POST /
  // ---------------------------------------------------------------------------------

  /** `[username, first_name, last_name, email, password].every(Boolean)`. */
  predicate FiveFieldsPresent(b: Body)
  {
    Truthy(b, "username") && Truthy(b, "first_name") && Truthy(b, "last_name") && Truthy(b, "email") && Truthy(b, "password")
  }

  /** The `catch` of lines 117-122 as written: only the code `ER_DUP_FIELD` gets the 400. */
  function CreateCatch(e: StoreError): (r: Outcome)
    ensures r.Sent? && (r.status == 400 <==> e.code == "ER_DUP_FIELD")
    ensures e.code != "ER_DUP_FIELD" ==> r == StoreFailure(CreateFailedMessage, e)
  {
    if e.code == "ER_DUP_FIELD" then Sent(400, Message(UsernameExistsMessage))
    else StoreFailure(CreateFailedMessage, e)
  }

  /** The server reports a duplicate key with `ER_DUP_ENTRY`, so a taken username is
      answered 500, never with the "username exists" 400. */
  lemma DuplicateUsernameGets500(v: string)
    ensures CreateCatch(DuplicateError("username", v)) == StoreFailure(CreateFailedMessage, DuplicateError("username", v))
  {
  }

  /** The evidently intended `catch`: a duplicate username, as the server reports it (code
      `ER_DUP_ENTRY`, key `users.username`), gets the 400; every other error keeps the 500. */
  function CreateCatchByKey(e: StoreError): (r: Outcome)
    ensures r.Sent? && (r.status == 400 <==> ClassifyByKey(e) == Some(UsernameTakenMessage))
    ensures r.status != 400 ==> r == StoreFailure(CreateFailedMessage, e)
  {
    if ClassifyByKey(e) == Some(UsernameTakenMessage) then Sent(400, Message(UsernameExistsMessage))
    else StoreFailure(CreateFailedMessage, e)
  }

  /** Under the corrected `catch` every taken username gets the 400, and a taken email
      still gets the 500. */
  lemma DuplicateUsernameGets400(v: string)
    ensures CreateCatchByKey(DuplicateError("username", v)) == Sent(400, Message(UsernameExistsMessage))
    ensures CreateCatchByKey(DuplicateError("email", v)) == StoreFailure(CreateFailedMessage, DuplicateError("email", v))
  {
    ClassifyByKeyUsername(v);
    ClassifyByKeyEmail(v);
  }

  /** `POST /`. The connection is taken first (interaction 0, outside the `try`) and is not
      released by the 400 return. */
  method Create(pool: Pool, db: Database, b: Body, f: Fault) returns (out: Outcome)
    requires db.Valid() && db.snapshot == None
    modifies pool, db
    ensures db.Valid() && db.snapshot == None
    ensures Injected(f, 0).Some? ==> out == Unhandled && pool.held == old(pool.held) && db.Data() == old(db.Data())
    ensures Injected(f, 0).None? && !FiveFieldsPresent(b) ==>
      out == Sent(400, Message(FiveFieldsMessage)) && pool.held == old(pool.held) + 1 && db.Data() == old(db.Data())
    ensures Injected(f, 0).None? && FiveFieldsPresent(b) ==>
      pool.held == old(pool.held)
      && db.Data() == CreateResult(old(db.Data()), old(db.nextId), Pick(b, UserColumns), Pick(b, AddressColumns), Pick(b, SocialColumns), f)
      && out == match CreateError(old(db.users), Pick(b, UserColumns), f)
                case None => Sent(201, Message(CreatedMessage))
                case Some(e) => CreateCatch(e)
  {
    var connErr := pool.GetConnection(Injected(f, 0));
    if connErr.Some? {
      return Unhandled;
    }
    if !FiveFieldsPresent(b) {
      return Sent(400, Message(FiveFieldsMessage));
    }
    var err := InsertWithChildren(db, Pick(b, UserColumns), Pick(b, AddressColumns), Pick(b, SocialColumns), f);
    if err.None? {
      out := Sent(201, Message(CreatedMessage));
    } else {
      out := CreateCatch(err.value);
    }
    pool.Release();
  }

  // ---------------------------------------------------------------------------------
  // PUT /:id
  // ---------------------------------------------------------------------------------

  /** `PUT /:id`: the four fields are checked before the connection is taken; one `UPDATE`
      (interaction 1), success whether or not a row has the id. */
  method Update(pool: Pool, db: Database, id: int, b: Body, f: Fault) returns (out: Outcome)
    requires db.Valid() && db.snapshot == None
    modifies pool, db
    ensures db.Valid() && db.snapshot == None
    ensures pool.held == old(pool.held)
    ensures !FourFieldsPresent(b) ==> out == Sent(400, Message(FourFieldsMessage)) && db.Data() == old(db.Data())
    ensures FourFieldsPresent(b) && Injected(f, 0).Some? ==> out == Unhandled && db.Data() == old(db.Data())
    ensures FourFieldsPresent(b) && Injected(f, 0).None? ==>
      var err := if Injected(f, 1).Some? then Injected(f, 1) else UpdateViolation(old(db.users), id, UpdateColumns, b);
      (err.None? ==> out == Sent(200, Message(UpdatedMessage)) && db.users == UpdateRows(old(db.users), id, UpdateColumns, b))
      && (err.Some? ==> out == StoreFailure(UpdateFailedMessage, err.value) && db.users == old(db.users))
    ensures db.personalInfo == old(db.personalInfo) && db.address == old(db.address) && db.socialInfo == old(db.socialInfo)
  {
    if !FourFieldsPresent(b) {
      return Sent(400, Message(FourFieldsMessage));
    }
    var connErr := pool.GetConnection(Injected(f, 0));
    if connErr.Some? {
      return Unhandled;
    }
    var err := db.UpdateUser(id, UpdateColumns, b, Injected(f, 1));
    if err.None? {
      out := Sent(200, Message(UpdatedMessage));
    } else {
      out := StoreFailure(UpdateFailedMessage, err.value);
    }
    pool.Release();
  }
}

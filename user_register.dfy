/** controllers/userRegister.js: `POST /signup`. Three presence checks answered 422, then the
    bcrypt digest of the password is stored with the username and the email. */
module UserRegister {
  import opened Js
  import opened Crypto
  import opened Http
  import opened Store
  import opened Duplicates
  import opened Crud

  const UsernameRequired := "O nome de usuário é obrigatório!"
  const EmailRequired := "O email é obrigatório!"
  const PasswordRequired := "A senha é obrigatória!"

  /** The cost factor passed to `genSalt`. */
  const SaltRounds := 12

  /** The three checks, in order; `None` lets the request through. */
  function SignupCheck(b: Body): (r: Option<Outcome>)
    ensures r.None? <==> Truthy(b, "username") && Truthy(b, "email") && Truthy(b, "password")
    ensures !Truthy(b, "username") ==> r == Some(Sent(422, Msg("msg", UsernameRequired)))
    ensures Truthy(b, "username") && !Truthy(b, "email") ==> r == Some(Sent(422, Msg("msg", EmailRequired)))
    ensures Truthy(b, "username") && Truthy(b, "email") && !Truthy(b, "password") ==>
      r == Some(Sent(422, Msg("msg", PasswordRequired)))
  {
    if !Truthy(b, "username") then Some(Sent(422, Msg("msg", UsernameRequired)))
    else if !Truthy(b, "email") then Some(Sent(422, Msg("msg", EmailRequired)))
    else if !Truthy(b, "password") then Some(Sent(422, Msg("msg", PasswordRequired)))
    else None
  }

  /** The row written: the username, the email and `hash(password, salt)`. */
  function SignupCols(b: Body, h: Bcrypt, salt: string): (r: map<string, string>)
    requires Truthy(b, "username") && Truthy(b, "email") && Truthy(b, "password")
    ensures r.Keys == {"username", "email", "password"}
    ensures r["username"] == b["username"] && r["email"] == b["email"]
    ensures r["password"] == h.hash(b["password"], salt)
  {
    map["username" := b["username"], "email" := b["email"], "password" := h.hash(b["password"], salt)]
  }

  /** The route handler. Interaction 0 is `getConnection`, 1 the `INSERT`; both inside the
      `try`. `salt` is what `genSalt(12)` produced. */
  method Signup(pool: Pool, db: Database, b: Body, h: Bcrypt, salt: string, f: Fault) returns (out: Outcome)
    requires db.Valid() && db.snapshot == None
    modifies pool, db
    ensures db.Valid() && db.snapshot == None
    ensures pool.held == old(pool.held)
    ensures SignupCheck(b).Some? ==> out == SignupCheck(b).value && db.Data() == old(db.Data())
    ensures SignupCheck(b).None? && Injected(f, 0).Some? ==>
      out == GuardedDuplicateCatch(f.err, CreateFailedMessage) && db.Data() == old(db.Data())
    ensures SignupCheck(b).None? && Injected(f, 0).None? ==>
      var err := if Injected(f, 1).Some? then Injected(f, 1) else UniqueViolation(old(db.users), SignupCols(b, h, salt), None);
      (err.None? ==>
        out == Sent(201, Message(CreatedMessage))
        && db.users == old(db.users) + [UserRow(old(db.nextId), SignupCols(b, h, salt))])
      && (err.Some? ==> out == GuardedDuplicateCatch(err.value, CreateFailedMessage) && db.Data() == old(db.Data()))
    ensures db.personalInfo == old(db.personalInfo) && db.address == old(db.address) && db.socialInfo == old(db.socialInfo)
  {
    var rejected := SignupCheck(b);
    if rejected.Some? {
      return rejected.value;
    }
    var connErr := pool.GetConnection(Injected(f, 0));
    if connErr.Some? {
      return GuardedDuplicateCatch(connErr.value, CreateFailedMessage);
    }
    var passwordHash := h.hash(b["password"], salt);
    var cols := map["username" := b["username"], "email" := b["email"], "password" := passwordHash];
    var err := db.InsertUser(cols, Injected(f, 1));
    if err.None? {
      out := Sent(201, Message(CreatedMessage));
    } else {
      out := GuardedDuplicateCatch(err.value, CreateFailedMessage);
    }
    pool.Release();
  }

  /** The stored password is the digest, and it verifies against the password that was
      sent, whatever salt `genSalt` produced. */
  lemma StoredDigestVerifies(b: Body, h: Bcrypt, salt: string)
    requires BcryptSound(h)
    requires SignupCheck(b).None?
    ensures SignupCols(b, h, salt)["password"] == h.hash(b["password"], salt)
    ensures h.compare(b["password"], SignupCols(b, h, salt)["password"])
  {
  }

  /** A second signup with a username already stored is refused with the username answer
      and writes nothing. */
  lemma TakenUsernameRefused(users: seq<UserRow>, b: Body, h: Bcrypt, salt: string, i: nat)
    requires SignupCheck(b).None?
    requires i < |users| && "username" in users[i].cols && users[i].cols["username"] == b["username"]
    ensures UniqueViolation(users, SignupCols(b, h, salt), None) == Some(DuplicateError("username", b["username"]))
    ensures GuardedDuplicateCatch(DuplicateError("username", b["username"]), CreateFailedMessage) ==
      Sent(400, Message(UsernameTakenMessage))
  {
    assert Taken(users, "username", b["username"], None);
    DuplicateCatchUsername(b["username"], CreateFailedMessage);
  }

  /** A failing `getConnection` is answered 500: its error has no `sqlMessage`. */
  lemma ConnectionFailureIs500(e: StoreError)
    requires e.sqlMessage.None?
    ensures GuardedDuplicateCatch(e, CreateFailedMessage) == Sent(500, MsgError(CreateFailedMessage, e.message))
  {
  }
}

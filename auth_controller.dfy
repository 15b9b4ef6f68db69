/** controllers/authController.js: `POST /` registers an account (an ordered chain of
    checks, then two inserts inside one transaction) and `POST /signin` looks the account up
    by email or username. */
module AuthController {
  import opened Js
  import opened Crypto
  import opened Http
  import opened Store
  import opened Duplicates
  import opened Crud

  // ---------------------------------------------------------------------------------
  // The email pattern /^[^\s@]+@[^\s@]+\.[^\s@]+$/
  // ---------------------------------------------------------------------------------

  /** A character of the class `[^\s@]`. */
  predicate PlainChar(c: char)
  {
    c != '@' && !IsJsWhitespace(c)
  }

  /** A match of `[^\s@]+`. */
  predicate Plain(t: string)
  {
    |t| > 0 && forall k :: 0 <= k < |t| ==> PlainChar(t[k])
  }

  /** `emailRegex.test(s)`: `s` splits as `A@B.C` with `A`, `B` and `C` each matching
      `[^\s@]+`. */
  predicate MatchesEmailRegex(s: string)
  {
    exists i, j :: 0 <= i < j < |s| && s[i] == '@' && s[j] == '.'
      && Plain(s[0..i]) && Plain(s[i + 1..j]) && Plain(s[j + 1..|s|])
  }

  predicate NoWhitespace(s: string)
  {
    forall k :: 0 <= k < |s| ==> !IsJsWhitespace(s[k])
  }

  /** `i` is the position of the one `@` of `s`. */
  predicate OnlyAtSignAt(s: string, i: int)
  {
    0 <= i < |s| && s[i] == '@' && forall k :: 0 <= k < |s| && s[k] == '@' ==> k == i
  }

  /** The domain after the `@` at `i` has a `.` with text on both sides. */
  predicate DottedDomain(s: string, i: int)
  {
    0 <= i && exists j :: i + 1 < j < |s| - 1 && s[j] == '.'
  }

  /** A slice matches `[^\s@]+` when it is non-empty and each of its characters is in the class. */
  lemma PlainSlice(s: string, lo: int, hi: int)
    requires 0 <= lo <= hi <= |s|
    ensures Plain(s[lo..hi]) <==> lo < hi && forall k :: lo <= k < hi ==> PlainChar(s[k])
  {
    assert forall k :: lo <= k < hi ==> s[lo..hi][k - lo] == s[k];
  }

  /** Every match has no whitespace, exactly one `@` after a non-empty local part, and a
      dot inside the domain. */
  lemma EmailRegexSound(s: string)
    requires MatchesEmailRegex(s)
    ensures NoWhitespace(s) && exists i :: 0 < i && OnlyAtSignAt(s, i) && DottedDomain(s, i)
  {
    var i, j :| 0 <= i < j < |s| && s[i] == '@' && s[j] == '.'
      && Plain(s[0..i]) && Plain(s[i + 1..j]) && Plain(s[j + 1..|s|]);
    PlainSlice(s, 0, i);
    PlainSlice(s, i + 1, j);
    PlainSlice(s, j + 1, |s|);
    assert forall k :: 0 <= k < |s| ==> PlainChar(s[k]) || k == i || k == j;
    assert OnlyAtSignAt(s, i);
    assert DottedDomain(s, i);
  }

  /** Every string of that shape matches. */
  lemma EmailRegexComplete(s: string, i: int)
    requires NoWhitespace(s) && 0 < i && OnlyAtSignAt(s, i) && DottedDomain(s, i)
    ensures MatchesEmailRegex(s)
  {
    var j :| i + 1 < j < |s| - 1 && s[j] == '.';
    assert forall k :: 0 <= k < |s| && k != i ==> PlainChar(s[k]);
    PlainSlice(s, 0, i);
    PlainSlice(s, i + 1, j);
    PlainSlice(s, j + 1, |s|);
  }

  /** What the pattern accepts, said directly: no whitespace, exactly one `@`, with a
      non-empty local part before it, and a `.` inside the domain with text on both sides. */
  lemma EmailRegexCharacterization(s: string)
    ensures MatchesEmailRegex(s) <==>
      NoWhitespace(s) && exists i :: 0 < i && OnlyAtSignAt(s, i) && DottedDomain(s, i)
  {
    if MatchesEmailRegex(s) {
      EmailRegexSound(s);
    }
    if NoWhitespace(s) && exists i :: 0 < i && OnlyAtSignAt(s, i) && DottedDomain(s, i) {
      var i :| 0 < i && OnlyAtSignAt(s, i) && DottedDomain(s, i);
      EmailRegexComplete(s, i);
    }
  }

  /** A typical address passes. */
  lemma EmailRegexAccepts()
    ensures MatchesEmailRegex("ana@mail.com")
  {
    var s := "ana@mail.com";
    assert s[3] == '@' && s[8] == '.';
    assert s[0..3] == "ana" && s[4..8] == "mail" && s[9..|s|] == "com";
    assert Plain("ana") && Plain("mail") && Plain("com");
  }

  /** Two `@` signs, a missing top-level dot and a space are each rejected. */
  lemma EmailRegexRejects()
    ensures !MatchesEmailRegex("a@b@c.d")
    ensures !MatchesEmailRegex("ana@mail")
    ensures !MatchesEmailRegex("ana maria@mail.com")
  {
    EmailRegexCharacterization("a@b@c.d");
    assert "a@b@c.d"[1] == '@' && "a@b@c.d"[3] == '@';
    EmailRegexCharacterization("ana@mail");
    assert forall j :: 0 <= j < |"ana@mail"| ==> "ana@mail"[j] != '.';
    EmailRegexCharacterization("ana maria@mail.com");
    assert IsJsWhitespace("ana maria@mail.com"[3]);
  }

  // ---------------------------------------------------------------------------------
  // POST / : the checks
  // ---------------------------------------------------------------------------------

  /** The checks of the registration body, in the order the handler runs them. */
  datatype Rule =
    | FirstNameGiven | LastNameGiven | UsernameGiven | EmailGiven | EmailWellFormed
    | PasswordHashed | PasswordLongEnough

  const Rules: seq<Rule> := [FirstNameGiven, LastNameGiven, UsernameGiven, EmailGiven, EmailWellFormed,
                             PasswordHashed, PasswordLongEnough]

  const MinPasswordLength: nat := 8

  /** Whether the body passes one check. `hashedPassword` is the field the hashing
      middleware in front of the handler sets; the length check reads `password_hash`. */
  predicate Passes(b: Body, r: Rule)
  {
    match r
    case FirstNameGiven => Truthy(b, "first_name")
    case LastNameGiven => Truthy(b, "last_name")
    case UsernameGiven => Truthy(b, "username")
    case EmailGiven => Truthy(b, "email")
    case EmailWellFormed => "email" in b && MatchesEmailRegex(b["email"])
    case PasswordHashed => Truthy(b, "hashedPassword")
    case PasswordLongEnough => "password_hash" in b && Utf16Length(b["password_hash"]) >= MinPasswordLength
  }

  function RuleMessage(r: Rule): string
  {
    match r
    case FirstNameGiven => "O nome é obrigatório."
    case LastNameGiven => "O sobrenome é obrigatório."
    case UsernameGiven => "O nome de usuário  é obrigatório."
    case EmailGiven => "O email é obrigatório."
    case EmailWellFormed => "Formato de email inválido."
    case PasswordHashed => "A senha é obrigatória."
    case PasswordLongEnough => "A senha precisa ter no minimo 8 caracteres."
  }

  /** What a failed check does: a 400 with its message, except that `password_hash.length`
      on a missing `password_hash` throws a TypeError outside the `try`. */
  function Rejection(b: Body, r: Rule): (o: Outcome)
    // only the length check on a missing `password_hash` throws (`undefined.length`)
    ensures o == Unhandled <==> r == PasswordLongEnough && "password_hash" !in b
    ensures o.Sent? ==> o == Sent(400, Message(RuleMessage(r)))
  {
    if r == PasswordLongEnough && "password_hash" !in b then Unhandled else Sent(400, Message(RuleMessage(r)))
  }

  /** The check at position `k` is the first one the body fails. */
  predicate FirstFailure(b: Body, k: int)
  {
    0 <= k < |Rules| && !Passes(b, Rules[k]) && forall j :: 0 <= j < k ==> Passes(b, Rules[j])
  }

  /** The validation chain: `None` when the body passes every check, otherwise the answer of
      the first check it fails. */
  function RegisterCheck(b: Body): (r: Option<Outcome>)
    ensures r.None? <==> forall k :: 0 <= k < |Rules| ==> Passes(b, Rules[k])
    ensures r.Some? ==> exists k :: FirstFailure(b, k) && r.value == Rejection(b, Rules[k])
  {
    if !Passes(b, FirstNameGiven) then
      assert FirstFailure(b, 0);
      Some(Rejection(b, FirstNameGiven))
    else if !Passes(b, LastNameGiven) then
      assert FirstFailure(b, 1);
      Some(Rejection(b, LastNameGiven))
    else if !Passes(b, UsernameGiven) then
      assert FirstFailure(b, 2);
      Some(Rejection(b, UsernameGiven))
    else if !Passes(b, EmailGiven) then
      assert FirstFailure(b, 3);
      Some(Rejection(b, EmailGiven))
    else if !Passes(b, EmailWellFormed) then
      assert FirstFailure(b, 4);
      Some(Rejection(b, EmailWellFormed))
    else if !Passes(b, PasswordHashed) then
      assert FirstFailure(b, 5);
      Some(Rejection(b, PasswordHashed))
    else if !Passes(b, PasswordLongEnough) then
      assert FirstFailure(b, 6);
      Some(Rejection(b, PasswordLongEnough))
    else
      None
  }

  /** Only one check can be the first failure, so the answer is determined by the body. */
  lemma FirstFailureUnique(b: Body, k1: int, k2: int)
    requires FirstFailure(b, k1) && FirstFailure(b, k2)
    ensures k1 == k2
  {
  }

  /** The checks are ordered: a missing first name is reported whatever else is wrong. */
  lemma FirstNameReportedFirst(b: Body)
    requires !Truthy(b, "first_name")
    ensures RegisterCheck(b) == Some(Sent(400, Message("O nome é obrigatório.")))
  {
    assert Rules[0] == FirstNameGiven;
    var k :| FirstFailure(b, k) && RegisterCheck(b).value == Rejection(b, Rules[k]);
    FirstFailureUnique(b, k, 0);
  }

  /** A body that passes the checks has a well-formed email and a `password_hash` of at
      least eight UTF-16 code units. */
  lemma AcceptedBody(b: Body)
    requires RegisterCheck(b).None?
    ensures Truthy(b, "first_name") && Truthy(b, "last_name") && Truthy(b, "username")
    ensures Truthy(b, "email") && MatchesEmailRegex(b["email"])
    ensures "password_hash" in b && Utf16Length(b["password_hash"]) >= MinPasswordLength
  {
    assert Passes(b, Rules[0]) && Passes(b, Rules[1]) && Passes(b, Rules[2]) && Passes(b, Rules[3]);
    assert Passes(b, Rules[4]) && Passes(b, Rules[6]);
  }

  // ---------------------------------------------------------------------------------
  // POST / : the transaction
  // ---------------------------------------------------------------------------------

  /** The `users` columns the first insert writes: `password_hash` is the body's own field,
      not the `hashedPassword` the middleware computed. */
  function UserCols(b: Body): Body
  {
    Pick(b, {"username", "email", "password_hash"})
  }

  function NameCols(b: Body): Body
  {
    Pick(b, {"first_name", "last_name"})
  }

  /** Whether the `users` insert (interaction 2) goes through. */
  predicate UserInserted(users: seq<UserRow>, b: Body, f: Fault)
  {
    Injected(f, 1).None? && Injected(f, 2).None? && UniqueViolation(users, UserCols(b), None).None?
  }

  /** The error the `try` block of the registration stops at, if any: interactions 1 to 4
      are `beginTransaction`, the `users` insert, the `personal_info` insert and `commit`. */
  function RegisterError(users: seq<UserRow>, b: Body, f: Fault): (r: Option<StoreError>)
    ensures r.None? <==> UserInserted(users, b, f) && Injected(f, 3).None? && Injected(f, 4).None?
  {
    if Injected(f, 1).Some? then Injected(f, 1)
    else if Injected(f, 2).Some? then Injected(f, 2)
    else if UniqueViolation(users, UserCols(b), None).Some? then UniqueViolation(users, UserCols(b), None)
    else if Injected(f, 3).Some? then Injected(f, 3)
    else Injected(f, 4)
  }

  /** Lines 26-38: `beginTransaction`, the two inserts and `commit`, with `rollback` in the
      `catch`. Either both rows are committed, the `personal_info` row keyed by the new id,
      or the tables are as before; only the AUTO_INCREMENT counter keeps a consumed id. */
  method RegisterTransaction(db: Database, b: Body, f: Fault) returns (err: Option<StoreError>)
    requires db.Valid() && db.snapshot == None
    modifies db
    ensures db.Valid() && db.snapshot == None
    ensures err == RegisterError(old(db.users), b, f)
    ensures err.None? ==>
      db.users == old(db.users) + [UserRow(old(db.nextId), UserCols(b))]
      && db.personalInfo == old(db.personalInfo) + [ChildRow(old(db.nextId), NameCols(b))]
      && db.address == old(db.address) && db.socialInfo == old(db.socialInfo)
    ensures err.Some? ==> db.Data() == old(db.Data())
    ensures db.nextId == old(db.nextId) + if Injected(f, 1).None? && Injected(f, 2).None? then 1 else 0
  {
    err := db.BeginTransaction(Injected(f, 1));
    if err.None? {
      err := db.InsertUser(UserCols(b), Injected(f, 2));
      if err.None? {
        var userId := db.lastInsertId;
        err := db.InsertChild(PersonalInfo, ChildRow(userId, NameCols(b)), Injected(f, 3));
        if err.None? {
          err := db.Commit(Injected(f, 4));
        }
      }
    }
    if err.Some? {
      db.Rollback();
    }
  }

  /** `POST /` after the hashing middleware. The connection is taken before the checks
      (interaction 0, outside the `try`), so a rejected body leaves it checked out. */
  method Register(pool: Pool, db: Database, b: Body, f: Fault) returns (out: Outcome)
    requires db.Valid() && db.snapshot == None
    modifies pool, db
    ensures db.Valid() && db.snapshot == None
    // no connection: the awaited promise rejects before anything is sent
    ensures Injected(f, 0).Some? ==>
      out == Unhandled && pool.held == old(pool.held) && db.Data() == old(db.Data())
    // a rejected body is answered and the connection is never released
    ensures Injected(f, 0).None? && RegisterCheck(b).Some? ==>
      out == RegisterCheck(b).value && pool.held == old(pool.held) + 1 && db.Data() == old(db.Data())
    // past the checks the connection is released on every path
    ensures Injected(f, 0).None? && RegisterCheck(b).None? ==> pool.held == old(pool.held)
    ensures Injected(f, 0).None? && RegisterCheck(b).None? && RegisterError(old(db.users), b, f).None? ==>
      out == Sent(201, Message(CreatedMessage))
      && db.users == old(db.users) + [UserRow(old(db.nextId), UserCols(b))]
      && db.personalInfo == old(db.personalInfo) + [ChildRow(old(db.nextId), NameCols(b))]
      && db.address == old(db.address) && db.socialInfo == old(db.socialInfo)
    ensures Injected(f, 0).None? && RegisterCheck(b).None? && RegisterError(old(db.users), b, f).Some? ==>
      out == DuplicateCatch(RegisterError(old(db.users), b, f).value, CreateFailedMessage)
      && db.Data() == old(db.Data())
    ensures out.Sent? && out.status == 201 <==>
      Injected(f, 0).None? && RegisterCheck(b).None? && RegisterError(old(db.users), b, f).None?
  {
    var connErr := pool.GetConnection(Injected(f, 0));
    if connErr.Some? {
      return Unhandled;
    }
    var rejected := RegisterCheck(b);
    if rejected.Some? {
      return rejected.value;
    }
    var err := RegisterTransaction(db, b, f);
    if err.None? {
      out := Sent(201, Message(CreatedMessage));
    } else {
      out := DuplicateCatch(err.value, CreateFailedMessage);
    }
    pool.Release();
  }

  /** A taken username is reported as such, whatever the other fields. */
  lemma RegisterTakenUsername(users: seq<UserRow>, b: Body, f: Fault)
    requires RegisterCheck(b).None? && Injected(f, 1).None? && Injected(f, 2).None?
    requires Taken(users, "username", b["username"], None)
    ensures RegisterError(users, b, f) == Some(DuplicateError("username", b["username"]))
    ensures DuplicateCatch(RegisterError(users, b, f).value, CreateFailedMessage) == Sent(400, Message(UsernameTakenMessage))
  {
    AcceptedBody(b);
    assert UserCols(b)["username"] == b["username"];
    DuplicateCatchUsername(b["username"], CreateFailedMessage);
  }

  /** Without a failing interaction the registration commits exactly when neither the
      username nor the email is taken. */
  lemma RegisterCommitsIffFree(users: seq<UserRow>, b: Body, f: Fault)
    requires RegisterCheck(b).None? && (f.FailAt? ==> f.step > 4)
    ensures RegisterError(users, b, f).None? <==>
      !Taken(users, "username", b["username"], None) && !Taken(users, "email", b["email"], None)
  {
    AcceptedBody(b);
    assert UserCols(b)["username"] == b["username"] && UserCols(b)["email"] == b["email"];
  }

  // ---------------------------------------------------------------------------------
  // POST /signin
  // ---------------------------------------------------------------------------------

  const InvalidCredentials := "Credenciais inválidas."
  const LoginFailedMessage := "Erro ao efetuar login"
  const LoginSucceeded := "Login bem-sucedido"

  /** The two checks before any store access (lines 79-84). */
  function SigninCheck(b: Body): (r: Option<Outcome>)
    ensures r.Some? <==> (!Truthy(b, "email") && !Truthy(b, "username")) || !Truthy(b, "password_hash")
    ensures r.Some? ==> r.value.Sent? && r.value.status == 422
    ensures !Truthy(b, "email") && !Truthy(b, "username") ==>
      r == Some(Sent(422, Msg("msg", "O email ou username é obrigatório")))
  {
    if !Truthy(b, "email") && !Truthy(b, "username") then Some(Sent(422, Msg("msg", "O email ou username é obrigatório")))
    else if !Truthy(b, "password_hash") then Some(Sent(422, Msg("msg", "A senha é obrigatória!")))
    else None
  }

  /** `SELECT * FROM users WHERE email = ? OR username = ?`. */
  function SigninLookup(users: seq<UserRow>, b: Body): (r: seq<UserRow>)
    ensures forall x :: x in r <==>
      x in users && (("email" in b && "email" in x.cols && x.cols["email"] == b["email"])
                     || ("username" in b && "username" in x.cols && x.cols["username"] == b["username"]))
    ensures |r| <= |users|
  {
    RowsWhereEither(users, "email", Get(b, "email"), "username", Get(b, "username"))
  }

  /** The decision after the lookup, as written: the file never imports `compare` or `jwt`,
      so reaching line 100 throws a ReferenceError that the `catch` turns into a 500. */
  function SigninDecisionAsWritten(rows: seq<UserRow>): (r: Outcome)
    ensures rows == [] <==> r == Sent(401, Message(InvalidCredentials))
    ensures rows != [] <==> r == Sent(500, Message(LoginFailedMessage))
  {
    if |rows| == 0 then Sent(401, Message(InvalidCredentials)) else Sent(500, Message(LoginFailedMessage))
  }

  /** As written, no sign-in succeeds: whatever the store holds, the answer is a 401 or a 500
      and never carries a token. */
  lemma SigninNeverSucceedsAsWritten(users: seq<UserRow>, b: Body)
    ensures SigninDecisionAsWritten(SigninLookup(users, b)).status in {401, 500}
    ensures !SigninDecisionAsWritten(SigninLookup(users, b)).body.Login?
    ensures (exists i :: 0 <= i < |users| && "email" in b && "email" in users[i].cols && users[i].cols["email"] == b["email"])
      ==> SigninDecisionAsWritten(SigninLookup(users, b)) == Sent(500, Message(LoginFailedMessage))
  {
    var rows := SigninLookup(users, b);
    if exists i :: 0 <= i < |users| && "email" in b && "email" in users[i].cols && users[i].cols["email"] == b["email"] {
      var i :| 0 <= i < |users| && "email" in b && "email" in users[i].cols && users[i].cols["email"] == b["email"];
      assert users[i] in rows;
    }
  }

  /** The decision the handler evidently intends (lines 95-118 with `compare` from bcrypt and
      `jwt` from jsonwebtoken): the first matching record, its `password_hash` compared with
      the given password, a token over its claims that expires in an hour. `compare` on a
      record without `password_hash` throws, which the `catch` turns into a 500. */
  function SigninDecision(rows: seq<UserRow>, password: string, h: Bcrypt, j: Jwt): (r: Outcome)
    // no such user and a wrong password get the one 401 body
    ensures r.Sent? && r.status == 401 ==> r == Sent(401, Message(InvalidCredentials))
    ensures rows == [] ==> r == Sent(401, Message(InvalidCredentials))
    ensures rows != [] && "password_hash" in rows[0].cols && !h.compare(password, rows[0].cols["password_hash"]) ==>
      r == Sent(401, Message(InvalidCredentials))
    // bcrypt's `compare` rejects an undefined hash
    ensures rows != [] && "password_hash" !in rows[0].cols ==> r == Sent(500, Message(LoginFailedMessage))
    // a token goes to the first record exactly when its password checks out
    ensures r.Sent? && r.body.Login? <==>
      rows != [] && "password_hash" in rows[0].cols && h.compare(password, rows[0].cols["password_hash"])
    ensures r.Sent? && r.body.Login? ==> r == Sent(200, Login(LoginSucceeded, j.sign(ClaimsOf(rows[0]), Some(OneHour))))
  {
    if |rows| == 0 then Sent(401, Message(InvalidCredentials))
    else if "password_hash" !in rows[0].cols then Sent(500, Message(LoginFailedMessage))
    else if !h.compare(password, rows[0].cols["password_hash"]) then Sent(401, Message(InvalidCredentials))
    else Sent(200, Login(LoginSucceeded, j.sign(ClaimsOf(rows[0]), Some(OneHour))))
  }

  /** With a sound bcrypt and JWT, the record whose digest was made from the password gets a
      token that verifies back to its own claims. */
  lemma SigninIssuesOwnClaims(rows: seq<UserRow>, password: string, salt: string, h: Bcrypt, j: Jwt)
    requires BcryptSound(h) && JwtSound(j)
    requires rows != [] && "password_hash" in rows[0].cols && rows[0].cols["password_hash"] == h.hash(password, salt)
    ensures SigninDecision(rows, password, h, j).body.Login?
    ensures j.verify(SigninDecision(rows, password, h, j).body.token) == Some(ClaimsOf(rows[0]))
  {
    assert h.compare(password, h.hash(password, salt));
    assert j.verify(j.sign(ClaimsOf(rows[0]), Some(OneHour))) == Some(ClaimsOf(rows[0]));
  }

  /** Lines 86-126: the lookup and the decision, with the connection released only when it
      was taken. Interactions: 0 `getConnection`, 1 the lookup. */
  method SigninWith(pool: Pool, db: Database, b: Body, f: Fault, decide: seq<UserRow> -> Outcome) returns (out: Outcome)
    modifies pool
    ensures SigninCheck(b).Some? ==> out == SigninCheck(b).value
    ensures SigninCheck(b).None? && (Injected(f, 0).Some? || Injected(f, 1).Some?) ==> out == Sent(500, Message(LoginFailedMessage))
    ensures SigninCheck(b).None? && Injected(f, 0).None? && Injected(f, 1).None? ==> out == decide(SigninLookup(db.users, b))
    ensures pool.held == old(pool.held)
  {
    var rejected := SigninCheck(b);
    if rejected.Some? {
      return rejected.value;
    }
    var connErr := pool.GetConnection(Injected(f, 0));
    if connErr.Some? {
      return Sent(500, Message(LoginFailedMessage));
    }
    if Injected(f, 1).Some? {
      out := Sent(500, Message(LoginFailedMessage));
    } else {
      var rows := SigninLookup(db.users, b);
      out := decide(rows);
    }
    pool.Release();
  }

  /** `POST /signin` as written. */
  method Signin(pool: Pool, db: Database, b: Body, f: Fault) returns (out: Outcome)
    modifies pool
    ensures SigninCheck(b).Some? ==> out == SigninCheck(b).value
    ensures SigninCheck(b).None? && (Injected(f, 0).Some? || Injected(f, 1).Some?) ==> out == Sent(500, Message(LoginFailedMessage))
    ensures SigninCheck(b).None? && Injected(f, 0).None? && Injected(f, 1).None? ==>
      out == SigninDecisionAsWritten(SigninLookup(db.users, b))
    ensures pool.held == old(pool.held)
  {
    out := SigninWith(pool, db, b, f, rows => SigninDecisionAsWritten(rows));
  }

  /** `POST /signin` with `compare` and `jwt` imported. */
  method SigninCorrected(pool: Pool, db: Database, b: Body, f: Fault, h: Bcrypt, j: Jwt) returns (out: Outcome)
    modifies pool
    ensures SigninCheck(b).Some? ==> out == SigninCheck(b).value
    ensures SigninCheck(b).None? && (Injected(f, 0).Some? || Injected(f, 1).Some?) ==> out == Sent(500, Message(LoginFailedMessage))
    ensures SigninCheck(b).None? && Injected(f, 0).None? && Injected(f, 1).None? ==>
      out == SigninDecision(SigninLookup(db.users, b), b["password_hash"], h, j)
    ensures pool.held == old(pool.held)
  {
    var rejected := SigninCheck(b);
    if rejected.Some? {
      return rejected.value;
    }
    var password := b["password_hash"];
    out := SigninWith(pool, db, b, f, rows => SigninDecision(rows, password, h, j));
  }
}

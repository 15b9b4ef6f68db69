/** controllers/userLogin.js: `POST /signin`. The user is looked up by email alone; an unknown
    email and a wrong password get the same 401 body, and a session token is signed over
    `{ id, username, email }` with no expiry. */
module UserLogin {
  import opened Js
  import opened Crypto
  import opened Http
  import opened Store
  import opened AuthController

  const EmailRequired := "O email é obrigatório!"
  const PasswordRequired := "A senha é obrigatória!"

  /** The message of the error `bcrypt.compare` throws when the stored digest is NULL. */
  const BcryptArgumentsMessage := "data and hash arguments required"

  function LoginCheck(b: Body): (r: Option<Outcome>)
    ensures r.None? <==> Truthy(b, "email") && Truthy(b, "password")
    ensures !Truthy(b, "email") ==> r == Some(Sent(422, Msg("msg", EmailRequired)))
    ensures Truthy(b, "email") && !Truthy(b, "password") ==> r == Some(Sent(422, Msg("msg", PasswordRequired)))
  {
    if !Truthy(b, "email") then Some(Sent(422, Msg("msg", EmailRequired)))
    else if !Truthy(b, "password") then Some(Sent(422, Msg("msg", PasswordRequired)))
    else None
  }

  /** What the handler answers for the rows the `SELECT` found. */
  function LoginDecision(rows: seq<UserRow>, password: string, h: Bcrypt, j: Jwt): (r: Outcome)
    // an unknown email and a wrong password are answered alike
    ensures r.Sent? && r.status == 401 ==> r == Sent(401, Message(InvalidCredentials))
    ensures rows == [] ==> r == Sent(401, Message(InvalidCredentials))
    ensures rows != [] && "password" in rows[0].cols && !h.compare(password, rows[0].cols["password"]) ==>
      r == Sent(401, Message(InvalidCredentials))
    ensures rows != [] && "password" !in rows[0].cols ==>
      r == Sent(500, MsgError(LoginFailedMessage, BcryptArgumentsMessage))
    // a token goes only to the first record whose digest matches, and never expires
    ensures r.Sent? && r.body.Login? <==>
      rows != [] && "password" in rows[0].cols && h.compare(password, rows[0].cols["password"])
    ensures r.Sent? && r.body.Login? ==> r == Sent(200, Login(LoginSucceeded, j.sign(ClaimsOf(rows[0]), None)))
  {
    if |rows| == 0 then Sent(401, Message(InvalidCredentials))
    else if "password" !in rows[0].cols then Sent(500, MsgError(LoginFailedMessage, BcryptArgumentsMessage))
    else if !h.compare(password, rows[0].cols["password"]) then Sent(401, Message(InvalidCredentials))
    else Sent(200, Login(LoginSucceeded, j.sign(ClaimsOf(rows[0]), None)))
  }

  /** The route handler. Interaction 0 is `getConnection`, 1 the `SELECT`, both inside the
      `try`; the connection is released only when one was taken. */
  method Signin(pool: Pool, db: Database, b: Body, h: Bcrypt, j: Jwt, f: Fault) returns (out: Outcome)
    modifies pool
    ensures pool.held == old(pool.held)
    ensures LoginCheck(b).Some? ==> out == LoginCheck(b).value
    ensures LoginCheck(b).None? && (Injected(f, 0).Some? || Injected(f, 1).Some?) ==>
      out == Sent(500, MsgError(LoginFailedMessage, f.err.message))
    ensures LoginCheck(b).None? && Injected(f, 0).None? && Injected(f, 1).None? ==>
      out == LoginDecision(RowsWhere(db.users, "email", Some(b["email"])), b["password"], h, j)
  {
    var rejected := LoginCheck(b);
    if rejected.Some? {
      return rejected.value;
    }
    var connErr := pool.GetConnection(Injected(f, 0));
    if connErr.Some? {
      return Sent(500, MsgError(LoginFailedMessage, connErr.value.message));
    }
    if Injected(f, 1).Some? {
      out := Sent(500, MsgError(LoginFailedMessage, f.err.message));
    } else {
      var user := RowsWhere(db.users, "email", Some(b["email"]));
      out := LoginDecision(user, b["password"], h, j);
    }
    pool.Release();
  }

  /** With a sound bcrypt and JWT, the record that stores the digest of the password it is
      logged in with gets a token whose claims are its own. */
  lemma LoginIssuesOwnClaims(rows: seq<UserRow>, password: string, salt: string, h: Bcrypt, j: Jwt)
    requires BcryptSound(h) && JwtSound(j)
    requires rows != [] && "password" in rows[0].cols && rows[0].cols["password"] == h.hash(password, salt)
    ensures LoginDecision(rows, password, h, j).body.Login?
    ensures j.verify(LoginDecision(rows, password, h, j).body.token) == Some(ClaimsOf(rows[0]))
  {
    assert h.compare(password, h.hash(password, salt));
    assert j.verify(j.sign(ClaimsOf(rows[0]), None)) == Some(ClaimsOf(rows[0]));
  }

  /** The answer does not tell an unknown email from a wrong password. */
  lemma UniformRejection(row: UserRow, password: string, h: Bcrypt, j: Jwt)
    requires "password" in row.cols && !h.compare(password, row.cols["password"])
    ensures LoginDecision([row], password, h, j) == LoginDecision([], password, h, j)
  {
  }

  /** In a table whose emails are unique the lookup finds at most the one row with that
      email. */
  lemma {:induction false} LookupByEmailUnique(users: seq<UserRow>, email: string, i: nat)
    requires UniqueColumn(users, "email")
    requires i < |users| && "email" in users[i].cols && users[i].cols["email"] == email
    ensures RowsWhere(users, "email", Some(email)) == [users[i]]
    decreases |users|
  {
    assert UniqueColumn(users[1..], "email") by {
      forall a, b | 0 <= a < b < |users[1..]| ensures users[1..][a] == users[a + 1] && users[1..][b] == users[b + 1] { }
    }
    if i == 0 {
      forall k | 0 <= k < |users[1..]|
        ensures !("email" in users[1..][k].cols && users[1..][k].cols["email"] == email)
      {
        assert users[1..][k] == users[k + 1];
      }
      NoMatchFindsNothing(users[1..], email);
    } else {
      assert users[1..][i - 1] == users[i];
      LookupByEmailUnique(users[1..], email, i - 1);
    }
  }

  /** A scan over rows none of which holds the email finds nothing. */
  lemma {:induction false} NoMatchFindsNothing(users: seq<UserRow>, email: string)
    requires forall k :: 0 <= k < |users| ==> !("email" in users[k].cols && users[k].cols["email"] == email)
    ensures RowsWhere(users, "email", Some(email)) == []
    decreases |users|
  {
    if users != [] {
      assert forall k :: 0 <= k < |users[1..]| ==> users[1..][k] == users[k + 1];
      NoMatchFindsNothing(users[1..], email);
    }
  }
}

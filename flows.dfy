/** How the signup, login and protected routes of the `controllers` application fit
    together: an account created by `POST /signup` can log in with its password through
    `POST /signin`, and the token it gets opens `GET /user/:id` for its own id. */
module Flows {
  import opened Js
  import opened Crypto
  import opened Http
  import opened Store
  import opened UserRegister
  import opened UserLogin
  import opened CheckToken
  import opened ProtectedRoutes
  import AuthController

  /** The row `POST /signup` appends when it succeeds (see `UserRegister.Signup`). */
  function SignedUp(b: Body, h: Bcrypt, salt: string, id: int): UserRow
    requires SignupCheck(b).None?
  {
    UserRow(id, SignupCols(b, h, salt))
  }

  /** The round trip from signup to the protected route. With a sound bcrypt and JWT, after
      the signup row is stored under the next id: the login with the same email and password
      issues a token for that row's claims; the bearer token authenticates the new id; the
      decimal id passes the ownership check; and the route answers the new row without its
      password. */
  lemma SignupLoginAccess(users: seq<UserRow>, b: Body, h: Bcrypt, salt: string, j: Jwt, id: nat)
    requires BcryptSound(h) && JwtSound(j)
    requires SignupCheck(b).None?
    requires IdsIncreasing(users) && IdsBelow(users, id) && UniqueColumn(users, "email")
    requires UniqueViolation(users, SignupCols(b, h, salt), None).None?
    ensures var after := users + [SignedUp(b, h, salt, id)];
      var answer := LoginDecision(RowsWhere(after, "email", Some(b["email"])), b["password"], h, j);
      answer == Sent(200, Login(AuthController.LoginSucceeded, j.sign(ClaimsOf(SignedUp(b, h, salt, id)), None)))
      && Decide(Some("Bearer " + answer.body.token), j) == Authenticated(id)
      && !Mismatch(DecimalString(id), Some(id))
      && OwnRecord(after, id) == Sent(200, Record(StripPassword(SignedUp(b, h, salt, id))))
  {
    var row := SignedUp(b, h, salt, id);
    var after := users + [row];
    var k := |users|;
    assert after[k] == row;
    UniqueAfterWrite(users, after, "email", k);
    LookupByEmailUnique(after, b["email"], k);
    LoginIssuesOwnClaims([row], b["password"], salt, h, j);
    SignedTokenAuthenticates(j, ClaimsOf(row), None);
    OwnIdPasses(id);
    assert IdsIncreasing(after) by {
      forall p, q | 0 <= p < q < |after| ensures after[p].id < after[q].id {
        if q == k { assert after[p] == users[p]; }
      }
    }
    OwnRecordIsSubjects(after, k);
  }
}

/** src/database/controllers/usersController.js: the CRUD routes over a single `users` table.
    POST and PUT check four fields before they take a connection; DELETE does not look the
    user up first. `GET /:id` and `GET /` are `Crud.FetchById` and `Crud.FetchAll`. */
module SrcDbUsersController {
  import opened Js
  import opened Http
  import opened Store
  import opened Crud

  /** The columns of the INSERT (line 76), in its order, which is also the order of its
      value array (line 77) and of the UPDATE's assignments (line 111). */
  const InsertColumns: seq<string> := ["first_name", "last_name", "email", "password", "date_of_birth", "phone",
    "gender", "profile_picture", "bio", "status", "city", "street", "postal_code", "state", "country",
    "nationality", "occupation", "company", "website", "social_media", "interests", "skills", "education",
    "languages"]

  const Columns: set<string> := set c | c in InsertColumns

  /** The `?` placeholders of the INSERT's VALUES list (line 76): one more than its columns. */
  const InsertPlaceholders: nat := 25

  /** MySQL's ER_PARSE_ERROR for a statement that ends in a literal `?)`. */
  const ParseErrorMessage := "You have an error in your SQL syntax; check the manual that corresponds to your MySQL server version for the right syntax to use near '?)' at line 1"
  const ParseError := StoreError("ER_PARSE_ERROR", Some(ParseErrorMessage), ParseErrorMessage)

  /** MySQL's ER_WRONG_VALUE_COUNT_ON_ROW. */
  const CountErrorMessage := "Column count doesn't match value count at row 1"
  const CountError := StoreError("ER_WRONG_VALUE_COUNT_ON_ROW", Some(CountErrorMessage), CountErrorMessage)

  /** What the server makes of an INSERT naming `columns` columns with `placeholders` `?` in
      its VALUES list, sent through `connection.query` with `values` values. mysql2 fills the
      placeholders in order and stops when the values run out, so every `?` past the last
      value reaches the server as a literal `?`, a syntax error; a list of any other length
      than the column list is refused as a count mismatch. */
  function StatementError(columns: nat, placeholders: nat, values: nat): (r: Option<StoreError>)
    ensures r.None? <==> placeholders == columns && placeholders <= values
    ensures placeholders > values ==> r == Some(ParseError)
  {
    if placeholders > values then Some(ParseError)
    else if placeholders != columns then Some(CountError)
    else None
  }

  /** The first error of the POST's statement (interaction 1) when its VALUES list holds
      `placeholders` `?`; the failing `getConnection` is reported by the caller. */
  function InsertError(placeholders: nat, users: seq<UserRow>, b: Body, f: Fault): (r: Option<StoreError>)
    ensures r.None? <==>
      Injected(f, 1).None? && placeholders == |InsertColumns| && UniqueViolation(users, Pick(b, Columns), None).None?
    ensures Injected(f, 1).None? && placeholders > |InsertColumns| ==> r == Some(ParseError)
    ensures Injected(f, 1).None? && placeholders == |InsertColumns| && "email" in b && Taken(users, "email", b["email"], None) ==>
      r == Some(DuplicateError("email", b["email"]))
  {
    if Injected(f, 1).Some? then Injected(f, 1)
    else if StatementError(|InsertColumns|, placeholders, |InsertColumns|).Some? then
      StatementError(|InsertColumns|, placeholders, |InsertColumns|)
    else UniqueViolation(users, Pick(b, Columns), None)
  }

  /** As written the statement never goes through: whatever the body and the table, the
      server refuses it or the connection has already failed. */
  lemma InsertNeverSucceeds(users: seq<UserRow>, b: Body, f: Fault)
    ensures InsertError(InsertPlaceholders, users, b, f).Some?
    ensures Injected(f, 1).None? ==> InsertError(InsertPlaceholders, users, b, f) == Some(ParseError)
  {
  }

  /** The first user of an empty table, whom the corrected statement stores, is refused by
      the statement as written. */
  lemma FreshUserRefused(b: Body)
    ensures InsertError(InsertPlaceholders, [], b, NoFault) == Some(ParseError)
    ensures InsertError(|InsertColumns|, [], b, NoFault) == None
  {
  }

  /** `POST /` as written (lines 65-87): past the four-field check and the connection every
      request is answered 500 with the server's syntax error, and no row is written. */
  method Create(pool: Pool, db: Database, b: Body, f: Fault) returns (out: Outcome)
    requires db.Valid() && db.snapshot == None
    modifies pool
    ensures pool.held == old(pool.held)
    ensures !FourFieldsPresent(b) ==> out == Sent(400, Message(FourFieldsMessage))
    ensures FourFieldsPresent(b) && Injected(f, 0).Some? ==> out == Unhandled
    ensures FourFieldsPresent(b) && Injected(f, 0).None? ==>
      out == StoreFailure(CreateFailedMessage, InsertError(InsertPlaceholders, db.users, b, f).value)
    ensures FourFieldsPresent(b) && Injected(f, 0).None? && Injected(f, 1).None? ==>
      out == Sent(500, MsgError(CreateFailedMessage, ParseErrorMessage))
    ensures !(out.Sent? && out.status == 201)
  {
    if !FourFieldsPresent(b) {
      return Sent(400, Message(FourFieldsMessage));
    }
    var connErr := pool.GetConnection(Injected(f, 0));
    if connErr.Some? {
      return Unhandled;
    }
    var err := InsertError(InsertPlaceholders, db.users, b, f);
    out := StoreFailure(CreateFailedMessage, err.value);
    pool.Release();
  }

  /** `POST /` with one `?` per column: 201 and the new row, or 500 with the store's error. */
  method CreateCorrected(pool: Pool, db: Database, b: Body, f: Fault) returns (out: Outcome)
    requires db.Valid() && db.snapshot == None
    modifies pool, db
    ensures db.Valid() && db.snapshot == None
    ensures pool.held == old(pool.held)
    ensures !FourFieldsPresent(b) ==> out == Sent(400, Message(FourFieldsMessage)) && db.Data() == old(db.Data())
    ensures FourFieldsPresent(b) && Injected(f, 0).Some? ==> out == Unhandled && db.Data() == old(db.Data())
    ensures FourFieldsPresent(b) && Injected(f, 0).None? ==>
      match InsertError(|InsertColumns|, old(db.users), b, f)
      case None =>
        out == Sent(201, Message(CreatedMessage)) && db.users == old(db.users) + [UserRow(old(db.nextId), Pick(b, Columns))]
      case Some(e) =>
        out == StoreFailure(CreateFailedMessage, e) && db.users == old(db.users)
    ensures db.personalInfo == old(db.personalInfo) && db.address == old(db.address) && db.socialInfo == old(db.socialInfo)
  {
    if !FourFieldsPresent(b) {
      return Sent(400, Message(FourFieldsMessage));
    }
    var connErr := pool.GetConnection(Injected(f, 0));
    if connErr.Some? {
      return Unhandled;
    }
    var err := db.InsertUser(Pick(b, Columns), Injected(f, 1));
    if err.None? {
      out := Sent(201, Message(CreatedMessage));
    } else {
      out := StoreFailure(CreateFailedMessage, err.value);
    }
    pool.Release();
  }

  /** `PUT /:id`: success whether or not a row has the id. */
  method Update(pool: Pool, db: Database, id: int, b: Body, f: Fault) returns (out: Outcome)
    requires db.Valid() && db.snapshot == None
    modifies pool, db
    ensures db.Valid() && db.snapshot == None
    ensures pool.held == old(pool.held)
    ensures !FourFieldsPresent(b) ==> out == Sent(400, Message(FourFieldsMessage)) && db.Data() == old(db.Data())
    ensures FourFieldsPresent(b) && Injected(f, 0).Some? ==> out == Unhandled && db.Data() == old(db.Data())
    ensures FourFieldsPresent(b) && Injected(f, 0).None? ==>
      var err := if Injected(f, 1).Some? then Injected(f, 1) else UpdateViolation(old(db.users), id, Columns, b);
      (err.None? ==> out == Sent(200, Message(UpdatedMessage)) && db.users == UpdateRows(old(db.users), id, Columns, b))
      && (err.Some? ==> out == StoreFailure(UpdateFailedMessage, err.value) && db.users == old(db.users))
    ensures db.personalInfo == old(db.personalInfo) && db.address == old(db.address) && db.socialInfo == old(db.socialInfo)
  {
    if !FourFieldsPresent(b) {
      return Sent(400, Message(FourFieldsMessage));
    }
    var connErr := pool.GetConnection(Injected(f, 0));
    if connErr.Some? {
      return Unhandled;
    }
    var err := db.UpdateUser(id, Columns, b, Injected(f, 1));
    if err.None? {
      out := Sent(200, Message(UpdatedMessage));
    } else {
      out := StoreFailure(UpdateFailedMessage, err.value);
    }
    pool.Release();
  }

  /** `DELETE /:id`: one `DELETE` (interaction 1) and success whether or not a row had the
      id. */
  method Delete(pool: Pool, db: Database, id: int, f: Fault) returns (out: Outcome)
    requires db.Valid() && db.snapshot == None
    modifies pool, db
    ensures db.Valid() && db.snapshot == None
    ensures pool.held == old(pool.held)
    ensures Injected(f, 0).Some? ==> out == Unhandled && db.Data() == old(db.Data())
    ensures Injected(f, 0).None? && Injected(f, 1).Some? ==>
      out == StoreFailure(DeleteFailedMessage, f.err) && db.Data() == old(db.Data())
    ensures Injected(f, 0).None? && Injected(f, 1).None? ==>
      out == Sent(200, Message(DeletedMessage)) && db.Data() == DeleteUserTables(old(db.Data()), id)
  {
    var connErr := pool.GetConnection(Injected(f, 0));
    if connErr.Some? {
      return Unhandled;
    }
    var err := db.DeleteUser(id, Injected(f, 1));
    if err.None? {
      out := Sent(200, Message(DeletedMessage));
    } else {
      out := StoreFailure(DeleteFailedMessage, err.value);
    }
    pool.Release();
  }

  /** Deleting an id that no row has changes nothing, though it is reported as a success. */
  lemma DeleteMissingIdChangesNothing(t: Tables, id: int)
    requires forall i :: 0 <= i < |t.users| ==> t.users[i].id != id
    requires forall i :: 0 <= i < |t.personalInfo| ==> t.personalInfo[i].userId != id
    requires forall i :: 0 <= i < |t.address| ==> t.address[i].userId != id
    requires forall i :: 0 <= i < |t.socialInfo| ==> t.socialInfo[i].userId != id
    ensures DeleteUserTables(t, id) == t
  {
    WithoutAbsentUser(t.users, id);
    WithoutAbsentChildren(t.personalInfo, id);
    WithoutAbsentChildren(t.address, id);
    WithoutAbsentChildren(t.socialInfo, id);
  }
}

/** What the three users controllers (controllers/usersController.js,
    src/controllers/usersController.js, src/database/controllers/usersController.js) have in
    common: their answers, the lookup by primary key, the insert of a user followed by its
    `address` and `social_info` rows outside any transaction, and the delete that first
    checks that the user exists. */
module Crud {
  import opened Js
  import opened Http
  import opened Store

  const CreatedMessage := "Usuário criado com sucesso"
  const UpdatedMessage := "Usuário atualizado com sucesso"
  const DeletedMessage := "Usuário deletado com sucesso"
  const NotFoundMessage := "Usuário não encontrado"
  const FetchFailedMessage := "Erro ao buscar usuários"
  const CreateFailedMessage := "Erro ao criar usuário"
  const UpdateFailedMessage := "Erro ao atualizar usuário"
  const DeleteFailedMessage := "Erro ao deletar usuário"

  /** `res.status(500).json({ message: text, error: error.message })`. */
  function StoreFailure(text: string, e: StoreError): Outcome
  {
    Sent(500, MsgError(text, e.message))
  }

  /** The answer to `SELECT … WHERE id = ?`: 404 when no row has the id, otherwise the row. */
  function RowOr404(users: seq<UserRow>, id: int): (r: Outcome)
    ensures r == Sent(404, Message(NotFoundMessage)) <==> forall i :: 0 <= i < |users| ==> users[i].id != id
    ensures r != Sent(404, Message(NotFoundMessage)) ==>
      exists i :: 0 <= i < |users| && users[i].id == id && r == Sent(200, Record(users[i]))
  {
    match FindById(users, id)
    case None => Sent(404, Message(NotFoundMessage))
    case Some(row) =>
      var i :| 0 <= i < |users| && users[i] == row;
      Sent(200, Record(row))
  }

  /** In a well-formed table the row answered is the one row with that id. */
  lemma RowOr404Answers(users: seq<UserRow>, i: nat)
    requires IdsIncreasing(users) && i < |users|
    ensures RowOr404(users, users[i].id) == Sent(200, Record(users[i]))
  {
    FindByIdUnique(users, i);
  }

  /** `GET /:id` of the three controllers. The connection is taken with an `await` outside
      the `try` (interaction 0), and the `try` has no usable `catch` (none at all in the src
      controllers; an unbound `error` in controllers/usersController.js), so a failing
      `getConnection` or `SELECT` (interaction 1) ends with nothing sent. */
  method FetchById(pool: Pool, db: Database, id: int, f: Fault) returns (out: Outcome)
    modifies pool
    ensures Injected(f, 0).Some? || Injected(f, 1).Some? ==> out == Unhandled
    ensures Injected(f, 0).None? && Injected(f, 1).None? ==> out == RowOr404(db.users, id)
    ensures pool.held == old(pool.held)
  {
    var connErr := pool.GetConnection(Injected(f, 0));
    if connErr.Some? {
      return Unhandled;
    }
    if Injected(f, 1).Some? {
      out := Unhandled;
    } else {
      out := RowOr404(db.users, id);
    }
    pool.Release();
  }

  /** `GET /` of controllers/usersController.js and src/database/controllers/usersController.js:
      every row, in table order. */
  method FetchAll(pool: Pool, db: Database, f: Fault) returns (out: Outcome)
    modifies pool
    ensures Injected(f, 0).Some? ==> out == Unhandled
    ensures Injected(f, 0).None? && Injected(f, 1).Some? ==> out == StoreFailure(FetchFailedMessage, f.err)
    ensures Injected(f, 0).None? && Injected(f, 1).None? ==> out == Sent(200, Records(db.users))
    ensures pool.held == old(pool.held)
  {
    var connErr := pool.GetConnection(Injected(f, 0));
    if connErr.Some? {
      return Unhandled;
    }
    if Injected(f, 1).Some? {
      out := StoreFailure(FetchFailedMessage, f.err);
    } else {
      out := Sent(200, Records(db.users));
    }
    pool.Release();
  }

  /** `!first_name || !last_name || !email || !password` is false. */
  predicate FourFieldsPresent(b: Body)
  {
    Truthy(b, "first_name") && Truthy(b, "last_name") && Truthy(b, "email") && Truthy(b, "password")
  }

  const FourFieldsMessage := "Nome, sobrenome, email e senha são obrigatórios"

  // ---------------------------------------------------------------------------------
  // A user with its `address` and `social_info` rows, without a transaction
  // ---------------------------------------------------------------------------------

  /** The first error of the insert sequence: interaction 1 the `users` insert, 2
      `SELECT LAST_INSERT_ID()`, 3 and 4 the two inserts of the `Promise.all`. */
  function CreateError(users: seq<UserRow>, cols: map<string, string>, f: Fault): (r: Option<StoreError>)
    ensures r.None? <==> (f.FailAt? ==> f.step !in {1, 2, 3, 4}) && UniqueViolation(users, cols, None).None?
  {
    if Injected(f, 1).Some? then Injected(f, 1)
    else if UniqueViolation(users, cols, None).Some? then UniqueViolation(users, cols, None)
    else if Injected(f, 2).Some? then Injected(f, 2)
    else if Injected(f, 3).Some? then Injected(f, 3)
    else Injected(f, 4)
  }

  /** Whether the `users` row is written. */
  predicate UserWritten(users: seq<UserRow>, cols: map<string, string>, f: Fault)
  {
    Injected(f, 1).None? && UniqueViolation(users, cols, None).None?
  }

  /** The tables after the insert sequence, the new user taking the id `id`. Both queries of
      the `Promise.all` are sent on the connection, so when one fails the other still lands. */
  function CreateResult(t: Tables, id: int, cols: map<string, string>, addr: map<string, string>,
                        social: map<string, string>, f: Fault): (r: Tables)
    ensures r.users == if UserWritten(t.users, cols, f) then t.users + [UserRow(id, cols)] else t.users
    ensures r.personalInfo == t.personalInfo
    // the dependent rows are only ever written for a written user, one row each at most
    ensures !UserWritten(t.users, cols, f) ==> r == t
    ensures r.address == t.address || r.address == t.address + [ChildRow(id, addr)]
    ensures r.socialInfo == t.socialInfo || r.socialInfo == t.socialInfo + [ChildRow(id, social)]
  {
    if !UserWritten(t.users, cols, f) then t
    else
      var withUser := t.(users := t.users + [UserRow(id, cols)]);
      if Injected(f, 2).Some? then withUser
      else
        var withAddress := if Injected(f, 3).Some? then withUser else AddChild(withUser, Address, ChildRow(id, addr));
        if Injected(f, 4).Some? then withAddress else AddChild(withAddress, SocialInfo, ChildRow(id, social))
  }

  method InsertWithChildren(db: Database, cols: map<string, string>, addr: map<string, string>,
                            social: map<string, string>, f: Fault) returns (err: Option<StoreError>)
    requires db.Valid() && db.snapshot == None
    modifies db
    ensures db.Valid() && db.snapshot == None
    ensures err == CreateError(old(db.users), cols, f)
    ensures db.Data() == CreateResult(old(db.Data()), old(db.nextId), cols, addr, social, f)
    ensures db.nextId == old(db.nextId) + if Injected(f, 1).None? then 1 else 0
  {
    err := db.InsertUser(cols, Injected(f, 1));
    if err.Some? {
      return;
    }
    if Injected(f, 2).Some? {
      return Injected(f, 2);
    }
    var userId := db.lastInsertId;
    var addrErr := db.InsertChild(Address, ChildRow(userId, addr), Injected(f, 3));
    var socialErr := db.InsertChild(SocialInfo, ChildRow(userId, social), Injected(f, 4));
    err := if addrErr.Some? then addrErr else socialErr;
  }

  /** The sequence without a failure writes the user and both dependent rows, keyed by the
      new id. */
  lemma CreateWritesAll(t: Tables, id: int, cols: map<string, string>, addr: map<string, string>,
                        social: map<string, string>, f: Fault)
    requires CreateError(t.users, cols, f).None?
    ensures CreateResult(t, id, cols, addr, social, f) ==
      Tables(t.users + [UserRow(id, cols)], t.personalInfo, t.address + [ChildRow(id, addr)],
             t.socialInfo + [ChildRow(id, social)])
  {
  }

  /** Without a transaction a failure after the `users` insert leaves the user in place: a
      failed `address` insert leaves the user with its `social_info` row and no address, a
      failed `LAST_INSERT_ID()` leaves the user with no dependent row at all. */
  lemma CreatePartialState(t: Tables, id: int, cols: map<string, string>, addr: map<string, string>,
                           social: map<string, string>, e: StoreError)
    requires UniqueViolation(t.users, cols, None).None?
    ensures CreateError(t.users, cols, FailAt(3, e)) == Some(e)
    ensures CreateResult(t, id, cols, addr, social, FailAt(3, e)) ==
      t.(users := t.users + [UserRow(id, cols)], socialInfo := t.socialInfo + [ChildRow(id, social)])
    ensures CreateResult(t, id, cols, addr, social, FailAt(2, e)) == t.(users := t.users + [UserRow(id, cols)])
  {
  }

  /** A rejected `users` insert changes nothing. */
  lemma CreateRejectedUnchanged(t: Tables, id: int, cols: map<string, string>, addr: map<string, string>,
                                social: map<string, string>, f: Fault)
    requires !UserWritten(t.users, cols, f)
    ensures CreateResult(t, id, cols, addr, social, f) == t
    ensures CreateError(t.users, cols, f).Some?
  {
  }

  // ---------------------------------------------------------------------------------
  // The existence-checked delete
  // ---------------------------------------------------------------------------------

  /** The `try` block of the DELETE route of controllers/usersController.js and
      src/controllers/usersController.js: interaction 1 is the `SELECT`, interaction 2 the
      `DELETE`, which cascades to the dependent rows. */
  method DeleteIfExists(db: Database, id: int, f: Fault) returns (out: Outcome)
    requires db.Valid()
    modifies db
    ensures db.Valid() && db.snapshot == old(db.snapshot) && db.nextId == old(db.nextId)
    ensures Injected(f, 1).Some? ==> out == StoreFailure(DeleteFailedMessage, f.err) && db.Data() == old(db.Data())
    ensures Injected(f, 1).None? && FindById(old(db.users), id).None? ==>
      out == Sent(404, Message(NotFoundMessage)) && db.Data() == old(db.Data())
    ensures Injected(f, 1).None? && FindById(old(db.users), id).Some? && Injected(f, 2).Some? ==>
      out == StoreFailure(DeleteFailedMessage, f.err) && db.Data() == old(db.Data())
    ensures Injected(f, 1).None? && FindById(old(db.users), id).Some? && Injected(f, 2).None? ==>
      out == Sent(200, Message(DeletedMessage)) && db.Data() == DeleteUserTables(old(db.Data()), id)
  {
    if Injected(f, 1).Some? {
      return StoreFailure(DeleteFailedMessage, f.err);
    }
    var found := FindById(db.users, id);
    if found.Some? {
      var err := db.DeleteUser(id, Injected(f, 2));
      if err.Some? {
        return StoreFailure(DeleteFailedMessage, err.value);
      }
      return Sent(200, Message(DeletedMessage));
    } else {
      return Sent(404, Message(NotFoundMessage));
    }
  }

  /** `DELETE /:id` of controllers/usersController.js and src/controllers/usersController.js:
      404 unless a row has the id. */
  method DeleteRoute(pool: Pool, db: Database, id: int, f: Fault) returns (out: Outcome)
    requires db.Valid() && db.snapshot == None
    modifies pool, db
    ensures db.Valid() && db.snapshot == None
    ensures Injected(f, 0).Some? ==> out == Unhandled && db.Data() == old(db.Data())
    ensures Injected(f, 0).None? && Injected(f, 1).None? && FindById(old(db.users), id).None? ==>
      out == Sent(404, Message(NotFoundMessage)) && db.Data() == old(db.Data())
    ensures Injected(f, 0).None? && Injected(f, 1).None? && Injected(f, 2).None? && FindById(old(db.users), id).Some? ==>
      out == Sent(200, Message(DeletedMessage)) && db.Data() == DeleteUserTables(old(db.Data()), id)
    ensures Injected(f, 0).None? && (Injected(f, 1).Some? || (Injected(f, 2).Some? && FindById(old(db.users), id).Some?)) ==>
      out == StoreFailure(DeleteFailedMessage, f.err) && db.Data() == old(db.Data())
    ensures pool.held == old(pool.held)
  {
    var connErr := pool.GetConnection(Injected(f, 0));
    if connErr.Some? {
      return Unhandled;
    }
    out := DeleteIfExists(db, id, f);
    pool.Release();
  }

  /** After a delete the id is gone, and so is every dependent row of that user. */
  lemma DeleteRemovesUser(t: Tables, id: int)
    ensures forall i :: 0 <= i < |DeleteUserTables(t, id).users| ==> DeleteUserTables(t, id).users[i].id != id
    ensures forall r :: r in DeleteUserTables(t, id).address ==> r.userId != id
    ensures forall r :: r in DeleteUserTables(t, id).socialInfo ==> r.userId != id
    ensures forall r :: r in DeleteUserTables(t, id).personalInfo ==> r.userId != id
    ensures forall x :: x in t.users && x.id != id ==> x in DeleteUserTables(t, id).users
  {
    var u := DeleteUserTables(t, id).users;
    assert forall i :: 0 <= i < |u| ==> u[i] in u;
  }
}

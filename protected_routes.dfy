/** controllers/protectedRoutes.js: `GET /user/:id` behind the token gate. The route id must
    loosely equal the subject the gate bound; the row is then fetched by that id and
    returned with its `password` property deleted. */
module ProtectedRoutes {
  import opened Js
  import opened Crypto
  import opened Http
  import opened Store
  import opened Crud
  import opened CheckToken

  const ForbiddenMessage := "Acesso negado: você não pode acessar este recurso"
  const LookupFailedMessage := "Erro ao buscar usuário"

  /** `id != userId` between the route string and the subject: true when no subject is bound
      (`undefined` equals no string). */
  predicate Mismatch(idText: string, userId: Option<int>)
  {
    userId.None? || !LooseEqualsNumber(idText, userId.value)
  }

  /** The row object the query hands back, which the handler changes in place. */
  class RowObject {
    var id: int
    var cols: map<string, string>

    constructor (row: UserRow)
      ensures id == row.id && cols == row.cols
    {
      id := row.id;
      cols := row.cols;
    }

    /** `delete row[key]`. */
    method Delete(key: string)
      modifies this
      ensures cols == old(cols) - {key} && id == old(id)
    {
      cols := cols - {key};
    }

    function Value(): UserRow
      reads this
    {
      UserRow(id, cols)
    }
  }

  /** The row as the route sends it. */
  function StripPassword(row: UserRow): (r: UserRow)
    ensures r.id == row.id
    ensures "password" !in r.cols
    ensures forall k :: k != "password" ==> (k in r.cols <==> k in row.cols)
    ensures forall k :: k in r.cols ==> r.cols[k] == row.cols[k]
  {
    UserRow(row.id, row.cols - {"password"})
  }

  /** The row answered when the user exists: the stored row without its `password`. */
  function OwnRecord(users: seq<UserRow>, id: int): (r: Outcome)
    ensures r == Sent(404, Message(NotFoundMessage)) <==> FindById(users, id).None?
    ensures FindById(users, id).Some? ==> r == Sent(200, Record(StripPassword(FindById(users, id).value)))
  {
    match FindById(users, id)
    case None => Sent(404, Message(NotFoundMessage))
    case Some(row) => Sent(200, Record(StripPassword(row)))
  }

  /** The route handler. Interaction 0 is `getConnection`, 1 the `SELECT`. Both sit inside
      the `try`, so either failure is answered 500; the connection is released only when one
      was taken. */
  method GetOwnUser(pool: Pool, db: Database, req: Request, idText: string, f: Fault) returns (out: Outcome)
    modifies pool
    ensures Mismatch(idText, req.userId) ==>
      out == Sent(403, Message(ForbiddenMessage)) && pool.held == old(pool.held)
    ensures !Mismatch(idText, req.userId) && (Injected(f, 0).Some? || Injected(f, 1).Some?) ==>
      out == StoreFailure(LookupFailedMessage, f.err)
    ensures !Mismatch(idText, req.userId) && Injected(f, 0).None? && Injected(f, 1).None? ==>
      out == OwnRecord(db.users, req.userId.value)
    ensures pool.held == old(pool.held)
  {
    if Mismatch(idText, req.userId) {
      return Sent(403, Message(ForbiddenMessage));
    }
    var connErr := pool.GetConnection(Injected(f, 0));
    if connErr.Some? {
      return StoreFailure(LookupFailedMessage, connErr.value);
    }
    if Injected(f, 1).Some? {
      out := StoreFailure(LookupFailedMessage, f.err);
    } else {
      var found := FindById(db.users, req.userId.value);
      if found.None? {
        out := Sent(404, Message(NotFoundMessage));
      } else {
        var record := new RowObject(found.value);
        record.Delete("password");
        out := Sent(200, Record(record.Value()));
      }
    }
    pool.Release();
  }

  /** The route id and the subject agree whenever the id is the subject written out in
      decimal, with or without leading zeros. */
  lemma OwnIdPasses(userId: nat)
    ensures !Mismatch(DecimalString(userId), Some(userId))
    ensures !Mismatch("0" + DecimalString(userId), Some(userId))
  {
    LeadingZeroStillEqual(DecimalString(userId), userId);
  }

  /** Another user's id never passes: a decimal id whose value differs from the subject is
      refused. */
  lemma OtherIdRefused(idText: string, userId: int)
    requires IsDecimal(idText) && DecimalValue(idText) != userId
    ensures Mismatch(idText, Some(userId))
  {
  }

  /** The stored row the route returns keeps every column but `password`, so a
      `password_hash` column, which the `/register` route of controllers/authController.js
      writes, is sent back. */
  lemma HashColumnReturned(row: UserRow)
    requires "password_hash" in row.cols
    ensures "password_hash" in StripPassword(row).cols
    ensures StripPassword(row).cols["password_hash"] == row.cols["password_hash"]
  {
  }

  /** In a well-formed table the route answers the subject's own row. */
  lemma OwnRecordIsSubjects(users: seq<UserRow>, i: nat)
    requires IdsIncreasing(users) && i < |users|
    ensures OwnRecord(users, users[i].id) == Sent(200, Record(StripPassword(users[i])))
  {
    FindByIdUnique(users, i);
  }
}

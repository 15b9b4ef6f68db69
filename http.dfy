/** What a handler sends back: an HTTP status and a JSON body, or nothing at all when its
    promise rejects before a response is written. */
module Http {
  import opened Js
  import opened Crypto

  /** A row of the `users` table: its primary key and its other columns (a missing column
      is NULL). */
  datatype UserRow = UserRow(id: int, cols: map<string, string>)

  /** One element of the list built by the src GET-all route: the user's columns plus its
      first address row and first social-info row (`{}` when there is none). */
  datatype FullUser = FullUser(user: UserRow, address: map<string, string>, socialInfo: map<string, string>)

  /** The JSON bodies the handlers send. `Msg(key, text)` is `{ [key]: text }` — the
      handlers use both `message` and `msg` as the key. */
  datatype Json =
    | Msg(key: string, text: string)
    | MsgError(message: string, error: string)
    | ValidationErrors(message: string, errors: seq<string>)
    | Record(row: UserRow)
    | Records(rows: seq<UserRow>)
    | FullRecords(users: seq<FullUser>)
    | Login(message: string, token: string)

  datatype Outcome =
    | Sent(status: int, body: Json)
      /** The handler threw where nothing catches it: the async route handler's promise
          rejects and no response is written. */
    | Unhandled

  /** What a middleware does: call `next()`, or answer the request itself. */
  datatype Gate = Next | Halt(status: int, body: Json)

  /** The claims a session token is signed over: `{ id, username, email }` of the record. */
  function ClaimsOf(row: UserRow): Claims
  {
    Claims(row.id, Get(row.cols, "username"), Get(row.cols, "email"))
  }

  function Message(text: string): Json
  {
    Msg("message", text)
  }
}

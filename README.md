# mysql_crud in Dafny

mysql_crud is an Express application over MySQL that manages user accounts. It has two
generations of routes, which are modelled side by side.

- **`controllers`**:
  - registration and sign-in (`authController.js`, `userRegister.js`, `userLogin.js`);
  - a token gate (`middlewares/checkToken.js`) in front of `GET /user/:id`
    (`protectedRoutes.js`);
  - CRUD routes over `users` and its dependent `address` and `social_info` rows
    (`usersController.js`);
  - the validators `verificateUser` (`utils/funcoes/verificacao.js`) and `validateUser`
    (`middlewares/verificacao.js`).
- **`src`**: two further CRUD controllers (`src/controllers/usersController.js` and
  `src/database/controllers/usersController.js`).

Every handler is a decision procedure. It maps a request body and the state of the store to
an HTTP answer and a new store. The model keeps that as follows:

- **Store** (`store.dfy`): a `Database` class.
  - Tables: the `users` rows in primary-key order, plus the `personal_info`, `address` and
    `social_info` rows keyed by `user_id`.
  - Keys and counters: UNIQUE username and email keys, the AUTO_INCREMENT counter and
    `LAST_INSERT_ID()`.
  - Transactions: one transaction snapshot at a time.
  - Every statement is a method. Its contract gives the new tables and preserves the
    invariant (`Valid`): increasing ids below the counter, and unique keys.
- **Pool**: a `Pool` class whose `held` counter shows which paths leave a connection checked
  out.
- **Store failures**: a route's store calls are numbered in program order, starting with
  `getConnection` at 0. A `Fault` names the one call that is rejected and the error it
  carries (`code`, `sqlMessage`, `message`). Each route's contract covers every choice of
  failing call.
- **Answers**: an `Outcome` is `Sent(status, body)`, or `Unhandled` when the async handler's
  promise rejects before anything is sent.
- **JavaScript semantics** (`js.dfy`): falsy fields, `String.length` in UTF-16 code units,
  `includes`, `split(" ")` and the loose `!=` between a route string and a number are written
  out.
- **bcrypt and jsonwebtoken** (`crypto.dfy`): passed in as records of functions. The lemmas
  that need them require the two facts the handlers rely on: `compare(p, hash(p, salt))` holds,
  and `verify(sign(c, e)) == Some(c)`.

Besides each route's own contract, the model proves these properties:

- The two validators agree: the middleware's error list is empty exactly when `verificateUser`
  accepts the body.
- The email regex of the registration route is characterised exactly.
- Registration inside a transaction commits both rows or none. The users controller's three
  inserts, which run without a transaction, can leave a user without its address.
- Both sign-in routes give one 401 body for an unknown account and a wrong password.
- The POST of src/database/controllers/usersController.js never stores a user: its INSERT has
  one `?` more than it has columns and values (`SrcDbUsersController.InsertNeverSucceeds`).
- The token gate authenticates the subject of a freshly signed token, and a signup followed by
  a login opens the protected route for the new account's own row (`Flows.SignupLoginAccess`).

The registration route of `controllers/authController.js` stores the body's own
`password_hash` field, not the digest that the hashing middleware places in `hashedPassword`.
The model keeps that, and `ProtectedRoutes.HashColumnReturned` shows the stored value is sent
back by `GET /user/:id`, whose handler deletes only `password`.

## Model

| member | source | states |
|---|---|---|
| Js.Pick | controllers/usersController.js:46 | the row a `?`-placeholder query writes: every listed body property with its value, a missing property left out (NULL) |
| Js.Truthy | src/database/controllers/usersController.js:69 | a body property passes `!x` exactly when it is present and not the empty string |
| Js.Utf16Length | utils/funcoes/verificacao.js:16 | `s.length` counts UTF-16 code units: between the number of characters and twice that, exactly the number of characters when all are in the Basic Multilingual Plane |
| Js.Split | middlewares/checkToken.js:6 | `split(" ")` yields at least one piece and no piece holds a space |
| Js.SecondField | middlewares/checkToken.js:6 | `split(" ")[1]` is defined exactly when the header has a space |
| Js.SecondFieldIsSplitIndexOne | middlewares/checkToken.js:6 | the second field is element 1 of `split(" ")` when there is one, `undefined` otherwise |
| Js.SecondFieldOfSchemeAndToken | middlewares/checkToken.js:5-6 | for any space-free scheme word, `scheme + " " + token` has `token` as its second field |
| Js.Contains | controllers/authController.js:41 | `includes`: the text occurs at some position of the string |
| Js.DecimalString | controllers/protectedRoutes.js:10 | the decimal rendering of a number is all digits and converts back to the number |
| Js.LooseEqualsNumber | controllers/protectedRoutes.js:10 | `==` between a route id and a number, for route ids made of decimal digits: equal exactly when the digits denote the number |
| Js.LeadingZeroStillEqual | controllers/protectedRoutes.js:10 | the loose comparison ignores a leading zero: `"05" == 5` |
| Store.UniqueViolation | src/database/usersCreateTable.js:19 | a write is rejected exactly when its username or email is already another row's (compared exactly; see "## Left out"), and a taken username is reported first, as `ER_DUP_ENTRY` with MySQL's message |
| Store.FindById | src/controllers/usersController.js:23 | `WHERE id = ?` finds a row exactly when some row has the id, and the row it finds has that id |
| Store.FindByIdUnique | src/database/usersCreateTable.js:16 | under increasing primary keys the row found is the one row with that id |
| Store.RowsWhere | controllers/userLogin.js:22 | `WHERE email = ?` returns exactly the rows whose email equals the value (compared exactly; see "## Left out") |
| Store.RowsWhereEither | controllers/authController.js:92-93 | `WHERE email = ? OR username = ?` returns exactly the rows matching either value (compared exactly; see "## Left out"); a NULL parameter matches nothing |
| Store.RowsWhereFirstMatch | controllers/userLogin.js:22-28 | `user[0]` of `WHERE email = ?` is the first row of the table, in primary-key order, whose email matches |
| Store.RowsWhereEitherFirstMatch | controllers/authController.js:92-99 | `user[0]` of `WHERE email = ? OR username = ?` is the first row of the table matching either value |
| Store.FirstChild | src/controllers/usersController.js:65-66 | the first dependent row of the user, `{}` when there is none |
| Store.Assign | controllers/usersController.js:85 | `UPDATE … SET`: each listed column takes the body's value or NULL; unlisted columns are unchanged |
| Store.UpdateRows | controllers/usersController.js:85 | only the row with the id changes, as `Assign` says; length and ids are kept |
| Store.UpdateViolation | controllers/usersController.js:85 | an update of a missing id raises nothing; otherwise the unique keys judge the rewritten row against the other rows |
| Store.UpdateChildRows | controllers/usersController.js:87-89 | `UPDATE address/social_info … WHERE user_id = ?` rewrites exactly that user's dependent rows |
| Store.WithoutUser | controllers/usersController.js:116 | `DELETE FROM users WHERE id = ?` keeps exactly the rows with another id |
| Store.WithoutUserKeepsOrder | controllers/usersController.js:116 | the delete keeps the primary-key order |
| Store.SubsetUnique | src/database/usersCreateTable.js:19 | removing rows keeps a UNIQUE key unique |
| Store.WithoutChildren | controllers/usersController.js:123 | the cascade removes exactly the dependent rows of the deleted user |
| Store.DeleteUserTables | controllers/usersController.js:116 | `DELETE FROM users WHERE id = ?` with ON DELETE CASCADE: exactly the user rows with another id and the dependent rows of other users are kept |
| Store.WithoutAbsentUser | src/database/controllers/usersController.js:134 | deleting an id no row has leaves `users` as it was |
| Store.WithoutAbsentChildren | src/database/controllers/usersController.js:134 | the cascade of an absent id leaves a dependent table as it was |
| Store.UniqueAfterWrite | src/database/usersCreateTable.js:19 | appending a row whose key value is free keeps the key unique |
| Store.UniqueAfterUpdate | src/database/usersCreateTable.js:19 | rewriting one row with values no other row holds keeps the key unique |
| Store.Pool.GetConnection | controllers/usersController.js:8 | `getConnection` either rejects with the injected error or checks out one more connection |
| Store.Pool.Release | controllers/usersController.js:20 | `release` gives one connection back |
| Store.Database.BeginTransaction | controllers/authController.js:26 | opens a transaction whose snapshot is the current tables |
| Store.Database.Commit | controllers/authController.js:33 | closes the transaction and keeps the tables |
| Store.Database.Rollback | controllers/authController.js:38 | restores the snapshot of the open transaction; the AUTO_INCREMENT counter is not given back |
| Store.Database.InsertUser | controllers/authController.js:28-29 | appends the row under the next id and sets `insertId`, or fails with the injected or unique-key error and leaves every table as it was; every insert that reaches the server consumes an AUTO_INCREMENT value, a rejected duplicate included; the invariant is kept |
| Store.Database.InsertChild | controllers/authController.js:30 | appends one dependent row, or changes nothing on failure |
| Store.Database.UpdateUser | controllers/usersController.js:85 | the update of `users` as `UpdateRows` says, or no change on error; the invariant is kept |
| Store.Database.UpdateChild | controllers/usersController.js:87-89 | the update of a dependent table as `UpdateChildRows` says, or no change on error |
| Store.Database.DeleteUser | controllers/usersController.js:116 | the delete with its cascade, or no change on error; the invariant is kept |
| Duplicates.UsernameDuplicateClassified | controllers/authController.js:41 | every duplicate-username message passes the username test, whatever the value |
| Duplicates.UsernameKeyInEmailMessage | controllers/authController.js:41-42 | "users.username" occurs in a duplicate-email message only inside the rejected value |
| Duplicates.ClassifyDuplicate | controllers/authController.js:41-42 | the two `includes` tests: a classification only for a "Duplicate entry" message, the username test first, the email message only when "users.username" does not occur |
| Duplicates.EmailDuplicateClassified | controllers/authController.js:41-42 | a duplicate email gets the email message exactly when its value does not contain "users.username" |
| Duplicates.DuplicateCatch | controllers/authController.js:41-45 | unguarded `sqlMessage.includes`: an error with no `sqlMessage` makes the catch throw; otherwise the answer is a 400 for a "Duplicate entry" or the 500 with `error.message` |
| Duplicates.GuardedDuplicateCatch | controllers/userRegister.js:32-40 | classification runs only when `sqlMessage` is set; otherwise the answer is the 500 |
| Duplicates.DuplicateCatchUsername | controllers/usersController.js:60-61 | a duplicate username always gets "Nome de usuário já cadastrado." |
| Duplicates.DuplicateCatchEmail | controllers/usersController.js:60-64 | a duplicate email gets "Email já cadastrado." unless its value contains "users.username" |
| Duplicates.OtherErrorsFallThrough | controllers/usersController.js:60-67 | an error without "Duplicate entry" is never classified as a duplicate |
| Duplicates.EmailDuplicateMisclassified | controllers/authController.js:41-42 | the email `users.username@x.co`, when taken, is answered as a taken username |
| Duplicates.ClassifyByKey | controllers/authController.js:41-42 | the corrected classification: an answer only for `ER_DUP_ENTRY` with a server message, the username message only for a message ending in the `users.username` key, the email message only for one ending in the `users.email` key |
| Duplicates.ClassifyByKeyUsername | controllers/authController.js:41 | classifying by the key the message ends with answers a duplicate username with the username message |
| Duplicates.ClassifyByKeyEmail | controllers/authController.js:42 | classifying by key answers every duplicate email with the email message, whatever the value |
| Crud.RowOr404 | controllers/usersController.js:12-16 | 404 exactly when no row has the id, otherwise 200 with a row that has it |
| Crud.RowOr404Answers | controllers/usersController.js:12-16 | in a well-formed table the row answered is the one stored under the id |
| Crud.StoreFailure | src/database/controllers/usersController.js:80-82 | the `catch` answer: 500 with the route's message and `error.message` |
| Crud.FourFieldsPresent | src/database/controllers/usersController.js:69 | the four `!` tests pass exactly when first name, last name, email and password are all present and non-empty |
| Crud.FetchById | src/controllers/usersController.js:18-36 | `GET /:id`: a failing `getConnection` or `SELECT` leaves nothing sent; otherwise `RowOr404`; the connection is given back |
| Crud.FetchAll | src/database/controllers/usersController.js:40-54 | `GET /`: no answer when `getConnection` fails, 500 when the `SELECT` fails, otherwise 200 with every row in table order |
| Crud.CreateError | controllers/usersController.js:46-56 | the insert sequence fails exactly when one of its four calls is the failing one or the unique keys reject the user |
| Crud.CreateResult | controllers/usersController.js:46-56 | the user row is appended exactly when the `users` insert goes through; `personal_info` is never touched; each dependent table gains at most the new user's row; a rejected user changes nothing |
| Crud.InsertWithChildren | controllers/usersController.js:46-56 | the user, then its address and social-info rows under `LAST_INSERT_ID()`, written without a transaction, to the state `CreateResult` gives; the counter advances whenever the `users` insert reaches the server |
| Crud.CreateWritesAll | controllers/usersController.js:46-56 | without a failure, the user and both dependent rows keyed by the new id are written |
| Crud.CreatePartialState | controllers/usersController.js:53-56 | a failing address insert leaves the user and its social-info row; a failing `LAST_INSERT_ID()` leaves the user with no dependent row |
| Crud.CreateRejectedUnchanged | controllers/usersController.js:46 | a rejected `users` insert changes nothing and is reported |
| Crud.DeleteIfExists | controllers/usersController.js:111-125 | the existence check: 404 and no change for a missing id, otherwise the cascading delete and 200; a failure changes nothing and is answered 500 |
| Crud.DeleteRoute | controllers/usersController.js:107-132 | `DELETE /:id`: the same, with no answer when `getConnection` fails; the connection is given back |
| Crud.DeleteRemovesUser | controllers/usersController.js:123-124 | after the delete the id and all its dependent rows are gone, and every other user stays |
| UsersController.Create | controllers/usersController.js:36-71 | connection taken first; an invalid body gets `verificateUser`'s message with a 400, the table unchanged and the connection still held; otherwise the non-transactional insert with the duplicate classification |
| UsersController.UpdateError | controllers/usersController.js:84-99 | no error exactly when none of the three updates fails and the unique keys accept the rewritten `users` row; a key's refusal of that row is the error reported; a missing id is no error |
| UsersController.UpdateResult | controllers/usersController.js:85-89 | the three updates never add or remove a row or change an id, never touch `personal_info`, and a refused `users` update writes nothing |
| UsersController.UpdateTakenUsernameRefused | controllers/usersController.js:95-96 | a PUT that gives an existing user another row's username is refused by the UNIQUE key and answered 400 "Nome de usuário já cadastrado." |
| UsersController.UpdateAll | controllers/usersController.js:85-89 | the three updates, each committed on its own, to the state `UpdateResult` gives |
| UsersController.UpdatePartialState | controllers/usersController.js:85-89 | a failing address update leaves the `users` update in place |
| UsersController.UpdateMissingIdReportsSuccess | controllers/usersController.js:85-91 | an id no row has is reported updated and `users` is unchanged |
| UsersController.Update | controllers/usersController.js:73-105 | validation before the connection; then the three updates with the duplicate classification; the connection is given back |
| UserVerification.VerificateUser | utils/funcoes/verificacao.js:8-29 | valid exactly when the five fields are present and no name field exceeds 10 code units; the presence message exactly when a field is missing; otherwise the first too-long name field, in order, gives its message |
| UserVerification.EmailAndPasswordLengthFree | utils/funcoes/verificacao.js:10-28 | the lengths of email and password never change the result |
| UserVerification.ValidIffFieldChecks | utils/funcoes/verificacao.js:12-28 | the verdict field by field: five presences and three length limits |
| ValidateUserMiddleware.Reported | middlewares/verificacao.js:15-46 | the reference list the middleware builds: the checks the body fails, in the order lines 18-46 run them |
| ValidateUserMiddleware.ValidateUser | middlewares/verificacao.js:10-52 | `next()` exactly when `verificateUser` accepts; otherwise 400 with the messages of exactly the failed checks, in field order |
| ValidateUserMiddleware.CheckNameField | middlewares/verificacao.js:18-22 | a name field contributes its "required" message when falsy, else its "at most 10" message when too long |
| ValidateUserMiddleware.CheckPresent | middlewares/verificacao.js:39-46 | email and password contribute only a presence message |
| ValidateUserMiddleware.Push | middlewares/verificacao.js:19 | `errors.push` appends one message |
| ValidateUserMiddleware.PieceFacts | middlewares/verificacao.js:18-46 | each check contributes one entry exactly when the body fails it |
| ValidateUserMiddleware.ReportedExactly | middlewares/verificacao.js:15-46 | the list holds exactly the failed checks |
| ValidateUserMiddleware.ReportedIffInvalid | middlewares/verificacao.js:14-46 | the list is empty exactly when `verificateUser` accepts, so every 400 carries at least one message |
| ValidateUserMiddleware.AtMostFive | middlewares/verificacao.js:18-46 | a name field never gets both messages, and there are at most five entries |
| ValidateUserMiddleware.EmailAndPasswordPresenceOnly | middlewares/verificacao.js:39-46 | any non-empty email and password give the same list |
| AuthController.MatchesEmailRegex | controllers/authController.js:13 | `/^[^\s@]+@[^\s@]+\.[^\s@]+$/`: non-empty runs without whitespace or `@` around one `@` and a later `.` |
| AuthController.EmailRegexSound | controllers/authController.js:13 | every match has no whitespace, exactly one `@` after a non-empty local part, and a `.` inside the domain with text on both sides |
| AuthController.EmailRegexComplete | controllers/authController.js:13 | every string of that shape matches |
| AuthController.EmailRegexCharacterization | controllers/authController.js:13 | the pattern accepts exactly those strings |
| AuthController.EmailRegexAccepts | controllers/authController.js:19 | `ana@mail.com` passes |
| AuthController.EmailRegexRejects | controllers/authController.js:19 | two `@`, no dot in the domain, or a space are rejected |
| AuthController.Passes | controllers/authController.js:15-21 | the seven checks: five presences, the email regex and the `password_hash` length of at least 8 |
| AuthController.Rejection | controllers/authController.js:15-21 | a failed check is answered 400 with its message, except the length check on a missing `password_hash`, which throws |
| AuthController.RegisterCheck | controllers/authController.js:15-21 | the body passes exactly when it passes all seven checks; otherwise the first failed check, in order, gives its 400, except a missing `password_hash`, which throws |
| AuthController.FirstFailureUnique | controllers/authController.js:15-21 | only one check can be the first failure |
| AuthController.FirstNameReportedFirst | controllers/authController.js:15 | a missing first name is reported whatever else is wrong |
| AuthController.AcceptedBody | controllers/authController.js:15-21 | an accepted body has a well-formed email and a `password_hash` of at least 8 code units |
| AuthController.RegisterError | controllers/authController.js:24-35 | the transaction succeeds exactly when no call fails and the `users` insert is accepted |
| AuthController.RegisterTransaction | controllers/authController.js:26-38 | both rows are committed, the `personal_info` row keyed by the new id, or the tables are exactly as before; the counter advances whenever the `users` insert reaches the server |
| AuthController.Register | controllers/authController.js:7-49 | connection taken before the checks; a rejected body keeps it checked out; past the checks it is given back on every path; 201 exactly when the checks pass and the transaction commits |
| AuthController.RegisterTakenUsername | controllers/authController.js:41 | a taken username is reported as such |
| AuthController.RegisterCommitsIffFree | controllers/authController.js:26-35 | without a failing call the registration commits exactly when neither username nor email is taken |
| AuthController.SigninCheck | controllers/authController.js:79-84 | 422 exactly when both email and username are missing or `password_hash` is missing, before any store access |
| AuthController.SigninLookup | controllers/authController.js:92-93 | the lookup returns exactly the rows whose email equals the body's email or whose username equals the body's username |
| AuthController.SigninDecisionAsWritten | controllers/authController.js:95-121 | as written: 401 exactly when no row matches, the 500 otherwise |
| AuthController.SigninNeverSucceedsAsWritten | controllers/authController.js:100 | as written no sign-in issues a token, and a matching email always gets the 500 |
| AuthController.SigninDecision | controllers/authController.js:95-118 | one 401 body for an unknown account and a wrong password; a token exactly when the first matching record's digest checks out, over its `{id, username, email}` and expiring in one hour; the 500 when that record has no `password_hash` |
| AuthController.SigninIssuesOwnClaims | controllers/authController.js:108-116 | with sound crypto the matching record's token verifies to its own claims |
| AuthController.SigninWith | controllers/authController.js:86-126 | the checks, the lookup and the decision; a failure is answered 500; the connection is given back only when taken |
| AuthController.Signin | controllers/authController.js:75-127 | `POST /signin` as written |
| AuthController.SigninCorrected | controllers/authController.js:75-127 | `POST /signin` with `compare` and `jwt` imported |
| CheckToken.ExtractToken | middlewares/checkToken.js:5-6 | a token found is a non-empty space-free word right after the first space of the header |
| CheckToken.SecondWordOf | middlewares/checkToken.js:6 | `split(" ")[1]`: the text after the first space, up to the next space or the end |
| CheckToken.Decide | middlewares/checkToken.js:5-21 | denied exactly when no token is found; invalid exactly when the token does not verify; otherwise authenticated as the verified claims' id |
| CheckToken.CheckToken | middlewares/checkToken.js:3-22 | 401 "acesso negado", 400 "Token invalido", or `next()` exactly when authenticated, with `req.userId` bound to the subject only then |
| CheckToken.AnySchemePresentsToken | middlewares/checkToken.js:6 | the scheme word is not checked: `<scheme> <token>` presents the token |
| CheckToken.SignedTokenAuthenticates | middlewares/checkToken.js:15-16 | a freshly signed bearer token authenticates its own subject |
| CheckToken.NoSpaceDenied | middlewares/checkToken.js:6-10 | a header with no space is denied |
| CheckToken.EmptySecondFieldDenied | middlewares/checkToken.js:6-10 | `"Bearer "` or two spaces after the scheme is denied, even with a token further on |
| ProtectedRoutes.Mismatch | controllers/protectedRoutes.js:10 | `id != userId` holds when no subject is bound or the route id does not loosely equal it |
| ProtectedRoutes.RowObject.Delete | controllers/protectedRoutes.js:22 | `delete row.password` removes that one property in place |
| ProtectedRoutes.StripPassword | controllers/protectedRoutes.js:22-23 | the answered row keeps the id and every other column with its value, and has no `password` |
| ProtectedRoutes.OwnRecord | controllers/protectedRoutes.js:18-23 | 404 exactly when the user is missing, otherwise 200 with the stored row stripped of its password |
| ProtectedRoutes.GetOwnUser | controllers/protectedRoutes.js:6-29 | 403 before any store access when the route id differs from the subject; 500 on a failing call; otherwise `OwnRecord` |
| ProtectedRoutes.OwnIdPasses | controllers/protectedRoutes.js:10 | the subject's own decimal id passes, with or without a leading zero |
| ProtectedRoutes.OtherIdRefused | controllers/protectedRoutes.js:10-12 | a decimal id of another value is refused |
| ProtectedRoutes.HashColumnReturned | controllers/protectedRoutes.js:22-23 | a `password_hash` column is sent back unchanged |
| ProtectedRoutes.OwnRecordIsSubjects | controllers/protectedRoutes.js:16-23 | in a well-formed table the route answers the subject's own row |
| UserRegister.SignupCheck | controllers/userRegister.js:11-21 | username, email and password presence in that order, each failing with its 422; accepted exactly when all are present |
| UserRegister.SignupCols | controllers/userRegister.js:25-28 | the row stores the username, the email and `hash(password, salt)` |
| UserRegister.Signup | controllers/userRegister.js:8-46 | the 422s before any store access; 201 with the row appended under the next id; otherwise the guarded classification and no change; the connection is given back |
| UserRegister.StoredDigestVerifies | controllers/userRegister.js:25-28 | the stored digest verifies against the password sent, whatever the salt |
| UserRegister.TakenUsernameRefused | controllers/userRegister.js:33-35 | a second signup with a stored username gets "Nome de usuário já cadastrado." |
| UserRegister.ConnectionFailureIs500 | controllers/userRegister.js:32-40 | an error without `sqlMessage` is answered 500 |
| UserLogin.LoginCheck | controllers/userLogin.js:12-18 | email then password presence, each failing with its 422 |
| UserLogin.LoginDecision | controllers/userLogin.js:24-47 | one 401 body for an unknown email and a wrong password; a token exactly when the first record's digest checks out, signed over its `{id, username, email}` with no expiry |
| UserLogin.Signin | controllers/userLogin.js:9-55 | the checks, the lookup by email alone and the decision; a failing call is answered 500 with `error.message`; the connection is given back when taken |
| UserLogin.LoginIssuesOwnClaims | controllers/userLogin.js:28-45 | with sound crypto the record holding the digest of the password gets a token verifying to its own claims |
| UserLogin.UniformRejection | controllers/userLogin.js:24-33 | a wrong password is answered exactly like an unknown email |
| UserLogin.LookupByEmailUnique | controllers/userLogin.js:22 | under a unique email key the lookup finds exactly the one row with that email |
| UserLogin.NoMatchFindsNothing | controllers/userLogin.js:22 | no row with the email: the lookup is empty |
| SrcUsersController.LoopFails | src/controllers/usersController.js:53-71 | one of the two queries of some iteration is the failing call |
| SrcUsersController.MergeDetails | src/controllers/usersController.js:53-71 | the loop yields one entry per user, in order, each the user with its first address and social-info rows; a failing per-user query ends it with that error |
| SrcUsersController.NoAddressGivesEmpty | src/controllers/usersController.js:65 | a user with no address row is listed with `{}` |
| SrcUsersController.GetAll | src/controllers/usersController.js:43-83 | the merged list with a 200, the 500 on any failing query, no answer when `getConnection` fails |
| SrcUsersController.FiveFieldsPresent | src/controllers/usersController.js:98 | `[username, first_name, last_name, email, password].every(Boolean)` holds exactly when all five are present and non-empty |
| SrcUsersController.CreateCatch | src/controllers/usersController.js:117-122 | as written: 400 exactly for the code `ER_DUP_FIELD`, the 500 for every other error |
| SrcUsersController.DuplicateUsernameGets500 | src/controllers/usersController.js:119-122 | a taken username, reported as `ER_DUP_ENTRY`, gets the 500 |
| SrcUsersController.CreateCatchByKey | src/controllers/usersController.js:119-120 | corrected: 400 exactly for a duplicate in the username key, the 500 otherwise |
| SrcUsersController.DuplicateUsernameGets400 | src/controllers/usersController.js:119-120 | corrected: a taken username gets the 400, a taken email the 500 |
| SrcUsersController.Create | src/controllers/usersController.js:95-126 | connection taken first and kept on the 400 for a missing field; otherwise the insert sequence and the as-written catch |
| SrcUsersController.Update | src/controllers/usersController.js:139-162 | four fields checked before the connection; one `UPDATE`, success whether or not the id exists, 500 on error |
| SrcDbUsersController.StatementError | src/database/controllers/usersController.js:76-77 | mysql2 fills the `?` in order and leaves the ones past the last value as literal `?`: a statement is accepted exactly when it has as many placeholders as columns and no more than values; too few values is the server's syntax error |
| SrcDbUsersController.InsertError | src/database/controllers/usersController.js:76-82 | the insert fails exactly when the call is the failing one, the VALUES list does not have one `?` per column, or a key rejects the row; with too many placeholders the error is the syntax error; a taken email is `ER_DUP_ENTRY` |
| SrcDbUsersController.InsertNeverSucceeds | src/database/controllers/usersController.js:76-77 | with 25 placeholders for 24 columns and 24 values the insert always fails, with the syntax error unless the call itself fails |
| SrcDbUsersController.FreshUserRefused | src/database/controllers/usersController.js:76-77 | the first user of an empty table is refused as written and stored by the corrected statement |
| SrcDbUsersController.Create | src/database/controllers/usersController.js:65-87 | as written: four fields checked before the connection; past them every request gets the 500 with `error.message`, never the 201, and no row is written; the connection is given back |
| SrcDbUsersController.CreateCorrected | src/database/controllers/usersController.js:65-87 | with one `?` per column: 201 with the row appended under the next id, or the 500 and no change |
| SrcDbUsersController.Update | src/database/controllers/usersController.js:99-122 | four fields checked before the connection; success whether or not the id exists; 500 on error |
| SrcDbUsersController.Delete | src/database/controllers/usersController.js:129-144 | no existence check: 200 and the cascading delete, 500 on error |
| SrcDbUsersController.DeleteMissingIdChangesNothing | src/database/controllers/usersController.js:134-136 | a delete of an id no row has reports success and changes nothing |
| Flows.SignupLoginAccess | controllers/protectedRoutes.js:6-23 | after `POST /signup` stores an account, `POST /signin` with its email and password issues a token that gets through `checkToken` as the new id, and the route answers that account's own row without its password |

## Left out

- Connection handling, request bodies and route ids:
  - The three handlers `userRegister.js`, `userLogin.js` and `protectedRoutes.js` assign an
    undeclared global `connection` that every request shares. When `getConnection` rejects,
    their `finally` releases (or, in `protectedRoutes.js`, tries to release) whatever an
    earlier request left there. The model gives no connection back on that path, because a
    connection shared between requests needs concurrency, which it does not have.
  - Request bodies are maps from names to strings. JSON numbers, booleans and nested values in
    a body are not modelled.
  - Route ids are taken as integers. MySQL's conversion of the `:id` text in `WHERE id = ?` is
    not modelled.
- ProtectedRoutes.Mismatch: the loose `!=` is exact for strings of decimal digits only. Every
  other route id, such as `" 5"`, `"5.0"` or `"0x5"`, is treated as unequal to the subject,
  which JavaScript's number conversion would not do.
- ProtectedRoutes.GetOwnUser: it reads the row by the bound subject instead of the route id.
  The 403 check makes the two equal as numbers.
- Crud.FetchById: on controllers/usersController.js it answers the `users` row, not the row of
  the `user_full_details` view. The view's definition is not part of this repository's source.
- Crud.FetchAll: on controllers/usersController.js it lists `users`, not the
  `user_full_details` view, for the same reason.
- The hashing middleware (middlewares/hashPassword.js):
  - in front of the `authController.js` registration it is taken as given, so `hashedPassword`
    is a body field;
  - its own 500, when `bcrypt.hash` rejects a missing password, is not modelled.
- bcrypt and jsonwebtoken are abstract functions:
  - hashing, salts, signatures, expiry clocks and secrets are not modelled;
  - the salt from `genSalt(12)` is a parameter of `UserRegister.Signup`.
- SrcUsersController and SrcDbUsersController: the mismatches between the src schema
  (src/database/usersCreateTable.js) and the queries are not modelled. These are the missing
  `username`, `addresses` and `social_info` tables and columns, and the errors MySQL would raise
  for them (`ER_BAD_FIELD_ERROR`). Both src controllers are modelled over the same store as the
  rest.
- Store.Taken, Store.UniqueViolation, Store.RowsWhere, Store.RowsWhereEither: values are
  compared exactly, as a binary (case-sensitive) collation would compare them. MySQL 8's default
  collation `utf8mb4_0900_ai_ci` ignores case and accents. Under it, with `ana@mail.com` stored,
  a signup with `Ana@Mail.com` is refused as a duplicate, and a login with `ANA@mail.com` finds
  the row; the model appends a second row in the first case and answers 401 in the second.
  Neither the one table definition in the repository (src/database/usersCreateTable.js) nor
  anything else in it names a collation, and the model does not capture collation
  equivalence.
- Store.DeleteUserTables: the foreign keys from `personal_info`, `address` and `social_info` to
  `users` are assumed to be ON DELETE CASCADE, as the comment at
  controllers/usersController.js:123 expects. The DDL of those tables is not part of this
  repository's source. Under MySQL's default RESTRICT, deleting a user who has dependent rows
  fails with `ER_ROW_IS_REFERENCED_2`, and the route answers 500. The model does not show that
  case in Store.WithoutChildren, Crud.DeleteIfExists, Crud.DeleteRoute, Crud.DeleteRemovesUser
  or SrcDbUsersController.Delete. The src schema (src/database/usersCreateTable.js) declares no
  dependent table, so there the cascade has nothing to remove.
- SrcDbUsersController.StatementError: the wording of MySQL's ER_PARSE_ERROR text depends on
  the server version. The model uses MySQL 8's wording, whose `near '?)'` part names the
  leftover placeholder.
- Store failures:
  - Only one failing store call per request is modelled.
  - `rollback` never fails.
  - The two inserts of `Promise.all` are modelled as landing in program order. The id of the
    dependent rows follows `insertId`.
- Startup and plumbing are not modelled: server.js, src/app.js, the pool configuration, CORS,
  dotenv, static files and `console` logging. Route mounting is left out too; server.js mounts
  `authController.js` twice and never mounts `userRegister.js` or `userLogin.js`.
- JSON serialisation of the answers: the model keeps the body's fields, not its text.

## Findings

| source | as written | input that shows it | evidently intended | confidence | as-written member | corrected member |
|---|---|---|---|---|---|---|
| controllers/authController.js:100 | `compare` and `jwt` are used but never imported (lines 1-3), so a `ReferenceError` lands every sign-in with a matching record in the 500 | a sign-in body whose email matches a stored row, with the right password | `compare` from bcrypt and `jwt` from jsonwebtoken, issuing the token | high; not executed | AuthController.SigninNeverSucceedsAsWritten | AuthController.SigninIssuesOwnClaims |
| controllers/authController.js:41-42 | the username test looks for `users.username` anywhere in `sqlMessage`, including in the duplicated value | registering a taken email `users.username@x.co` is answered "Nome de usuário já cadastrado." | classify by the key name that ends the message | medium; not executed | Duplicates.EmailDuplicateMisclassified | Duplicates.ClassifyByKeyEmail |
| src/controllers/usersController.js:119 | only `error.code === 'ER_DUP_FIELD'` gets the 400, but MySQL reports a duplicate key as `ER_DUP_ENTRY` | a POST whose username is already stored is answered 500 | the 400 "Nome de usuário já existe" for a duplicate username | medium; not executed | SrcUsersController.DuplicateUsernameGets500 | SrcUsersController.DuplicateUsernameGets400 |
| src/database/controllers/usersController.js:76-77 | the INSERT names 24 columns and its VALUES list has 25 `?` for the 24 values, so the last `?` reaches MySQL as a literal and every POST fails with a syntax error | any POST with the four required fields, even the first user of an empty table, is answered 500 | one `?` per column, storing the user with a 201 | high; not executed | SrcDbUsersController.FreshUserRefused | SrcDbUsersController.CreateCorrected |

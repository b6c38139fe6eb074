# Registration and login of a credential backend, in Dafny

This project models the account core of a small Express/PostgreSQL backend:

- the `registerUser` handler: BEGIN, a check of the required fields, a bcrypt hash of the password, the split of the username into first and last name, an INSERT, then COMMIT. On any error it runs ROLLBACK and sends a failure reply. In every case it releases the connection;
- the `login` handler: it reads the rows for an email, then answers 404, 401 or 200;
- the SQL statements of the `users` table that the handlers and the CRUD endpoints use;
- the two request gates that run in front of the handlers;
- the `createResponse` envelope that the gates use.

Files and modules:

- `wrappers.dfy` (`Wrappers`): `Option`, and `Result`/`Fault` for the outcome of a foreign call that may reject.
- `json.dfy` (`Json`, `Http`): JSON values, the request body, and the reply a handler sends.
- `response_handler.dfy` (`ResponseHandler`): `createResponse`.
- `hashing.dfy` (`Hashing`): bcrypt kept abstract. `hash` and `compare` are two function values. The salt that `bcrypt.hash` draws is a parameter. `Consistent` states, as an explicit assumption, that a digest verifies against the password it came from.
- `user_queries.dfy` (`UserQueries`): what each SQL statement reads from, or does to, a `Table` value. A `Table` is a map from id to row plus the next id to issue.
- `store.dfy` (`Store`): the class `UsersTable`, whose methods apply the mutating statements in place. The class `Client` is a pooled connection. It logs the statements sent, saves the table at BEGIN, restores it at ROLLBACK, and counts releases.
- `user_validator.dfy` (`UserValidator`): `validateUserRegistration` and `validateUserLogin` as pass/reject gates. `isEmail` is a parameter; `isLength` is modelled as validator.js measures a string, counting code points and leaving out the variation selectors U+FE0E and U+FE0F.
- `auth_controller.dfy` (`AuthController`): the name split, `Register` (the handler as a function of the table before it), `RegisterUser` (the imperative handler, proved to agree with `Register`), `Login`, and lemmas that relate the pieces.

Modelling choices:

- Store failures are parameters (`StoreFaults` for BEGIN, INSERT and COMMIT; `readFault` for the login SELECT). The email-uniqueness constraint lives in a schema that is not part of this model. So a duplicate email is one such INSERT fault, and the model does not know why the INSERT failed.
- `NOW()` is the parameter `now`.
- An absent body field is `None`. The handlers treat absent and `""` as falsy. The validators read an absent field as `""`.
- The error mapping follows JavaScript `||`. A missing or zero `status` gives 500. A missing or empty `message` gives "Internal Server Error".
- SQL leaves the order of a SELECT's rows unspecified. The model returns them by ascending id, so "the first row" of `loginUser` is the matching row with the smallest id. Under email uniqueness (`UniqueEmails`) there is at most one such row.
- A login with an absent email binds SQL NULL, and NULL equals no row, so the reply is a 404.
- The SELECT statements and `login` are functions of a `Table` value, so they cannot change the table. `login` consults only the first row that `loginUser` returns.

Three behaviours of the code differ from what a reader might expect, and the model keeps them as the code has them:

- The last name is the second space-separated piece of the username. It is not the rest of the string, so "Jane Mary Doe" gives "Jane"/"Mary" (`MiddleWordIsLastName`).
- A failed INSERT (a duplicate email among others) gives 500 with the driver's own message, never 409. A database error's message is therefore sent to the client, not replaced by a generic text (`FromFault`, `RegisterFailures`).
- A failed COMMIT is followed by ROLLBACK, and the table ends as it was.

## Model

| member | source | states |
|---|---|---|
| `ResponseHandler.CreateResponse` | utils/responseHandler.js:9-24 | `success` and `message` equal the arguments; the `data` key is present iff the data argument is non-null, and then equals it; the same holds for `pagination`; there are no other keys |
| `ResponseHandler.DefaultedResponse` | utils/responseHandler.js:9-13 | with both optional arguments defaulted, the envelope has exactly the keys `success` and `message` |
| `UserQueries.Select` | queries/user.queries.js:10-31 | a SELECT returns exactly the rows of the table that satisfy its WHERE clause, each as stored, in strictly ascending id order |
| `UserQueries.SelectById` | queries/user.queries.js:16-20 | `selectById` gives the row with that id, or no row |
| `UserQueries.SelectByEmail` | queries/user.queries.js:22-26 | `selectByEmail` gives exactly the rows with that email; it is empty iff no row has it |
| `UserQueries.SelectAllUsers` | queries/user.queries.js:28-31 | `selectAllUsers` gives every row of the table, each once |
| `UserQueries.LoginUser` | queries/user.queries.js:10-14 | `loginUser` gives, in id order, the projection without timestamps of exactly the rows whose email equals the parameter; it is empty iff no row has that email |
| `UserQueries.LoginUserAtMostOne` | queries/user.queries.js:10-14 | when emails are unique, `loginUser` yields at most one row |
| `UserQueries.CreateUser` | queries/user.queries.js:2-8 | `createUser` adds one row under a fresh id and changes no other row; email, username, password, first_name and last_name are $1..$5 in that order; `created_at` and `last_modified_at` are the same `NOW()`; the whole new row is returned |
| `UserQueries.UpdateUserById` | queries/user.queries.js:33-42 | only the row with id $5 changes, and only in email, username, first_name, last_name and `last_modified_at`; its password and `created_at` stay; the other rows stay; `RETURNING *` gives the updated row, or none when the id is absent |
| `UserQueries.UpdatePassword` | queries/user.queries.js:49-55 | only the password and `last_modified_at` of the row with id $2 change; the other rows stay; the updated row is returned |
| `UserQueries.DeleteUser` | queries/user.queries.js:44-47 | the rows whose id is $1 are removed; every other row stays as it was |
| `UserQueries.CreatedRowIsSelected` | queries/user.queries.js:2-20 | after `createUser`, `selectById` finds the created row under its id, and the table has one more row |
| `UserQueries.DeletedRowIsGone` | queries/user.queries.js:44-47 | after `deleteUser`, `selectById` finds nothing under that id |
| `Store.UsersTable.CreateUser` | queries/user.queries.js:2-8 | the in-place INSERT leaves the table as `UserQueries.CreateUser` describes and returns the inserted row |
| `Store.UsersTable.UpdateUserById` | queries/user.queries.js:33-42 | the in-place UPDATE leaves the table, and returns the rows, as `UserQueries.UpdateUserById` describes |
| `Store.UsersTable.UpdatePassword` | queries/user.queries.js:49-55 | the in-place UPDATE leaves the table, and returns the rows, as `UserQueries.UpdatePassword` describes |
| `Store.UsersTable.DeleteUser` | queries/user.queries.js:44-47 | the in-place DELETE leaves the table as `UserQueries.DeleteUser` describes |
| `Store.Client.Begin` | controllers/auth.controller.js:12 | BEGIN is logged; when it succeeds, a transaction opens and the table's state is saved |
| `Store.Client.CreateUser` | controllers/auth.controller.js:26 | the INSERT is logged with its values; a failed INSERT leaves the table as it was; a successful one binds values 0..4 to $1..$5 |
| `Store.Client.Commit` | controllers/auth.controller.js:29 | COMMIT is logged; on success the transaction closes and the changes stay; on failure it remains open for the rollback |
| `Store.Client.Rollback` | controllers/auth.controller.js:44 | ROLLBACK is logged and puts the table back to its state at BEGIN; with no transaction open it changes nothing |
| `Store.Client.Release` | controllers/auth.controller.js:51 | the release count goes up by one, and nothing else changes |
| `UserValidator.RegistrationErrors` | middleware/validation/user.validator.js:5-7 | each failing registration check contributes exactly one error with its own field and `withMessage` text, and no other error appears; the number of errors is the number of failing checks; there are none iff the email passes `isEmail` and password and username pass `isLength({ min: 1 })` |
| `UserValidator.LoginErrors` | middleware/validation/user.validator.js:18-19 | the same for the login chain; only email and password are checked |
| `UserValidator.Conclude` | middleware/validation/user.validator.js:8-14 | with errors, the reply is 400 `createResponse(false, "Missing required fields", errors)` and `next` is not called; with none, `next` is called and nothing is written |
| `UserValidator.ValidateUserRegistration` | middleware/validation/user.validator.js:4-15 | the registration gate passes iff the email passes `isEmail` and the password and the username have a measured length of at least 1; a passing password and username are non-empty; otherwise it answers 400 |
| `UserValidator.ValidateUserLogin` | middleware/validation/user.validator.js:17-26 | the login gate passes iff the email passes `isEmail` and the password has a measured length of at least 1; otherwise it answers 400 |
| `UserValidator.RejectionBody` | middleware/validation/user.validator.js:10-12 | a rejection body has exactly `success: false`, the message "Missing required fields" and the error list as `data` |
| `UserValidator.OnlyEmailInvalid` | middleware/validation/user.validator.js:5-12 | when password and username pass `isLength` and the email fails, the reply is still "Missing required fields", with one error that names the email |
| `UserValidator.MeasuredLength` | middleware/validation/user.validator.js:6-7 | the length `isLength` measures is at most the number of code points, and is 0 iff every character is the variation selector U+FE0E or U+FE0F |
| `UserValidator.SelectorOnlyPasswordRejected` | middleware/validation/user.validator.js:5-19 | a password made only of U+FE0F is non-empty, yet both gates reject it with the password error |
| `UserValidator.LoginIgnoresUsername` | middleware/validation/user.validator.js:17-19 | the login gate's verdict does not depend on the username |
| `AuthController.Split` | controllers/auth.controller.js:21 | `split(" ")` yields at least one piece, and no piece contains a space |
| `AuthController.JoinSplit` | controllers/auth.controller.js:21 | joining the pieces with single spaces gives back the username |
| `AuthController.SplitJoin` | controllers/auth.controller.js:21 | splitting a join of space-free pieces gives back those pieces |
| `AuthController.Names` | controllers/auth.controller.js:21 | the first name is the text before the first space (the whole name if there is none); the last name is the text between the first and the second space, or '' when there is no space; later pieces are dropped |
| `AuthController.TestUserNames` | test/user.test.js:22-26 | "Test User" gives first name "Test" and last name "User" |
| `AuthController.MiddleWordIsLastName` | controllers/auth.controller.js:21 | "Jane Mary Doe" gives "Jane" and "Mary", not "Mary Doe" |
| `AuthController.FromFault` | controllers/auth.controller.js:46-48 | a caught database or bcrypt error, which has no status, gives status 500 and its own message (the default text only when the message is empty) |
| `AuthController.SuccessCarriesNoSecret` | controllers/auth.controller.js:31-39 | a success body has the keys status, message and data; data has exactly id, email and username, and no password |
| `AuthController.Register` | controllers/auth.controller.js:6-53 | the table is unchanged on every failure; success happens iff BEGIN succeeds, the three fields are present, the hash succeeds, and INSERT and COMMIT succeed; then exactly one row is added under a fresh id, holding the email, the username, the digest and the split names, with both timestamps `now`, and the response is 200 "User Registered Successfully" with that row's id, email and username; BEGIN is sent first; the last statement is COMMIT on success and ROLLBACK otherwise; COMMIT comes only right after the INSERT; the INSERT is the second statement and carries email, username, digest, first and last name |
| `AuthController.RegisterFailures` | controllers/auth.controller.js:13-49 | missing fields give 400 "Missing required fields", with only BEGIN and ROLLBACK sent and the table unchanged; a failed BEGIN, hash, INSERT or COMMIT (each after the earlier steps succeeded) replies `Failure(FromFault(e))` with that step's own error `e`, so status 500 and its message; every failure other than 400 is a 500 |
| `AuthController.RegisterUser` | controllers/auth.controller.js:6-53 | the handler run step by step on a connection leaves the outcome, the table and the sent statements exactly as `Register` says; it leaves no transaction open and releases the connection exactly once |
| `AuthController.Lookup` | controllers/auth.controller.js:60-61 | the login read is empty iff no row has the given email (none for an absent email) |
| `AuthController.Login` | controllers/auth.controller.js:56-93 | 404 iff the read succeeds and no row has the email, with body "failed"/"User not found"; 401 iff a row exists and `compare` with the first row's password says false, with body "failed"/"Invalid credentials"; 200 iff it says true, and then the body is "User Login Successful" with that first row's id, email and username; a failed read or a failed compare replies with that error's own message as a 500; every other outcome is a 500 |
| `AuthController.RegisterThenLogin` | controllers/auth.controller.js:20-85 | when bcrypt verifies its own digests (`Consistent`), registering an unused email and then logging in with the same password gives 200 with the same data, the same id included |
| `AuthController.RejectedInsertKeepsTable` | controllers/auth.controller.js:26-44 | when the store rejects the INSERT, as it does for a duplicate email, the table stays as it was |
| `AuthController.GatedMissingFields` | controllers/auth.controller.js:16 | behind the registration gate, the handler's 400 can fire only when the email is missing or empty and `isEmail` accepted "" |

## Left out

- bcrypt itself: salt generation, the cost factor 10, and constant-time comparison are foreign code. `hash` and `compare` are abstract function values. That two hashes of one password differ is not modelled, because the salt is a parameter.
- `Consistent` is an assumption about bcrypt, not something the code proves. `RegisterThenLogin` depends on it.
- The connection pool: taking a client with `db.connect()` happens before `registerUser`'s `try`, and the model starts from a client already taken. A failed connect, async/await, and concurrent registrations racing on one email are not modelled.
- Hashing has no observable effect in the model. That no hash is computed on the 400 path therefore shows only in the statements sent: the field check comes before the hash, and no INSERT follows.
- A ROLLBACK that itself fails is not modelled; ROLLBACK always succeeds here.
- UserValidator.ValidateUserRegistration, UserValidator.ValidateUserLogin, AuthController.GatedMissingFields: the gates are modelled on `req.body` alone. express-validator's `check(field)` also looks in cookies, headers, route parameters and the query string, so a field sent there (say `?password=x`) passes the real gate while the body lacks it; `GatedMissingFields` holds only for the body-only reading.
- UserQueries.Row, AuthController.UserData: the type of the id column is not known, since the schema is not part of this model (the tests request ids of UUID form). It is modelled as a number, `nat`, and sent as a JSON number.
- The id column's generator: the model issues `nextId` and restores it on ROLLBACK. A database-side generator (a sequence, or a UUID default) would not be restored, but the schema that defines the column is not part of this model.
- Errors of the CRUD statements (constraint violations on `updateUserById`, for one) are not modelled. Their callers are not part of this model.
- The error records of express-validator carry more than `path` and `msg` (`type`, `value`, `location`). The model keeps those two. `isEmail` is a parameter.
- UserValidator.MeasuredLength: strings are sequences of Unicode code points, so a lone UTF-16 surrogate, which a JSON body can carry and which `isLength` counts as one, cannot be written in the model.
- Body fields that are not strings (numbers, objects) are not modelled; a field is absent or a string.
- The `logger` calls, the real clock behind `NOW()`, and how the route wrapper sends the response object that `registerUser` returns are not modelled. The routes, the rate limiter, CORS and the email template are framework wiring or unused by these flows.

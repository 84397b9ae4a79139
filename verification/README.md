# Account credentials of the toy-shop backend, as a state machine

This project models the account-credential lifecycle of a small Express
backend for a toy shop. That covers local registration with an email
verification token, login, the administrator's role/status/delete
endpoints, password reset by emailed token, the Google sign-in
"find or create" callback, and a second register/login controller that
issues signed session tokens.

Every HTTP handler becomes a pure transition over an immutable user
table: `(table, input, clock) -> Step(table', reply)`.

- **The table** (`Store`). The rows of `usuarios` are kept in insertion
  order, with the next auto-increment id and the defaults the database
  gives `verificado`, `tipo_usuario` and `estado` when an `INSERT`
  leaves them out. Every other omitted column is NULL. A `SELECT` that
  reads `rows[0]` is modelled as "the first matching row".
  `UPDATE ... WHERE` rewrites every matching row and `DELETE ... WHERE`
  drops every matching row and keeps the others in order. SQL's `NULL` comparison is kept: a missing
  token parameter matches no row.
- **Passwords** (`Crypto`). `Hash` produces a `Digest`, a type of its
  own, so a password column can never hold a plaintext. `Compare`
  accepts exactly the password a digest was made from (bcrypt's 72-byte
  limit is set aside; see "Left out").
- **Outside effects.** These are parameters:
  - `storeUp`: false when the database rejects a query. Each handler
    writes at most once, so such a failure always means a 500 reply and
    an unchanged table.
  - `mailSent`: false when the mail transport rejects. The reply is 500,
    but the row already written stays written.
  - `token`: the freshly generated random token.
  - `now`: the clock in milliseconds.
  - `counting`: how the MySQL driver counts `affectedRows`.
- **The invariant** `WellFormed`: row ids are distinct and below the
  auto-increment counter. Every handler keeps it. `UniqueEmails` is kept
  by the two handlers that check for an existing email before they
  insert. `/register` in server.js does not check, and the model shows
  that.

Where the behaviour below may look unintended, the model still follows the
source:
- Google-created rows are not marked verified. Only `email` and `nombre`
  are inserted, and the other columns take the database defaults.
- The administrator endpoints report success even when no row has the
  id.
- `/verify` never clears the verification token.
- `bcrypt.compare` against a row with no password rejects. Both login
  handlers turn that rejection into a 500, not a "wrong password" 400.

## Model

| member | source | states |
|---|---|---|
| `Crypto.Hash` | server.js:97 | A stored digest verifies against the password it was made from and against no other password |
| `Server.Register` | server.js:93-122 | Inserts exactly one row under the next id and leaves the earlier rows as they were. The new row holds the digest of the password (never the plaintext), `verificado = 0`, the issued token, and the given role or "Cliente" when none is given. A store failure writes nothing and answers 500. A mail failure answers 500 but keeps the row |
| `Server.RegisterAddsOneRowPerCall` | server.js:100-102 | There is no duplicate check: each successful `/register` adds exactly one more row with that email, whatever was there before |
| `Server.Verify` | server.js:127-141 | Sets `verificado = 1` on every row whose token equals the given one and changes no other field (the token stays) and no other row. The answer is 400 exactly when the driver reports no affected row, and a token that matches nothing leaves the table unchanged |
| `Server.VerifyIdempotent` | server.js:130 | A second `/verify` with the same token writes nothing |
| `Server.SecondVerifyDependsOnRowCounting` | server.js:130-136 | After a token has worked once, a second use is refused (400) if the driver counts changed rows and accepted (200) if it counts matched rows |
| `Server.Login` | server.js:146-181 | Never writes the table. It decides on the first row with the email, in a fixed order: no row gives 400 "Usuario no encontrado"; `estado = "Bloqueado"` gives 403 before anything else is read; `verificado = 0` gives 403 before the password is compared; a wrong password gives 400. It succeeds exactly when that first row is unblocked, not unverified and holds the password's digest, and then returns that row's `tipo_usuario` |
| `Server.ListUsers` | server.js:186-196 | Lists one entry per row, in table order, with id, name, email, role, status and verification flag, and no password or token fields |
| `Server.UpdateRole` | server.js:198-212 | Changes only `tipo_usuario`, and only on the rows with the id. It answers 200 whether or not such a row exists |
| `Server.UpdateStatus` | server.js:214-225 | Changes only `estado`, and only on the rows with the id. It answers 200 whether or not such a row exists |
| `Server.DeleteUser` | server.js:227-237 | Exactly the rows with the id disappear, so the table shrinks by the number of such rows. With no such row the table is unchanged, and it answers 200 either way. A store failure answers 500 and leaves the table unchanged. Ids stay distinct |
| `Server.DeleteOtherUserKeepsLogin` | server.js:227-237 | Deleting any user other than the one `/login` reads first for an email leaves that login's reply unchanged |
| `Store.RemoveAppend` | server.js:231 | The surviving rows keep their order. `DELETE ... WHERE` acts segment by segment: deleting from two concatenated runs of rows gives the two filtered runs in the same order |
| `Server.DeleteUserRemovesOnlyThatId` | server.js:231 | After the delete no row has the id, and every row with another id is still present |
| `PasswordReset.ForgotPassword` | controllers/passwordController.js:12-52 | An unknown email answers 400 and writes nothing. Otherwise every row with the email gets the new reset token and an expiry of now + 900000 ms, and no other field or row changes |
| `PasswordReset.ValidateToken` | controllers/passwordController.js:58-77 | Answers 200 exactly when some row holds the token with an expiry strictly after now. A missing token is never valid, and the table is never written |
| `PasswordReset.ResetPassword` | controllers/passwordController.js:83-109 | A missing, unknown or expired token answers 400 and writes nothing. Otherwise every row holding the token gets the new password's digest and has its reset token and expiry set to NULL, with no other change |
| `PasswordReset.IssuedTokenLivesFifteenMinutes` | controllers/passwordController.js:22-71 | A token just issued for a known email validates exactly when the check happens strictly before issue time + 15 minutes, so a token expiring exactly now is invalid |
| `PasswordReset.NewRequestRevokesOldToken` | controllers/passwordController.js:26-63 | A second reset request for the same email overwrites the first token, which never validates again |
| `PasswordReset.ResetTokenSingleUse` | controllers/passwordController.js:87-101 | After a successful reset the same token neither validates nor resets again, at any time, and the refused second reset writes nothing |
| `PasswordReset.RequestThenReset` | controllers/passwordController.js:26-101 | A reset request followed by a reset within 15 minutes gives every row with that email, and only those rows, the new password's digest and no reset token, and changes no email, `estado` or `verificado` |
| `GoogleAuth.FindOrCreate` | config/passport.js:12-33 | With no row for the profile's first email, it inserts exactly one row with that email and the display name, and the other columns take the defaults. With such a row, it leaves the table unchanged. On success it yields the profile itself. A store error or a profile with no email yields the error and writes nothing |
| `GoogleAuth.FindOrCreateIdempotent` | config/passport.js:17-28 | Running the callback again with the same profile changes nothing and gives the same result |
| `GoogleAuth.FindOrCreateLeavesOneRow` | config/passport.js:23-28 | From a table with at most one row for the email, one run and then a second run each leave exactly one row for it |
| `GoogleAuth.OnlyFirstEmailMatters` | config/passport.js:14 | Only `emails[0]` is the lookup key: profiles that agree on it and on the display name have the same effect |
| `AuthController.RegisterUser` | controllers/authController.js:23-62 | An email already present answers 400 and inserts nothing. Otherwise it inserts one row with the name, the email and the password's digest, and the other columns take the defaults. Email uniqueness is kept |
| `AuthController.LoginUser` | controllers/authController.js:65-88 | Never writes the table. An unknown email gives 400 "Usuario no encontrado." and a wrong password gives 400 "Contraseña incorrecta.". A token is issued exactly when the first row with the email holds the password's digest. Its claims carry that row's id and email, an issue time equal to the clock in whole seconds, and an expiry 2 hours later |
| `AuthController.LoginUserIgnoresStatus` | controllers/authController.js:69-77 | Tables that differ only in `estado` and `verificado` get identical login replies: only existence and the password decide |
| `Lifecycle.RegisteredButUnverifiedCannotLogIn` | server.js:100-163 | Right after `/register` with an email no row had, `/login` is refused as unverified (403) whatever the password, provided the `estado` default is not "Bloqueado" (otherwise the reply is 403 "Cuenta bloqueada") |
| `Lifecycle.RegisterThenVerify` | server.js:100-132 | After `/register` with an email no row had, and `/verify` with the issued token, the new row is the first with its email and is verified |
| `Lifecycle.RegisterVerifyLogin` | server.js:100-175 | After `/register` with an email no row had, and `/verify`, provided the `estado` default is not "Bloqueado", the registered password logs in and returns the registered role, and any other password gets 400 |
| `Lifecycle.OnlyNewPasswordLogsIn` | server.js:150-169 | When every row with the email holds the new password's digest, no other password logs in at `/login`. Where the new password succeeds, any other gets 400 "Contraseña incorrecta"; otherwise both get the same 403 |
| `Lifecycle.LoginAfterPasswordChange` | server.js:150-175 | If only the passwords of the rows with the email changed, all to the new password's digest, `/login` refuses the old password, and accepts the new one exactly when the first such row was neither blocked nor unverified before |
| `Lifecycle.ResetPasswordThenLogin` | controllers/passwordController.js:96-101 | After a reset request and a reset within the window, `/login` refuses the old password. It accepts the new one exactly when the account was neither blocked nor unverified before the reset |
| `Lifecycle.BlockingStopsOnlyServerLogin` | server.js:157-159 | When a user's row is the first with its email, setting its `estado` to "Bloqueado" makes `/login` answer 403 for that email. On a table blocked the same way, `loginUser` would answer exactly as before, because it never reads `estado` |
| `Lifecycle.RegisterUserThenLoginUser` | controllers/authController.js:33-81 | After `registerUser` with a new email, `loginUser` with the same password issues claims naming the new row's id and email |

## Left out

- Express wiring is not modelled because it is framework plumbing. This covers CORS, `express-session`, the passport initialisation and (de)serialisation, the OAuth redirects, and the route files.
- The MySQL and SQL Server connection pools and the startup connectivity check are I/O. A query failure is the `storeUp` flag.
- The content of the verification and reset emails is not modelled: only whether sending succeeded, as `mailSent`.
- bcrypt's salt and cost factor are not modelled. In the model a digest is determined by its password.
- Crypto.Hash: `Compare` accepts only the exact password, but bcrypt and bcryptjs read only the first 72 bytes of a password. Two passwords that agree on their first 72 bytes therefore compare equal in the program. `Lifecycle.RegisterVerifyLogin`, `Lifecycle.OnlyNewPasswordLogsIn`, `Lifecycle.LoginAfterPasswordChange` and `Lifecycle.ResetPasswordThenLogin` conclude that "another password fails". In the program that holds only for passwords that differ within their first 72 bytes. Strings here are characters, not UTF-8 bytes, so the byte limit is not modelled.
- `crypto.randomBytes` is not modelled: tokens are inputs. Lemmas that need a fresh token say so in their preconditions.
- JWT signing and the secret are not modelled: the session token is its claims record. A missing secret (a 500 at signing) is not modelled.
- The clock is an integer parameter in milliseconds. Storing the expiry in a `DATETIME` column (rounding to seconds, time zones) is not modelled.
- Emails and tokens are compared exactly. The case- and trailing-space-insensitive collations of MySQL and SQL Server are not modelled.
- The database may return rows in any order when a `SELECT` has no `ORDER BY`. The model reads the first row in insertion order.
- Request bodies with missing fields are not modelled, other than an absent `tipo_usuario` and an absent token parameter. Neither are non-numeric `:id` parameters.
- Only string-valued or absent body and query fields are modelled. `express.json()` also passes numbers, booleans, arrays and objects on to `db.query`. There mysql2 expands an object placeholder into `` `key` = value `` and an array into a list, and MySQL converts a string column to a number when it is compared with one. Such inputs make a `WHERE` on `token`, `reset_token` or `email` match rows whose value differs from the parameter, or every row with a non-NULL value. So the contracts of `Server.Verify`, `Server.Login`, `PasswordReset.ForgotPassword`, `PasswordReset.ValidateToken` and `PasswordReset.ResetPassword` about which rows match hold only for string parameters.
- A unique index on `email` is not modelled because no schema is shown. Concurrent requests are not modelled either.
- `authController.js` talks to its own SQL Server `Usuarios` table through `mssql`, while server.js, passwordController.js and passport.js share the MySQL `usuarios` table. The controller's handlers are modelled over the same table type. Only one lemma feeds a write of one database into a read of the other: `Lifecycle.BlockingStopsOnlyServerLogin` runs `loginUser` on the table `PUT /usuarios/:id/estado` wrote. It does so only to show that `loginUser` never reads `estado`. In the program the MySQL write never reaches SQL Server, and a password reset, for example, does not change what `loginUser` answers.
- Columns an `INSERT` leaves out other than `verificado`, `tipo_usuario` and `estado` are taken to default to NULL. That covers `password` and `token` for Google-created rows, `token` for `registerUser`, and `reset_token` and `reset_token_expires` for every insert. The schema is not part of the repository.

/** How the handlers compose. server.js and passwordController.js share
    the MySQL `usuarios` table: registration, verification and login,
    password reset followed by `/login`, and blocking an account.
    authController.js reads and writes a separate SQL Server table, so
    `registerUser` and `loginUser` are only composed with each other. */
module Lifecycle {
  import opened Crypto
  import opened Store
  import Server
  import PasswordReset
  import AuthController

  /** Right after `/register` with an email no row had, `/login` is
      refused as unverified whatever the password, unless new rows start
      out blocked. */
  lemma RegisteredButUnverifiedCannotLogIn(t: Table, form: Server.RegisterForm, token: string,
                                          mailSent: bool, password: string)
    requires forall i :: 0 <= i < |t.rows| ==> t.rows[i].email != form.email
    requires t.defaults.estado != Some(Server.BlockedStatus)
    ensures var t1 := Server.Register(t, form, token, true, mailSent).table;
      Server.Login(t1, form.email, password, true).out ==
        Server.LoginReply(403, false, Server.MsgUnverified, None)
  {
  }

  /** `/register`, then `/verify` with the issued token: the new row is
      the first with its email and is now verified. */
  lemma RegisterThenVerify(t: Table, form: Server.RegisterForm, token: string, mailSent: bool,
                           counting: Server.RowCounting)
    requires forall i :: 0 <= i < |t.rows| ==> t.rows[i].email != form.email
    ensures var t1 := Server.Register(t, form, token, true, mailSent).table;
      var t2 := Server.Verify(t1, Some(token), counting, true).table;
      && |t2.rows| == |t.rows| + 1
      && t2.rows[|t.rows|] == t1.rows[|t.rows|].(verificado := Some(1))
      && FirstWithEmail(t2.rows, form.email) == Some(|t.rows|)
  {
    var t1 := Server.Register(t, form, token, true, mailSent).table;
    var t2 := Server.Verify(t1, Some(token), counting, true).table;
    var k := |t.rows|;
    assert SqlEq(t1.rows[k].token, Some(token));
    forall j | 0 <= j < k
      ensures t2.rows[j].email != form.email
    {
      assert t2.rows[j].email == t1.rows[j].email == t.rows[j].email;
    }
    FirstWithEmailIs(t2.rows, form.email, k);
  }

  /** `/register`, then `/verify` with the issued token, then `/login`:
      the registered password logs in and returns the role it was
      registered with, and any other password is refused with 400. */
  lemma RegisterVerifyLogin(t: Table, form: Server.RegisterForm, token: string, mailSent: bool,
                            counting: Server.RowCounting, other: string)
    requires forall i :: 0 <= i < |t.rows| ==> t.rows[i].email != form.email
    requires t.defaults.estado != Some(Server.BlockedStatus)
    requires other != form.password
    ensures var t1 := Server.Register(t, form, token, true, mailSent).table;
      var t2 := Server.Verify(t1, Some(token), counting, true).table;
      && Server.Login(t2, form.email, form.password, true).out ==
           Server.LoginReply(200, true, Server.MsgLoggedIn, t1.rows[|t.rows|].tipoUsuario)
      && Server.Login(t2, form.email, other, true).out ==
           Server.LoginReply(400, false, Server.MsgBadPassword, None)
  {
    RegisterThenVerify(t, form, token, mailSent, counting);
    var t1 := Server.Register(t, form, token, true, mailSent).table;
    var t2 := Server.Verify(t1, Some(token), counting, true).table;
    var u := t2.rows[|t.rows|];
    assert u.estado == t.defaults.estado && u.verificado == Some(1);
    assert u.password == Some(Hash(form.password)) && !Compare(other, Hash(form.password));
  }

  /** The row `SELECT ... WHERE email = ?` reads first is the first row
      with that email. */
  lemma FirstWithEmailIs(rows: seq<User>, email: string, k: nat)
    requires k < |rows| && rows[k].email == email
    requires forall j :: 0 <= j < k ==> rows[j].email != email
    ensures FirstWithEmail(rows, email) == Some(k)
  {
  }

  /** `forgotPassword`, then `resetPassword` inside the 15-minute window,
      then `/login`: the old password no longer logs in, and the new one
      logs in exactly when the account was neither blocked nor unverified
      before the reset, which leaves those columns alone. */
  lemma ResetPasswordThenLogin(t: Table, email: string, token: string, now: int, mailSent: bool,
                               later: int, newPassword: string, oldPassword: string)
    requires exists i :: 0 <= i < |t.rows| && t.rows[i].email == email
    requires PasswordReset.TokenUnused(t, token)
    requires later < now + PasswordReset.ResetTtl
    requires oldPassword != newPassword
    ensures var t1 := PasswordReset.ForgotPassword(t, email, token, now, true, mailSent).table;
      var t2 := PasswordReset.ResetPassword(t1, Some(token), newPassword, later, true).table;
      var k := FirstWithEmail(t.rows, email);
      && k.Some?
      && !Server.Login(t2, email, oldPassword, true).out.success
      && (Server.Login(t2, email, newPassword, true).out.success <==>
            t.rows[k.value].estado != Some(Server.BlockedStatus) && t.rows[k.value].verificado != Some(0))
  {
    PasswordReset.RequestThenReset(t, email, token, now, mailSent, later, newPassword);
    var t1 := PasswordReset.ForgotPassword(t, email, token, now, true, mailSent).table;
    var t2 := PasswordReset.ResetPassword(t1, Some(token), newPassword, later, true).table;
    LoginAfterPasswordChange(t, t2, email, newPassword, oldPassword);
  }

  /** A table whose rows with the email all hold the digest of
      `newPassword`, and otherwise agree with `t` on emails, `estado` and
      `verificado`: `/login` with the old password fails, and with the
      new one succeeds exactly when the first such row of `t` was
      neither blocked nor unverified. */
  lemma LoginAfterPasswordChange(t: Table, t2: Table, email: string, newPassword: string, oldPassword: string)
    requires exists i :: 0 <= i < |t.rows| && t.rows[i].email == email
    requires |t2.rows| == |t.rows|
    requires forall i :: 0 <= i < |t.rows| ==> t2.rows[i].email == t.rows[i].email
    requires forall i :: 0 <= i < |t.rows| && t.rows[i].email == email ==>
      && t2.rows[i].password == Some(Hash(newPassword))
      && t2.rows[i].estado == t.rows[i].estado
      && t2.rows[i].verificado == t.rows[i].verificado
    requires oldPassword != newPassword
    ensures var k := FirstWithEmail(t.rows, email);
      && k.Some?
      && !Server.Login(t2, email, oldPassword, true).out.success
      && (Server.Login(t2, email, newPassword, true).out.success <==>
            t.rows[k.value].estado != Some(Server.BlockedStatus) && t.rows[k.value].verificado != Some(0))
  {
    var k := FirstWithEmail(t.rows, email);
    forall i | 0 <= i < |t2.rows| && t2.rows[i].email == email
      ensures t2.rows[i].password == Some(Hash(newPassword))
    {
      assert t.rows[i].email == email;
    }
    FirstIndexAgrees(t.rows, t2.rows, (u: User) => HasEmail(u, email));
    OnlyNewPasswordLogsIn(t2, email, newPassword, oldPassword);
  }

  /** When every row with the email holds the digest of `newPassword`,
      the password is all that separates the two logins: where
      `newPassword` logs in the other gets 400 "Contraseña incorrecta",
      and otherwise both get the same 403. */
  lemma OnlyNewPasswordLogsIn(t: Table, email: string, newPassword: string, oldPassword: string)
    requires exists i :: 0 <= i < |t.rows| && t.rows[i].email == email
    requires forall i :: 0 <= i < |t.rows| && t.rows[i].email == email ==>
      t.rows[i].password == Some(Hash(newPassword))
    requires oldPassword != newPassword
    ensures var good := Server.Login(t, email, newPassword, true).out;
      var bad := Server.Login(t, email, oldPassword, true).out;
      && !bad.success
      && (good.success ==> bad == Server.LoginReply(400, false, Server.MsgBadPassword, None))
      && (!good.success ==> good.status == 403 && bad == good)
  {
    var k := FirstWithEmail(t.rows, email);
    assert k.Some?;
    assert t.rows[k.value].password == Some(Hash(newPassword));
    assert !Compare(oldPassword, Hash(newPassword));
  }

  /** Setting a user's `estado` to "Bloqueado" through
      `PUT /usuarios/:id/estado` shuts them out of `/login`. The second
      conjunct runs `loginUser` on the same table only to show that it
      does not read `estado`: its reply is unchanged. In the program
      `loginUser` reads its own SQL Server table, which this endpoint
      never writes, so its reply there is unchanged as well. */
  lemma BlockingStopsOnlyServerLogin(t: Table, k: nat, password: string, clock: nat)
    requires k < |t.rows|
    requires forall j :: 0 <= j < k ==> t.rows[j].email != t.rows[k].email
    ensures var t1 := Server.UpdateStatus(t, t.rows[k].id, Server.BlockedStatus, true).table;
      && Server.Login(t1, t.rows[k].email, password, true).out ==
           Server.LoginReply(403, false, Server.MsgBlocked, None)
      && AuthController.LoginUser(t1, t.rows[k].email, password, clock, true).out ==
           AuthController.LoginUser(t, t.rows[k].email, password, clock, true).out
  {
    var email := t.rows[k].email;
    var t1 := Server.UpdateStatus(t, t.rows[k].id, Server.BlockedStatus, true).table;
    assert t1.rows[k].estado == Some(Server.BlockedStatus);
    forall j | 0 <= j < k
      ensures t1.rows[j].email != email
    {
      assert t1.rows[j].email == t.rows[j].email;
    }
    assert FirstWithEmail(t1.rows, email) == Some(k);
    AuthController.LoginUserIgnoresStatus(t, t1, email, password, clock, true);
  }

  /** `registerUser` with a new email, then `loginUser` with the same
      password: the session claims name the new row. */
  lemma RegisterUserThenLoginUser(t: Table, nombre: string, email: string, password: string,
                                  mailSent: bool, clock: nat)
    requires forall i :: 0 <= i < |t.rows| ==> t.rows[i].email != email
    ensures var t1 := AuthController.RegisterUser(t, nombre, email, password, true, mailSent).table;
      var reply := AuthController.LoginUser(t1, email, password, clock, true).out;
      && reply.token.Some?
      && reply.token.value.id == t.nextId
      && reply.token.value.email == email
  {
  }
}

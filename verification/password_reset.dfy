/** The password-reset controller (controllers/passwordController.js):
    issue a reset token that lives 15 minutes, check it against the
    clock, and consume it when the new password is stored.

    `now` is the clock in milliseconds (`Date.now()` for the expiry that
    is written, `NOW()` for the comparison that reads it). */
module PasswordReset {
  import opened Crypto
  import opened Store

  /** How long a reset token lives: 15 minutes in milliseconds. */
  const ResetTtl: int := 1000 * 60 * 15

  const MsgUnknownEmail := "El correo no está registrado."
  const MsgMailSent := "Correo enviado. Revisa tu bandeja de entrada."
  const MsgServerError := "Error en el servidor."
  const MsgInvalidToken := "Token inválido o expirado."
  const MsgTokenValid := "Token válido."
  const MsgPasswordReset := "Contraseña restablecida correctamente."

  /** The `WHERE reset_token = ? AND reset_token_expires > NOW()` of the
      validation query, for one row: the comparison is strict, and a NULL
      token or expiry never matches. */
  predicate Live(u: User, token: Option<string>, now: int)
  {
    SqlEq(u.resetToken, token) && u.resetTokenExpires.Some? && u.resetTokenExpires.value > now
  }

  /** Some row accepts `token` at time `now`. */
  ghost predicate TokenAccepted(t: Table, token: Option<string>, now: int)
  {
    exists i :: 0 <= i < |t.rows| && Live(t.rows[i], token, now)
  }

  /** No row holds `token` as its reset token. */
  ghost predicate TokenUnused(t: Table, token: string)
  {
    forall i :: 0 <= i < |t.rows| ==> t.rows[i].resetToken != Some(token)
  }

  /** `forgotPassword`: on every row with the email, the reset token
      becomes `token` and its expiry `now` + 15 minutes; nothing else
      changes. An unknown email is refused with 400. */
  function ForgotPassword(t: Table, email: string, token: string, now: int, storeUp: bool, mailSent: bool): (r: Step<Reply>)
    ensures !storeUp ==> r == Step(t, Reply(500, MsgServerError))
    ensures storeUp && (forall i :: 0 <= i < |t.rows| ==> t.rows[i].email != email) ==>
      r == Step(t, Reply(400, MsgUnknownEmail))
    ensures storeUp && (exists i :: 0 <= i < |t.rows| && t.rows[i].email == email) ==>
      r.out == (if mailSent then Reply(200, MsgMailSent) else Reply(500, MsgServerError))
    ensures r.table.nextId == t.nextId && r.table.defaults == t.defaults
    ensures |r.table.rows| == |t.rows|
    ensures forall i :: 0 <= i < |t.rows| && storeUp && t.rows[i].email == email ==>
      && r.table.rows[i].resetToken == Some(token)
      && r.table.rows[i].resetTokenExpires == Some(now + ResetTtl)
      && r.table.rows[i].(resetToken := t.rows[i].resetToken,
                          resetTokenExpires := t.rows[i].resetTokenExpires) == t.rows[i]
    ensures forall i :: 0 <= i < |t.rows| && !(storeUp && t.rows[i].email == email) ==>
      r.table.rows[i] == t.rows[i]
    ensures WellFormed(t) ==> WellFormed(r.table)
  {
    if !storeUp then Step(t, Reply(500, MsgServerError))
    else if FirstWithEmail(t.rows, email).None? then
      Step(t, Reply(400, MsgUnknownEmail))
    else
      var matches := (u: User) => HasEmail(u, email);
      var issue := (u: User) => u.(resetToken := Some(token), resetTokenExpires := Some(now + ResetTtl));
      UpdateKeepsWellFormed(t, matches, issue);
      var t' := Table(Update(t.rows, matches, issue), t.nextId, t.defaults);
      Step(t', if mailSent then Reply(200, MsgMailSent) else Reply(500, MsgServerError))
  }

  /** `validateToken`: 200 exactly when some row holds the token with an
      expiry strictly after `now`. The table is only read. */
  function ValidateToken(t: Table, token: Option<string>, now: int, storeUp: bool): (r: Step<Reply>)
    ensures r.table == t
    ensures !storeUp ==> r.out == Reply(500, MsgServerError)
    ensures storeUp ==> r.out == (if TokenAccepted(t, token, now) then Reply(200, MsgTokenValid)
                                  else Reply(400, MsgInvalidToken))
  {
    if !storeUp then Step(t, Reply(500, MsgServerError))
    else match FirstIndex(t.rows, (u: User) => Live(u, token, now))
      case None => Step(t, Reply(400, MsgInvalidToken))
      case Some(_) => Step(t, Reply(200, MsgTokenValid))
  }

  /** `resetPassword`: refused with 400, and nothing written, unless the
      token is accepted at `now`. Otherwise every row holding the token,
      expired or not, gets the new password's digest and loses its reset
      token and expiry; no other field or row changes. */
  function ResetPassword(t: Table, token: Option<string>, password: string, now: int, storeUp: bool): (r: Step<Reply>)
    ensures !storeUp ==> r == Step(t, Reply(500, MsgServerError))
    ensures storeUp && !TokenAccepted(t, token, now) ==> r == Step(t, Reply(400, MsgInvalidToken))
    ensures storeUp && TokenAccepted(t, token, now) ==> r.out == Reply(200, MsgPasswordReset)
    ensures r.table.nextId == t.nextId && r.table.defaults == t.defaults
    ensures |r.table.rows| == |t.rows|
    ensures forall i :: 0 <= i < |t.rows| && r.out.status == 200 && SqlEq(t.rows[i].resetToken, token) ==>
      && r.table.rows[i].password == Some(Hash(password))
      && r.table.rows[i].resetToken.None?
      && r.table.rows[i].resetTokenExpires.None?
      && r.table.rows[i].(password := t.rows[i].password, resetToken := t.rows[i].resetToken,
                          resetTokenExpires := t.rows[i].resetTokenExpires) == t.rows[i]
    ensures forall i :: 0 <= i < |t.rows| && !(r.out.status == 200 && SqlEq(t.rows[i].resetToken, token)) ==>
      r.table.rows[i] == t.rows[i]
    ensures WellFormed(t) ==> WellFormed(r.table)
  {
    if !storeUp then Step(t, Reply(500, MsgServerError))
    else if FirstIndex(t.rows, (u: User) => Live(u, token, now)).None? then
      Step(t, Reply(400, MsgInvalidToken))
    else
      var holds := (u: User) => SqlEq(u.resetToken, token);
      var consume := (u: User) => u.(password := Some(Hash(password)), resetToken := None, resetTokenExpires := None);
      UpdateKeepsWellFormed(t, holds, consume);
      Step(Table(Update(t.rows, holds, consume), t.nextId, t.defaults), Reply(200, MsgPasswordReset))
  }

  /** A token `forgotPassword` has just issued is accepted until its
      expiry and not from then on: exactly when `later` is strictly
      before `now` + 15 minutes, provided no row held the token before. */
  lemma IssuedTokenLivesFifteenMinutes(t: Table, email: string, token: string, now: int, mailSent: bool, later: int)
    requires exists i :: 0 <= i < |t.rows| && t.rows[i].email == email
    requires TokenUnused(t, token)
    ensures var t1 := ForgotPassword(t, email, token, now, true, mailSent).table;
      ValidateToken(t1, Some(token), later, true).out.status == 200 <==> later < now + ResetTtl
  {
  }

  /** A second `forgotPassword` for the same email overwrites the first
      token, so the first is refused at any time afterwards. */
  lemma NewRequestRevokesOldToken(t: Table, email: string, first: string, second: string,
                                  now1: int, now2: int, later: int, mail1: bool, mail2: bool)
    requires TokenUnused(t, first)
    requires first != second
    ensures var t1 := ForgotPassword(t, email, first, now1, true, mail1).table;
      var t2 := ForgotPassword(t1, email, second, now2, true, mail2).table;
      ValidateToken(t2, Some(first), later, true).out.status == 400
  {
    var t1 := ForgotPassword(t, email, first, now1, true, mail1).table;
    var t2 := ForgotPassword(t1, email, second, now2, true, mail2).table;
    forall j | 0 <= j < |t2.rows|
      ensures !Live(t2.rows[j], Some(first), later)
    {
      if t1.rows[j].email == email {
        assert t2.rows[j].resetToken == Some(second);
      } else {
        assert t2.rows[j] == t1.rows[j];
        assert t.rows[j].email != email;
        assert t1.rows[j] == t.rows[j];
      }
    }
  }

  /** A reset token works once: after a successful reset, validating the
      same token fails and a second reset with it is refused without
      writing anything, whatever the clock says. */
  lemma ResetTokenSingleUse(t: Table, token: Option<string>, password: string, now: int,
                            later: int, other: string)
    requires ResetPassword(t, token, password, now, true).out.status == 200
    ensures var t1 := ResetPassword(t, token, password, now, true).table;
      && ValidateToken(t1, token, later, true).out == Reply(400, MsgInvalidToken)
      && ResetPassword(t1, token, other, later, true) == Step(t1, Reply(400, MsgInvalidToken))
  {
    var t1 := ResetPassword(t, token, password, now, true).table;
    forall j | 0 <= j < |t1.rows|
      ensures !Live(t1.rows[j], token, later)
    {
      if !SqlEq(t.rows[j].resetToken, token) {
        assert t1.rows[j] == t.rows[j];
      }
    }
  }

  /** `forgotPassword`, then `resetPassword` with the issued token inside
      the 15-minute window: every row with the email, and only those,
      now holds the new password's digest and no reset token, and no
      email, `estado` or `verificado` changes. */
  lemma RequestThenReset(t: Table, email: string, token: string, now: int, mailSent: bool,
                         later: int, password: string)
    requires exists i :: 0 <= i < |t.rows| && t.rows[i].email == email
    requires TokenUnused(t, token)
    requires later < now + ResetTtl
    ensures var t1 := ForgotPassword(t, email, token, now, true, mailSent).table;
      var r := ResetPassword(t1, Some(token), password, later, true);
      && r.out == Reply(200, MsgPasswordReset)
      && |r.table.rows| == |t.rows|
      && (forall i :: 0 <= i < |t.rows| ==> r.table.rows[i].email == t.rows[i].email)
      && (forall i :: 0 <= i < |t.rows| && t.rows[i].email == email ==>
            && r.table.rows[i].password == Some(Hash(password))
            && r.table.rows[i].resetToken.None?
            && r.table.rows[i].estado == t.rows[i].estado
            && r.table.rows[i].verificado == t.rows[i].verificado)
      && (forall i :: 0 <= i < |t.rows| && t.rows[i].email != email ==> r.table.rows[i] == t.rows[i])
  {
    var t1 := ForgotPassword(t, email, token, now, true, mailSent).table;
    IssuedTokenLivesFifteenMinutes(t, email, token, now, mailSent, later);
    assert TokenAccepted(t1, Some(token), later);
    var r := ResetPassword(t1, Some(token), password, later, true);
    forall i | 0 <= i < |t.rows|
      ensures r.table.rows[i].email == t.rows[i].email
      ensures t.rows[i].email == email ==>
        && r.table.rows[i].password == Some(Hash(password))
        && r.table.rows[i].resetToken.None?
        && r.table.rows[i].estado == t.rows[i].estado
        && r.table.rows[i].verificado == t.rows[i].verificado
      ensures t.rows[i].email != email ==> r.table.rows[i] == t.rows[i]
    {
      if t.rows[i].email == email {
        assert SqlEq(t1.rows[i].resetToken, Some(token));
      } else {
        assert t1.rows[i] == t.rows[i];
        assert !SqlEq(t1.rows[i].resetToken, Some(token));
      }
    }
  }
}

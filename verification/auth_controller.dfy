/** The alternative register/login controller
    (controllers/authController.js): registration refuses a known
    email, and login checks only that the user exists and the password
    matches before issuing a signed session token. */
module AuthController {
  import opened Crypto
  import opened Store

  /** Lifetime of a session token: `expiresIn: "2h"`, in seconds. */
  const SessionLifetime: int := 2 * 60 * 60

  const MsgDuplicate := "El correo ya está registrado."
  const MsgRegistered := "Registro exitoso. Verifica tu correo electrónico."
  const MsgRegisterError := "Error al registrar usuario."
  const MsgNotFound := "Usuario no encontrado."
  const MsgBadPassword := "Contraseña incorrecta."
  const MsgLoggedIn := "Inicio de sesión exitoso"
  const MsgLoginError := "Error al iniciar sesión."

  /** The payload of the signed token: `id` and `email` of the row, the
      issue time `iat` and the expiry `exp`, both in whole seconds. */
  datatype Claims = Claims(id: nat, email: string, iat: int, exp: int)

  /** Reply of `loginUser`; `token` is present only on success. */
  datatype SessionReply = SessionReply(status: nat, message: string, token: Option<Claims>)

  /** `registerUser`: 400 and no write when a row already has the email;
      otherwise one row holding `nombre`, `email` and the password's
      digest, with every other column left to its default. */
  function RegisterUser(t: Table, nombre: string, email: string, password: string,
                        storeUp: bool, mailSent: bool): (r: Step<Reply>)
    ensures !storeUp ==> r == Step(t, Reply(500, MsgRegisterError))
    ensures storeUp && (exists i :: 0 <= i < |t.rows| && t.rows[i].email == email) ==>
      r == Step(t, Reply(400, MsgDuplicate))
    ensures storeUp && (forall i :: 0 <= i < |t.rows| ==> t.rows[i].email != email) ==>
      && r.out == (if mailSent then Reply(200, MsgRegistered) else Reply(500, MsgRegisterError))
      && |r.table.rows| == |t.rows| + 1
      && r.table.rows[..|t.rows|] == t.rows
      && r.table.nextId == t.nextId + 1
      && r.table.defaults == t.defaults
      && var u := r.table.rows[|t.rows|];
         && u.id == t.nextId && u.nombre == nombre && u.email == email
         && u.password == Some(Hash(password))
         && u.verificado == t.defaults.verificado && u.token.None?
         && u.tipoUsuario == t.defaults.tipoUsuario && u.estado == t.defaults.estado
         && u.resetToken.None? && u.resetTokenExpires.None?
    ensures WellFormed(t) ==> WellFormed(r.table)
    ensures UniqueEmails(t.rows) ==> UniqueEmails(r.table.rows)
  {
    if !storeUp then Step(t, Reply(500, MsgRegisterError))
    else if FirstWithEmail(t.rows, email).Some? then
      Step(t, Reply(400, MsgDuplicate))
    else
      var row := User(t.nextId, nombre, email, Some(Hash(password)), t.defaults.verificado,
                      None, t.defaults.tipoUsuario, t.defaults.estado, None, None);
      Step(Insert(t, row), if mailSent then Reply(200, MsgRegistered) else Reply(500, MsgRegisterError))
  }

  /** `loginUser` at clock `now` (milliseconds). The first row with the
      email decides: missing is 400, a password that does not match is
      400, and a match yields claims for that row that expire two hours
      after they are issued. `estado` and `verificado` are not read, and
      the table is never written. */
  function LoginUser(t: Table, email: string, password: string, now: nat, storeUp: bool): (r: Step<SessionReply>)
    ensures r.table == t
    ensures !storeUp ==> r.out == SessionReply(500, MsgLoginError, None)
    ensures storeUp && (forall i :: 0 <= i < |t.rows| ==> t.rows[i].email != email) ==>
      r.out == SessionReply(400, MsgNotFound, None)
    ensures storeUp ==> var k := FirstWithEmail(t.rows, email);
      k.Some? ==>
        && (t.rows[k.value].password.None? ==> r.out == SessionReply(500, MsgLoginError, None))
        && (t.rows[k.value].password.Some? && !Compare(password, t.rows[k.value].password.value) ==>
              r.out == SessionReply(400, MsgBadPassword, None))
    ensures var k := FirstWithEmail(t.rows, email);
      r.out.token.Some? <==> storeUp && k.Some? && t.rows[k.value].password == Some(Hash(password))
    ensures r.out.token.Some? ==>
      var k := FirstWithEmail(t.rows, email);
      && r.out.status == 200
      && k.Some?
      && r.out.token.value.id == t.rows[k.value].id
      && r.out.token.value.email == t.rows[k.value].email == email
      && r.out.token.value.iat * 1000 <= now < (r.out.token.value.iat + 1) * 1000
      && r.out.token.value.exp == r.out.token.value.iat + SessionLifetime
  {
    if !storeUp then Step(t, SessionReply(500, MsgLoginError, None))
    else match FirstWithEmail(t.rows, email)
      case None => Step(t, SessionReply(400, MsgNotFound, None))
      case Some(k) =>
        var u := t.rows[k];
        if u.password.None? then Step(t, SessionReply(500, MsgLoginError, None))
        else if !Compare(password, u.password.value) then Step(t, SessionReply(400, MsgBadPassword, None))
        else
          var iat := now / 1000;
          Step(t, SessionReply(200, MsgLoggedIn, Some(Claims(u.id, u.email, iat, iat + SessionLifetime))))
  }

  /** `loginUser` ignores `estado` and `verificado`: tables that differ
      only in those columns give the same reply. */
  lemma LoginUserIgnoresStatus(t1: Table, t2: Table, email: string, password: string, now: nat, storeUp: bool)
    requires |t1.rows| == |t2.rows|
    requires forall i :: 0 <= i < |t1.rows| ==>
      t2.rows[i].(estado := t1.rows[i].estado, verificado := t1.rows[i].verificado) == t1.rows[i]
    ensures LoginUser(t1, email, password, now, storeUp).out == LoginUser(t2, email, password, now, storeUp).out
  {
    var p := (u: User) => HasEmail(u, email);
    forall i | 0 <= i < |t1.rows|
      ensures p(t1.rows[i]) == p(t2.rows[i])
    {
      assert t2.rows[i].email == t1.rows[i].email;
    }
    FirstIndexAgrees(t1.rows, t2.rows, p);
  }
}

/** The account handlers of server.js: `/register`, `/verify`, `/login`
    and the `/usuarios` administration endpoints, each a transition of
    the user table.

    `storeUp` is false when the database rejects the handler's first
    query; the handler's `catch` then answers 500 and nothing was
    written. `mailSent` is false when nodemailer rejects after the row
    was already written: the reply is 500 but the write stands. */
module Server {
  import opened Crypto
  import opened Store

  /** `tipo_usuario` when the registration form omits it. */
  const DefaultRole := "Cliente"

  /** The `estado` value that bars a user from logging in. */
  const BlockedStatus := "Bloqueado"

  const MsgNotFound := "Usuario no encontrado"
  const MsgBlocked := "Cuenta bloqueada"
  const MsgUnverified := "Cuenta no verificada"
  const MsgBadPassword := "Contraseña incorrecta"
  const MsgLoggedIn := "Inicio de sesión exitoso"
  const MsgServerError := "Error en el servidor"

  /** The `/register` body; `tipoUsuario` is `None` when the field is absent. */
  datatype RegisterForm = RegisterForm(
    nombre: string,
    email: string,
    password: string,
    tipoUsuario: Option<string>)

  /** What the MySQL driver reports as `affectedRows` for an `UPDATE`:
      the rows its `WHERE` matched, or only the rows whose value changed. */
  datatype RowCounting = CountMatched | CountChanged

  /** The JSON body of a `/login` reply. */
  datatype LoginReply = LoginReply(
    status: nat,
    success: bool,
    message: string,
    tipoUsuario: Option<string>)

  /** A row as `GET /usuarios` lists it: no password and no tokens. */
  datatype PublicUser = PublicUser(
    id: nat,
    nombre: string,
    email: string,
    tipoUsuario: Option<string>,
    estado: Option<string>,
    verificado: Option<int>)

  datatype Listing = Listing(status: nat, users: seq<PublicUser>)

  /** `POST /register`: one new row holding the hashed password, the
      verification token, `verificado = 0` and the role (default
      "Cliente"). No duplicate check is made. */
  function Register(t: Table, form: RegisterForm, token: string, storeUp: bool, mailSent: bool): (r: Step<Reply>)
    ensures !storeUp ==> r.table == t && r.out.status == 500
    ensures storeUp ==> r.out.status == (if mailSent then 200 else 500)
    ensures storeUp ==>
      && |r.table.rows| == |t.rows| + 1
      && r.table.rows[..|t.rows|] == t.rows
      && r.table.nextId == t.nextId + 1
      && r.table.defaults == t.defaults
    ensures storeUp ==>
      var u := r.table.rows[|t.rows|];
      && u.id == t.nextId
      && u.nombre == form.nombre
      && u.email == form.email
      && u.password == Some(Hash(form.password))
      && u.verificado == Some(0)
      && u.token == Some(token)
      && u.tipoUsuario == Some(if form.tipoUsuario.Some? then form.tipoUsuario.value else DefaultRole)
      && u.estado == t.defaults.estado
      && u.resetToken.None?
      && u.resetTokenExpires.None?
    ensures WellFormed(t) ==> WellFormed(r.table)
  {
    if !storeUp then
      Step(t, Reply(500, "Error al registrar usuario"))
    else
      var role := if form.tipoUsuario.Some? then form.tipoUsuario.value else DefaultRole;
      var row := User(t.nextId, form.nombre, form.email, Some(Hash(form.password)),
                      Some(0), Some(token), Some(role), t.defaults.estado, None, None);
      var t' := Insert(t, row);
      if mailSent then
        Step(t', Reply(200, "Registro exitoso. Revisa tu correo para verificar tu cuenta."))
      else
        Step(t', Reply(500, "Error al registrar usuario"))
  }

  /** `GET /verify?token=`: `verificado = 1` on every row holding the
      token and no other change; the token is never cleared. The reply
      is 400 when the driver reports no affected row. */
  function Verify(t: Table, token: Option<string>, counting: RowCounting, storeUp: bool): (r: Step<Reply>)
    ensures r.table.nextId == t.nextId && r.table.defaults == t.defaults
    ensures |r.table.rows| == |t.rows|
    ensures forall i :: 0 <= i < |t.rows| ==>
      r.table.rows[i].(verificado := t.rows[i].verificado) == t.rows[i]
    ensures forall i :: 0 <= i < |t.rows| ==>
      r.table.rows[i].verificado ==
        (if storeUp && SqlEq(t.rows[i].token, token) then Some(1) else t.rows[i].verificado)
    ensures !storeUp ==> r.out.status == 500
    ensures storeUp ==>
      (r.out.status == 200 <==>
        exists i :: 0 <= i < |t.rows| && SqlEq(t.rows[i].token, token) &&
          (counting == CountMatched || t.rows[i].verificado != Some(1)))
    ensures storeUp && r.out.status != 200 ==> r.out.status == 400
    ensures (forall i :: 0 <= i < |t.rows| ==> !SqlEq(t.rows[i].token, token)) ==> r.table == t
    ensures WellFormed(t) ==> WellFormed(r.table)
  {
    if !storeUp then
      Step(t, Reply(500, "Error al verificar usuario"))
    else
      var matches := (u: User) => SqlEq(u.token, token);
      var setVerified := (u: User) => u.(verificado := Some(1));
      var t' := Table(Update(t.rows, matches, setVerified), t.nextId, t.defaults);
      UpdateKeepsWellFormed(t, matches, setVerified);
      var affected :=
        if counting == CountMatched then Count(t.rows, matches)
        else Count(t.rows, (u: User) => matches(u) && u.verificado != Some(1));
      if affected == 0 then
        Step(t', Reply(400, "<h2>❌ Token inválido o ya usado</h2>"))
      else
        Step(t', Reply(200, "<h2>✅ Cuenta verificada correctamente</h2>"))
  }

  /** `POST /login`. The first row with the email decides, checked in a
      fixed order: missing, then `estado = "Bloqueado"` (403), then
      `verificado = 0` (403), then the password (400). The table is
      never written. */
  function Login(t: Table, email: string, password: string, storeUp: bool): (r: Step<LoginReply>)
    ensures r.table == t
    ensures !storeUp ==> r.out == LoginReply(500, false, MsgServerError, None)
    ensures storeUp && (forall i :: 0 <= i < |t.rows| ==> t.rows[i].email != email) ==>
      r.out == LoginReply(400, false, MsgNotFound, None)
    ensures storeUp ==> var k := FirstWithEmail(t.rows, email);
      k.Some? ==>
        var u := t.rows[k.value];
        && (u.estado == Some(BlockedStatus) ==>
              r.out == LoginReply(403, false, MsgBlocked, None))
        && (u.estado != Some(BlockedStatus) && u.verificado == Some(0) ==>
              r.out == LoginReply(403, false, MsgUnverified, None))
        && (u.estado != Some(BlockedStatus) && u.verificado != Some(0) && u.password.None? ==>
              r.out == LoginReply(500, false, MsgServerError, None))
        && (u.estado != Some(BlockedStatus) && u.verificado != Some(0) && u.password.Some? &&
            !Compare(password, u.password.value) ==>
              r.out == LoginReply(400, false, MsgBadPassword, None))
    ensures r.out.success <==>
      && storeUp
      && exists i ::
           && 0 <= i < |t.rows| && t.rows[i].email == email
           && (forall j :: 0 <= j < i ==> t.rows[j].email != email)
           && t.rows[i].estado != Some(BlockedStatus) && t.rows[i].verificado != Some(0)
           && t.rows[i].password == Some(Hash(password))
    ensures r.out.success ==>
      && r.out.status == 200
      && FirstWithEmail(t.rows, email).Some?
      && r.out.tipoUsuario == t.rows[FirstWithEmail(t.rows, email).value].tipoUsuario
  {
    if !storeUp then
      Step(t, LoginReply(500, false, MsgServerError, None))
    else match FirstWithEmail(t.rows, email)
      case None => Step(t, LoginReply(400, false, MsgNotFound, None))
      case Some(k) =>
        var u := t.rows[k];
        if u.estado == Some(BlockedStatus) then Step(t, LoginReply(403, false, MsgBlocked, None))
        else if u.verificado == Some(0) then Step(t, LoginReply(403, false, MsgUnverified, None))
        else if u.password.None? then Step(t, LoginReply(500, false, MsgServerError, None))
        else if !Compare(password, u.password.value) then Step(t, LoginReply(400, false, MsgBadPassword, None))
        else Step(t, LoginReply(200, true, MsgLoggedIn, u.tipoUsuario))
  }

  /** `GET /usuarios`: every row, in table order, without its password
      or tokens. */
  function ListUsers(t: Table, storeUp: bool): (r: Step<Listing>)
    ensures r.table == t
    ensures !storeUp ==> r.out.status == 500 && r.out.users == []
    ensures storeUp ==> r.out.status == 200 && |r.out.users| == |t.rows|
    ensures storeUp ==> forall i :: 0 <= i < |t.rows| ==>
      var u, v := t.rows[i], r.out.users[i];
      v.id == u.id && v.nombre == u.nombre && v.email == u.email &&
      v.tipoUsuario == u.tipoUsuario && v.estado == u.estado && v.verificado == u.verificado
  {
    if !storeUp then Step(t, Listing(500, []))
    else Step(t, Listing(200, seq(|t.rows|, i requires 0 <= i < |t.rows| =>
      var u := t.rows[i];
      PublicUser(u.id, u.nombre, u.email, u.tipoUsuario, u.estado, u.verificado))))
  }

  /** `PUT /usuarios/:id/rol`: only `tipo_usuario` of the rows with that
      id changes. Success is reported whether or not such a row exists. */
  function UpdateRole(t: Table, id: nat, role: string, storeUp: bool): (r: Step<Reply>)
    ensures r.out.status == (if storeUp then 200 else 500)
    ensures r.table.nextId == t.nextId && r.table.defaults == t.defaults
    ensures |r.table.rows| == |t.rows|
    ensures forall i :: 0 <= i < |t.rows| ==>
      r.table.rows[i].(tipoUsuario := t.rows[i].tipoUsuario) == t.rows[i]
    ensures forall i :: 0 <= i < |t.rows| ==>
      r.table.rows[i].tipoUsuario == (if storeUp && t.rows[i].id == id then Some(role) else t.rows[i].tipoUsuario)
    ensures WellFormed(t) ==> WellFormed(r.table)
  {
    if !storeUp then Step(t, Reply(500, "Error al actualizar rol"))
    else
      var matches := (u: User) => u.id == id;
      var setRole := (u: User) => u.(tipoUsuario := Some(role));
      UpdateKeepsWellFormed(t, matches, setRole);
      Step(Table(Update(t.rows, matches, setRole), t.nextId, t.defaults),
           Reply(200, "Rol actualizado correctamente"))
  }

  /** `PUT /usuarios/:id/estado`: only `estado` of the rows with that id
      changes. Success is reported whether or not such a row exists. */
  function UpdateStatus(t: Table, id: nat, estado: string, storeUp: bool): (r: Step<Reply>)
    ensures r.out.status == (if storeUp then 200 else 500)
    ensures r.table.nextId == t.nextId && r.table.defaults == t.defaults
    ensures |r.table.rows| == |t.rows|
    ensures forall i :: 0 <= i < |t.rows| ==>
      r.table.rows[i].(estado := t.rows[i].estado) == t.rows[i]
    ensures forall i :: 0 <= i < |t.rows| ==>
      r.table.rows[i].estado == (if storeUp && t.rows[i].id == id then Some(estado) else t.rows[i].estado)
    ensures WellFormed(t) ==> WellFormed(r.table)
  {
    if !storeUp then Step(t, Reply(500, "Error al actualizar estado"))
    else
      var matches := (u: User) => u.id == id;
      var setStatus := (u: User) => u.(estado := Some(estado));
      UpdateKeepsWellFormed(t, matches, setStatus);
      Step(Table(Update(t.rows, matches, setStatus), t.nextId, t.defaults),
           Reply(200, "Estado actualizado correctamente"))
  }

  /** `DELETE /usuarios/:id`: exactly the rows with that id disappear.
      Success is reported whether or not such a row exists. */
  function DeleteUser(t: Table, id: nat, storeUp: bool): (r: Step<Reply>)
    ensures r.out.status == (if storeUp then 200 else 500)
    ensures !storeUp ==> r.table == t
    ensures r.table.nextId == t.nextId && r.table.defaults == t.defaults
    ensures forall u :: u in r.table.rows <==> u in t.rows && !(storeUp && u.id == id)
    ensures storeUp ==> |r.table.rows| == |t.rows| - Count(t.rows, (u: User) => u.id == id)
    ensures (forall i :: 0 <= i < |t.rows| ==> t.rows[i].id != id) ==> r.table == t
    ensures WellFormed(t) ==> WellFormed(r.table)
  {
    if !storeUp then Step(t, Reply(500, "Error al eliminar usuario"))
    else
      var matches := (u: User) => u.id == id;
      RemoveKeepsWellFormed(t, matches);
      RemoveCount(t.rows, matches);
      Step(Table(Remove(t.rows, matches), t.nextId, t.defaults),
           Reply(200, "Usuario eliminado correctamente"))
  }

  /** Verifying again with the same token writes nothing new. */
  lemma VerifyIdempotent(t: Table, token: Option<string>, counting: RowCounting, storeUp: bool)
    ensures var t1 := Verify(t, token, counting, storeUp).table;
      Verify(t1, token, counting, storeUp).table == t1
  {
  }

  /** Whether a second `/verify` with a token that already worked is
      refused depends on the driver alone: it is refused when the driver
      counts changed rows and accepted when it counts matched rows. */
  lemma SecondVerifyDependsOnRowCounting(t: Table, token: Option<string>, counting: RowCounting)
    requires Verify(t, token, counting, true).out.status == 200
    ensures var t1 := Verify(t, token, counting, true).table;
      Verify(t1, token, counting, true).out.status == (if counting == CountChanged then 400 else 200)
  {
    var t1 := Verify(t, token, counting, true).table;
    if counting == CountMatched {
      var i :| 0 <= i < |t.rows| && SqlEq(t.rows[i].token, token);
      assert t1.rows[i].token == t.rows[i].token;
    } else {
      forall j | 0 <= j < |t1.rows| && SqlEq(t1.rows[j].token, token)
        ensures t1.rows[j].verificado == Some(1)
      {
        assert t1.rows[j].token == t.rows[j].token;
      }
    }
  }

  /** `/register` makes no duplicate check: the number of rows with the
      email grows by exactly one, however many there were. */
  lemma RegisterAddsOneRowPerCall(t: Table, form: RegisterForm, token: string, mailSent: bool)
    ensures var t1 := Register(t, form, token, true, mailSent).table;
      Count(t1.rows, (u: User) => HasEmail(u, form.email)) ==
      Count(t.rows, (u: User) => HasEmail(u, form.email)) + 1
  {
  }

  /** Deleting any user other than the one `/login` reads first for an
      email leaves that login's reply unchanged: the surviving rows keep
      their order. */
  lemma DeleteOtherUserKeepsLogin(t: Table, id: nat, email: string, password: string)
    requires FirstWithEmail(t.rows, email).None? || t.rows[FirstWithEmail(t.rows, email).value].id != id
    ensures Login(DeleteUser(t, id, true).table, email, password, true).out ==
            Login(t, email, password, true).out
  {
    var k := FirstWithEmail(t.rows, email);
    if k.Some? {
      RemoveKeepsFirst(t.rows, (u: User) => u.id == id, (u: User) => HasEmail(u, email), k.value);
    }
  }

  /** After `DELETE /usuarios/:id` no row has that id, and every row with
      another id is still there. */
  lemma DeleteUserRemovesOnlyThatId(t: Table, id: nat)
    ensures var t1 := DeleteUser(t, id, true).table;
      && (forall i :: 0 <= i < |t1.rows| ==> t1.rows[i].id != id)
      && (forall i :: 0 <= i < |t.rows| && t.rows[i].id != id ==> t.rows[i] in t1.rows)
  {
  }
}

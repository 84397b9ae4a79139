/** The `usuarios` table as the handlers see it, and the row-level
    operations their SQL statements perform.

    A table is the sequence of its rows in insertion order (a `SELECT`
    that reads `rows[0]` gets the first matching row in this order), the
    next auto-increment id, and the values the database gives
    `verificado`, `tipo_usuario` and `estado` when an `INSERT` leaves
    them out. The schema itself is not part of the repository, so those
    three defaults are a parameter of the table rather than constants;
    every other column an `INSERT` leaves out is NULL. */
module Store {
  import opened Crypto

  datatype Option<T> = None | Some(value: T)

  /** One row of `usuarios`. Nullable columns are `Option`s. */
  datatype User = User(
    id: nat,
    nombre: string,
    email: string,
    password: Option<Digest>,
    verificado: Option<int>,
    token: Option<string>,
    tipoUsuario: Option<string>,
    estado: Option<string>,
    resetToken: Option<string>,
    resetTokenExpires: Option<int>)

  /** Values the database supplies for columns an `INSERT` omits. */
  datatype Defaults = Defaults(
    verificado: Option<int>,
    tipoUsuario: Option<string>,
    estado: Option<string>)

  datatype Table = Table(rows: seq<User>, nextId: nat, defaults: Defaults)

  /** A transition: the table after a handler ran, and what it answered. */
  datatype Step<O> = Step(table: Table, out: O)

  /** HTTP status and message of a handler's reply. */
  datatype Reply = Reply(status: nat, message: string)

  /** SQL `column = ?`: a missing parameter binds as NULL, and NULL
      equals nothing, so only a present, equal value matches. */
  predicate SqlEq<T(==)>(column: Option<T>, param: Option<T>)
  {
    param.Some? && column == param
  }

  predicate HasEmail(u: User, email: string)
  {
    u.email == email
  }

  /** Row ids are distinct. */
  ghost predicate UniqueIds(rows: seq<User>)
  {
    forall i, j :: 0 <= i < j < |rows| ==> rows[i].id != rows[j].id
  }

  /** Every row id was handed out by the auto-increment counter already. */
  ghost predicate IdsBelow(rows: seq<User>, bound: nat)
  {
    forall i :: 0 <= i < |rows| ==> rows[i].id < bound
  }

  /** The invariant every handler keeps: ids are distinct and below `nextId`. */
  ghost predicate WellFormed(t: Table)
  {
    UniqueIds(t.rows) && IdsBelow(t.rows, t.nextId)
  }

  /** No two rows share an email. Only some handlers keep this. */
  ghost predicate UniqueEmails(rows: seq<User>)
  {
    forall i, j :: 0 <= i < j < |rows| ==> rows[i].email != rows[j].email
  }

  /** The index of the first row satisfying `p`, as `rows[0]` after a
      `SELECT ... WHERE` picks it. */
  function FirstIndex(rows: seq<User>, p: User -> bool): (r: Option<nat>)
    ensures r.Some? ==> r.value < |rows| && p(rows[r.value])
    ensures r.Some? ==> forall j :: 0 <= j < r.value ==> !p(rows[j])
    ensures r.None? <==> forall j :: 0 <= j < |rows| ==> !p(rows[j])
  {
    if |rows| == 0 then None
    else if p(rows[0]) then Some(0)
    else match FirstIndex(rows[1..], p)
      case None => None
      case Some(i) => Some(i + 1)
  }

  /** Index of the row `SELECT * FROM usuarios WHERE email = ?` puts first. */
  function FirstWithEmail(rows: seq<User>, email: string): (r: Option<nat>)
  {
    FirstIndex(rows, (u: User) => HasEmail(u, email))
  }

  /** `UPDATE ... SET f WHERE p`: every matching row is rewritten by `f`,
      every other row is left as it was, and the order is kept. */
  function Update(rows: seq<User>, p: User -> bool, f: User -> User): (r: seq<User>)
    ensures |r| == |rows|
    ensures forall i :: 0 <= i < |rows| && p(rows[i]) ==> r[i] == f(rows[i])
    ensures forall i :: 0 <= i < |rows| && !p(rows[i]) ==> r[i] == rows[i]
  {
    if |rows| == 0 then []
    else [if p(rows[0]) then f(rows[0]) else rows[0]] + Update(rows[1..], p, f)
  }

  /** `DELETE ... WHERE p`: exactly the non-matching rows survive, in
      their order (see `RemoveAppend` and `RemoveKeepsFirst`). */
  function Remove(rows: seq<User>, p: User -> bool): (r: seq<User>)
    ensures |r| <= |rows|
    ensures forall u :: u in r <==> u in rows && !p(u)
    ensures (forall i :: 0 <= i < |rows| ==> !p(rows[i])) ==> r == rows
  {
    if |rows| == 0 then []
    else if p(rows[0]) then Remove(rows[1..], p)
    else [rows[0]] + Remove(rows[1..], p)
  }

  /** Number of rows satisfying `p`. */
  function Count(rows: seq<User>, p: User -> bool): (n: nat)
    ensures n <= |rows|
    ensures n == 0 <==> forall i :: 0 <= i < |rows| ==> !p(rows[i])
  {
    if |rows| == 0 then 0
    else Count(rows[..|rows| - 1], p) + (if p(rows[|rows| - 1]) then 1 else 0)
  }

  /** `INSERT`: the row is appended under the next auto-increment id. */
  function Insert(t: Table, u: User): (r: Table)
    requires u.id == t.nextId
    ensures |r.rows| == |t.rows| + 1 && r.rows[..|t.rows|] == t.rows && r.rows[|t.rows|] == u
    ensures r.nextId == t.nextId + 1 && r.defaults == t.defaults
    ensures WellFormed(t) ==> WellFormed(r)
  {
    Table(t.rows + [u], t.nextId + 1, t.defaults)
  }

  /** An update that never touches `id` keeps the table well formed. */
  lemma UpdateKeepsWellFormed(t: Table, p: User -> bool, f: User -> User)
    requires forall u :: f(u).id == u.id
    ensures WellFormed(t) ==> WellFormed(Table(Update(t.rows, p, f), t.nextId, t.defaults))
  {
  }

  /** Deleting rows keeps ids distinct and below `nextId`. */
  lemma {:induction false} RemoveKeepsIds(rows: seq<User>, p: User -> bool, bound: nat)
    requires UniqueIds(rows) && IdsBelow(rows, bound)
    ensures UniqueIds(Remove(rows, p)) && IdsBelow(Remove(rows, p), bound)
    decreases |rows|
  {
    if |rows| > 0 {
      var tail := rows[1..];
      assert UniqueIds(tail) && IdsBelow(tail, bound) by {
        forall i, j | 0 <= i < j < |tail|
          ensures tail[i].id != tail[j].id
        {
          assert tail[i] == rows[i + 1] && tail[j] == rows[j + 1];
        }
      }
      RemoveKeepsIds(tail, p, bound);
      var rest := Remove(tail, p);
      if !p(rows[0]) {
        var r := [rows[0]] + rest;
        forall j | 0 < j < |r|
          ensures r[0].id != r[j].id
        {
          assert r[j] in rest;
          assert r[j] in tail;
          var k :| 0 <= k < |tail| && tail[k] == r[j];
          assert rows[k + 1] == r[j];
        }
        forall i, j | 0 <= i < j < |r|
          ensures r[i].id != r[j].id
        {
          if i > 0 {
            assert r[i] == rest[i - 1] && r[j] == rest[j - 1];
          }
        }
      }
    }
  }

  /** `DELETE` works segment by segment, so the surviving rows keep
      their relative order. */
  lemma {:induction false} RemoveAppend(a: seq<User>, b: seq<User>, p: User -> bool)
    ensures Remove(a + b, p) == Remove(a, p) + Remove(b, p)
    decreases |a|
  {
    if |a| == 0 {
      assert a + b == b;
    } else {
      assert (a + b)[1..] == a[1..] + b;
      RemoveAppend(a[1..], b, p);
    }
  }

  /** Counting from the front: the first row adds one when it matches. */
  lemma {:induction false} CountCons(x: User, rows: seq<User>, p: User -> bool)
    ensures Count([x] + rows, p) == (if p(x) then 1 else 0) + Count(rows, p)
    decreases |rows|
  {
    if |rows| > 0 {
      var s := [x] + rows;
      assert s[..|s| - 1] == [x] + rows[..|rows| - 1];
      CountCons(x, rows[..|rows| - 1], p);
    }
  }

  /** `DELETE` drops exactly as many rows as match. */
  lemma {:induction false} RemoveCount(rows: seq<User>, p: User -> bool)
    ensures |Remove(rows, p)| == |rows| - Count(rows, p)
    decreases |rows|
  {
    if |rows| > 0 {
      assert rows == [rows[0]] + rows[1..];
      CountCons(rows[0], rows[1..], p);
      RemoveCount(rows[1..], p);
    }
  }

  /** A row that is the first match of `q` and survives the `DELETE` is
      still the first match of `q` afterwards. */
  lemma {:induction false} RemoveKeepsFirst(rows: seq<User>, p: User -> bool, q: User -> bool, k: nat)
    requires FirstIndex(rows, q) == Some(k)
    requires !p(rows[k])
    ensures var r := Remove(rows, p);
      FirstIndex(r, q).Some? && r[FirstIndex(r, q).value] == rows[k]
    decreases |rows|
  {
    var tail := rows[1..];
    if k == 0 {
      assert Remove(rows, p) == [rows[0]] + Remove(tail, p);
    } else {
      assert !q(rows[0]) && FirstIndex(tail, q) == Some(k - 1);
      RemoveKeepsFirst(tail, p, q, k - 1);
      var rest := Remove(tail, p);
      var j := FirstIndex(rest, q).value;
      if !p(rows[0]) {
        var r := [rows[0]] + rest;
        assert Remove(rows, p) == r;
        assert r[1..] == rest;
        assert FirstIndex(r, q) == Some(j + 1);
      }
    }
  }

  /** Deleting rows keeps the table well formed. */
  lemma RemoveKeepsWellFormed(t: Table, p: User -> bool)
    ensures WellFormed(t) ==> WellFormed(Table(Remove(t.rows, p), t.nextId, t.defaults))
  {
    if WellFormed(t) {
      RemoveKeepsIds(t.rows, p, t.nextId);
    }
  }

  /** Two tables whose rows agree on `p` row by row pick the same first
      row: a `SELECT` on `p` cannot tell them apart. */
  lemma FirstIndexAgrees(rows1: seq<User>, rows2: seq<User>, p: User -> bool)
    requires |rows1| == |rows2|
    requires forall i :: 0 <= i < |rows1| ==> p(rows1[i]) == p(rows2[i])
    ensures FirstIndex(rows1, p) == FirstIndex(rows2, p)
  {
  }
}

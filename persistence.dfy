/** The `users` table behind `UserRepository` (repository/UserRepository.java):
    the rows as value snapshots, the derived queries the service uses, and `save`. */
module Persistence {
  import opened Wrappers
  import opened UserModel

  /** Ids identify rows: no two rows share one. */
  ghost predicate UniqueIds(rows: seq<UserRow>) {
    forall i, j :: 0 <= i < j < |rows| ==> rows[i].id != rows[j].id
  }

  /** The position of the first row that satisfies `p`: the scan of a derived
      query, which returns the first match in table order. */
  function IndexWhere(rows: seq<UserRow>, p: UserRow -> bool): (r: Option<nat>)
    ensures r.Some? ==> r.value < |rows| && p(rows[r.value])
    ensures r.Some? ==> forall j :: 0 <= j < r.value ==> !p(rows[j])
    ensures r.None? ==> forall j :: 0 <= j < |rows| ==> !p(rows[j])
  {
    if |rows| == 0 then None
    else if p(rows[0]) then Some(0)
    else match IndexWhere(rows[1..], p)
      case None => None
      case Some(k) => Some(k + 1)
  }

  /** The position of the first row with the given id. */
  function IndexById(rows: seq<UserRow>, id: int): Option<nat> {
    IndexWhere(rows, (u: UserRow) => u.id == id)
  }

  /** `findByEmail(email)`: the position of the first row with that e-mail. */
  function IndexByEmail(rows: seq<UserRow>, email: string): Option<nat> {
    IndexWhere(rows, (u: UserRow) => u.email == email)
  }

  /** `findByResetPasswordToken(token)`: the position of the first row whose
      reset token is `token`. */
  function IndexByToken(rows: seq<UserRow>, token: string): Option<nat> {
    IndexWhere(rows, (u: UserRow) => u.resetPasswordToken == Some(token))
  }

  /** The table after `save(user)` of an entity whose fields are `row`: the row
      with the same id is overwritten, or the row is added. */
  function Saved(rows: seq<UserRow>, row: UserRow): seq<UserRow> {
    match IndexById(rows, row.id)
    case Some(i) => rows[i := row]
    case None => rows + [row]
  }

  /** With unique ids, a row is found by its own id. */
  lemma IndexByIdOfRow(rows: seq<UserRow>, i: nat)
    requires UniqueIds(rows) && i < |rows|
    ensures IndexById(rows, rows[i].id) == Some(i)
  {
  }

  /** Saving keeps ids unique, stores `row` under its id, and changes no other row. */
  lemma SavedSpec(rows: seq<UserRow>, row: UserRow)
    requires UniqueIds(rows)
    ensures UniqueIds(Saved(rows, row))
    ensures IndexById(Saved(rows, row), row.id).Some?
    ensures Saved(rows, row)[IndexById(Saved(rows, row), row.id).value] == row
    ensures forall j :: 0 <= j < |rows| && rows[j].id != row.id ==> Saved(rows, row)[j] == rows[j]
    ensures |rows| <= |Saved(rows, row)| <= |rows| + 1
  {
    var s := Saved(rows, row);
    match IndexById(rows, row.id)
    case Some(i) =>
      IndexByIdOfRow(s, i);
    case None =>
      IndexByIdOfRow(s, |rows|);
  }

  /** Saving the entity of stored row `i` back writes position `i` and nothing else. */
  lemma SavedAt(rows: seq<UserRow>, i: nat, row: UserRow)
    requires UniqueIds(rows) && i < |rows| && row.id == rows[i].id
    ensures Saved(rows, row) == rows[i := row]
  {
    IndexByIdOfRow(rows, i);
  }

  /** Once a row is saved without a reset token, no token lookup yields a row
      with that row's id. */
  lemma TokenLookupMissesClearedRow(rows: seq<UserRow>, row: UserRow, token: string)
    requires UniqueIds(rows) && row.resetPasswordToken == None
    ensures IndexByToken(Saved(rows, row), token).Some? ==>
              Saved(rows, row)[IndexByToken(Saved(rows, row), token).value].id != row.id
  {
    var s := Saved(rows, row);
    SavedSpec(rows, row);
    var k := IndexById(s, row.id).value;
    var found := IndexByToken(s, token);
    if found.Some? {
      var j := found.value;
      assert s[j].resetPasswordToken != s[k].resetPasswordToken;
      assert j != k;
    }
  }

  /** The repository; `rows` is the persisted state of the `users` table. */
  class UserRepository {
    var rows: seq<UserRow>

    ghost predicate Valid()
      reads this
    {
      UniqueIds(rows)
    }

    constructor (initial: seq<UserRow>)
      requires UniqueIds(initial)
      ensures Valid() && rows == initial
    {
      rows := initial;
    }

    /** `save(user)`: persists the entity's current field values. */
    method Save(u: UserModel.User)
      requires Valid()
      modifies this
      ensures Valid()
      ensures rows == Saved(old(rows), u.Row())
    {
      SavedSpec(rows, u.Row());
      rows := Saved(rows, u.Row());
    }

    /** The rollback of a transaction that began when the table was `committed`:
        the changes made since are discarded. */
    method RollBack(committed: seq<UserRow>)
      requires UniqueIds(committed)
      modifies this
      ensures Valid()
      ensures rows == committed
    {
      rows := committed;
    }

    /** `findByEmail(email)`: a fresh entity built from the first matching row. */
    method FindByEmail(email: string) returns (r: Option<UserModel.User>)
      ensures r.Some? <==> IndexByEmail(rows, email).Some?
      ensures r.Some? ==> fresh(r.value) && r.value.Row() == rows[IndexByEmail(rows, email).value]
    {
      var found := IndexByEmail(rows, email);
      if found.None? {
        r := None;
      } else {
        var u := new UserModel.User.FromRow(rows[found.value]);
        r := Some(u);
      }
    }

    /** `findByResetPasswordToken(token)`, likewise. */
    method FindByResetPasswordToken(token: string) returns (r: Option<UserModel.User>)
      ensures r.Some? <==> IndexByToken(rows, token).Some?
      ensures r.Some? ==> fresh(r.value) && r.value.Row() == rows[IndexByToken(rows, token).value]
    {
      var found := IndexByToken(rows, token);
      if found.None? {
        r := None;
      } else {
        var u := new UserModel.User.FromRow(rows[found.value]);
        r := Some(u);
      }
    }
  }
}

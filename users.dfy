/** The `users` table and the POST /login upsert of routes/users.js. */
module Users {
  import opened Common

  /** A row of `users`. `id` is the serial surrogate key, `lineUserId` the
      external identity, unique across rows. */
  datatype User = User(
    id: int,
    lineUserId: string,
    displayName: Option<string>,
    pictureUrl: Option<string>,
    createdAt: int,
    updatedAt: int)

  /** `SELECT ... FROM users WHERE line_user_id = $1`: the index of the first
      row with that identity. A NULL parameter matches no row. */
  function FindUser(rows: seq<User>, lineUserId: Option<string>): (r: Option<nat>)
    ensures r.Some? ==> r.value < |rows| && lineUserId == Some(rows[r.value].lineUserId)
    ensures r.Some? ==> forall j | 0 <= j < r.value :: lineUserId != Some(rows[j].lineUserId)
    ensures r.None? ==> forall j | 0 <= j < |rows| :: lineUserId != Some(rows[j].lineUserId)
  {
    if rows == [] then None
    else if lineUserId == Some(rows[0].lineUserId) then Some(0)
    else match FindUser(rows[1..], lineUserId)
      case None => None
      case Some(k) => Some(k + 1)
  }

  /** `JOIN users u ON c.user_id = u.id`: the index of the row with that id. */
  function UserById(rows: seq<User>, id: int): (r: Option<nat>)
    ensures r.Some? ==> r.value < |rows| && rows[r.value].id == id
    ensures r.None? ==> forall j | 0 <= j < |rows| :: rows[j].id != id
  {
    IndexOf(rows, (u: User) => u.id, id)
  }

  /** At most one row per external identity: the unique constraint that the
      upsert's ON CONFLICT clause relies on. */
  ghost predicate LineIdsUnique(rows: seq<User>) {
    forall i, j | 0 <= i < j < |rows| :: rows[i].lineUserId != rows[j].lineUserId
  }

  /** The table invariant: unique identities, none of them empty (login
      refuses those), and serial ids that increase in insertion order and stay
      below the next value of the sequence. */
  ghost predicate UsersValid(rows: seq<User>, nextId: int) {
    && LineIdsUnique(rows)
    && (forall i | 0 <= i < |rows| :: rows[i].lineUserId != "")
    && (forall i, j | 0 <= i < j < |rows| :: rows[i].id < rows[j].id)
    && (forall i | 0 <= i < |rows| :: rows[i].id < nextId)
  }

  /** The table after `INSERT ... ON CONFLICT (line_user_id) DO UPDATE`: an
      unseen identity gets a new row at the end with id `nextId`; a seen one
      has its names, picture and `updated_at` overwritten in place, keeping
      its id and `created_at`. No other row changes. */
  function Upserted(rows: seq<User>, nextId: int, lineUserId: string, displayName: Option<string>,
                    pictureUrl: Option<string>, now: int): (r: seq<User>)
    ensures FindUser(rows, Some(lineUserId)).None? ==>
      |r| == |rows| + 1 && r[..|rows|] == rows
      && r[|rows|] == User(nextId, lineUserId, displayName, pictureUrl, now, now)
    ensures FindUser(rows, Some(lineUserId)).Some? ==>
      var i := FindUser(rows, Some(lineUserId)).value;
      && |r| == |rows|
      && r[i] == rows[i].(displayName := displayName, pictureUrl := pictureUrl, updatedAt := now)
    ensures forall j | 0 <= j < |rows| && rows[j].lineUserId != lineUserId :: r[j] == rows[j]
    ensures FindUser(r, Some(lineUserId)).Some?
    ensures var k := FindUser(r, Some(lineUserId)).value;
      r[k].displayName == displayName && r[k].pictureUrl == pictureUrl && r[k].updatedAt == now
  {
    match FindUser(rows, Some(lineUserId))
    case None =>
      var r := rows + [User(nextId, lineUserId, displayName, pictureUrl, now, now)];
      assert r[..|rows|] == rows;
      r
    case Some(i) =>
      rows[i := rows[i].(displayName := displayName, pictureUrl := pictureUrl, updatedAt := now)]
  }

  /** Appending a row with a new identity and the next id keeps the invariant. */
  lemma AppendUserKeepsValid(rows: seq<User>, nextId: int, u: User)
    requires UsersValid(rows, nextId) && u.id == nextId && u.lineUserId != ""
    requires forall j | 0 <= j < |rows| :: rows[j].lineUserId != u.lineUserId
    ensures UsersValid(rows + [u], nextId + 1)
  {
    var r := rows + [u];
    assert forall j | 0 <= j < |rows| :: r[j] == rows[j];
  }

  /** Overwriting a row without touching its id or identity keeps the
      invariant, whatever the sequence does. */
  lemma UpdateUserKeepsValid(rows: seq<User>, nextId: int, k: nat, u: User, nextId': int)
    requires UsersValid(rows, nextId) && k < |rows| && nextId <= nextId'
    requires u.id == rows[k].id && u.lineUserId == rows[k].lineUserId
    ensures UsersValid(rows[k := u], nextId')
  {
    var r := rows[k := u];
    assert forall j | 0 <= j < |rows| :: r[j].lineUserId == rows[j].lineUserId && r[j].id == rows[j].id;
  }

  /** The upsert keeps the table invariant, with the sequence advanced once. */
  lemma UpsertKeepsValid(rows: seq<User>, nextId: int, lineUserId: string, displayName: Option<string>,
                         pictureUrl: Option<string>, now: int)
    requires UsersValid(rows, nextId) && lineUserId != ""
    ensures UsersValid(Upserted(rows, nextId, lineUserId, displayName, pictureUrl, now), nextId + 1)
  {
    match FindUser(rows, Some(lineUserId))
    case None =>
      AppendUserKeepsValid(rows, nextId, User(nextId, lineUserId, displayName, pictureUrl, now, now));
    case Some(k) =>
      UpdateUserKeepsValid(rows, nextId, k,
                           rows[k].(displayName := displayName, pictureUrl := pictureUrl, updatedAt := now), nextId + 1);
  }

  /** Logging in twice with the same identity leaves one row for it: the second
      upsert adds nothing. */
  lemma UpsertTwiceAddsOneRow(rows: seq<User>, nextId: int, lineUserId: string,
                              name1: Option<string>, pic1: Option<string>, t1: int,
                              name2: Option<string>, pic2: Option<string>, t2: int)
    ensures var once := Upserted(rows, nextId, lineUserId, name1, pic1, t1);
      |Upserted(once, nextId + 1, lineUserId, name2, pic2, t2)| == |once|
  {
  }

  /** The `users` table. Rows are kept in insertion order; `nextId` is the
      serial sequence behind `id`. */
  class UserDirectory {
    var rows: seq<User>
    var nextId: int

    ghost predicate Valid()
      reads this
    {
      UsersValid(rows, nextId)
    }

    constructor ()
      ensures Valid() && rows == [] && nextId == 1
    {
      rows := [];
      nextId := 1;
    }

    /** POST /login at time `now`. A missing or empty identity answers 400 and
        changes nothing. Otherwise the row is inserted or updated as in
        `Upserted`, and the answer is that row as it now stands. The sequence
        advances on every upsert, conflicting or not, as a serial column's
        default is drawn before the conflict is detected. */
    method Login(lineUserId: Option<string>, displayName: Option<string>, pictureUrl: Option<string>, now: int)
      returns (r: Result<User>)
      requires Valid()
      modifies this
      ensures Valid()
      ensures !Truthy(lineUserId) ==> r == Err(BadRequest) && rows == old(rows) && nextId == old(nextId)
      ensures Truthy(lineUserId) ==>
        && rows == Upserted(old(rows), old(nextId), lineUserId.value, displayName, pictureUrl, now)
        && nextId == old(nextId) + 1
        && FindUser(rows, lineUserId).Some?
        && r == Ok(rows[FindUser(rows, lineUserId).value])
    {
      if !Truthy(lineUserId) {
        return Err(BadRequest);
      }
      UpsertKeepsValid(rows, nextId, lineUserId.value, displayName, pictureUrl, now);
      rows := Upserted(rows, nextId, lineUserId.value, displayName, pictureUrl, now);
      nextId := nextId + 1;
      r := Ok(rows[FindUser(rows, lineUserId).value]);
    }
  }
}

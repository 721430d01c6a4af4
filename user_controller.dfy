/**
 * `UserController` (Sources/App/Controllers/UserController.swift): list, get,
 * create, update, soft-delete and restore users.
 *
 * The `userID` route parameter arrives as `Option<int>`: Vapor's
 * `parameters.get` yields `nil` for a segment that is not an integer, and
 * `find(nil)` finds nothing. A write that throws outside a `do`/`catch`
 * reaches Vapor's error middleware, which answers 500.
 */
module UserController {
  import opened Http
  import opened Database
  import Users

  /** `User.find(id)`: the row with that id, unless it is soft-deleted. */
  function Find(rows: map<int, Users.User>, id: Option<int>): (found: Option<Users.User>)
    ensures found.Some? <==> id.Some? && id.value in rows && rows[id.value].IsLive()
    ensures found.Some? ==> found.value == rows[id.value]
  {
    if id.Some? && id.value in rows && rows[id.value].IsLive() then Some(rows[id.value]) else None
  }

  /** `findUsers`: the public shape of every live user, each once. */
  method FindUsers(db: Store) returns (r: seq<Users.Public>)
    requires db.Valid()
    ensures forall i :: 0 <= i < |r| ==>
      exists k :: k in db.users.rows && db.users.rows[k].IsLive() && r[i] == Users.ConvertToPublic(db.users.rows[k])
    ensures forall k :: k in db.users.rows && db.users.rows[k].IsLive() ==>
      Users.ConvertToPublic(db.users.rows[k]) in r
    ensures forall i, j :: 0 <= i < j < |r| ==> r[i].id != r[j].id
  {
    var rows := db.users.rows;
    var ids := LiveUserKeys(db.users);
    r := Users.ConvertAllToPublic(RowsAt(rows, ids));
    forall k | k in rows && rows[k].IsLive() ensures Users.ConvertToPublic(rows[k]) in r {
      var i :| 0 <= i < |ids| && ids[i] == k;
      assert r[i] == Users.ConvertToPublic(rows[k]);
    }
  }

  /** `findUser`: 404 unless the id names a live user. */
  method FindUser(db: Store, id: Option<int>) returns (r: Response<Users.Public>)
    ensures r.Ok? <==> Find(db.users.rows, id).Some?
    ensures r.Ok? ==> r.body == Users.ConvertToPublic(Find(db.users.rows, id).value)
    ensures !r.Ok? ==> r == NotFound
  {
    var user := Find(db.users.rows, id);
    if user.None? {
      return NotFound;
    }
    r := Ok(Users.ConvertToPublic(user.value));
  }

  /**
   * `createUser`: 400 on an empty username or on a username any row holds,
   * soft-deleted rows included; otherwise a new user with a generated
   * password is written, and any failure of that write answers 500.
   */
  method CreateUser(db: Store, dto: Users.DTO, draws: seq<int>, now: int, fault: Option<WriteError>)
    returns (r: Response<Users.Public>)
    requires db.Valid()
    requires Users.AreDraws(draws)
    modifies db
    ensures db.Valid()
    ensures db.teams == old(db.teams) && db.games == old(db.games) && db.picks == old(db.picks)
    ensures !Users.Validate(dto) ==> r == BadRequest
    ensures Users.Validate(dto) && UsernameTaken(old(db.users.rows), dto.username) ==> r == BadRequest
    ensures Users.Validate(dto) && !UsernameTaken(old(db.users.rows), dto.username) ==>
      (r.Ok? <==> fault.None? && |dto.username| <= UsernameWidth) && (!r.Ok? ==> r == ServerError)
    ensures forall j, k :: j in db.users.rows && k in db.users.rows && j != k ==>
      db.users.rows[j].username != db.users.rows[k].username
    ensures !r.Ok? ==> db.users == old(db.users)
    ensures r.Ok? ==>
      r.body == Users.Public(Some(old(db.users.next)), dto.username) &&
      db.users == old(db.users).Insert(
        Users.NewUser(dto.username, Users.PasswordFrom(draws), now)
          .(id := Some(old(db.users.next)), created := Some(now), updated := Some(now)))
  {
    if !Users.Validate(dto) {
      return BadRequest;
    }
    if UsernameTaken(db.users.rows, dto.username) {
      return BadRequest;
    }
    var password := Users.RandomPassword(draws);
    var user := Users.NewUser(dto.username, password, now);
    var saved := db.InsertUser(user, now, fault);
    if saved.Failed? {
      return ServerError;
    }
    r := Ok(Users.ConvertToPublic(saved.row));
  }

  /**
   * `updateUser`: only the username can change. 400 on an empty username,
   * 404 unless the id names a live user, 418 when the username is already
   * the user's own, 400 when any other row (soft-deleted ones included)
   * holds it; otherwise the row is saved with the new username.
   */
  method UpdateUser(db: Store, id: Option<int>, dto: Users.DTO, now: int, fault: Option<WriteError>)
    returns (r: Response<Users.Public>)
    requires db.Valid()
    modifies db
    ensures db.Valid()
    ensures db.teams == old(db.teams) && db.games == old(db.games) && db.picks == old(db.picks)
    ensures !Users.Validate(dto) ==> r == BadRequest
    ensures Users.Validate(dto) && Find(old(db.users.rows), id).None? ==> r == NotFound
    ensures Users.Validate(dto) && Find(old(db.users.rows), id).Some? ==>
      var current := Find(old(db.users.rows), id).value.username;
      (dto.username == current ==> r == Teapot) &&
      (dto.username != current && UsernameTaken(old(db.users.rows), dto.username) ==> r == BadRequest) &&
      (dto.username != current && !UsernameTaken(old(db.users.rows), dto.username) ==>
        (r.Ok? <==> fault.None? && |dto.username| <= UsernameWidth) && (!r.Ok? ==> r == ServerError))
    ensures !r.Ok? ==> db.users == old(db.users)
    ensures r.Ok? ==>
      id.Some? && r.body == Users.Public(id, dto.username) &&
      db.users == old(db.users).Replace(id.value,
        old(db.users.rows)[id.value].(username := dto.username, updated := Some(now)))
  {
    var changesDetected := false;
    if !Users.Validate(dto) {
      return BadRequest;
    }
    var found := Find(db.users.rows, id);
    if found.None? {
      return NotFound;
    }
    var user := found.value;
    if dto.username != user.username {
      if UsernameTaken(db.users.rows, dto.username) {
        return BadRequest;
      }
      user := user.(username := dto.username);
      changesDetected := true;
    }
    if !changesDetected {
      return Teapot;
    }
    var saved := db.UpdateUser(id.value, user.(updated := Some(now)), fault);
    if saved.Failed? {
      return ServerError;
    }
    r := Ok(Users.ConvertToPublic(saved.row));
  }

  /**
   * `deleteUser`: 404 unless the id names a live user; otherwise the row
   * stays and only its deletion and update timestamps are set to the
   * current time (Fluent's soft delete saves through `update`), and the
   * answer is 204.
   */
  method DeleteUser(db: Store, id: Option<int>, now: int, fault: Option<WriteError>)
    returns (r: Response<()>)
    requires db.Valid()
    modifies db
    ensures db.Valid()
    ensures db.teams == old(db.teams) && db.games == old(db.games) && db.picks == old(db.picks)
    ensures Find(old(db.users.rows), id).None? ==> r == NotFound
    ensures Find(old(db.users.rows), id).Some? ==>
      (r == NoContent <==> fault.None?) && (r != NoContent ==> r == ServerError)
    ensures r != NoContent ==> db.users == old(db.users)
    ensures r == NoContent ==>
      id.Some? && id.value in db.users.rows && Find(db.users.rows, id).None? &&
      db.users == old(db.users).Replace(id.value, old(db.users.rows)[id.value].(deleted := Some(now), updated := Some(now)))
  {
    var found := Find(db.users.rows, id);
    if found.None? {
      return NotFound;
    }
    var saved := db.UpdateUser(id.value, found.value.(deleted := Some(now), updated := Some(now)), fault);
    if saved.Failed? {
      return ServerError;
    }
    r := NoContent;
  }

  /**
   * `restoreUser`: 404 unless a row with the id exists and is soft-deleted;
   * otherwise its deletion timestamp is cleared, the user can be found
   * again, and the answer is 200.
   */
  method RestoreUser(db: Store, id: int, fault: Option<WriteError>) returns (r: Response<()>)
    requires db.Valid()
    modifies db
    ensures db.Valid()
    ensures db.teams == old(db.teams) && db.games == old(db.games) && db.picks == old(db.picks)
    ensures id !in old(db.users.rows) || old(db.users.rows)[id].IsLive() ==> r == NotFound
    ensures id in old(db.users.rows) && !old(db.users.rows)[id].IsLive() ==>
      (r == Ok(()) <==> fault.None?) && (!r.Ok? ==> r == ServerError)
    ensures !r.Ok? ==> db.users == old(db.users)
    ensures r.Ok? ==>
      Find(db.users.rows, Some(id)) == Some(old(db.users.rows)[id].(deleted := None)) &&
      db.users == old(db.users).Replace(id, old(db.users.rows)[id].(deleted := None))
  {
    if id !in db.users.rows {
      return NotFound;
    }
    var user := db.users.rows[id];
    if user.deleted.None? {
      return NotFound;
    }
    var saved := db.UpdateUser(id, user.(deleted := None), fault);
    if saved.Failed? {
      return ServerError;
    }
    r := Ok(());
  }
}

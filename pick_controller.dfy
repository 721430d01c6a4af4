/**
 * `PickemController` (Sources/App/Controllers/PickemController.swift): list,
 * get and create picks.
 */
module PickController {
  import opened Http
  import opened Database
  import Picks

  /** `findPicks`: every pick, each once. */
  method FindPicks(db: Store) returns (r: seq<Picks.Pick>)
    requires db.Valid()
    ensures forall i :: 0 <= i < |r| ==>
      r[i].id.Some? && r[i].id.value in db.picks.rows && r[i] == db.picks.rows[r[i].id.value]
    ensures forall k :: k in db.picks.rows ==> db.picks.rows[k] in r
    ensures forall i, j :: 0 <= i < j < |r| ==> r[i].id != r[j].id
  {
    var rows := db.picks.rows;
    assert PicksOk(db.picks, db.users.rows, db.games.rows, db.teams.rows);
    assert forall k :: k in rows ==> rows[k].id == Some(k);
    var ids := ScanKeys(db.picks);
    r := RowsAt(rows, ids);
    forall k | k in rows ensures rows[k] in r {
      var i :| 0 <= i < |ids| && ids[i] == k;
      assert r[i] == rows[k];
    }
  }

  /** `findPick`: 404 unless a pick has the id. */
  method FindPick(db: Store, id: Option<int>) returns (r: Response<Picks.Pick>)
    ensures r.Ok? <==> id.Some? && id.value in db.picks.rows
    ensures r.Ok? ==> r.body == db.picks.rows[id.value]
    ensures !r.Ok? ==> r == NotFound
  {
    if id.None? || id.value !in db.picks.rows {
      return NotFound;
    }
    r := Ok(db.picks.rows[id.value]);
  }

  /**
   * `createPick`: the body becomes a pick through `toModel()` and is written
   * with no check of its own: nothing verifies that the user, game or team
   * exist, or that the user has not picked this game already. The database
   * refuses such a row with a `DatabaseError`, which answers 400, as does an
   * injected `DatabaseError`; any other failure answers 500.
   *
   * `Pickem.CreateDTO` has no validation rule (Picks.ValidateCreate), so the
   * validation step never answers 400 for a decoded body and is not repeated here.
   */
  method CreatePick(db: Store, dto: Picks.CreateDTO, now: int, fault: Option<WriteError>)
    returns (r: Response<Picks.Pick>)
    requires db.Valid()
    modifies db
    ensures db.Valid()
    ensures db.users == old(db.users) && db.teams == old(db.teams) && db.games == old(db.games)
    ensures fault == Some(OtherError) ==> r == ServerError
    ensures fault == Some(DatabaseError) ==> r == BadRequest
    ensures fault.None? ==>
      PairHeldByOther(old(db.picks.rows), old(db.picks.next), dto.userID, dto.gameID) ==> r == BadRequest
    ensures fault.None? ==>
      dto.userID !in db.users.rows || dto.gameID !in db.games.rows || dto.teamID !in db.teams.rows ==> r == BadRequest
    ensures r.Ok? <==>
      fault.None? && PickRowFits(old(db.picks.rows), old(db.picks.next), Picks.ToModel(dto),
                                 db.users.rows, db.games.rows, db.teams.rows)
    ensures forall j, k :: j in db.picks.rows && k in db.picks.rows && j != k ==>
      db.picks.rows[j].user != db.picks.rows[k].user || db.picks.rows[j].game != db.picks.rows[k].game
    ensures !r.Ok? ==> db.picks == old(db.picks)
    ensures r.Ok? ==>
      r.body == Picks.ToModel(dto).(id := Some(old(db.picks.next)), created := Some(now), updated := Some(now)) &&
      db.picks == old(db.picks).Insert(r.body)
  {
    var pick := Picks.ToModel(dto);
    var saved := db.InsertPick(pick, now, fault);
    match saved
    case Written(row) => r := Ok(row);
    case Failed(DatabaseError) => r := BadRequest;
    case Failed(OtherError) => r := ServerError;
  }
}

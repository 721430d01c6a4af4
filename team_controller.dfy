/**
 * `TeamController` (Sources/App/Controllers/TeamControlller.swift): list,
 * get and create teams.
 */
module TeamController {
  import opened Http
  import opened Database
  import Teams

  /** `findTeams`: the public shape of every team, each once. */
  method FindTeams(db: Store) returns (r: seq<Teams.Public>)
    requires db.Valid()
    ensures forall i :: 0 <= i < |r| ==>
      exists k :: k in db.teams.rows && r[i] == Teams.ConvertToPublic(db.teams.rows[k])
    ensures forall k :: k in db.teams.rows ==> Teams.ConvertToPublic(db.teams.rows[k]) in r
    ensures forall i, j :: 0 <= i < j < |r| ==> r[i].id != r[j].id
  {
    var rows := db.teams.rows;
    var ids := ScanKeys(db.teams);
    r := Teams.ConvertAllToPublic(RowsAt(rows, ids));
    forall k | k in rows ensures Teams.ConvertToPublic(rows[k]) in r {
      var i :| 0 <= i < |ids| && ids[i] == k;
      assert r[i] == Teams.ConvertToPublic(rows[k]);
    }
  }

  /** `findTeam`: 404 unless a team has the id. */
  method FindTeam(db: Store, id: Option<int>) returns (r: Response<Teams.Public>)
    ensures r.Ok? <==> id.Some? && id.value in db.teams.rows
    ensures r.Ok? ==> r.body == Teams.ConvertToPublic(db.teams.rows[id.value])
    ensures !r.Ok? ==> r == NotFound
  {
    if id.None? || id.value !in db.teams.rows {
      return NotFound;
    }
    r := Ok(Teams.ConvertToPublic(db.teams.rows[id.value]));
  }

  /**
   * `createTeam`: 400 when a field is empty or a team already has the
   * abbreviation; otherwise the team is written. A `DatabaseError` from that
   * write (an over-long column among them) answers 400, any other failure 500.
   */
  method CreateTeam(db: Store, dto: Teams.DTO, now: int, fault: Option<WriteError>)
    returns (r: Response<Teams.Public>)
    requires db.Valid()
    modifies db
    ensures db.Valid()
    ensures db.users == old(db.users) && db.games == old(db.games) && db.picks == old(db.picks)
    ensures !Teams.Validate(dto) ==> r == BadRequest
    ensures Teams.Validate(dto) && AbbrTaken(old(db.teams.rows), dto.abbr) ==> r == BadRequest
    ensures Teams.Validate(dto) && !AbbrTaken(old(db.teams.rows), dto.abbr) ==>
      (fault == Some(OtherError) ==> r == ServerError) &&
      (fault == Some(DatabaseError) ==> r == BadRequest) &&
      (fault.None? ==>
        (r.Ok? <==> |dto.city| <= TeamCityWidth && |dto.name| <= TeamNameWidth && |dto.abbr| <= TeamAbbrWidth) &&
        (!r.Ok? ==> r == BadRequest))
    ensures forall j, k :: j in db.teams.rows && k in db.teams.rows && j != k ==>
      db.teams.rows[j].abbr != db.teams.rows[k].abbr
    ensures !r.Ok? ==> db.teams == old(db.teams)
    ensures r.Ok? ==>
      r.body == Teams.Public(Some(old(db.teams.next)), dto.city, dto.name, dto.abbr) &&
      db.teams == old(db.teams).Insert(
        Teams.NewTeam(dto.city, dto.name, dto.abbr)
          .(id := Some(old(db.teams.next)), created := Some(now), updated := Some(now)))
  {
    if !Teams.Validate(dto) {
      return BadRequest;
    }
    if AbbrTaken(db.teams.rows, dto.abbr) {
      return BadRequest;
    }
    var team := Teams.NewTeam(dto.city, dto.name, dto.abbr);
    var saved := db.InsertTeam(team, now, fault);
    match saved
    case Written(row) => r := Ok(Teams.ConvertToPublic(row));
    case Failed(DatabaseError) => r := BadRequest;
    case Failed(OtherError) => r := ServerError;
  }
}

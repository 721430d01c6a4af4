/**
 * `GameController` (Sources/App/Controllers/GameController.swift): list,
 * get, create and (not yet implemented) search games.
 *
 * Parsing the start time with the "yyyy-MM-dd HH:mm:ss" `DateFormatter` is
 * the function `parse`, which yields `None` on text it cannot read; the
 * current time is `now`.
 */
module GameController {
  import opened Http
  import opened Database
  import Teams
  import Games

  /** A game as the list answers it: with its home and away team rows loaded. */
  datatype GameWithTeams = GameWithTeams(game: Games.Game, home: Teams.Team, away: Teams.Team)

  /**
   * `findGames`: every game, each once, with `.with(\.$homeTeam)` and
   * `.with(\.$awayTeam)` loading the two parent teams, which the foreign
   * keys guarantee exist.
   */
  method FindGames(db: Store) returns (r: seq<GameWithTeams>)
    requires db.Valid()
    ensures forall i :: 0 <= i < |r| ==>
      r[i].game.id.Some? && r[i].game.id.value in db.games.rows &&
      r[i].game == db.games.rows[r[i].game.id.value] &&
      r[i].game.homeTeam in db.teams.rows && r[i].home == db.teams.rows[r[i].game.homeTeam] &&
      r[i].game.awayTeam in db.teams.rows && r[i].away == db.teams.rows[r[i].game.awayTeam]
    ensures forall k :: k in db.games.rows ==> exists i :: 0 <= i < |r| && r[i].game == db.games.rows[k]
    ensures forall i, j :: 0 <= i < j < |r| ==> r[i].game.id != r[j].game.id
  {
    var ids := ScanKeys(db.games);
    var games := RowsAt(db.games.rows, ids);
    ParentsExist(db, games, ids);
    r := [];
    for n := 0 to |games|
      invariant |r| == n
      invariant forall i :: 0 <= i < n ==>
        r[i].game == games[i] && r[i].home == db.teams.rows[games[i].homeTeam] &&
        r[i].away == db.teams.rows[games[i].awayTeam]
    {
      var g := games[n];
      r := r + [GameWithTeams(g, db.teams.rows[g.homeTeam], db.teams.rows[g.awayTeam])];
    }
    forall k | k in db.games.rows ensures exists i :: 0 <= i < |r| && r[i].game == db.games.rows[k] {
      var i :| 0 <= i < |ids| && ids[i] == k;
      assert r[i].game == db.games.rows[k];
    }
  }

  /** The foreign keys guarantee that both parents of every stored game exist. */
  lemma ParentsExist(db: Store, games: seq<Games.Game>, ids: seq<int>)
    requires db.Valid()
    requires |games| == |ids| && forall i :: 0 <= i < |ids| ==> ids[i] in db.games.rows && games[i] == db.games.rows[ids[i]]
    ensures forall i :: 0 <= i < |games| ==> games[i].homeTeam in db.teams.rows && games[i].awayTeam in db.teams.rows
  {
    forall i | 0 <= i < |games| ensures games[i].homeTeam in db.teams.rows && games[i].awayTeam in db.teams.rows {
      assert GamesOk(db.games, db.teams.rows);
      var k := ids[i];
      assert k in db.games.rows && games[i] == db.games.rows[k];
      assert GameRowFits(db.teams.rows, db.games.rows[k]);
    }
  }

  /** `findGame`: 404 unless a game has the id; the parents are not loaded. */
  method FindGame(db: Store, id: Option<int>) returns (r: Response<Games.Game>)
    ensures r.Ok? <==> id.Some? && id.value in db.games.rows
    ensures r.Ok? ==> r.body == db.games.rows[id.value]
    ensures !r.Ok? ==> r == NotFound
  {
    if id.None? || id.value !in db.games.rows {
      return NotFound;
    }
    r := Ok(db.games.rows[id.value]);
  }

  /**
   * `createGame`: the two teams are looked up by abbreviation, 404 when
   * either is missing (home first). The game gets type "reg" when none is
   * given, tie-breaker false when none is given, and the current time when
   * the start cannot be parsed. Home and away may be the same team. Any
   * failure to write it answers 500, a game type longer than the column
   * among them.
   *
   * `Game.CreateDTO` has no validation rule (Games.ValidateCreate), so the
   * validation step never answers 400 for a decoded body and is not repeated here.
   */
  method CreateGame(db: Store, dto: Games.CreateDTO, parse: string -> Option<int>, now: int,
                    fault: Option<WriteError>)
    returns (r: Response<Games.Game>)
    requires db.Valid()
    modifies db
    ensures db.Valid()
    ensures db.users == old(db.users) && db.teams == old(db.teams) && db.picks == old(db.picks)
    ensures !AbbrTaken(db.teams.rows, dto.homeTeam) ==> r == NotFound
    ensures AbbrTaken(db.teams.rows, dto.homeTeam) && !AbbrTaken(db.teams.rows, dto.awayTeam) ==> r == NotFound
    ensures AbbrTaken(db.teams.rows, dto.homeTeam) && AbbrTaken(db.teams.rows, dto.awayTeam) ==>
      (r.Ok? <==> fault.None? && |dto.gameType.GetOr(Games.DefaultGameType)| <= GameTypeWidth) &&
      (!r.Ok? ==> r == ServerError)
    ensures !r.Ok? ==> db.games == old(db.games)
    ensures r.Ok? ==>
      r.body.homeTeam in db.teams.rows && db.teams.rows[r.body.homeTeam].abbr == dto.homeTeam &&
      r.body.awayTeam in db.teams.rows && db.teams.rows[r.body.awayTeam].abbr == dto.awayTeam &&
      r.body == Games.NewGame(dto.season, dto.week, dto.gameType, parse(dto.start).GetOr(now),
                              r.body.homeTeam, r.body.awayTeam, dto.homeScore, dto.awayScore,
                              dto.tieBreaker.GetOr(false), dto.tieBreakerOrder)
                .(id := Some(old(db.games.next)), created := Some(now), updated := Some(now)) &&
      db.games == old(db.games).Insert(r.body)
  {
    var homeTeamId := db.FirstTeamWithAbbr(dto.homeTeam);
    if homeTeamId.None? {
      return NotFound;
    }
    var awayTeamId := db.FirstTeamWithAbbr(dto.awayTeam);
    if awayTeamId.None? {
      return NotFound;
    }
    var startDate := parse(dto.start).GetOr(now);
    var game := Games.NewGame(dto.season, dto.week, dto.gameType, startDate,
                              homeTeamId.value, awayTeamId.value, dto.homeScore, dto.awayScore,
                              dto.tieBreaker.GetOr(false), dto.tieBreakerOrder);
    var saved := db.InsertGame(game, now, fault);
    if saved.Failed? {
      return ServerError;
    }
    r := Ok(saved.row);
  }

  /** `searchGames`: not implemented; always 418, whatever the request. */
  method SearchGames(db: Store) returns (r: Response<()>)
    ensures r == Teapot
  {
    r := Teapot;
  }
}

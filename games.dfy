/**
 * The `Game` entity and its request bodies (Sources/App/Models/Game.swift).
 * The home and away teams are parent references held as team ids.
 */
module Games {
  import opened Http

  /** The game type a new game gets when the request names none. */
  const DefaultGameType: string := "reg"

  /** A stored game row. */
  datatype Game = Game(
    id: Option<int>,
    season: int,
    week: int,
    gameType: Option<string>,
    start: Option<int>,
    homeTeam: int,
    awayTeam: int,
    homeScore: Option<int>,
    awayScore: Option<int>,
    tieBreaker: bool,
    tieBreakerOrder: Option<int>,
    created: Option<int>,
    updated: Option<int>)

  /** `Game.CreateDTO`: teams are named by abbreviation, the start time is text. */
  datatype CreateDTO = CreateDTO(
    season: int,
    week: int,
    gameType: Option<string>,
    start: string,
    homeTeam: string,
    awayTeam: string,
    homeScore: Option<int>,
    awayScore: Option<int>,
    tieBreaker: Option<bool>,
    tieBreakerOrder: Option<int>)

  /** `Game.UpdateDTO`. */
  datatype UpdateDTO = UpdateDTO(
    homeScore: int,
    awayScore: int,
    tieBreaker: Option<bool>,
    tieBreakerOrder: Option<int>)

  /**
   * `Game(season:week:gameType:start:homeTeamID:awayTeamID:...)`: an unsaved
   * game. A missing game type becomes "reg"; every other argument is stored
   * as given, the parents by id.
   */
  function NewGame(season: int, week: int, gameType: Option<string>, start: int,
                   homeTeamId: int, awayTeamId: int,
                   homeScore: Option<int>, awayScore: Option<int>,
                   tieBreaker: bool, tieBreakerOrder: Option<int>): (g: Game)
    ensures gameType.None? ==> g.gameType == Some("reg")
    ensures gameType.Some? ==> g.gameType == gameType
    ensures g.id.None? && g.season == season && g.week == week && g.start == Some(start)
    ensures g.homeTeam == homeTeamId && g.awayTeam == awayTeamId
    ensures g.homeScore == homeScore && g.awayScore == awayScore
    ensures g.tieBreaker == tieBreaker && g.tieBreakerOrder == tieBreakerOrder
    ensures g.created.None? && g.updated.None?
  {
    Game(None, season, week, Some(gameType.GetOr(DefaultGameType)), Some(start),
         homeTeamId, awayTeamId, homeScore, awayScore, tieBreaker, tieBreakerOrder, None, None)
  }

  /** `Game.CreateDTO.validations` declares no rule: every decoded body passes. */
  function ValidateCreate(dto: CreateDTO): (ok: bool)
    ensures ok
  {
    true
  }

  /** `Game.UpdateDTO.validations` declares no rule: every decoded body passes. */
  function ValidateUpdate(dto: UpdateDTO): (ok: bool)
    ensures ok
  {
    true
  }
}

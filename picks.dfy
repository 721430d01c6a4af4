/**
 * The `Pickem` entity (Sources/App/Models/Pickem.swift) and its request
 * bodies (Sources/App/DTOs/PickemDTO.swift). A pick names the user, the game
 * and the team the user expects to win, by id.
 */
module Picks {
  import opened Http

  /** A stored pick row. */
  datatype Pick = Pick(
    id: Option<int>,
    user: int,
    game: int,
    team: int,
    tieBreakerScore: Option<int>,
    created: Option<int>,
    updated: Option<int>)

  /** `Pickem.CreateDTO`. */
  datatype CreateDTO = CreateDTO(userID: int, gameID: int, teamID: int, score: Option<int>)

  /** `Pickem.UpdateDTO` (no handler uses it). */
  datatype UpdateDTO = UpdateDTO(teamID: Option<int>, score: Option<int>)

  /** `Pickem.CreateDTO.validations` declares no rule: every decoded body passes. */
  function ValidateCreate(dto: CreateDTO): (ok: bool)
    ensures ok
  {
    true
  }

  /** `Pickem(userID:gameID:teamID:tieBreakerScore:)`: an unsaved pick. */
  function NewPick(userId: int, gameId: int, teamId: int, tieBreakerScore: Option<int>): Pick {
    Pick(None, userId, gameId, teamId, tieBreakerScore, None, None)
  }

  /** `CreateDTO.toModel()`. */
  function ToModel(dto: CreateDTO): Pick {
    NewPick(dto.userID, dto.gameID, dto.teamID, dto.score)
  }

  /**
   * `toModel` loses nothing: the ids become the parent references, `score`
   * becomes the tie-breaker score with `nil` kept as `nil`, the id is `nil`;
   * so the request can be read back from the pick.
   */
  lemma ToModelKeepsRequest(dto: CreateDTO)
    ensures ToModel(dto).id.None?
    ensures ToModel(dto).user == dto.userID && ToModel(dto).game == dto.gameID
    ensures ToModel(dto).team == dto.teamID && ToModel(dto).tieBreakerScore == dto.score
    ensures forall other: CreateDTO :: ToModel(other) == ToModel(dto) ==> other == dto
  {
  }
}

/**
 * The `Team` entity, its public projection and the request body `Team.DTO`
 * with its validation rules (Sources/App/Models/Teams.swift).
 */
module Teams {
  import opened Http

  /** A stored team row. */
  datatype Team = Team(
    id: Option<int>,
    city: string,
    name: string,
    abbr: string,
    created: Option<int>,
    updated: Option<int>)

  /** `Team.Public`: what a response shows of a team. */
  datatype Public = Public(id: Option<int>, city: string, name: string, abbr: string)

  /** `Team.DTO`: the body of a create request. */
  datatype DTO = DTO(city: string, name: string, abbr: string)

  /** `Team(city:name:abbr:)`: an unsaved team holding the given fields; the id defaults to `nil`. */
  function NewTeam(city: string, name: string, abbr: string): (t: Team)
    ensures t.id.None? && t.city == city && t.name == name && t.abbr == abbr
    ensures t.created.None? && t.updated.None?
  {
    Team(None, city, name, abbr, None, None)
  }

  /** `convertToPublic()` on one team. */
  function ConvertToPublic(t: Team): Public {
    Public(t.id, t.city, t.name, t.abbr)
  }

  /**
   * The public shape copies id, city, name and abbr unchanged and drops only
   * the timestamps: two teams share a public shape exactly when those four
   * fields agree.
   */
  lemma PublicShapeCopiesFields(t: Team, u: Team)
    ensures ConvertToPublic(t).id == t.id && ConvertToPublic(t).city == t.city
    ensures ConvertToPublic(t).name == t.name && ConvertToPublic(t).abbr == t.abbr
    ensures ConvertToPublic(t) == ConvertToPublic(u) <==>
      t.id == u.id && t.city == u.city && t.name == u.name && t.abbr == u.abbr
  {
  }

  /** `convertToPublic()` on a collection: length and order kept, element by element. */
  function ConvertAllToPublic(ts: seq<Team>): (ps: seq<Public>)
    ensures |ps| == |ts|
    ensures forall i :: 0 <= i < |ts| ==> ps[i] == ConvertToPublic(ts[i])
  {
    if ts == [] then [] else [ConvertToPublic(ts[0])] + ConvertAllToPublic(ts[1..])
  }

  /** `Team.DTO.validations`: city, name and abbr must each be non-empty. */
  predicate Validate(dto: DTO) {
    dto.city != "" && dto.name != "" && dto.abbr != ""
  }

  /** Validation fails exactly when one of the three fields is empty; lengths are not bounded. */
  lemma ValidationRejectsOnlyEmptyFields(dto: DTO)
    ensures !Validate(dto) <==> |dto.city| == 0 || |dto.name| == 0 || |dto.abbr| == 0
  {
  }
}

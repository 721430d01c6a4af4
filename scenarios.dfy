/**
 * Request sequences walked through end to end, each on a freshly migrated,
 * empty database whose writes do not fault.
 */
module Scenarios {
  import opened Http
  import opened Database
  import Users
  import Teams
  import Games
  import Picks
  import UserController
  import TeamController
  import GameController
  import PickController

  /** Nine draws that all pick the alphabet's first character. */
  const SomeDraws: seq<int> := [0, 0, 0, 0, 0, 0, 0, 0, 0]

  /** POST /teams Green Bay Packers "GB" twice: the first gets id 1, the repeat 400. */
  method RepeatedTeamIsRejected() returns (first: Response<Teams.Public>, second: Response<Teams.Public>)
    ensures first == Ok(Teams.Public(Some(1), "Green Bay", "Packers", "GB"))
    ensures second == BadRequest
  {
    var db := new Store();
    first := TeamController.CreateTeam(db, Teams.DTO("Green Bay", "Packers", "GB"), 0, None);
    assert db.teams.rows[1].abbr == "GB";
    second := TeamController.CreateTeam(db, Teams.DTO("Green Bay", "Packers", "GB"), 0, None);
  }

  /**
   * POST /users "alice" gets id 1; PATCH /users/1 "alice" is a no-op (418);
   * PATCH /users/1 "bob" renames the user.
   */
  method RenameUser() returns (created: Response<Users.Public>, same: Response<Users.Public>,
                               renamed: Response<Users.Public>)
    ensures created == Ok(Users.Public(Some(1), "alice"))
    ensures same == Teapot
    ensures renamed == Ok(Users.Public(Some(1), "bob"))
  {
    var db := new Store();
    created := UserController.CreateUser(db, Users.DTO("alice"), SomeDraws, 0, None);
    same := UserController.UpdateUser(db, Some(1), Users.DTO("alice"), 1, None);
    assert db.users.rows.Keys == {1};
    renamed := UserController.UpdateUser(db, Some(1), Users.DTO("bob"), 2, None);
  }

  /**
   * A soft-deleted user cannot be found, still holds its username against
   * new sign-ups, and comes back on restore; restoring a live user is 404.
   */
  method SoftDeleteAndRestore()
    returns (deleted: Response<()>, lookupDeleted: Response<Users.Public>,
             signupAgain: Response<Users.Public>, restored: Response<()>,
             lookupRestored: Response<Users.Public>, restoreLive: Response<()>)
    ensures deleted == NoContent && lookupDeleted == NotFound && signupAgain == BadRequest
    ensures restored == Ok(()) && lookupRestored == Ok(Users.Public(Some(1), "alice"))
    ensures restoreLive == NotFound
  {
    var db := new Store();
    var created := UserController.CreateUser(db, Users.DTO("alice"), SomeDraws, 0, None);
    deleted := UserController.DeleteUser(db, Some(1), 1, None);
    lookupDeleted := UserController.FindUser(db, Some(1));
    assert db.users.rows[1].username == "alice";
    signupAgain := UserController.CreateUser(db, Users.DTO("alice"), SomeDraws, 2, None);
    restored := UserController.RestoreUser(db, 1, None);
    lookupRestored := UserController.FindUser(db, Some(1));
    restoreLive := UserController.RestoreUser(db, 1, None);
  }

  /**
   * A game naming an unknown team is 404 and stores nothing; a game whose
   * home and away team are the same is accepted, with the defaults filled in.
   */
  method GameTeamsResolved()
    returns (unknown: Response<Games.Game>, sameTeam: Response<Games.Game>, stored: int)
    ensures unknown == NotFound
    ensures sameTeam.Ok? && sameTeam.body.homeTeam == 1 && sameTeam.body.awayTeam == 1
    ensures sameTeam.body.gameType == Some("reg") && !sameTeam.body.tieBreaker && sameTeam.body.start == Some(7)
    ensures stored == 1
  {
    var db := new Store();
    var team := TeamController.CreateTeam(db, Teams.DTO("Green Bay", "Packers", "GB"), 0, None);
    assert db.teams.rows.Keys == {1} && db.teams.rows[1].abbr == "GB";
    assert AbbrTaken(db.teams.rows, "GB") && !AbbrTaken(db.teams.rows, "CHI");
    var unparsable := (s: string) => None;
    unknown := GameController.CreateGame(db,
      Games.CreateDTO(2024, 1, None, "soon", "GB", "CHI", None, None, None, None), unparsable, 5, None);
    assert db.games.rows == map[];
    sameTeam := GameController.CreateGame(db,
      Games.CreateDTO(2024, 1, None, "later", "GB", "GB", None, None, None, None), unparsable, 7, None);
    assert db.games.rows.Keys == {1};
    stored := |db.games.rows.Keys|;
  }

  /** A database holding one user, one team and one game between that team and itself, and no pick. */
  method SeededStore() returns (db: Store)
    ensures fresh(db) && db.Valid()
    ensures 1 in db.users.rows && 2 !in db.users.rows && 1 in db.teams.rows && 1 in db.games.rows
    ensures db.picks.rows == map[] && db.picks.next == 1
  {
    db := new Store();
    var user := UserController.CreateUser(db, Users.DTO("alice"), SomeDraws, 0, None);
    assert db.users.rows.Keys == {1};
    var team := TeamController.CreateTeam(db, Teams.DTO("Green Bay", "Packers", "GB"), 0, None);
    assert db.teams.rows.Keys == {1} && db.teams.rows[1].abbr == "GB";
    assert AbbrTaken(db.teams.rows, "GB");
    var game := GameController.CreateGame(db,
      Games.CreateDTO(2024, 1, None, "", "GB", "GB", None, None, None, None), (s: string) => None, 0, None);
  }

  /**
   * A pick is stored; a second pick by the same user for the same game is
   * 400 and the first stays; a pick naming a user that does not exist is 400.
   */
  method DuplicatePickIsRejected()
    returns (first: Response<Picks.Pick>, again: Response<Picks.Pick>, dangling: Response<Picks.Pick>,
             kept: Picks.Pick)
    ensures first.Ok? && first.body.user == 1 && first.body.game == 1 && first.body.team == 1
    ensures again == BadRequest && dangling == BadRequest
    ensures first.Ok? && kept == first.body
  {
    var db := SeededStore();
    first := PickController.CreatePick(db, Picks.CreateDTO(1, 1, 1, None), 0, None);
    assert db.picks.rows.Keys == {1} && db.picks.next == 2;
    assert db.picks.rows[1].user == 1 && db.picks.rows[1].game == 1;
    assert PairHeldByOther(db.picks.rows, db.picks.next, 1, 1);
    again := PickController.CreatePick(db, Picks.CreateDTO(1, 1, 1, Some(42)), 1, None);
    dangling := PickController.CreatePick(db, Picks.CreateDTO(2, 1, 1, None), 1, None);
    kept := db.picks.rows[1];
  }
}

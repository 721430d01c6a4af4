/**
 * The relational store the handlers talk to, as four in-memory tables.
 *
 * The constraints the migrations declare (the files under Sources/App/Migrations)
 * are enforced here the way the database enforces them: a write that would
 * break a unique key, a foreign key or a VARCHAR width fails with a
 * `DatabaseError` and changes nothing (MySQL in strict mode, which refuses an
 * over-long value rather than truncating it). They are also the store's invariant,
 * `Store.Valid()`. Any write may in addition fail for reasons outside the
 * data (the connection, the server); the caller passes such a fault in.
 */
module Database {
  import opened Http
  import Users
  import Teams
  import Games
  import Picks

  /** `VARCHAR(32)` of `user.username`. */
  const UsernameWidth: int := 32
  /** `VARCHAR(32)` of `team.team_city` and `team.team_name`. */
  const TeamCityWidth: int := 32
  const TeamNameWidth: int := 32
  /** `VARCHAR(3)` of `team.team_abbr`. */
  const TeamAbbrWidth: int := 3
  /** `game.game_type` is a `.string` column, which MySQL creates as `VARCHAR(255)`. */
  const GameTypeWidth: int := 255

  /**
   * How a write fails. `DatabaseError` is an error the database reports
   * (Fluent's `DatabaseError`, which a violated constraint raises);
   * `OtherError` is any other failure.
   */
  datatype WriteError = DatabaseError | OtherError

  /** The outcome of a write: the row as stored, or the error. */
  datatype Written<T> = Written(row: T) | Failed(error: WriteError)

  /** A table: rows by primary key, and the next value of the auto-increment key. */
  datatype Table<T> = Table(rows: map<int, T>, next: int) {

    /** Keys are positive and below the auto-increment counter. */
    predicate WellKeyed() {
      1 <= next && forall k :: k in rows ==> 1 <= k < next
    }

    /** Store `row` under the next auto-increment key, which no row holds yet. */
    function Insert(row: T): (t: Table<T>)
      ensures WellKeyed() ==> next !in rows && t.WellKeyed()
      ensures t.rows.Keys == rows.Keys + {next} && t.rows[next] == row
      ensures forall k :: k in rows && k != next ==> t.rows[k] == rows[k]
    {
      Table(rows[next := row], next + 1)
    }

    /** Overwrite the row stored under an existing key. */
    function Replace(key: int, row: T): (t: Table<T>)
      requires key in rows
      ensures WellKeyed() ==> t.WellKeyed()
      ensures t.rows.Keys == rows.Keys && t.rows[key] == row && t.next == next
      ensures forall k :: k in rows && k != key ==> t.rows[k] == rows[k]
    {
      Table(rows[key := row], next)
    }
  }

  /** A table with no rows whose first key will be 1. */
  function EmptyTable<T>(): (t: Table<T>)
    ensures t.WellKeyed() && t.rows == map[] && t.next == 1
  {
    Table(map[], 1)
  }

  /** The keys of all rows, in increasing order: a full scan of the table. */
  method ScanKeys<T>(t: Table<T>) returns (ids: seq<int>)
    requires t.WellKeyed()
    ensures forall i :: 0 <= i < |ids| ==> ids[i] in t.rows
    ensures forall k :: k in t.rows ==> k in ids
    ensures forall i, j :: 0 <= i < j < |ids| ==> ids[i] < ids[j]
  {
    ids := [];
    var k := 1;
    while k < t.next
      invariant 1 <= k <= t.next
      invariant forall i :: 0 <= i < |ids| ==> ids[i] in t.rows && ids[i] < k
      invariant forall j :: j in t.rows && j < k ==> j in ids
      invariant forall i, j :: 0 <= i < j < |ids| ==> ids[i] < ids[j]
    {
      if k in t.rows {
        ids := ids + [k];
      }
      k := k + 1;
    }
  }

  /** The rows stored under `ids`, in that order. */
  function RowsAt<T>(rows: map<int, T>, ids: seq<int>): (r: seq<T>)
    requires forall i :: 0 <= i < |ids| ==> ids[i] in rows
    ensures |r| == |ids| && forall i :: 0 <= i < |ids| ==> r[i] == rows[ids[i]]
  {
    seq(|ids|, i requires 0 <= i < |ids| => rows[ids[i]])
  }

  // ---------------------------------------------------------------------
  // user: username VARCHAR(32), unique (Sources/App/Migrations/CreateUser.swift)

  /** Some row other than `key`, live or soft-deleted, holds `name`. */
  predicate UsernameHeldByOther(rows: map<int, Users.User>, key: int, name: string) {
    exists k :: k in rows && k != key && rows[k].username == name
  }

  /** The `withDeleted()` query by username finds a row. */
  predicate UsernameTaken(rows: map<int, Users.User>, name: string) {
    exists k :: k in rows && rows[k].username == name
  }

  /** The database accepts `u` as the row under `key`. */
  predicate UserRowFits(rows: map<int, Users.User>, key: int, u: Users.User) {
    |u.username| <= UsernameWidth && !UsernameHeldByOther(rows, key, u.username)
  }

  ghost predicate UsersOk(t: Table<Users.User>) {
    t.WellKeyed() &&
    (forall k {:trigger t.rows[k]} :: k in t.rows ==> t.rows[k].id == Some(k) && |t.rows[k].username| <= UsernameWidth) &&
    (forall j, k :: j in t.rows && k in t.rows && j != k ==> t.rows[j].username != t.rows[k].username)
  }

  /**
   * The keys of the live users, in increasing order: a scan of the user
   * table under the soft-delete filter every ordinary query carries.
   */
  method LiveUserKeys(t: Table<Users.User>) returns (ids: seq<int>)
    requires t.WellKeyed()
    ensures forall i :: 0 <= i < |ids| ==> ids[i] in t.rows && t.rows[ids[i]].IsLive()
    ensures forall k :: k in t.rows && t.rows[k].IsLive() ==> k in ids
    ensures forall i, j :: 0 <= i < j < |ids| ==> ids[i] < ids[j]
  {
    ids := [];
    var k := 1;
    while k < t.next
      invariant 1 <= k <= t.next
      invariant forall i :: 0 <= i < |ids| ==> ids[i] in t.rows && t.rows[ids[i]].IsLive() && ids[i] < k
      invariant forall j :: j in t.rows && t.rows[j].IsLive() && j < k ==> j in ids
      invariant forall i, j :: 0 <= i < j < |ids| ==> ids[i] < ids[j]
    {
      if k in t.rows && t.rows[k].IsLive() {
        ids := ids + [k];
      }
      k := k + 1;
    }
  }

  // ---------------------------------------------------------------------
  // team: city and name VARCHAR(32), abbr VARCHAR(3) unique
  // (Sources/App/Migrations/CreateTeam.swift)

  /** Some row other than `key` has abbreviation `abbr`. */
  predicate AbbrHeldByOther(rows: map<int, Teams.Team>, key: int, abbr: string) {
    exists k :: k in rows && k != key && rows[k].abbr == abbr
  }

  /** The query by abbreviation finds a row. */
  predicate AbbrTaken(rows: map<int, Teams.Team>, abbr: string) {
    exists k :: k in rows && rows[k].abbr == abbr
  }

  predicate TeamRowFits(rows: map<int, Teams.Team>, key: int, t: Teams.Team) {
    |t.city| <= TeamCityWidth && |t.name| <= TeamNameWidth && |t.abbr| <= TeamAbbrWidth &&
    !AbbrHeldByOther(rows, key, t.abbr)
  }

  ghost predicate TeamsOk(t: Table<Teams.Team>) {
    t.WellKeyed() &&
    (forall k {:trigger t.rows[k]} :: k in t.rows ==>
      t.rows[k].id == Some(k) && |t.rows[k].city| <= TeamCityWidth &&
      |t.rows[k].name| <= TeamNameWidth && |t.rows[k].abbr| <= TeamAbbrWidth) &&
    (forall j, k :: j in t.rows && k in t.rows && j != k ==> t.rows[j].abbr != t.rows[k].abbr)
  }

  // ---------------------------------------------------------------------
  // game: game_type VARCHAR(255) and nullable; home_team_id and away_team_id
  // reference team (Sources/App/Migrations/CreateGame.swift)

  predicate GameRowFits(teams: map<int, Teams.Team>, g: Games.Game) {
    (g.gameType.None? || |g.gameType.value| <= GameTypeWidth) && g.homeTeam in teams && g.awayTeam in teams
  }

  ghost predicate GamesOk(t: Table<Games.Game>, teams: map<int, Teams.Team>) {
    t.WellKeyed() &&
    forall k {:trigger t.rows[k]} :: k in t.rows ==> t.rows[k].id == Some(k) && GameRowFits(teams, t.rows[k])
  }

  // ---------------------------------------------------------------------
  // pickem: user_id, game_id, team_id reference their tables; (user_id, game_id)
  // unique (Sources/App/Migrations/CreatePickem.swift)

  /** Some row other than `key` is a pick by `user` for `game`. */
  predicate PairHeldByOther(rows: map<int, Picks.Pick>, key: int, user: int, game: int) {
    exists k :: k in rows && k != key && rows[k].user == user && rows[k].game == game
  }

  predicate PickRowFits(rows: map<int, Picks.Pick>, key: int, p: Picks.Pick,
                        users: map<int, Users.User>, games: map<int, Games.Game>,
                        teams: map<int, Teams.Team>) {
    p.user in users && p.game in games && p.team in teams &&
    !PairHeldByOther(rows, key, p.user, p.game)
  }

  ghost predicate PicksOk(t: Table<Picks.Pick>, users: map<int, Users.User>,
                          games: map<int, Games.Game>, teams: map<int, Teams.Team>) {
    t.WellKeyed() &&
    (forall k {:trigger t.rows[k]} :: k in t.rows ==>
      t.rows[k].id == Some(k) && t.rows[k].user in users && t.rows[k].game in games &&
      t.rows[k].team in teams) &&
    (forall j, k :: j in t.rows && k in t.rows && j != k ==>
      t.rows[j].user != t.rows[k].user || t.rows[j].game != t.rows[k].game)
  }

  /** The database behind `req.db`. */
  class Store {
    var users: Table<Users.User>
    var teams: Table<Teams.Team>
    var games: Table<Games.Game>
    var picks: Table<Picks.Pick>

    /** Every constraint of the migrations holds, and each row's id is its key. */
    ghost predicate Valid()
      reads this
    {
      UsersOk(users) && TeamsOk(teams) && GamesOk(games, teams.rows) &&
      PicksOk(picks, users.rows, games.rows, teams.rows)
    }

    /** A freshly migrated, empty database. */
    constructor ()
      ensures Valid()
      ensures users == EmptyTable() && teams == EmptyTable()
      ensures games == EmptyTable() && picks == EmptyTable()
    {
      users, teams, games, picks := EmptyTable(), EmptyTable(), EmptyTable(), EmptyTable();
    }

    /**
     * `user.create(on:)`: the row gets the next key as id and `now` as its
     * creation and update time, unless the write faults or breaks a
     * constraint of the user table.
     */
    method InsertUser(u: Users.User, now: int, fault: Option<WriteError>) returns (res: Written<Users.User>)
      requires Valid()
      modifies this
      ensures Valid()
      ensures teams == old(teams) && games == old(games) && picks == old(picks)
      ensures fault.Some? ==> res == Failed(fault.value)
      ensures fault.None? && !UserRowFits(old(users.rows), old(users.next), u) ==> res == Failed(DatabaseError)
      ensures fault.None? && UserRowFits(old(users.rows), old(users.next), u) ==>
        res == Written(u.(id := Some(old(users.next)), created := Some(now), updated := Some(now)))
      ensures users == if res.Written? then old(users).Insert(res.row) else old(users)
    {
      if fault.Some? {
        return Failed(fault.value);
      }
      if !UserRowFits(users.rows, users.next, u) {
        return Failed(DatabaseError);
      }
      var row := u.(id := Some(users.next), created := Some(now), updated := Some(now));
      users := users.Insert(row);
      res := Written(row);
    }

    /**
     * Saves `u` over the existing row `key` (an update, a soft delete or a
     * restore): the row is stored as given unless the write faults or breaks
     * a constraint of the user table.
     */
    method UpdateUser(key: int, u: Users.User, fault: Option<WriteError>) returns (res: Written<Users.User>)
      requires Valid() && key in users.rows && u.id == Some(key)
      modifies this
      ensures Valid()
      ensures teams == old(teams) && games == old(games) && picks == old(picks)
      ensures fault.Some? ==> res == Failed(fault.value)
      ensures fault.None? && !UserRowFits(old(users.rows), key, u) ==> res == Failed(DatabaseError)
      ensures fault.None? && UserRowFits(old(users.rows), key, u) ==> res == Written(u)
      ensures users == if res.Written? then old(users).Replace(key, u) else old(users)
    {
      if fault.Some? {
        return Failed(fault.value);
      }
      if !UserRowFits(users.rows, key, u) {
        return Failed(DatabaseError);
      }
      users := users.Replace(key, u);
      res := Written(u);
    }

    /** `team.create(on:)`. */
    method InsertTeam(t: Teams.Team, now: int, fault: Option<WriteError>) returns (res: Written<Teams.Team>)
      requires Valid()
      modifies this
      ensures Valid()
      ensures users == old(users) && games == old(games) && picks == old(picks)
      ensures fault.Some? ==> res == Failed(fault.value)
      ensures fault.None? && !TeamRowFits(old(teams.rows), old(teams.next), t) ==> res == Failed(DatabaseError)
      ensures fault.None? && TeamRowFits(old(teams.rows), old(teams.next), t) ==>
        res == Written(t.(id := Some(old(teams.next)), created := Some(now), updated := Some(now)))
      ensures teams == if res.Written? then old(teams).Insert(res.row) else old(teams)
    {
      if fault.Some? {
        return Failed(fault.value);
      }
      if !TeamRowFits(teams.rows, teams.next, t) {
        return Failed(DatabaseError);
      }
      var row := t.(id := Some(teams.next), created := Some(now), updated := Some(now));
      teams := teams.Insert(row);
      res := Written(row);
    }

    /** `game.create(on:)`. */
    method InsertGame(g: Games.Game, now: int, fault: Option<WriteError>) returns (res: Written<Games.Game>)
      requires Valid()
      modifies this
      ensures Valid()
      ensures users == old(users) && teams == old(teams) && picks == old(picks)
      ensures fault.Some? ==> res == Failed(fault.value)
      ensures fault.None? && !GameRowFits(old(teams.rows), g) ==> res == Failed(DatabaseError)
      ensures fault.None? && GameRowFits(old(teams.rows), g) ==>
        res == Written(g.(id := Some(old(games.next)), created := Some(now), updated := Some(now)))
      ensures games == if res.Written? then old(games).Insert(res.row) else old(games)
    {
      if fault.Some? {
        return Failed(fault.value);
      }
      if !GameRowFits(teams.rows, g) {
        return Failed(DatabaseError);
      }
      var row := g.(id := Some(games.next), created := Some(now), updated := Some(now));
      games := games.Insert(row);
      res := Written(row);
    }

    /** `pick.create(on:)`. */
    method InsertPick(p: Picks.Pick, now: int, fault: Option<WriteError>) returns (res: Written<Picks.Pick>)
      requires Valid()
      modifies this
      ensures Valid()
      ensures users == old(users) && teams == old(teams) && games == old(games)
      ensures fault.Some? ==> res == Failed(fault.value)
      ensures fault.None? && !PickRowFits(old(picks.rows), old(picks.next), p, users.rows, games.rows, teams.rows) ==>
        res == Failed(DatabaseError)
      ensures fault.None? && PickRowFits(old(picks.rows), old(picks.next), p, users.rows, games.rows, teams.rows) ==>
        res == Written(p.(id := Some(old(picks.next)), created := Some(now), updated := Some(now)))
      ensures picks == if res.Written? then old(picks).Insert(res.row) else old(picks)
    {
      if fault.Some? {
        return Failed(fault.value);
      }
      if !PickRowFits(picks.rows, picks.next, p, users.rows, games.rows, teams.rows) {
        return Failed(DatabaseError);
      }
      var row := p.(id := Some(picks.next), created := Some(now), updated := Some(now));
      picks := picks.Insert(row);
      res := Written(row);
    }

    /**
     * `Team.query(on:).filter(\.$abbr == abbr).first()?.id`: the id of the
     * team with that abbreviation, of which there is at most one.
     */
    method FirstTeamWithAbbr(abbr: string) returns (id: Option<int>)
      requires Valid()
      ensures id.Some? <==> AbbrTaken(teams.rows, abbr)
      ensures id.Some? ==> id.value in teams.rows && teams.rows[id.value].abbr == abbr
      ensures id.Some? ==> forall k :: k in teams.rows && teams.rows[k].abbr == abbr ==> k == id.value
    {
      if AbbrTaken(teams.rows, abbr) {
        var k :| k in teams.rows && teams.rows[k].abbr == abbr;
        id := Some(k);
      } else {
        id := None;
      }
    }
  }
}

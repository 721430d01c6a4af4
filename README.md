# Pick'em API — a verified model of its request handlers

The system is a small Vapor/Fluent HTTP backend for a football pick'em
pool. Users sign up and may be renamed, soft-deleted and restored. Teams
are registered by city, name and a unique abbreviation. Games name their
home and away teams by abbreviation. A pick records which team a user
expects to win a game.

This project models the handlers of the four controllers (users, teams,
games, picks) and the entities and request bodies they work on:

- `Http`: the handlers' answers (`Response`: 200 with a body, 204, 400,
  404, 418, 500) and Swift's optional (`Option`, with `??` as `GetOr`).
- `Users`, `Teams`, `Games`, `Picks`: the entities as datatypes. Each has
  its constructor defaults, its public projection, its request bodies and
  their validation rules. `Users` also has the password generator
  `RandomPassword`. It is a loop over an 11-character array, proved
  against the function `PasswordFrom`, and lemmas state the password's
  shape and alphabet.
- `Database`: the relational store as the class `Store`. It holds four
  tables, each a map from primary key to row plus an auto-increment
  counter. The constraints the migrations declare form the store's
  invariant `Store.Valid()`:
  - unique `username` and unique `team_abbr`;
  - the `VARCHAR` widths: 32 for `username`, `team_city` and `team_name`,
    3 for `team_abbr`, and 255 for `game_type`, a `.string` column that
    MySQL creates as `VARCHAR(255)`;
  - the foreign keys of `game` and `pickem`;
  - the unique `(user_id, game_id)` pair of `pickem`.
  A write that would break one of them fails with a `DatabaseError` and
  changes nothing. For the widths this assumes MySQL's strict SQL mode, in
  which an over-long value is refused; outside strict mode MySQL truncates
  it and stores the row. Any write may also fail for reasons outside the data;
  such a failure is the `fault` parameter.
- `UserController`, `TeamController`, `GameController`, `PickController`:
  one method per handler, in the same order of checks as the handler.
  Each states the status it answers in every case, the new state of the
  table it writes, and that the other tables do not change.
- `Scenarios`: request sequences on a freshly migrated database, with the
  answer of every step the scenario returns proved; setup requests are
  only used to build the state.

The environment is passed in:
- the current time is `now`, in whole seconds;
- the random numbers of `randomPassword()` are `draws`, nine indices into
  the alphabet;
- the `DateFormatter` that reads a game's start time is `parse`;
- an environment failure of a write is `fault`.

Soft deletion follows Fluent. A user row whose `deleted` timestamp is set
stays in the table. `find` and plain queries do not see it
(`UserController.Find`), while `withDeleted()` queries do
(`Database.UsernameTaken`). Fluent's filter compares the timestamp with the
clock; the model assumes the clock never runs behind a recorded deletion
(see `UserController.Find` under "## Left out").

## Model

| member | source | states |
|---|---|---|
| Http.Option.GetOr | Sources/App/Controllers/GameController.swift:52 | `a ?? b` is the value when one is present and the fallback otherwise |
| Users.NewUser | Sources/App/Models/User.swift:47-53 | a new user has no id, the given username and password, is not an administrator, is live, has no timestamps, and its password expires 7,776,000 seconds (90 days) after creation |
| Users.PublicShapeIsIdAndUsername | Sources/App/Models/User.swift:98-100 | the public shape keeps exactly the id and the username: two users have the same shape iff those two fields agree |
| Users.ConvertAllToPublic | Sources/App/Models/User.swift:108-110 | the collection conversion keeps length and order and is the single conversion element by element |
| Users.ValidationRejectsOnlyEmpty | Sources/App/DTOs/UserDTO.swift:17 | a user body fails validation iff its username is the empty string |
| Users.BlankUsernamePasses | Sources/App/DTOs/UserDTO.swift:17 | a username of one or more blanks passes validation |
| Users.ValidationHasNoLengthBound | Sources/App/DTOs/UserDTO.swift:17 | a username longer than the 32-character column still passes validation |
| Users.AlphabetIsUnambiguousAlphanumerics | Sources/App/Models/User.swift:120 | the password alphabet has 54 characters and is exactly the letters and digits other than i, l, o, I, L, O, 0 and 6 (so it has no '-') |
| Users.AlphabetHasNoRepeats | Sources/App/Models/User.swift:120 | no character occurs twice in the alphabet |
| Users.PasswordFrom | Sources/App/Models/User.swift:124-132 | a generated password has 11 characters, '-' at positions 3 and 7, and an alphabet character everywhere else |
| Users.RandomPassword | Sources/App/Models/User.swift:117-133 | the array-filling loop that skips positions 3 and 7 returns exactly `PasswordFrom(draws)`, of length 11 with '-' at 3 and 7 |
| Users.PasswordFromIsInjective | Sources/App/Models/User.swift:126-129 | different draws give different passwords |
| Users.GeneratedPasswordAvoidsExcluded | Sources/App/Models/User.swift:120-129 | no filled position of a generated password holds a confusable glyph, and '-' occurs exactly at the separator positions |
| Teams.NewTeam | Sources/App/Models/Teams.swift:15-20 | a new team holds the given city, name and abbreviation, with no id and no timestamps |
| Teams.PublicShapeCopiesFields | Sources/App/Models/Teams.swift:38-40 | the public shape copies id, city, name and abbr unchanged; two teams share it iff those four fields agree |
| Teams.ConvertAllToPublic | Sources/App/Models/Teams.swift:44-46 | the collection conversion keeps length and order and is the single conversion element by element |
| Teams.ValidationRejectsOnlyEmptyFields | Sources/App/Models/Teams.swift:55-59 | a team body fails validation iff its city, name or abbr is empty |
| Games.NewGame | Sources/App/Models/Game.swift:22-38 | a new game gets type "reg" when none is given and keeps a given type; season, week, start, both team ids, both scores, the tie-breaker and its order are stored as given; it has no id and no timestamps |
| Games.ValidateCreate | Sources/App/Models/Game.swift:54 | the game create body has no validation rule: every body passes |
| Games.ValidateUpdate | Sources/App/Models/Game.swift:63 | the game update body has no validation rule: every body passes |
| Picks.ValidateCreate | Sources/App/DTOs/PickemDTO.swift:13 | the pick create body has no validation rule: every body passes |
| Picks.ToModelKeepsRequest | Sources/App/DTOs/PickemDTO.swift:15-17 | `toModel` copies the user, game and team ids into the parent references and `score` into the tie-breaker score (nil kept), gives no id, and loses nothing: different bodies give different picks |
| Database.Table.Insert | Sources/App/Migrations/CreateUser.swift:16 | an insert stores the row under the auto-increment key, which no row held, and leaves every other row as it was |
| Database.Table.Replace | Sources/App/Controllers/UserController.swift:100 | a save replaces only the row under its key; keys and counter are unchanged |
| Database.ScanKeys | Sources/App/Controllers/TeamControlller.swift:16 | a full scan yields, in increasing order, the key of every row and no other |
| Database.LiveUserKeys | Sources/App/Controllers/UserController.swift:26 | a scan of the user table under the soft-delete filter yields, in increasing order, the key of every live user and of no deleted one |
| Database.Store.constructor | Sources/App/Migrations/CreateUser.swift:13-28 | a freshly migrated database has four empty tables and meets every constraint |
| Database.Store.InsertUser | Sources/App/Migrations/CreateUser.swift:16-25 | a user insert fails on a fault, fails with a database error on a username over 32 characters or one any row holds, and otherwise stores the row with the next id and `now` as its creation and update time |
| Database.Store.UpdateUser | Sources/App/Migrations/CreateUser.swift:17-25 | saving a user row fails on a fault or a broken username constraint and otherwise replaces the row as given |
| Database.Store.InsertTeam | Sources/App/Migrations/CreateTeam.swift:7-13 | a team insert fails with a database error on a city or name over 32 characters, an abbr over 3, or an abbr another team holds; otherwise it stores the row with the next id |
| Database.Store.InsertGame | Sources/App/Migrations/CreateGame.swift:10-13 | a game insert fails with a database error when its game type is longer than 255 characters or the home or away team does not exist; otherwise it stores the row with the next id |
| Database.Store.InsertPick | Sources/App/Migrations/CreatePickem.swift:8-14 | a pick insert fails with a database error when the user, game or team does not exist or the user already has a pick for the game; otherwise it stores the row with the next id |
| Database.Store.FirstTeamWithAbbr | Sources/App/Controllers/GameController.swift:44 | the query by abbreviation finds an id iff some team has that abbr, and it is the only such team |
| UserController.Find | Sources/App/Models/User.swift:36 | `find` returns the row with the id iff it exists and is not soft-deleted |
| UserController.FindUsers | Sources/App/Controllers/UserController.swift:25-28 | the list holds the public shape of every live user, of no deleted one, and each id once |
| UserController.FindUser | Sources/App/Controllers/UserController.swift:35-40 | 200 with the public shape iff the id names a live user, 404 otherwise |
| UserController.CreateUser | Sources/App/Controllers/UserController.swift:47-67 | 400 and no change on an empty username or one any row holds, deleted rows included; otherwise one row is added with the username, generated password and defaults of a new user, its public shape is answered, and a failed write is 500 with no change; usernames stay pairwise distinct |
| UserController.UpdateUser | Sources/App/Controllers/UserController.swift:74-102 | 400 on an empty username; 404 unless the id names a live user; 418 when the username is already the user's own; 400 when any other row holds it; otherwise only that row's username (and update time) changes; nothing changes unless the answer is 200 |
| UserController.DeleteUser | Sources/App/Controllers/UserController.swift:109-116 | 404 unless the id names a live user; otherwise only the deletion and update timestamps are set to the current time, the row stays, `find` no longer sees it, and the answer is 204; a failed write is 500 with no change |
| UserController.RestoreUser | Sources/App/Controllers/UserController.swift:123-134 | 404 unless a row with the id exists and is deleted; otherwise only its deletion timestamp is cleared, `find` sees it again, and the answer is 200; a failed write is 500 with no change |
| TeamController.FindTeams | Sources/App/Controllers/TeamControlller.swift:15-18 | the list holds the public shape of every team, each id once |
| TeamController.FindTeam | Sources/App/Controllers/TeamControlller.swift:21-26 | 200 with the public shape iff a team has the id, 404 otherwise |
| TeamController.CreateTeam | Sources/App/Controllers/TeamControlller.swift:29-51 | 400 and no change on an empty field or an abbr already held; a database error on insert is 400 and any other failure 500, with no change; otherwise one row with the body's fields is added and its public shape answered; abbreviations stay pairwise distinct |
| GameController.FindGames | Sources/App/Controllers/GameController.swift:16-22 | the list holds every game once, each with the home and away team rows it references |
| GameController.FindGame | Sources/App/Controllers/GameController.swift:25-30 | 200 with the game iff a game has the id, 404 otherwise |
| GameController.CreateGame | Sources/App/Controllers/GameController.swift:33-65 | 404 and no change when no team has the home abbreviation, then the same for away; otherwise the stored game references the teams with those abbreviations (possibly the same team), has the type "reg" and tie-breaker false when absent and the current time when the start cannot be parsed; a failed write, a game type over 255 characters among them, is 500 with no change |
| GameController.SearchGames | Sources/App/Controllers/GameController.swift:68-70 | the answer is always 418 |
| PickController.FindPicks | Sources/App/Controllers/PickemController.swift:15-18 | the list holds every pick, each id once |
| PickController.FindPick | Sources/App/Controllers/PickemController.swift:21-26 | 200 with the pick iff a pick has the id, 404 otherwise |
| PickController.CreatePick | Sources/App/Controllers/PickemController.swift:29-48 | the body's `toModel()` is inserted with no check of its own; 200 iff the write does not fail and the pick's user, game and team exist and the user has no pick for the game; any database error is 400 (a duplicate pair or a dangling reference among them) and any other failure 500, both with no change; (user, game) pairs stay pairwise distinct |
| Scenarios.RepeatedTeamIsRejected | Sources/App/Controllers/TeamControlller.swift:38-45 | creating the same team twice: the first gets id 1, the second is 400 |
| Scenarios.RenameUser | Sources/App/Controllers/UserController.swift:88-101 | renaming a user to its own name is 418 and to a new name is 200 with the new name |
| Scenarios.SoftDeleteAndRestore | Sources/App/Controllers/UserController.swift:109-133 | after a delete the user cannot be found, its username still blocks sign-up, a restore brings it back, and restoring a live user is 404 |
| Scenarios.GameTeamsResolved | Sources/App/Controllers/GameController.swift:44-61 | an unknown away team is 404 and stores nothing; a game with the same team home and away is stored with the defaults filled in |
| Scenarios.DuplicatePickIsRejected | Sources/App/Controllers/PickemController.swift:39-43 | a second pick for the same user and game is 400 and the first stays; a pick naming a missing user is 400 |

## Left out

- Reading request bodies: each create and update handler is given its body already decoded as its DTO. In the source, `validate(content:)` reads the raw request inside the handler's `do`/`catch`. A body that is missing, is not JSON, or lacks a field (or has one of the wrong type) therefore answers 400 there, even for the game and pick bodies whose rule sets are empty. The model leaves these 400s out. Encoding of response bodies is not modelled either.
- Route registration (`boot`, `routes.swift`) and server configuration (`configure.swift`: database connection, environment lookup, TLS): plumbing with no rules.
- Failures of reads: queries and `find` are assumed to succeed; only writes can fail.
- `Bcrypt.verify` in `User.verify(password:)`: a foreign cryptographic call. The model stores the generated password as `randomPassword()` returns it, as the code does.
- Database collation: usernames and abbreviations are compared by exact string equality. A case-insensitive collation, which would make "GB" and "gb" collide, is not modelled.
- String widths are counted in characters; the database's own character counting is not modelled.
- Dates: whole seconds on one clock. `Date()` and the `DateFormatter` for "yyyy-MM-dd HH:mm:ss" are the parameters `now` and `parse`. Fractional seconds are not modelled.
- Integer widths: ids, seasons, weeks and scores are unbounded; 64-bit overflow is not modelled.
- Auto-increment keys: a failed insert does not consume a key here, while a database may skip one.
- UserController.Find: Fluent's soft-delete filter on `find` and on queries without `withDeleted()` is `delete_date IS NULL OR delete_date > now`, so a row whose deletion time lies in the future is still seen. The model's filter is "`deleted` is unset": it assumes every recorded deletion time is at or before the time of any later request, i.e. the clock never moves backward and no other server with a clock running ahead wrote the deletion. Under that assumption the two filters agree; without it, `FindUsers`, `FindUser`, `UpdateUser` and `DeleteUser` answer as if such a row were deleted where the source still sees it.
- UserController.RestoreUser: the model's restore clears only `deleted` and leaves `updated` as it was; no update timestamp is written on a restore.
- UserController.RestoreUser: the handler force-unwraps the id parameter; on a non-integer id that unwrap of `nil` is a runtime trap that stops the whole server process. The model takes the id as an integer and does not model the trap.
- UserController.UpdateUser: the 418 test compares usernames by code points, while Swift's `String` `!=` compares by canonical equivalence. A username stored as "é" (U+00E9) and sent back as "e" followed by U+0301 is "no change" (418) in Swift but a rename (200) in the model. Unicode normalisation is not modelled.
- Concurrency: handlers run one at a time. The check-then-insert race between two concurrent sign-ups or team creations is not modelled; the unique constraints would turn the loser's insert into a failed write.
- GameController.FindGames: the eager-loaded parents are given as a separate record beside the game rather than as filled-in properties.
- GameController.CreateGame and PickController.CreatePick: the validation step is not repeated in the method, because the game and pick create bodies declare no rule (`Games.ValidateCreate`, `Picks.ValidateCreate` prove every body passes), so it never answers 400 for a decoded body.
- `Pickem.UpdateDTO` and `Game.UpdateDTO` are declared as datatypes; no handler uses them.
- The migrations are used only as the store's constraints. That `CreatePickem` is never registered in `configure.swift`, and that `CreateGame.revert` drops the team table, are deployment matters outside the handlers.
- `TodoController` and `CreateTodo` are referenced by the configuration but are not part of this model.

/**
 * The `User` entity (Sources/App/Models/User.swift), its public projection,
 * the password generator, and the request body `User.DTO` with its single
 * validation rule (Sources/App/DTOs/UserDTO.swift).
 *
 * Dates are whole seconds on one clock; the model never reads the clock
 * itself, callers pass the current time in.
 */
module Users {
  import opened Http

  /** `60 * 60 * 24 * 90`: seconds in the 90 days a generated password stays valid. */
  const PasswordLifetime: int := 60 * 60 * 24 * 90

  /** A stored user row. `deleted` is the soft-delete timestamp: `None` means live. */
  datatype User = User(
    id: Option<int>,
    username: string,
    password: string,
    passwordExpires: int,
    admin: bool,
    created: Option<int>,
    updated: Option<int>,
    deleted: Option<int>)
  {
    /** Ordinary queries (`find`, `query`) see a row only while it is live. */
    predicate IsLive() {
      deleted.None?
    }
  }

  /** `User.Public`: what a response may show of a user. */
  datatype Public = Public(id: Option<int>, username: string)

  /** `User.DTO`: the body of a create or update request. */
  datatype DTO = DTO(username: string)

  /**
   * `User(username:)`: a fresh, unsaved user with the given password; it is
   * not an administrator and its password expires 90 days after `now`.
   */
  function NewUser(username: string, password: string, now: int): (u: User)
    ensures u.id.None? && u.username == username && u.password == password
    ensures !u.admin && u.passwordExpires == now + 7_776_000
    ensures u.IsLive() && u.created.None? && u.updated.None?
  {
    User(None, username, password, now + PasswordLifetime, false, None, None, None)
  }

  /** `convertToPublic()` on one user. */
  function ConvertToPublic(u: User): Public {
    Public(u.id, u.username)
  }

  /**
   * The public shape keeps exactly the id and the username: two users have
   * the same public shape precisely when those two fields agree, whatever
   * their passwords, expiry dates, admin flags and timestamps.
   */
  lemma PublicShapeIsIdAndUsername(u: User, v: User)
    ensures ConvertToPublic(u) == ConvertToPublic(v) <==> u.id == v.id && u.username == v.username
    ensures ConvertToPublic(u).id == u.id && ConvertToPublic(u).username == u.username
  {
  }

  /** `convertToPublic()` on a collection: the single conversion applied element by element. */
  function ConvertAllToPublic(us: seq<User>): (ps: seq<Public>)
    ensures |ps| == |us|
    ensures forall i :: 0 <= i < |us| ==> ps[i] == ConvertToPublic(us[i])
  {
    if us == [] then [] else [ConvertToPublic(us[0])] + ConvertAllToPublic(us[1..])
  }

  /** `User.DTO.validations`: the username must not be empty; nothing else is checked. */
  predicate Validate(dto: DTO) {
    dto.username != ""
  }

  /** Validation fails exactly on the empty username. */
  lemma ValidationRejectsOnlyEmpty(dto: DTO)
    ensures !Validate(dto) <==> dto.username == []
    ensures Validate(dto) <==> |dto.username| >= 1
  {
  }

  /** A username made only of blanks passes validation. */
  lemma BlankUsernamePasses(n: nat)
    requires n > 0
    ensures Validate(DTO(seq(n, _ => ' ')))
  {
  }

  /**
   * The rule sets no upper bound, although the `username` column is
   * `VARCHAR(32)` (Sources/App/Migrations/CreateUser.swift:17).
   */
  lemma ValidationHasNoLengthBound(dto: DTO)
    requires |dto.username| > 32
    ensures Validate(dto)
  {
  }

  // ---------------------------------------------------------------------
  // randomPassword()

  /** The 54 characters a password is drawn from. */
  const Alphabet: string := "abcdefghjkmnpqrstuvwxyzABCDEFGHJKMNPQRSTUVWXYZ12345789"

  /** The three runs the alphabet is made of. */
  const LowerRun: string := "abcdefghjkmnpqrstuvwxyz"
  const UpperRun: string := "ABCDEFGHJKMNPQRSTUVWXYZ"
  const DigitRun: string := "12345789"

  /** The length of a generated password. */
  const PasswordLength: int := 11

  /** The number of random draws one password consumes. */
  const DrawCount: int := 9

  /** Glyphs that are easy to confuse, and the separator: none is ever drawn. */
  predicate IsExcluded(c: char) {
    c == '-' || c == 'i' || c == 'l' || c == 'o' || c == 'I' || c == 'L' || c == 'O' || c == '0' || c == '6'
  }

  /** A letter or a digit. */
  predicate IsAlphanumeric(c: char) {
    'a' <= c <= 'z' || 'A' <= c <= 'Z' || '0' <= c <= '9'
  }

  /** Positions the loop skips, which keep the initial '-'. */
  predicate IsSeparatorPosition(i: int) {
    i == 3 || i == 7
  }

  lemma LowerRunExact(c: char)
    ensures c in LowerRun <==> 'a' <= c <= 'z' && !IsExcluded(c)
  {
  }

  lemma UpperRunExact(c: char)
    ensures c in UpperRun <==> 'A' <= c <= 'Z' && !IsExcluded(c)
  {
  }

  lemma DigitRunExact(c: char)
    ensures c in DigitRun <==> '0' <= c <= '9' && !IsExcluded(c)
  {
  }

  /**
   * The alphabet is exactly the letters and digits that are not excluded:
   * it holds 54 characters, none of them '-', 'i', 'l', 'o', 'I', 'L', 'O',
   * '0' or '6'.
   */
  lemma AlphabetIsUnambiguousAlphanumerics()
    ensures |Alphabet| == 54
    ensures forall c :: c in Alphabet <==> IsAlphanumeric(c) && !IsExcluded(c)
  {
    AlphabetIsRuns();
    forall c ensures c in Alphabet <==> IsAlphanumeric(c) && !IsExcluded(c) {
      LowerRunExact(c);
      UpperRunExact(c);
      DigitRunExact(c);
    }
  }

  /**
   * The position a character holds in the alphabet, computed from its code:
   * within each run, the distance from the run's first character less the
   * excluded glyphs passed on the way.
   */
  function Rank(c: char): int {
    if 'a' <= c <= 'z' then
      (c as int - 'a' as int) - (if c > 'i' then 1 else 0) - (if c > 'l' then 1 else 0) - (if c > 'o' then 1 else 0)
    else if 'A' <= c <= 'Z' then
      |LowerRun| + (c as int - 'A' as int) - (if c > 'I' then 1 else 0) - (if c > 'L' then 1 else 0) - (if c > 'O' then 1 else 0)
    else
      |LowerRun| + |UpperRun| + (c as int - '1' as int) - (if c > '6' then 1 else 0)
  }

  lemma LowerRunRanked(k: int)
    requires 0 <= k < |LowerRun|
    ensures Rank(LowerRun[k]) == k
  {
  }

  lemma UpperRunRanked(k: int)
    requires 0 <= k < |UpperRun|
    ensures Rank(UpperRun[k]) == 23 + k
  {
  }

  lemma DigitRunRanked(k: int)
    requires 0 <= k < |DigitRun|
    ensures Rank(DigitRun[k]) == 46 + k
  {
  }

  /** Each character's rank is its index: the alphabet is in rank order. */
  lemma AlphabetRanked(k: int)
    requires 0 <= k < |Alphabet|
    ensures Rank(Alphabet[k]) == k
  {
    AlphabetIsRuns();
    if k < 23 {
      assert Alphabet[k] == LowerRun[k];
      LowerRunRanked(k);
    } else if k < 46 {
      assert Alphabet[k] == UpperRun[k - 23];
      UpperRunRanked(k - 23);
    } else {
      assert Alphabet[k] == DigitRun[k - 46];
      DigitRunRanked(k - 46);
    }
  }

  /** The alphabet lists each character once. */
  lemma AlphabetHasNoRepeats(i: int, j: int)
    requires 0 <= i < |Alphabet| && 0 <= j < |Alphabet| && Alphabet[i] == Alphabet[j]
    ensures i == j
  {
    AlphabetRanked(i);
    AlphabetRanked(j);
  }

  /** The alphabet is its three runs, one after the other. */
  lemma AlphabetIsRuns()
    ensures Alphabet == LowerRun + UpperRun + DigitRun
  {
  }

  /** Which of the draws fills non-separator position `i`: the draws are used in order. */
  function DrawFor(i: int): (k: int)
    requires 0 <= i < PasswordLength && !IsSeparatorPosition(i)
    ensures 0 <= k < DrawCount
  {
    if i < 3 then i else if i < 7 then i - 1 else i - 2
  }

  /** The shape every generated password has. */
  predicate IsGeneratedShape(pw: string) {
    |pw| == PasswordLength &&
    (forall i :: 0 <= i < |pw| && IsSeparatorPosition(i) ==> pw[i] == '-') &&
    (forall i :: 0 <= i < |pw| && !IsSeparatorPosition(i) ==> pw[i] in Alphabet)
  }

  /** Draws the random generator can return: indices into the alphabet, one per filled position. */
  predicate AreDraws(draws: seq<int>) {
    |draws| == DrawCount && forall k :: 0 <= k < |draws| ==> 0 <= draws[k] < |Alphabet|
  }

  /**
   * The password the draws produce: '-' at positions 3 and 7, and the
   * alphabet character each draw selects everywhere else.
   */
  function PasswordFrom(draws: seq<int>): (pw: string)
    requires AreDraws(draws)
    ensures IsGeneratedShape(pw)
  {
    seq(PasswordLength, i requires 0 <= i < PasswordLength =>
      if IsSeparatorPosition(i) then '-' else Alphabet[draws[DrawFor(i)]])
  }

  /**
   * Distinct draws give distinct passwords, because the alphabet has no
   * repeated character: the generator can produce 54^9 passwords.
   */
  lemma PasswordFromIsInjective(d1: seq<int>, d2: seq<int>)
    requires AreDraws(d1) && AreDraws(d2)
    requires PasswordFrom(d1) == PasswordFrom(d2)
    ensures d1 == d2
  {
    forall k | 0 <= k < DrawCount ensures d1[k] == d2[k] {
      var i := if k < 3 then k else if k < 6 then k + 1 else k + 2;
      assert DrawFor(i) == k;
      assert PasswordFrom(d1)[i] == Alphabet[d1[k]];
      assert PasswordFrom(d2)[i] == Alphabet[d2[k]];
      AlphabetHasNoRepeats(d1[k], d2[k]);
    }
  }

  /**
   * `randomPassword()`: an 11-character array initialised to '-' is filled
   * at every position except 3 and 7 with `Alphabet[r]` for a random `r`.
   * The random numbers are the `draws`, in the order the loop consumes them.
   */
  method RandomPassword(draws: seq<int>) returns (pw: string)
    requires AreDraws(draws)
    ensures pw == PasswordFrom(draws)
    ensures |pw| == 11 && pw[3] == '-' && pw[7] == '-'
  {
    var result := new char[PasswordLength](_ => '-');
    var used := 0;
    for i := 0 to PasswordLength
      invariant used == if i <= 3 then i else if i <= 7 then i - 1 else i - 2
      invariant forall j :: 0 <= j < i && IsSeparatorPosition(j) ==> result[j] == '-'
      invariant forall j :: 0 <= j < i && !IsSeparatorPosition(j) ==> result[j] == Alphabet[draws[DrawFor(j)]]
      invariant forall j :: i <= j < PasswordLength ==> result[j] == '-'
    {
      if i == 3 || i == 7 {
        continue;
      }
      result[i] := Alphabet[draws[used]];
      used := used + 1;
    }
    pw := result[..];
  }

  /** No generated password contains a confusable glyph, and '-' occurs only as the separator. */
  lemma GeneratedPasswordAvoidsExcluded(pw: string)
    requires IsGeneratedShape(pw)
    ensures forall i :: 0 <= i < |pw| && !IsSeparatorPosition(i) ==> !IsExcluded(pw[i])
    ensures forall i :: 0 <= i < |pw| ==> (pw[i] == '-' <==> IsSeparatorPosition(i))
  {
    AlphabetIsUnambiguousAlphanumerics();
  }
}

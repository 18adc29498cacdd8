/** `UserService`: sign-up with its format checks and a fresh API key,
    login, changing the name and the password, withdrawal with its cascade
    to pins and likes, and the figures of the user's own page. Hashing is
    the password encoder's, a parameter; the UUID generator is the sequence
    of keys it would hand out. */
module UserService {
  import opened Wrappers
  import opened Tables
  import opened JavaNumbers
  import opened Text
  import opened ErrorCodes
  import opened Users
  import opened Pins
  import opened PinRepositories
  import opened LikesTable
  import LikesService
  import PinService

  /** Spring's `PasswordEncoder`: `encode` hashes a raw password and
      `matches(raw, hash)` checks one against a stored hash. */
  datatype PasswordEncoder = PasswordEncoder(encode: string -> string, matches: (string, string) -> bool)

  /** What every encoder promises: a password matches its own hash. */
  ghost predicate Sound(enc: PasswordEncoder) {
    forall raw :: enc.matches(raw, enc.encode(raw))
  }

  // ---------------------------------------------------------------- formats

  predicate LocalChar(c: char) {
    || ('A' <= c <= 'Z') || ('a' <= c <= 'z') || ('0' <= c <= '9')
    || c == '.' || c == '_' || c == '%' || c == '+' || c == '-'
  }

  predicate HostChar(c: char) {
    ('A' <= c <= 'Z') || ('a' <= c <= 'z') || ('0' <= c <= '9') || c == '.' || c == '-'
  }

  predicate AsciiLetter(c: char) {
    ('A' <= c <= 'Z') || ('a' <= c <= 'z')
  }

  /** `s` read as `[A-Za-z0-9._%+-]+` up to the `@` at `at`, `[A-Za-z0-9.-]+`
      up to the `.` at `dot`, and two to six letters after it. */
  predicate EmailSplit(s: string, at: int, dot: int) {
    && 0 < at && at + 1 < dot && dot + 3 <= |s| <= dot + 7
    && s[at] == '@' && s[dot] == '.'
    && (forall k :: 0 <= k < at ==> LocalChar(s[k]))
    && (forall k :: at < k < dot ==> HostChar(s[k]))
    && (forall k :: dot < k < |s| ==> AsciiLetter(s[k]))
  }

  /** `s.matches("^[A-Za-z0-9._%+-]+@[A-Za-z0-9.-]+\\.[A-Za-z]{2,6}$")`:
      the whole string has such a split. */
  predicate EmailMatches(s: string) {
    exists at, dot | 0 <= at < |s| && 0 <= dot < |s| :: EmailSplit(s, at, dot)
  }

  /** The email check of `createUser`: null, blank, or not of the pattern. */
  predicate BadEmail(email: Option<string>) {
    email.None? || IsJavaBlank(email.value) || !EmailMatches(email.value)
  }

  /** The password check of `createUser`, `editPwd` and `editAll`: null,
      blank, or shorter than 8 UTF-16 units. */
  predicate BadPassword(password: Option<string>) {
    password.None? || IsJavaBlank(password.value) || JavaLength(password.value) < 8
  }

  /** The user-name check of `createUser`, `editName` and `editAll`: null,
      blank, or not 2 to 20 UTF-16 units long. */
  predicate BadUserName(userName: Option<string>) {
    userName.None? || IsJavaBlank(userName.value) || JavaLength(userName.value) < 2 || JavaLength(userName.value) > 20
  }

  /** An address of the pattern has exactly one `@`, and it is not blank, so
      the blank test before the pattern never decides anything. */
  lemma {:induction false} EmailShape(s: string)
    requires EmailMatches(s)
    ensures !IsJavaBlank(s)
    ensures exists at :: 0 < at < |s| - 1 && s[at] == '@' && forall k :: 0 <= k < |s| && k != at ==> s[k] != '@'
  {
    var at, dot :| 0 <= at < |s| && 0 <= dot < |s| && EmailSplit(s, at, dot);
    assert LocalChar(s[0]);
    assert !IsJavaWhitespace(s[0]);
    forall k | 0 <= k < |s| && k != at
      ensures s[k] != '@'
    {
      if k < at {
        assert LocalChar(s[k]);
      } else if k < dot {
        assert HostChar(s[k]);
      } else if k > dot {
        assert AsciiLetter(s[k]);
      }
    }
  }

  /** The addresses the sign-up tests use are accepted; the one without a
      domain and the one-letter name are refused. */
  lemma FormatExamples()
    ensures !BadEmail(Some("user1@example.com"))
    ensures BadEmail(Some("yunseo+"))
    ensures BadUserName(Some("냠"))
    ensures !BadUserName(Some("감자"))
  {
    assert EmailSplit("user1@example.com", 5, 13);
    assert !IsJavaWhitespace("user1@example.com"[0]);
    assert !IsJavaWhitespace("감자"[0]);
    assert JavaLength("냠") == 1;
    assert JavaLength("감자") == 2;
    forall at, dot | 0 <= at < |"yunseo+"| && 0 <= dot < |"yunseo+"|
      ensures !EmailSplit("yunseo+", at, dot)
    {
      assert "yunseo+"[at] != '@';
    }
  }

  // ------------------------------------------------------------- API keys

  /** `ensureApiKey` hands out a key when the user has none or a blank one. */
  predicate NeedsKey(u: User) {
    u.apiKey.None? || IsJavaBlank(u.apiKey.value)
  }

  /** `!existsByApiKey(key)`. */
  predicate KeyFree(users: UserTable, key: string) {
    FindByApiKey(users, key).None?
  }

  /** Some UUID the generator hands out is one no user holds. */
  predicate SomeDrawFree(users: UserTable, draws: seq<string>) {
    exists k :: 0 <= k < |draws| && KeyFree(users, draws[k])
  }

  /** The position of the first draw no user holds: where the retry loop of
      `ensureApiKey` stops. */
  function FirstFreeDraw(users: UserTable, draws: seq<string>): (n: nat)
    requires SomeDrawFree(users, draws)
    ensures n < |draws| && KeyFree(users, draws[n])
    ensures forall m :: 0 <= m < n ==> !KeyFree(users, draws[m])
  {
    if KeyFree(users, draws[0]) then 0
    else
      assert forall k :: 1 <= k < |draws| ==> draws[k] == draws[1..][k - 1];
      1 + FirstFreeDraw(users, draws[1..])
  }

  /** A user without a key does not change which draws are free. */
  lemma {:induction false} FirstFreeDrawIgnoresKeyless(users: UserTable, u: User, draws: seq<string>)
    requires SomeDrawFree(users, draws) && u.apiKey.None?
    ensures SomeDrawFree(users + [u], draws)
    ensures FirstFreeDraw(users + [u], draws) == FirstFreeDraw(users, draws)
  {
    assert forall key :: KeyFree(users + [u], key) <==> KeyFree(users, key) by {
      forall key
        ensures KeyFree(users + [u], key) <==> KeyFree(users, key)
      {
        assert forall k :: 0 <= k < |users| ==> (users + [u])[k] == users[k];
        assert (users + [u])[|users|] == u;
      }
    }
    if !KeyFree(users, draws[0]) {
      assert forall k :: 1 <= k < |draws| ==> draws[k] == draws[1..][k - 1];
      FirstFreeDrawIgnoresKeyless(users, u, draws[1..]);
    }
  }

  /** `ensureApiKey`: a non-blank key is kept; otherwise the loop draws until
      no user holds the key, which the user then gets. Either way the key
      returned finds the user. */
  method EnsureApiKey(repo: UserRepository, userId: int, draws: seq<string>) returns (key: string)
    requires repo.Valid() && FindById(repo.users, userId).Some?
    requires NeedsKey(FindById(repo.users, userId).value) ==> SomeDrawFree(repo.users, draws)
    modifies repo
    ensures repo.Valid() && repo.nextId == old(repo.nextId)
    ensures !NeedsKey(old(FindById(repo.users, userId)).value) ==>
      && Some(key) == old(FindById(repo.users, userId)).value.apiKey
      && repo.users == old(repo.users)
    ensures NeedsKey(old(FindById(repo.users, userId)).value) ==>
      && key == draws[FirstFreeDraw(old(repo.users), draws)]
      && repo.users == ReplaceRow(old(repo.users), userId, old(FindById(repo.users, userId)).value.(apiKey := Some(key)))
    ensures FindById(repo.users, userId).Some? && FindByApiKey(repo.users, key) == FindById(repo.users, userId)
  {
    var k :| 0 <= k < |repo.users| && repo.users[k].id == userId;
    IdFinds(repo.users, repo.nextId, k);
    var u := repo.users[k];
    if !NeedsKey(u) {
      KeyFinds(repo.users, repo.nextId, k);
      return u.apiKey.value;
    }
    key := DrawFreeKey(repo.users, draws);
    repo.Save(u.(apiKey := Some(key)));
    ReplacedRowFound(old(repo.users), repo.nextId, k, u.(apiKey := Some(key)));
  }

  /** The retry loop of `ensureApiKey`: draw until the key is one no user
      holds. */
  method DrawFreeKey(users: UserTable, draws: seq<string>) returns (key: string)
    requires SomeDrawFree(users, draws)
    ensures key == draws[FirstFreeDraw(users, draws)]
    ensures KeyFree(users, key)
  {
    var n := 0;
    key := draws[0];
    while !KeyFree(users, key)
      invariant n <= FirstFreeDraw(users, draws) && key == draws[n]
      decreases FirstFreeDraw(users, draws) - n
    {
      n := n + 1;
      key := draws[n];
    }
  }

  /** After a row is replaced in a well-formed table, its id and its key
      find the new row. */
  lemma ReplacedRowFound(before: UserTable, nextId: int, k: nat, row: User)
    requires k < |before| && before[k].id == row.id
    requires WellFormed(ReplaceRow(before, row.id, row), nextId)
    ensures ReplaceRow(before, row.id, row)[k] == row
    ensures FindById(ReplaceRow(before, row.id, row), row.id) == Some(row)
    ensures row.apiKey.Some? ==> FindByApiKey(ReplaceRow(before, row.id, row), row.apiKey.value) == Some(row)
  {
    var after := ReplaceRow(before, row.id, row);
    IdFinds(after, nextId, k);
    if row.apiKey.Some? {
      KeyFinds(after, nextId, k);
    }
  }

  // -------------------------------------------------------- sign-up, login

  /** The checks of `createUser` in their order; the first failure wins. */
  function SignUpFault(users: UserTable, email: Option<string>, password: Option<string>, userName: Option<string>)
    : (r: Option<ErrorCode>)
    ensures r.None? <==>
      && !BadEmail(email) && !BadPassword(password) && !BadUserName(userName)
      && FindByEmail(users, email.value).None? && !ExistsByUserName(users, userName.value)
    ensures BadEmail(email) ==> r == Some(INVALID_EMAIL_FORMAT)
    ensures !BadEmail(email) && BadPassword(password) ==> r == Some(INVALID_PASSWORD_FORMAT)
    ensures !BadEmail(email) && !BadPassword(password) && BadUserName(userName) ==> r == Some(INVALID_USERNAME_FORMAT)
    ensures r.Some? && r.value !in {INVALID_EMAIL_FORMAT, INVALID_PASSWORD_FORMAT, INVALID_USERNAME_FORMAT} ==>
      && (r.value == EMAIL_ALREADY_EXISTS <==> FindByEmail(users, email.value).Some?)
      && (r.value == NICKNAME_ALREADY_EXISTS ==> ExistsByUserName(users, userName.value))
  {
    if BadEmail(email) then Some(INVALID_EMAIL_FORMAT)
    else if BadPassword(password) then Some(INVALID_PASSWORD_FORMAT)
    else if BadUserName(userName) then Some(INVALID_USERNAME_FORMAT)
    else if FindByEmail(users, email.value).Some? then Some(EMAIL_ALREADY_EXISTS)
    else if ExistsByUserName(users, userName.value) then Some(NICKNAME_ALREADY_EXISTS)
    else None
  }

  /** `login`: an unknown email, then a password that does not match the
      stored hash. A withdrawn user is not refused. */
  function Login(users: UserTable, enc: PasswordEncoder, email: string, rawPwd: string): (err: Option<ErrorCode>)
    ensures err == Some(USER_NOT_FOUND) <==> FindByEmail(users, email).None?
    ensures err.None? <==> FindByEmail(users, email).Some? && enc.matches(rawPwd, FindByEmail(users, email).value.password)
    ensures err.Some? ==> err.value == USER_NOT_FOUND || err.value == PASSWORD_NOT_MATCH
  {
    match FindByEmail(users, email)
    case None => Some(USER_NOT_FOUND)
    case Some(u) => if !enc.matches(rawPwd, u.password) then Some(PASSWORD_NOT_MATCH) else None
  }

  /** `createUser`: on success the new row holds the hash of the password
      and the first free key drawn, and the user can log in with the
      password and be found by the key. */
  method CreateUser(repo: UserRepository, enc: PasswordEncoder, email: Option<string>, password: Option<string>,
                    userName: Option<string>, draws: seq<string>) returns (r: Result<User, ErrorCode>)
    requires repo.Valid() && SomeDrawFree(repo.users, draws)
    modifies repo
    ensures repo.Valid()
    ensures r.Err? <==> old(SignUpFault(repo.users, email, password, userName)).Some?
    ensures r.Err? ==> r.error == old(SignUpFault(repo.users, email, password, userName)).value && repo.users == old(repo.users)
    ensures r.Ok? ==>
      && r.value == User(old(repo.nextId), email.value, enc.encode(password.value), userName.value,
                         Some(draws[FirstFreeDraw(old(repo.users), draws)]), false)
      && repo.users == old(repo.users) + [r.value]
      && FindByApiKey(repo.users, r.value.apiKey.value) == Some(r.value)
      && (Sound(enc) ==> Login(repo.users, enc, email.value, password.value).None?)
  {
    var fault := SignUpFault(repo.users, email, password, userName);
    if fault.Some? {
      return Err(fault.value);
    }
    ghost var before := repo.users;
    var u := repo.Insert(email.value, enc.encode(password.value), userName.value);
    FirstFreeDrawIgnoresKeyless(before, u, draws);
    IdFinds(repo.users, repo.nextId, |before|);
    var key := EnsureApiKey(repo, u.id, draws);
    var created := u.(apiKey := Some(key));
    ReplaceLastRow(before, u, created);
    EmailFinds(repo.users, |before|);
    r := Ok(created);
  }

  /** Replacing the row of the user just appended, whose id no earlier row
      has, changes only the last row. */
  lemma ReplaceLastRow(before: UserTable, u: User, row: User)
    requires WellFormed(before, u.id)
    ensures ReplaceRow(before + [u], u.id, row) == before + [row]
  {
    var after := ReplaceRow(before + [u], u.id, row);
    forall j | 0 <= j < |before|
      ensures after[j] == before[j]
    {
      assert (before + [u])[j] == before[j];
    }
  }

  /** Neither the sign-up check nor the rename check lets two users share a
      name, though the column has no unique constraint. */
  ghost predicate DistinctNames(users: UserTable) {
    forall i, j :: 0 <= i < j < |users| ==> users[i].userName != users[j].userName
  }

  lemma SignUpKeepsNamesDistinct(users: UserTable, email: Option<string>, password: Option<string>,
                                 userName: Option<string>, u: User)
    requires DistinctNames(users) && SignUpFault(users, email, password, userName).None?
    requires u.userName == userName.value
    ensures DistinctNames(users + [u])
  {
    forall i, j | 0 <= i < j < |users| + 1
      ensures (users + [u])[i].userName != (users + [u])[j].userName
    {
      if j == |users| {
        assert (users + [u])[i] == users[i];
      }
    }
  }

  /** A withdrawn user logs in as before: `login` does not look at the flag. */
  lemma {:induction false} LoginIgnoresWithdrawal(users: UserTable, nextId: int, enc: PasswordEncoder, id: int,
                                                  email: string, rawPwd: string)
    requires WellFormed(users, nextId) && FindById(users, id).Some?
    ensures Login(ReplaceRow(users, id, FindById(users, id).value.(deleted := true)), enc, email, rawPwd)
         == Login(users, enc, email, rawPwd)
  {
    EmailLookupAfterReplace(users, nextId, id, FindById(users, id).value.(deleted := true), email);
  }

  // ------------------------------------------------------------ edits

  /** `nameChanged`: present, not blank, and different from the current name
      once trimmed. */
  predicate NameChanged(u: User, newName: Option<string>) {
    newName.Some? && !IsJavaBlank(newName.value) && Trim(newName.value) != u.userName
  }

  /** `passwordChanged`: present, not blank, and not matching the stored hash. */
  predicate PasswordChanged(enc: PasswordEncoder, u: User, newPwd: Option<string>) {
    newPwd.Some? && !IsJavaBlank(newPwd.value) && !enc.matches(newPwd.value, u.password)
  }

  /** What `editName` makes of user `u`: the user as saved, or the error. */
  function Renamed(users: UserTable, u: User, newName: Option<string>): (r: Result<User, ErrorCode>)
    ensures r.Err? <==> BadUserName(newName) || (newName.value != u.userName && ExistsByUserNameAndIdNot(users, newName.value, u.id))
    ensures r.Err? ==> r.error == (if BadUserName(newName) then INVALID_USERNAME_FORMAT else NICKNAME_ALREADY_EXISTS)
    ensures r.Ok? ==> r.value == u.(userName := newName.value)
  {
    if BadUserName(newName) then Err(INVALID_USERNAME_FORMAT)
    else if newName.value == u.userName then Ok(u)
    else if ExistsByUserNameAndIdNot(users, newName.value, u.id) then Err(NICKNAME_ALREADY_EXISTS)
    else Ok(u.(userName := newName.value))
  }

  /** What `editPwd` makes of user `u`. The "no change" test compares the raw
      new password with the stored hash. */
  function Repassed(enc: PasswordEncoder, u: User, newPwd: Option<string>): (r: Result<User, ErrorCode>)
    ensures r.Err? <==> BadPassword(newPwd)
    ensures r.Err? ==> r.error == INVALID_PASSWORD_FORMAT
    ensures r.Ok? ==> r.value.(password := u.password) == u
    ensures r.Ok? && newPwd.value != u.password ==> r.value.password == enc.encode(newPwd.value)
  {
    if BadPassword(newPwd) then Err(INVALID_PASSWORD_FORMAT)
    else if newPwd.value == u.password then Ok(u)
    else Ok(u.(password := enc.encode(newPwd.value)))
  }

  /** An encoder that stores `"h:"` before the raw password. */
  function Prefixing(): PasswordEncoder {
    PasswordEncoder((raw: string) => "h:" + raw, (raw: string, hash: string) => hash == "h:" + raw)
  }

  /** The raw-against-hash comparison of `editPwd`: a user who asks for
      their stored hash as the new password is told the password changed,
      the edit succeeds, nothing is stored, and the new password does not
      log in (the encoder does not match a hash against itself). */
  lemma HashAsNewPasswordIgnored(users: UserTable, enc: PasswordEncoder, u: User)
    requires FindById(users, u.id) == Some(u) && FindByEmail(users, u.email) == Some(u)
    requires !BadPassword(Some(u.password)) && !enc.matches(u.password, u.password)
    ensures PasswordChanged(enc, u, Some(u.password))
    ensures EditUserInfoOutcome(users, enc, u.id, None, Some(u.password)) == Ok(u)
    ensures Login(users, enc, u.email, u.password) == Some(PASSWORD_NOT_MATCH)
  {
    assert !NameChanged(u, None);
  }

  /** The input that shows it: an encoder that stores `"h:"` before the raw
      password, and a user whose stored hash is `"h:password1"`. */
  lemma HashAsNewPasswordExample()
    ensures Sound(Prefixing())
    ensures var u := User(1, "user1@example.com", "h:password1", "user1", None, false);
      && FindById([u], u.id) == Some(u) && FindByEmail([u], u.email) == Some(u)
      && !BadPassword(Some(u.password)) && !Prefixing().matches(u.password, u.password)
  {
    var u := User(1, "user1@example.com", "h:password1", "user1", None, false);
    assert !Prefixing().matches(u.password, u.password) by {
      assert |"h:" + u.password| != |u.password|;
    }
    assert !BadPassword(Some(u.password)) by {
      assert !IsJavaWhitespace(u.password[0]);
      assert JavaLength(u.password) == |u.password|;
    }
  }

  /** `editPwd` with the "no change" test the encoder supports: the raw
      password is matched against the stored hash. */
  function RepassedIntended(enc: PasswordEncoder, u: User, newPwd: Option<string>): (r: Result<User, ErrorCode>)
    ensures r.Err? <==> BadPassword(newPwd)
    ensures r.Err? ==> r.error == INVALID_PASSWORD_FORMAT
    ensures r.Ok? ==> r.value.(password := u.password) == u
  {
    if BadPassword(newPwd) then Err(INVALID_PASSWORD_FORMAT)
    else if enc.matches(newPwd.value, u.password) then Ok(u)
    else Ok(u.(password := enc.encode(newPwd.value)))
  }

  /** With the intended test, every accepted new password is one the stored
      hash matches afterwards. */
  lemma RepassedIntendedLogsIn(enc: PasswordEncoder, u: User, newPwd: Option<string>)
    requires Sound(enc) && RepassedIntended(enc, u, newPwd).Ok?
    ensures enc.matches(newPwd.value, RepassedIntended(enc, u, newPwd).value.password)
  {
  }

  /** What `editAll` makes of user `u`: the name checks, then the password
      check, then both fields, unless both equal the stored ones. */
  function EditedAll(users: UserTable, enc: PasswordEncoder, u: User, newName: Option<string>, newPwd: Option<string>)
    : (r: Result<User, ErrorCode>)
    ensures r.Err? <==> BadUserName(newName) || ExistsByUserNameAndIdNot(users, newName.value, u.id) || BadPassword(newPwd)
    ensures r.Err? ==> r.error == (if BadUserName(newName) then INVALID_USERNAME_FORMAT
                                   else if ExistsByUserNameAndIdNot(users, newName.value, u.id) then NICKNAME_ALREADY_EXISTS
                                   else INVALID_PASSWORD_FORMAT)
    ensures r.Ok? ==> r.value.userName == newName.value && r.value.(userName := u.userName, password := u.password) == u
    ensures r.Ok? && (newPwd.value != u.password || newName.value != u.userName) ==> r.value.password == enc.encode(newPwd.value)
  {
    if BadUserName(newName) then Err(INVALID_USERNAME_FORMAT)
    else if ExistsByUserNameAndIdNot(users, newName.value, u.id) then Err(NICKNAME_ALREADY_EXISTS)
    else if BadPassword(newPwd) then Err(INVALID_PASSWORD_FORMAT)
    else if newPwd.value == u.password && newName.value == u.userName then Ok(u)
    else Ok(u.(userName := newName.value, password := enc.encode(newPwd.value)))
  }

  /** What `editUserInfo` makes of user `userId`: the edit chosen by which
      fields changed, or NO_FIELDS_TO_UPDATE when neither did. */
  function EditUserInfoOutcome(users: UserTable, enc: PasswordEncoder, userId: int, newName: Option<string>,
                               newPwd: Option<string>): (r: Result<User, ErrorCode>)
    ensures FindById(users, userId).None? ==> r == Err(USER_NOT_FOUND)
    ensures r == Err(NO_FIELDS_TO_UPDATE) <==>
      FindById(users, userId).Some? && !NameChanged(FindById(users, userId).value, newName)
      && !PasswordChanged(enc, FindById(users, userId).value, newPwd)
    ensures r.Ok? ==> (FindById(users, userId).Some? &&
      r.value.(userName := FindById(users, userId).value.userName, password := FindById(users, userId).value.password)
        == FindById(users, userId).value)
  {
    match FindById(users, userId)
    case None => Err(USER_NOT_FOUND)
    case Some(u) =>
      var nameChanged := NameChanged(u, newName);
      var pwdChanged := PasswordChanged(enc, u, newPwd);
      if nameChanged && pwdChanged then EditedAll(users, enc, u, newName, newPwd)
      else if nameChanged then Renamed(users, u, newName)
      else if pwdChanged then Repassed(enc, u, newPwd)
      else Err(NO_FIELDS_TO_UPDATE)
  }

  /** A successful edit stores the name it was given, as given. */
  lemma EditStoresName(users: UserTable, enc: PasswordEncoder, userId: int, newName: Option<string>, newPwd: Option<string>)
    requires FindById(users, userId).Some? && NameChanged(FindById(users, userId).value, newName)
    requires EditUserInfoOutcome(users, enc, userId, newName, newPwd).Ok?
    ensures EditUserInfoOutcome(users, enc, userId, newName, newPwd).value.userName == newName.value
  {
  }

  /** After a successful edit that changed the password, the user logs in
      with the new one, unless the new password was the stored hash itself. */
  lemma {:induction false} EditedPasswordLogsIn(users: UserTable, nextId: int, enc: PasswordEncoder, userId: int,
                                                newName: Option<string>, newPwd: Option<string>)
    requires WellFormed(users, nextId) && Sound(enc)
    requires FindById(users, userId).Some? && PasswordChanged(enc, FindById(users, userId).value, newPwd)
    requires newPwd.value != FindById(users, userId).value.password
    requires EditUserInfoOutcome(users, enc, userId, newName, newPwd).Ok?
    ensures Login(ReplaceRow(users, userId, EditUserInfoOutcome(users, enc, userId, newName, newPwd).value), enc,
                  FindById(users, userId).value.email, newPwd.value).None?
  {
    var u := FindById(users, userId).value;
    var row := EditUserInfoOutcome(users, enc, userId, newName, newPwd).value;
    assert row.password == enc.encode(newPwd.value);
    var i :| 0 <= i < |users| && users[i] == u;
    EmailFinds(users, i);
    EmailLookupAfterReplace(users, nextId, userId, row, u.email);
  }

  /** A user whose new name is taken by someone else is refused, so names
      stay distinct through every edit. */
  lemma {:induction false} EditKeepsNamesDistinct(users: UserTable, nextId: int, enc: PasswordEncoder, userId: int,
                                                  newName: Option<string>, newPwd: Option<string>)
    requires WellFormed(users, nextId) && DistinctNames(users)
    requires EditUserInfoOutcome(users, enc, userId, newName, newPwd).Ok?
    ensures DistinctNames(ReplaceRow(users, userId, EditUserInfoOutcome(users, enc, userId, newName, newPwd).value))
  {
    var u := FindById(users, userId).value;
    var row := EditUserInfoOutcome(users, enc, userId, newName, newPwd).value;
    var after := ReplaceRow(users, userId, row);
    var i :| 0 <= i < |users| && users[i] == u;
    assert row.userName == u.userName || !ExistsByUserNameAndIdNot(users, row.userName, userId);
    forall a, b | 0 <= a < b < |after|
      ensures after[a].userName != after[b].userName
    {
      if users[a].id == userId {
        assert a == i;
      } else if users[b].id == userId {
        assert b == i;
      }
    }
  }

  /** The edits as a transaction: the row with the user's id takes the
      outcome, or nothing changes and the error is returned. */
  ghost predicate Applied(before: UserTable, after: UserTable, userId: int, outcome: Result<User, ErrorCode>,
                          err: Option<ErrorCode>) {
    match outcome
    case Err(e) => err == Some(e) && after == before
    case Ok(u) => err.None? && after == ReplaceRow(before, userId, u)
  }

  /** Saves an edited row: the id, email and key are the stored user's. */
  method SaveEdited(repo: UserRepository, userId: int, outcome: Result<User, ErrorCode>) returns (err: Option<ErrorCode>)
    requires repo.Valid() && FindById(repo.users, userId).Some?
    requires outcome.Ok? ==>
      && outcome.value.id == userId
      && outcome.value.email == FindById(repo.users, userId).value.email
      && outcome.value.apiKey == FindById(repo.users, userId).value.apiKey
    modifies repo
    ensures repo.Valid() && repo.nextId == old(repo.nextId)
    ensures Applied(old(repo.users), repo.users, userId, outcome, err)
  {
    if outcome.Err? {
      return Some(outcome.error);
    }
    var i :| 0 <= i < |repo.users| && repo.users[i] == FindById(repo.users, userId).value;
    repo.Save(outcome.value);
    err := None;
  }

  /** `editName` on the stored user `userId`. */
  method EditName(repo: UserRepository, userId: int, newName: Option<string>) returns (err: Option<ErrorCode>)
    requires repo.Valid() && FindById(repo.users, userId).Some?
    modifies repo
    ensures repo.Valid()
    ensures Applied(old(repo.users), repo.users, userId, Renamed(old(repo.users), old(FindById(repo.users, userId)).value, newName), err)
  {
    var u := FindById(repo.users, userId).value;
    err := SaveEdited(repo, userId, Renamed(repo.users, u, newName));
  }

  /** `editPwd` on the stored user `userId`. */
  method EditPwd(repo: UserRepository, enc: PasswordEncoder, userId: int, newPwd: Option<string>) returns (err: Option<ErrorCode>)
    requires repo.Valid() && FindById(repo.users, userId).Some?
    modifies repo
    ensures repo.Valid()
    ensures Applied(old(repo.users), repo.users, userId, Repassed(enc, old(FindById(repo.users, userId)).value, newPwd), err)
  {
    var u := FindById(repo.users, userId).value;
    err := SaveEdited(repo, userId, Repassed(enc, u, newPwd));
  }

  /** `editAll` on the stored user `userId`. */
  method EditAll(repo: UserRepository, enc: PasswordEncoder, userId: int, newName: Option<string>, newPwd: Option<string>)
    returns (err: Option<ErrorCode>)
    requires repo.Valid() && FindById(repo.users, userId).Some?
    modifies repo
    ensures repo.Valid()
    ensures Applied(old(repo.users), repo.users, userId,
                    EditedAll(old(repo.users), enc, old(FindById(repo.users, userId)).value, newName, newPwd), err)
  {
    var u := FindById(repo.users, userId).value;
    err := SaveEdited(repo, userId, EditedAll(repo.users, enc, u, newName, newPwd));
  }

  /** `editUserInfo`: the stored user is looked up and the edit that fits
      the changed fields is applied. */
  method EditUserInfo(repo: UserRepository, enc: PasswordEncoder, userId: int, newName: Option<string>, newPwd: Option<string>)
    returns (err: Option<ErrorCode>)
    requires repo.Valid()
    modifies repo
    ensures repo.Valid()
    ensures Applied(old(repo.users), repo.users, userId, EditUserInfoOutcome(old(repo.users), enc, userId, newName, newPwd), err)
  {
    var current := FindById(repo.users, userId);
    if current.None? {
      return Some(USER_NOT_FOUND);
    }
    var u := current.value;
    var nameChanged := NameChanged(u, newName);
    var pwdChanged := PasswordChanged(enc, u, newPwd);
    if nameChanged && pwdChanged {
      err := EditAll(repo, enc, userId, newName, newPwd);
    } else if nameChanged {
      err := EditName(repo, userId, newName);
    } else if pwdChanged {
      err := EditPwd(repo, enc, userId, newPwd);
    } else {
      err := Some(NO_FIELDS_TO_UPDATE);
    }
  }

  // --------------------------------------------------------- withdrawal

  /** A query by writer over rows whose pins of that writer are all
      deleted selects nothing. */
  lemma {:induction false} SelectOfWithdrawn(rows: seq<Pin>, writerId: int, viewer: Option<int>)
    requires forall k :: 0 <= k < |rows| && rows[k].owner == writerId ==> rows[k].deleted
    ensures Select(rows, ByWriter(writerId), viewer) == []
  {
    if rows != [] {
      SelectOfWithdrawn(rows[1..], writerId, viewer);
    }
  }

  /** Once all of a writer's pins are deleted, no read lists any of them. */
  lemma WithdrawnWriterHasNoPins(repo: PinRepository, actor: Option<User>, writer: User)
    requires forall k :: 0 <= k < |repo.pins| && repo.pins[k].owner == writer.id ==> repo.pins[k].deleted
    ensures PinService.FindByUserId(repo, actor, writer) == []
  {
    SelectOfWithdrawn(repo.pins, writer.id, PinService.ViewerOf(actor));
  }

  /** `delete`: without a user AUTH_REQUIRED, for an id with no row
      USER_NOT_FOUND; otherwise the user is marked withdrawn, every pin of
      theirs is soft-deleted and every like of theirs removed, with the
      counts of the pins they had liked recomputed. */
  method Delete(userRepo: UserRepository, pinRepo: PinRepository, likesRepo: LikesRepository, user: Option<User>)
    returns (err: Option<ErrorCode>)
    requires userRepo.Valid() && pinRepo.Valid() && likesRepo.Valid()
    modifies userRepo, pinRepo.pins`deleted, pinRepo.pins`likeCount, likesRepo`likes, likesRepo`nextId
    ensures userRepo.Valid() && likesRepo.Valid()
    ensures user.None? ==> err == Some(AUTH_REQUIRED)
    ensures user.Some? ==> (err == Some(USER_NOT_FOUND) <==> old(FindById(userRepo.users, user.value.id)).None?)
    ensures err.Some? ==>
      && userRepo.users == old(userRepo.users) && likesRepo.likes == old(likesRepo.likes)
      && forall k :: 0 <= k < |pinRepo.pins| ==> pinRepo.pins[k].State() == old(pinRepo.pins[k].State())
    ensures err.None? ==> user.Some?
    ensures err.None? ==>
      && userRepo.users == ReplaceRow(old(userRepo.users), user.value.id, old(FindById(userRepo.users, user.value.id)).value.(deleted := true))
      && (forall k :: 0 <= k < |pinRepo.pins| ==>
            pinRepo.pins[k].deleted == (old(pinRepo.pins[k].deleted) || pinRepo.pins[k].owner == user.value.id))
      && likesRepo.likes == Filter(old(likesRepo.likes), NotByUser(user.value.id))
      && likesRepo.CountByUserId(user.value.id) == 0
      && (forall a :: PinService.FindByUserId(pinRepo, a, user.value) == [])
    ensures old(LikesService.CountsAgree(pinRepo.pins, likesRepo.likes)) ==> LikesService.CountsAgree(pinRepo.pins, likesRepo.likes)
  {
    if user.None? {
      return Some(AUTH_REQUIRED);
    }
    var managed := FindById(userRepo.users, user.value.id);
    if managed.None? {
      return Some(USER_NOT_FOUND);
    }
    MarkDeleted(userRepo, managed.value);
    Cascade(pinRepo, likesRepo, user.value);
    err := None;
  }

  /** The part of `delete` past the user row: `updateDeleteByUser`, then
      `deleteWithdrawnUserLikes`. */
  method Cascade(pinRepo: PinRepository, likesRepo: LikesRepository, user: User)
    requires pinRepo.Valid() && likesRepo.Valid()
    modifies pinRepo.pins`deleted, pinRepo.pins`likeCount, likesRepo`likes, likesRepo`nextId
    ensures likesRepo.Valid()
    ensures forall k :: 0 <= k < |pinRepo.pins| ==>
      pinRepo.pins[k].deleted == (old(pinRepo.pins[k].deleted) || pinRepo.pins[k].owner == user.id)
    ensures likesRepo.likes == Filter(old(likesRepo.likes), NotByUser(user.id))
    ensures likesRepo.CountByUserId(user.id) == 0
    ensures forall a :: PinService.FindByUserId(pinRepo, a, user) == []
    ensures old(LikesService.CountsAgree(pinRepo.pins, likesRepo.likes)) ==> LikesService.CountsAgree(pinRepo.pins, likesRepo.likes)
  {
    var _ := PinService.UpdateDeleteByUser(pinRepo, user.id);
    LikesService.DeleteWithdrawnUserLikes(pinRepo, likesRepo, user.id);
    forall a
      ensures PinService.FindByUserId(pinRepo, a, user) == []
    {
      WithdrawnWriterHasNoPins(pinRepo, a, user);
    }
  }

  /** `managed.setDeleted(true)`, flushed with the transaction. */
  method MarkDeleted(userRepo: UserRepository, u: User)
    requires userRepo.Valid() && FindById(userRepo.users, u.id) == Some(u)
    modifies userRepo
    ensures userRepo.Valid()
    ensures userRepo.users == ReplaceRow(old(userRepo.users), u.id, u.(deleted := true))
  {
    var i :| 0 <= i < |userRepo.users| && userRepo.users[i] == u;
    userRepo.Save(u.(deleted := true));
  }

  // ------------------------------------------------------- my page

  /** The public pins among `pins`, in order. */
  function PublicOf(pins: seq<Pin>): (r: seq<Pin>)
    reads pins
    ensures forall k :: 0 <= k < |r| ==> r[k] in pins && r[k].isPublic
    ensures forall k :: 0 <= k < |pins| && pins[k].isPublic ==> pins[k] in r
  {
    if pins == [] then []
    else
      assert forall k :: 1 <= k < |pins| ==> pins[k] == pins[1..][k - 1];
      (if pins[0].isPublic then [pins[0]] else []) + PublicOf(pins[1..])
  }

  /** The private pins among `pins` that belong to `ownerId`, in order. */
  function PrivateOwnedBy(pins: seq<Pin>, ownerId: int): (r: seq<Pin>)
    reads pins
    ensures forall k :: 0 <= k < |r| ==> r[k] in pins && !r[k].isPublic && r[k].owner == ownerId
    ensures forall k :: 0 <= k < |pins| && !pins[k].isPublic && pins[k].owner == ownerId ==> pins[k] in r
  {
    if pins == [] then []
    else
      assert forall k :: 1 <= k < |pins| ==> pins[k] == pins[1..][k - 1];
      (if !pins[0].isPublic && pins[0].owner == ownerId then [pins[0]] else []) + PrivateOwnedBy(pins[1..], ownerId)
  }

  datatype MyPinResponse = MyPinResponse(publicPins: seq<Pin>, privatePins: seq<Pin>)

  /** `listPublicAndPrivate`: the actor's own live pins, split into the
      public ones and the private ones. */
  function ListPublicAndPrivate(pinRepo: PinRepository, actor: User): (r: MyPinResponse)
    reads pinRepo, pinRepo.pins
    ensures forall k :: 0 <= k < |r.publicPins| ==>
      r.publicPins[k] in pinRepo.pins && r.publicPins[k].owner == actor.id && !r.publicPins[k].deleted && r.publicPins[k].isPublic
    ensures forall k :: 0 <= k < |r.privatePins| ==>
      r.privatePins[k] in pinRepo.pins && r.privatePins[k].owner == actor.id && !r.privatePins[k].deleted && !r.privatePins[k].isPublic
    ensures forall k :: 0 <= k < |pinRepo.pins| && pinRepo.pins[k].owner == actor.id && !pinRepo.pins[k].deleted ==>
      if pinRepo.pins[k].isPublic then pinRepo.pins[k] in r.publicPins else pinRepo.pins[k] in r.privatePins
  {
    var accessible := PinService.FindByUserId(pinRepo, Some(actor), actor);
    MyPinResponse(PublicOf(accessible), PrivateOwnedBy(accessible, actor.id))
  }

  // ------------------------------------------------------- likes received

  /** The exact number of likes on the pins, as an unbounded integer. */
  function TotalLikes(likes: seq<Like>, pins: seq<Pin>): nat {
    if pins == [] then 0 else CountForPin(likes, pins[0].id) + TotalLikes(likes, pins[1..])
  }

  lemma CongruentTrans(a: int, b: int, c: int)
    requires (a - b) % 0x1_0000_0000 == 0 && (b - c) % 0x1_0000_0000 == 0
    ensures (a - c) % 0x1_0000_0000 == 0
  {
    var p := (a - b) / 0x1_0000_0000;
    var q := (b - c) / 0x1_0000_0000;
    assert a - c == (p + q) * 0x1_0000_0000;
  }

  /** `likesCount`: `IntStream.sum` of the per-pin counts, which wraps around
      as `int` addition does, so the total is right modulo 2^32. */
  function LikesCount(likesRepo: LikesRepository, pins: seq<Pin>): (n: int)
    reads likesRepo
    ensures InIntRange(n)
    ensures |likesRepo.likes| <= INT_MAX ==> (n - TotalLikes(likesRepo.likes, pins)) % 0x1_0000_0000 == 0
  {
    if pins == [] then 0
    else
      var c := LikesService.GetLikesCount(likesRepo, pins[0].id);
      var rest := LikesCount(likesRepo, pins[1..]);
      var n := WrapInt(c + rest);
      if |likesRepo.likes| <= INT_MAX then
        CongruentTrans(n, c + rest, c + TotalLikes(likesRepo.likes, pins[1..]));
        n
      else n
  }

  /** When the total fits in an `int`, the sum is exact. */
  lemma {:induction false} LikesCountExact(likesRepo: LikesRepository, pins: seq<Pin>)
    requires |likesRepo.likes| <= INT_MAX && TotalLikes(likesRepo.likes, pins) <= INT_MAX
    ensures LikesCount(likesRepo, pins) == TotalLikes(likesRepo.likes, pins)
  {
    if pins != [] {
      LikesCountExact(likesRepo, pins[1..]);
    }
  }
}

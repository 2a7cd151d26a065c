/** The account handlers: registration and password changes behind the same validation
    rules, login, and the profile overwrite. bcrypt is not modelled: a stored hash arrives
    as a parameter, and `compare(password, hash)` is whatever bcrypt's comparison answers. */
module Users {
  import opened Collections
  import opened Text
  import opened Schema

  /** The password rules of the configuration: at least 8 UTF-16 code units, and a special
      character required. */
  const MinPasswordLength := 8
  const RequireSpecialChar := true

  /** The user types a registration may name. */
  const AllowedUserTypes := ["Admin", "Company", "Individual"]

  /** Why a handler refused; several refusals share a status and differ only in message. */
  datatype Reason = MissingFields | InvalidEmail | InvalidUserType | NoSpecialChar | TooShort
                  | EmailTaken | UserNotFound | WrongPassword

  /** The outcome of a handler's checks. */
  datatype Check = Pass | Fail(status: int, reason: Reason)

  // ---------------------------------------------------------------------------------------
  // The email pattern `^[^\s@]+@[^\s@]+\.[^\s@]+$`

  /** The class `[^\s@]`. */
  predicate PlainChar(c: char) { !IsWhitespace(c) && c != '@' }

  /** `[^\s@]+` matches exactly `s[lo..hi]`. */
  ghost predicate PlainRun(s: string, lo: int, hi: int) {
    0 <= lo < hi <= |s| && forall k :: lo <= k < hi ==> PlainChar(s[k])
  }

  /** The pattern matches `s` with its `@` at `i` and its `\.` at `j`. */
  ghost predicate EmailShape(s: string, i: int, j: int) {
    && 0 <= i < j < |s| && s[i] == '@' && s[j] == '.'
    && PlainRun(s, 0, i) && PlainRun(s, i + 1, j) && PlainRun(s, j + 1, |s|)
  }

  /** The regular expression accepts `s`, for some way of placing its `@` and `\.`. */
  ghost predicate EmailPattern(s: string) {
    exists i, j :: EmailShape(s, i, j)
  }

  /** `emailRegex.test(email)`, decided without backtracking: no whitespace, a non-empty part
      before the first `@`, no other `@`, and a `.` after it that is neither the first nor
      the last character of the domain. */
  predicate ValidEmail(s: string) {
    var at := IndexOf(s, '@');
    && at.Some? && 0 < at.value
    && (forall k :: 0 <= k < |s| ==> !IsWhitespace(s[k]))
    && (forall k :: at.value < k < |s| ==> s[k] != '@')
    && (exists j :: at.value + 1 < j < |s| - 1 && s[j] == '.')
  }

  /** `ValidEmail` accepts exactly the strings the regular expression matches. */
  lemma ValidEmailIsPattern(s: string)
    ensures ValidEmail(s) <==> EmailPattern(s)
  {
    if ValidEmail(s) {
      var i := IndexOf(s, '@').value;
      var j :| i + 1 < j < |s| - 1 && s[j] == '.';
      assert EmailShape(s, i, j);
    }
    if EmailPattern(s) {
      var i, j :| EmailShape(s, i, j);
      PatternAtIsFirst(s, i, j);
      PatternHasNoWhitespace(s, i, j);
      assert s[j] == '.';
    }
  }

  /** The `@` of a match is the first, and the last, in the string. */
  lemma PatternAtIsFirst(s: string, i: int, j: int)
    requires EmailShape(s, i, j)
    ensures IndexOf(s, '@') == Some(i)
    ensures forall k :: i < k < |s| ==> s[k] != '@'
  {
    forall k | i < k < |s| ensures s[k] != '@' {
      if k != j {
        assert PlainChar(s[k]);
      }
    }
  }

  lemma PatternHasNoWhitespace(s: string, i: int, j: int)
    requires EmailShape(s, i, j)
    ensures forall k :: 0 <= k < |s| ==> !IsWhitespace(s[k])
  {
    forall k | 0 <= k < |s| ensures !IsWhitespace(s[k]) {
      if k != i && k != j {
        assert PlainChar(s[k]);
      }
    }
  }

  // ---------------------------------------------------------------------------------------
  // Password rules

  /** `/[^A-Za-z0-9]/.test(password)`. */
  predicate HasSpecialChar(p: string) {
    exists k :: 0 <= k < |p| && !IsAsciiAlphanumeric(p[k])
  }

  /** The two password checks, the special character first and then the length, which
      `password.length` counts in UTF-16 code units. A character above U+FFFF is two code
      units, and each of them lies outside `[A-Za-z0-9]`, as the character does. */
  function PasswordRules(p: string): (c: Check)
    ensures c.Pass? <==> HasSpecialChar(p) && Utf16Length(p) >= 8
    ensures c == Fail(400, NoSpecialChar) <==> !HasSpecialChar(p)
    ensures c == Fail(400, TooShort) <==> HasSpecialChar(p) && Utf16Length(p) < 8
  {
    if RequireSpecialChar && !HasSpecialChar(p) then Fail(400, NoSpecialChar)
    else if Utf16Length(p) < MinPasswordLength then Fail(400, TooShort)
    else Pass
  }

  /** Six characters, three of them above U+FFFF, are nine code units: long enough. */
  lemma AstralCharactersCountTwice()
    ensures PasswordRules("ab\U{1F600}\U{1F600}\U{1F600}!").Pass?
  {
    var p := "ab\U{1F600}\U{1F600}\U{1F600}!";
    assert !IsAsciiAlphanumeric(p[5]);
    assert Utf16Length(p) == 9 by {
      assert p[1..][1..][1..][1..][1..][1..] == [];
    }
  }

  // ---------------------------------------------------------------------------------------
  // Registration

  /** The fields of a registration body; an absent field is `None`. */
  datatype RegisterBody = RegisterBody(fullName: Option<string>, email: Option<string>,
                                       password: Option<string>, userType: Option<string>)

  /** Some Users row carries the email (`SELECT * FROM Users WHERE Email = @email`). */
  predicate EmailInUse(users: seq<User>, email: string) {
    exists k :: 0 <= k < |users| && users[k].email == email
  }

  /** No two Users rows share an email. */
  ghost predicate UniqueEmails(users: seq<User>) {
    forall i, j :: 0 <= i < j < |users| ==> users[i].email != users[j].email
  }

  /** `fullName && email && password && userType`: every field of the body is truthy. */
  predicate Complete(b: RegisterBody) {
    Filled(b.fullName) && Filled(b.email) && Filled(b.password) && Filled(b.userType)
  }

  /** The checks of `registerUser`, in order: all four fields (400), the email pattern (400),
      the user type (400), the password rules (400), and an unused email (409). Each answer
      is tied to its condition, so each check is made only once the earlier ones pass. */
  function RegistrationCheck(users: seq<User>, b: RegisterBody): (c: Check)
    ensures c == Fail(400, MissingFields) <==> !Complete(b)
    ensures c == Fail(400, InvalidEmail) <==> Complete(b) && !EmailPattern(b.email.value)
    ensures c == Fail(400, InvalidUserType) <==>
      Complete(b) && EmailPattern(b.email.value) && b.userType.value !in AllowedUserTypes
    ensures && Complete(b) && EmailPattern(b.email.value) && b.userType.value in AllowedUserTypes
            && PasswordRules(b.password.value).Fail?
            ==> c == PasswordRules(b.password.value)
    ensures c.Pass? <==>
      && Complete(b)
      && EmailPattern(b.email.value)
      && b.userType.value in AllowedUserTypes
      && HasSpecialChar(b.password.value) && Utf16Length(b.password.value) >= 8
      && !EmailInUse(users, b.email.value)
    ensures c == Fail(409, EmailTaken) <==>
      && Complete(b)
      && EmailPattern(b.email.value)
      && b.userType.value in AllowedUserTypes
      && PasswordRules(b.password.value).Pass?
      && EmailInUse(users, b.email.value)
    ensures c.Fail? ==> c.status in {400, 409}
  {
    if !Complete(b) then
      Fail(400, MissingFields)
    else
      ValidEmailIsPattern(b.email.value);
      if !ValidEmail(b.email.value) then Fail(400, InvalidEmail)
      else if b.userType.value !in AllowedUserTypes then Fail(400, InvalidUserType)
      else if PasswordRules(b.password.value).Fail? then PasswordRules(b.password.value)
      else if EmailInUse(users, b.email.value) then Fail(409, EmailTaken)
      else Pass
  }

  /** Every 400 of registration is decided from the body alone, before the Users table is
      read: the same body is refused the same way whatever the table holds. */
  lemma ValidationPrecedesLookup(users: seq<User>, others: seq<User>, b: RegisterBody)
    requires RegistrationCheck(users, b).Fail? && RegistrationCheck(users, b).status == 400
    ensures RegistrationCheck(others, b) == RegistrationCheck(users, b)
  {
  }

  /** `registerUser`: when the checks pass, one Users row with the given fields, the bcrypt
      hash `passwordHash` and the uploaded picture (or NULL) is inserted and the answer is
      201 with the new id; a refusal writes nothing. A table whose emails were unique
      stays so. */
  method RegisterUser(db: Db, b: RegisterBody, passwordHash: string, picture: Option<string>)
    returns (status: int, userId: Option<int>)
    requires db.Valid()
    modifies db`users, db`nextId
    ensures db.Valid()
    ensures var c := RegistrationCheck(old(db.users), b);
      && (c.Fail? ==> status == c.status && userId.None?
                      && db.users == old(db.users) && db.nextId == old(db.nextId))
      && (c.Pass? ==> && status == 201 && userId == Some(old(db.nextId))
                      && db.users == old(db.users) + [User(old(db.nextId), b.fullName, b.email.value,
                                                           passwordHash, b.userType.value, picture)]
                      && db.nextId == old(db.nextId) + 1)
    ensures UniqueEmails(old(db.users)) ==> UniqueEmails(db.users)
  {
    var c := RegistrationCheck(db.users, b);
    if c.Fail? {
      return c.status, None;
    }
    var u := User(db.nextId, b.fullName, b.email.value, passwordHash, b.userType.value, picture);
    var t := db.users + [u];
    forall i, j | 0 <= i < j < |t| ensures DifferentUserIds(t[i], t[j]) && (j == |t| - 1 ==> t[i].email != t[j].email) {
      assert t[i] == db.users[i] && db.users[i] in db.users;
      if j < |db.users| {
        assert t[j] == db.users[j];
      }
    }
    db.users := t;
    db.nextId := db.nextId + 1;
    status, userId := 201, Some(u.id);
  }

  // ---------------------------------------------------------------------------------------
  // Login

  /** The first row of `SELECT * FROM Users WHERE Email = @email`. */
  function FindByEmail(users: seq<User>, email: string): (r: Option<User>)
    ensures r.Some? ==> r.value in users && r.value.email == email
    ensures r.None? <==> !EmailInUse(users, email)
  {
    if users == [] then None
    else if users[0].email == email then Some(users[0])
    else
      var r := FindByEmail(users[1..], email);
      assert EmailInUse(users[1..], email) ==> EmailInUse(users, email) by {
        if EmailInUse(users[1..], email) {
          var k :| 0 <= k < |users[1..]| && users[1..][k].email == email;
          assert users[k + 1].email == email;
        }
      }
      r
  }

  /** `loginUser` up to the issuing of tokens: a missing email or password is 400; an
      unknown email and a wrong password are the same 401; otherwise the user row the
      tokens are issued for. */
  function Login(users: seq<User>, email: Option<string>, password: Option<string>,
                 compare: (string, string) -> bool): (r: Result<User>)
    ensures !Filled(email) || !Filled(password) ==> r == Err(400)
    ensures r.Ok? <==>
      && Filled(email) && Filled(password)
      && FindByEmail(users, email.value).Some?
      && compare(password.value, FindByEmail(users, email.value).value.passwordHash)
    ensures r.Ok? ==> r.value in users && r.value.email == email.value
    ensures r.Ok? ==> r.value == FindByEmail(users, email.value).value
    ensures Filled(email) && Filled(password) && r.Err? ==> r.status == 401
  {
    if !Filled(email) || !Filled(password) then Err(400)
    else
      match FindByEmail(users, email.value)
      case None => Err(401)
      case Some(u) => if compare(password.value, u.passwordHash) then Ok(u) else Err(401)
  }

  /** The answer does not tell an unknown email from a wrong password. */
  lemma LoginFailuresLookAlike(users: seq<User>, others: seq<User>, email: string, password: string,
                               compare: (string, string) -> bool)
    requires email != "" && password != ""
    requires !EmailInUse(users, email)
    requires var u := FindByEmail(others, email); u.Some? && !compare(password, u.value.passwordHash)
    ensures Login(users, Some(email), Some(password), compare) == Login(others, Some(email), Some(password), compare)
  {
  }

  /** Appending a row whose email is new leaves earlier lookups alone and finds the row by
      its email. */
  lemma {:induction false} FindByEmailSnoc(users: seq<User>, u: User, email: string)
    ensures FindByEmail(users + [u], email) ==
      if EmailInUse(users, email) then FindByEmail(users, email)
      else if u.email == email then Some(u) else None
  {
    if users != [] {
      assert (users + [u])[1..] == users[1..] + [u];
      FindByEmailSnoc(users[1..], u, email);
      if users[0].email != email {
        assert EmailInUse(users, email) <==> EmailInUse(users[1..], email) by {
          if EmailInUse(users, email) {
            var k :| 0 <= k < |users| && users[k].email == email;
            assert users[1..][k - 1] == users[k];
          }
          if EmailInUse(users[1..], email) {
            var k :| 0 <= k < |users[1..]| && users[1..][k].email == email;
            assert users[k + 1] == users[1..][k];
          }
        }
      }
    } else {
      assert [] + [u] == [u];
    }
  }

  /** Registration and login meet: a user just registered with a password logs in with it,
      given that bcrypt's comparison accepts a password against its own hash. */
  lemma RegisteredUserLogsIn(users: seq<User>, b: RegisterBody, id: int, passwordHash: string,
                             picture: Option<string>, compare: (string, string) -> bool)
    requires RegistrationCheck(users, b).Pass?
    requires compare(b.password.value, passwordHash)
    ensures var u := User(id, b.fullName, b.email.value, passwordHash, b.userType.value, picture);
      Login(users + [u], b.email, b.password, compare) == Ok(u)
  {
    var u := User(id, b.fullName, b.email.value, passwordHash, b.userType.value, picture);
    FindByEmailSnoc(users, u, b.email.value);
  }

  // ---------------------------------------------------------------------------------------
  // Row updates by UserID

  /** `UPDATE Users SET ... WHERE UserID = @userId`: every row with the id is edited, the
      others are kept, the order is kept. */
  function UpdateUser(users: seq<User>, userId: int, edit: User -> User): (r: seq<User>)
    ensures |r| == |users|
    ensures forall k :: 0 <= k < |users| ==> r[k] == if users[k].id == userId then edit(users[k]) else users[k]
  {
    if users == [] then []
    else [if users[0].id == userId then edit(users[0]) else users[0]] + UpdateUser(users[1..], userId, edit)
  }

  /** An edit that keeps the UserID keeps the table's keys. */
  lemma UpdateKeepsKeys(users: seq<User>, userId: int, edit: User -> User, bound: int)
    requires forall u :: edit(u).id == u.id
    requires UniqueUserIds(users) && forall u :: u in users ==> u.id < bound
    ensures var r := UpdateUser(users, userId, edit);
      UniqueUserIds(r) && forall u :: u in r ==> u.id < bound
  {
    var r := UpdateUser(users, userId, edit);
    forall u | u in r ensures u.id < bound {
      var k :| 0 <= k < |r| && r[k] == u;
      assert users[k] in users;
    }
    forall i, j | 0 <= i < j < |r| ensures DifferentUserIds(r[i], r[j]) {
      assert DifferentUserIds(users[i], users[j]);
    }
  }

  /** An edit that keeps the email and the hash does not change who can log in with what:
      the lookup by email finds the edited row where it found the row before. */
  lemma {:induction false} UpdateKeepsLookup(users: seq<User>, userId: int, edit: User -> User, email: string)
    requires forall u :: edit(u).email == u.email
    ensures FindByEmail(UpdateUser(users, userId, edit), email) ==
      match FindByEmail(users, email)
      case None => None
      case Some(u) => Some(if u.id == userId then edit(u) else u)
  {
    if users != [] {
      var r := UpdateUser(users, userId, edit);
      assert r[1..] == UpdateUser(users[1..], userId, edit);
      UpdateKeepsLookup(users[1..], userId, edit, email);
      assert r[0].email == users[0].email;
    }
  }

  /** `UPDATE Users SET ... WHERE UserID = @userId` with a SET list that leaves the key
      alone: the table's keys stay valid. */
  method UpdateUserRow(db: Db, userId: int, edit: User -> User)
    requires db.Valid() && forall u :: edit(u).id == u.id
    modifies db`users
    ensures db.Valid()
    ensures db.users == UpdateUser(old(db.users), userId, edit)
  {
    UpdateKeepsKeys(db.users, userId, edit, db.nextId);
    db.users := UpdateUser(db.users, userId, edit);
  }

  /** The SET list of `updateUserProfile`: the name as sent (NULL when absent) and the
      uploaded picture, NULL when no file came with the request. */
  function ProfileEdit(fullName: Option<string>, picture: Option<string>): User -> User {
    (u: User) => u.(fullName := fullName, profilePicture := picture)
  }

  /** `updateUserProfile`: the caller's row gets the name and picture of the request, so a
      request without a file clears the stored picture; nothing is validated and the answer
      is 200 even when no row matched. */
  method UpdateUserProfile(db: Db, userId: int, fullName: Option<string>, picture: Option<string>)
    returns (status: int)
    requires db.Valid()
    modifies db`users
    ensures db.Valid() && status == 200
    ensures db.users == UpdateUser(old(db.users), userId, ProfileEdit(fullName, picture))
  {
    UpdateUserRow(db, userId, ProfileEdit(fullName, picture));
    status := 200;
  }

  /** After a profile update the caller's row holds exactly the request's name and picture,
      and every other column of every row, the credentials included, is as before. */
  lemma ProfileOverwrite(users: seq<User>, userId: int, fullName: Option<string>, picture: Option<string>,
                         email: string, password: Option<string>, compare: (string, string) -> bool)
    ensures var r := UpdateUser(users, userId, ProfileEdit(fullName, picture));
      && (forall k :: 0 <= k < |r| && r[k].id == userId ==>
            r[k].fullName == fullName && r[k].profilePicture == picture)
      && (forall k :: 0 <= k < |r| ==>
            && r[k].id == users[k].id && r[k].email == users[k].email
            && r[k].passwordHash == users[k].passwordHash && r[k].userType == users[k].userType)
      && Login(r, Some(email), password, compare).Ok? == Login(users, Some(email), password, compare).Ok?
  {
    UpdateKeepsLookup(users, userId, ProfileEdit(fullName, picture), email);
  }

  // ---------------------------------------------------------------------------------------
  // Password change

  /** The checks of `changePassword`, in order: both passwords present (400), the password
      rules on the new one (400), the caller's row exists (404), the current password
      matches its hash (401). */
  function PasswordChangeCheck(users: seq<User>, userId: int, current: Option<string>, next: Option<string>,
                               compare: (string, string) -> bool): (c: Check)
    ensures !Filled(current) || !Filled(next) ==> c == Fail(400, MissingFields)
    ensures c.Pass? <==>
      && Filled(current) && Filled(next)
      && PasswordRules(next.value).Pass?
      && FindUser(users, userId).Some?
      && compare(current.value, FindUser(users, userId).value.passwordHash)
    ensures c == Fail(404, UserNotFound) <==>
      Filled(current) && Filled(next) && PasswordRules(next.value).Pass? && FindUser(users, userId).None?
    ensures c == Fail(401, WrongPassword) <==>
      && Filled(current) && Filled(next) && PasswordRules(next.value).Pass?
      && FindUser(users, userId).Some?
      && !compare(current.value, FindUser(users, userId).value.passwordHash)
  {
    if !Filled(current) || !Filled(next) then Fail(400, MissingFields)
    else if PasswordRules(next.value).Fail? then PasswordRules(next.value)
    else
      match FindUser(users, userId)
      case None => Fail(404, UserNotFound)
      case Some(u) => if compare(current.value, u.passwordHash) then Pass else Fail(401, WrongPassword)
  }

  /** A new password is held to the very rules a registration password is: when the
      other registration checks pass, both handlers refuse it with the same status and
      message or both accept it. */
  lemma SamePasswordRules(users: seq<User>, b: RegisterBody, userId: int, current: string,
                          compare: (string, string) -> bool)
    requires Complete(b)
    requires ValidEmail(b.email.value) && b.userType.value in AllowedUserTypes
    requires current != ""
    ensures var p := PasswordRules(b.password.value);
      var r := RegistrationCheck(users, b);
      var c := PasswordChangeCheck(users, userId, Some(current), b.password, compare);
      && (r == Fail(400, NoSpecialChar) <==> p == Fail(400, NoSpecialChar))
      && (c == Fail(400, NoSpecialChar) <==> p == Fail(400, NoSpecialChar))
      && (r == Fail(400, TooShort) <==> p == Fail(400, TooShort))
      && (c == Fail(400, TooShort) <==> p == Fail(400, TooShort))
  {
  }

  function PasswordEdit(passwordHash: string): User -> User {
    (u: User) => u.(passwordHash := passwordHash)
  }

  /** `changePassword`: when the checks pass the caller's row gets the new hash and the
      answer is 200; a refusal writes nothing. */
  method ChangePassword(db: Db, userId: int, current: Option<string>, next: Option<string>,
                        compare: (string, string) -> bool, newHash: string)
    returns (status: int)
    requires db.Valid()
    modifies db`users
    ensures db.Valid()
    ensures var c := PasswordChangeCheck(old(db.users), userId, current, next, compare);
      && (c.Fail? ==> status == c.status && db.users == old(db.users))
      && (c.Pass? ==> status == 200 && db.users == UpdateUser(old(db.users), userId, PasswordEdit(newHash)))
  {
    var c := PasswordChangeCheck(db.users, userId, current, next, compare);
    if c.Fail? {
      return c.status;
    }
    UpdateUserRow(db, userId, PasswordEdit(newHash));
    status := 200;
  }

  /** After a password change the caller logs in with the new password (given that bcrypt
      accepts it against its fresh hash) and no longer with the old one (given that bcrypt
      rejects it against the fresh hash). */
  lemma NewPasswordLogsIn(users: seq<User>, userId: int, newHash: string, email: string,
                          oldPassword: string, newPassword: string, compare: (string, string) -> bool)
    requires email != "" && oldPassword != "" && newPassword != ""
    requires var u := FindByEmail(users, email); u.Some? && u.value.id == userId
    requires compare(newPassword, newHash) && !compare(oldPassword, newHash)
    ensures var r := UpdateUser(users, userId, PasswordEdit(newHash));
      && Login(r, Some(email), Some(newPassword), compare).Ok?
      && Login(r, Some(email), Some(oldPassword), compare) == Err(401)
  {
    UpdateKeepsLookup(users, userId, PasswordEdit(newHash), email);
  }
}

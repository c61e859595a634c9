/** The sign-in page (`/auth`): the three field validators, the `login` and
    `register` actions, and the loader that sends a signed-in user on to `/app`.

    Password hashing and checking (Argon2) are parameters: `hash` maps a
    password to the stored hash and `verify(hash, password)` checks one. The
    session helper's work (a random token, the session id derived from it, an
    expiry from the clock, the cookie) is reduced to the session row it
    inserts; its id and expiry arrive as a `SessionGrant`. */
module AuthPage {
  import opened Seqs
  import opened Kit
  import opened Schema
  import opened Database

  // ---- validators ----

  /** `\s` in a JavaScript regular expression: the WhiteSpace and
      LineTerminator code points of ECMAScript. */
  predicate IsJsWhitespace(c: char) {
    || c in {'\t', '\n', '\U{0B}', '\U{0C}', '\r', ' ', '\U{A0}', '\U{1680}',
             '\U{2028}', '\U{2029}', '\U{202F}', '\U{205F}', '\U{3000}', '\U{FEFF}'}
    || ('\U{2000}' <= c <= '\U{200A}')
  }

  /** `[^\s@]`. */
  predicate PatternChar(c: char) {
    !IsJsWhitespace(c) && c != '@'
  }

  /** `[^\s@]+`. */
  predicate Run(s: string) {
    |s| > 0 && forall k :: 0 <= k < |s| ==> PatternChar(s[k])
  }

  /** `^[^\s@]+@[^\s@]+\.[^\s@]+$` matches s with its `@` at i and its `\.` at j. */
  predicate MatchesAt(s: string, i: int, j: int) {
    && 0 < i && i + 1 < j && j + 1 < |s|
    && s[i] == '@' && s[j] == '.'
    && Run(s[..i]) && Run(s[i + 1..j]) && Run(s[j + 1..])
  }

  /** The regular expression accepts s. */
  predicate MatchesEmailPattern(s: string) {
    exists i, j | 0 <= i < j < |s| :: MatchesAt(s, i, j)
  }

  /** `validateEmail`: a string the pattern accepts, of at most 255
      characters; the pattern already forces at least 5. */
  predicate ValidateEmail(v: FormValue)
    ensures ValidateEmail(v) ==> v.Text? && 5 <= |v.s| <= 255 && '@' in v.s && '.' in v.s
  {
    v.Text? && 3 <= |v.s| <= 255 && MatchesEmailPattern(v.s)
  }

  /** `validatePassword`: a string of 6 to 255 characters, hence truthy. */
  predicate ValidatePassword(v: FormValue)
    ensures ValidatePassword(v) <==> v.Text? && 6 <= |v.s| <= 255
    ensures ValidatePassword(v) ==> Truthy(v)
  {
    v.Text? && 6 <= |v.s| <= 255
  }

  /** `validateName`: a string of 1 to 100 characters, hence truthy. */
  predicate ValidateName(v: FormValue)
    ensures ValidateName(v) <==> v.Text? && 1 <= |v.s| <= 100
    ensures ValidateName(v) ==> Truthy(v)
  {
    v.Text? && 1 <= |v.s| <= 100
  }

  predicate NoWhitespace(s: string) {
    forall k :: 0 <= k < |s| ==> !IsJsWhitespace(s[k])
  }

  /** The only `@` in s is at position i. */
  predicate OnlyAtSignAt(s: string, i: int) {
    forall k :: 0 <= k < |s| && s[k] == '@' ==> k == i
  }

  /** d has a '.' that is neither its first nor its last character. */
  predicate InnerDot(d: string) {
    exists p :: 0 < p < |d| - 1 && d[p] == '.'
  }

  lemma PatternGivesShape(s: string, i: int, j: int)
    requires MatchesAt(s, i, j)
    ensures NoWhitespace(s) && OnlyAtSignAt(s, i) && InnerDot(s[i + 1..])
  {
    forall k | 0 <= k < |s| ensures !IsJsWhitespace(s[k]) && (s[k] == '@' ==> k == i) {
      if k < i {
        assert s[k] == s[..i][k];
      } else if i < k < j {
        assert s[k] == s[i + 1..j][k - i - 1];
      } else if j < k {
        assert s[k] == s[j + 1..][k - j - 1];
      }
    }
    assert s[i + 1..][j - i - 1] == '.';
  }

  lemma ShapeGivesPattern(s: string, i: int, p: int)
    requires NoWhitespace(s) && 0 < i < |s| && s[i] == '@' && OnlyAtSignAt(s, i)
    requires 0 < p < |s[i + 1..]| - 1 && s[i + 1..][p] == '.'
    ensures MatchesAt(s, i, i + 1 + p)
  {
    var j := i + 1 + p;
    assert s[j] == '.';
    forall k | 0 <= k < i ensures PatternChar(s[..i][k]) {
      assert s[..i][k] == s[k];
    }
    var domain, tld := s[i + 1..j], s[j + 1..];
    forall k | 0 <= k < |domain| ensures PatternChar(domain[k]) {
      assert domain[k] == s[i + 1 + k];
    }
    forall k | 0 <= k < |tld| ensures PatternChar(tld[k]) {
      assert tld[k] == s[j + 1 + k];
    }
  }

  /** `validateEmail` holds exactly when the value is a string of 3 to 255
      characters with no whitespace and a single '@', which has something
      before it and is followed by a part containing a '.' that is neither
      that part's first nor its last character. */
  lemma ValidateEmailMeaning(v: FormValue)
    ensures ValidateEmail(v) <==>
      && v.Text? && 3 <= |v.s| <= 255 && NoWhitespace(v.s)
      && exists i :: 0 < i < |v.s| && v.s[i] == '@' && OnlyAtSignAt(v.s, i) && InnerDot(v.s[i + 1..])
  {
    if ValidateEmail(v) {
      var i, j :| 0 <= i < j < |v.s| && MatchesAt(v.s, i, j);
      PatternGivesShape(v.s, i, j);
    }
    if && v.Text? && 3 <= |v.s| <= 255 && NoWhitespace(v.s)
       && exists i :: 0 < i < |v.s| && v.s[i] == '@' && OnlyAtSignAt(v.s, i) && InnerDot(v.s[i + 1..])
    {
      var i :| 0 < i < |v.s| && v.s[i] == '@' && OnlyAtSignAt(v.s, i) && InnerDot(v.s[i + 1..]);
      var p :| 0 < p < |v.s[i + 1..]| - 1 && v.s[i + 1..][p] == '.';
      ShapeGivesPattern(v.s, i, p);
    }
  }

  /** All three validators first require a string: a missing field or a
      file upload fails each of them, whatever else holds. */
  lemma NonTextFailsValidation(v: FormValue)
    requires !v.Text?
    ensures !ValidateEmail(v) && !ValidatePassword(v) && !ValidateName(v)
  {
  }

  /** Anything the pattern accepts has at least 5 characters, so the lower
      length bound of `validateEmail` never rejects anything by itself. */
  lemma PatternImpliesMinimumLength(s: string)
    requires MatchesEmailPattern(s)
    ensures |s| >= 5
  {
    var i, j :| 0 <= i < j < |s| && MatchesAt(s, i, j);
  }

  // ---- responses ----

  datatype AuthSuccess = AuthSuccess(message: string, redirectTo: string)

  /** The session row's id (derived from a fresh random token) and its expiry. */
  datatype SessionGrant = SessionGrant(sessionId: Id, expiresAt: int)

  const InvalidEmail := "Invalid email format"
  const InvalidPassword := "Invalid password (min 6, max 255 characters)"
  const BadCredentials := "Incorrect email or password"
  const PasswordsDiffer := "Passwords do not match"
  const InvalidName := "Please provide a valid name"
  const EmailTaken := "An account with this email already exists"
  const RegisterFailed := "An error has occurred"
  const LoginSucceeded := "Login successful! Redirecting..."

  function Welcome(name: string): string {
    "Welcome to The Fridge, " + name + "! Your account has been created."
  }

  /** `load`: a signed-in visitor is redirected to `/app`; anyone else gets the page. */
  function Load(user: Option<Id>): (r: Response<()>)
    ensures r.Redirect? <==> user.Some?
    ensures r.Redirect? ==> r.status == 302 && r.location == "/app"
    ensures !r.Redirect? ==> r == Ok(())
  {
    if user.Some? then Redirect(302, "/app") else Ok(())
  }

  // ---- login ----

  /** The response of `login` and the store afterwards. A refused session
      insert escapes the handler, which has no `catch`. */
  function LoginOutcome(t: Tables, email: FormValue, password: FormValue,
                        verify: (string, string) -> bool, grant: SessionGrant): (r: (Response<AuthSuccess>, Tables))
    // only the session table can change, and only on success, by one row
    ensures r.1 == t.(sessions := r.1.sessions)
    ensures r.1 != t ==> r.0.Ok?
    ensures r.0.Ok? ==> |r.1.sessions| == |t.sessions| + 1
  {
    if !ValidateEmail(email) then (Fail(400, InvalidEmail), t)
    else if !ValidatePassword(password) then (Fail(400, InvalidPassword), t)
    else
      var results := SelectUsersByEmail(t, email.s);
      if |results| == 0 then (Fail(400, BadCredentials), t)
      else if !verify(results[0].passwordHash, password.s) then (Fail(400, BadCredentials), t)
      else
        var session := SessionRow(grant.sessionId, results[0].id, grant.expiresAt);
        if !SessionInsertable(t, session) then (Error(500, "Internal Error"), t)
        else (Ok(AuthSuccess(LoginSucceeded, "/app")), AddSession(t, session))
  }

  /** `actions.login`. */
  method Login(db: Db, email: FormValue, password: FormValue,
               verify: (string, string) -> bool, grant: SessionGrant) returns (r: Response<AuthSuccess>)
    modifies db
    ensures (r, db.Snapshot()) == LoginOutcome(old(db.Snapshot()), email, password, verify, grant)
    ensures WellFormed(old(db.Snapshot())) ==> WellFormed(db.Snapshot())
  {
    if !ValidateEmail(email) {
      return Fail(400, InvalidEmail);
    }
    if !ValidatePassword(password) {
      return Fail(400, InvalidPassword);
    }
    var results := SelectUsersByEmail(db.Snapshot(), email.s);
    if |results| == 0 {
      return Fail(400, BadCredentials);
    }
    var existingUser := results[0];
    if !verify(existingUser.passwordHash, password.s) {
      return Fail(400, BadCredentials);
    }
    var ok := db.InsertSession(SessionRow(grant.sessionId, existingUser.id, grant.expiresAt));
    if !ok {
      return Error(500, "Internal Error");
    }
    return Ok(AuthSuccess(LoginSucceeded, "/app"));
  }

  /** A malformed email or password is answered before any user is looked
      up: the answer does not depend on the store, and nothing changes. */
  lemma LoginChecksFormatFirst(t: Tables, email: FormValue, password: FormValue,
                               verify: (string, string) -> bool, grant: SessionGrant)
    requires !ValidateEmail(email) || !ValidatePassword(password)
    ensures LoginOutcome(t, email, password, verify, grant)
         == (Fail(400, if !ValidateEmail(email) then InvalidEmail else InvalidPassword), t)
  {
  }

  /** An unknown email and a wrong password get the same answer, and neither
      creates a session. */
  lemma LoginFailsUniformly(t: Tables, email: FormValue, password: FormValue,
                            verify: (string, string) -> bool, grant: SessionGrant)
    requires WellFormed(t) && ValidateEmail(email) && ValidatePassword(password)
    requires (forall u :: u in t.users ==> u.email != email.s)
          || (exists u :: u in t.users && u.email == email.s && !verify(u.passwordHash, password.s))
    ensures LoginOutcome(t, email, password, verify, grant) == (Fail(400, BadCredentials), t)
  {
    var results := SelectUsersByEmail(t, email.s);
    if |results| > 0 {
      var found := results[0];
      assert found in results;
      if exists u :: u in t.users && u.email == email.s && !verify(u.passwordHash, password.s) {
        var u :| u in t.users && u.email == email.s && !verify(u.passwordHash, password.s);
        UniqueKeyNamesOneRow(UserEmail, t.users, found, u);
      }
    }
  }

  /** A successful `login` found the user with that email, checked the
      password against that user's hash, and added one session for that user
      and nothing else; it reports `/app` instead of redirecting. */
  lemma LoginSuccess(t: Tables, email: FormValue, password: FormValue,
                     verify: (string, string) -> bool, grant: SessionGrant)
    requires LoginOutcome(t, email, password, verify, grant).0.Ok?
    ensures var (r, t') := LoginOutcome(t, email, password, verify, grant);
      && r.data == AuthSuccess(LoginSucceeded, "/app")
      && exists u :: && u in t.users && u.email == email.s && verify(u.passwordHash, password.s)
                     && t' == t.(sessions := t.sessions + [SessionRow(grant.sessionId, u.id, grant.expiresAt)])
  {
    var results := SelectUsersByEmail(t, email.s);
    assert results[0] in results;
  }

  /** `login` keeps the store well formed, whichever way it ends. */
  lemma LoginKeepsWellFormed(t: Tables, email: FormValue, password: FormValue,
                             verify: (string, string) -> bool, grant: SessionGrant)
    requires WellFormed(t)
    ensures WellFormed(LoginOutcome(t, email, password, verify, grant).1)
  {
    if ValidateEmail(email) && ValidatePassword(password) {
      var results := SelectUsersByEmail(t, email.s);
      if |results| > 0 {
        var session := SessionRow(grant.sessionId, results[0].id, grant.expiresAt);
        if SessionInsertable(t, session) {
          AddSessionKeepsWellFormed(t, session);
        }
      }
    }
  }

  // ---- register ----

  /** After inserting a user whose email no row had, selecting by that email
      finds exactly the new row. */
  lemma NewUserIsFound(t: Tables, u: UserRow)
    requires |SelectUsersByEmail(t, u.email)| == 0
    ensures SelectUsersByEmail(AddUser(t, u), u.email) == [u]
  {
    FilterConcat(HasEmail(u.email), t.users, [u]);
    assert [u][1..] == [];
  }

  /** The response of `register` and the store afterwards. `userId` is the id
      the store generates for the new user. */
  function RegisterOutcome(t: Tables, email: FormValue, password: FormValue, passwordConfirm: FormValue,
                           name: FormValue, hash: string -> string, userId: Id, grant: SessionGrant)
    : (r: (Response<AuthSuccess>, Tables))
    // only the user and session tables can change, by at most one row each
    ensures r.1 == t.(users := r.1.users, sessions := r.1.sessions)
    ensures |t.users| <= |r.1.users| <= |t.users| + 1 && |t.sessions| <= |r.1.sessions| <= |t.sessions| + 1
    ensures r.1.users[..|t.users|] == t.users && r.1.sessions[..|t.sessions|] == t.sessions
    // a rejected form (status 400) changes nothing
    ensures r.0.Fail? && r.0.status == 400 ==> r.1 == t
  {
    var name := Or(name, email);
    if !ValidateEmail(email) then (Fail(400, InvalidEmail), t)
    else if !ValidatePassword(password) then (Fail(400, InvalidPassword), t)
    else if password != passwordConfirm then (Fail(400, PasswordsDiffer), t)
    else if !ValidateName(name) then (Fail(400, InvalidName), t)
    else if |SelectUsersByEmail(t, email.s)| > 0 then (Fail(400, EmailTaken), t)
    else
      var user := UserRow(userId, email.s, name.s, DefaultRole, hash(password.s));
      if !UserInsertable(t, user) then (Fail(500, RegisterFailed), t)
      else
        var t1 := AddUser(t, user);
        NewUserIsFound(t, user);
        var newUser := SelectUsersByEmail(t1, email.s)[0];
        var session := SessionRow(grant.sessionId, newUser.id, grant.expiresAt);
        // the new user row stays when the session insert is refused
        if !SessionInsertable(t1, session) then (Fail(500, RegisterFailed), t1)
        else (Ok(AuthSuccess(Welcome(name.s), "/app")), AddSession(t1, session))
  }

  /** `actions.register`. The select after the insert always finds the new
      row, so its "Failed to create user" branch cannot be taken. */
  method Register(db: Db, email: FormValue, password: FormValue, passwordConfirm: FormValue,
                  name: FormValue, hash: string -> string, userId: Id, grant: SessionGrant)
    returns (r: Response<AuthSuccess>)
    modifies db
    ensures (r, db.Snapshot())
         == RegisterOutcome(old(db.Snapshot()), email, password, passwordConfirm, name, hash, userId, grant)
    ensures WellFormed(old(db.Snapshot())) ==> WellFormed(db.Snapshot())
  {
    var name := Or(name, email);
    if !ValidateEmail(email) {
      return Fail(400, InvalidEmail);
    }
    if !ValidatePassword(password) {
      return Fail(400, InvalidPassword);
    }
    if password != passwordConfirm {
      return Fail(400, PasswordsDiffer);
    }
    if !ValidateName(name) {
      return Fail(400, InvalidName);
    }
    var existingUsers := SelectUsersByEmail(db.Snapshot(), email.s);
    if |existingUsers| > 0 {
      return Fail(400, EmailTaken);
    }
    var passwordHash := hash(password.s);
    ghost var t := db.Snapshot();
    var user := UserRow(userId, email.s, name.s, DefaultRole, passwordHash);
    var ok := db.InsertUser(user);
    if !ok {
      return Fail(500, RegisterFailed);
    }
    var results := SelectUsersByEmail(db.Snapshot(), email.s);
    NewUserIsFound(t, user);
    var newUser := results[0];
    ok := db.InsertSession(SessionRow(grant.sessionId, newUser.id, grant.expiresAt));
    if !ok {
      return Fail(500, RegisterFailed);
    }
    return Ok(AuthSuccess(Welcome(name.s), "/app"));
  }

  /** `register` checks, in this order: the email, the password, that the
      confirmation matches, the name (the email when no name is given), and
      that the email is not taken; each failure changes nothing. */
  lemma RegisterChecksInOrder(t: Tables, email: FormValue, password: FormValue, passwordConfirm: FormValue,
                              name: FormValue, hash: string -> string, userId: Id, grant: SessionGrant)
    ensures var r := RegisterOutcome(t, email, password, passwordConfirm, name, hash, userId, grant);
      && (!ValidateEmail(email) ==> r == (Fail(400, InvalidEmail), t))
      && (ValidateEmail(email) && !ValidatePassword(password) ==> r == (Fail(400, InvalidPassword), t))
      && ((ValidateEmail(email) && ValidatePassword(password) && passwordConfirm != password)
            ==> r == (Fail(400, PasswordsDiffer), t))
      && ((ValidateEmail(email) && ValidatePassword(password) && passwordConfirm == password
            && !ValidateName(Or(name, email)))
            ==> r == (Fail(400, InvalidName), t))
  {
  }

  /** An email some user already has is refused with "An account with this
      email already exists": no user and no session is added. */
  lemma RegisterRejectsTakenEmail(t: Tables, email: FormValue, password: FormValue, name: FormValue,
                                  hash: string -> string, userId: Id, grant: SessionGrant, u: UserRow)
    requires ValidateEmail(email) && ValidatePassword(password) && ValidateName(Or(name, email))
    requires u in t.users && u.email == email.s
    ensures RegisterOutcome(t, email, password, password, name, hash, userId, grant) == (Fail(400, EmailTaken), t)
  {
    assert u in SelectUsersByEmail(t, email.s);
  }

  /** With no name given the email stands in for it, so a valid email longer
      than 100 characters fails name validation. */
  lemma RegisterLongEmailNeedsName(t: Tables, email: FormValue, password: FormValue, name: FormValue,
                                   hash: string -> string, userId: Id, grant: SessionGrant)
    requires ValidateEmail(email) && |email.s| > 100 && ValidatePassword(password)
    requires name == Absent || name == Text("")
    ensures RegisterOutcome(t, email, password, password, name, hash, userId, grant) == (Fail(400, InvalidName), t)
  {
  }

  /** A successful `register` adds one user (the given name, or the email
      when none is given; the default role; the hash of the password) and one
      session for that user, and nothing else; it reports `/app`. */
  lemma RegisterSuccess(t: Tables, email: FormValue, password: FormValue, passwordConfirm: FormValue,
                        name: FormValue, hash: string -> string, userId: Id, grant: SessionGrant)
    requires RegisterOutcome(t, email, password, passwordConfirm, name, hash, userId, grant).0.Ok?
    ensures var (r, t') := RegisterOutcome(t, email, password, passwordConfirm, name, hash, userId, grant);
      var shown := Or(name, email).s;
      && (forall u :: u in t.users ==> u.email != email.s)
      && passwordConfirm == password
      && r.data == AuthSuccess(Welcome(shown), "/app")
      && t' == t.(users := t.users + [UserRow(userId, email.s, shown, User, hash(password.s))],
                  sessions := t.sessions + [SessionRow(grant.sessionId, userId, grant.expiresAt)])
  {
    var shown := Or(name, email);
    assert forall u :: u in t.users && u.email == email.s ==> u in SelectUsersByEmail(t, email.s);
    NewUserIsFound(t, UserRow(userId, email.s, shown.s, DefaultRole, hash(password.s)));
  }

  /** A form that passes every check but whose user row the store refuses
      (the generated id clashes) gets "An error has occurred" and changes
      nothing. */
  lemma RegisterUserRefusedChangesNothing(t: Tables, email: FormValue, password: FormValue, name: FormValue,
                                          hash: string -> string, userId: Id, grant: SessionGrant)
    requires ValidateEmail(email) && ValidatePassword(password) && ValidateName(Or(name, email))
    requires forall u :: u in t.users ==> u.email != email.s
    requires !UserInsertable(t, UserRow(userId, email.s, Or(name, email).s, DefaultRole, hash(password.s)))
    ensures RegisterOutcome(t, email, password, password, name, hash, userId, grant) == (Fail(500, RegisterFailed), t)
  {
    FilterKeepsNone(HasEmail(email.s), t.users);
  }

  /** The two inserts are not one transaction: when the session row is
      refused after the user row was accepted, the answer is "An error has
      occurred" yet the new user stays. */
  lemma RegisterSessionRefusedKeepsUser(t: Tables, email: FormValue, password: FormValue, name: FormValue,
                                        hash: string -> string, userId: Id, grant: SessionGrant)
    requires ValidateEmail(email) && ValidatePassword(password) && ValidateName(Or(name, email))
    requires forall u :: u in t.users ==> u.email != email.s
    requires UserInsertable(t, UserRow(userId, email.s, Or(name, email).s, DefaultRole, hash(password.s)))
    requires grant.sessionId in Keys(SessionKey, t.sessions)
    ensures var user := UserRow(userId, email.s, Or(name, email).s, DefaultRole, hash(password.s));
      RegisterOutcome(t, email, password, password, name, hash, userId, grant)
        == (Fail(500, RegisterFailed), AddUser(t, user))
  {
    var user := UserRow(userId, email.s, Or(name, email).s, DefaultRole, hash(password.s));
    FilterKeepsNone(HasEmail(email.s), t.users);
    NewUserIsFound(t, user);
  }

  /** `register` keeps the store well formed, whichever way it ends. */
  lemma RegisterKeepsWellFormed(t: Tables, email: FormValue, password: FormValue, passwordConfirm: FormValue,
                                name: FormValue, hash: string -> string, userId: Id, grant: SessionGrant)
    requires WellFormed(t)
    ensures WellFormed(RegisterOutcome(t, email, password, passwordConfirm, name, hash, userId, grant).1)
  {
    var shown := Or(name, email);
    if && ValidateEmail(email) && ValidatePassword(password) && password == passwordConfirm
       && ValidateName(shown) && |SelectUsersByEmail(t, email.s)| == 0
    {
      var user := UserRow(userId, email.s, shown.s, DefaultRole, hash(password.s));
      if UserInsertable(t, user) {
        AddUserKeepsWellFormed(t, user);
        NewUserIsFound(t, user);
        var session := SessionRow(grant.sessionId, userId, grant.expiresAt);
        if SessionInsertable(AddUser(t, user), session) {
          AddSessionKeepsWellFormed(AddUser(t, user), session);
        }
      }
    }
  }

  /** When the password hash checks against the password it was made from,
      a user who has just registered can log in with the same email and
      password. */
  lemma RegisterThenLogin(t: Tables, email: FormValue, password: FormValue, name: FormValue,
                          hash: string -> string, verify: (string, string) -> bool,
                          userId: Id, grant: SessionGrant, later: SessionGrant)
    requires RegisterOutcome(t, email, password, password, name, hash, userId, grant).0.Ok?
    requires verify(hash(password.s), password.s)
    requires later.sessionId != grant.sessionId && later.sessionId !in Keys(SessionKey, t.sessions)
    ensures var t' := RegisterOutcome(t, email, password, password, name, hash, userId, grant).1;
      LoginOutcome(t', email, password, verify, later).0 == Ok(AuthSuccess(LoginSucceeded, "/app"))
  {
    var shown := Or(name, email);
    var user := UserRow(userId, email.s, shown.s, DefaultRole, hash(password.s));
    var session := SessionRow(grant.sessionId, userId, grant.expiresAt);
    NewUserIsFound(t, user);
    var t1 := AddUser(t, user);
    var t' := AddSession(t1, session);
    assert SelectUsersByEmail(t', email.s) == [user];
    assert user in t'.users;
    forall x | x in t'.sessions ensures SessionKey(x) != later.sessionId {
      if x in t.sessions {
        assert SessionKey(x) in Keys(SessionKey, t.sessions);
      }
    }
  }
}

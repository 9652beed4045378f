/**
 * Login, signup, logout, password change and session bookkeeping
 * (user_handling.go). Each HTTP handler is a method over the database that
 * returns the redirect it issues and the cookie it sets. The foreign pieces
 * are parameters: the SHA-256 function, the cookie encoder as it behaves on
 * one call, the random index draws, and the current time.
 */
module UserHandling {
  import opened Wrappers
  import opened Text
  import opened Relational
  import opened Sorting
  import opened Storage

  /** A SHA-256 digest is 32 bytes long. */
  type Digest = d: Bytes | |d| == 32 witness seq(32, i => 0)

  /** crypto/sha256.Sum256: some function from byte strings to digests. */
  type Hash = Bytes -> Digest

  /** The value map handed to the cookie encoder: `{"name": userID}`. */
  datatype CookiePayload = CookiePayload(name: int)

  /**
   * securecookie's Encode("cookie", ·) as it behaves on one call: an opaque
   * value or a failure. Its output depends on a random IV and the clock,
   * so every call gets its own encoder.
   */
  type CookieEncoder = CookiePayload -> Option<Bytes>

  /** The results of the calls `seededRand.Intn(n)` in order: draw k is the k-th call's. */
  type Draws = nat -> nat

  /** An HTTP cookie as the handlers set it; `expires` is None for a browser-session cookie. */
  datatype Cookie = Cookie(name: string, value: Bytes, path: string, expires: Option<Time>, maxAge: int)

  /** A handler's answer: the redirect target and the cookie it sets, if any. */
  datatype Response = Response(location: string, cookie: Option<Cookie>)

  /** The answer of a GET on the login or signup page. */
  datatype Page = RedirectTo(location: string) | ShowForm

  const CookieName: string := "cookie"
  const SaltLength: nat := 5
  const SaltCharsetText: string := "abcdefghijklmnopqrstuvwxyz" + "ABCDEFGHIJKLMNOPQRSTUVWXYZ0123456789"
  const SaltCharset: Bytes := Ascii(SaltCharsetText)
  const MaxUserAgentBytes: nat := 256
  const MaxIpBytes: nat := 128
  /** 365 days, in the seconds of `Time`. */
  const RememberFor: Time := 365 * 24 * 60 * 60

  // ---------------------------------------------------------------- identity

  /** The user a request carrying `cookie` speaks for; 0 is anonymous. */
  function Identity(sessions: seq<Session>, cookie: Option<Bytes>): (userId: int)
    ensures cookie.None? ==> userId == 0
    ensures cookie.Some? && !KeyTaken(sessions, TokenOf, cookie.value) ==> userId == 0
    ensures userId != 0 ==>
      cookie.Some? && exists s :: s in sessions && s.token == cookie.value && s.userId == userId
  {
    match cookie
    case None => 0
    case Some(value) => UserIdByToken(sessions, value)
  }

  /** A cookie whose value is a session's token identifies that session's owner. */
  lemma IdentityOfToken(sessions: seq<Session>, s: Session)
    requires KeysDistinct(sessions, TokenOf)
    requires s in sessions
    ensures Identity(sessions, Some(s.token)) == s.userId
  {
    FindByKeyUnique(sessions, TokenOf, s);
  }

  /**
   * getUserID: the raw cookie value is looked up as a session token; no
   * cookie, or no session with that token, is anonymous (0). Reads only.
   */
  method GetUserID(db: Database, cookie: Option<Bytes>) returns (userId: int)
    requires db.Valid()
    ensures userId == Identity(db.sessions, cookie)
    ensures cookie.None? ==> userId == 0
    ensures cookie.Some? && !KeyTaken(db.sessions, TokenOf, cookie.value) ==> userId == 0
    ensures forall s :: s in db.sessions && cookie == Some(s.token) ==> userId == s.userId
  {
    userId := Identity(db.sessions, cookie);
    forall s | s in db.sessions && cookie == Some(s.token)
      ensures userId == s.userId
    {
      IdentityOfToken(db.sessions, s);
    }
  }

  // ------------------------------------------------------------------ login

  /**
   * The decision of `login`: the digest of password ++ salt of the user found
   * under the lower-cased email equals the stored digest. An unknown email
   * leaves the zero user, whose empty digest no 32-byte digest equals.
   */
  function LoginAccepted(users: seq<User>, sha256: Hash, email: Bytes, password: Bytes): (accepted: bool)
    ensures accepted ==>
      exists u :: u in users && u.email == ToLower(email) && u.sha == sha256(password + u.salt)
  {
    var u := UserByEmail(users, ToLower(email));
    assert |sha256(password + u.salt)| == 32;
    sha256(password + u.salt) == u.sha
  }

  /** Login succeeds exactly for a stored user with that email and a matching digest. */
  lemma LoginAcceptedIff(users: seq<User>, sha256: Hash, email: Bytes, password: Bytes)
    requires KeysDistinct(users, EmailOf)
    ensures LoginAccepted(users, sha256, email, password) <==>
      exists u :: u in users && u.email == ToLower(email) && u.sha == sha256(password + u.salt)
  {
    var e := ToLower(email);
    if KeyTaken(users, EmailOf, e) {
      var v := UserByEmail(users, e);
      forall u | u in users && u.email == e ensures u == v {
        FindByKeyUnique(users, EmailOf, u);
      }
    } else {
      assert |sha256(password + NoUser.salt)| == 32;
    }
  }

  /** The cookie set after a login; it lives a year when "remember me" was ticked. */
  function SessionCookie(value: Bytes, rememberMe: bool, now: Time): (c: Cookie)
    ensures c.name == CookieName && c.path == "/" && c.value == value && c.maxAge == 0
    ensures rememberMe <==> c.expires.Some?
    ensures rememberMe ==> c.expires.value == now + RememberFor
  {
    Cookie(CookieName, value, "/", if rememberMe then Some(now + RememberFor) else None, 0)
  }

  /** The session row `setCookie` inserts: ip and user agent cut to their column bounds. */
  function NewSession(now: Time, userId: int, ip: Bytes, userAgent: Bytes, token: Bytes): (s: Session)
    ensures s.ip <= ip && |s.ip| <= MaxIpBytes && (|ip| <= MaxIpBytes ==> s.ip == ip)
    ensures s.userAgent <= userAgent && |s.userAgent| <= MaxUserAgentBytes
    ensures |userAgent| <= MaxUserAgentBytes ==> s.userAgent == userAgent
    ensures s.token == token && s.userId == userId && s.initiated == now
  {
    Session(now, userId, Truncate(ip, MaxIpBytes), Truncate(userAgent, MaxUserAgentBytes), token)
  }

  /** The sessions table after the INSERT of `row`, which fails when its token is taken. */
  function SessionsAfterInsert(sessions: seq<Session>, row: Session): (r: seq<Session>)
    ensures KeyTaken(sessions, TokenOf, row.token) ==> r == sessions
    ensures !KeyTaken(sessions, TokenOf, row.token) ==> r == sessions + [row]
    ensures KeysDistinct(sessions, TokenOf) ==> KeysDistinct(r, TokenOf)
  {
    match InsertUnique(sessions, TokenOf, row)
    case Some(r) => r
    case None => sessions
  }

  /**
   * The token round trip: once the row is stored, a request carrying its
   * token as cookie value is identified as the row's user. When the insert
   * fails the cookie still goes out, but it resolves to whoever already
   * held that token.
   */
  lemma {:induction false} TokenRoundTrip(sessions: seq<Session>, row: Session)
    requires KeysDistinct(sessions, TokenOf)
    ensures KeysDistinct(SessionsAfterInsert(sessions, row), TokenOf)
    ensures !KeyTaken(sessions, TokenOf, row.token) ==>
      Identity(SessionsAfterInsert(sessions, row), Some(row.token)) == row.userId
    ensures KeyTaken(sessions, TokenOf, row.token) ==>
      SessionsAfterInsert(sessions, row) == sessions
  {
    var r := SessionsAfterInsert(sessions, row);
    if !KeyTaken(sessions, TokenOf, row.token) {
      assert r == sessions + [row];
      assert row in r;
      IdentityOfToken(r, row);
    }
  }

  /**
   * setCookie: encode the payload; on success insert the session row
   * (ip and user agent truncated, token = cookie value) and set the cookie,
   * even when the insert fails. On an encoding failure nothing happens.
   */
  method SetCookie(db: Database, userId: int, ip: Bytes, userAgent: Bytes, rememberMe: bool,
                   now: Time, encode: CookieEncoder)
    returns (cookie: Option<Cookie>)
    requires db.Valid()
    modifies db
    ensures db.Valid()
    ensures db.users == old(db.users) && db.categories == old(db.categories)
    ensures db.lastUserId == old(db.lastUserId) && db.lastCategoryId == old(db.lastCategoryId)
    ensures encode(CookiePayload(userId)).None? ==> cookie.None? && db.sessions == old(db.sessions)
    ensures encode(CookiePayload(userId)).Some? ==>
      var token := encode(CookiePayload(userId)).value;
      && cookie == Some(SessionCookie(token, rememberMe, now))
      && db.sessions == SessionsAfterInsert(old(db.sessions), NewSession(now, userId, ip, userAgent, token))
      && (!KeyTaken(old(db.sessions), TokenOf, token) ==> Identity(db.sessions, Some(token)) == userId)
  {
    var encoded := encode(CookiePayload(userId));
    match encoded {
      case None =>
        cookie := None;
      case Some(token) =>
        var row := NewSession(now, userId, ip, userAgent, token);
        TokenRoundTrip(db.sessions, row);
        db.sessions := SessionsAfterInsert(db.sessions, row);
        cookie := Some(SessionCookie(token, rememberMe, now));
    }
  }

  /**
   * POST /login: on an accepted password, setCookie for the user found and
   * redirect home; otherwise redirect to error 2 with no cookie and no
   * table change.
   */
  method Login(db: Database, sha256: Hash, email: Bytes, password: Bytes, rememberMe: bool,
               ip: Bytes, userAgent: Bytes, now: Time, encode: CookieEncoder)
    returns (r: Response)
    requires db.Valid()
    modifies db
    ensures db.Valid()
    ensures db.users == old(db.users) && db.categories == old(db.categories)
    ensures db.lastUserId == old(db.lastUserId) && db.lastCategoryId == old(db.lastCategoryId)
    ensures !LoginAccepted(old(db.users), sha256, email, password) ==>
      r == Response("/login?error=2", None) && db.sessions == old(db.sessions)
    ensures LoginAccepted(old(db.users), sha256, email, password) ==>
      var u := UserByEmail(old(db.users), ToLower(email));
      var encoded := encode(CookiePayload(u.id));
      && r.location == "/"
      && (encoded.None? ==> r.cookie.None? && db.sessions == old(db.sessions))
      && (encoded.Some? ==>
            && r.cookie == Some(SessionCookie(encoded.value, rememberMe, now))
            && db.sessions == SessionsAfterInsert(old(db.sessions),
                                                  NewSession(now, u.id, ip, userAgent, encoded.value)))
  {
    var lowered := ToLower(email);
    var dbUser := UserByEmail(db.users, lowered);
    var sha := sha256(password + dbUser.salt);
    if sha == dbUser.sha {
      var cookie := SetCookie(db, dbUser.id, ip, userAgent, rememberMe, now, encode);
      r := Response("/", cookie);
    } else {
      r := Response("/login?error=2", None);
    }
  }

  /** GET /login: a request already identified goes home, any other sees the form. */
  method LoginPage(db: Database, cookie: Option<Bytes>) returns (p: Page)
    requires db.Valid()
    ensures Identity(db.sessions, cookie) != 0 <==> p == RedirectTo("/")
    ensures Identity(db.sessions, cookie) == 0 <==> p == ShowForm
  {
    var userId := GetUserID(db, cookie);
    if userId != 0 {
      p := RedirectTo("/");
    } else {
      p := ShowForm;
    }
  }

  // ----------------------------------------------------------------- signup

  /** A salt as signup makes it: five bytes of the salt alphabet. */
  predicate IsSalt(salt: Bytes)
  {
    |salt| == SaltLength && forall b :: b in salt ==> b in SaltCharset
  }

  /** The salt alphabet holds 62 bytes, letters and digits only. */
  lemma SaltCharsetAlphanumeric()
    ensures |SaltCharset| == 62
    ensures forall b :: b in SaltCharset ==> IsAlphanumeric(b)
  {
    var letters := "abcdefghijklmnopqrstuvwxyz";
    var rest := "ABCDEFGHIJKLMNOPQRSTUVWXYZ0123456789";
    assert forall i :: 0 <= i < |letters| ==> IsAlphanumeric(letters[i] as int);
    assert forall i :: 0 <= i < |rest| ==> IsAlphanumeric(rest[i] as int);
    assert SaltCharsetText == letters + rest;
    forall b | b in SaltCharset ensures IsAlphanumeric(b) {
      var i :| 0 <= i < |SaltCharset| && SaltCharset[i] == b;
      if i < |letters| {
        assert SaltCharsetText[i] == letters[i];
      } else {
        assert SaltCharsetText[i] == rest[i - |letters|];
      }
    }
  }

  /**
   * stringWithCharset: fills a buffer of `length` bytes, byte i being the
   * charset byte at the i-th random index.
   */
  method StringWithCharset(length: nat, charset: Bytes, draws: Draws) returns (s: Bytes)
    requires forall k: nat :: k < length ==> draws(k) < |charset|
    ensures |s| == length
    ensures forall i :: 0 <= i < length ==> s[i] == charset[draws(i)]
    ensures forall b :: b in s ==> b in charset
  {
    var buffer := new Byte[length];
    for i := 0 to length
      invariant forall k :: 0 <= k < i ==> buffer[k] == charset[draws(k)]
    {
      buffer[i] := charset[draws(i)];
    }
    s := buffer[..];
  }

  /**
   * POST /signup: store the lower-cased email, a fresh salt and the digest
   * of password ++ salt. A taken email makes the insert fail: error 8 and no
   * change. No session and no cookie either way.
   */
  method Signup(db: Database, sha256: Hash, draws: Draws, email: Bytes, password: Bytes)
    returns (location: string)
    requires db.Valid()
    requires forall k: nat :: k < SaltLength ==> draws(k) < |SaltCharset|
    modifies db
    ensures db.Valid()
    ensures db.sessions == old(db.sessions) && db.categories == old(db.categories)
    ensures db.lastCategoryId == old(db.lastCategoryId)
    ensures KeyTaken(old(db.users), EmailOf, ToLower(email)) ==>
      && location == "/login?error=8"
      && db.users == old(db.users) && db.lastUserId == old(db.lastUserId)
    ensures !KeyTaken(old(db.users), EmailOf, ToLower(email)) ==>
      && location == "/login"
      && |db.users| == |old(db.users)| + 1
      && var u := db.users[|db.users| - 1];
      && db.users == old(db.users) + [u]
      && u.id == db.lastUserId == old(db.lastUserId) + 1
      && u.email == ToLower(email)
      && IsSalt(u.salt)
      && (forall k :: 0 <= k < SaltLength ==> u.salt[k] == SaltCharset[draws(k)])
      && u.sha == sha256(password + u.salt)
  {
    var lowered := ToLower(email);
    var salt := StringWithCharset(SaltLength, SaltCharset, draws);
    var sha := sha256(password + salt);
    var id := db.lastUserId + 1;
    var row := User(id, lowered, sha, salt);
    match InsertUnique(db.users, EmailOf, row) {
      case None =>
        location := "/login?error=8";
      case Some(users) =>
        forall i, j | 0 <= i < j < |users| ensures UserIdOf(users[i]) != UserIdOf(users[j]) {
          if j == |db.users| {
            assert users[j] == row && users[i] == db.users[i];
            assert users[i].id <= db.lastUserId;
          } else {
            assert users[i] == db.users[i] && users[j] == db.users[j];
            assert UserIdOf(db.users[i]) != UserIdOf(db.users[j]);
          }
        }
        db.users := users;
        db.lastUserId := id;
        location := "/login";
    }
  }

  /** GET /signup: a request already identified goes home, any other sees the form. */
  method SignupPage(db: Database, cookie: Option<Bytes>) returns (p: Page)
    requires db.Valid()
    ensures Identity(db.sessions, cookie) != 0 <==> p == RedirectTo("/")
    ensures Identity(db.sessions, cookie) == 0 <==> p == ShowForm
  {
    var userId := GetUserID(db, cookie);
    if userId != 0 {
      p := RedirectTo("/");
    } else {
      p := ShowForm;
    }
  }

  /** A user stored by signup can log in with any casing of the email and the same password. */
  lemma SignupThenLogin(users: seq<User>, sha256: Hash, u: User, email: Bytes, password: Bytes)
    requires KeysDistinct(users, EmailOf)
    requires !KeyTaken(users, EmailOf, u.email)
    requires u.email == ToLower(email) && u.sha == sha256(password + u.salt)
    ensures LoginAccepted(users + [u], sha256, email, password)
  {
    var users' := InsertUnique(users, EmailOf, u).value;
    FindByKeyUnique(users', EmailOf, u);
  }

  // ----------------------------------------------------------------- logout

  /**
   * clearCookie: the cookie that makes the browser drop the session cookie
   * at once: same name and path, empty value, negative max age.
   */
  function ClearCookie(): (c: Cookie)
    ensures c.name == CookieName && c.path == "/"
    ensures c.value == [] && c.maxAge < 0 && c.expires.None?
  {
    Cookie(CookieName, [], "/", None, -1)
  }

  /**
   * POST /logout: clear the cookie and go to the login page. The session
   * row is not deleted: this handler does not touch the database, so the
   * token stays valid for whoever still holds it.
   */
  method Logout() returns (r: Response)
    ensures r.location == "/login"
    ensures r.cookie == Some(ClearCookie())
  {
    r := Response("/login", Some(ClearCookie()));
  }

  // --------------------------------------------------------------- settings

  predicate ByInitiated(a: Session, b: Session) { a.initiated <= b.initiated }

  lemma ByInitiatedTotalPreorder()
    ensures TotalPreorder(ByInitiated)
  {
  }

  /** `WHERE user_id = $1` on sessions. */
  function SessionsOf(sessions: seq<Session>, userId: int): (r: seq<Session>)
    ensures forall s :: s in r <==> s in sessions && s.userId == userId
  {
    Where(sessions, (s: Session) => s.userId == userId)
  }

  /**
   * The session list of the settings page: the query's rows, copied one by
   * one, are exactly the user's sessions, oldest first. The current session
   * id is the raw cookie value, empty without a cookie.
   */
  method SettingsView(db: Database, userId: int, cookie: Option<Bytes>)
    returns (sessions: seq<Session>, currentSessionId: Bytes)
    ensures SortedBy(sessions, ByInitiated)
    ensures multiset(sessions) == multiset(SessionsOf(db.sessions, userId))
    ensures forall s :: s in sessions <==> s in db.sessions && s.userId == userId
    ensures currentSessionId == if cookie.Some? then cookie.value else []
  {
    var rows := SortBy(SessionsOf(db.sessions, userId), ByInitiated);
    ByInitiatedTotalPreorder();
    SortBySorted(SessionsOf(db.sessions, userId), ByInitiated);
    sessions := [];
    var i := 0;
    while i < |rows|
      invariant 0 <= i <= |rows|
      invariant sessions == rows[..i]
    {
      sessions := sessions + [rows[i]];
      i := i + 1;
    }
    assert rows[..|rows|] == rows;
    forall s ensures s in sessions <==> s in db.sessions && s.userId == userId {
      assert s in sessions <==> s in multiset(sessions);
    }
    match cookie {
      case Some(value) => currentSessionId := value;
      case None => currentSessionId := [];
    }
  }

  // -------------------------------------------------------- change password

  /**
   * POST change password: the old password is checked against the stored
   * digest with the stored salt; on a match only that user's digest is
   * replaced, derived from the new password and the same salt.
   */
  method ChangePassword(db: Database, sha256: Hash, userId: int, oldPassword: Bytes, newPassword: Bytes)
    returns (location: string)
    requires db.Valid()
    modifies db
    ensures db.Valid()
    ensures db.sessions == old(db.sessions) && db.categories == old(db.categories)
    ensures db.lastUserId == old(db.lastUserId) && db.lastCategoryId == old(db.lastCategoryId)
    ensures var u := UserById(old(db.users), userId);
      if sha256(oldPassword + u.salt) == u.sha then
        location == "/settings?success=1" && db.users == UpdateSha(old(db.users), userId, sha256(newPassword + u.salt))
      else
        location == "/settings?error=7" && db.users == old(db.users)
  {
    var dbUser := UserById(db.users, userId);
    var sha := sha256(oldPassword + dbUser.salt);
    if sha != dbUser.sha {
      location := "/settings?error=7";
      return;
    }
    sha := sha256(newPassword + dbUser.salt);
    var users := UpdateSha(db.users, userId, sha);
    forall v | v in users ensures 0 < v.id <= db.lastUserId {
      var i :| 0 <= i < |users| && users[i] == v;
      assert db.users[i] in db.users;
    }
    db.users := users;
    location := "/settings?success=1";
  }

  /**
   * After a password change the new password logs in, and the old one still
   * does exactly when both digests (with the user's salt) collide.
   */
  lemma ChangePasswordThenLogin(users: seq<User>, sha256: Hash, u: User, email: Bytes,
                                oldPassword: Bytes, newPassword: Bytes)
    requires KeysDistinct(users, EmailOf) && KeysDistinct(users, UserIdOf)
    requires u in users && u.email == ToLower(email)
    ensures var users' := UpdateSha(users, u.id, sha256(newPassword + u.salt));
      && LoginAccepted(users', sha256, email, newPassword)
      && (LoginAccepted(users', sha256, email, oldPassword) <==>
            sha256(oldPassword + u.salt) == sha256(newPassword + u.salt))
  {
    var users' := UpdateSha(users, u.id, sha256(newPassword + u.salt));
    var i :| 0 <= i < |users| && users[i] == u;
    var u' := users'[i];
    assert u' == u.(sha := sha256(newPassword + u.salt));
    assert KeysDistinct(users', EmailOf) by {
      forall a, b | 0 <= a < b < |users'| ensures EmailOf(users'[a]) != EmailOf(users'[b]) {
        assert EmailOf(users[a]) != EmailOf(users[b]);
      }
    }
    FindByKeyUnique(users', EmailOf, u');
  }

  // ------------------------------------------------------ terminate session

  /**
   * The sessions table after terminateSession: the owner looked up by token
   * (0 when missing) must be the caller, and then the rows with that token
   * and that owner go.
   */
  function SessionsAfterTerminate(sessions: seq<Session>, caller: int, token: Bytes): (r: seq<Session>)
    ensures forall s :: s in r ==> s in sessions
    ensures forall s :: s in sessions && s !in r ==> s.token == token && s.userId == caller
    ensures UserIdByToken(sessions, token) != caller ==> r == sessions
    ensures !KeyTaken(sessions, TokenOf, token) ==> r == sessions
    ensures KeysDistinct(sessions, TokenOf) ==> KeysDistinct(r, TokenOf)
  {
    var keep := (s: Session) => !(s.token == token && s.userId == caller);
    if UserIdByToken(sessions, token) == caller then
      assert KeysDistinct(sessions, TokenOf) ==> KeysDistinct(Where(sessions, keep), TokenOf) by {
        if KeysDistinct(sessions, TokenOf) {
          WhereKeepsKeysDistinct(sessions, keep, TokenOf);
        }
      }
      Where(sessions, keep)
    else sessions
  }

  /**
   * A session terminated by its owner no longer identifies anyone, and all
   * sessions with other tokens stay.
   */
  lemma TerminateOwnSession(sessions: seq<Session>, s: Session)
    requires KeysDistinct(sessions, TokenOf)
    requires s in sessions
    ensures var r := SessionsAfterTerminate(sessions, s.userId, s.token);
      && !KeyTaken(r, TokenOf, s.token)
      && Identity(r, Some(s.token)) == 0
      && forall t :: t in sessions && t.token != s.token ==> t in r
  {
    IdentityOfToken(sessions, s);
    var r := SessionsAfterTerminate(sessions, s.userId, s.token);
    forall t | t in r ensures t.token != s.token {
    }
  }

  /** POST terminate session: delete the session only for its owner, then back to settings. */
  method TerminateSession(db: Database, userId: int, token: Bytes) returns (location: string)
    requires db.Valid()
    modifies db
    ensures db.Valid()
    ensures db.users == old(db.users) && db.categories == old(db.categories)
    ensures db.lastUserId == old(db.lastUserId) && db.lastCategoryId == old(db.lastCategoryId)
    ensures db.sessions == SessionsAfterTerminate(old(db.sessions), userId, token)
    ensures location == "/settings"
  {
    db.sessions := SessionsAfterTerminate(db.sessions, userId, token);
    location := "/settings";
  }
}

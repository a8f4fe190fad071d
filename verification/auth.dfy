/**
 * The authentication routes: signup, login and logout.
 *
 * Passwords are stored and compared in plain text, exactly as the handlers do.
 * The session token, which the handler draws from 32 random bytes, and the
 * current time are parameters.
 */
module Auth {
  import opened Tables
  import opened Models
  import Http

  /** zod's `.min(6)` on the password. */
  const MinPasswordLength: nat := 6

  /** A session lasts one week: 1000 * 60 * 60 * 24 * 7 milliseconds. */
  const SessionLifetimeMs: int := 604800000

  /**
   * Stand-in for zod's `.email()` format check. Nothing below depends on this
   * body: the properties take `ValidEmail` as a hypothesis where they need it.
   */
  predicate ValidEmail(s: string) {
    '@' in s
  }

  /**
   * The length JavaScript's `.length` (and so zod's `.min`) gives a string: its
   * UTF-16 code units. A character outside the Basic Multilingual Plane is a
   * surrogate pair and counts twice.
   */
  function Utf16Length(s: string): (n: nat)
    ensures |s| <= n <= 2 * |s|
    ensures (forall i :: 0 <= i < |s| ==> s[i] as int < 0x1_0000) ==> n == |s|
  {
    if s == [] then 0
    else (if s[0] as int >= 0x1_0000 then 2 else 1) + Utf16Length(s[1..])
  }

  /** Three emoji are six code units: a password `.min(6)` lets through. */
  lemma AstralCharactersCountTwice()
    ensures Utf16Length("\U{1F600}\U{1F600}\U{1F600}") == MinPasswordLength
    ensures LoginBody(Some("a@x.com"), Some("\U{1F600}\U{1F600}\U{1F600}")).WellFormed()
  {
  }

  /** A request body field is either absent (or not a string) or a string. */
  datatype SignupBody = SignupBody(email: Option<string>, password: Option<string>, fullName: Option<string>)
  {
    /**
     * `SignupBodySchema.safeParse` succeeds. Every body it accepts carries
     * credentials the login schema accepts too; an empty `fullName` passes.
     */
    predicate WellFormed()
      ensures WellFormed() ==> LoginBody(email, password).WellFormed()
      ensures WellFormed() ==> |password.value| * 2 >= MinPasswordLength
      ensures LoginBody(email, password).WellFormed() && fullName.Some? ==> WellFormed()
    {
      && email.Some? && ValidEmail(email.value)
      && password.Some? && Utf16Length(password.value) >= MinPasswordLength
      && fullName.Some?
    }
  }

  datatype LoginBody = LoginBody(email: Option<string>, password: Option<string>)
  {
    /**
     * `LoginBodySchema.safeParse` succeeds. Six characters are always enough
     * for the password, and fewer than three never are.
     */
    predicate WellFormed()
      ensures email.Some? && ValidEmail(email.value) && password.Some? && |password.value| >= MinPasswordLength
        ==> WellFormed()
      ensures password.Some? && |password.value| * 2 < MinPasswordLength ==> !WellFormed()
      ensures WellFormed() ==> email.Some? && password.Some?
    {
      && email.Some? && ValidEmail(email.value)
      && password.Some? && Utf16Length(password.value) >= MinPasswordLength
    }
  }

  /** `User.findOne({ where: { email } })`: the first user row with that exact email. */
  function FindUserByEmail(users: seq<User>, email: string): (r: Option<User>)
    ensures r.Some? ==> r.value in users && r.value.email == email
    ensures r.None? <==> forall u :: u in users ==> u.email != email
    ensures EmailsUnique(users) ==> forall u :: u in users && u.email == email ==> r == Some(u)
  {
    match FindFirst(users, (u: User) => u.email == email)
    case None => None
    case Some(i) =>
      assert forall u :: u in users && u.email == email && EmailsUnique(users) ==> u == users[i] by {
        forall u | u in users && u.email == email && EmailsUnique(users) ensures u == users[i] {
          var k :| 0 <= k < |users| && users[k] == u;
          assert !(k < i) && !(i < k);
        }
      }
      Some(users[i])
  }

  /**
   * The login check: the user found by email, if its password matches. An
   * unknown email and a wrong password both give `None`, answered alike by 401.
   */
  function CheckCredentials(users: seq<User>, email: string, password: string): (r: Option<User>)
    ensures r.Some? ==> r.value in users && r.value.email == email && r.value.password == password
    ensures (forall u :: u in users ==> u.email != email) ==> r.None?
    ensures EmailsUnique(users) ==>
      (r.Some? <==> exists u :: u in users && u.email == email && u.password == password)
  {
    match FindUserByEmail(users, email)
    case None => None
    case Some(u) => if u.password == password then Some(u) else None
  }

  /**
   * The row a successful login inserts, given the next session key: it belongs
   * to the user, and its expiry is the last whole second at or before one
   * week after `now`, since the column keeps whole seconds.
   */
  function NewSession(id: nat, token: string, user: User, now: Timestamp): (s: Session)
    ensures s.id == id && s.token == token && s.userId == user.id
    ensures s.expiresAt % 1000 == 0
    ensures now + SessionLifetimeMs - 1000 < s.expiresAt <= now + SessionLifetimeMs
  {
    Session(id, token, user.id, StoredTimestamp(now + SessionLifetimeMs))
  }

  /** A fresh email is enough for the credentials just registered to be accepted. */
  lemma LoginAfterSignup(users: seq<User>, id: nat, email: string, password: string, fullName: string)
    requires FindUserByEmail(users, email).None?
    ensures CheckCredentials(users + [User(id, email, password, fullName)], email, password)
         == Some(User(id, email, password, fullName))
  {
  }

  /**
   * POST /api/auth/signup: 400 on a malformed body, 409 when the email is
   * already taken, otherwise 201 and exactly one new user row.
   */
  method Signup(db: Store, body: SignupBody) returns (status: int, created: Option<User>)
    requires db.Valid()
    modifies db
    ensures db.Valid()
    ensures !body.WellFormed() ==> status == Http.BadRequest && created.None? && unchanged(db)
    ensures body.WellFormed() && FindUserByEmail(old(db.users), body.email.value).Some? ==>
      status == Http.Conflict && created.None? && unchanged(db)
    ensures body.WellFormed() && FindUserByEmail(old(db.users), body.email.value).None? ==>
      && status == Http.Created
      && created == Some(User(old(db.nextUserId), body.email.value, body.password.value, body.fullName.value))
      && db.users == old(db.users) + [created.value]
      && (forall v :: v in old(db.users) ==> v.id != created.value.id)
    ensures unchanged(db`sessions, db`events, db`participants)
    ensures db.nextUserId == old(db.nextUserId) + (if status == Http.Created then 1 else 0)
    ensures unchanged(db`nextSessionId, db`nextEventId, db`nextParticipantId)
    ensures old(EmailsUnique(db.users)) ==> EmailsUnique(db.users)
  {
    if !body.WellFormed() {
      return Http.BadRequest, None;
    }
    var email := body.email.value;
    if FindUserByEmail(db.users, email).Some? {
      return Http.Conflict, None;
    }
    var u := db.CreateUser(email, body.password.value, body.fullName.value);
    status, created := Http.Created, Some(u);
    assert forall v :: v in old(db.users) ==> v.email != email;
    assert db.users[|db.users| - 1] == u;
  }

  /**
   * POST /api/auth/login: 400 on a malformed body, the same 401 for an unknown
   * email and for a wrong password, otherwise 200 and one new session row that
   * expires a week after `now`, cut down to the whole second.
   */
  method Login(db: Store, body: LoginBody, now: Timestamp, token: string)
    returns (status: int, user: Option<User>, issued: Option<string>)
    requires db.Valid()
    modifies db
    ensures db.Valid()
    ensures !body.WellFormed() ==> status == Http.BadRequest && user.None? && issued.None? && unchanged(db)
    ensures body.WellFormed() && CheckCredentials(old(db.users), body.email.value, body.password.value).None? ==>
      status == Http.Unauthorized && user.None? && issued.None? && unchanged(db)
    ensures body.WellFormed() && CheckCredentials(old(db.users), body.email.value, body.password.value).Some? ==>
      var u := CheckCredentials(old(db.users), body.email.value, body.password.value).value;
      && status == Http.Ok && user == Some(u) && issued == Some(token)
      && db.sessions == old(db.sessions) + [NewSession(old(db.nextSessionId), token, u, now)]
    ensures unchanged(db`users, db`events, db`participants)
    ensures db.nextSessionId == old(db.nextSessionId) + (if status == Http.Ok then 1 else 0)
    ensures unchanged(db`nextUserId, db`nextEventId, db`nextParticipantId)
  {
    if !body.WellFormed() {
      return Http.BadRequest, None, None;
    }
    match CheckCredentials(db.users, body.email.value, body.password.value)
    case None =>
      return Http.Unauthorized, None, None;
    case Some(u) =>
      var s := db.CreateSession(token, u.id, now + SessionLifetimeMs);
      status, user, issued := Http.Ok, Some(u), Some(token);
  }

  /**
   * POST /api/auth/logout, given the value of the `session` cookie. Without a
   * token it answers 200 and changes nothing. With one it deletes every
   * session carrying that token and then sends no response at all: `None`.
   */
  method Logout(db: Store, cookie: Option<string>) returns (response: Option<int>)
    requires db.Valid()
    modifies db
    ensures db.Valid()
    ensures cookie.None? || cookie.value == "" ==> response == Some(Http.Ok) && unchanged(db)
    ensures cookie.Some? && cookie.value != "" ==>
      response.None? && db.sessions == RemoveSessions(old(db.sessions), cookie.value)
    ensures unchanged(db`users, db`events, db`participants)
    ensures unchanged(db`nextUserId, db`nextSessionId, db`nextEventId, db`nextParticipantId)
  {
    if cookie.None? || cookie.value == "" {
      return Some(Http.Ok);
    }
    db.DestroySessions(cookie.value);
    response := None;
  }

  /** Signing up and then logging in with the same email and password succeeds. */
  method SignupThenLogin(db: Store, email: string, password: string, fullName: string,
                         now: Timestamp, token: string)
    returns (signupStatus: int, loginStatus: int)
    requires db.Valid()
    modifies db
    ensures db.Valid()
    ensures signupStatus == Http.Created ==> loginStatus == Http.Ok
  {
    var created;
    signupStatus, created := Signup(db, SignupBody(Some(email), Some(password), Some(fullName)));
    if signupStatus == Http.Created {
      LoginAfterSignup(old(db.users), created.value.id, email, password, fullName);
    }
    var user, issued;
    loginStatus, user, issued := Login(db, LoginBody(Some(email), Some(password)), now, token);
  }
}

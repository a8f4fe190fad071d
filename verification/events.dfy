/**
 * The event routes: list, get, create, delete, participate and unparticipate.
 *
 * Every mutating route checks the session in the same way before anything
 * else; that check is `Authenticate`, defined once, and the contract of each
 * mutating handler is stated in terms of it.
 */
module Events {
  import opened Tables
  import opened Models
  import Http
  import Auth

  /** Why a token does not resolve to a user; every reason is answered with 401. */
  datatype AuthFailure = MissingToken | NoLiveSession | UnknownUser

  datatype AuthResult = Authenticated(user: User) | Rejected(reason: AuthFailure)

  /** Session row `i` is the one `Session.findOne({ where: { token } })` returns. */
  ghost predicate IsFirstSession(sessions: seq<Session>, token: string, i: int) {
    && 0 <= i < |sessions|
    && sessions[i].token == token
    && forall j :: 0 <= j < i ==> sessions[j].token != token
  }

  ghost predicate HasUser(users: seq<User>, id: nat) {
    exists u :: u in users && u.id == id
  }

  /** `User.findByPk(id)`. */
  function FindUserById(users: seq<User>, id: nat): (r: Option<User>)
    ensures r.Some? ==> r.value in users && r.value.id == id
    ensures r.None? <==> !HasUser(users, id)
  {
    match FindFirst(users, (u: User) => u.id == id)
    case None => None
    case Some(i) => Some(users[i])
  }

  /** `Event.findByPk(id)`. */
  function FindEvent(events: seq<Event>, id: nat): (r: Option<Event>)
    ensures r.Some? ==> r.value in events && r.value.id == id
    ensures r.None? <==> forall e :: e in events ==> e.id != id
  {
    match FindFirst(events, (e: Event) => e.id == id)
    case None => None
    case Some(i) => Some(events[i])
  }

  /** `Participant.findOne({ where: { userId, eventId } })`. */
  function FindParticipant(participants: seq<Participant>, userId: nat, eventId: nat): (r: Option<Participant>)
    ensures r.Some? ==> r.value in participants && r.value.userId == userId && r.value.eventId == eventId
    ensures r.None? <==> forall p :: p in participants ==> p.userId != userId || p.eventId != eventId
  {
    match FindFirst(participants, (p: Participant) => p.userId == userId && p.eventId == eventId)
    case None => None
    case Some(i) => Some(participants[i])
  }

  /**
   * The session check shared by every mutating event route. An empty token is
   * rejected; otherwise the first session carrying the token must not have
   * expired (`expiresAt < now` rejects, so a session expiring exactly at `now`
   * is still live) and its `userId` must name an existing user.
   */
  function Authenticate(users: seq<User>, sessions: seq<Session>, token: string, now: Timestamp): (r: AuthResult)
    ensures token == "" <==> r == Rejected(MissingToken)
    ensures r.Authenticated? <==>
      && token != ""
      && (exists i :: IsFirstSession(sessions, token, i)
                      && now <= sessions[i].expiresAt && HasUser(users, sessions[i].userId))
    ensures r.Authenticated? ==>
      && r.user in users
      && (exists i :: IsFirstSession(sessions, token, i) && r.user.id == sessions[i].userId)
  {
    if token == "" then Rejected(MissingToken)
    else
      match FindFirst(sessions, (s: Session) => s.token == token)
      case None => Rejected(NoLiveSession)
      case Some(i) =>
        assert IsFirstSession(sessions, token, i);
        assert forall k :: IsFirstSession(sessions, token, k) ==> k == i by {
          forall k | IsFirstSession(sessions, token, k) ensures k == i {
            assert !(k < i) && !(i < k);
          }
        }
        if sessions[i].expiresAt < now then Rejected(NoLiveSession)
        else
          match FindUserById(users, sessions[i].userId)
          case None => Rejected(UnknownUser)
          case Some(u) => Authenticated(u)
  }

  /** The reply to a read-only route: a status and, on success, a body. */
  datatype Reply<T> = Reply(status: int, body: Option<T>)

  datatype EventDetail = EventDetail(event: Event, participants: seq<Participant>)

  /** GET /api/events: every event, unfiltered. */
  function ListEvents(events: seq<Event>): (r: Reply<seq<Event>>)
    ensures r.status == Http.Ok && r.body == Some(events)
  {
    Reply(Http.Ok, Some(events))
  }

  /**
   * After an existing event is deleted, the listing still answers 200, has
   * exactly one entry fewer, and holds exactly the other events.
   */
  lemma ListAfterDelete(events: seq<Event>, id: nat)
    requires KeysDistinct(events, EventKey) && HasEvent(events, id)
    ensures var r := ListEvents(RemoveEvent(events, id));
      && r.status == Http.Ok && r.body.Some?
      && |r.body.value| == |events| - 1
      && (forall e :: e in r.body.value <==> e in events && e.id != id)
  {
    RemoveEventShrinks(events, id);
  }

  /** The participant rows of one event, as `Participant.findAll({ where: { eventId } })` returns them. */
  function ParticipantsOf(participants: seq<Participant>, eventId: nat): (r: seq<Participant>)
    ensures forall p :: p in r <==> p in participants && p.eventId == eventId
  {
    Filter(participants, (p: Participant) => p.eventId == eventId)
  }

  /** GET /api/events/:id: 404 for an unknown id, otherwise the event and exactly its participant rows. */
  function GetEvent(events: seq<Event>, participants: seq<Participant>, id: nat): (r: Reply<EventDetail>)
    ensures r.status == Http.NotFound <==> forall e :: e in events ==> e.id != id
    ensures r.status == Http.NotFound ==> r.body.None?
    ensures r.status != Http.NotFound ==>
      && r.status == Http.Ok && r.body.Some?
      && r.body.value.event in events && r.body.value.event.id == id
      && forall p :: p in r.body.value.participants <==> p in participants && p.eventId == id
  {
    match FindEvent(events, id)
    case None => Reply(Http.NotFound, None)
    case Some(e) => Reply(Http.Ok, Some(EventDetail(e, ParticipantsOf(participants, e.id))))
  }

  /** The listed participant rows keep each row's multiplicity. */
  lemma ParticipantsOfCounts(participants: seq<Participant>, eventId: nat, p: Participant)
    ensures multiset(ParticipantsOf(participants, eventId))[p]
         == if p.eventId == eventId then multiset(participants)[p] else 0
  {
    FilterCounts(participants, (q: Participant) => q.eventId == eventId, p);
  }

  /** The two states of a (user, event) pair. */
  datatype Membership = NotParticipating | Participating

  function MembershipOf(participants: seq<Participant>, userId: nat, eventId: nat): (r: Membership)
    ensures r == Participating <==> exists p :: p in participants && p.userId == userId && p.eventId == eventId
  {
    if FindParticipant(participants, userId, eventId).Some? then Participating else NotParticipating
  }

  /** Participating and then leaving restores the participant table exactly. */
  lemma {:induction false} JoinThenLeaveRestores(participants: seq<Participant>, p: Participant)
    requires MembershipOf(participants, p.userId, p.eventId) == NotParticipating
    ensures RemovePair(participants + [p], p.userId, p.eventId) == participants
  {
    var keep := (q: Participant) => q.userId != p.userId || q.eventId != p.eventId;
    FilterAppend(participants, p, keep);
    FilterKeepsAll(participants, keep);
  }

  /**
   * The session a login inserts, under a token no other session carries,
   * authenticates its user up to and including its stored expiry, one week
   * after the login cut down to the whole second, and is rejected afterwards:
   * never past the week, and possibly up to a second before it ends.
   */
  lemma LoginSessionLastsOneWeek(users: seq<User>, sessions: seq<Session>, u: User, id: nat,
                                 token: string, loginTime: Timestamp, now: Timestamp)
    requires KeysDistinct(users, UserKey) && u in users
    requires token != ""
    requires forall s :: s in sessions ==> s.token != token
    ensures var r := Authenticate(users, sessions + [Auth.NewSession(id, token, u, loginTime)], token, now);
      && (r.Authenticated? <==> now <= StoredTimestamp(loginTime + Auth.SessionLifetimeMs))
      && (now <= loginTime + Auth.SessionLifetimeMs - 1000 ==> r.Authenticated?)
      && (now > loginTime + Auth.SessionLifetimeMs ==> r.Rejected?)
      && (r.Authenticated? ==> r.user == u)
  {
    var s := Auth.NewSession(id, token, u, loginTime);
    var all := sessions + [s];
    var n := |sessions|;
    assert IsFirstSession(all, token, n) by {
      forall j | 0 <= j < n ensures all[j].token != token {
        assert all[j] == sessions[j];
      }
    }
    forall i | IsFirstSession(all, token, i) ensures i == n {
      assert !(i < n);
    }
    assert HasUser(users, u.id);
    var r := Authenticate(users, all, token, now);
    if r.Authenticated? {
      var k :| 0 <= k < |users| && users[k] == r.user;
      var m :| 0 <= m < |users| && users[m] == u;
      assert UserKey(users[k]) == UserKey(users[m]);
    }
  }

  /**
   * A login at 600 ms stores the expiry 604800000, the week cut down to the
   * second: a request 300 ms after the week is refused, one at the stored
   * expiry still accepted.
   */
  lemma ExpiryIsCutToTheSecond()
    ensures var u := User(1, "a@x.com", "secret", "A");
      var sessions := [Auth.NewSession(1, "t", u, 600)];
      && sessions[0].expiresAt == 604800000
      && Authenticate([u], sessions, "t", 600 + Auth.SessionLifetimeMs + 300).Rejected?
      && Authenticate([u], sessions, "t", 604800000).Authenticated?
  {
  }

  /** The JSON body of the routes that carry only a session token. */
  datatype TokenBody = TokenBody(token: Option<string>)

  datatype CreateEventBody = CreateEventBody(title: Option<string>, description: Option<string>,
                                             date: Option<string>, location: Option<string>,
                                             token: Option<string>)
  {
    /**
     * `CreateEventBodySchema.safeParse` succeeds: all five fields are strings.
     * Empty strings pass; an empty token is refused later, by the session check.
     */
    predicate WellFormed()
      ensures WellFormed() ==> token.Some?
      ensures (title == Some("") && description == Some("") && date == Some("") && location == Some("")
               && token == Some("")) ==> WellFormed()
      ensures title.None? || description.None? || date.None? || location.None? ==> !WellFormed()
    {
      title.Some? && description.Some? && date.Some? && location.Some? && token.Some?
    }
  }

  /**
   * POST /api/events: 400 on a malformed body, 401 when the session check
   * fails, otherwise 201 and exactly one new event organized by the session's
   * user; no other table changes.
   */
  method CreateEvent(db: Store, body: CreateEventBody, now: Timestamp) returns (status: int, created: Option<Event>)
    requires db.Valid()
    modifies db
    ensures db.Valid()
    ensures !body.WellFormed() ==> status == Http.BadRequest && created.None? && unchanged(db)
    ensures body.WellFormed() ==>
      var auth := Authenticate(old(db.users), old(db.sessions), body.token.value, now);
      && (auth.Rejected? ==> status == Http.Unauthorized && created.None? && unchanged(db))
      && (auth.Authenticated? ==>
            && status == Http.Created
            && created == Some(Event(old(db.nextEventId), body.title.value, body.description.value,
                                     auth.user.id, body.date.value, body.location.value))
            && db.events == old(db.events) + [created.value]
            && (forall e :: e in old(db.events) ==> e.id != created.value.id))
    ensures body.WellFormed() && body.token.value == "" ==> status == Http.Unauthorized && unchanged(db)
    ensures status == Http.Created ==>
      created.Some? && ListEvents(db.events).body == Some(old(db.events) + [created.value])
    ensures unchanged(db`users, db`sessions, db`participants)
    ensures db.nextEventId == old(db.nextEventId) + (if status == Http.Created then 1 else 0)
    ensures unchanged(db`nextUserId, db`nextSessionId, db`nextParticipantId)
  {
    if !body.WellFormed() {
      return Http.BadRequest, None;
    }
    match Authenticate(db.users, db.sessions, body.token.value, now)
    case Rejected(_) =>
      return Http.Unauthorized, None;
    case Authenticated(user) =>
      var e := db.CreateEvent(body.title.value, body.description.value, body.date.value, user.id,
                              body.location.value);
      status, created := Http.Created, Some(e);
  }

  /**
   * DELETE /api/events/:id: authentication is checked before existence. 404
   * for an unknown event, 403 for a user who is not its organizer, otherwise
   * 200: the event is gone, other events stay, and its participant rows
   * cascade away.
   */
  method DeleteEvent(db: Store, id: nat, body: TokenBody, now: Timestamp) returns (status: int)
    requires db.Valid()
    modifies db
    ensures db.Valid()
    ensures body.token.None? ==> status == Http.BadRequest && unchanged(db)
    ensures body.token.Some? ==>
      var auth := Authenticate(old(db.users), old(db.sessions), body.token.value, now);
      var event := FindEvent(old(db.events), id);
      && (auth.Rejected? ==> status == Http.Unauthorized && unchanged(db))
      && (auth.Authenticated? && event.None? ==> status == Http.NotFound && unchanged(db))
      && (auth.Authenticated? && event.Some? && event.value.organizerId != auth.user.id ==>
            status == Http.Forbidden && unchanged(db))
      && (auth.Authenticated? && event.Some? && event.value.organizerId == auth.user.id ==>
            && status == Http.Ok
            && db.events == RemoveEvent(old(db.events), id)
            && db.participants == CascadeDelete(old(db.participants), id))
    ensures body.token == Some("") ==> status == Http.Unauthorized && unchanged(db)
    ensures status == Http.Ok ==>
      var listed := ListEvents(db.events).body.value;
      && |listed| == |old(db.events)| - 1
      && (forall e :: e in listed <==> e in old(db.events) && e.id != id)
    ensures unchanged(db`users, db`sessions)
    ensures unchanged(db`nextUserId, db`nextSessionId, db`nextEventId, db`nextParticipantId)
  {
    if body.token.None? {
      return Http.BadRequest;
    }
    match Authenticate(db.users, db.sessions, body.token.value, now)
    case Rejected(_) =>
      return Http.Unauthorized;
    case Authenticated(user) =>
      match FindEvent(db.events, id)
      case None =>
        return Http.NotFound;
      case Some(event) =>
        if event.organizerId != user.id {
          return Http.Forbidden;
        }
        ListAfterDelete(db.events, event.id);
        db.DestroyEvent(event.id);
        status := Http.Ok;
  }

  /**
   * POST /api/events/:id/participate: after the session and existence checks,
   * 409 with no insert when the (user, event) pair already participates,
   * otherwise 201 and exactly one new participant row.
   */
  method Participate(db: Store, id: nat, body: TokenBody, now: Timestamp) returns (status: int)
    requires db.Valid()
    modifies db
    ensures db.Valid()
    ensures body.token.None? ==> status == Http.BadRequest && unchanged(db)
    ensures body.token.Some? ==>
      var auth := Authenticate(old(db.users), old(db.sessions), body.token.value, now);
      var event := FindEvent(old(db.events), id);
      && (auth.Rejected? ==> status == Http.Unauthorized && unchanged(db))
      && (auth.Authenticated? && event.None? ==> status == Http.NotFound && unchanged(db))
      && (auth.Authenticated? && event.Some? &&
          MembershipOf(old(db.participants), auth.user.id, id) == Participating ==>
            status == Http.Conflict && unchanged(db))
      && (auth.Authenticated? && event.Some? &&
          MembershipOf(old(db.participants), auth.user.id, id) == NotParticipating ==>
            && status == Http.Created
            && db.participants == old(db.participants) + [Participant(old(db.nextParticipantId), auth.user.id, id)]
            && MembershipOf(db.participants, auth.user.id, id) == Participating)
    ensures body.token == Some("") ==> status == Http.Unauthorized && unchanged(db)
    ensures unchanged(db`users, db`sessions, db`events)
    ensures db.nextParticipantId == old(db.nextParticipantId) + (if status == Http.Created then 1 else 0)
    ensures unchanged(db`nextUserId, db`nextSessionId, db`nextEventId)
  {
    if body.token.None? {
      return Http.BadRequest;
    }
    match Authenticate(db.users, db.sessions, body.token.value, now)
    case Rejected(_) =>
      return Http.Unauthorized;
    case Authenticated(user) =>
      match FindEvent(db.events, id)
      case None =>
        return Http.NotFound;
      case Some(event) =>
        if FindParticipant(db.participants, user.id, event.id).Some? {
          return Http.Conflict;
        }
        var p := db.CreateParticipant(user.id, event.id);
        assert p in db.participants;
        status := Http.Created;
  }

  /**
   * POST /api/events/:id/unparticipate: after the session and existence
   * checks, 404 when the pair does not participate, otherwise 200 and every
   * row of that pair removed.
   */
  method Unparticipate(db: Store, id: nat, body: TokenBody, now: Timestamp) returns (status: int)
    requires db.Valid()
    modifies db
    ensures db.Valid()
    ensures body.token.None? ==> status == Http.BadRequest && unchanged(db)
    ensures body.token.Some? ==>
      var auth := Authenticate(old(db.users), old(db.sessions), body.token.value, now);
      var event := FindEvent(old(db.events), id);
      && (auth.Rejected? ==> status == Http.Unauthorized && unchanged(db))
      && (auth.Authenticated? && event.None? ==> status == Http.NotFound && unchanged(db))
      && (auth.Authenticated? && event.Some? &&
          MembershipOf(old(db.participants), auth.user.id, id) == NotParticipating ==>
            status == Http.NotFound && unchanged(db))
      && (auth.Authenticated? && event.Some? &&
          MembershipOf(old(db.participants), auth.user.id, id) == Participating ==>
            && status == Http.Ok
            && db.participants == RemovePair(old(db.participants), auth.user.id, id)
            && MembershipOf(db.participants, auth.user.id, id) == NotParticipating)
    ensures body.token == Some("") ==> status == Http.Unauthorized && unchanged(db)
    ensures unchanged(db`users, db`sessions, db`events)
    ensures unchanged(db`nextUserId, db`nextSessionId, db`nextEventId, db`nextParticipantId)
  {
    if body.token.None? {
      return Http.BadRequest;
    }
    match Authenticate(db.users, db.sessions, body.token.value, now)
    case Rejected(_) =>
      return Http.Unauthorized;
    case Authenticated(user) =>
      match FindEvent(db.events, id)
      case None =>
        return Http.NotFound;
      case Some(event) =>
        if FindParticipant(db.participants, user.id, event.id).None? {
          return Http.NotFound;
        }
        db.DestroyParticipants(user.id, event.id);
        status := Http.Ok;
  }

  /** A first participate is accepted and an immediate second one is refused with 409. */
  method ParticipateTwice(db: Store, id: nat, token: string, now: Timestamp) returns (first: int, second: int)
    requires db.Valid()
    modifies db
    ensures db.Valid()
    ensures first == Http.Created ==> second == Http.Conflict
  {
    first := Participate(db, id, TokenBody(Some(token)), now);
    second := Participate(db, id, TokenBody(Some(token)), now);
  }

  /**
   * After a successful participate, unparticipate answers 200 and restores the
   * participant table; a further unparticipate answers 404.
   */
  method ParticipateThenUnparticipate(db: Store, id: nat, token: string, now: Timestamp)
    returns (joined: int, left: int, leftAgain: int)
    requires db.Valid()
    modifies db
    ensures db.Valid()
    ensures joined == Http.Created ==>
      left == Http.Ok && leftAgain == Http.NotFound && db.participants == old(db.participants)
  {
    joined := Participate(db, id, TokenBody(Some(token)), now);
    left := Unparticipate(db, id, TokenBody(Some(token)), now);
    if joined == Http.Created {
      var user := Authenticate(db.users, db.sessions, token, now).user;
      JoinThenLeaveRestores(old(db.participants), Participant(old(db.nextParticipantId), user.id, id));
    }
    leftAgain := Unparticipate(db, id, TokenBody(Some(token)), now);
  }
}

/**
 * The four tables of the relational store (User, Session, Event, Participant),
 * their AUTO_INCREMENT primary keys, the foreign key from Participant to Event
 * with its ON DELETE CASCADE, and the create/destroy operations the request
 * handlers perform on them.
 */
module Models {
  import opened Tables

  /** Milliseconds since the epoch, as `Date.now()` gives them. */
  type Timestamp = int

  /**
   * What a DATE column keeps of a timestamp: the value is written as
   * `YYYY-MM-DD HH:mm:ss`, so its milliseconds are dropped and the stored
   * instant is the whole second at or before it.
   */
  function StoredTimestamp(t: Timestamp): (r: Timestamp)
    ensures r % 1000 == 0
    ensures t - 1000 < r <= t
  {
    t / 1000 * 1000
  }

  datatype User = User(id: nat, email: string, password: string, fullName: string)

  /** Every column is NOT NULL: a session always has a token, an owner and an expiry. */
  datatype Session = Session(id: nat, token: string, userId: nat, expiresAt: Timestamp)

  /** `date` is kept as the string the client sent; its parsing is not modelled. */
  datatype Event = Event(id: nat, title: string, description: string, organizerId: nat,
                         date: string, location: string)

  /**
   * Both references are NOT NULL. As the through table of the many-to-many
   * association between User and Event, the table also carries a composite
   * unique key on (userId, eventId).
   */
  datatype Participant = Participant(id: nat, userId: nat, eventId: nat)

  function UserKey(u: User): nat { u.id }
  function SessionKey(s: Session): nat { s.id }
  function EventKey(e: Event): nat { e.id }
  function ParticipantKey(p: Participant): nat { p.id }

  /** Primary key of a table: distinct, and below the AUTO_INCREMENT counter. */
  ghost predicate Keyed<T>(rows: seq<T>, key: T -> nat, next: nat) {
    KeysDistinct(rows, key) && KeysBelow(rows, key, next)
  }

  ghost predicate HasEvent(events: seq<Event>, id: nat) {
    exists e :: e in events && e.id == id
  }

  /** The foreign key Participant.eventId -> Event.id. */
  ghost predicate ParticipantsReferToEvents(events: seq<Event>, participants: seq<Participant>) {
    forall p :: p in participants ==> HasEvent(events, p.eventId)
  }

  /** No two users share an email: NOT a constraint of the table. */
  ghost predicate EmailsUnique(users: seq<User>) {
    forall i, j :: 0 <= i < j < |users| ==> users[i].email != users[j].email
  }

  /** The (user, event) pair a participant row records. */
  function PairOf(p: Participant): (nat, nat) { (p.userId, p.eventId) }

  /** No (userId, eventId) pair occurs twice: the through table's composite unique key. */
  ghost predicate PairsUnique(participants: seq<Participant>) {
    KeysDistinct(participants, PairOf)
  }

  /** The Event table after `Event.destroy({ where: { id } })`. */
  function RemoveEvent(events: seq<Event>, id: nat): (r: seq<Event>)
    ensures forall e :: e in r <==> e in events && e.id != id
  {
    Filter(events, (e: Event) => e.id != id)
  }

  /** The Participant table after the cascade that deleting event `eventId` triggers. */
  function CascadeDelete(participants: seq<Participant>, eventId: nat): (r: seq<Participant>)
    ensures forall p :: p in r <==> p in participants && p.eventId != eventId
    ensures forall p :: p in r ==> p.eventId != eventId
  {
    Filter(participants, (p: Participant) => p.eventId != eventId)
  }

  /** The Participant table after `Participant.destroy({ where: { userId, eventId } })`. */
  function RemovePair(participants: seq<Participant>, userId: nat, eventId: nat): (r: seq<Participant>)
    ensures forall p :: p in r <==> p in participants && (p.userId != userId || p.eventId != eventId)
  {
    Filter(participants, (p: Participant) => p.userId != userId || p.eventId != eventId)
  }

  /** The Session table after `Session.destroy({ where: { token } })`. */
  function RemoveSessions(sessions: seq<Session>, token: string): (r: seq<Session>)
    ensures forall s :: s in r <==> s in sessions && s.token != token
  {
    Filter(sessions, (s: Session) => s.token != token)
  }

  /** With distinct ids, destroying an event that exists removes exactly one row. */
  lemma {:induction false} RemoveEventShrinks(events: seq<Event>, id: nat)
    requires KeysDistinct(events, EventKey) && HasEvent(events, id)
    ensures |RemoveEvent(events, id)| == |events| - 1
  {
    var keep := (e: Event) => e.id != id;
    var tail := events[1..];
    assert events == [events[0]] + tail;
    assert KeysDistinct(tail, EventKey) by {
      forall i, j | 0 <= i < j < |tail| ensures EventKey(tail[i]) != EventKey(tail[j]) {
        assert tail[i] == events[i + 1] && tail[j] == events[j + 1];
      }
    }
    if events[0].id == id {
      forall j | 0 <= j < |tail| ensures keep(tail[j]) {
        assert tail[j] == events[j + 1];
      }
      FilterKeepsAll(tail, keep);
      assert RemoveEvent(events, id) == Filter(tail, keep);
    } else {
      var e :| e in events && e.id == id;
      assert e in tail;
      RemoveEventShrinks(tail, id);
      assert RemoveEvent(events, id) == [events[0]] + RemoveEvent(tail, id);
    }
  }

  /** Inserting a row for a pair that has none keeps the unique pair key. */
  lemma JoinKeepsPairsUnique(participants: seq<Participant>, p: Participant)
    requires PairsUnique(participants)
    requires forall q :: q in participants ==> PairOf(q) != PairOf(p)
    ensures PairsUnique(participants + [p])
  {
  }

  /** Removing the rows of one pair keeps the unique pair key. */
  lemma LeaveKeepsPairsUnique(participants: seq<Participant>, userId: nat, eventId: nat)
    requires PairsUnique(participants)
    ensures PairsUnique(RemovePair(participants, userId, eventId))
  {
    FilterKeepsKeysDistinct(participants, (p: Participant) => p.userId != userId || p.eventId != eventId, PairOf);
  }

  /** The cascade of one event keeps the unique pair key. */
  lemma CascadeKeepsPairsUnique(participants: seq<Participant>, eventId: nat)
    requires PairsUnique(participants)
    ensures PairsUnique(CascadeDelete(participants, eventId))
  {
    FilterKeepsKeysDistinct(participants, (p: Participant) => p.eventId != eventId, PairOf);
  }

  /** Deleting an event keeps the foreign key: every surviving participant row still names an event. */
  lemma CascadeKeepsReferences(events: seq<Event>, participants: seq<Participant>, id: nat)
    requires ParticipantsReferToEvents(events, participants)
    ensures ParticipantsReferToEvents(RemoveEvent(events, id), CascadeDelete(participants, id))
  {
  }

  /** The cascade removes every participant row of the deleted event and keeps every copy of the others. */
  lemma CascadeCounts(participants: seq<Participant>, eventId: nat, p: Participant)
    ensures multiset(CascadeDelete(participants, eventId))[p]
         == if p.eventId == eventId then 0 else multiset(participants)[p]
  {
    FilterCounts(participants, (q: Participant) => q.eventId != eventId, p);
  }

  /** The User table's constraints admit two users with one email. */
  lemma UsersAdmitDuplicateEmails()
    ensures exists users: seq<User> :: Keyed(users, UserKey, 3) && !EmailsUnique(users)
  {
    var users := [User(1, "a@x.com", "secret1", "A"), User(2, "a@x.com", "secret2", "B")];
    assert users[0].email == users[1].email;
    assert Keyed(users, UserKey, 3);
  }

  /** The four tables and their AUTO_INCREMENT counters. */
  class Store {
    var users: seq<User>
    var sessions: seq<Session>
    var events: seq<Event>
    var participants: seq<Participant>
    var nextUserId: nat
    var nextSessionId: nat
    var nextEventId: nat
    var nextParticipantId: nat

    /**
     * What the database itself enforces: primary keys, the Participant -> Event
     * foreign key and the unique (userId, eventId) key of Participant.
     */
    ghost predicate Valid()
      reads this
      ensures Valid() ==>
        && (forall u :: u in users ==> u.id < nextUserId)
        && (forall s :: s in sessions ==> s.id < nextSessionId)
        && (forall e :: e in events ==> e.id < nextEventId)
        && (forall p :: p in participants ==> p.id < nextParticipantId)
    {
      && Keyed(users, UserKey, nextUserId)
      && Keyed(sessions, SessionKey, nextSessionId)
      && Keyed(events, EventKey, nextEventId)
      && Keyed(participants, ParticipantKey, nextParticipantId)
      && ParticipantsReferToEvents(events, participants)
      && PairsUnique(participants)
    }

    constructor ()
      ensures Valid()
      ensures users == [] && sessions == [] && events == [] && participants == []
    {
      users, sessions, events, participants := [], [], [], [];
      nextUserId, nextSessionId, nextEventId, nextParticipantId := 1, 1, 1, 1;
    }

    /** `User.create`: the new row takes the next key, distinct from every existing one. */
    method CreateUser(email: string, password: string, fullName: string) returns (u: User)
      requires Valid()
      modifies this
      ensures Valid()
      ensures u == User(old(nextUserId), email, password, fullName)
      ensures forall v :: v in old(users) ==> v.id != u.id
      ensures users == old(users) + [u] && nextUserId == old(nextUserId) + 1
      ensures sessions == old(sessions) && events == old(events) && participants == old(participants)
      ensures nextSessionId == old(nextSessionId) && nextEventId == old(nextEventId)
      ensures nextParticipantId == old(nextParticipantId)
    {
      u := User(nextUserId, email, password, fullName);
      AppendFreshKey(users, u, UserKey, nextUserId);
      users := users + [u];
      nextUserId := nextUserId + 1;
    }

    /** `Session.create`; the DATE column keeps `expiresAt` to the second. */
    method CreateSession(token: string, userId: nat, expiresAt: Timestamp) returns (s: Session)
      requires Valid()
      modifies this
      ensures Valid()
      ensures s == Session(old(nextSessionId), token, userId, StoredTimestamp(expiresAt))
      ensures forall t :: t in old(sessions) ==> t.id != s.id
      ensures sessions == old(sessions) + [s] && nextSessionId == old(nextSessionId) + 1
      ensures users == old(users) && events == old(events) && participants == old(participants)
      ensures nextUserId == old(nextUserId) && nextEventId == old(nextEventId)
      ensures nextParticipantId == old(nextParticipantId)
    {
      s := Session(nextSessionId, token, userId, StoredTimestamp(expiresAt));
      AppendFreshKey(sessions, s, SessionKey, nextSessionId);
      sessions := sessions + [s];
      nextSessionId := nextSessionId + 1;
    }

    /** `Event.create`. */
    method CreateEvent(title: string, description: string, date: string, organizerId: nat, location: string)
      returns (e: Event)
      requires Valid()
      modifies this
      ensures Valid()
      ensures e == Event(old(nextEventId), title, description, organizerId, date, location)
      ensures forall f :: f in old(events) ==> f.id != e.id
      ensures events == old(events) + [e] && nextEventId == old(nextEventId) + 1
      ensures users == old(users) && sessions == old(sessions) && participants == old(participants)
      ensures nextUserId == old(nextUserId) && nextSessionId == old(nextSessionId)
      ensures nextParticipantId == old(nextParticipantId)
    {
      e := Event(nextEventId, title, description, organizerId, date, location);
      AppendFreshKey(events, e, EventKey, nextEventId);
      events := events + [e];
      nextEventId := nextEventId + 1;
      forall p | p in participants ensures HasEvent(events, p.eventId) {
        var f :| f in old(events) && f.id == p.eventId;
        assert f in events;
      }
    }

    /**
     * `Participant.create`; the foreign key demands that the event exists, and
     * the unique key that the pair has no row yet.
     */
    method CreateParticipant(userId: nat, eventId: nat) returns (p: Participant)
      requires Valid()
      requires HasEvent(events, eventId)
      requires forall q :: q in participants ==> PairOf(q) != (userId, eventId)
      modifies this
      ensures Valid()
      ensures p == Participant(old(nextParticipantId), userId, eventId)
      ensures forall q :: q in old(participants) ==> q.id != p.id
      ensures participants == old(participants) + [p] && nextParticipantId == old(nextParticipantId) + 1
      ensures users == old(users) && sessions == old(sessions) && events == old(events)
      ensures nextUserId == old(nextUserId) && nextSessionId == old(nextSessionId)
      ensures nextEventId == old(nextEventId)
    {
      p := Participant(nextParticipantId, userId, eventId);
      AppendFreshKey(participants, p, ParticipantKey, nextParticipantId);
      JoinKeepsPairsUnique(participants, p);
      participants := participants + [p];
      nextParticipantId := nextParticipantId + 1;
    }

    /** `Session.destroy({ where: { token } })`. */
    method DestroySessions(token: string)
      requires Valid()
      modifies this
      ensures Valid()
      ensures sessions == RemoveSessions(old(sessions), token)
      ensures users == old(users) && events == old(events) && participants == old(participants)
      ensures nextUserId == old(nextUserId) && nextSessionId == old(nextSessionId)
      ensures nextEventId == old(nextEventId) && nextParticipantId == old(nextParticipantId)
    {
      FilterKeepsKeysDistinct(sessions, (s: Session) => s.token != token, SessionKey);
      sessions := RemoveSessions(sessions, token);
    }

    /** `Event.destroy({ where: { id } })`, with the ON DELETE CASCADE on Participant. */
    method DestroyEvent(id: nat)
      requires Valid()
      modifies this
      ensures Valid()
      ensures events == RemoveEvent(old(events), id)
      ensures participants == CascadeDelete(old(participants), id)
      ensures users == old(users) && sessions == old(sessions)
      ensures nextUserId == old(nextUserId) && nextSessionId == old(nextSessionId)
      ensures nextEventId == old(nextEventId) && nextParticipantId == old(nextParticipantId)
    {
      FilterKeepsKeysDistinct(events, (e: Event) => e.id != id, EventKey);
      FilterKeepsKeysDistinct(participants, (p: Participant) => p.eventId != id, ParticipantKey);
      CascadeKeepsPairsUnique(participants, id);
      CascadeKeepsReferences(events, participants, id);
      events := RemoveEvent(events, id);
      participants := CascadeDelete(participants, id);
    }

    /** `Participant.destroy({ where: { userId, eventId } })`. */
    method DestroyParticipants(userId: nat, eventId: nat)
      requires Valid()
      modifies this
      ensures Valid()
      ensures participants == RemovePair(old(participants), userId, eventId)
      ensures users == old(users) && sessions == old(sessions) && events == old(events)
      ensures nextUserId == old(nextUserId) && nextSessionId == old(nextSessionId)
      ensures nextEventId == old(nextEventId) && nextParticipantId == old(nextParticipantId)
    {
      FilterKeepsKeysDistinct(participants, (p: Participant) => p.userId != userId || p.eventId != eventId,
                              ParticipantKey);
      LeaveKeepsPairsUnique(participants, userId, eventId);
      participants := RemovePair(participants, userId, eventId);
    }
  }
}

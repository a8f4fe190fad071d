# eventio backend: request handlers over a relational store

This project models the backend of eventio, an event-organizing web application. Users sign up and log in, which creates a session token. With that token they create events, delete the events they organize, and join or leave events. Everything happens against four tables: User, Session, Event and Participant.

The model has five modules:

- `Tables` (tables.dfy) gives the query semantics the handlers rely on. A table is a sequence of rows in insertion order. `findOne` returns the first matching row (`FindFirst`). `destroy` keeps the rows that do not match (`Filter`). The module also proves lemmas about both.
- `Http` (http.dfy) holds the status codes.
- `Models` (models.dfy) models backend/src/models.ts. It has the row datatypes and the primary-key and foreign-key constraints. It also has the event→participant cascade, and the `Store` class: the four tables as `seq` fields plus their AUTO_INCREMENT counters. Each `create`/`destroy` the handlers issue is a `Store` method with `modifies`. `Store.Valid()` holds what the declarations give the database: the primary keys, the Participant→Event foreign key, and the composite unique key on (userId, eventId) that the many-to-many association through Participant declares (`PairsUnique`). Email uniqueness (`EmailsUnique`) is not a database constraint. A lemma exhibits a User table that breaks it, and signup proves that it preserves it.
- `Auth` (auth.dfy) models backend/src/auth.ts. It has signup, login and logout as methods on a `Store`. The checks they use are pure functions, including the request-body schemas, whose password length is counted in UTF-16 code units (`Utf16Length`) as JavaScript counts it.
- `Events` (events.dfy) models backend/src/event.ts. It has the session check `Authenticate`. It is written once, and every mutating handler's contract is stated in terms of it. The module also has the two GET routes as functions, and create, delete, participate and unparticipate as methods. Participation is a two-state machine (`Membership`) per (user, event) pair.

Handler methods take the current time `now` as a parameter. Login also takes the new session token as a parameter. Each handler returns the HTTP status it answers with. Its postconditions give the new state of the store for every status: the four tables and the four AUTO_INCREMENT counters. A DATE column is written without milliseconds, so the store keeps a session's `expiresAt` cut down to the whole second (`StoredTimestamp`).

## Model

| member | source | states |
|---|---|---|
| `Tables.FindFirst` | backend/src/event.ts:96-100 | `findOne` picks the first row satisfying the condition: no earlier row satisfies it, and there is no result if and only if no row satisfies it. |
| `Tables.Filter` | backend/src/event.ts:188-192 | `destroy` keeps exactly the rows that do not match the condition, and never makes the table longer. |
| `Tables.AppendFreshKey` | backend/src/models.ts:9-13 | A row inserted with the AUTO_INCREMENT counter as its key keeps the keys distinct and below the incremented counter. |
| `Models.StoredTimestamp` | backend/src/models.ts:56-59 | A DATE column keeps a whole number of seconds: the last whole second at or before the timestamp written, less than a second earlier. |
| `Models.Store.Valid` | backend/src/models.ts:9-13 | In a valid store every row's id is below its table's AUTO_INCREMENT counter, so the next insert cannot reuse an id. |
| `Tables.AppendNewKey` | backend/src/models.ts:151-152 | Appending a row whose (userId, eventId) pair, or any other key, no row carries keeps that key unique. |
| `Models.RemoveEventShrinks` | backend/src/event.ts:188-192 | With distinct ids, destroying an event that exists removes exactly one row. |
| `Models.RemoveEvent` | backend/src/event.ts:188-192 | Destroying event `id` keeps exactly the events whose id differs. Every other event is unaffected. |
| `Models.CascadeDelete` | backend/src/models.ts:154-162 | The cascade keeps exactly the participant rows of other events, and no surviving row names the deleted event. |
| `Models.CascadeCounts` | backend/src/models.ts:154-162 | The cascade removes every copy of the deleted event's rows. Every other row keeps its multiplicity. |
| `Models.CascadeKeepsReferences` | backend/src/models.ts:159-162 | After an event and its cascade are deleted, every remaining participant row still references an existing event (the foreign key holds). |
| `Models.RemovePair` | backend/src/event.ts:346-351 | Destroying by (userId, eventId) keeps exactly the rows of other pairs. |
| `Models.RemoveSessions` | backend/src/auth.ts:132-136 | Destroying by token keeps exactly the sessions with a different token. |
| `Models.UsersAdmitDuplicateEmails` | backend/src/models.ts:14-17 | A User table that satisfies its key constraints can still hold two users with the same email. Email uniqueness is not a store constraint. |
| `Models.Store.CreateUser` | backend/src/models.ts:6-31 | `User.create` appends one row whose id is the counter's value, differs from every existing id, and keeps `Valid`. Nothing else changes. |
| `Models.Store.CreateSession` | backend/src/models.ts:40-65 | `Session.create` appends one row with a fresh id, its `expiresAt` cut down to the whole second. Nothing else changes. |
| `Models.Store.CreateEvent` | backend/src/models.ts:76-109 | `Event.create` appends one row with a fresh id and keeps the foreign key. Nothing else changes. |
| `Models.Store.CreateParticipant` | backend/src/models.ts:122-143 | `Participant.create` requires the referenced event to exist and the pair to have no row yet. It appends one row with a fresh id and keeps `Valid`, including the unique pair key. Nothing else changes. |
| `Models.Store.DestroySessions` | backend/src/auth.ts:132-136 | The Session table becomes `RemoveSessions` of the old one. The keys stay valid. |
| `Models.Store.DestroyEvent` | backend/src/models.ts:154-162 | The Event table loses event `id`, and the Participant table becomes its cascade. `Valid` is preserved, including the foreign key and the unique pair key. |
| `Models.Store.DestroyParticipants` | backend/src/event.ts:346-351 | The Participant table becomes `RemovePair` of the old one, and `Valid` is preserved. |
| `Auth.Utf16Length` | backend/src/auth.ts:25 | The length zod's `.min` measures lies between the number of characters and twice that, and equals it when no character lies outside the Basic Multilingual Plane. |
| `Auth.AstralCharactersCountTwice` | backend/src/auth.ts:76-79 | A password of three emoji has length 6, so the login schema accepts it. |
| `Auth.SignupBody.WellFormed` | backend/src/auth.ts:23-33 | Every body the signup schema accepts has credentials the login schema accepts, and a password of at least 3 characters. A body the login schema accepts plus any `fullName` string, even an empty one, passes. |
| `Auth.LoginBody.WellFormed` | backend/src/auth.ts:76-85 | With a valid email, a password of 6 characters always passes, and one of fewer than 3 characters never does. An accepted body has both fields. |
| `Auth.NewSession` | backend/src/auth.ts:103-107 | The row login inserts belongs to the user, carries the token, and expires on the last whole second at or before one week after `now`. |
| `Auth.FindUserByEmail` | backend/src/auth.ts:38-42 | Finds a user with exactly that email, or none when no user has it. When emails are unique, the result is the one user with that email. |
| `Auth.CheckCredentials` | backend/src/auth.ts:90-98 | A result is a user with that email and an equal plaintext password. An unknown email gives no user. When emails are unique, login succeeds if and only if some user has exactly these credentials. |
| `Auth.LoginAfterSignup` | backend/src/auth.ts:51-55 | After a user with a fresh email is appended, those credentials resolve to exactly that user. |
| `Auth.Signup` | backend/src/auth.ts:21-62 | A malformed body gives 400 with no change. A registered email gives 409 with no change. Otherwise the response is 201 and exactly one appended user with the given email, password and fullName. The user counter moves by one exactly on 201. Other tables and counters are unchanged, and email uniqueness is preserved. |
| `Auth.Login` | backend/src/auth.ts:74-114 | A malformed body gives 400. An unknown email and a wrong password give the same 401 with no change. Otherwise the response is 200 and exactly one new session, `NewSession` of the user. The session counter moves by one exactly on 200. Other tables and counters are unchanged. |
| `Auth.Logout` | backend/src/auth.ts:124-141 | With no token (absent or empty): 200 and no change. With a token: every session with that token is deleted, the others stay, and no response is sent. No counter changes. |
| `Auth.SignupThenLogin` | backend/src/auth.ts:51-109 | If signup answers 201, a login with the same email and password answers 200. |
| `Events.FindUserById` | backend/src/event.ts:106 | `User.findByPk` finds a user with that id, or none exactly when no user has it. |
| `Events.FindEvent` | backend/src/event.ts:178 | `Event.findByPk` finds an event with that id, or none exactly when no event has it. |
| `Events.FindParticipant` | backend/src/event.ts:256-261 | Finds a row of the (user, event) pair, or none exactly when the pair has no row. |
| `Events.Authenticate` | backend/src/event.ts:90-112 | An empty token is rejected. Otherwise the user is accepted if and only if the first session with the token has `now <= expiresAt` (so `expiresAt == now` is still live) and its userId names an existing user. The accepted user is that user. Every rejection is answered with 401. |
| `Events.ListAfterDelete` | backend/src/event.ts:19-27 | `ListEvents` models GET /api/events, which answers 200 with every event. After an existing event is deleted, that listing holds exactly the other events, one entry fewer than before. |
| `Events.ParticipantsOf` | backend/src/event.ts:46-50 | Returns exactly the participant rows whose eventId is the event's id. |
| `Events.ParticipantsOfCounts` | backend/src/event.ts:46-50 | Those rows keep their multiplicity. Rows of other events are absent. |
| `Events.CreateEventBody.WellFormed` | backend/src/event.ts:74-86 | The body of POST /api/events passes its schema only with all five fields present as strings: a missing field fails (400), and a body of five empty strings passes, its empty token being refused later by the session check. |
| `Events.GetEvent` | backend/src/event.ts:39-60 | 404 if and only if no event has the id. Otherwise 200 with that event and exactly its participant rows. |
| `Events.MembershipOf` | backend/src/event.ts:256-265 | A pair is `Participating` if and only if some participant row records it. |
| `Models.JoinKeepsPairsUnique` | backend/src/models.ts:151-152 | Appending a row for a pair that has no row yet keeps the unique (userId, eventId) key; `Store.CreateParticipant` relies on it. |
| `Models.LeaveKeepsPairsUnique` | backend/src/event.ts:346-351 | Deleting the rows of one pair keeps the unique pair key; `Store.DestroyParticipants` relies on it. |
| `Models.CascadeKeepsPairsUnique` | backend/src/models.ts:154-162 | The cascade of one event keeps the unique pair key; `Store.DestroyEvent` relies on it. |
| `Events.JoinThenLeaveRestores` | backend/src/event.ts:335-353 | Appending a row for a non-participating pair and then removing that pair gives back the original participant table. |
| `Events.LoginSessionLastsOneWeek` | backend/src/auth.ts:100-107 | The session a login creates under a fresh token authenticates its user at `now` if and only if `now` is at most the stored expiry, `loginTime + 604800000` cut down to the whole second. So it is accepted until a second before that instant and rejected at every time after it. |
| `Events.ExpiryIsCutToTheSecond` | backend/src/event.ts:102 | A login at 600 ms stores the expiry 604800000: a request 300 ms after the week is refused, and one at the stored expiry is still accepted. |
| `Events.CreateEvent` | backend/src/event.ts:72-127 | Malformed body: 400. Failed session check, including an empty token: 401 with no change. Otherwise 201 and exactly one appended event whose `organizerId` is the authenticated user's id; the listing then shows the old events followed by it. The event counter moves by one exactly on 201. No other table or counter changes. |
| `Events.DeleteEvent` | backend/src/event.ts:140-199 | Authentication is checked first (401). Then an unknown id gives 404 and a non-organizer gives 403, both with no change. Otherwise 200: the event is removed, other events stay, the listing is one entry shorter, and its participant rows cascade away. No counter changes. |
| `Events.Participate` | backend/src/event.ts:212-277 | After the 400, 401 and 404 checks: 409 with no insert when the pair already participates. Otherwise 201 and exactly one appended row, after which the pair participates. The participant counter moves by one exactly on 201. Pair uniqueness holds, as part of `Valid`. |
| `Events.Unparticipate` | backend/src/event.ts:291-358 | After the 400, 401 and 404 checks: 404 with no change when the pair does not participate. Otherwise 200, every row of the pair is removed, and the pair no longer participates. No counter changes. |
| `Events.ParticipateTwice` | backend/src/event.ts:256-272 | If the first participate answers 201, an immediate second one answers 409. |
| `Events.ParticipateThenUnparticipate` | backend/src/event.ts:335-353 | If participate answers 201, the following unparticipate answers 200 and restores the participant table. A further unparticipate answers 404. |

Other properties the model carries:

- Session and Participant rows always have their NOT NULL columns (backend/src/models.ts:48-59, 130-137). The row datatypes enforce this, since their fields are not optional.
- Signup accepts an empty `fullName`: the schema asks only for a string (backend/src/auth.ts:26).
- Unparticipate deletes every row of the (user, event) pair, not just one (backend/src/event.ts:346-351).
- Logout sends no response after deleting the sessions of a token (backend/src/auth.ts:132-137).

## Left out

- HTTP routing, the CORS setup, the `/api` health route and `app.listen` (backend/src/index.ts). Request bodies are modelled as records of optional string fields. An absent field and a field that is not a string are treated alike, as `None`.
- Auth.ValidEmail: a stand-in (`'@' in s`) for zod's `.email()` regular expression. Every property that involves email validity takes it as a hypothesis or carries it through unchanged. Only `Auth.AstralCharactersCountTwice` relies on the stand-in's body, for `ValidEmail("a@x.com")`; zod's `.email()` accepts that address as well.
- The token that login draws with `randomBytes(32).toString("hex")` is a parameter. `Events.LoginSessionLastsOneWeek` assumes that no existing session carries it, which is what the randomness is for.
- The clock (`new Date()`, `Date.now()`) is the parameter `now`. The event `date` is stored as the string the client sent. Parsing it with `new Date(...)`, and the failure an unparsable date causes on insert, are not modelled.
- The 500 branches and `console.error`: exceptions and logging.
- Models.Store.CreateUser: ids are MySQL INT columns, signed 32-bit, so AUTO_INCREMENT stops at 2147483647 and every later `User.create` fails. The model's counter is an unbounded `nat` and the insert always succeeds, so `Auth.Signup` answers 201 where the source answers 500 once the User ids have run out.
- Models.Store.CreateSession: the same 32-bit id limit; once Session ids have run out, `Auth.Login` answers 200 in the model where the source answers 500. Expired sessions are never deleted, so this table is the one that grows with every login.
- Models.Store.CreateEvent: the same 32-bit id limit; once Event ids have run out, `Events.CreateEvent` answers 201 in the model where the source answers 500.
- Models.Store.CreateParticipant: the same 32-bit id limit; once Participant ids have run out, `Events.Participate` answers 201 in the model where the source answers 500.
- No source file creates the schema (there is no `sync()` call). The model assumes the tables carry exactly the keys the definitions and associations in backend/src/models.ts declare: primary keys, the Participant→Event foreign key with ON DELETE CASCADE, and the unique (userId, eventId) key of the through table.
- Event ids come from the route path as strings. The handlers take them as numbers: a non-numeric id and its conversion are not modelled.
- Auth.FindUserByEmail: compares emails exactly. MySQL's default collations compare case-insensitively, so the database may find a user whose email differs in case. Depending on the server version and collation they may also ignore trailing spaces (PAD SPACE collations such as MySQL 5.7's `latin1_swedish_ci`) or accents (MySQL 8's `utf8mb4_0900_ai_ci`, which counts trailing spaces).
- Auth.CheckCredentials: compares email and password exactly, where the database's collation may match the email (and `findOne` the row) case-insensitively; the password comparison in the handler is exact, as modelled.
- Auth.Signup: the 409 check uses exact email equality, not the collation's. The VARCHAR(255) limit of STRING columns is not modelled: an email, password or fullName longer than 255 characters makes the insert fail with a 500 (or be truncated, depending on the server's SQL mode), where the model answers 201.
- Auth.Login: the credential lookup uses exact email equality, not the collation's.
- Auth.Logout: deletes the sessions whose token equals the cookie exactly, not by the collation's comparison.
- Events.Authenticate: finds the session whose token equals the body's token exactly, not by the collation's comparison.
- Events.CreateEvent: the VARCHAR(255) limit of the title, description and location columns is not modelled; a longer value makes the insert fail with a 500 (or be truncated), where the model answers 201.
- Logout in the assembled application: backend/src/index.ts installs no cookie parser. `req.cookies` is therefore undefined, and every logout request ends in the 500 branch. `Auth.Logout` models the handler given the cookie's value. On its delete path it returns `None` (no response), as the code does.
- The race between the existence check and the insert in signup and in participate: concurrency. In signup it can create two users with one email. In participate the unique pair key makes the second insert fail, which the handler answers with 500.
- The Session→User, Event→User and Participant→User foreign keys. Every insert into those tables takes its user id from a user row just read (login's credential check, the session check), and users are never deleted, so these keys cannot be violated.
- Response bodies beyond the rows the handlers return (messages, error details).
- Row order in `findAll` and `findOne` is taken to be insertion order. Without an ORDER BY the database does not promise any order.
- Environment loading (backend/src/env.ts), the database connection, and the whole frontend.

# Session lifecycle and sign-up / sign-in decisions

A Dafny model of the authentication core of a small banking web service. The
model is a sequential state machine over two in-memory tables. `users` maps a
caller-chosen `user_id` to an Argon2 credential hash. `sessions` maps an opaque
token to a time-bounded grant for one user.

It covers:

- the session repository: insert, lookup by token, the newest still-valid
  session of a user, validity of a token, and deletion;
- the session manager: `create_session` and `get_session_info`.
  `create_session` reuses a still-valid session and returns its token unchanged
  (its expiry is not extended), or else issues a new one expiring `max_age`
  after `now`. `get_session_info` returns a projection only while
  `now < max_time`;
- the user repository: create, exact lookup, and an existence check;
- the schema's constraints: unique keys, unique `user_id`, unique token, and the
  session → user foreign key with cascading delete;
- the decisions of the `signup` and `signin` endpoints.

Time is an integer (`Time`). The current clock reading, the freshly drawn token,
the password salt and `session_max_age_seconds` are parameters. Every operation
is a pure function from the tables to a new state, so lookups and
`get_session_info` cannot change either table. Store writes return a `Result`.
The constraint a rejected write would break is reported as its error, and the
tables are then unchanged.

Files, one module each: `wrappers.dfy` (Option, Result), `passwords.dfy`
(hash/verify abstraction), `models.dfy` (records, constraints, key assignment,
cascade), `user_repository.dfy`, `session_repository.dfy`,
`session_service.dfy` and `auth.dfy`.

Two behaviours of the endpoints, as the code has them:

- Sign-up checks `user_exists` before inserting. The unique index is only the
  backstop, so a duplicate is refused with 400 "User already exists" and never
  reaches the store.
- The 500 "Failed to create session" outcome arises only when the projection
  of the token just returned is missing. A store error while inserting is not
  caught by the endpoint. It becomes the framework's generic 500
  ("Internal Server Error"), modelled as `InternalError(UnhandledErrorDetail)`.

## Model

| member | source | states |
|---|---|---|
| Passwords.Hash | service/app/services/password_service.py:19-48 | a hash verifies the password it was made from and no other |
| Passwords.FreshSaltsGiveDistinctHashes | service/test/test_password_service.py:44-58 | two hashes of one password with different salts differ, and both verify |
| Models.NextId | service/app/models.py:23 | a new key is 1 on an empty table and otherwise one past some key in use, larger than every key in use |
| Models.NextUserId | service/app/models.py:23 | the key given to a new user is positive and larger than every key in use, so it is fresh |
| Models.NextSessionId | service/app/models.py:45 | the key given to a new session is positive and larger than every key in use |
| Models.OwnerOf | service/app/models.py:51 | the join `session.user` finds a user with the referenced key, and is absent exactly when no such user exists |
| Models.DeleteUser | service/app/models.py:28 | deleting a user removes it and every session it owns, keeps all other rows, and preserves every schema constraint |
| UserRepository.CreateUser | service/app/repositories/user_repository.py:24-39 | a duplicate `user_id` is refused by the unique constraint; otherwise exactly one row holding the given id and hash is appended under a fresh key, and the keys stay unique |
| UserRepository.GetUserByUserId | service/app/repositories/user_repository.py:41-53 | returns a stored user with exactly that `user_id`; absent iff none exists; with unique ids it is that user |
| UserRepository.UserExists | service/app/repositories/user_repository.py:55-66 | true iff some stored user has that `user_id` |
| UserRepository.CreateThenGet | service/test/test_user_repository.py:21-30 | after a successful create, looking the id up returns the created user |
| SessionRepository.CreateSession | service/app/repositories/session_repository.py:25-53 | a duplicate token or an unknown owner is refused with the store unchanged; otherwise exactly one session with the given owner, token, start and expiry is appended under a fresh key, earlier rows unchanged, constraints preserved |
| SessionRepository.GetValidSessionByUserId | service/app/repositories/session_repository.py:55-75 | the result belongs to the user, has `max_time > now`, and starts no earlier than any other such session; absent iff the user has no such session |
| SessionRepository.GetSessionByToken | service/app/repositories/session_repository.py:77-91 | returns a session holding that token, absent iff none does; with unique tokens it is that session |
| SessionRepository.IsSessionValid | service/app/repositories/session_repository.py:93-107 | with unique tokens, true iff a session holds the token and `now < max_time` |
| SessionRepository.DeleteSession | service/app/repositories/session_repository.py:109-117 | the deleted session is gone and the table shrinks; with unique keys every other session is kept and the keys stay unique |
| SessionService.CreateSession | service/app/services/session_service.py:27-62 | with a live session for the user, the store is unchanged and the newest live session's token is returned; otherwise exactly one session starting at `now` and ending at `now + max_age` is added under the fresh token, which is returned; users untouched; constraints preserved |
| SessionService.GetSessionInfo | service/app/services/session_service.py:64-88 | present only for a stored token whose session has `now < max_time`; it carries the token, the start and expiry, and the owner's public `user_id`; absent for an unknown token and at or after `max_time` |
| SessionService.InfoPresentIffValid | service/app/services/session_service.py:75-81 | in a consistent store the projection is present exactly when the repository calls the token valid |
| SessionService.ExpiryIsExclusive | service/app/services/session_service.py:80-81 | a session issued at `t0` with the default 3600-tick lifetime is valid at `t0 + 3599` and absent at `t0 + 3600` |
| SessionService.CreateThenInfo | service/test/test_session_service.py:44-62 | with `max_age > 0`, the projection of a token just returned at the same `now` is present, with that token and the owner's `user_id` |
| SessionService.NewestStable | service/app/repositories/session_repository.py:66-74 | the newest live session at `t1` is still the newest at a later `t2` while it has not expired |
| SessionService.CreateSessionTwice | service/test/test_session_service.py:26-41 | two calls for one user, the second before the first token expires, return the same token, and the second changes nothing |
| Auth.Signup | service/app/routers/auth.py:50-79 | an existing `user_id` gives 400 "User already exists" with the store unchanged; a fresh one gives 201 with that id and adds exactly one user whose hash verifies the password; constraints preserved |
| Auth.Signin | service/app/routers/auth.py:87-129 | credentials no stored user accepts give 401 "Invalid user_id or password" with the store unchanged; accepted credentials never give 401; for the accepting user, a rejected session insert gives the generic 500 with the store unchanged and a missing projection after a successful creation gives 500 "Failed to create session", and a present one gives 200 with exactly that projection; success returns exactly the projection of the token session creation returned, naming the signed-in user; "Failed to create session" means that projection was missing |
| Auth.SigninFailuresIndistinguishable | service/app/routers/auth.py:106-118 | an unknown user and a wrong password give identical replies (401, same detail, no session created) |
| Auth.SigninAt | service/app/routers/auth.py:120-129 | sign-in with one clock reading: never "Failed to create session" in a consistent store with `max_age > 0`; refusals and constraints as for sign-in |
| Auth.SingleClockKeepsSession | service/app/routers/auth.py:120-127 | when creation and projection read the same clock, the projection of the returned token is present |
| Auth.SigninAtSucceeds | service/app/routers/auth.py:106-129 | accepted credentials give 200 with the signed-in user's `user_id` unless the drawn token collides |
| Auth.SigninTwiceSameToken | service/test/test_auth_routes.py:124-158 | two sign-ins of one user with both readings of the second request before the first session expires return the same token and leave the store as the first left it |
| Auth.SigninAtTwiceSameToken | service/test/test_auth_routes.py:124-158 | the same for sign-in with a single clock reading |
| Auth.ClockSkewLosesReusedSession | service/app/routers/auth.py:120-127 | with two clock readings, a reused session that expires between them turns a correct sign-in into "Failed to create session" |
| Auth.AliceScenario | service/test/test_auth_routes.py:8-158 | sign-up, duplicate sign-up refused, sign-in, wrong password and unknown user refused alike, repeat sign-in returns the same token |

## Left out

- Argon2 is not modelled. A hash is an abstract value recording its salt and the plaintext it was derived from, and verification compares against that plaintext. The salt is a parameter. The library's other verification errors (a malformed stored hash) are not modelled, because every stored hash comes from `Hash`.
- `datetime.utcnow()`, `token_urlsafe(32)` and the salt draw are parameters. Timestamps are integers, and their wire format is not modelled.
- Configuration loading is left out. `session_max_age_seconds` is the `maxAge` parameter, and its default 3600 is `SessionService.DefaultMaxAge`.
- Database wiring, commit/refresh, eager loading and the HTTP app are left out. A write the database rejects leaves the tables unchanged, standing for the rollback.
- SessionRepository.CreateSession: enforces the foreign key `sessions.user_id → users.id` as the schema declares it. SQLite checks foreign keys only when that is switched on. Through the endpoints this makes no difference, because sign-in passes the key of a user it has just looked up.
- SessionService.GetSessionInfo: if a session's owner row is missing, the source fails dereferencing `session.user`, while the model returns absent. This cannot happen in a store that satisfies `Models.Valid`, which every operation preserves.
- SessionRepository.GetValidSessionByUserId: the source leaves the order of sessions with equal `start_time` unspecified. The model returns the earliest inserted, and its contract promises only a newest live session.
- SessionRepository.DeleteSession: deletes by primary key and requires the session to be stored. The source raises for an object that was never persisted.
- Models.DeleteUser: no repository operation deletes users. This member models only the cascade the schema declares.
- Request validation (pydantic, HTTP 422) is left out. Non-empty `user_id` and password are a precondition (`Auth.WellFormed`).
- The endpoints read-then-insert without a lock. Concurrent sign-ups or sign-ins can race, and the model is sequential.
- `timedelta` overflow for an enormous `max_age` is not modelled.
- `created_at` is set to the creation time passed in.
- `start_time` and `max_time` are always present because the fields are plain integers, matching the non-null columns.

## Findings

| source | as written | input that shows it | evidently intended | confidence | as-written member | corrected member |
|---|---|---|---|---|---|---|
| service/app/routers/auth.py:120-127 | `create_session` and `get_session_info` each read the clock. A session reused at the first reading can expire before the second. | alice's only session ends at 10. Creation reads 9 and reuses it, and the projection reads 10 and finds it expired. The reply is 500 "Failed to create session". | sign-in returns the session that creation picked | low; not executed | Auth.ClockSkewLosesReusedSession | Auth.SigninAt |

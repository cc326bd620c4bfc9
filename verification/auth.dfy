/**
 * The decision logic of the sign-up and sign-in endpoints. Each returns the
 * store after the request together with the HTTP outcome.
 */
module Auth {
  import opened Wrappers
  import opened Passwords
  import opened Models
  import UserRepository
  import SessionRepository
  import SessionService

  const UserExistsDetail: string := "User already exists"
  const CreatedMessage: string := "User created successfully"
  const InvalidCredentialsDetail: string := "Invalid user_id or password"
  const SessionFailedDetail: string := "Failed to create session"
  /** The body the web framework sends for an exception no handler catches. */
  const UnhandledErrorDetail: string := "Internal Server Error"

  datatype Response =
    | Created(userId: string, message: string)
    | Ok(info: SessionService.SessionInfo)
    | BadRequest(detail: string)
    | Unauthorized(detail: string)
    | InternalError(detail: string)

  /** The HTTP status each outcome is sent with. */
  function StatusCode(r: Response): int
  {
    match r
    case Created(_, _) => 201
    case Ok(_) => 200
    case BadRequest(_) => 400
    case Unauthorized(_) => 401
    case InternalError(_) => 500
  }

  datatype Reply = Reply(db: Db, response: Response)

  /** Request bodies must carry a non-empty identifier and password. */
  predicate WellFormed(userId: string, password: string)
  {
    |userId| >= 1 && |password| >= 1
  }

  /** Some stored user holds `userId` and accepts `password`. */
  ghost predicate Accepts(users: seq<User>, userId: string, password: string)
  {
    exists u :: u in users && u.userId == userId && Verify(password, u.passwordHash)
  }

  /**
   * Sign-up: an identifier already in use is refused with the store
   * unchanged; a fresh one gains exactly one user whose hash, drawn with
   * `salt`, verifies the given password.
   */
  function Signup(db: Db, userId: string, password: string, salt: nat, now: Time): (r: Reply)
    requires WellFormed(userId, password)
    ensures (exists u :: u in db.users && u.userId == userId) ==>
      r == Reply(db, BadRequest(UserExistsDetail))
    ensures (forall u :: u in db.users ==> u.userId != userId) ==>
      && r.response == Created(userId, CreatedMessage)
      && r.db.sessions == db.sessions
      && |r.db.users| == |db.users| + 1
      && r.db.users[..|db.users|] == db.users
      && r.db.users[|db.users|].userId == userId
      && Verify(password, r.db.users[|db.users|].passwordHash)
    ensures StatusCode(r.response) == 201 || r == Reply(db, BadRequest(UserExistsDetail))
    ensures Valid(db) ==> Valid(r.db)
  {
    if UserRepository.UserExists(db.users, userId) then
      Reply(db, BadRequest(UserExistsDetail))
    else
      match UserRepository.CreateUser(db.users, userId, Hash(password, salt), now)
      case Failure(_) => Reply(db, InternalError(UnhandledErrorDetail))
      case Success((users', user)) => Reply(db.(users := users'), Created(user.userId, CreatedMessage))
  }

  /**
   * Sign-in as written: `now` is the clock reading taken inside session
   * creation and `later` the separate reading taken by the projection.
   * Unknown identifier and wrong password give the same refusal with the
   * store unchanged; on success the outcome is the projection of the token
   * session creation returned, and a missing projection is a server error.
   */
  function Signin(db: Db, userId: string, password: string,
                  now: Time, later: Time, maxAge: int, freshToken: Token): (r: Reply)
    requires WellFormed(userId, password)
    ensures !Accepts(db.users, userId, password) ==>
      r == Reply(db, Unauthorized(InvalidCredentialsDetail))
    ensures Accepts(db.users, userId, password) && UsersKeyed(db.users) ==>
      r.response.Ok? || r.response.InternalError?
    ensures r.response.Ok? ==>
      && SessionService.GetSessionInfo(r.db, r.response.info.token, later) == Some(r.response.info)
      && exists u :: && u in db.users && u.userId == userId && Verify(password, u.passwordHash)
                     && SessionService.CreateSession(db, u.id, now, maxAge, freshToken)
                          == Success(SessionService.Issued(r.db, r.response.info.token))
    ensures r.response.Ok? && Valid(db) ==> r.response.info.userId == userId
    ensures r.response == InternalError(SessionFailedDetail) ==>
      exists u :: && u in db.users && u.userId == userId && Verify(password, u.passwordHash)
                  && var c := SessionService.CreateSession(db, u.id, now, maxAge, freshToken);
                     && c.Success? && c.value.db == r.db
                     && SessionService.GetSessionInfo(r.db, c.value.token, later).None?
    ensures UsersKeyed(db.users) ==>
      forall u :: u in db.users && u.userId == userId && Verify(password, u.passwordHash) ==>
        match SessionService.CreateSession(db, u.id, now, maxAge, freshToken)
        case Failure(_) => r == Reply(db, InternalError(UnhandledErrorDetail))
        case Success(iss) =>
          match SessionService.GetSessionInfo(iss.db, iss.token, later)
          case None => r == Reply(iss.db, InternalError(SessionFailedDetail))
          case Some(info) => r == Reply(iss.db, Ok(info))
    ensures r.db.users == db.users
    ensures Valid(db) ==> Valid(r.db)
  {
    match UserRepository.GetUserByUserId(db.users, userId)
    case None => Reply(db, Unauthorized(InvalidCredentialsDetail))
    case Some(user) =>
      if !Verify(password, user.passwordHash) then
        Reply(db, Unauthorized(InvalidCredentialsDetail))
      else
        match SessionService.CreateSession(db, user.id, now, maxAge, freshToken)
        case Failure(_) => Reply(db, InternalError(UnhandledErrorDetail))
        case Success(iss) =>
          match SessionService.GetSessionInfo(iss.db, iss.token, later)
          case None => Reply(iss.db, InternalError(SessionFailedDetail))
          case Some(info) => Reply(iss.db, Ok(info))
  }

  /**
   * Sign-in with a single clock reading shared by session creation and the
   * projection. In a consistent store with a positive `maxAge` the projection
   * can no longer be missing, and a password the stored hash accepts always
   * yields the session of the signed-in user unless the fresh token collides.
   */
  function SigninAt(db: Db, userId: string, password: string,
                    now: Time, maxAge: int, freshToken: Token): (r: Reply)
    requires WellFormed(userId, password)
    ensures !Accepts(db.users, userId, password) ==>
      r == Reply(db, Unauthorized(InvalidCredentialsDetail))
    ensures Valid(db) && maxAge > 0 ==> r.response != InternalError(SessionFailedDetail)
    ensures Valid(db) ==> Valid(r.db)
  {
    SingleClockKeepsSession(db, userId, password, now, maxAge, freshToken);
    Signin(db, userId, password, now, now, maxAge, freshToken)
  }

  /**
   * When creation and projection read the same clock, a session that
   * creation returned is still valid for the projection, so the
   * "Failed to create session" outcome cannot arise in a consistent store
   * with a positive `maxAge`.
   */
  lemma SingleClockKeepsSession(db: Db, userId: string, password: string,
                                now: Time, maxAge: int, freshToken: Token)
    requires WellFormed(userId, password)
    ensures Valid(db) && maxAge > 0 ==>
      Signin(db, userId, password, now, now, maxAge, freshToken).response != InternalError(SessionFailedDetail)
  {
  }

  /**
   * With one clock reading, accepted credentials give the signed-in user's
   * session whenever the drawn token does not collide with a stored one.
   */
  lemma SigninAtSucceeds(db: Db, userId: string, password: string, now: Time, maxAge: int, freshToken: Token)
    requires WellFormed(userId, password)
    requires Valid(db) && maxAge > 0
    requires Accepts(db.users, userId, password)
    requires !SessionRepository.TokenTaken(db.sessions, freshToken)
    ensures var r := SigninAt(db, userId, password, now, maxAge, freshToken);
            r.response.Ok? && r.response.info.userId == userId
  {
  }

  /**
   * Unknown identifier and wrong password are indistinguishable: the same
   * status, the same detail, and no session created in either case.
   */
  lemma SigninFailuresIndistinguishable(db: Db, unknown: string, p1: string, known: string, p2: string,
                                        now: Time, later: Time, maxAge: int, freshToken: Token)
    requires WellFormed(unknown, p1) && WellFormed(known, p2)
    requires forall u :: u in db.users ==> u.userId != unknown
    requires exists u :: u in db.users && u.userId == known
    requires !Accepts(db.users, known, p2)
    ensures var a := Signin(db, unknown, p1, now, later, maxAge, freshToken);
            var b := Signin(db, known, p2, now, later, maxAge, freshToken);
            && a == b
            && a.db == db
            && StatusCode(a.response) == 401
  {
  }

  /**
   * Two sign-ins of the same user return the same token and leave the store
   * as the first one left it, provided the first session has not expired at
   * either clock reading of the second request.
   */
  lemma SigninTwiceSameToken(db: Db, userId: string, password: string,
                             n1: Time, l1: Time, n2: Time, l2: Time,
                             maxAge: int, fresh1: Token, fresh2: Token)
    requires WellFormed(userId, password)
    requires Valid(db)
    requires n1 <= n2
    requires Signin(db, userId, password, n1, l1, maxAge, fresh1).response.Ok?
    requires var info1 := Signin(db, userId, password, n1, l1, maxAge, fresh1).response.info;
             n2 < info1.maxTime && l2 < info1.maxTime
    ensures var r1 := Signin(db, userId, password, n1, l1, maxAge, fresh1);
            var r2 := Signin(r1.db, userId, password, n2, l2, maxAge, fresh2);
            && r2.db == r1.db
            && r2.response.Ok?
            && r2.response.info.token == r1.response.info.token
  {
    var r1 := Signin(db, userId, password, n1, l1, maxAge, fresh1);
    var info1 := r1.response.info;
    var tok := info1.token;
    var u :| && u in db.users && u.userId == userId && Verify(password, u.passwordHash)
             && SessionService.CreateSession(db, u.id, n1, maxAge, fresh1)
                  == Success(SessionService.Issued(r1.db, tok));
    assert Valid(r1.db);
    var s :| s in r1.db.sessions && s.token == tok && Active(s, l1) && SessionService.Projects(info1, s, r1.db.users);
    assert Active(s, n2) && Active(s, l2);
    assert SessionRepository.IsSessionValid(r1.db.sessions, tok, n2);
    SessionService.CreateSessionTwice(db, u.id, n1, n2, maxAge, fresh1, fresh2);
    assert UserRepository.GetUserByUserId(r1.db.users, userId) == Some(u);
    SessionService.InfoPresentIffValid(r1.db, tok, l2);
  }

  /** The same property for sign-in with a single clock reading. */
  lemma SigninAtTwiceSameToken(db: Db, userId: string, password: string, t1: Time, t2: Time,
                               maxAge: int, fresh1: Token, fresh2: Token)
    requires WellFormed(userId, password)
    requires Valid(db)
    requires t1 <= t2
    requires SigninAt(db, userId, password, t1, maxAge, fresh1).response.Ok?
    requires t2 < SigninAt(db, userId, password, t1, maxAge, fresh1).response.info.maxTime
    ensures var r1 := SigninAt(db, userId, password, t1, maxAge, fresh1);
            var r2 := SigninAt(r1.db, userId, password, t2, maxAge, fresh2);
            && r2.db == r1.db
            && r2.response.Ok?
            && r2.response.info.token == r1.response.info.token
  {
    SigninTwiceSameToken(db, userId, password, t1, t1, t2, t2, maxAge, fresh1, fresh2);
  }

  /**
   * As written, the two clock readings let a reused session expire between
   * creation and projection: alice's session ends at 10, creation reads 9
   * and reuses it, the projection reads 10 and finds it expired, and the
   * request fails with "Failed to create session". Reading the clock once
   * returns the session.
   */
  lemma ClockSkewLosesReusedSession()
    ensures var db := Db([User(1, "alice", Hash("pw1", 0), 0)], [Session(1, 1, "tok", 0, 10)]);
            && Valid(db)
            && Signin(db, "alice", "pw1", 9, 10, SessionService.DefaultMaxAge, "fresh")
                 == Reply(db, InternalError(SessionFailedDetail))
            && SigninAt(db, "alice", "pw1", 9, SessionService.DefaultMaxAge, "fresh")
                 == Reply(db, Ok(SessionService.SessionInfo("tok", "alice", 0, 10)))
  {
  }

  /**
   * The walk-through of the service: alice signs up, a second sign-up with
   * her identifier is refused, she signs in, a wrong password and an unknown
   * identifier get the same refusal, and signing in again returns her token.
   */
  lemma AliceScenario()
    ensures var db0 := Db([], []);
            var up := Signup(db0, "alice", "pw1", 7, 0);
            var again := Signup(up.db, "alice", "pw2", 8, 1);
            var in1 := Signin(up.db, "alice", "pw1", 100, 100, SessionService.DefaultMaxAge, "tokA");
            var wrong := Signin(in1.db, "alice", "wrong", 200, 200, SessionService.DefaultMaxAge, "tokB");
            var bob := Signin(in1.db, "bob", "x", 200, 200, SessionService.DefaultMaxAge, "tokB");
            var in2 := Signin(in1.db, "alice", "pw1", 3699, 3699, SessionService.DefaultMaxAge, "tokC");
            && up.response == Created("alice", CreatedMessage)
            && again == Reply(up.db, BadRequest(UserExistsDetail))
            && in1.response.Ok? && in1.response.info.userId == "alice" && in1.response.info.token == "tokA"
            && wrong == Reply(in1.db, Unauthorized(InvalidCredentialsDetail))
            && bob == wrong
            && in2.response.Ok? && in2.response.info.token == "tokA"
  {
    var db0 := Db([], []);
    var up := Signup(db0, "alice", "pw1", 7, 0);
    var alice := up.db.users[0];
    assert up.db == Db([alice], []);
    assert Valid(up.db);
    assert Accepts(up.db.users, "alice", "pw1");
    SigninAtSucceeds(up.db, "alice", "pw1", 100, SessionService.DefaultMaxAge, "tokA");
    var in1 := Signin(up.db, "alice", "pw1", 100, 100, SessionService.DefaultMaxAge, "tokA");
    assert in1 == SigninAt(up.db, "alice", "pw1", 100, SessionService.DefaultMaxAge, "tokA");
    assert UserRepository.GetUserByUserId(up.db.users, "alice") == Some(alice);
    assert SessionRepository.GetValidSessionByUserId(up.db.sessions, alice.id, 100) == None;
    assert in1.response.info.maxTime == 100 + SessionService.DefaultMaxAge;
    assert in1.db.users == [alice];
    assert !Accepts(in1.db.users, "alice", "wrong");
    assert !Accepts(in1.db.users, "bob", "x");
    SigninTwiceSameToken(up.db, "alice", "pw1", 100, 100, 3699, 3699, SessionService.DefaultMaxAge, "tokA", "tokC");
  }
}

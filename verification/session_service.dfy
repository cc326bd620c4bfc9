/**
 * The session manager: reuse-or-issue session creation and the
 * expiry-checked session projection. The clock reading `now`, the configured
 * `maxAge` and the freshly drawn token are parameters.
 */
module SessionService {
  import opened Wrappers
  import opened Models
  import SessionRepository

  /** The default `session_max_age_seconds`. */
  const DefaultMaxAge: int := 3600

  /** The store after `create_session`, and the token it returned. */
  datatype Issued = Issued(db: Db, token: Token)

  /** The projection returned for a valid token: the owner appears by its public `userId`. */
  datatype SessionInfo = SessionInfo(token: Token, userId: string, startTime: Time, maxTime: Time)

  /** `info` is the projection of session `s` owned by some user in `users`. */
  ghost predicate Projects(info: SessionInfo, s: Session, users: seq<User>)
  {
    && info.token == s.token
    && info.startTime == s.startTime
    && info.maxTime == s.maxTime
    && exists u :: u in users && u.id == s.userRef && info.userId == u.userId
  }

  /**
   * Returns the token of the user's newest live session when there is one,
   * leaving the store untouched (in particular no expiry is extended).
   * Otherwise inserts one session starting at `now` and expiring at
   * `now + maxAge` under `freshToken`, and returns that token; a write the
   * store rejects is reported as its error.
   */
  function CreateSession(db: Db, userRef: nat, now: Time, maxAge: int, freshToken: Token)
    : (r: Result<Issued, StoreError>)
    ensures (exists s :: s in db.sessions && SessionRepository.LiveFor(s, userRef, now)) ==>
      && r.Success?
      && r.value.db == db
      && exists s :: SessionRepository.NewestLive(db.sessions, userRef, now, s) && s.token == r.value.token
    ensures (forall s :: s in db.sessions ==> !SessionRepository.LiveFor(s, userRef, now)) ==>
      && (r.Success? <==> !SessionRepository.TokenTaken(db.sessions, freshToken) && HasUser(db.users, userRef))
      && (r.Success? ==>
            && r.value.token == freshToken
            && r.value.db.users == db.users
            && SessionRepository.AppendsOne(db.sessions, r.value.db.sessions, userRef, freshToken, now, now + maxAge))
    ensures r.Success? ==> r.value.db.users == db.users
    ensures r.Success? && Valid(db) ==> Valid(r.value.db)
  {
    match SessionRepository.GetValidSessionByUserId(db.sessions, userRef, now)
    case Some(existing) => Success(Issued(db, existing.token))
    case None =>
      match SessionRepository.CreateSession(db, userRef, freshToken, now, now + maxAge)
      case Failure(e) => Failure(e)
      case Success((db', _)) => Success(Issued(db', freshToken))
  }

  /**
   * The projection of the session holding `token`, present only when such a
   * session exists and `now` is strictly before its `maxTime`.
   */
  function GetSessionInfo(db: Db, token: Token, now: Time): (r: Option<SessionInfo>)
    ensures r.Some? ==>
      && r.value.token == token
      && exists s :: s in db.sessions && s.token == token && Active(s, now) && Projects(r.value, s, db.users)
    ensures !SessionRepository.TokenTaken(db.sessions, token) ==> r.None?
    ensures SessionsKeyed(db.sessions) ==>
      forall s :: s in db.sessions && s.token == token && !Active(s, now) ==> r.None?
  {
    match SessionRepository.GetSessionByToken(db.sessions, token)
    case None => None
    case Some(s) =>
      if s.maxTime <= now then None
      else
        match OwnerOf(db.users, s.userRef)
        case None => None
        case Some(owner) => Some(SessionInfo(s.token, owner.userId, s.startTime, s.maxTime))
  }

  /** In a consistent store the projection is present exactly when the token is valid. */
  lemma InfoPresentIffValid(db: Db, token: Token, now: Time)
    requires Valid(db)
    ensures GetSessionInfo(db, token, now).Some? <==> SessionRepository.IsSessionValid(db.sessions, token, now)
  {
  }

  /**
   * With a positive `maxAge`, the token `CreateSession` returns at `now` is
   * valid at that same `now`, and its projection names the owning user.
   */
  lemma CreateThenInfo(db: Db, userRef: nat, now: Time, maxAge: int, freshToken: Token)
    requires Valid(db)
    requires maxAge > 0
    requires CreateSession(db, userRef, now, maxAge, freshToken).Success?
    ensures var iss := CreateSession(db, userRef, now, maxAge, freshToken).value;
            var info := GetSessionInfo(iss.db, iss.token, now);
            && info.Some?
            && info.value.token == iss.token
            && exists u :: u in db.users && u.id == userRef && info.value.userId == u.userId
  {
  }

  /**
   * A session issued at `t0` with the default lifetime is still valid one
   * tick before `t0 + 3600` and is gone at `t0 + 3600`: expiry is exclusive.
   */
  lemma ExpiryIsExclusive(db: Db, userRef: nat, t0: Time, freshToken: Token)
    requires Valid(db)
    requires forall s :: s in db.sessions ==> !SessionRepository.LiveFor(s, userRef, t0)
    requires CreateSession(db, userRef, t0, DefaultMaxAge, freshToken).Success?
    ensures var iss := CreateSession(db, userRef, t0, DefaultMaxAge, freshToken).value;
            && GetSessionInfo(iss.db, iss.token, t0 + DefaultMaxAge - 1).Some?
            && GetSessionInfo(iss.db, iss.token, t0 + DefaultMaxAge).None?
  {
  }

  /**
   * The newest live session at `t1` is still the newest at a later `t2`
   * provided it has not expired by then: later readings only drop sessions
   * from the live set, never add one.
   */
  lemma {:induction false} NewestStable(sessions: seq<Session>, userRef: nat, t1: Time, t2: Time)
    requires t1 <= t2
    requires SessionRepository.GetValidSessionByUserId(sessions, userRef, t1).Some?
    requires Active(SessionRepository.GetValidSessionByUserId(sessions, userRef, t1).value, t2)
    ensures SessionRepository.GetValidSessionByUserId(sessions, userRef, t2)
         == SessionRepository.GetValidSessionByUserId(sessions, userRef, t1)
  {
    var a := SessionRepository.GetValidSessionByUserId(sessions, userRef, t1);
    var restA := SessionRepository.GetValidSessionByUserId(sessions[1..], userRef, t1);
    var restB := SessionRepository.GetValidSessionByUserId(sessions[1..], userRef, t2);
    var x := sessions[0];
    if a == restA {
      NewestStable(sessions[1..], userRef, t1, t2);
    } else {
      assert a == Some(x);
      if restB.Some? {
        assert SessionRepository.LiveFor(restB.value, userRef, t1);
        assert restA.Some?;
      }
    }
  }

  /**
   * Two calls for the same user with no expiry in between return the same
   * token, and the second call changes nothing.
   */
  lemma CreateSessionTwice(db: Db, userRef: nat, t1: Time, t2: Time, maxAge: int, fresh1: Token, fresh2: Token)
    requires Valid(db)
    requires t1 <= t2
    requires CreateSession(db, userRef, t1, maxAge, fresh1).Success?
    requires var iss := CreateSession(db, userRef, t1, maxAge, fresh1).value;
             SessionRepository.IsSessionValid(iss.db.sessions, iss.token, t2)
    ensures var iss := CreateSession(db, userRef, t1, maxAge, fresh1).value;
            CreateSession(iss.db, userRef, t2, maxAge, fresh2) == Success(iss)
  {
    var iss := CreateSession(db, userRef, t1, maxAge, fresh1).value;
    var found := SessionRepository.GetSessionByToken(iss.db.sessions, iss.token);
    match SessionRepository.GetValidSessionByUserId(db.sessions, userRef, t1)
    case Some(existing) =>
      assert found == Some(existing);
      NewestStable(db.sessions, userRef, t1, t2);
    case None =>
      var s := iss.db.sessions[|db.sessions|];
      assert found == Some(s);
      var again := SessionRepository.GetValidSessionByUserId(iss.db.sessions, userRef, t2);
      assert SessionRepository.LiveFor(s, userRef, t2);
      assert again.Some?;
      if again.value != s {
        assert again.value in db.sessions;
        assert SessionRepository.LiveFor(again.value, userRef, t1);
        assert false;
      }
  }
}

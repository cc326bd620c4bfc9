/** Insertion, lookup and deletion of `sessions` rows. */
module SessionRepository {
  import opened Wrappers
  import opened Models

  /** `s` belongs to user `userRef` and has not expired at `now`. */
  predicate LiveFor(s: Session, userRef: nat, now: Time)
  {
    s.userRef == userRef && Active(s, now)
  }

  /** `s` is a live session of `userRef` whose start is the latest among all of them. */
  ghost predicate NewestLive(sessions: seq<Session>, userRef: nat, now: Time, s: Session)
  {
    && s in sessions
    && LiveFor(s, userRef, now)
    && forall x :: x in sessions && LiveFor(x, userRef, now) ==> x.startTime <= s.startTime
  }

  predicate TokenTaken(sessions: seq<Session>, token: Token)
  {
    exists s :: s in sessions && s.token == token
  }

  /** `after` is `before` with exactly one row appended, carrying the given fields. */
  ghost predicate AppendsOne(before: seq<Session>, after: seq<Session>,
                             userRef: nat, token: Token, startTime: Time, maxTime: Time)
  {
    && |after| == |before| + 1
    && after[..|before|] == before
    && var s := after[|before|];
       && s.userRef == userRef && s.token == token
       && s.startTime == startTime && s.maxTime == maxTime
       && forall x :: x in before ==> x.id != s.id
  }

  /**
   * Inserts a session row. The unique index on `token` and the foreign key
   * to `users` reject a write that would break them, leaving the store as it
   * was; otherwise exactly one row is appended and the constraints still hold.
   */
  function CreateSession(db: Db, userRef: nat, token: Token, startTime: Time, maxTime: Time)
    : (r: Result<(Db, Session), StoreError>)
    ensures r.Failure? <==> TokenTaken(db.sessions, token) || !HasUser(db.users, userRef)
    ensures r.Failure? && TokenTaken(db.sessions, token) ==> r.error == UniqueViolation("sessions.token")
    ensures r.Success? ==>
      && r.value.0.users == db.users
      && AppendsOne(db.sessions, r.value.0.sessions, userRef, token, startTime, maxTime)
      && r.value.1 == r.value.0.sessions[|db.sessions|]
    ensures r.Success? && Valid(db) ==> Valid(r.value.0)
  {
    if TokenTaken(db.sessions, token) then
      Failure(UniqueViolation("sessions.token"))
    else if !HasUser(db.users, userRef) then
      Failure(ForeignKeyViolation("sessions.user_id"))
    else
      var s := Session(NextSessionId(db.sessions), userRef, token, startTime, maxTime);
      Success((db.(sessions := db.sessions + [s]), s))
  }

  /**
   * The live session of `userRef` with the latest start, or None when the
   * user has none. Ties keep the earliest-inserted row, one of the orders the
   * service's query permits.
   */
  function GetValidSessionByUserId(sessions: seq<Session>, userRef: nat, now: Time): (r: Option<Session>)
    ensures r.Some? ==> NewestLive(sessions, userRef, now, r.value)
    ensures r.None? <==> forall s :: s in sessions ==> !LiveFor(s, userRef, now)
  {
    if |sessions| == 0 then None
    else
      var rest := GetValidSessionByUserId(sessions[1..], userRef, now);
      if !LiveFor(sessions[0], userRef, now) then rest
      else if rest.Some? && rest.value.startTime > sessions[0].startTime then rest
      else Some(sessions[0])
  }

  /** The first session holding `token`; with unique tokens, the only one. */
  function GetSessionByToken(sessions: seq<Session>, token: Token): (r: Option<Session>)
    ensures r.Some? ==> r.value in sessions && r.value.token == token
    ensures r.None? <==> !TokenTaken(sessions, token)
    ensures SessionsKeyed(sessions) ==> forall s :: s in sessions && s.token == token ==> r == Some(s)
  {
    if |sessions| == 0 then None
    else if sessions[0].token == token then Some(sessions[0])
    else GetSessionByToken(sessions[1..], token)
  }

  /** A token is valid iff a session holds it and that session has not expired. */
  function IsSessionValid(sessions: seq<Session>, token: Token, now: Time): (b: bool)
    ensures b ==> exists s :: s in sessions && s.token == token && Active(s, now)
    ensures SessionsKeyed(sessions) ==>
      (b <==> exists s :: s in sessions && s.token == token && Active(s, now))
  {
    match GetSessionByToken(sessions, token)
    case None => false
    case Some(s) => Active(s, now)
  }

  /**
   * Deletes a stored session by its key. The victim is gone, the result
   * shrinks, and every other row stays exactly as it was.
   */
  function DeleteSession(sessions: seq<Session>, victim: Session): (r: seq<Session>)
    requires victim in sessions
    ensures victim !in r
    ensures |r| < |sessions|
    ensures forall x :: x in r ==> x in sessions
    ensures SessionsKeyed(sessions) ==> forall x :: x in sessions && x != victim ==> x in r
    ensures SessionsKeyed(sessions) ==> SessionsKeyed(r)
  {
    Filter(sessions, (s: Session) => s.id != victim.id)
  }
}

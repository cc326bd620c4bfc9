/**
 * Record shapes of the `users` and `sessions` tables and the constraints the
 * schema declares on them: unique primary keys, a unique `user_id` string, a
 * unique session token, and a foreign key from every session to its user.
 */
module Models {
  import opened Wrappers
  import opened Passwords

  /** A point in time; the service's `datetime`, in whole ticks. */
  type Time = int

  /** An opaque session token. */
  type Token = string

  /** A row of `users`: numeric key `id`, caller-chosen `userId`, credential hash. */
  datatype User = User(id: nat, userId: string, passwordHash: PasswordHash, createdAt: Time)

  /** A row of `sessions`; `userRef` is the owning user's numeric `id`. */
  datatype Session = Session(id: nat, userRef: nat, token: Token, startTime: Time, maxTime: Time)

  /** Both tables, each in insertion order. */
  datatype Db = Db(users: seq<User>, sessions: seq<Session>)

  /** The constraint a rejected write would have broken. */
  datatype StoreError = UniqueViolation(column: string) | ForeignKeyViolation(column: string)

  /** A session is usable strictly before its `maxTime`. */
  predicate Active(s: Session, now: Time)
  {
    now < s.maxTime
  }

  /** Primary key and `user_id` each identify at most one user. */
  ghost predicate UsersKeyed(users: seq<User>)
  {
    && (forall a, b :: a in users && b in users && a.id == b.id ==> a == b)
    && (forall a, b :: a in users && b in users && a.userId == b.userId ==> a == b)
  }

  /** Primary key and token each identify at most one session. */
  ghost predicate SessionsKeyed(sessions: seq<Session>)
  {
    && (forall a, b :: a in sessions && b in sessions && a.id == b.id ==> a == b)
    && (forall a, b :: a in sessions && b in sessions && a.token == b.token ==> a == b)
  }

  predicate HasUser(users: seq<User>, id: nat)
  {
    exists u :: u in users && u.id == id
  }

  /** The foreign key `sessions.user_id -> users.id`. */
  ghost predicate OwnersExist(db: Db)
  {
    forall s :: s in db.sessions ==> HasUser(db.users, s.userRef)
  }

  /** Every constraint the schema declares. */
  ghost predicate Valid(db: Db)
  {
    UsersKeyed(db.users) && SessionsKeyed(db.sessions) && OwnersExist(db)
  }

  /** One past the largest key in `keys`, 1 when there is none: how the store picks a new key. */
  function NextId(keys: seq<nat>): (n: nat)
    ensures 0 < n
    ensures forall i :: 0 <= i < |keys| ==> keys[i] < n
    ensures n == 1 || exists i :: 0 <= i < |keys| && n == keys[i] + 1
  {
    if |keys| == 0 then 1
    else
      var rest := NextId(keys[1..]);
      if keys[0] < rest then rest else keys[0] + 1
  }

  /** The key the store assigns to the next user. */
  function NextUserId(users: seq<User>): (n: nat)
    ensures 0 < n
    ensures forall u :: u in users ==> u.id < n
  {
    var keys := seq(|users|, i requires 0 <= i < |users| => users[i].id);
    assert forall i :: 0 <= i < |users| ==> keys[i] == users[i].id;
    NextId(keys)
  }

  /** The key the store assigns to the next session. */
  function NextSessionId(sessions: seq<Session>): (n: nat)
    ensures 0 < n
    ensures forall s :: s in sessions ==> s.id < n
  {
    var keys := seq(|sessions|, i requires 0 <= i < |sessions| => sessions[i].id);
    assert forall i :: 0 <= i < |sessions| ==> keys[i] == sessions[i].id;
    NextId(keys)
  }

  /** The join `session.user`: the user whose key is `ref`, if any. */
  function OwnerOf(users: seq<User>, ref: nat): (r: Option<User>)
    ensures r.Some? ==> r.value in users && r.value.id == ref
    ensures r.None? <==> !HasUser(users, ref)
  {
    if |users| == 0 then None
    else if users[0].id == ref then Some(users[0])
    else OwnerOf(users[1..], ref)
  }

  /** The elements of `xs` that `keep` accepts. */
  function Filter<T(!new)>(xs: seq<T>, keep: T -> bool): (r: seq<T>)
    ensures forall x :: x in r <==> x in xs && keep(x)
    ensures |r| <= |xs|
    ensures (exists x :: x in xs && !keep(x)) ==> |r| < |xs|
  {
    if |xs| == 0 then []
    else if keep(xs[0]) then [xs[0]] + Filter(xs[1..], keep)
    else Filter(xs[1..], keep)
  }

  /**
   * Deleting a user cascades to the sessions it owns: afterwards no session
   * refers to the removed key, every other row is kept, and the schema's
   * constraints still hold.
   */
  function DeleteUser(db: Db, id: nat): (r: Db)
    ensures forall u :: u in r.users <==> u in db.users && u.id != id
    ensures forall s :: s in r.sessions <==> s in db.sessions && s.userRef != id
    ensures !HasUser(r.users, id)
    ensures Valid(db) ==> Valid(r)
  {
    Db(Filter(db.users, (u: User) => u.id != id),
       Filter(db.sessions, (s: Session) => s.userRef != id))
  }
}

/** Creation and lookup of `users` rows. */
module UserRepository {
  import opened Wrappers
  import opened Passwords
  import opened Models

  /** The first user whose `userId` matches exactly, if any. */
  function GetUserByUserId(users: seq<User>, userId: string): (r: Option<User>)
    ensures r.Some? ==> r.value in users && r.value.userId == userId
    ensures r.None? <==> forall u :: u in users ==> u.userId != userId
    ensures UsersKeyed(users) ==> forall u :: u in users && u.userId == userId ==> r == Some(u)
  {
    if |users| == 0 then None
    else if users[0].userId == userId then Some(users[0])
    else GetUserByUserId(users[1..], userId)
  }

  /** Whether some user already holds `userId`: true iff the lookup finds a row. */
  function UserExists(users: seq<User>, userId: string): (b: bool)
    ensures b <==> exists u :: u in users && u.userId == userId
  {
    GetUserByUserId(users, userId).Some?
  }

  /**
   * Inserts a user. The unique index on `user_id` rejects a duplicate, and
   * the table is then unchanged; otherwise exactly one row is appended,
   * holding the given `userId` and hash under a key no other row uses.
   */
  function CreateUser(users: seq<User>, userId: string, passwordHash: PasswordHash, now: Time)
    : (r: Result<(seq<User>, User), StoreError>)
    ensures r.Failure? <==> exists u :: u in users && u.userId == userId
    ensures r.Failure? ==> r.error == UniqueViolation("users.user_id")
    ensures r.Success? ==>
      && r.value.0 == users + [r.value.1]
      && r.value.1.userId == userId
      && r.value.1.passwordHash == passwordHash
      && r.value.1.createdAt == now
      && (forall u :: u in users ==> u.id != r.value.1.id)
    ensures r.Success? && UsersKeyed(users) ==> UsersKeyed(r.value.0)
  {
    if exists u :: u in users && u.userId == userId then
      Failure(UniqueViolation("users.user_id"))
    else
      var user := User(NextUserId(users), userId, passwordHash, now);
      Success((users + [user], user))
  }

  /** After a successful insert, looking the new `userId` up yields the new row. */
  lemma CreateThenGet(users: seq<User>, userId: string, passwordHash: PasswordHash, now: Time)
    requires CreateUser(users, userId, passwordHash, now).Success?
    ensures var (users', u) := CreateUser(users, userId, passwordHash, now).value;
            GetUserByUserId(users', userId) == Some(u)
  {
  }
}

/**
 * The three tables the authentication and category handlers share, held as
 * the sequences of their rows. Row ids are positive: the handlers read an id
 * of 0 (Go's zero value, left in place when a lookup finds no row) as
 * "no such user" or "anonymous".
 */
module Storage {
  import opened Wrappers
  import opened Text
  import opened Relational

  /** An abstract timestamp: the database's `NOW()` at insertion. */
  type Time = int

  /** A row of `users`: `sha` is the stored digest of password ++ salt. */
  datatype User = User(id: int, email: Bytes, sha: Bytes, salt: Bytes)

  /** The zero `User` a failed `StructScan` leaves behind. */
  const NoUser := User(0, [], [], [])

  /** A row of `sessions`: the token is the cookie value handed to the client. */
  datatype Session = Session(initiated: Time, userId: int, ip: Bytes, userAgent: Bytes, token: Bytes)

  /** A row of `categories`. */
  datatype CategoryRow = CategoryRow(id: int, name: Bytes, userId: int)

  function UserIdOf(u: User): int { u.id }
  function EmailOf(u: User): Bytes { u.email }
  function TokenOf(s: Session): Bytes { s.token }
  function CategoryIdOf(c: CategoryRow): int { c.id }

  /** `select id, email, sha, salt from users where email = $1`, zero on a miss. */
  function UserByEmail(users: seq<User>, email: Bytes): (u: User)
    ensures KeyTaken(users, EmailOf, email) ==> u in users && u.email == email
    ensures !KeyTaken(users, EmailOf, email) ==> u == NoUser
  {
    match FindByKey(users, EmailOf, email)
    case Some(v) => v
    case None => NoUser
  }

  /** `select id, email, sha, salt from users where id = $1`, zero on a miss. */
  function UserById(users: seq<User>, id: int): (u: User)
    ensures KeyTaken(users, UserIdOf, id) ==> u in users && u.id == id
    ensures !KeyTaken(users, UserIdOf, id) ==> u == NoUser
  {
    match FindByKey(users, UserIdOf, id)
    case Some(v) => v
    case None => NoUser
  }

  /**
   * `UPDATE users SET sha = $1 WHERE id = $2`: only the digest of the rows
   * with that id changes; ids, emails and salts stay.
   */
  function UpdateSha(users: seq<User>, id: int, sha: Bytes): (r: seq<User>)
    ensures |r| == |users|
    ensures forall i :: 0 <= i < |r| ==>
      r[i].id == users[i].id && r[i].email == users[i].email && r[i].salt == users[i].salt
    ensures forall i :: 0 <= i < |r| ==> r[i].sha == if users[i].id == id then sha else users[i].sha
  {
    seq(|users|, i requires 0 <= i < |users| =>
      if users[i].id == id then users[i].(sha := sha) else users[i])
  }

  /**
   * `select user_id FROM sessions where token = $1`, left at 0 when no row
   * has that token.
   */
  function UserIdByToken(sessions: seq<Session>, token: Bytes): (userId: int)
    ensures !KeyTaken(sessions, TokenOf, token) ==> userId == 0
    ensures KeyTaken(sessions, TokenOf, token) ==>
      exists s :: s in sessions && s.token == token && s.userId == userId
  {
    match FindByKey(sessions, TokenOf, token)
    case Some(s) => s.userId
    case None => 0
  }

  /** `select user_id from categories where id = $1`, left at 0 on a miss. */
  function CategoryOwner(categories: seq<CategoryRow>, id: int): (owner: int)
    ensures !KeyTaken(categories, CategoryIdOf, id) ==> owner == 0
    ensures KeyTaken(categories, CategoryIdOf, id) ==>
      exists c :: c in categories && c.id == id && c.userId == owner
  {
    match FindByKey(categories, CategoryIdOf, id)
    case Some(c) => c.userId
    case None => 0
  }

  /**
   * The database. `lastUserId` and `lastCategoryId` stand for the id
   * sequences that hand out the `id` column of new rows.
   */
  class Database {
    var users: seq<User>
    var sessions: seq<Session>
    var categories: seq<CategoryRow>
    var lastUserId: nat
    var lastCategoryId: nat

    /**
     * The table constraints: unique ids, unique emails, unique session
     * tokens, and every id positive and already handed out.
     */
    ghost predicate Valid()
      reads this
    {
      && KeysDistinct(users, UserIdOf)
      && KeysDistinct(users, EmailOf)
      && (forall u :: u in users ==> 0 < u.id <= lastUserId)
      && KeysDistinct(sessions, TokenOf)
      && KeysDistinct(categories, CategoryIdOf)
      && (forall c :: c in categories ==> 0 < c.id <= lastCategoryId)
    }

    constructor ()
      ensures Valid()
      ensures users == [] && sessions == [] && categories == []
    {
      users, sessions, categories := [], [], [];
      lastUserId, lastCategoryId := 0, 0;
    }
  }
}

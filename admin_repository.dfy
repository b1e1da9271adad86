/**
 * SecureMiles.Repositories/Admin/AdminRepository.cs: the paged list of all
 * users, looking a user up, and changing a user's role. The three
 * stored-procedure reports (GetUserDetails, GetAllClaimsForReview,
 * GetAllPolicies) are not part of this module: their SQL is not visible.
 */
module AdminRepository {
  import opened Errors
  import opened Calendar
  import opened Tables
  import opened Entities
  import opened Store

  // ---- GetAllUsersAsync ------------------------------------------------------------

  function Everyone(u: User): bool { true }

  /** The ordering key of the users query: the creation time. */
  function CreatedKey(u: User): int { Rank(u.createdAt) }

  /** `Users.OrderBy(u => u.CreatedAt)`: every stored user once, earliest created first. */
  function UsersByCreation(db: Db): (r: seq<User>)
    requires db.Valid()
    ensures SortedBy(r, CreatedKey)
    ensures forall u :: u in r <==> Stored(db.users, u)
    ensures Distinct(r)
    ensures |r| == |db.users.rows|
  {
    var all := Where(db.users, Everyone);
    ScanOfKeyedRows(db.users.rows, 1, db.users.next, Everyone, UserKey);
    WhereAllLength(db.users, Everyone);
    SortByKeepsDistinct(all, CreatedKey);
    var r := SortBy(all, CreatedKey);
    assert forall u :: u in r <==> u in multiset(all);
    r
  }

  /**
   * One page of users and the total count: the users at positions
   * PageStart .. PageStart + pageSize - 1 of the ordered list, as many of
   * them as exist, all of them stored users, and the number of all users
   * whatever the page.
   */
  function GetAllUsers(db: Db, pageNumber: int, pageSize: int): (r: (seq<User>, int))
    requires db.Valid() && pageNumber >= 1 && pageSize >= 1
    ensures r.1 == |db.users.rows|
    ensures |r.0| <= pageSize
    ensures r.0 == Page(UsersByCreation(db), PageStart(pageNumber, pageSize), pageSize)
    ensures forall u :: u in r.0 ==> Stored(db.users, u)
  {
    var query := UsersByCreation(db);
    var totalCount := |query|;
    (Page(query, PageStart(pageNumber, pageSize), pageSize), totalCount)
  }

  /** Reading pages 1 .. n in turn yields the first n * pageSize users of the ordered list (or all of them). */
  lemma UsersPagesConcatenate(db: Db, pageSize: int, n: nat)
    requires db.Valid() && pageSize >= 1
    ensures var all := UsersByCreation(db);
      var end := PageStart(n + 1, pageSize);
      FirstPages(all, pageSize, n) == all[..if end < |all| then end else |all|]
      && (forall k :: 1 <= k <= n ==> GetAllUsers(db, k, pageSize).0 == Page(all, PageStart(k, pageSize), pageSize))
  {
    PagesConcatenate(UsersByCreation(db), pageSize, n);
  }

  /** Two different pages never show the same user. */
  lemma UsersPagesAreDisjoint(db: Db, pageSize: int, p: int, q: int, u: User)
    requires db.Valid() && pageSize >= 1 && p >= 1 && q >= 1 && p != q
    requires u in GetAllUsers(db, p, pageSize).0
    ensures u !in GetAllUsers(db, q, pageSize).0
  {
    PagesAreDisjoint(UsersByCreation(db), pageSize, p, q, u);
  }

  // ---- GetUserByIdAsync ------------------------------------------------------------

  /** The user with that id, or nothing. */
  function GetUserById(db: Db, userId: int): (r: Option<User>)
    requires db.Valid()
    ensures r.None? <==> userId !in db.users.rows
    ensures r.Some? ==> r.value == db.users.rows[userId]
  {
    FirstWhere(db.users, UserWithId(userId))
  }

  // ---- UpdateUserRoleAsync ---------------------------------------------------------

  /**
   * Setting the role of a stored user: nothing is saved when the role is
   * already exactly `newRole`; otherwise the user's row gets the new role
   * and `now` as its update time, and no other row changes.
   */
  function UpdateUserRoleOutcome(db: Db, user: User, newRole: string, now: DateTime): (after: Db)
    requires db.Valid() && user.id in db.users.rows
    ensures after.Valid()
    ensures user.role == newRole ==> after == db
    ensures user.role != newRole ==>
      && after.users.rows == db.users.rows[user.id := user.(role := newRole, updatedAt := Some(now))]
      && after.users.next == db.users.next
    ensures after == db.(users := after.users)
  {
    if user.role == newRole then db
    else
      PutUserKeepsValid(db, user.id, user.(role := newRole, updatedAt := Some(now)));
      db.(users := Put(db.users, user.id, user.(role := newRole, updatedAt := Some(now))))
  }

  method UpdateUserRole(ctx: InsuranceContext, user: User, newRole: string, now: DateTime)
    requires ctx.Valid() && user.id in ctx.users.rows
    modifies ctx`users
    ensures ctx.Valid()
    ensures ctx.Snapshot() == UpdateUserRoleOutcome(old(ctx.Snapshot()), user, newRole, now)
  {
    if user.role == newRole {
      return;
    }
    var updated := user.(role := newRole, updatedAt := Some(now));
    PutUserKeepsValid(ctx.Snapshot(), user.id, updated);
    ctx.users := Put(ctx.users, user.id, updated);
  }

  /**
   * Applying a role to the stored user twice, reading the user back in
   * between, has the effect of applying it once; the user keeps every field
   * but the role and the update time.
   */
  lemma UpdateRoleIsIdempotent(db: Db, userId: int, newRole: string, now: DateTime, later: DateTime)
    requires db.Valid() && userId in db.users.rows
    ensures var once := UpdateUserRoleOutcome(db, db.users.rows[userId], newRole, now);
      && userId in once.users.rows
      && UpdateUserRoleOutcome(once, once.users.rows[userId], newRole, later) == once
      && once.users.rows[userId].role == newRole
      && once.users.rows[userId].(role := db.users.rows[userId].role, updatedAt := db.users.rows[userId].updatedAt)
         == db.users.rows[userId]
  {
  }
}

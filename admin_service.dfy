/**
 * SecureMiles.Services/Admin/AdminService.cs: the paged user list as the
 * administrator sees it, and changing a user's role.
 */
module AdminService {
  import opened Errors
  import opened Calendar
  import opened Tables
  import opened Entities
  import opened Store
  import AdminRepository

  // ---- GetAllUsersAsync ------------------------------------------------------------

  /** UserResponseDto. */
  datatype UserResponse = UserResponse(userId: int, fullName: string, email: string, role: string, isActive: bool,
                                       createdAt: DateTime)

  /** PaginatedUsersResponseDto. */
  datatype PaginatedUsers = PaginatedUsers(users: seq<UserResponse>, totalCount: int, currentPage: int, pageSize: int)

  function ToResponse(u: User): UserResponse {
    UserResponse(u.id, u.name, u.email, u.role, u.isActive, u.createdAt)
  }

  /** One response per user, in the same order. */
  function ToResponses(us: seq<User>): (r: seq<UserResponse>)
    ensures |r| == |us|
    ensures forall i :: 0 <= i < |us| ==> r[i] == ToResponse(us[i])
  {
    if us == [] then [] else [ToResponse(us[0])] + ToResponses(us[1..])
  }

  /**
   * The page the repository returns, one response per user in the same
   * order, with the total count and the requested page number and size
   * echoed back.
   */
  function GetAllUsers(db: Db, pageNumber: int, pageSize: int): (r: PaginatedUsers)
    requires db.Valid() && pageNumber >= 1 && pageSize >= 1
    ensures var (page, total) := AdminRepository.GetAllUsers(db, pageNumber, pageSize);
      && |r.users| == |page| <= pageSize
      && (forall i :: 0 <= i < |page| ==> r.users[i].userId == page[i].id && r.users[i].role == page[i].role)
      && r.totalCount == total == |db.users.rows|
    ensures r.users == ToResponses(AdminRepository.GetAllUsers(db, pageNumber, pageSize).0)
    ensures r.currentPage == pageNumber && r.pageSize == pageSize
  {
    var (users, totalCount) := AdminRepository.GetAllUsers(db, pageNumber, pageSize);
    PaginatedUsers(ToResponses(users), totalCount, pageNumber, pageSize)
  }

  // ---- UpdateUserRoleAsync ---------------------------------------------------------

  /** The roles a user may be given (the UserRole enumeration). */
  datatype UserRole = Admin | Customer | Officer

  function RoleName(role: UserRole): string {
    match role
    case Admin => "Admin"
    case Customer => "Customer"
    case Officer => "Officer"
  }

  /** The character with an ASCII capital letter replaced by its small letter. */
  function Lower(c: char): char {
    if 'A' <= c <= 'Z' then (c as int + 32) as char else c
  }

  /** `a` and `b` are equal when letter case is ignored. */
  predicate EqualIgnoringCase(a: string, b: string) {
    |a| == |b| && forall i :: 0 <= i < |a| ==> Lower(a[i]) == Lower(b[i])
  }

  /**
   * `Enum.TryParse<UserRole>(text, ignoreCase: true)`: the role whose name
   * the text spells in any letter case; nothing for a missing text or any
   * other text.
   */
  function ParseRole(text: Option<string>): (r: Option<UserRole>)
    ensures r.Some? ==> text.Some? && EqualIgnoringCase(text.value, RoleName(r.value))
    ensures r.None? ==> text.None? || forall role: UserRole :: !EqualIgnoringCase(text.value, RoleName(role))
  {
    if text.None? then None
    else if EqualIgnoringCase(text.value, "Admin") then Some(Admin)
    else if EqualIgnoringCase(text.value, "Customer") then Some(Customer)
    else if EqualIgnoringCase(text.value, "Officer") then Some(Officer)
    else None
  }

  /** Every role's own name parses back to it, and so does the name in capitals or in small letters. */
  lemma ParseRoleName(role: UserRole)
    ensures ParseRole(Some(RoleName(role))) == Some(role)
    ensures ParseRole(Some(match role case Admin => "ADMIN" case Customer => "customer" case Officer => "oFFICER")) == Some(role)
  {
    match role
    case Admin =>
      assert !EqualIgnoringCase("ADMIN", "Customer") && !EqualIgnoringCase("Admin", "Customer");
    case Customer =>
      assert !EqualIgnoringCase("customer", "Admin") && !EqualIgnoringCase("Customer", "Admin");
    case Officer =>
      assert !EqualIgnoringCase("oFFICER", "Admin") && !EqualIgnoringCase("Officer", "Admin");
      assert !EqualIgnoringCase("oFFICER", "Customer") && !EqualIgnoringCase("Officer", "Customer");
  }

  /** Ignoring letter case is transitive. */
  lemma EqualIgnoringCaseTrans(a: string, b: string, c: string)
    requires EqualIgnoringCase(a, b) && EqualIgnoringCase(b, c)
    ensures EqualIgnoringCase(a, c)
  {
    forall i | 0 <= i < |a| ensures Lower(a[i]) == Lower(c[i]) {
      assert Lower(a[i]) == Lower(b[i]) == Lower(c[i]);
    }
  }

  /** Two texts that differ only in letter case parse to the same role, or are both refused. */
  lemma ParseRoleIgnoresCase(a: string, b: string)
    requires EqualIgnoringCase(a, b)
    ensures ParseRole(Some(a)) == ParseRole(Some(b))
  {
    assert EqualIgnoringCase(b, a);
    forall name | name in ["Admin", "Customer", "Officer"]
      ensures EqualIgnoringCase(a, name) <==> EqualIgnoringCase(b, name)
    {
      if EqualIgnoringCase(a, name) {
        EqualIgnoringCaseTrans(b, a, name);
      }
      if EqualIgnoringCase(b, name) {
        EqualIgnoringCaseTrans(a, b, name);
      }
    }
  }

  /** UpdateUserRoleResponseDto. */
  datatype UpdateUserRoleResponse = UpdateUserRoleResponse(userId: int, oldRole: string, newRole: string, message: string)

  const RoleUpdated: string := "User role updated successfully."

  /**
   * Changing a user's role: KeyNotFound for an unknown user, whatever role
   * is asked for; InvalidOperation, changing nothing, when the requested
   * role names none of the roles; otherwise the repository stores the
   * requested text exactly as given (not its canonical spelling), and the
   * reply reports the role before and the text requested.
   */
  function UpdateRoleOutcome(db: Db, userId: int, role: Option<string>, now: DateTime)
    : (out: (Result<UpdateUserRoleResponse>, Db))
    requires db.Valid()
    ensures out.1.Valid()
    ensures out.0 == Err(KeyNotFound) <==> userId !in db.users.rows
    ensures out.0 == Err(InvalidOperation) <==> userId in db.users.rows && ParseRole(role).None?
    ensures out.0.Ok? <==> userId in db.users.rows && ParseRole(role).Some?
    ensures out.0.Err? ==> out.1 == db
    ensures out.0.Ok? ==>
      && userId in db.users.rows && role.Some?
      && out.0.value == UpdateUserRoleResponse(userId, db.users.rows[userId].role, role.value, RoleUpdated)
      && out.1 == AdminRepository.UpdateUserRoleOutcome(db, db.users.rows[userId], role.value, now)
      && userId in out.1.users.rows && out.1.users.rows[userId].role == role.value
  {
    match AdminRepository.GetUserById(db, userId)
    case None => (Err(KeyNotFound), db)
    case Some(user) =>
      if ParseRole(role).None? then (Err(InvalidOperation), db)
      else
        var oldRole := user.role;
        var db' := AdminRepository.UpdateUserRoleOutcome(db, user, role.value, now);
        (Ok(UpdateUserRoleResponse(userId, oldRole, role.value, RoleUpdated)), db')
  }

  method UpdateUserRole(ctx: InsuranceContext, userId: int, role: Option<string>, now: DateTime)
    returns (r: Result<UpdateUserRoleResponse>)
    requires ctx.Valid()
    modifies ctx`users
    ensures ctx.Valid()
    ensures (r, ctx.Snapshot()) == UpdateRoleOutcome(old(ctx.Snapshot()), userId, role, now)
  {
    var user := AdminRepository.GetUserById(ctx.Snapshot(), userId);
    if user.None? {
      return Err(KeyNotFound);
    }
    if ParseRole(role).None? {
      return Err(InvalidOperation);
    }
    var oldRole := user.value.role;
    AdminRepository.UpdateUserRole(ctx, user.value, role.value, now);
    return Ok(UpdateUserRoleResponse(userId, oldRole, role.value, RoleUpdated));
  }

  /**
   * Asking for the user's current role changes nothing; asking for a role
   * in another letter case stores that spelling, so an "Admin" asked to
   * become "admin" is saved as "admin".
   */
  lemma RoleIsStoredAsGiven(db: Db, userId: int, now: DateTime)
    requires db.Valid() && userId in db.users.rows && db.users.rows[userId].role == "Admin"
    ensures UpdateRoleOutcome(db, userId, Some("Admin"), now).1 == db
    ensures var (r, after) := UpdateRoleOutcome(db, userId, Some("admin"), now);
      && r.Ok? && after != db && after.users.rows[userId].role == "admin"
      && after.users.rows[userId].updatedAt == Some(now)
  {
    ParseRoleName(Admin);
    assert EqualIgnoringCase("admin", "Admin");
    assert "admin" != "Admin" by { assert "admin"[0] != "Admin"[0]; }
    var (r, after) := UpdateRoleOutcome(db, userId, Some("admin"), now);
    assert after.users.rows[userId].role != db.users.rows[userId].role;
  }

  /** Repeating a successful role change, later, changes nothing more and reports the new role as the old one. */
  lemma SecondRoleChangeIsNoOp(db: Db, userId: int, role: Option<string>, now: DateTime, later: DateTime)
    requires db.Valid() && UpdateRoleOutcome(db, userId, role, now).0.Ok?
    ensures var after := UpdateRoleOutcome(db, userId, role, now).1;
      var (r, again) := UpdateRoleOutcome(after, userId, role, later);
      && again == after
      && r.Ok? && r.value.oldRole == role.value
  {
    AdminRepository.UpdateRoleIsIdempotent(db, userId, role.value, now, later);
  }
}

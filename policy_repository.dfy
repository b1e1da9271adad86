/**
 * SecureMiles.Repositories/Policy/PolicyRepository.cs: storing policies,
 * the owner queries, the partial update and the renewal write.
 */
module PolicyRepository {
  import opened Errors
  import opened Calendar
  import opened Tables
  import opened Entities
  import opened Store

  // ---- AddPolicyAsync --------------------------------------------------------------

  /** The database after storing `p`, and the identity it received. */
  function AddPolicyOutcome(db: Db, p: Policy): (out: (int, Db))
    requires db.Valid() && p.vehicleId in db.vehicles.rows
    ensures out.1.Valid()
    ensures out.0 !in db.policies.rows
    ensures out.1.policies.rows == db.policies.rows[out.0 := p.(id := out.0)]
    ensures out.1 == db.(policies := out.1.policies)
  {
    var id := db.policies.next;
    AddPolicyKeepsValid(db, p.(id := id));
    (id, db.(policies := Add(db.policies, p.(id := id))))
  }

  method AddPolicy(ctx: InsuranceContext, p: Policy) returns (id: int)
    requires ctx.Valid() && p.vehicleId in ctx.vehicles.rows
    modifies ctx`policies
    ensures ctx.Valid()
    ensures (id, ctx.Snapshot()) == AddPolicyOutcome(old(ctx.Snapshot()), p)
  {
    id := ctx.policies.next;
    AddPolicyKeepsValid(ctx.Snapshot(), p.(id := id));
    ctx.policies := Add(ctx.policies, p.(id := id));
  }

  // ---- queries ---------------------------------------------------------------------

  /** The caller owns the stored policy `policyId`. */
  predicate Owns(db: Db, policyId: int, userId: int) {
    policyId in db.policies.rows && db.policies.rows[policyId].userId == userId
  }

  /** GetPoliciesByUserIdAsync: exactly the caller's policies whose status is not "Deleted". */
  function PoliciesByUser(db: Db, userId: int): (r: seq<Policy>)
    requires db.Valid()
    ensures forall p :: p in r <==> Stored(db.policies, p) && p.userId == userId && p.status != Deleted
    ensures Distinct(r)
  {
    var keep := (p: Policy) => p.userId == userId && p.status != Deleted;
    WhereIsDistinct(db.policies, keep, PolicyKey);
    Where(db.policies, keep)
  }

  /** GetPolicyByIdAsync: the policy only when both its id and its owner match, otherwise null. */
  function GetPolicyById(db: Db, policyId: int, userId: int): (r: Option<Policy>)
    requires db.Valid()
    ensures r.Some? <==> Owns(db, policyId, userId)
    ensures r.Some? ==> r.value == db.policies.rows[policyId]
  {
    FirstWhere(db.policies, (p: Policy) => p.id == policyId && p.userId == userId)
  }

  // ---- UpdatePolicyAsync -----------------------------------------------------------

  /**
   * UpdatePolicyRequestDto: every field optional. A string field is None
   * where the request leaves it null.
   */
  datatype UpdatePolicyRequest = UpdatePolicyRequest(
    policyType: Option<string>,
    coverageAmount: Option<real>,
    premiumAmount: Option<real>,
    startDate: Option<DateTime>,
    endDate: Option<DateTime>,
    status: Option<string>)

  /** A string field counts as supplied unless it is null or empty. */
  predicate Supplied(s: Option<string>) {
    s.Some? && s.value != ""
  }

  /**
   * The policy after a partial update at `now`: each supplied field replaces
   * the stored one (a status of any text, with no transition rule), every
   * other field is kept, and UpdatedAt becomes `now`.
   */
  function ApplyUpdate(p: Policy, request: UpdatePolicyRequest, now: DateTime): Policy {
    Policy(p.id, p.userId, p.vehicleId, p.proposalId,
           if Supplied(request.policyType) then request.policyType.value else p.policyType,
           if request.coverageAmount.Some? then request.coverageAmount.value else p.coverageAmount,
           if request.premiumAmount.Some? then request.premiumAmount.value else p.premiumAmount,
           if Supplied(request.status) then request.status.value else p.status,
           if request.startDate.Some? then request.startDate.value else p.startDate,
           if request.endDate.Some? then request.endDate.value else p.endDate,
           p.renewalReminderDate, p.createdAt, Some(now))
  }

  /**
   * Updating by id alone: false, changing nothing, for an unknown policy;
   * otherwise the stored policy is replaced by its partial update.
   */
  function UpdatePolicyOutcome(db: Db, policyId: int, request: UpdatePolicyRequest, now: DateTime): (out: (bool, Db))
    requires db.Valid()
    ensures out.1.Valid()
    ensures out.0 <==> policyId in db.policies.rows
    ensures !out.0 ==> out.1 == db
    ensures out.0 ==>
      out.1 == db.(policies := Put(db.policies, policyId, ApplyUpdate(db.policies.rows[policyId], request, now)))
  {
    match FirstWhere(db.policies, PolicyWithId(policyId))
    case None => (false, db)
    case Some(p) =>
      PutPolicyKeepsValid(db, policyId, ApplyUpdate(p, request, now));
      (true, db.(policies := Put(db.policies, policyId, ApplyUpdate(p, request, now))))
  }

  /** The conditional field assignments of UpdatePolicyAsync, one supplied field at a time. */
  method AssignSupplied(p: Policy, request: UpdatePolicyRequest, now: DateTime) returns (policy: Policy)
    ensures policy == ApplyUpdate(p, request, now)
  {
    policy := p;
    if Supplied(request.policyType) {
      policy := policy.(policyType := request.policyType.value);
    }
    if request.coverageAmount.Some? {
      policy := policy.(coverageAmount := request.coverageAmount.value);
    }
    if request.premiumAmount.Some? {
      policy := policy.(premiumAmount := request.premiumAmount.value);
    }
    if request.startDate.Some? {
      policy := policy.(startDate := request.startDate.value);
    }
    if request.endDate.Some? {
      policy := policy.(endDate := request.endDate.value);
    }
    if Supplied(request.status) {
      policy := policy.(status := request.status.value);
    }
    policy := policy.(updatedAt := Some(now));
  }

  method UpdatePolicy(ctx: InsuranceContext, policyId: int, request: UpdatePolicyRequest, now: DateTime) returns (updated: bool)
    requires ctx.Valid()
    modifies ctx`policies
    ensures ctx.Valid()
    ensures (updated, ctx.Snapshot()) == UpdatePolicyOutcome(old(ctx.Snapshot()), policyId, request, now)
  {
    var found := FirstWhere(ctx.policies, PolicyWithId(policyId));
    if found.None? {
      return false;
    }
    var policy := AssignSupplied(found.value, request, now);
    PutPolicyKeepsValid(ctx.Snapshot(), policyId, policy);
    ctx.policies := Put(ctx.policies, policyId, policy);
    return true;
  }

  /** Repeating an update changes nothing more than the time of the last update. */
  lemma UpdateIsIdempotent(p: Policy, request: UpdatePolicyRequest, now: DateTime, later: DateTime)
    ensures ApplyUpdate(ApplyUpdate(p, request, now), request, later) == ApplyUpdate(p, request, later)
  {
  }

  /** A request that supplies nothing (null or empty strings, no values) only moves UpdatedAt. */
  lemma EmptyUpdateOnlyTouchesUpdatedAt(p: Policy, now: DateTime, policyType: Option<string>, status: Option<string>)
    requires !Supplied(policyType) && !Supplied(status)
    ensures ApplyUpdate(p, UpdatePolicyRequest(policyType, None, None, None, None, status), now) == p.(updatedAt := Some(now))
  {
  }

  // ---- RenewPolicyAsync ------------------------------------------------------------

  /**
   * Renewing by id alone: false, changing nothing, for an unknown policy;
   * otherwise the end date and premium are replaced and the status becomes
   * "Active", with every other field kept.
   */
  function RenewPolicyOutcome(db: Db, policyId: int, newEndDate: DateTime, newPremium: real, now: DateTime): (out: (bool, Db))
    requires db.Valid()
    ensures out.1.Valid()
    ensures out.0 <==> policyId in db.policies.rows
    ensures !out.0 ==> out.1 == db
    ensures out.0 ==>
      out.1 == db.(policies := Put(db.policies, policyId,
                                   db.policies.rows[policyId].(endDate := newEndDate, premiumAmount := newPremium,
                                                               status := Active, updatedAt := Some(now))))
  {
    match FirstWhere(db.policies, PolicyWithId(policyId))
    case None => (false, db)
    case Some(p) =>
      var renewed := p.(endDate := newEndDate, premiumAmount := newPremium, status := Active, updatedAt := Some(now));
      PutPolicyKeepsValid(db, policyId, renewed);
      (true, db.(policies := Put(db.policies, policyId, renewed)))
  }

  method RenewPolicy(ctx: InsuranceContext, policyId: int, newEndDate: DateTime, newPremium: real, now: DateTime)
    returns (renewed: bool)
    requires ctx.Valid()
    modifies ctx`policies
    ensures ctx.Valid()
    ensures (renewed, ctx.Snapshot()) == RenewPolicyOutcome(old(ctx.Snapshot()), policyId, newEndDate, newPremium, now)
  {
    var found := FirstWhere(ctx.policies, PolicyWithId(policyId));
    if found.None? {
      return false;
    }
    var policy := found.value.(endDate := newEndDate, premiumAmount := newPremium, status := Active, updatedAt := Some(now));
    PutPolicyKeepsValid(ctx.Snapshot(), policyId, policy);
    ctx.policies := Put(ctx.policies, policyId, policy);
    return true;
  }

  /**
   * A renewed policy that was "Expired" is active again and is listed for
   * its owner; its start date, coverage and type are those it had.
   */
  lemma RenewReactivates(db: Db, policyId: int, newEndDate: DateTime, newPremium: real, now: DateTime)
    requires db.Valid() && policyId in db.policies.rows
    ensures var after := RenewPolicyOutcome(db, policyId, newEndDate, newPremium, now).1;
      var (p, q) := (db.policies.rows[policyId], after.policies.rows[policyId]);
      && q.status == Active
      && q in PoliciesByUser(after, p.userId)
      && q.startDate == p.startDate && q.coverageAmount == p.coverageAmount && q.policyType == p.policyType
  {
    var after := RenewPolicyOutcome(db, policyId, newEndDate, newPremium, now).1;
    assert after.policies.rows[policyId].status == Active;
  }
}

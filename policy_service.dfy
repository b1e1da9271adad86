/**
 * SecureMiles.Services/Policy/PolicyServices.cs: creating a policy for one
 * of the caller's vehicles, listing and showing the caller's policies,
 * updating one, and renewing one by calendar months.
 */
module PolicyService {
  import opened Errors
  import opened Calendar
  import opened Tables
  import opened Entities
  import opened Store
  import PolicyRepository
  import VehicleRepository

  /** A policy ends strictly after it starts (the rule CreatePolicyAsync enforces). */
  predicate EndsAfterStart(p: Policy) {
    Before(p.startDate, p.endDate)
  }

  /** Every stored policy ends after it starts. */
  predicate PolicyDatesOrdered(db: Db) {
    forall k :: k in db.policies.rows ==> EndsAfterStart(db.policies.rows[k])
  }

  /** Replacing or inserting one policy that ends after it starts keeps the dates ordered. */
  lemma PutKeepsDatesOrdered(db: Db, k: int, q: Policy, next: int)
    requires PolicyDatesOrdered(db) && EndsAfterStart(q)
    ensures PolicyDatesOrdered(db.(policies := Table(db.policies.rows[k := q], next)))
  {
  }

  // ---- CreatePolicyAsync -------------------------------------------------------------

  /** CreatePolicyRequestDto. `policyType` is None where the request leaves it null. */
  datatype CreatePolicyRequest = CreatePolicyRequest(
    vehicleId: int,
    policyType: Option<string>,
    coverageAmount: real,
    premiumAmount: real,
    startDate: DateTime,
    endDate: DateTime)

  /** The policy a creation stores, before it receives its identity. */
  function NewPolicy(userId: int, request: CreatePolicyRequest, reminder: DateTime, now: DateTime): Policy
    requires request.policyType.Some?
  {
    Policy(0, userId, request.vehicleId, None, request.policyType.value, request.coverageAmount,
           request.premiumAmount, Active, request.startDate, request.endDate, Some(reminder), now, Some(now))
  }

  /**
   * Creating: KeyNotFound unless the caller owns the vehicle and it is
   * active; InvalidOperation unless the end date is after the start date;
   * ArgumentNull for a missing policy type; ArgumentOutOfRange when the
   * reminder, 30 days before the end, falls before 0001-01-01. Each failure
   * stores nothing. Otherwise an "Active" policy with no proposal is stored
   * with the requested terms.
   */
  function CreateOutcome(db: Db, userId: int, request: CreatePolicyRequest, now: DateTime): (out: (Result<int>, Db))
    requires db.Valid()
    ensures out.1.Valid()
    ensures out.0.Err? ==> out.1 == db
    ensures out.0 == Err(KeyNotFound) <==> !VehicleRepository.OwnsActive(db, request.vehicleId, userId)
    ensures out.0 == Err(InvalidOperation) <==>
      VehicleRepository.OwnsActive(db, request.vehicleId, userId) && !Before(request.startDate, request.endDate)
    ensures out.0 == Err(ArgumentNull) <==>
      VehicleRepository.OwnsActive(db, request.vehicleId, userId) && Before(request.startDate, request.endDate)
      && request.policyType.None?
    ensures out.0 == Err(ArgumentOutOfRange) <==>
      VehicleRepository.OwnsActive(db, request.vehicleId, userId) && Before(request.startDate, request.endDate)
      && request.policyType.Some? && AddDays(request.endDate, -30).None?
    ensures out.0.Ok? <==>
      VehicleRepository.OwnsActive(db, request.vehicleId, userId) && Before(request.startDate, request.endDate)
      && request.policyType.Some? && AddDays(request.endDate, -30).Some?
    ensures out.0.Ok? ==>
      var id := out.0.value;
      && id == db.policies.next && id !in db.policies.rows && id in out.1.policies.rows
      && out.1 == db.(policies := Table(db.policies.rows[id := out.1.policies.rows[id]], id + 1))
      && var p := out.1.policies.rows[id];
      && p == NewPolicy(userId, request, AddDays(request.endDate, -30).value, now).(id := id)
      && p.status == Active && p.proposalId.None? && p.userId == userId
      && EndsAfterStart(p) && Before(p.renewalReminderDate.value, p.endDate)
  {
    var vehicle := VehicleRepository.GetVehicleEntity(db, request.vehicleId, userId);
    if vehicle.None? || !vehicle.value.isActive then (Err(KeyNotFound), db)
    else if !Before(request.startDate, request.endDate) then (Err(InvalidOperation), db)
    else if request.policyType.None? then (Err(ArgumentNull), db)
    else match AddDays(request.endDate, -30)
      case None => (Err(ArgumentOutOfRange), db)
      case Some(reminder) =>
        AddDaysBackwardIsEarlier(request.endDate, -30);
        var (id, db') := PolicyRepository.AddPolicyOutcome(db, NewPolicy(userId, request, reminder, now));
        (Ok(id), db')
  }

  method CreatePolicy(ctx: InsuranceContext, userId: int, request: CreatePolicyRequest, now: DateTime) returns (r: Result<int>)
    requires ctx.Valid()
    modifies ctx`policies
    ensures ctx.Valid()
    ensures (r, ctx.Snapshot()) == CreateOutcome(old(ctx.Snapshot()), userId, request, now)
  {
    var vehicle := VehicleRepository.GetVehicleEntity(ctx.Snapshot(), request.vehicleId, userId);
    if vehicle.None? || !vehicle.value.isActive {
      return Err(KeyNotFound);
    }
    if !Before(request.startDate, request.endDate) {
      return Err(InvalidOperation);
    }
    if request.policyType.None? {
      return Err(ArgumentNull);
    }
    var reminder := AddDays(request.endDate, -30);
    if reminder.None? {
      return Err(ArgumentOutOfRange);
    }
    var id := PolicyRepository.AddPolicy(ctx, NewPolicy(userId, request, reminder.value, now));
    return Ok(id);
  }

  /** Creating keeps every stored policy ending after it starts, and lists the new one for its owner. */
  lemma CreateKeepsDatesOrdered(db: Db, userId: int, request: CreatePolicyRequest, now: DateTime)
    requires db.Valid() && PolicyDatesOrdered(db)
    ensures var (r, after) := CreateOutcome(db, userId, request, now);
      && PolicyDatesOrdered(after)
      && (r.Ok? ==> after.policies.rows[r.value] in PolicyRepository.PoliciesByUser(after, userId))
  {
    var (r, after) := CreateOutcome(db, userId, request, now);
    if r.Ok? {
      PutKeepsDatesOrdered(db, r.value, after.policies.rows[r.value], r.value + 1);
      assert after.policies.rows[r.value].status == Active;
    }
  }

  // ---- GetPoliciesAsync / GetPolicyByIdAsync -----------------------------------------

  /** VehicleDetailsDto. */
  datatype VehicleSummary = VehicleSummary(vehicleId: int, make: string, model: string, registrationNumber: string, vehicleType: string)

  /** PolicyResponseDto / PolicyDetailsResponseDto. */
  datatype PolicySummary = PolicySummary(
    policyId: int,
    policyType: string,
    coverageAmount: real,
    premiumAmount: real,
    startDate: DateTime,
    endDate: DateTime,
    status: string,
    vehicle: VehicleSummary)

  /** The policy's own terms and status, with its vehicle's id, make, model, registration and type. */
  function Summarize(db: Db, p: Policy): (r: PolicySummary)
    requires p.vehicleId in db.vehicles.rows
    ensures r.policyId == p.id && r.policyType == p.policyType && r.status == p.status
    ensures r.coverageAmount == p.coverageAmount && r.premiumAmount == p.premiumAmount
    ensures r.startDate == p.startDate && r.endDate == p.endDate
    ensures var v := db.vehicles.rows[p.vehicleId];
      && r.vehicle.vehicleId == v.id && r.vehicle.make == v.make && r.vehicle.model == v.model
      && r.vehicle.registrationNumber == v.registrationNumber && r.vehicle.vehicleType == v.vehicleType
  {
    var v := db.vehicles.rows[p.vehicleId];
    PolicySummary(p.id, p.policyType, p.coverageAmount, p.premiumAmount, p.startDate, p.endDate, p.status,
                  VehicleSummary(v.id, v.make, v.model, v.registrationNumber, v.vehicleType))
  }

  /** The summaries of `ps`, one per policy, in the same order. */
  function SummarizeAll(db: Db, ps: seq<Policy>): (r: seq<PolicySummary>)
    requires forall i :: 0 <= i < |ps| ==> ps[i].vehicleId in db.vehicles.rows
    ensures |r| == |ps|
    ensures forall i :: 0 <= i < |ps| ==> r[i] == Summarize(db, ps[i])
  {
    if ps == [] then [] else [Summarize(db, ps[0])] + SummarizeAll(db, ps[1..])
  }

  /**
   * GetPoliciesAsync: one summary per policy the repository lists for the
   * caller, in that order; none of them is "Deleted".
   */
  function GetPolicies(db: Db, userId: int): (r: seq<PolicySummary>)
    requires db.Valid()
    ensures var listed := PolicyRepository.PoliciesByUser(db, userId);
      && |r| == |listed|
      && forall i :: 0 <= i < |r| ==>
           r[i].policyId == listed[i].id && r[i].status == listed[i].status && r[i].status != Deleted
           && r[i].endDate == listed[i].endDate && r[i].vehicle.vehicleId == listed[i].vehicleId
    ensures var listed := PolicyRepository.PoliciesByUser(db, userId);
      forall i :: 0 <= i < |r| ==> listed[i].vehicleId in db.vehicles.rows && r[i] == Summarize(db, listed[i])
  {
    var listed := PolicyRepository.PoliciesByUser(db, userId);
    assert forall i :: 0 <= i < |listed| ==> listed[i].vehicleId in db.vehicles.rows by {
      forall i | 0 <= i < |listed| ensures listed[i].vehicleId in db.vehicles.rows {
        assert listed[i] in listed;
        StoredPolicyHasVehicle(db, listed[i]);
      }
    }
    SummarizeAll(db, listed)
  }

  /** GetPolicyByIdAsync: the caller's own policy with its vehicle, otherwise KeyNotFound. */
  function GetPolicyDetails(db: Db, policyId: int, userId: int): (r: Result<PolicySummary>)
    requires db.Valid()
    ensures r.Ok? <==> PolicyRepository.Owns(db, policyId, userId)
    ensures r.Err? ==> r.error == KeyNotFound
    ensures r.Ok? ==>
      var p := db.policies.rows[policyId];
      && r.value.policyId == policyId && r.value.status == p.status && r.value.endDate == p.endDate
      && r.value.vehicle.vehicleId == p.vehicleId
    ensures r.Ok? ==> db.policies.rows[policyId].vehicleId in db.vehicles.rows && r.value == Summarize(db, db.policies.rows[policyId])
  {
    match PolicyRepository.GetPolicyById(db, policyId, userId)
    case None => Err(KeyNotFound)
    case Some(p) => Ok(Summarize(db, p))
  }

  // ---- UpdatePolicyAsync -------------------------------------------------------------

  /**
   * UpdatePolicyAsync as written. The lookup already filters by the caller,
   * so the administrator exemption in the ownership test never applies, and
   * the end-after-start rule is checked only when the request supplies both
   * dates.
   */
  function UpdateOutcomeAsWritten(db: Db, policyId: int, userId: int, request: PolicyRepository.UpdatePolicyRequest,
                                  isAdmin: bool, now: DateTime): (out: (Result<bool>, Db))
    requires db.Valid()
    ensures out.1.Valid()
    ensures out.0.Err? ==> out.1 == db
    ensures out.0 == Err(KeyNotFound) <==> !PolicyRepository.Owns(db, policyId, userId)
    ensures out.0 == Err(InvalidOperation) <==>
      PolicyRepository.Owns(db, policyId, userId) && request.startDate.Some? && request.endDate.Some?
      && !Before(request.startDate.value, request.endDate.value)
    ensures out.0.Ok? <==>
      PolicyRepository.Owns(db, policyId, userId)
      && !(request.startDate.Some? && request.endDate.Some? && !Before(request.startDate.value, request.endDate.value))
    ensures out.0.Ok? ==> out.0.value && out.1 == PolicyRepository.UpdatePolicyOutcome(db, policyId, request, now).1
  {
    var policy := PolicyRepository.GetPolicyById(db, policyId, userId);
    if policy.None? || (!isAdmin && policy.value.userId != userId) then (Err(KeyNotFound), db)
    else if request.endDate.Some? && request.startDate.Some? && !Before(request.startDate.value, request.endDate.value) then
      (Err(InvalidOperation), db)
    else
      var (updated, db') := PolicyRepository.UpdatePolicyOutcome(db, policyId, request, now);
      if !updated then (Err(InvalidOperation), db') else (Ok(updated), db')
  }

  /** As written, an administrator cannot update a policy of another user: it is KeyNotFound. */
  lemma AdminCannotUpdateOthersPolicy(db: Db, policyId: int, userId: int, request: PolicyRepository.UpdatePolicyRequest, now: DateTime)
    requires db.Valid() && policyId in db.policies.rows && db.policies.rows[policyId].userId != userId
    ensures UpdateOutcomeAsWritten(db, policyId, userId, request, true, now) == (Err(KeyNotFound), db)
    ensures UpdateOutcome(db, policyId, userId, request, true, now).0 != Err(KeyNotFound)
  {
  }

  /** A sample policy running through 2025, and a request that moves only its end date into 2024. */
  const SamplePolicy: Policy :=
    Policy(1, 7, 1, None, "Comprehensive", 1000.0, 50.0, Active,
           DateTimeParts(2025, 1, 1, 0), DateTimeParts(2026, 1, 1, 0), None,
           DateTimeParts(2025, 1, 1, 0), None)
  const EndOnlyRequest: PolicyRepository.UpdatePolicyRequest :=
    PolicyRepository.UpdatePolicyRequest(None, None, None, None, Some(DateTimeParts(2024, 1, 1, 0)), None)

  function SampleDb(): (db: Db)
    ensures db.Valid() && PolicyDatesOrdered(db)
  {
    var v := Vehicle(1, 7, "Car", "Make", "Model", 2020, "REG", "CH", "EN", "Red", "Petrol", None, 0.0, true,
                     DateTimeParts(2025, 1, 1, 0), None);
    Db(Empty(), Table(map[1 := v], 2), Empty(), Table(map[1 := SamplePolicy], 2), Empty(), Empty(), Empty())
  }

  /**
   * As written, the owner can move the end date alone before the start date:
   * the update succeeds and leaves a policy that ends before it starts.
   */
  lemma EndOnlyUpdateInvertsDates(now: DateTime)
    ensures var (r, after) := UpdateOutcomeAsWritten(SampleDb(), 1, 7, EndOnlyRequest, false, now);
      && r == Ok(true)
      && !EndsAfterStart(after.policies.rows[1])
      && UpdateOutcome(SampleDb(), 1, 7, EndOnlyRequest, false, now) == (Err(InvalidOperation), SampleDb())
  {
    var db := SampleDb();
    assert PolicyRepository.GetPolicyById(db, 1, 7) == Some(SamplePolicy);
    var (r, after) := UpdateOutcomeAsWritten(db, 1, 7, EndOnlyRequest, false, now);
    assert after.policies.rows[1].endDate == DateTimeParts(2024, 1, 1, 0);
  }

  /**
   * UpdatePolicyAsync as intended: an administrator may update any stored
   * policy and any other caller only their own (otherwise KeyNotFound), and
   * the dates the policy will have, supplied or kept, must have the end
   * after the start (otherwise InvalidOperation). Failures change nothing.
   */
  function UpdateOutcome(db: Db, policyId: int, userId: int, request: PolicyRepository.UpdatePolicyRequest,
                         isAdmin: bool, now: DateTime): (out: (Result<bool>, Db))
    requires db.Valid()
    ensures out.1.Valid()
    ensures out.0.Err? ==> out.1 == db
    ensures out.0 == Err(KeyNotFound) <==>
      !(policyId in db.policies.rows && (isAdmin || db.policies.rows[policyId].userId == userId))
    ensures out.0 == Err(InvalidOperation) <==>
      policyId in db.policies.rows && (isAdmin || db.policies.rows[policyId].userId == userId)
      && !EndsAfterStart(PolicyRepository.ApplyUpdate(db.policies.rows[policyId], request, now))
    ensures out.0.Ok? <==>
      policyId in db.policies.rows && (isAdmin || db.policies.rows[policyId].userId == userId)
      && EndsAfterStart(PolicyRepository.ApplyUpdate(db.policies.rows[policyId], request, now))
    ensures out.0.Ok? ==> out.0.value && out.1 == PolicyRepository.UpdatePolicyOutcome(db, policyId, request, now).1
  {
    var policy := if isAdmin then Find(db.policies, policyId) else PolicyRepository.GetPolicyById(db, policyId, userId);
    if policy.None? then (Err(KeyNotFound), db)
    else if !EndsAfterStart(PolicyRepository.ApplyUpdate(policy.value, request, now)) then (Err(InvalidOperation), db)
    else
      var (updated, db') := PolicyRepository.UpdatePolicyOutcome(db, policyId, request, now);
      if !updated then (Err(InvalidOperation), db') else (Ok(updated), db')
  }

  method UpdatePolicy(ctx: InsuranceContext, policyId: int, userId: int, request: PolicyRepository.UpdatePolicyRequest,
                      isAdmin: bool, now: DateTime) returns (r: Result<bool>)
    requires ctx.Valid()
    modifies ctx`policies
    ensures ctx.Valid()
    ensures (r, ctx.Snapshot()) == UpdateOutcome(old(ctx.Snapshot()), policyId, userId, request, isAdmin, now)
  {
    var policy := if isAdmin then Find(ctx.policies, policyId) else PolicyRepository.GetPolicyById(ctx.Snapshot(), policyId, userId);
    if policy.None? {
      return Err(KeyNotFound);
    }
    var start := if request.startDate.Some? then request.startDate.value else policy.value.startDate;
    var end := if request.endDate.Some? then request.endDate.value else policy.value.endDate;
    if !Before(start, end) {
      return Err(InvalidOperation);
    }
    var updated := PolicyRepository.UpdatePolicy(ctx, policyId, request, now);
    if !updated {
      return Err(InvalidOperation);
    }
    return Ok(true);
  }

  /** The intended update keeps every stored policy ending after it starts. */
  lemma UpdateKeepsDatesOrdered(db: Db, policyId: int, userId: int, request: PolicyRepository.UpdatePolicyRequest,
                                isAdmin: bool, now: DateTime)
    requires db.Valid() && PolicyDatesOrdered(db)
    ensures PolicyDatesOrdered(UpdateOutcome(db, policyId, userId, request, isAdmin, now).1)
  {
    var (r, after) := UpdateOutcome(db, policyId, userId, request, isAdmin, now);
    if r.Ok? {
      var q := PolicyRepository.ApplyUpdate(db.policies.rows[policyId], request, now);
      assert after == db.(policies := Table(db.policies.rows[policyId := q], db.policies.next));
      PutKeepsDatesOrdered(db, policyId, q, db.policies.next);
    }
  }

  // ---- RenewPolicyAsync --------------------------------------------------------------

  /** RenewPolicyRequestDto: the months to extend by and an optional premium override. */
  datatype RenewPolicyRequest = RenewPolicyRequest(renewalPeriodMonths: int, premiumAmount: Option<real>)

  /** RenewPolicyResponseDto. */
  datatype RenewPolicyResponse = RenewPolicyResponse(policyId: int, newEndDate: DateTime, newPremiumAmount: real)

  /**
   * Renewing: KeyNotFound unless the caller owns the policy; InvalidOperation
   * unless it is "Active" or "Expired"; ArgumentOutOfRange when the new end
   * date passes 9999-12-31. Failures change nothing. Otherwise the end date
   * moves by the requested calendar months, the premium becomes the override
   * when one is given, and the policy is "Active".
   */
  function RenewOutcome(db: Db, policyId: int, userId: int, request: RenewPolicyRequest, now: DateTime)
    : (out: (Result<RenewPolicyResponse>, Db))
    requires db.Valid() && 1 <= request.renewalPeriodMonths <= 24
    ensures out.1.Valid()
    ensures out.0.Err? ==> out.1 == db
    ensures out.0 == Err(KeyNotFound) <==> !PolicyRepository.Owns(db, policyId, userId)
    ensures out.0 == Err(InvalidOperation) <==>
      PolicyRepository.Owns(db, policyId, userId)
      && db.policies.rows[policyId].status != Active && db.policies.rows[policyId].status != Expired
    ensures out.0 == Err(ArgumentOutOfRange) <==>
      PolicyRepository.Owns(db, policyId, userId)
      && (db.policies.rows[policyId].status == Active || db.policies.rows[policyId].status == Expired)
      && AddMonths(db.policies.rows[policyId].endDate, request.renewalPeriodMonths).None?
    ensures out.0.Ok? <==>
      PolicyRepository.Owns(db, policyId, userId)
      && (db.policies.rows[policyId].status == Active || db.policies.rows[policyId].status == Expired)
      && AddMonths(db.policies.rows[policyId].endDate, request.renewalPeriodMonths).Some?
    ensures out.0.Ok? ==> policyId in db.policies.rows && policyId in out.1.policies.rows
    ensures out.0.Ok? ==>
      var (p, q) := (db.policies.rows[policyId], out.1.policies.rows[policyId]);
      && Some(q.endDate) == AddMonths(p.endDate, request.renewalPeriodMonths)
      && MonthIndex(q.endDate) == MonthIndex(p.endDate) + request.renewalPeriodMonths
      && Before(p.endDate, q.endDate)
      && q.premiumAmount == (if request.premiumAmount.Some? then request.premiumAmount.value else p.premiumAmount)
      && q.status == Active
      && out.0.value == RenewPolicyResponse(policyId, q.endDate, q.premiumAmount)
      && out.1 == PolicyRepository.RenewPolicyOutcome(db, policyId, q.endDate, q.premiumAmount, now).1
  {
    var policy := PolicyRepository.GetPolicyById(db, policyId, userId);
    if policy.None? || policy.value.userId != userId then (Err(KeyNotFound), db)
    else if policy.value.status != Active && policy.value.status != Expired then (Err(InvalidOperation), db)
    else match AddMonths(policy.value.endDate, request.renewalPeriodMonths)
      case None => (Err(ArgumentOutOfRange), db)
      case Some(newEnd) =>
        AddMonthsIsLater(policy.value.endDate, request.renewalPeriodMonths);
        var newPremium := if request.premiumAmount.Some? then request.premiumAmount.value else policy.value.premiumAmount;
        var (renewed, db') := PolicyRepository.RenewPolicyOutcome(db, policyId, newEnd, newPremium, now);
        if !renewed then (Err(InvalidOperation), db')
        else (Ok(RenewPolicyResponse(policyId, newEnd, newPremium)), db')
  }

  method RenewPolicy(ctx: InsuranceContext, policyId: int, userId: int, request: RenewPolicyRequest, now: DateTime)
    returns (r: Result<RenewPolicyResponse>)
    requires ctx.Valid() && 1 <= request.renewalPeriodMonths <= 24
    modifies ctx`policies
    ensures ctx.Valid()
    ensures (r, ctx.Snapshot()) == RenewOutcome(old(ctx.Snapshot()), policyId, userId, request, now)
  {
    var policy := PolicyRepository.GetPolicyById(ctx.Snapshot(), policyId, userId);
    if policy.None? || policy.value.userId != userId {
      return Err(KeyNotFound);
    }
    if policy.value.status != Active && policy.value.status != Expired {
      return Err(InvalidOperation);
    }
    var newEnd := AddMonths(policy.value.endDate, request.renewalPeriodMonths);
    if newEnd.None? {
      return Err(ArgumentOutOfRange);
    }
    var newPremium := if request.premiumAmount.Some? then request.premiumAmount.value else policy.value.premiumAmount;
    var renewed := PolicyRepository.RenewPolicy(ctx, policyId, newEnd.value, newPremium, now);
    if !renewed {
      return Err(InvalidOperation);
    }
    return Ok(RenewPolicyResponse(policyId, newEnd.value, newPremium));
  }

  /**
   * Renewing keeps every stored policy ending after it starts, and a renewed
   * policy can be renewed again (it is "Active").
   */
  lemma RenewKeepsDatesOrdered(db: Db, policyId: int, userId: int, request: RenewPolicyRequest, now: DateTime,
                               again: RenewPolicyRequest, later: DateTime)
    requires db.Valid() && PolicyDatesOrdered(db) && 1 <= request.renewalPeriodMonths <= 24
    requires 1 <= again.renewalPeriodMonths <= 24
    ensures var (r, after) := RenewOutcome(db, policyId, userId, request, now);
      && PolicyDatesOrdered(after)
      && (r.Ok? ==> RenewOutcome(after, policyId, userId, again, later).0 != Err(InvalidOperation))
  {
    var (r, after) := RenewOutcome(db, policyId, userId, request, now);
    if r.Ok? {
      var (p, q) := (db.policies.rows[policyId], after.policies.rows[policyId]);
      assert after == db.(policies := Table(db.policies.rows[policyId := q], db.policies.next));
      assert EndsAfterStart(p) && q.startDate == p.startDate && Before(p.endDate, q.endDate);
      PutKeepsDatesOrdered(db, policyId, q, db.policies.next);
      assert PolicyRepository.Owns(after, policyId, userId) && q.status == Active;
    }
  }
}

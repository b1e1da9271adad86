/**
 * SecureMiles.Services/Vehicle/VehicleService.cs: registering a vehicle and
 * quoting its three policy options, updating it through a stored procedure,
 * and deleting it.
 */
module VehicleService {
  import opened Errors
  import opened Calendar
  import opened Tables
  import opened Entities
  import opened Store
  import VehicleRepository

  /** The registration form (AddVehicleRequestDto). */
  datatype AddVehicleRequest = AddVehicleRequest(
    vehicleType: string,
    model: string,
    make: string,
    year: int,
    registrationNumber: string,
    chassisNumber: string,
    engineNumber: string,
    color: string,
    fuelType: string,
    purchaseDate: Option<DateTime>,
    marketValue: real)

  /** One quoted policy option (PolicyOptionDto). */
  datatype PolicyOption = PolicyOption(
    vehicleId: int,
    policyType: string,
    coverageAmount: real,
    premiumAmount: real,
    addOns: seq<string>,
    policyName: string,
    policyDescription: string,
    policyTerms: string,
    policyCoverage: string)

  /** The value of DateTime a record gets when the code never assigns it. */
  const DefaultDateTime: DateTime := DateTimeParts(1, 1, 1, 0)

  // ---- GeneratePolicyOptions -----------------------------------------------------

  /**
   * The three quoted options for a vehicle, in the order Comprehensive,
   * Third-Party, Fire and Theft. For a vehicle of non-negative market value
   * every amount is non-negative, and both coverage and premium rise from
   * Third-Party to Fire and Theft to Comprehensive.
   */
  const Comprehensive: string := "Comprehensive"
  const ThirdParty: string := "Third-Party"
  const FireAndTheft: string := "Fire and Theft"
  const StandardTerms: string := "Policy terms and conditions apply."

  /** The wording of the Comprehensive option. */
  const ComprehensiveAddOns: seq<string> := ["Roadside Assistance", "Engine Protection"]
  const ComprehensiveName: string := "Comprehensive Policy"
  const ComprehensiveDescription: string := "This policy provides coverage for all types of damages to your vehicle."
  const ComprehensiveCoverage: string := "Covers damages due to accidents, theft, fire, and natural calamities."

  /** The wording of the Third-Party option. */
  const ThirdPartyName: string := "Third-Party Policy"
  const ThirdPartyDescription: string := "This policy provides coverage for damages caused to third-party vehicles."
  const ThirdPartyCoverage: string := "Covers damages caused to third-party vehicles in case of an accident."

  /** The wording of the Fire and Theft option. */
  const FireAndTheftAddOns: seq<string> := ["Theft Protection"]
  const FireAndTheftName: string := "Fire and Theft Policy"
  const FireAndTheftDescription: string := "This policy provides coverage for damages due to fire and theft."
  const FireAndTheftCoverage: string := "Covers damages due to fire and theft of the vehicle."

  function GeneratePolicyOptions(v: Vehicle): (r: seq<PolicyOption>)
    ensures |r| == 3
    ensures r[0].policyType == Comprehensive && r[1].policyType == ThirdParty && r[2].policyType == FireAndTheft
    ensures forall i :: 0 <= i < |r| ==> r[i].vehicleId == v.id
    ensures v.marketValue >= 0.0 ==>
      && 0.0 <= r[1].coverageAmount <= r[2].coverageAmount <= r[0].coverageAmount
      && 0.0 <= r[1].premiumAmount < r[2].premiumAmount < r[0].premiumAmount
  {
    var baseCoverage := v.marketValue * 0.75;
    var basePremium := baseCoverage * 0.02;
    [ PolicyOption(v.id, Comprehensive, baseCoverage, basePremium + 500.0, ComprehensiveAddOns,
                   ComprehensiveName, ComprehensiveDescription, StandardTerms, ComprehensiveCoverage),
      PolicyOption(v.id, ThirdParty, baseCoverage * 0.6, basePremium * 0.6, [],
                   ThirdPartyName, ThirdPartyDescription, StandardTerms, ThirdPartyCoverage),
      PolicyOption(v.id, FireAndTheft, baseCoverage * 0.8, basePremium * 0.8 + 300.0, FireAndTheftAddOns,
                   FireAndTheftName, FireAndTheftDescription, StandardTerms, FireAndTheftCoverage) ]
  }

  /**
   * The pricing rule in terms of the market value: Comprehensive covers three
   * quarters of it at 2% of that coverage plus 500; Third-Party covers 60%
   * and charges 60% of the base premium; Fire and Theft covers 80% and
   * charges 80% of the base premium plus 300.
   */
  lemma PolicyOptionPricing(v: Vehicle)
    ensures var r := GeneratePolicyOptions(v);
      && r[0].coverageAmount == v.marketValue * 3.0 / 4.0
      && r[0].premiumAmount == r[0].coverageAmount / 50.0 + 500.0
      && r[1].coverageAmount == r[0].coverageAmount * 3.0 / 5.0
      && r[1].premiumAmount == (r[0].premiumAmount - 500.0) * 3.0 / 5.0
      && r[2].coverageAmount == r[0].coverageAmount * 4.0 / 5.0
      && r[2].premiumAmount == (r[0].premiumAmount - 500.0) * 4.0 / 5.0 + 300.0
  {
  }

  // ---- AddVehicleAsync -----------------------------------------------------------

  /** The vehicle record built from the form; `id` and `userId` are filled in when it is stored. */
  function NewVehicle(request: AddVehicleRequest, initiallyActive: bool): Vehicle {
    Vehicle(0, 0, request.vehicleType, request.make, request.model, request.year,
            request.registrationNumber, request.chassisNumber, request.engineNumber,
            request.color, request.fuelType, request.purchaseDate, request.marketValue,
            initiallyActive, DefaultDateTime, None)
  }

  /**
   * Registering: ArgumentNull for a missing form and Argument for an unknown
   * user, storing nothing; otherwise the vehicle is stored for the caller and
   * the result is the options quoted for the stored record, carrying its new id.
   */
  function AddVehicleOutcome(db: Db, userId: int, request: Option<AddVehicleRequest>, initiallyActive: bool)
    : (out: (Result<seq<PolicyOption>>, Db))
    requires db.Valid()
    ensures out.1.Valid()
    ensures out.0 == Err(ArgumentNull) <==> request.None?
    ensures out.0 == Err(Argument) <==> request.Some? && userId !in db.users.rows
    ensures out.0.Ok? <==> request.Some? && userId in db.users.rows
    ensures out.0.Err? ==> out.1 == db
    ensures out.0.Ok? ==>
      var id := db.vehicles.next;
      var stored := NewVehicle(request.value, initiallyActive).(id := id, userId := userId);
      && id !in db.vehicles.rows
      && out.1 == db.(vehicles := Table(db.vehicles.rows[id := stored], id + 1))
      && out.0.value == GeneratePolicyOptions(stored)
  {
    if request.None? then (Err(ArgumentNull), db)
    else if FirstWhere(db.users, UserWithId(userId)).None? then (Err(Argument), db)
    else
      var (added, db') := VehicleRepository.AddVehicleOutcome(db, userId, NewVehicle(request.value, initiallyActive));
      match added
      case Err(e) => (Err(e), db')
      case Ok(id) => (Ok(GeneratePolicyOptions(db'.vehicles.rows[id])), db')
  }

  method AddVehicle(ctx: InsuranceContext, userId: int, request: Option<AddVehicleRequest>, initiallyActive: bool)
    returns (r: Result<seq<PolicyOption>>)
    requires ctx.Valid()
    modifies ctx`vehicles
    ensures ctx.Valid()
    ensures (r, ctx.Snapshot()) == AddVehicleOutcome(old(ctx.Snapshot()), userId, request, initiallyActive)
  {
    if request.None? {
      return Err(ArgumentNull);
    }
    var user := FirstWhere(ctx.users, UserWithId(userId));
    if user.None? {
      return Err(Argument);
    }
    var vehicle := NewVehicle(request.value, initiallyActive);
    var added := VehicleRepository.AddVehicle(ctx, userId, vehicle);
    return Ok(GeneratePolicyOptions(ctx.vehicles.rows[added.value]));
  }

  // ---- UpdateVehicleAsync --------------------------------------------------------

  /**
   * Updating goes through the UpdateVehicleDetails stored procedure, whose
   * reply is `rowsAffected` (None when it returns no row): the update is
   * reported only when some row was affected, otherwise InvalidOperation.
   */
  function UpdateVehicleOutcome(rowsAffected: Option<int>): (r: Result<bool>)
    ensures r.Ok? <==> rowsAffected.Some? && rowsAffected.value > 0
    ensures r.Ok? ==> r.value
    ensures r.Err? ==> r.error == InvalidOperation
  {
    var updated := rowsAffected.Some? && rowsAffected.value > 0;
    if !updated then Err(InvalidOperation) else Ok(updated)
  }

  // ---- DeleteVehicleAsync --------------------------------------------------------

  /**
   * What the GetVehicleDetails stored procedure hands back to the service:
   * a fresh VehicleDetailsResponseDto, never null, whose IsActive is never
   * assigned. `reportedId` is the VehicleID of the procedure's first row, if any.
   */
  datatype VehicleDetails = VehicleDetails(vehicleId: int, isActive: bool)

  function GetVehicleDetails(reportedId: Option<int>): (d: VehicleDetails)
    ensures !d.isActive
  {
    VehicleDetails(if reportedId.Some? then reportedId.value else 0, false)
  }

  /**
   * DeleteVehicleAsync's steps once the activity test has been read as
   * `active`: KeyNotFound, changing nothing, unless it is true; then the
   * repository's soft delete, whose refusal is InvalidOperation.
   */
  function DeleteVehicleGuarded(db: Db, active: bool, vehicleId: int, userId: int, now: DateTime)
    : (out: (Result<bool>, Db))
    requires db.Valid()
    ensures out.1.Valid()
    ensures !active ==> out == (Err(KeyNotFound), db)
    ensures active ==> (out.0 == Ok(true) <==> VehicleRepository.OwnsActive(db, vehicleId, userId))
    ensures active && !VehicleRepository.OwnsActive(db, vehicleId, userId) ==> out == (Err(InvalidOperation), db)
    ensures out.0 == Ok(true) ==> out.1 == VehicleRepository.DeleteOutcome(db, vehicleId, userId, now).1
  {
    if !active then (Err(KeyNotFound), db)
    else
      var (deleted, db') := VehicleRepository.DeleteOutcome(db, vehicleId, userId, now);
      if !deleted then (Err(InvalidOperation), db') else (Ok(true), db')
  }

  /**
   * DeleteVehicleAsync as written: the activity test reads the details
   * record, which is never active, so every delete is KeyNotFound and leaves
   * the store unchanged.
   */
  function DeleteVehicleAsWritten(db: Db, vehicleId: int, userId: int, reportedId: Option<int>, now: DateTime)
    : (out: (Result<bool>, Db))
    requires db.Valid()
    ensures out == (Err(KeyNotFound), db)
  {
    DeleteVehicleGuarded(db, GetVehicleDetails(reportedId).isActive, vehicleId, userId, now)
  }

  /** In particular the caller's own active vehicle cannot be deleted. */
  lemma OwnActiveVehicleCannotBeDeleted(db: Db, vehicleId: int, userId: int, reportedId: Option<int>, now: DateTime)
    requires db.Valid() && VehicleRepository.OwnsActive(db, vehicleId, userId)
    ensures DeleteVehicleAsWritten(db, vehicleId, userId, reportedId, now).0 != VehicleDeleteOutcome(db, vehicleId, userId, now).0
  {
  }

  /**
   * DeleteVehicleAsync as intended: KeyNotFound unless the caller owns the
   * vehicle and it is active; then it is soft-deleted, and a repository
   * refusal would be InvalidOperation.
   */
  function VehicleDeleteOutcome(db: Db, vehicleId: int, userId: int, now: DateTime): (out: (Result<bool>, Db))
    requires db.Valid()
    ensures out.1.Valid()
    ensures out.0 == Ok(true) <==> VehicleRepository.OwnsActive(db, vehicleId, userId)
    ensures out.0 != Ok(true) ==> out.0 == Err(KeyNotFound) && out.1 == db
    ensures out.0 == Ok(true) ==> out.1 == VehicleRepository.DeleteOutcome(db, vehicleId, userId, now).1
  {
    if VehicleRepository.GetVehicleEntity(db, vehicleId, userId).None? then (Err(KeyNotFound), db)
    else
      var (deleted, db') := VehicleRepository.DeleteOutcome(db, vehicleId, userId, now);
      if !deleted then (Err(InvalidOperation), db') else (Ok(true), db')
  }

  method DeleteVehicle(ctx: InsuranceContext, vehicleId: int, userId: int, now: DateTime) returns (r: Result<bool>)
    requires ctx.Valid()
    modifies ctx`vehicles
    ensures ctx.Valid()
    ensures (r, ctx.Snapshot()) == VehicleDeleteOutcome(old(ctx.Snapshot()), vehicleId, userId, now)
  {
    var vehicle := VehicleRepository.GetVehicleEntity(ctx.Snapshot(), vehicleId, userId);
    if vehicle.None? {
      return Err(KeyNotFound);
    }
    var deleted := VehicleRepository.DeleteVehicle(ctx, vehicleId, userId, now);
    if !deleted {
      return Err(InvalidOperation);
    }
    return Ok(true);
  }
}

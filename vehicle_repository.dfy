/**
 * SecureMiles.Repositories/Vehicle/VehicleRepository.cs: registering
 * vehicles, the owner-and-active queries, and the soft delete.
 */
module VehicleRepository {
  import opened Errors
  import opened Calendar
  import opened Tables
  import opened Entities
  import opened Store

  /** The caller owns the stored vehicle and it has not been deleted. */
  predicate OwnsActive(db: Db, vehicleId: int, userId: int) {
    vehicleId in db.vehicles.rows && db.vehicles.rows[vehicleId].userId == userId && db.vehicles.rows[vehicleId].isActive
  }

  // ---- AddVehicleAsync ---------------------------------------------------------

  /**
   * Registering a vehicle: KeyNotFound for an unknown user; otherwise the
   * vehicle is stored under a fresh identity with the caller as its owner.
   */
  function AddVehicleOutcome(db: Db, userId: int, v: Vehicle): (out: (Result<int>, Db))
    requires db.Valid()
    ensures out.1.Valid()
    ensures out.0.Err? <==> userId !in db.users.rows
    ensures out.0.Err? ==> out.0.error == KeyNotFound && out.1 == db
    ensures out.0.Ok? ==>
      && out.0.value !in db.vehicles.rows
      && out.1.vehicles.rows == db.vehicles.rows[out.0.value := v.(id := out.0.value, userId := userId)]
      && out.1 == db.(vehicles := out.1.vehicles)
  {
    if FirstWhere(db.users, UserWithId(userId)).None? then (Err(KeyNotFound), db)
    else
      var id := db.vehicles.next;
      AddVehicleKeepsValid(db, v.(id := id, userId := userId));
      (Ok(id), db.(vehicles := Add(db.vehicles, v.(id := id, userId := userId))))
  }

  method AddVehicle(ctx: InsuranceContext, userId: int, v: Vehicle) returns (r: Result<int>)
    requires ctx.Valid()
    modifies ctx`vehicles
    ensures ctx.Valid()
    ensures (r, ctx.Snapshot()) == AddVehicleOutcome(old(ctx.Snapshot()), userId, v)
  {
    var user := FirstWhere(ctx.users, UserWithId(userId));
    if user.None? {
      return Err(KeyNotFound);
    }
    var id := ctx.vehicles.next;
    AddVehicleKeepsValid(ctx.Snapshot(), v.(id := id, userId := userId));
    ctx.vehicles := Add(ctx.vehicles, v.(id := id, userId := userId));
    return Ok(id);
  }

  // ---- queries -------------------------------------------------------------------

  /** GetVehiclesByUserIdAsync: exactly the caller's vehicles that are not deleted. */
  function VehiclesByUser(db: Db, userId: int): (r: seq<Vehicle>)
    requires db.Valid()
    ensures forall v :: v in r <==> Stored(db.vehicles, v) && v.userId == userId && v.isActive
    ensures Distinct(r)
  {
    var keep := (v: Vehicle) => v.userId == userId && v.isActive;
    WhereIsDistinct(db.vehicles, keep, VehicleKey);
    Where(db.vehicles, keep)
  }

  /** GetVehiclesByTypeAsync: exactly the caller's vehicles of that type that are not deleted. */
  function VehiclesByType(db: Db, userId: int, vehicleType: string): (r: seq<Vehicle>)
    requires db.Valid()
    ensures forall v :: v in r <==>
      Stored(db.vehicles, v) && v.userId == userId && v.isActive && v.vehicleType == vehicleType
    ensures Distinct(r)
  {
    var keep := (v: Vehicle) => v.userId == userId && v.isActive && v.vehicleType == vehicleType;
    WhereIsDistinct(db.vehicles, keep, VehicleKey);
    Where(db.vehicles, keep)
  }

  /** GetVehicleEntityAsync: the vehicle when the caller owns it and it is active, otherwise null. */
  function GetVehicleEntity(db: Db, vehicleId: int, userId: int): (r: Option<Vehicle>)
    requires db.Valid()
    ensures r.Some? <==> OwnsActive(db, vehicleId, userId)
    ensures r.Some? ==> r.value == db.vehicles.rows[vehicleId]
  {
    FirstWhere(db.vehicles, (v: Vehicle) => v.id == vehicleId && v.userId == userId && v.isActive)
  }

  // ---- DeleteVehicleAsync --------------------------------------------------------

  /**
   * Soft delete: false, changing nothing, unless the caller owns the vehicle
   * and it is active; otherwise the row stays, marked inactive at `now`.
   */
  function DeleteOutcome(db: Db, vehicleId: int, userId: int, now: DateTime): (out: (bool, Db))
    requires db.Valid()
    ensures out.1.Valid()
    ensures out.0 <==> OwnsActive(db, vehicleId, userId)
    ensures !out.0 ==> out.1 == db
    ensures out.0 ==>
      out.1 == db.(vehicles := Put(db.vehicles, vehicleId,
                                   db.vehicles.rows[vehicleId].(isActive := false, updatedAt := Some(now))))
  {
    match GetVehicleEntity(db, vehicleId, userId)
    case None => (false, db)
    case Some(v) =>
      var deleted := v.(isActive := false, updatedAt := Some(now));
      PutVehicleKeepsValid(db, vehicleId, deleted);
      (true, db.(vehicles := Put(db.vehicles, vehicleId, deleted)))
  }

  method DeleteVehicle(ctx: InsuranceContext, vehicleId: int, userId: int, now: DateTime) returns (deleted: bool)
    requires ctx.Valid()
    modifies ctx`vehicles
    ensures ctx.Valid()
    ensures (deleted, ctx.Snapshot()) == DeleteOutcome(old(ctx.Snapshot()), vehicleId, userId, now)
  {
    var vehicle := GetVehicleEntity(ctx.Snapshot(), vehicleId, userId);
    if vehicle.None? {
      return false;
    }
    var v := vehicle.value.(isActive := false, updatedAt := Some(now));
    PutVehicleKeepsValid(ctx.Snapshot(), vehicleId, v);
    ctx.vehicles := Put(ctx.vehicles, vehicleId, v);
    return true;
  }

  /**
   * After a successful delete the record is still stored, but it is gone from
   * the caller's lists and from the entity lookup, and a second delete
   * reports false.
   */
  lemma DeleteIsSoft(db: Db, vehicleId: int, userId: int, now: DateTime, later: DateTime, vehicleType: string)
    requires db.Valid() && DeleteOutcome(db, vehicleId, userId, now).0
    ensures var after := DeleteOutcome(db, vehicleId, userId, now).1;
      && vehicleId in after.vehicles.rows
      && after.vehicles.rows[vehicleId] == db.vehicles.rows[vehicleId].(isActive := false, updatedAt := Some(now))
      && after.vehicles.rows[vehicleId] !in VehiclesByUser(after, userId)
      && after.vehicles.rows[vehicleId] !in VehiclesByType(after, userId, vehicleType)
      && GetVehicleEntity(after, vehicleId, userId).None?
      && DeleteOutcome(after, vehicleId, userId, later) == (false, after)
  {
  }
}

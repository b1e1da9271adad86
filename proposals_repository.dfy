/**
 * SecureMiles.Repositories/Proposals/ProposalsRepository.cs: storing,
 * looking up, listing and cancelling proposals.
 */
module ProposalsRepository {
  import opened Errors
  import opened Calendar
  import opened Tables
  import opened Entities
  import opened Store

  /** The caller owns the stored proposal `proposalId`. */
  predicate Owns(db: Db, proposalId: int, userId: int) {
    proposalId in db.proposals.rows && db.proposals.rows[proposalId].userId == userId
  }

  // ---- AddProposalAsync ------------------------------------------------------

  /** The database after storing `p`, and the identity it received. */
  function AddProposalOutcome(db: Db, p: Proposal): (out: (int, Db))
    requires db.Valid() && p.vehicleId in db.vehicles.rows
    ensures out.1.Valid()
    ensures out.0 !in db.proposals.rows && Owns(out.1, out.0, p.userId)
    ensures out.1.proposals.rows == db.proposals.rows[out.0 := p.(id := out.0)]
    ensures out.1 == db.(proposals := out.1.proposals)
  {
    var id := db.proposals.next;
    AddProposalKeepsValid(db, p.(id := id));
    (id, db.(proposals := Add(db.proposals, p.(id := id))))
  }

  method AddProposal(ctx: InsuranceContext, p: Proposal) returns (id: int)
    requires ctx.Valid() && p.vehicleId in ctx.vehicles.rows
    modifies ctx`proposals
    ensures ctx.Valid()
    ensures (id, ctx.Snapshot()) == AddProposalOutcome(old(ctx.Snapshot()), p)
  {
    id := ctx.proposals.next;
    AddProposalKeepsValid(ctx.Snapshot(), p.(id := id));
    ctx.proposals := Add(ctx.proposals, p.(id := id));
  }

  // ---- lookups and lists -----------------------------------------------------

  /** GetProposalByIdAsync(id): the proposal with that id, or KeyNotFound. */
  function GetProposalById(db: Db, proposalId: int): (r: Result<Proposal>)
    requires db.Valid()
    ensures r.Ok? <==> proposalId in db.proposals.rows
    ensures r.Ok? ==> r.value == db.proposals.rows[proposalId]
    ensures r.Err? ==> r.error == KeyNotFound
  {
    match FirstWhere(db.proposals, ProposalWithId(proposalId))
    case None => Err(KeyNotFound)
    case Some(p) => Ok(p)
  }

  /** GetProposalByIdAsync(id, user): the caller's own proposal, or KeyNotFound. */
  function GetProposalByIdForUser(db: Db, proposalId: int, userId: int): (r: Result<Proposal>)
    requires db.Valid()
    ensures r.Ok? <==> Owns(db, proposalId, userId)
    ensures r.Ok? ==> r.value == db.proposals.rows[proposalId]
    ensures r.Err? ==> r.error == KeyNotFound
  {
    match FirstWhere(db.proposals, (p: Proposal) => p.id == proposalId && p.userId == userId)
    case None => Err(KeyNotFound)
    case Some(p) => Ok(p)
  }

  /** GetProposalsByVehicleIdAsync: every proposal for the vehicle, cancelled ones included. */
  function ProposalsByVehicle(db: Db, vehicleId: int): (r: seq<Proposal>)
    requires db.Valid()
    ensures forall p :: p in r <==> Stored(db.proposals, p) && p.vehicleId == vehicleId
    ensures Distinct(r)
  {
    var keep := (p: Proposal) => p.vehicleId == vehicleId;
    WhereIsDistinct(db.proposals, keep, ProposalKey);
    Where(db.proposals, keep)
  }

  /**
   * GetProposalsByUserIdAsync: the caller's proposals that are not cancelled,
   * latest submission first.
   */
  function ProposalsByUser(db: Db, userId: int): (r: seq<Proposal>)
    requires db.Valid()
    ensures forall p :: p in r <==> Stored(db.proposals, p) && p.userId == userId && p.status != Canceled
    ensures forall i, j :: 0 <= i < j < |r| ==> Rank(r[i].submissionDate) >= Rank(r[j].submissionDate)
    ensures Distinct(r)
  {
    var keep := (p: Proposal) => p.userId == userId && p.status != Canceled;
    WhereIsDistinct(db.proposals, keep, ProposalKey);
    var mine := Where(db.proposals, keep);
    var key := (p: Proposal) => Rank(p.submissionDate);
    SortByDescendingKeepsDistinct(mine, key);
    SortByDescending(mine, key)
  }

  // ---- CancelProposalAsync -----------------------------------------------------

  /**
   * Cancelling: `Ok(false)` when the caller does not own the proposal,
   * InvalidOperation unless it is "Pending", and otherwise `Ok(true)` with
   * the proposal marked "Canceled" at `now`.
   */
  function CancelOutcome(db: Db, proposalId: int, userId: int, now: DateTime): (out: (Result<bool>, Db))
    requires db.Valid()
    ensures out.1.Valid()
    ensures out.0 == Ok(false) <==> !Owns(db, proposalId, userId)
    ensures out.0 == Err(InvalidOperation) <==> Owns(db, proposalId, userId) && db.proposals.rows[proposalId].status != Pending
    ensures out.0 == Ok(true) <==> Owns(db, proposalId, userId) && db.proposals.rows[proposalId].status == Pending
    ensures out.0 != Ok(true) ==> out.1 == db
    ensures out.0 == Ok(true) ==>
      out.1 == db.(proposals := Put(db.proposals, proposalId,
                                    db.proposals.rows[proposalId].(status := Canceled, updatedAt := Some(now))))
  {
    match GetProposalByIdForUser(db, proposalId, userId)
    case Err(_) => (Ok(false), db)
    case Ok(p) =>
      if p.status != Pending then (Err(InvalidOperation), db)
      else
        var canceled := p.(status := Canceled, updatedAt := Some(now));
        PutProposalKeepsValid(db, proposalId, canceled);
        (Ok(true), db.(proposals := Put(db.proposals, proposalId, canceled)))
  }

  method CancelProposal(ctx: InsuranceContext, proposalId: int, userId: int, now: DateTime) returns (r: Result<bool>)
    requires ctx.Valid()
    modifies ctx`proposals
    ensures ctx.Valid()
    ensures (r, ctx.Snapshot()) == CancelOutcome(old(ctx.Snapshot()), proposalId, userId, now)
  {
    var found := GetProposalByIdForUser(ctx.Snapshot(), proposalId, userId);
    if found.Err? {
      return Ok(false);
    }
    var proposal := found.value;
    if proposal.status != Pending {
      return Err(InvalidOperation);
    }
    proposal := proposal.(status := Canceled, updatedAt := Some(now));
    PutProposalKeepsValid(ctx.Snapshot(), proposalId, proposal);
    ctx.proposals := Put(ctx.proposals, proposalId, proposal);
    return Ok(true);
  }

  /** A cancelled proposal is no longer listed for its owner and cannot be cancelled again. */
  lemma CancelTwiceFails(db: Db, proposalId: int, userId: int, now: DateTime, later: DateTime)
    requires db.Valid() && CancelOutcome(db, proposalId, userId, now).0 == Ok(true)
    ensures var after := CancelOutcome(db, proposalId, userId, now).1;
      && CancelOutcome(after, proposalId, userId, later) == (Err(InvalidOperation), after)
      && after.proposals.rows[proposalId] !in ProposalsByUser(after, userId)
  {
  }

  // ---- UpdateProposalAsync -----------------------------------------------------

  /** Saving a tracked proposal: its row becomes `p`; the call always reports true. */
  function UpdateProposalOutcome(db: Db, p: Proposal): (out: (bool, Db))
    requires db.Valid() && p.id in db.proposals.rows && p.vehicleId in db.vehicles.rows
    ensures out.1.Valid()
    ensures out.0
    ensures out.1.proposals.rows == db.proposals.rows[p.id := p] && out.1.proposals.next == db.proposals.next
    ensures out.1 == db.(proposals := out.1.proposals)
  {
    PutProposalKeepsValid(db, p.id, p);
    (true, db.(proposals := Put(db.proposals, p.id, p)))
  }

  method UpdateProposal(ctx: InsuranceContext, p: Proposal) returns (ok: bool)
    requires ctx.Valid() && p.id in ctx.proposals.rows && p.vehicleId in ctx.vehicles.rows
    modifies ctx`proposals
    ensures ctx.Valid()
    ensures (ok, ctx.Snapshot()) == UpdateProposalOutcome(old(ctx.Snapshot()), p)
  {
    PutProposalKeepsValid(ctx.Snapshot(), p.id, p);
    ctx.proposals := Put(ctx.proposals, p.id, p);
    ok := true;
  }
}

/**
 * SecureMiles.Services/Proposals/ProposalService.cs: submitting a proposal
 * for one of the caller's vehicles, listing and showing the caller's
 * proposals, and cancelling one.
 */
module ProposalService {
  import opened Errors
  import opened Calendar
  import opened Tables
  import opened Entities
  import opened Store
  import ProposalsRepository
  import VehicleRepository

  /**
   * The submission form. `hasDocument` says whether a file was attached; the
   * upload itself happens in the document service, whose reply is passed to
   * the operations below as `saved` (None where it returns null).
   */
  datatype SubmitProposalRequest = SubmitProposalRequest(
    vehicleId: int,
    requestedCoverage: real,
    policyType: Option<string>,
    premiumAmount: real,
    hasDocument: bool)

  /** The proposal a submission creates, before it receives its identity. */
  function NewProposal(userId: int, request: SubmitProposalRequest, now: DateTime): Proposal {
    Proposal(0, userId, request.vehicleId, request.policyType, request.requestedCoverage,
             request.premiumAmount, Pending, now, None, now, Some(now))
  }

  /**
   * Attaching the uploaded document to the stored proposal and saving the
   * proposal graph: the document row is linked to the proposal, and is
   * inserted when its key is not yet stored.
   */
  function AttachDocument(documents: Table<Document>, proposalId: int, d: Document): (t: Table<Document>)
    requires Keyed(documents, DocumentKey)
    ensures Keyed(t, DocumentKey)
    ensures var k := SaveKey(documents, d.id);
      && t.rows == documents.rows[k := d.(id := k, proposalId := Some(proposalId))]
      && t.next == (if d.id in documents.rows then documents.next else documents.next + 1)
    ensures forall k :: k in documents.rows && k != d.id ==> k in t.rows && t.rows[k] == documents.rows[k]
  {
    SaveDocument(documents, d.(proposalId := Some(proposalId)))
  }

  // ---- SubmitProposalAsync ---------------------------------------------------------

  /**
   * The writes of a submission for an owned, active vehicle: the proposal is
   * stored with the next id, then an attached upload is linked to it. False
   * when the upload failed, in which case the proposal stays stored and no
   * document is.
   */
  function RecordProposalOutcome(db: Db, userId: int, request: SubmitProposalRequest, saved: Option<Document>,
                                 now: DateTime): (out: (bool, Db))
    requires db.Valid() && request.vehicleId in db.vehicles.rows
    ensures out.1.Valid()
    ensures out.0 <==> !(request.hasDocument && saved.None?)
    ensures var id := db.proposals.next;
      && id !in db.proposals.rows
      && out.1.proposals.rows == db.proposals.rows[id := NewProposal(userId, request, now).(id := id)]
      && out.1 == db.(proposals := out.1.proposals, documents := out.1.documents)
    ensures out.0 && request.hasDocument ==>
      out.1.documents == AttachDocument(db.documents, db.proposals.next, saved.value)
    ensures !(out.0 && request.hasDocument) ==> out.1.documents == db.documents
  {
    var (id, db1) := ProposalsRepository.AddProposalOutcome(db, NewProposal(userId, request, now));
    if !request.hasDocument then (true, db1)
    else if saved.None? then (false, db1)
    else
      var attached := AttachDocument(db1.documents, id, saved.value);
      PutDocumentsKeepsValid(db1, attached);
      var db2 := db1.(documents := attached);
      var (_, db3) := ProposalsRepository.UpdateProposalOutcome(db2, db2.proposals.rows[id]);
      assert db3 == db2;
      (true, db3)
  }

  method RecordProposal(ctx: InsuranceContext, userId: int, request: SubmitProposalRequest, saved: Option<Document>,
                        now: DateTime) returns (ok: bool)
    requires ctx.Valid() && request.vehicleId in ctx.vehicles.rows
    modifies ctx`proposals, ctx`documents
    ensures ctx.Valid()
    ensures (ok, ctx.Snapshot()) == RecordProposalOutcome(old(ctx.Snapshot()), userId, request, saved, now)
  {
    var id := ProposalsRepository.AddProposal(ctx, NewProposal(userId, request, now));
    if request.hasDocument {
      if saved.None? {
        return false;
      }
      var attached := AttachDocument(ctx.documents, id, saved.value);
      PutDocumentsKeepsValid(ctx.Snapshot(), attached);
      ctx.documents := attached;
      var _ := ProposalsRepository.UpdateProposal(ctx, ctx.proposals.rows[id]);
    }
    return true;
  }

  /**
   * Submitting: KeyNotFound, storing nothing, unless the caller owns the
   * vehicle and it is active. Otherwise a "Pending" proposal is stored first;
   * a failed document upload then raises InvalidOperation with the proposal
   * left in place, and a successful one is linked to the proposal.
   */
  function SubmitOutcome(db: Db, userId: int, request: SubmitProposalRequest, saved: Option<Document>, now: DateTime)
    : (out: (Result<int>, Db))
    requires db.Valid()
    ensures out.1.Valid()
    ensures out.0 == Err(KeyNotFound) <==> !VehicleRepository.OwnsActive(db, request.vehicleId, userId)
    ensures out.0 == Err(KeyNotFound) ==> out.1 == db
    ensures out.0 == Err(InvalidOperation) <==>
      VehicleRepository.OwnsActive(db, request.vehicleId, userId) && request.hasDocument && saved.None?
    ensures out.0.Ok? <==> VehicleRepository.OwnsActive(db, request.vehicleId, userId) && !(request.hasDocument && saved.None?)
    ensures out.0.Ok? ==> out.0.value == db.proposals.next
    ensures out.0 != Err(KeyNotFound) ==>
      var id := db.proposals.next;
      && id !in db.proposals.rows
      && out.1.proposals.rows == db.proposals.rows[id := NewProposal(userId, request, now).(id := id)]
      && out.1.proposals.rows[id].status == Pending
      && out.1.proposals.rows[id].userId == userId
      && out.1.users == db.users && out.1.vehicles == db.vehicles && out.1.policies == db.policies
      && out.1.payments == db.payments && out.1.claims == db.claims
    ensures out.0.Ok? && request.hasDocument ==>
      out.1.documents == AttachDocument(db.documents, db.proposals.next, saved.value)
    ensures !(out.0.Ok? && request.hasDocument) ==> out.1.documents == db.documents
  {
    var vehicle := VehicleRepository.GetVehicleEntity(db, request.vehicleId, userId);
    if vehicle.None? || !vehicle.value.isActive then (Err(KeyNotFound), db)
    else
      var (ok, after) := RecordProposalOutcome(db, userId, request, saved, now);
      if !ok then (Err(InvalidOperation), after) else (Ok(db.proposals.next), after)
  }

  method SubmitProposal(ctx: InsuranceContext, userId: int, request: SubmitProposalRequest, saved: Option<Document>, now: DateTime)
    returns (r: Result<int>)
    requires ctx.Valid()
    modifies ctx`proposals, ctx`documents
    ensures ctx.Valid()
    ensures (r, ctx.Snapshot()) == SubmitOutcome(old(ctx.Snapshot()), userId, request, saved, now)
  {
    var vehicle := VehicleRepository.GetVehicleEntity(ctx.Snapshot(), request.vehicleId, userId);
    if vehicle.None? || !vehicle.value.isActive {
      return Err(KeyNotFound);
    }
    var proposalId := ctx.proposals.next;
    var ok := RecordProposal(ctx, userId, request, saved, now);
    if !ok {
      return Err(InvalidOperation);
    }
    return Ok(proposalId);
  }

  // ---- GetProposalsAsync -------------------------------------------------------------

  /** One line of the caller's proposal list (AllProposalResponseDto). */
  datatype ProposalSummary = ProposalSummary(
    proposalId: int,
    vehicleId: int,
    vehicleMake: string,
    vehicleModel: string,
    vehicleRegistrationNumber: string,
    requestedCoverage: real,
    status: string,
    submissionDate: DateTime,
    premiumAmount: real,
    policyType: Option<string>)

  /** The proposal's own fields, with its vehicle's id, make, model and registration. */
  function Summarize(db: Db, p: Proposal): (r: ProposalSummary)
    requires p.vehicleId in db.vehicles.rows
    ensures r.proposalId == p.id && r.status == p.status && r.submissionDate == p.submissionDate
    ensures r.requestedCoverage == p.requestedCoverage && r.premiumAmount == p.premiumAmount && r.policyType == p.policyType
    ensures var v := db.vehicles.rows[p.vehicleId];
      && r.vehicleId == v.id && r.vehicleMake == v.make && r.vehicleModel == v.model
      && r.vehicleRegistrationNumber == v.registrationNumber
  {
    var v := db.vehicles.rows[p.vehicleId];
    ProposalSummary(p.id, v.id, v.make, v.model, v.registrationNumber, p.requestedCoverage,
                    p.status, p.submissionDate, p.premiumAmount, p.policyType)
  }

  /** The summaries of `ps`, one per proposal, in the same order. */
  function SummarizeAll(db: Db, ps: seq<Proposal>): (r: seq<ProposalSummary>)
    requires forall i :: 0 <= i < |ps| ==> ps[i].vehicleId in db.vehicles.rows
    ensures |r| == |ps|
    ensures forall i :: 0 <= i < |ps| ==> r[i] == Summarize(db, ps[i])
  {
    if ps == [] then [] else [Summarize(db, ps[0])] + SummarizeAll(db, ps[1..])
  }

  /**
   * GetProposalsAsync: one summary per proposal the repository lists for the
   * caller (not cancelled, latest first), in that order.
   */
  function GetProposals(db: Db, userId: int): (r: seq<ProposalSummary>)
    requires db.Valid()
    ensures var listed := ProposalsRepository.ProposalsByUser(db, userId);
      && |r| == |listed|
      && forall i :: 0 <= i < |r| ==>
           r[i].proposalId == listed[i].id && r[i].status == listed[i].status && r[i].status != Canceled
           && r[i].submissionDate == listed[i].submissionDate && r[i].vehicleId == listed[i].vehicleId
    ensures var listed := ProposalsRepository.ProposalsByUser(db, userId);
      forall i :: 0 <= i < |r| ==> listed[i].vehicleId in db.vehicles.rows && r[i] == Summarize(db, listed[i])
  {
    var listed := ProposalsRepository.ProposalsByUser(db, userId);
    ListedProposalsHaveVehicles(db, userId, listed);
    SummarizeAll(db, listed)
  }

  /** Every proposal listed for a user has its vehicle stored and is not cancelled. */
  lemma ListedProposalsHaveVehicles(db: Db, userId: int, listed: seq<Proposal>)
    requires db.Valid() && listed == ProposalsRepository.ProposalsByUser(db, userId)
    ensures forall i :: 0 <= i < |listed| ==> listed[i].vehicleId in db.vehicles.rows && listed[i].status != Canceled
  {
    forall i | 0 <= i < |listed| ensures listed[i].vehicleId in db.vehicles.rows && listed[i].status != Canceled {
      assert listed[i] in listed;
      StoredProposalHasVehicle(db, listed[i]);
    }
  }

  // ---- GetProposalByIdAsync ------------------------------------------------------------

  datatype VehicleSummary = VehicleSummary(make: string, model: string, registrationNumber: string, vehicleType: string)

  /** ProposalDetailsResponseDto. */
  datatype ProposalDetails = ProposalDetails(
    proposalId: int,
    requestedCoverage: real,
    status: string,
    submissionDate: DateTime,
    vehicle: VehicleSummary)

  /**
   * GetProposalByIdAsync: the caller's own proposal with its vehicle; a
   * proposal that is missing or belongs to someone else is KeyNotFound.
   */
  function GetProposalDetails(db: Db, proposalId: int, userId: int): (r: Result<ProposalDetails>)
    requires db.Valid()
    ensures r.Ok? <==> ProposalsRepository.Owns(db, proposalId, userId)
    ensures r.Err? ==> r.error == KeyNotFound
    ensures r.Ok? ==>
      var p := db.proposals.rows[proposalId];
      && r.value.proposalId == proposalId
      && r.value.status == p.status && r.value.requestedCoverage == p.requestedCoverage
      && r.value.vehicle.registrationNumber == db.vehicles.rows[p.vehicleId].registrationNumber
    ensures r.Ok? ==>
      var p := db.proposals.rows[proposalId];
      var v := db.vehicles.rows[p.vehicleId];
      && r.value.submissionDate == p.submissionDate
      && r.value.vehicle.make == v.make && r.value.vehicle.model == v.model && r.value.vehicle.vehicleType == v.vehicleType
  {
    match ProposalsRepository.GetProposalByIdForUser(db, proposalId, userId)
    case Err(e) => Err(e)
    case Ok(p) =>
      var v := db.vehicles.rows[p.vehicleId];
      Ok(ProposalDetails(p.id, p.requestedCoverage, p.status, p.submissionDate,
                         VehicleSummary(v.make, v.model, v.registrationNumber, v.vehicleType)))
  }

  // ---- CancelProposalAsync ---------------------------------------------------------------

  /**
   * Cancelling through the service: the repository's "not yours or missing"
   * answer becomes KeyNotFound; its InvalidOperation for a proposal that is
   * not pending passes through.
   */
  function CancelOutcome(db: Db, proposalId: int, userId: int, now: DateTime): (out: (Result<bool>, Db))
    requires db.Valid()
    ensures out.1.Valid()
    ensures out.0 == Err(KeyNotFound) <==> !ProposalsRepository.Owns(db, proposalId, userId)
    ensures out.0 == Err(InvalidOperation) <==>
      ProposalsRepository.Owns(db, proposalId, userId) && db.proposals.rows[proposalId].status != Pending
    ensures out.0.Ok? <==>
      ProposalsRepository.Owns(db, proposalId, userId) && db.proposals.rows[proposalId].status == Pending
    ensures out.0.Ok? ==> out.0.value
    ensures out.1 == ProposalsRepository.CancelOutcome(db, proposalId, userId, now).1
  {
    var (r, db') := ProposalsRepository.CancelOutcome(db, proposalId, userId, now);
    match r
    case Err(e) => (Err(e), db')
    case Ok(success) => if !success then (Err(KeyNotFound), db') else (Ok(success), db')
  }

  method CancelProposal(ctx: InsuranceContext, proposalId: int, userId: int, now: DateTime) returns (r: Result<bool>)
    requires ctx.Valid()
    modifies ctx`proposals
    ensures ctx.Valid()
    ensures (r, ctx.Snapshot()) == CancelOutcome(old(ctx.Snapshot()), proposalId, userId, now)
  {
    var answer := ProposalsRepository.CancelProposal(ctx, proposalId, userId, now);
    if answer.Err? {
      return Err(answer.error);
    }
    if !answer.value {
      return Err(KeyNotFound);
    }
    return Ok(true);
  }
}

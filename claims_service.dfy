/**
 * SecureMiles.Services/Claims/ClaimsService.cs: filing a claim on one of the
 * caller's active policies, listing and showing the caller's claims, the
 * administrator-only review operations, and deleting a claim.
 */
module ClaimsService {
  import opened Errors
  import opened Calendar
  import opened Tables
  import opened Entities
  import opened Store
  import PolicyRepository
  import ClaimsRepository

  // ---- FileClaimAsync ----------------------------------------------------------------

  /**
   * The claim form. `description` is None where it is null; `claimAmount`
   * is the parsed amount, None where the text is null or empty;
   * `hasDocument` says whether a file was attached, and the document
   * service's reply is passed to the operations below as `saved`.
   */
  datatype FileClaimRequest = FileClaimRequest(
    policyId: int,
    incidentDate: DateTime,
    description: Option<string>,
    claimAmount: Option<real>,
    hasDocument: bool)

  /** FileClaimResponseDto: the new claim's id and the terms of its policy. */
  datatype FileClaimResponse = FileClaimResponse(claimId: int, policyType: string, coverageAmount: real, premiumAmount: real)

  /** The claim a filing creates, before it receives its identity. */
  function NewClaim(request: FileClaimRequest, now: DateTime): Claim {
    Claim(0, request.policyId, Pending, request.incidentDate,
          if request.description.Some? then request.description.value else "",
          request.claimAmount, None, now, Some(now))
  }

  /** Linking the uploaded document to the claim and saving it: inserted when its key is not yet stored. */
  function AttachClaimDocument(documents: Table<Document>, claimId: int, d: Document): (t: Table<Document>)
    requires Keyed(documents, DocumentKey)
    ensures Keyed(t, DocumentKey)
    ensures var k := SaveKey(documents, d.id);
      && t.rows == documents.rows[k := d.(id := k, claimId := Some(claimId))]
      && t.next == (if d.id in documents.rows then documents.next else documents.next + 1)
    ensures forall k :: k in documents.rows && k != d.id ==> k in t.rows && t.rows[k] == documents.rows[k]
  {
    SaveDocument(documents, d.(claimId := Some(claimId)))
  }

  /** The guards of a filing pass: the caller's own policy, "Active", and an incident not in the future. */
  predicate MayFile(db: Db, userId: int, request: FileClaimRequest, now: DateTime) {
    && PolicyRepository.Owns(db, request.policyId, userId)
    && db.policies.rows[request.policyId].status == Active
    && !Before(now, request.incidentDate)
  }

  /**
   * The writes of a filing that passed its guards: the claim is stored with
   * the next id, then an attached upload is linked to it. False when the
   * upload failed, in which case the claim stays stored and no document is.
   */
  function RecordClaimOutcome(db: Db, request: FileClaimRequest, saved: Option<Document>, now: DateTime)
    : (out: (bool, Db))
    requires db.Valid() && request.policyId in db.policies.rows
    ensures out.1.Valid()
    ensures out.0 <==> !(request.hasDocument && saved.None?)
    ensures var id := db.claims.next;
      && id !in db.claims.rows
      && out.1.claims.rows == db.claims.rows[id := NewClaim(request, now).(id := id)]
      && out.1 == db.(claims := out.1.claims, documents := out.1.documents)
    ensures out.0 && request.hasDocument ==>
      out.1.documents == AttachClaimDocument(db.documents, db.claims.next, saved.value)
    ensures !(out.0 && request.hasDocument) ==> out.1.documents == db.documents
  {
    var (id, db1) := ClaimsRepository.AddClaimOutcome(db, NewClaim(request, now));
    if !request.hasDocument then (true, db1)
    else if saved.None? then (false, db1)
    else
      var attached := AttachClaimDocument(db1.documents, id, saved.value);
      PutDocumentsKeepsValid(db1, attached);
      var db2 := db1.(documents := attached);
      var (_, db3) := ClaimsRepository.UpdateClaimOutcome(db2, db2.claims.rows[id]);
      assert db3 == db2;
      (true, db3)
  }

  method RecordClaim(ctx: InsuranceContext, request: FileClaimRequest, saved: Option<Document>, now: DateTime)
    returns (ok: bool)
    requires ctx.Valid() && request.policyId in ctx.policies.rows
    modifies ctx`claims, ctx`documents
    ensures ctx.Valid()
    ensures (ok, ctx.Snapshot()) == RecordClaimOutcome(old(ctx.Snapshot()), request, saved, now)
  {
    var id := ClaimsRepository.AddClaim(ctx, NewClaim(request, now));
    if request.hasDocument {
      if saved.None? {
        return false;
      }
      var attached := AttachClaimDocument(ctx.documents, id, saved.value);
      PutDocumentsKeepsValid(ctx.Snapshot(), attached);
      ctx.documents := attached;
      var _ := ClaimsRepository.UpdateClaim(ctx, ctx.claims.rows[id]);
    }
    return true;
  }

  /**
   * Filing: KeyNotFound unless the caller owns the policy; InvalidOperation
   * unless it is "Active", and then InvalidOperation when the incident lies
   * after `now` (an incident at `now` is accepted); none of these stores
   * anything. Otherwise a "Pending" claim is stored first; a failed document
   * upload then raises InvalidOperation with the claim left in place, and a
   * successful one is linked to the claim.
   */
  function FileOutcome(db: Db, userId: int, request: FileClaimRequest, saved: Option<Document>, now: DateTime)
    : (out: (Result<FileClaimResponse>, Db))
    requires db.Valid()
    ensures out.1.Valid()
    ensures out.0 == Err(KeyNotFound) <==> !PolicyRepository.Owns(db, request.policyId, userId)
    ensures PolicyRepository.Owns(db, request.policyId, userId) && db.policies.rows[request.policyId].status != Active ==>
      out == (Err(InvalidOperation), db)
    ensures (PolicyRepository.Owns(db, request.policyId, userId) && db.policies.rows[request.policyId].status == Active
             && Before(now, request.incidentDate)) ==> out == (Err(InvalidOperation), db)
    ensures out.0.Ok? <==> MayFile(db, userId, request, now) && !(request.hasDocument && saved.None?)
    ensures out.1 == db <==> !MayFile(db, userId, request, now)
    ensures MayFile(db, userId, request, now) ==>
      var id := db.claims.next;
      && id !in db.claims.rows
      && out.1.claims.rows == db.claims.rows[id := NewClaim(request, now).(id := id)]
      && out.1.policies == db.policies && out.1.proposals == db.proposals && out.1.payments == db.payments
      && out.1.users == db.users && out.1.vehicles == db.vehicles
      && (out.0.Err? <==> request.hasDocument && saved.None?)
    ensures out.0.Ok? ==>
      var p := db.policies.rows[request.policyId];
      out.0.value == FileClaimResponse(db.claims.next, p.policyType, p.coverageAmount, p.premiumAmount)
    ensures out.0.Ok? && request.hasDocument ==>
      out.1.documents == AttachClaimDocument(db.documents, db.claims.next, saved.value)
    ensures !(out.0.Ok? && request.hasDocument) ==> out.1.documents == db.documents
  {
    var policy := PolicyRepository.GetPolicyById(db, request.policyId, userId);
    if policy.None? || policy.value.userId != userId then (Err(KeyNotFound), db)
    else if policy.value.status != Active then (Err(InvalidOperation), db)
    else if Before(now, request.incidentDate) then (Err(InvalidOperation), db)
    else
      var (ok, after) := RecordClaimOutcome(db, request, saved, now);
      if !ok then (Err(InvalidOperation), after)
      else (Ok(FileClaimResponse(db.claims.next, policy.value.policyType, policy.value.coverageAmount,
                                 policy.value.premiumAmount)), after)
  }

  method FileClaim(ctx: InsuranceContext, userId: int, request: FileClaimRequest, saved: Option<Document>, now: DateTime)
    returns (r: Result<FileClaimResponse>)
    requires ctx.Valid()
    modifies ctx`claims, ctx`documents
    ensures ctx.Valid()
    ensures (r, ctx.Snapshot()) == FileOutcome(old(ctx.Snapshot()), userId, request, saved, now)
  {
    var policy := PolicyRepository.GetPolicyById(ctx.Snapshot(), request.policyId, userId);
    if policy.None? || policy.value.userId != userId {
      return Err(KeyNotFound);
    }
    if policy.value.status != Active {
      return Err(InvalidOperation);
    }
    if Before(now, request.incidentDate) {
      return Err(InvalidOperation);
    }
    var claimId := ctx.claims.next;
    var ok := RecordClaim(ctx, request, saved, now);
    if !ok {
      return Err(InvalidOperation);
    }
    return Ok(FileClaimResponse(claimId, policy.value.policyType, policy.value.coverageAmount, policy.value.premiumAmount));
  }

  /**
   * A filed claim is "Pending", on the requested policy, with an empty
   * description when none was given, and it is listed for the caller.
   */
  lemma FiledClaimIsListed(db: Db, userId: int, request: FileClaimRequest, saved: Option<Document>, now: DateTime)
    requires db.Valid() && MayFile(db, userId, request, now)
    ensures var after := FileOutcome(db, userId, request, saved, now).1;
      var c := after.claims.rows[db.claims.next];
      && c.status == Pending && c.policyId == request.policyId
      && (request.description.None? ==> c.description == "")
      && c in ClaimsRepository.ClaimsByUser(after, userId)
  {
    var after := FileOutcome(db, userId, request, saved, now).1;
    assert after.claims.rows[db.claims.next].policyId == request.policyId;
  }

  /** An incident dated exactly `now` is accepted on an active policy of the caller's. */
  lemma IncidentNowIsAccepted(db: Db, userId: int, request: FileClaimRequest, now: DateTime)
    requires db.Valid() && PolicyRepository.Owns(db, request.policyId, userId)
    requires db.policies.rows[request.policyId].status == Active && request.incidentDate == now
    ensures FileOutcome(db, userId, request, None, now).0.Ok? <==> !request.hasDocument
  {
  }

  // ---- GetClaimsAsync / GetClaimByIdAsync --------------------------------------------

  /** DocumentResponseDto. */
  datatype DocumentSummary = DocumentSummary(documentId: int, docType: string, filePath: string)

  /** The policy terms shown with a claim (PolicyDetailsDto). */
  datatype PolicyTerms = PolicyTerms(policyId: int, policyType: string, coverageAmount: real, premiumAmount: real,
                                     startDate: DateTime, endDate: DateTime)

  /** ClaimResponseDto. */
  datatype ClaimSummary = ClaimSummary(
    claimId: int,
    policyId: int,
    incidentDate: DateTime,
    description: string,
    status: string,
    claimAmount: Option<real>,
    approvalDate: Option<DateTime>,
    createdAt: DateTime,
    updatedAt: Option<DateTime>,
    policy: PolicyTerms,
    documents: seq<DocumentSummary>)

  function SummarizeDocuments(ds: seq<Document>): (r: seq<DocumentSummary>)
    ensures |r| == |ds|
    ensures forall i :: 0 <= i < |ds| ==> r[i] == DocumentSummary(ds[i].id, ds[i].docType, ds[i].filePath)
  {
    if ds == [] then [] else [DocumentSummary(ds[0].id, ds[0].docType, ds[0].filePath)] + SummarizeDocuments(ds[1..])
  }

  /** The documents stored for the claim. */
  function ClaimDocuments(db: Db, claimId: int): (r: seq<Document>)
    requires Keyed(db.documents, DocumentKey)
    ensures forall d :: d in r <==> Stored(db.documents, d) && d.claimId == Some(claimId)
    ensures Distinct(r)
  {
    WhereIsDistinct(db.documents, ClaimsRepository.DocumentsOf(claimId), DocumentKey);
    Where(db.documents, ClaimsRepository.DocumentsOf(claimId))
  }

  /** ClaimResponseDto for `c`: its own fields, its policy's terms and its documents. */
  function Summarize(db: Db, c: Claim): (r: ClaimSummary)
    requires Keyed(db.documents, DocumentKey) && Keyed(db.policies, PolicyKey) && c.policyId in db.policies.rows
    ensures r.claimId == c.id && r.policyId == c.policyId && r.incidentDate == c.incidentDate
    ensures r.description == c.description && r.status == c.status
    ensures r.claimAmount == c.claimAmount && r.approvalDate == c.approvalDate
    ensures r.createdAt == c.createdAt && r.updatedAt == c.updatedAt
    ensures var p := db.policies.rows[c.policyId];
      && r.policy.policyId == c.policyId && r.policy.policyType == p.policyType
      && r.policy.coverageAmount == p.coverageAmount && r.policy.premiumAmount == p.premiumAmount
      && r.policy.startDate == p.startDate && r.policy.endDate == p.endDate
    ensures r.documents == SummarizeDocuments(ClaimDocuments(db, c.id))
  {
    var p := db.policies.rows[c.policyId];
    ClaimSummary(c.id, c.policyId, c.incidentDate, c.description, c.status, c.claimAmount, c.approvalDate,
                 c.createdAt, c.updatedAt,
                 PolicyTerms(p.id, p.policyType, p.coverageAmount, p.premiumAmount, p.startDate, p.endDate),
                 SummarizeDocuments(ClaimDocuments(db, c.id)))
  }

  /** The summaries of `cs`, one per claim, in the same order. */
  function SummarizeAll(db: Db, cs: seq<Claim>): (r: seq<ClaimSummary>)
    requires Keyed(db.documents, DocumentKey) && Keyed(db.policies, PolicyKey)
    requires forall i :: 0 <= i < |cs| ==> cs[i].policyId in db.policies.rows
    ensures |r| == |cs|
    ensures forall i :: 0 <= i < |cs| ==> r[i] == Summarize(db, cs[i])
  {
    if cs == [] then [] else [Summarize(db, cs[0])] + SummarizeAll(db, cs[1..])
  }

  /** Every claim listed for the user is on a stored policy of the user's. */
  lemma ListedClaimsAreOwned(db: Db, userId: int)
    requires db.Valid()
    ensures var listed := ClaimsRepository.ClaimsByUser(db, userId);
      forall i :: 0 <= i < |listed| ==> ClaimsRepository.ClaimOwnedBy(db, listed[i], userId)
  {
    var listed := ClaimsRepository.ClaimsByUser(db, userId);
    forall i | 0 <= i < |listed| ensures ClaimsRepository.ClaimOwnedBy(db, listed[i], userId) {
      assert listed[i] in listed;
    }
  }

  /** GetClaimsAsync: one summary per claim the repository lists for the caller, in that order. */
  function GetClaims(db: Db, userId: int): (r: seq<ClaimSummary>)
    requires db.Valid()
    ensures |r| == |ClaimsRepository.ClaimsByUser(db, userId)|
    ensures var listed := ClaimsRepository.ClaimsByUser(db, userId);
      forall i :: 0 <= i < |r| ==> r[i].claimId == listed[i].id && r[i].status == listed[i].status
    ensures var listed := ClaimsRepository.ClaimsByUser(db, userId);
      forall i :: 0 <= i < |r| ==> r[i].policy.policyId == listed[i].policyId
    ensures var listed := ClaimsRepository.ClaimsByUser(db, userId);
      forall i :: 0 <= i < |r| ==> ClaimsRepository.ClaimOwnedBy(db, listed[i], userId)
    ensures var listed := ClaimsRepository.ClaimsByUser(db, userId);
      forall i :: 0 <= i < |r| ==> listed[i].policyId in db.policies.rows && r[i] == Summarize(db, listed[i])
  {
    var listed := ClaimsRepository.ClaimsByUser(db, userId);
    ListedClaimsAreOwned(db, userId);
    var r := SummarizeAll(db, listed);
    assert forall i :: 0 <= i < |r| ==>
      r[i].claimId == listed[i].id && r[i].status == listed[i].status && r[i].policy.policyId == listed[i].policyId by {
      forall i | 0 <= i < |r|
        ensures r[i].claimId == listed[i].id && r[i].status == listed[i].status && r[i].policy.policyId == listed[i].policyId
      {
        var s := Summarize(db, listed[i]);
        assert r[i] == s;
      }
    }
    r
  }

  /** ClaimVehicleDto: the vehicle of the claim's policy. */
  datatype ClaimVehicle = ClaimVehicle(vehicleId: int, registrationNumber: string, model: string, year: int,
                                       fuelType: string, chassisNumber: string, engineNumber: string)

  /**
   * ClaimDetailsResponseDto. Its documents (DocumentDetailsDto) carry the
   * same three fields as DocumentResponseDto. The policy and the vehicle are
   * always present: a stored claim's policy and that policy's vehicle are
   * stored, so the eager loads never come back empty.
   */
  datatype ClaimDetails = ClaimDetails(
    claimId: int,
    policyId: int,
    incidentDate: DateTime,
    description: string,
    status: string,
    claimAmount: Option<real>,
    approvalDate: Option<DateTime>,
    createdAt: DateTime,
    updatedAt: Option<DateTime>,
    policy: PolicyTerms,
    documents: seq<DocumentSummary>,
    vehicle: ClaimVehicle)

  /** `default(DateTime)`: 0001-01-01 at midnight, the value of a DateTime field nobody assigns. */
  const DefaultDate: DateTime := DateTimeParts(1, 1, 1, 0)

  /** No representable DateTime is earlier than the default one. */
  lemma NothingBeforeDefault(d: DateTime)
    ensures !Before(d, DefaultDate)
  {
  }

  /** The detail reply for a claim `c` on a stored policy, showing `endDate` as the policy's end date. */
  function Details(db: Db, c: Claim, endDate: DateTime): (r: ClaimDetails)
    requires db.Valid() && c.policyId in db.policies.rows
    ensures r.claimId == c.id && r.policyId == c.policyId && r.incidentDate == c.incidentDate
    ensures r.description == c.description && r.status == c.status
    ensures r.claimAmount == c.claimAmount && r.approvalDate == c.approvalDate
    ensures r.createdAt == c.createdAt && r.updatedAt == c.updatedAt
    ensures var p := db.policies.rows[c.policyId];
      && r.policy.policyId == c.policyId && r.policy.policyType == p.policyType
      && r.policy.coverageAmount == p.coverageAmount && r.policy.premiumAmount == p.premiumAmount
      && r.policy.startDate == p.startDate && r.policy.endDate == endDate
    ensures r.documents == SummarizeDocuments(ClaimDocuments(db, c.id))
    ensures var v := db.vehicles.rows[db.policies.rows[c.policyId].vehicleId];
      && r.vehicle.vehicleId == v.id && r.vehicle.registrationNumber == v.registrationNumber
      && r.vehicle.model == v.model && r.vehicle.year == v.year && r.vehicle.fuelType == v.fuelType
      && r.vehicle.chassisNumber == v.chassisNumber && r.vehicle.engineNumber == v.engineNumber
  {
    var p := db.policies.rows[c.policyId];
    var v := db.vehicles.rows[p.vehicleId];
    ClaimDetails(c.id, c.policyId, c.incidentDate, c.description, c.status, c.claimAmount, c.approvalDate,
                 c.createdAt, c.updatedAt,
                 PolicyTerms(p.id, p.policyType, p.coverageAmount, p.premiumAmount, p.startDate, endDate),
                 SummarizeDocuments(ClaimDocuments(db, c.id)),
                 ClaimVehicle(v.id, v.registrationNumber, v.model, v.year, v.fuelType, v.chassisNumber, v.engineNumber))
  }

  /**
   * GetClaimByIdAsync as written: the caller's claim with its policy, its
   * documents and its policy's vehicle, otherwise KeyNotFound. The policy
   * block never assigns PolicyEndDate, so it shows the default date.
   */
  function GetClaimDetailsAsWritten(db: Db, claimId: int, userId: int): (r: Result<ClaimDetails>)
    requires db.Valid()
    ensures r.Ok? <==> claimId in db.claims.rows && ClaimsRepository.ClaimOwnedBy(db, db.claims.rows[claimId], userId)
    ensures r.Err? ==> r.error == KeyNotFound
    ensures r.Ok? ==> r.value == Details(db, db.claims.rows[claimId], DefaultDate)
  {
    match ClaimsRepository.GetClaimByIdForUser(db, claimId, userId)
    case None => Err(KeyNotFound)
    case Some(c) => Ok(Details(db, c, DefaultDate))
  }

  /**
   * As written, the detail reply never shows the policy's end date whenever
   * that policy ends after it starts, which creating and renewing a policy
   * both ensure.
   */
  lemma DetailsLoseEndDate(db: Db, claimId: int, userId: int)
    requires db.Valid()
    requires claimId in db.claims.rows && ClaimsRepository.ClaimOwnedBy(db, db.claims.rows[claimId], userId)
    requires var p := db.policies.rows[db.claims.rows[claimId].policyId]; Before(p.startDate, p.endDate)
    ensures var r := GetClaimDetailsAsWritten(db, claimId, userId);
      r.Ok? && r.value.policy.endDate != db.policies.rows[db.claims.rows[claimId].policyId].endDate
  {
    var p := db.policies.rows[db.claims.rows[claimId].policyId];
    NothingBeforeDefault(p.startDate);
  }

  /** GetClaimByIdAsync as intended: the detail reply shows the policy's own end date. */
  function GetClaimDetails(db: Db, claimId: int, userId: int): (r: Result<ClaimDetails>)
    requires db.Valid()
    ensures r.Ok? <==> claimId in db.claims.rows && ClaimsRepository.ClaimOwnedBy(db, db.claims.rows[claimId], userId)
    ensures r.Err? ==> r.error == KeyNotFound
    ensures r.Ok? ==>
      var c := db.claims.rows[claimId];
      r.value == Details(db, c, db.policies.rows[c.policyId].endDate)
  {
    match ClaimsRepository.GetClaimByIdForUser(db, claimId, userId)
    case None => Err(KeyNotFound)
    case Some(c) => Ok(Details(db, c, db.policies.rows[c.policyId].endDate))
  }

  /**
   * The intended detail reply shows the same claim fields, policy terms and
   * documents as the claim's entry in the caller's list.
   */
  lemma DetailsAgreeWithList(db: Db, claimId: int, userId: int)
    requires db.Valid()
    requires claimId in db.claims.rows && ClaimsRepository.ClaimOwnedBy(db, db.claims.rows[claimId], userId)
    ensures var r := GetClaimDetails(db, claimId, userId);
      var s := Summarize(db, db.claims.rows[claimId]);
      && r.Ok? && r.value.policy == s.policy && r.value.documents == s.documents
      && r.value.claimId == s.claimId && r.value.status == s.status && r.value.claimAmount == s.claimAmount
      && r.value.createdAt == s.createdAt && r.value.updatedAt == s.updatedAt
  {
  }

  // ---- UpdateClaimAsync / ApproveClaimAsync ------------------------------------------

  /**
   * The row the UpdateClaimInformation or ApproveClaim stored procedure
   * returns, if any; what the procedure writes is not visible and is not
   * modelled.
   */
  datatype ProcedureReply = ProcedureReply(claimId: int, policyId: int, status: string)

  /**
   * UpdateClaimAsync: only an administrator may set the status (otherwise
   * UnauthorizedAccess, before the procedure runs); a procedure that returns
   * no row is KeyNotFound.
   */
  function UpdateClaimGuard(isAdmin: bool, status: Option<string>, reply: Option<ProcedureReply>): (r: Result<ProcedureReply>)
    ensures r == Err(UnauthorizedAccess) <==> !isAdmin && status.Some?
    ensures r == Err(KeyNotFound) <==> (isAdmin || status.None?) && reply.None?
    ensures r.Ok? <==> (isAdmin || status.None?) && reply.Some?
    ensures r.Ok? ==> reply == Some(r.value)
  {
    if !isAdmin && status.Some? then Err(UnauthorizedAccess)
    else if reply.None? then Err(KeyNotFound)
    else Ok(reply.value)
  }

  /** ApproveClaimAsync: administrators only; a procedure that returns no row is KeyNotFound. */
  function ApproveClaimGuard(isAdmin: bool, reply: Option<ProcedureReply>): (r: Result<ProcedureReply>)
    ensures r == Err(UnauthorizedAccess) <==> !isAdmin
    ensures r == Err(KeyNotFound) <==> isAdmin && reply.None?
    ensures r.Ok? <==> isAdmin && reply.Some?
    ensures r.Ok? ==> reply == Some(r.value)
  {
    if !isAdmin then Err(UnauthorizedAccess)
    else if reply.None? then Err(KeyNotFound)
    else Ok(reply.value)
  }

  // ---- RejectClaimAsync --------------------------------------------------------------

  /** RejectClaimResponseDto. */
  datatype RejectClaimResponse = RejectClaimResponse(claimId: int, policyId: int, status: string, notes: string)

  /**
   * Rejecting through the service: UnauthorizedAccess for a caller who is not
   * an administrator and ArgumentNull for missing notes, changing nothing;
   * then the repository's rejection, whose reply reports the notes as the
   * claim's new description.
   */
  function RejectOutcome(db: Db, claimId: int, notes: Option<string>, isAdmin: bool, now: DateTime)
    : (out: (Result<RejectClaimResponse>, Db))
    requires db.Valid()
    ensures out.1.Valid()
    ensures out.0 == Err(UnauthorizedAccess) <==> !isAdmin
    ensures out.0 == Err(ArgumentNull) <==> isAdmin && notes.None?
    ensures !isAdmin || notes.None? ==> out.1 == db
    ensures isAdmin && notes.Some? ==> out.1 == ClaimsRepository.RejectClaimOutcome(db, claimId, notes, now).1
    ensures out.0 == Err(KeyNotFound) <==> isAdmin && notes.Some? && claimId !in db.claims.rows
    ensures out.0 == Err(InvalidOperation) <==>
      isAdmin && notes.Some? && claimId in db.claims.rows && !ClaimsRepository.Open(db.claims.rows[claimId])
    ensures out.0.Ok? <==>
      isAdmin && notes.Some? && claimId in db.claims.rows && ClaimsRepository.Open(db.claims.rows[claimId])
    ensures out.0.Ok? ==> claimId in out.1.claims.rows
    ensures out.0.Ok? ==>
      && out.0.value.notes == notes.value
      && out.0.value.status == Rejected
      && out.1.claims.rows[claimId].description == out.0.value.notes
  {
    if !isAdmin then (Err(UnauthorizedAccess), db)
    else if notes.None? then (Err(ArgumentNull), db)
    else
      var (r, db') := ClaimsRepository.RejectClaimOutcome(db, claimId, notes, now);
      match r
      case Err(e) => (Err(e), db')
      case Ok(c) => (Ok(RejectClaimResponse(c.id, c.policyId, c.status, c.description)), db')
  }

  method RejectClaim(ctx: InsuranceContext, claimId: int, notes: Option<string>, isAdmin: bool, now: DateTime)
    returns (r: Result<RejectClaimResponse>)
    requires ctx.Valid()
    modifies ctx`claims
    ensures ctx.Valid()
    ensures (r, ctx.Snapshot()) == RejectOutcome(old(ctx.Snapshot()), claimId, notes, isAdmin, now)
  {
    if !isAdmin {
      return Err(UnauthorizedAccess);
    }
    if notes.None? {
      return Err(ArgumentNull);
    }
    var rejected := ClaimsRepository.RejectClaim(ctx, claimId, notes, now);
    if rejected.Err? {
      return Err(rejected.error);
    }
    var c := rejected.value;
    return Ok(RejectClaimResponse(c.id, c.policyId, c.status, c.description));
  }

  // ---- DeleteClaimAsync --------------------------------------------------------------

  /** DeleteClaimResponseDto. */
  datatype DeleteClaimResponse = DeleteClaimResponse(claimId: int, status: string)

  /**
   * Deleting through the service: KeyNotFound, changing nothing, unless the
   * claim is on one of the caller's policies, whatever its status; then the
   * repository's delete, which refuses a claim that is not "Pending" or
   * "UnderReview".
   */
  function DeleteOutcome(db: Db, claimId: int, userId: int): (out: (Result<DeleteClaimResponse>, Db))
    requires db.Valid()
    ensures out.1.Valid()
    ensures out.0.Err? ==> out.1 == db
    ensures out.0 == Err(KeyNotFound) <==>
      !(claimId in db.claims.rows && ClaimsRepository.ClaimOwnedBy(db, db.claims.rows[claimId], userId))
    ensures out.0 == Err(InvalidOperation) <==>
      claimId in db.claims.rows && ClaimsRepository.ClaimOwnedBy(db, db.claims.rows[claimId], userId)
      && !ClaimsRepository.Open(db.claims.rows[claimId])
    ensures out.0.Ok? <==>
      claimId in db.claims.rows && ClaimsRepository.ClaimOwnedBy(db, db.claims.rows[claimId], userId)
      && ClaimsRepository.Open(db.claims.rows[claimId])
    ensures out.0.Ok? ==>
      && out.0.value == DeleteClaimResponse(claimId, db.claims.rows[claimId].status)
      && out.1 == ClaimsRepository.DeleteClaimOutcome(db, claimId).1
  {
    if ClaimsRepository.GetClaimByIdForUser(db, claimId, userId).None? then (Err(KeyNotFound), db)
    else
      var (r, db') := ClaimsRepository.DeleteClaimOutcome(db, claimId);
      match r
      case Err(e) => (Err(e), db')
      case Ok(c) => (Ok(DeleteClaimResponse(c.id, c.status)), db')
  }

  method DeleteClaim(ctx: InsuranceContext, claimId: int, userId: int) returns (r: Result<DeleteClaimResponse>)
    requires ctx.Valid()
    modifies ctx`claims, ctx`documents
    ensures ctx.Valid()
    ensures (r, ctx.Snapshot()) == DeleteOutcome(old(ctx.Snapshot()), claimId, userId)
  {
    var claim := ClaimsRepository.GetClaimByIdForUser(ctx.Snapshot(), claimId, userId);
    if claim.None? {
      return Err(KeyNotFound);
    }
    var deleted := ClaimsRepository.DeleteClaim(ctx, claimId);
    if deleted.Err? {
      return Err(deleted.error);
    }
    return Ok(DeleteClaimResponse(deleted.value.id, deleted.value.status));
  }
}

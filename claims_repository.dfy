/**
 * SecureMiles.Repositories/Claims/ClaimsRepository.cs: storing claims, the
 * owner queries (a claim is owned through its policy), rejecting and
 * deleting a claim. The two stored-procedure calls (UpdateClaimInformation,
 * ApproveClaim) are not part of this module: their SQL is not visible.
 */
module ClaimsRepository {
  import opened Errors
  import opened Calendar
  import opened Tables
  import opened Entities
  import opened Store

  /** The claim belongs to the user: its policy is the user's. */
  predicate ClaimOwnedBy(db: Db, c: Claim, userId: int) {
    c.policyId in db.policies.rows && db.policies.rows[c.policyId].userId == userId
  }

  /** A claim in one of the two states from which it may still be rejected or deleted. */
  predicate Open(c: Claim) {
    c.status == Pending || c.status == UnderReview
  }

  // ---- AddClaimAsync ---------------------------------------------------------------

  /** The database after storing `c`, and the identity it received. */
  function AddClaimOutcome(db: Db, c: Claim): (out: (int, Db))
    requires db.Valid() && c.policyId in db.policies.rows
    ensures out.1.Valid()
    ensures out.0 !in db.claims.rows
    ensures out.1.claims.rows == db.claims.rows[out.0 := c.(id := out.0)]
    ensures out.1 == db.(claims := out.1.claims)
  {
    var id := db.claims.next;
    AddClaimKeepsValid(db, c.(id := id));
    (id, db.(claims := Add(db.claims, c.(id := id))))
  }

  method AddClaim(ctx: InsuranceContext, c: Claim) returns (id: int)
    requires ctx.Valid() && c.policyId in ctx.policies.rows
    modifies ctx`claims
    ensures ctx.Valid()
    ensures (id, ctx.Snapshot()) == AddClaimOutcome(old(ctx.Snapshot()), c)
  {
    id := ctx.claims.next;
    AddClaimKeepsValid(ctx.Snapshot(), c.(id := id));
    ctx.claims := Add(ctx.claims, c.(id := id));
  }

  // ---- queries ---------------------------------------------------------------------

  /** GetClaimsByUserIdAsync: exactly the claims on the user's policies, most recently created first. */
  function ClaimsByUser(db: Db, userId: int): (r: seq<Claim>)
    requires db.Valid()
    ensures forall c :: c in r <==> Stored(db.claims, c) && ClaimOwnedBy(db, c, userId)
    ensures forall i, j :: 0 <= i < j < |r| ==> Rank(r[i].createdAt) >= Rank(r[j].createdAt)
    ensures Distinct(r)
  {
    var keep := (c: Claim) => ClaimOwnedBy(db, c, userId);
    WhereIsDistinct(db.claims, keep, ClaimKey);
    var mine := Where(db.claims, keep);
    var key := (c: Claim) => Rank(c.createdAt);
    SortByDescendingKeepsDistinct(mine, key);
    SortByDescending(mine, key)
  }

  /** GetClaimByIdAsync(claim, user): the claim only when it is on one of the user's policies. */
  function GetClaimByIdForUser(db: Db, claimId: int, userId: int): (r: Option<Claim>)
    requires db.Valid()
    ensures r.Some? <==> claimId in db.claims.rows && ClaimOwnedBy(db, db.claims.rows[claimId], userId)
    ensures r.Some? ==> r.value == db.claims.rows[claimId]
  {
    FirstWhere(db.claims, (c: Claim) => c.id == claimId && ClaimOwnedBy(db, c, userId))
  }

  /** GetClaimByIdAsync(claim): the owner of the claim's policy, or KeyNotFound. */
  function GetClaimOwner(db: Db, claimId: int): (r: Result<int>)
    requires db.Valid()
    ensures r.Ok? <==> claimId in db.claims.rows
    ensures r.Ok? ==> ClaimOwnedBy(db, db.claims.rows[claimId], r.value)
    ensures r.Err? ==> r.error == KeyNotFound
  {
    match FirstWhere(db.claims, ClaimWithId(claimId))
    case None => Err(KeyNotFound)
    case Some(c) =>
      assert c == db.claims.rows[claimId];
      Ok(db.policies.rows[c.policyId].userId)
  }

  /** The owner reported for a claim is the one user for whom the claim is visible. */
  lemma OwnerSeesClaim(db: Db, claimId: int, userId: int)
    requires db.Valid() && claimId in db.claims.rows
    ensures GetClaimByIdForUser(db, claimId, userId).Some? <==> GetClaimOwner(db, claimId) == Ok(userId)
  {
  }

  // ---- RejectClaimAsync ------------------------------------------------------------

  /** The text a rejection leaves as the claim's description. */
  function RejectionNotes(notes: Option<string>): string {
    if notes.Some? then notes.value else "Claim rejected."
  }

  /**
   * Rejecting: KeyNotFound for an unknown claim; InvalidOperation, changing
   * nothing, unless it is "Pending" or "UnderReview"; otherwise the claim is
   * "Rejected" at `now` with the notes as its description, every other field
   * kept.
   */
  function RejectClaimOutcome(db: Db, claimId: int, notes: Option<string>, now: DateTime): (out: (Result<Claim>, Db))
    requires db.Valid()
    ensures out.1.Valid()
    ensures out.0.Err? ==> out.1 == db
    ensures out.0 == Err(KeyNotFound) <==> claimId !in db.claims.rows
    ensures out.0 == Err(InvalidOperation) <==> claimId in db.claims.rows && !Open(db.claims.rows[claimId])
    ensures out.0.Ok? <==> claimId in db.claims.rows && Open(db.claims.rows[claimId])
    ensures out.0.Ok? ==>
      var c := db.claims.rows[claimId];
      && out.0.value == c.(status := Rejected, updatedAt := Some(now), description := RejectionNotes(notes))
      && out.1 == db.(claims := Put(db.claims, claimId, out.0.value))
  {
    match FirstWhere(db.claims, ClaimWithId(claimId))
    case None => (Err(KeyNotFound), db)
    case Some(c) =>
      if c.status != Pending && c.status != UnderReview then (Err(InvalidOperation), db)
      else
        var rejected := c.(status := Rejected, updatedAt := Some(now), description := RejectionNotes(notes));
        PutClaimKeepsValid(db, claimId, rejected);
        (Ok(rejected), db.(claims := Put(db.claims, claimId, rejected)))
  }

  method RejectClaim(ctx: InsuranceContext, claimId: int, notes: Option<string>, now: DateTime) returns (r: Result<Claim>)
    requires ctx.Valid()
    modifies ctx`claims
    ensures ctx.Valid()
    ensures (r, ctx.Snapshot()) == RejectClaimOutcome(old(ctx.Snapshot()), claimId, notes, now)
  {
    var found := FirstWhere(ctx.claims, ClaimWithId(claimId));
    if found.None? {
      return Err(KeyNotFound);
    }
    var claim := found.value;
    if claim.status != Pending && claim.status != UnderReview {
      return Err(InvalidOperation);
    }
    claim := claim.(status := Rejected, updatedAt := Some(now), description := RejectionNotes(notes));
    PutClaimKeepsValid(ctx.Snapshot(), claimId, claim);
    ctx.claims := Put(ctx.claims, claimId, claim);
    return Ok(claim);
  }

  /** A rejected claim cannot be rejected again, nor deleted. */
  lemma RejectTwiceFails(db: Db, claimId: int, notes: Option<string>, now: DateTime, notes': Option<string>, later: DateTime)
    requires db.Valid() && RejectClaimOutcome(db, claimId, notes, now).0.Ok?
    ensures var after := RejectClaimOutcome(db, claimId, notes, now).1;
      && RejectClaimOutcome(after, claimId, notes', later) == (Err(InvalidOperation), after)
      && DeleteClaimOutcome(after, claimId) == (Err(InvalidOperation), after)
  {
  }

  // ---- UpdateClaimAsync(Claim) -----------------------------------------------------

  /** Saving a stored claim: its row becomes `c`. */
  function UpdateClaimOutcome(db: Db, c: Claim): (out: (Claim, Db))
    requires db.Valid() && c.id in db.claims.rows && c.policyId in db.policies.rows
    ensures out.1.Valid()
    ensures out.0 == c
    ensures out.1.claims.rows == db.claims.rows[c.id := c] && out.1.claims.next == db.claims.next
    ensures out.1 == db.(claims := out.1.claims)
  {
    PutClaimKeepsValid(db, c.id, c);
    (c, db.(claims := Put(db.claims, c.id, c)))
  }

  method UpdateClaim(ctx: InsuranceContext, c: Claim) returns (saved: Claim)
    requires ctx.Valid() && c.id in ctx.claims.rows && c.policyId in ctx.policies.rows
    modifies ctx`claims
    ensures ctx.Valid()
    ensures (saved, ctx.Snapshot()) == UpdateClaimOutcome(old(ctx.Snapshot()), c)
  {
    PutClaimKeepsValid(ctx.Snapshot(), c.id, c);
    ctx.claims := Put(ctx.claims, c.id, c);
    saved := c;
  }

  // ---- DeleteClaimAsync ------------------------------------------------------------

  /** The documents linked to the claim, which the database deletes with it. */
  function DocumentsOf(claimId: int): Document -> bool {
    (d: Document) => d.claimId == Some(claimId)
  }

  /**
   * Deleting: KeyNotFound for an unknown claim; InvalidOperation, changing
   * nothing, unless it is "Pending" or "UnderReview"; otherwise the claim is
   * removed together with its documents (the cascade on Documents.ClaimID),
   * and nothing else changes.
   */
  function DeleteClaimOutcome(db: Db, claimId: int): (out: (Result<Claim>, Db))
    requires db.Valid()
    ensures out.1.Valid()
    ensures out.0.Err? ==> out.1 == db
    ensures out.0 == Err(KeyNotFound) <==> claimId !in db.claims.rows
    ensures out.0 == Err(InvalidOperation) <==> claimId in db.claims.rows && !Open(db.claims.rows[claimId])
    ensures out.0.Ok? <==> claimId in db.claims.rows && Open(db.claims.rows[claimId])
    ensures out.0.Ok? ==>
      && out.0.value == db.claims.rows[claimId]
      && out.1 == db.(claims := Remove(db.claims, claimId),
                      documents := RemoveWhere(db.documents, DocumentsOf(claimId)))
  {
    match FirstWhere(db.claims, ClaimWithId(claimId))
    case None => (Err(KeyNotFound), db)
    case Some(c) =>
      if c.status != Pending && c.status != UnderReview then (Err(InvalidOperation), db)
      else
        RemoveClaimKeepsValid(db, claimId, DocumentsOf(claimId));
        (Ok(c), db.(claims := Remove(db.claims, claimId),
                    documents := RemoveWhere(db.documents, DocumentsOf(claimId))))
  }

  method DeleteClaim(ctx: InsuranceContext, claimId: int) returns (r: Result<Claim>)
    requires ctx.Valid()
    modifies ctx`claims, ctx`documents
    ensures ctx.Valid()
    ensures (r, ctx.Snapshot()) == DeleteClaimOutcome(old(ctx.Snapshot()), claimId)
  {
    var found := FirstWhere(ctx.claims, ClaimWithId(claimId));
    if found.None? {
      return Err(KeyNotFound);
    }
    var claim := found.value;
    if claim.status != Pending && claim.status != UnderReview {
      return Err(InvalidOperation);
    }
    ghost var before := ctx.Snapshot();
    RemoveClaimKeepsValid(before, claimId, DocumentsOf(claimId));
    ctx.claims, ctx.documents := Remove(ctx.claims, claimId), RemoveWhere(ctx.documents, DocumentsOf(claimId));
    assert ctx.Snapshot() == before.(claims := Remove(before.claims, claimId),
                                     documents := RemoveWhere(before.documents, DocumentsOf(claimId)));
    return Ok(claim);
  }

  /**
   * A delete removes exactly that claim and exactly its documents: every
   * other claim and every document of another claim or of a proposal only
   * stays as it was, and the claim is gone from its owner's list.
   */
  lemma DeleteRemovesExactly(db: Db, claimId: int, userId: int)
    requires db.Valid() && DeleteClaimOutcome(db, claimId).0.Ok?
    ensures var after := DeleteClaimOutcome(db, claimId).1;
      && claimId !in after.claims.rows
      && (forall k :: k in db.claims.rows && k != claimId ==> k in after.claims.rows && after.claims.rows[k] == db.claims.rows[k])
      && (forall k :: k in db.documents.rows ==>
            (k in after.documents.rows <==> db.documents.rows[k].claimId != Some(claimId)))
      && db.claims.rows[claimId] !in ClaimsByUser(after, userId)
      && GetClaimByIdForUser(after, claimId, userId).None?
  {
  }
}

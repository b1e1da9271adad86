/**
 * SecureMiles.Repositories/Documents/DocumentRepository.cs: storing an
 * uploaded document, the owner-only lookup, and deleting a document.
 */
module DocumentRepository {
  import opened Errors
  import opened Calendar
  import opened Tables
  import opened Entities
  import opened Store

  /** UploadDocumentResponseDto: where the file lives, its type and when it was uploaded. */
  datatype UploadDocumentResponse = UploadDocumentResponse(documentUrl: string, documentType: string, uploadedAt: DateTime)

  // ---- AddAsync --------------------------------------------------------------------

  /** The database after storing `d` under a new key, and the reply echoing the stored file. */
  function AddOutcome(db: Db, d: Document): (out: (UploadDocumentResponse, Db))
    requires db.Valid()
    ensures out.1.Valid()
    ensures db.documents.next !in db.documents.rows
    ensures out.1.documents.rows == db.documents.rows[db.documents.next := d.(id := db.documents.next)]
    ensures out.1 == db.(documents := out.1.documents)
    ensures out.0 == UploadDocumentResponse(d.filePath, d.docType, d.uploadedDate)
  {
    var stored := d.(id := db.documents.next);
    AddDocumentKeepsValid(db, stored);
    (UploadDocumentResponse(stored.filePath, stored.docType, stored.uploadedDate), db.(documents := Add(db.documents, stored)))
  }

  method AddDocument(ctx: InsuranceContext, d: Document) returns (response: UploadDocumentResponse)
    requires ctx.Valid()
    modifies ctx`documents
    ensures ctx.Valid()
    ensures (response, ctx.Snapshot()) == AddOutcome(old(ctx.Snapshot()), d)
  {
    var stored := d.(id := ctx.documents.next);
    AddDocumentKeepsValid(ctx.Snapshot(), stored);
    ctx.documents := Add(ctx.documents, stored);
    response := UploadDocumentResponse(stored.filePath, stored.docType, stored.uploadedDate);
  }

  // ---- GetDocumentByIdAsync --------------------------------------------------------

  /**
   * The document may be shown to the user: it is linked to a stored claim
   * whose policy is the user's, or to a stored proposal that is the user's.
   */
  predicate Visible(db: Db, d: Document, userId: int) {
    || (d.claimId.Some? && d.claimId.value in db.claims.rows
        && db.claims.rows[d.claimId.value].policyId in db.policies.rows
        && db.policies.rows[db.claims.rows[d.claimId.value].policyId].userId == userId)
    || (d.proposalId.Some? && d.proposalId.value in db.proposals.rows
        && db.proposals.rows[d.proposalId.value].userId == userId)
  }

  /** The document with that id when it is visible to the user, otherwise nothing. */
  function GetDocumentById(db: Db, documentId: int, userId: int): (r: Option<Document>)
    requires db.Valid()
    ensures r.Some? <==> documentId in db.documents.rows && Visible(db, db.documents.rows[documentId], userId)
    ensures r.Some? ==> r.value == db.documents.rows[documentId]
  {
    FirstWhere(db.documents, (d: Document) => d.id == documentId && Visible(db, d, userId))
  }

  /**
   * A document linked to nobody's claim or proposal of the caller's is not
   * found, however it is linked; one linked to a proposal of the caller's
   * is found whatever its claim link says.
   */
  lemma VisibilityFollowsOwnership(db: Db, documentId: int, userId: int)
    requires db.Valid() && documentId in db.documents.rows
    ensures var d := db.documents.rows[documentId];
      && (d.proposalId.Some? && d.proposalId.value in db.proposals.rows && db.proposals.rows[d.proposalId.value].userId == userId
          ==> GetDocumentById(db, documentId, userId) == Some(d))
      && (d.claimId.None? && d.proposalId.None? ==> GetDocumentById(db, documentId, userId).None?)
  {
  }

  /** A stored document is visible to at most one user, for a document with a single link. */
  lemma SingleLinkHasOneReader(db: Db, documentId: int, userId: int, otherId: int)
    requires db.Valid() && documentId in db.documents.rows && userId != otherId
    requires db.documents.rows[documentId].claimId.None? || db.documents.rows[documentId].proposalId.None?
    requires GetDocumentById(db, documentId, userId).Some?
    ensures GetDocumentById(db, documentId, otherId).None?
  {
  }

  /** Storing a document linked to the caller's proposal makes it readable by the caller under its new id. */
  lemma AddThenFind(db: Db, d: Document, userId: int)
    requires db.Valid()
    requires d.proposalId.Some? && d.proposalId.value in db.proposals.rows && db.proposals.rows[d.proposalId.value].userId == userId
    ensures var after := AddOutcome(db, d).1;
      GetDocumentById(after, db.documents.next, userId) == Some(d.(id := db.documents.next))
  {
    var after := AddOutcome(db, d).1;
    assert after.documents.rows[db.documents.next] == d.(id := db.documents.next);
  }

  // ---- DeleteAsync -----------------------------------------------------------------

  /** Removing a stored document: its row goes and nothing else changes. */
  function DeleteOutcome(db: Db, d: Document): (after: Db)
    requires db.Valid() && d.id in db.documents.rows
    ensures after.Valid()
    ensures d.id !in after.documents.rows
    ensures forall k :: k in db.documents.rows && k != d.id ==> k in after.documents.rows && after.documents.rows[k] == db.documents.rows[k]
    ensures forall k :: k in after.documents.rows ==> k in db.documents.rows
    ensures after == db.(documents := after.documents)
  {
    RemoveDocumentKeepsValid(db, d.id);
    db.(documents := Remove(db.documents, d.id))
  }

  method DeleteDocument(ctx: InsuranceContext, d: Document)
    requires ctx.Valid() && d.id in ctx.documents.rows
    modifies ctx`documents
    ensures ctx.Valid()
    ensures ctx.Snapshot() == DeleteOutcome(old(ctx.Snapshot()), d)
  {
    RemoveDocumentKeepsValid(ctx.Snapshot(), d.id);
    ctx.documents := Remove(ctx.documents, d.id);
  }

  /** After a delete the document is found by nobody, and every other document is found exactly as before. */
  lemma DeleteHidesOnlyThat(db: Db, d: Document, documentId: int, userId: int)
    requires db.Valid() && d.id in db.documents.rows
    ensures GetDocumentById(DeleteOutcome(db, d), d.id, userId).None?
    ensures documentId != d.id ==> GetDocumentById(DeleteOutcome(db, d), documentId, userId) == GetDocumentById(db, documentId, userId)
  {
  }
}

/**
 * The database the repositories share (SecureMiles.Common.Data.InsuranceContext):
 * one table per DbSet the core touches. `Db` is its value at one moment;
 * `InsuranceContext` is the object whose tables the repositories replace as
 * they save changes.
 */
module Store {
  import opened Tables
  import opened Entities

  datatype Db = Db(
    users: Table<User>,
    vehicles: Table<Vehicle>,
    proposals: Table<Proposal>,
    policies: Table<Policy>,
    payments: Table<Payment>,
    claims: Table<Claim>,
    documents: Table<Document>)
  {
    /**
     * Every table keeps each row under its own identity key, and the foreign
     * keys the services navigate hold: a proposal's and a policy's vehicle
     * exist (vehicles are only ever soft-deleted), and so do a claim's and a
     * payment's policy (policies are never removed).
     */
    predicate Valid() {
      && (forall k :: k in proposals.rows ==> proposals.rows[k].vehicleId in vehicles.rows)
      && (forall k :: k in policies.rows ==> policies.rows[k].vehicleId in vehicles.rows)
      && (forall k :: k in claims.rows ==> claims.rows[k].policyId in policies.rows)
      && (forall k :: k in payments.rows ==> payments.rows[k].policyId in policies.rows)
      && Keyed(users, UserKey)
      && Keyed(vehicles, VehicleKey)
      && Keyed(proposals, ProposalKey)
      && Keyed(policies, PolicyKey)
      && Keyed(payments, PaymentKey)
      && Keyed(claims, ClaimKey)
      && Keyed(documents, DocumentKey)
    }
  }

  /** A stored proposal's vehicle is stored too. */
  lemma StoredProposalHasVehicle(db: Db, p: Proposal)
    requires db.Valid() && Stored(db.proposals, p)
    ensures p.vehicleId in db.vehicles.rows
  {
  }

  /** A stored policy's vehicle is stored too. */
  lemma StoredPolicyHasVehicle(db: Db, p: Policy)
    requires db.Valid() && Stored(db.policies, p)
    ensures p.vehicleId in db.vehicles.rows
  {
  }

  /** A stored claim's policy is stored too. */
  lemma StoredClaimHasPolicy(db: Db, c: Claim)
    requires db.Valid() && Stored(db.claims, c)
    ensures c.policyId in db.policies.rows
  {
  }

  // The writes the repositories make, each shown to keep the store valid.

  lemma PutUserKeepsValid(db: Db, k: int, u: User)
    requires db.Valid() && k in db.users.rows && u.id == k
    ensures db.(users := Put(db.users, k, u)).Valid()
  {
  }

  lemma AddVehicleKeepsValid(db: Db, v: Vehicle)
    requires db.Valid() && v.id == db.vehicles.next
    ensures db.(vehicles := Add(db.vehicles, v)).Valid()
  {
  }

  lemma PutVehicleKeepsValid(db: Db, k: int, v: Vehicle)
    requires db.Valid() && k in db.vehicles.rows && v.id == k
    ensures db.(vehicles := Put(db.vehicles, k, v)).Valid()
  {
  }

  lemma AddProposalKeepsValid(db: Db, p: Proposal)
    requires db.Valid() && p.id == db.proposals.next && p.vehicleId in db.vehicles.rows
    ensures db.(proposals := Add(db.proposals, p)).Valid()
  {
  }

  lemma PutProposalKeepsValid(db: Db, k: int, p: Proposal)
    requires db.Valid() && k in db.proposals.rows && p.id == k && p.vehicleId in db.vehicles.rows
    ensures db.(proposals := Put(db.proposals, k, p)).Valid()
  {
  }

  lemma AddPolicyKeepsValid(db: Db, p: Policy)
    requires db.Valid() && p.id == db.policies.next && p.vehicleId in db.vehicles.rows
    ensures db.(policies := Add(db.policies, p)).Valid()
  {
  }

  lemma PutPolicyKeepsValid(db: Db, k: int, p: Policy)
    requires db.Valid() && k in db.policies.rows && p.id == k && p.vehicleId in db.vehicles.rows
    ensures db.(policies := Put(db.policies, k, p)).Valid()
  {
  }

  lemma AddPaymentKeepsValid(db: Db, p: Payment)
    requires db.Valid() && p.id == db.payments.next && p.policyId in db.policies.rows
    ensures db.(payments := Add(db.payments, p)).Valid()
  {
  }

  lemma PutPaymentKeepsValid(db: Db, k: int, p: Payment)
    requires db.Valid() && k in db.payments.rows && p.id == k && p.policyId in db.policies.rows
    ensures db.(payments := Put(db.payments, k, p)).Valid()
  {
  }

  lemma AddClaimKeepsValid(db: Db, c: Claim)
    requires db.Valid() && c.id == db.claims.next && c.policyId in db.policies.rows
    ensures db.(claims := Add(db.claims, c)).Valid()
  {
  }

  lemma PutClaimKeepsValid(db: Db, k: int, c: Claim)
    requires db.Valid() && k in db.claims.rows && c.id == k && c.policyId in db.policies.rows
    ensures db.(claims := Put(db.claims, k, c)).Valid()
  {
  }

  /** Removing a claim together with some documents (a cascading delete). */
  lemma RemoveClaimKeepsValid(db: Db, k: int, drop: Document -> bool)
    requires db.Valid()
    ensures db.(claims := Remove(db.claims, k), documents := RemoveWhere(db.documents, drop)).Valid()
  {
  }

  lemma AddDocumentKeepsValid(db: Db, d: Document)
    requires db.Valid() && d.id == db.documents.next
    ensures db.(documents := Add(db.documents, d)).Valid()
  {
  }

  lemma PutDocumentsKeepsValid(db: Db, t: Table<Document>)
    requires db.Valid() && Keyed(t, DocumentKey)
    ensures db.(documents := t).Valid()
  {
  }

  /**
   * How saving a new proposal or claim stores the document reachable from
   * it: a document whose key is already stored is updated under that key,
   * any other is added under the next key.
   */
  function SaveDocument(documents: Table<Document>, d: Document): (t: Table<Document>)
    requires Keyed(documents, DocumentKey)
    ensures Keyed(t, DocumentKey)
    ensures var k := SaveKey(documents, d.id);
      && t.rows == documents.rows[k := d.(id := k)]
      && t.next == (if d.id in documents.rows then documents.next else documents.next + 1)
    ensures forall k :: k in documents.rows && k != d.id ==> k in t.rows && t.rows[k] == documents.rows[k]
  {
    if d.id in documents.rows then Put(documents, d.id, d) else Add(documents, d.(id := documents.next))
  }

  lemma RemoveDocumentKeepsValid(db: Db, k: int)
    requires db.Valid()
    ensures db.(documents := Remove(db.documents, k)).Valid()
  {
  }

  class InsuranceContext {
    var users: Table<User>
    var vehicles: Table<Vehicle>
    var proposals: Table<Proposal>
    var policies: Table<Policy>
    var payments: Table<Payment>
    var claims: Table<Claim>
    var documents: Table<Document>

    /** The tables as one value. */
    function Snapshot(): Db
      reads this
    {
      Db(users, vehicles, proposals, policies, payments, claims, documents)
    }

    ghost predicate Valid()
      reads this
    {
      Snapshot().Valid()
    }

    /** An empty database. */
    constructor ()
      ensures Valid()
      ensures Snapshot() == Db(Empty(), Empty(), Empty(), Empty(), Empty(), Empty(), Empty())
    {
      users, vehicles, proposals := Empty(), Empty(), Empty();
      policies, payments, claims, documents := Empty(), Empty(), Empty(), Empty();
    }
  }
}

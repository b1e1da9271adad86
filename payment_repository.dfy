/**
 * SecureMiles.Repositories/FakePayment/PaymentRepository.cs: storing
 * payments, looking them up, and saving changes to one.
 */
module PaymentRepository {
  import opened Errors
  import opened Tables
  import opened Entities
  import opened Store

  // ---- AddPaymentAsync -------------------------------------------------------------

  /** The database after storing `p`, and the identity it received. */
  function AddPaymentOutcome(db: Db, p: Payment): (out: (int, Db))
    requires db.Valid() && p.policyId in db.policies.rows
    ensures out.1.Valid()
    ensures out.0 !in db.payments.rows
    ensures out.1.payments.rows == db.payments.rows[out.0 := p.(id := out.0)]
    ensures out.1 == db.(payments := out.1.payments)
  {
    var id := db.payments.next;
    AddPaymentKeepsValid(db, p.(id := id));
    (id, db.(payments := Add(db.payments, p.(id := id))))
  }

  method AddPayment(ctx: InsuranceContext, p: Payment) returns (id: int)
    requires ctx.Valid() && p.policyId in ctx.policies.rows
    modifies ctx`payments
    ensures ctx.Valid()
    ensures (id, ctx.Snapshot()) == AddPaymentOutcome(old(ctx.Snapshot()), p)
  {
    id := ctx.payments.next;
    AddPaymentKeepsValid(ctx.Snapshot(), p.(id := id));
    ctx.payments := Add(ctx.payments, p.(id := id));
  }

  // ---- lookups ---------------------------------------------------------------------

  /** GetPaymentByIdAsync(id): the payment with that id, or KeyNotFound. */
  function GetPaymentById(db: Db, paymentId: int): (r: Result<Payment>)
    requires db.Valid()
    ensures r.Ok? <==> paymentId in db.payments.rows
    ensures r.Ok? ==> r.value == db.payments.rows[paymentId]
    ensures r.Err? ==> r.error == KeyNotFound
  {
    match FirstWhere(db.payments, PaymentWithId(paymentId))
    case None => Err(KeyNotFound)
    case Some(p) => Ok(p)
  }

  /** GetPaymentByIdAsync(id, user): the payment only when it is the caller's, or KeyNotFound. */
  function GetPaymentByIdForUser(db: Db, paymentId: int, userId: int): (r: Result<Payment>)
    requires db.Valid()
    ensures r.Ok? <==> paymentId in db.payments.rows && db.payments.rows[paymentId].userId == userId
    ensures r.Ok? ==> r.value == db.payments.rows[paymentId]
    ensures r.Err? ==> r.error == KeyNotFound
  {
    match FirstWhere(db.payments, (p: Payment) => p.id == paymentId && p.userId == userId)
    case None => Err(KeyNotFound)
    case Some(p) => Ok(p)
  }

  /** GetPaymentsByUserIdAsync: exactly the stored payments made by the user. */
  function PaymentsByUser(db: Db, userId: int): (r: seq<Payment>)
    requires db.Valid()
    ensures forall p :: p in r <==> Stored(db.payments, p) && p.userId == userId
    ensures Distinct(r)
  {
    var keep := (p: Payment) => p.userId == userId;
    WhereIsDistinct(db.payments, keep, PaymentKey);
    Where(db.payments, keep)
  }

  /** GetPaymentsByPolicyIdAsync: exactly the stored payments for the policy. */
  function PaymentsByPolicy(db: Db, policyId: int): (r: seq<Payment>)
    requires db.Valid()
    ensures forall p :: p in r <==> Stored(db.payments, p) && p.policyId == policyId
    ensures Distinct(r)
  {
    var keep := (p: Payment) => p.policyId == policyId;
    WhereIsDistinct(db.payments, keep, PaymentKey);
    Where(db.payments, keep)
  }

  // ---- UpdatePaymentAsync ----------------------------------------------------------

  /** Saving a stored payment: its row becomes `p`; the call always reports true. */
  function UpdatePaymentOutcome(db: Db, p: Payment): (out: (bool, Db))
    requires db.Valid() && p.id in db.payments.rows && p.policyId in db.policies.rows
    ensures out.1.Valid()
    ensures out.0
    ensures out.1.payments.rows == db.payments.rows[p.id := p] && out.1.payments.next == db.payments.next
    ensures out.1 == db.(payments := out.1.payments)
  {
    PutPaymentKeepsValid(db, p.id, p);
    (true, db.(payments := Put(db.payments, p.id, p)))
  }

  method UpdatePayment(ctx: InsuranceContext, p: Payment) returns (ok: bool)
    requires ctx.Valid() && p.id in ctx.payments.rows && p.policyId in ctx.policies.rows
    modifies ctx`payments
    ensures ctx.Valid()
    ensures (ok, ctx.Snapshot()) == UpdatePaymentOutcome(old(ctx.Snapshot()), p)
  {
    PutPaymentKeepsValid(ctx.Snapshot(), p.id, p);
    ctx.payments := Put(ctx.payments, p.id, p);
    ok := true;
  }

  // ---- properties ------------------------------------------------------------------

  /**
   * A stored payment can be read back: by id, by id for its payer, and in
   * the lists for its payer and for its policy; the payments stored before
   * are still there.
   */
  lemma AddThenFind(db: Db, p: Payment)
    requires db.Valid() && p.policyId in db.policies.rows
    ensures var (id, after) := AddPaymentOutcome(db, p);
      && GetPaymentById(after, id) == Ok(p.(id := id))
      && GetPaymentByIdForUser(after, id, p.userId) == Ok(p.(id := id))
      && p.(id := id) in PaymentsByUser(after, p.userId)
      && p.(id := id) in PaymentsByPolicy(after, p.policyId)
      && forall q :: q in PaymentsByUser(db, p.userId) ==> q in PaymentsByUser(after, p.userId)
  {
    var (id, after) := AddPaymentOutcome(db, p);
    assert after.payments.rows[id] == p.(id := id);
    forall q | q in PaymentsByUser(db, p.userId) ensures q in PaymentsByUser(after, p.userId) {
      var k :| k in db.payments.rows && db.payments.rows[k] == q;
      assert after.payments.rows[k] == q;
    }
  }

  /** Another user's payment is not found by id for the caller, and is not in the caller's list. */
  lemma OthersPaymentsAreHidden(db: Db, paymentId: int, userId: int)
    requires db.Valid() && paymentId in db.payments.rows && db.payments.rows[paymentId].userId != userId
    ensures GetPaymentByIdForUser(db, paymentId, userId) == Err(KeyNotFound)
    ensures GetPaymentById(db, paymentId).Ok?
    ensures db.payments.rows[paymentId] !in PaymentsByUser(db, userId)
  {
  }
}

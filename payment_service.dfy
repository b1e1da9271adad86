/**
 * SecureMiles.Services/FakePayment/PaymentService.cs: paying for an approved
 * proposal, which issues its policy, records the payment, and converts the
 * proposal.
 */
module PaymentService {
  import opened Errors
  import opened Calendar
  import opened Tables
  import opened Entities
  import opened Store
  import ProposalsRepository
  import PolicyRepository
  import PaymentRepository

  /** The policy type used when the proposal names none. */
  const DefaultPolicyType: string := "DefaultPolicyType"
  const Inr: string := "INR"

  /** The policy part of PaymentResponseDto. */
  datatype IssuedPolicy = IssuedPolicy(
    policyId: int,
    policyType: string,
    coverageAmount: real,
    premiumAmount: real,
    startDate: DateTime,
    endDate: DateTime,
    status: string)

  /**
   * The policy issued for proposal `p` at `now`, ending `end` and reminding
   * at `reminder`. The coverage amount is never taken from the proposal: it
   * keeps the default of zero.
   */
  function IssuedPolicyFor(p: Proposal, end: DateTime, reminder: DateTime, now: DateTime): Policy {
    Policy(0, p.userId, p.vehicleId, Some(p.id), if p.policyType.Some? then p.policyType.value else DefaultPolicyType,
           0.0, p.premiumAmount, Active, now, end, Some(reminder), now, Some(now))
  }

  /** The simulated payment recorded for the issued policy. */
  function PaymentFor(p: Proposal, userId: int, policyId: int, transactionId: string, now: DateTime): Payment {
    Payment(0, Some(transactionId), p.premiumAmount, Some(Inr), Some(Completed), userId, policyId, now)
  }

  /**
   * ProcessPaymentAsync. `transactionId` stands for the generated GUID and
   * `documentGenerated` for whether the PDF rendering produced a document;
   * the e-mail address checked is the caller's.
   *
   * KeyNotFound, writing nothing, unless the caller owns the proposal;
   * InvalidOperation, writing nothing, unless it is exactly "Approved";
   * ArgumentOutOfRange, writing nothing, when the end date one year on does
   * not exist. Otherwise three writes happen in order: the policy, the
   * payment for it, and the proposal's new status "Converted to Policy".
   * Only then do a missing caller or e-mail address (KeyNotFound) or a
   * missing document (InvalidOperation) fail the call, with the writes kept.
   */
  function ProcessOutcome(db: Db, userId: int, proposalId: int, transactionId: string, documentGenerated: bool, now: DateTime)
    : (out: (Result<IssuedPolicy>, Db))
    requires db.Valid()
    ensures out.1.Valid()
    ensures !ProposalsRepository.Owns(db, proposalId, userId) ==> out == (Err(KeyNotFound), db)
    ensures ProposalsRepository.Owns(db, proposalId, userId) && db.proposals.rows[proposalId].status != Approved ==>
      out == (Err(InvalidOperation), db)
    ensures (ProposalsRepository.Owns(db, proposalId, userId) && db.proposals.rows[proposalId].status == Approved
             && AddYears(now, 1).None?) ==> out == (Err(ArgumentOutOfRange), db)
    ensures out.1 != db <==>
      ProposalsRepository.Owns(db, proposalId, userId) && db.proposals.rows[proposalId].status == Approved
      && AddYears(now, 1).Some?
    ensures out.1 != db ==>
      var p := db.proposals.rows[proposalId];
      var end := AddYears(now, 1).value;
      var (policyId, paymentId) := (db.policies.next, db.payments.next);
      && AddDays(end, -30).Some?
      && policyId !in db.policies.rows && paymentId !in db.payments.rows
      && out.1 == db.(policies := Add(db.policies, IssuedPolicyFor(p, end, AddDays(end, -30).value, now).(id := policyId)),
                      payments := Add(db.payments, PaymentFor(p, userId, policyId, transactionId, now).(id := paymentId)),
                      proposals := Put(db.proposals, proposalId, p.(status := ConvertedToPolicy)))
    ensures out.0.Ok? <==>
      out.1 != db && userId in db.users.rows && db.users.rows[userId].email != "" && documentGenerated
    ensures out.1 != db && !(userId in db.users.rows && db.users.rows[userId].email != "") ==>
      out.0 == Err(KeyNotFound)
    ensures out.1 != db && userId in db.users.rows && db.users.rows[userId].email != "" && !documentGenerated ==>
      out.0 == Err(InvalidOperation)
    ensures out.0.Ok? ==>
      var policy := out.1.policies.rows[db.policies.next];
      out.0.value == IssuedPolicy(db.policies.next, policy.policyType, 0.0, policy.premiumAmount,
                                  policy.startDate, policy.endDate, Active)
  {
    var found := ProposalsRepository.GetProposalById(db, proposalId);
    if found.Err? || found.value.userId != userId then (Err(KeyNotFound), db)
    else
      var proposal := found.value;
      if proposal.status != Approved then (Err(InvalidOperation), db)
      else match AddYears(now, 1)
        case None => (Err(ArgumentOutOfRange), db)
        case Some(end) =>
          AddYearsIsLater(now, 1);
          AddDaysBackInRange(end, 30);
          match AddDays(end, -30)
          case None => (Err(ArgumentOutOfRange), db)
          case Some(reminder) =>
            var policy := IssuedPolicyFor(proposal, end, reminder, now);
            var (policyId, db1) := PolicyRepository.AddPolicyOutcome(db, policy);
            var user := Find(db1.users, userId);
            var (_, db2) := PaymentRepository.AddPaymentOutcome(db1, PaymentFor(proposal, userId, policyId, transactionId, now));
            var (_, db3) := ProposalsRepository.UpdateProposalOutcome(db2, proposal.(status := ConvertedToPolicy));
            if user.None? then (Err(KeyNotFound), db3)
            else if user.value.email == "" then (Err(KeyNotFound), db3)
            else if !documentGenerated then (Err(InvalidOperation), db3)
            else (Ok(IssuedPolicy(policyId, policy.policyType, policy.coverageAmount, policy.premiumAmount,
                                  policy.startDate, policy.endDate, policy.status)), db3)
  }

  method ProcessPayment(ctx: InsuranceContext, userId: int, proposalId: int, transactionId: string, documentGenerated: bool,
                        now: DateTime) returns (r: Result<IssuedPolicy>)
    requires ctx.Valid()
    modifies ctx`policies, ctx`payments, ctx`proposals
    ensures ctx.Valid()
    ensures (r, ctx.Snapshot()) == ProcessOutcome(old(ctx.Snapshot()), userId, proposalId, transactionId, documentGenerated, now)
  {
    var found := ProposalsRepository.GetProposalById(ctx.Snapshot(), proposalId);
    if found.Err? || found.value.userId != userId {
      return Err(KeyNotFound);
    }
    var proposal := found.value;
    if proposal.status != Approved {
      return Err(InvalidOperation);
    }
    var end := AddYears(now, 1);
    if end.None? {
      return Err(ArgumentOutOfRange);
    }
    var reminder := AddDays(end.value, -30);
    if reminder.None? {
      return Err(ArgumentOutOfRange);
    }
    var policy := IssuedPolicyFor(proposal, end.value, reminder.value, now);
    var policyId := PolicyRepository.AddPolicy(ctx, policy);
    var user := Find(ctx.users, userId);
    var _ := PaymentRepository.AddPayment(ctx, PaymentFor(proposal, userId, policyId, transactionId, now));
    proposal := proposal.(status := ConvertedToPolicy);
    var _ := ProposalsRepository.UpdateProposal(ctx, proposal);
    if user.None? {
      return Err(KeyNotFound);
    }
    if user.value.email == "" {
      return Err(KeyNotFound);
    }
    if !documentGenerated {
      return Err(InvalidOperation);
    }
    return Ok(IssuedPolicy(policyId, policy.policyType, policy.coverageAmount, policy.premiumAmount,
                           policy.startDate, policy.endDate, policy.status));
  }

  /**
   * The issued policy belongs to the proposal's owner and vehicle, links
   * back to the proposal, carries its premium and its policy type (or the
   * default), is "Active" with zero coverage, starts now, ends one year on
   * (strictly later), and reminds 30 days before its end, which falls after
   * its start. The single payment is for that policy, of the premium, in
   * INR, "Completed", by the caller.
   */
  lemma IssuedPolicyTerms(db: Db, userId: int, proposalId: int, transactionId: string, documentGenerated: bool, now: DateTime)
    requires db.Valid()
    requires ProcessOutcome(db, userId, proposalId, transactionId, documentGenerated, now).1 != db
    ensures var after := ProcessOutcome(db, userId, proposalId, transactionId, documentGenerated, now).1;
      var p := db.proposals.rows[proposalId];
      var (policyId, paymentId) := (db.policies.next, db.payments.next);
      && policyId in after.policies.rows && paymentId in after.payments.rows
      && var (policy, payment) := (after.policies.rows[policyId], after.payments.rows[paymentId]);
      && policy.userId == p.userId == userId && policy.vehicleId == p.vehicleId && policy.proposalId == Some(proposalId)
      && policy.premiumAmount == p.premiumAmount && policy.coverageAmount == 0.0 && policy.status == Active
      && policy.policyType == (if p.policyType.Some? then p.policyType.value else DefaultPolicyType)
      && policy.startDate == now && Some(policy.endDate) == AddYears(now, 1) && Before(now, policy.endDate)
      && policy.renewalReminderDate == AddDays(policy.endDate, -30)
      && Before(policy.renewalReminderDate.value, policy.endDate)
      && payment.policyId == policyId && payment.amount == p.premiumAmount && payment.userId == userId
      && payment.currency == Some(Inr) && payment.status == Some(Completed)
      && forall q :: q in PaymentRepository.PaymentsByPolicy(after, policyId) <==> q == payment
  {
    var after := ProcessOutcome(db, userId, proposalId, transactionId, documentGenerated, now).1;
    var p := db.proposals.rows[proposalId];
    var end := AddYears(now, 1).value;
    var reminder := AddDays(end, -30).value;
    AddYearsIsLater(now, 1);
    AddDaysBackwardIsEarlier(end, -30);
    var (policyId, paymentId) := (db.policies.next, db.payments.next);
    assert after.policies.rows[policyId] == IssuedPolicyFor(p, end, reminder, now).(id := policyId);
    var payment := PaymentFor(p, userId, policyId, transactionId, now).(id := paymentId);
    assert after.payments.rows == db.payments.rows[paymentId := payment];
    forall k | k in after.payments.rows && k != paymentId ensures after.payments.rows[k].policyId != policyId {
      assert after.payments.rows[k] == db.payments.rows[k];
      assert db.payments.rows[k].policyId in db.policies.rows;
    }
    forall q | q in PaymentRepository.PaymentsByPolicy(after, policyId) ensures q == payment {
      var k :| k in after.payments.rows && after.payments.rows[k] == q;
    }
  }

  /**
   * Paying converts the proposal, so paying for it again fails with
   * InvalidOperation and writes nothing; the proposal no longer counts as
   * pending, so it cannot be cancelled either.
   */
  lemma SecondPaymentFails(db: Db, userId: int, proposalId: int, transactionId: string, documentGenerated: bool, now: DateTime,
                           transactionId': string, documentGenerated': bool, later: DateTime)
    requires db.Valid()
    requires ProcessOutcome(db, userId, proposalId, transactionId, documentGenerated, now).1 != db
    ensures var after := ProcessOutcome(db, userId, proposalId, transactionId, documentGenerated, now).1;
      && after.proposals.rows[proposalId].status == ConvertedToPolicy
      && ProcessOutcome(after, userId, proposalId, transactionId', documentGenerated', later) == (Err(InvalidOperation), after)
      && ProposalsRepository.CancelOutcome(after, proposalId, userId, later) == (Err(InvalidOperation), after)
  {
  }

  /** A failure after the writes keeps them: without a generated document the policy is still issued. */
  lemma LateFailureKeepsWrites(db: Db, userId: int, proposalId: int, transactionId: string, now: DateTime)
    requires db.Valid() && ProposalsRepository.Owns(db, proposalId, userId)
    requires db.proposals.rows[proposalId].status == Approved && AddYears(now, 1).Some?
    ensures var (r, after) := ProcessOutcome(db, userId, proposalId, transactionId, false, now);
      && r.Err?
      && db.policies.next in after.policies.rows
      && after.proposals.rows[proposalId].status == ConvertedToPolicy
  {
  }
}

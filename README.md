# SecureMiles insurance lifecycle, modelled in Dafny

SecureMiles is an ASP.NET vehicle-insurance back end. A customer:

1. registers vehicles and receives three quoted policy options;
2. submits a proposal for a vehicle, which an administrator approves outside the code shown;
3. pays for an approved proposal, which issues a one-year policy, records the payment and converts the proposal;
4. creates, lists, updates and renews policies directly;
5. files claims on active policies, with an optional document.

Administrators review claims (update, approve, reject), page through users and change user roles. Documents are visible only to the owner of the claim or proposal they are linked to.

This project models the repositories and services that carry that logic, over one shared database value:

- **Store.** `Store.Db` holds one `Tables.Table` per entity set. A table is a map from identity key to row, plus the next identity value.
- **Context.** `Store.InsuranceContext` is the class whose table fields the step-by-step operations reassign, the way `SaveChangesAsync` commits.
- **State changes.** Each state-changing operation appears twice:
  - a pure `...Outcome` function from the old database to the result and the new database, on which the properties are proved;
  - a `method` on the context whose postcondition ties it to that function.
- **Queries.** Queries and projections are functions.
- **Errors.** The exceptions the C# code throws are the `Errors.Error` cases of a `Result`.
- **Dates.** .NET `DateTime` is `Calendar.DateTime`. It has the same range (0001-01-01 to 9999-12-31), and `AddDays`, `AddMonths` and `AddYears` follow the same calendar rules. Each returns `None` where .NET throws `ArgumentOutOfRangeException`.
- **Parameters.** The clock (`now`), the document-upload service's reply, the generated transaction id, whether the PDF rendering produced a document, and the rows returned by stored procedures are all parameters.

## Model

| member | source | states |
|---|---|---|
| VehicleRepository.AddVehicleOutcome | SecureMiles.Repositories/Vehicle/VehicleRepository.cs:23-35 | KeyNotFound, storing nothing, for an unknown user; otherwise the vehicle is stored under a fresh key, owned by the caller, and nothing else changes |
| VehicleRepository.AddVehicle | SecureMiles.Repositories/Vehicle/VehicleRepository.cs:23-35 | the in-place registration has exactly the outcome of AddVehicleOutcome and keeps the store valid |
| VehicleRepository.VehiclesByUser | SecureMiles.Repositories/Vehicle/VehicleRepository.cs:36-41 | a vehicle is listed iff it is stored, the caller's, and not deleted; each is listed once |
| VehicleRepository.VehiclesByType | SecureMiles.Repositories/Vehicle/VehicleRepository.cs:186-191 | a vehicle is listed iff it is stored, the caller's, active, and of exactly that type; each is listed once |
| VehicleRepository.GetVehicleEntity | SecureMiles.Repositories/Vehicle/VehicleRepository.cs:170-182 | the vehicle is returned iff the caller owns it and it is active, and it is the stored row |
| VehicleRepository.DeleteOutcome | SecureMiles.Repositories/Vehicle/VehicleRepository.cs:151-169 | false with no change unless the caller owns the active vehicle; otherwise the row stays, marked inactive at `now`, with every other field and row kept |
| VehicleRepository.DeleteVehicle | SecureMiles.Repositories/Vehicle/VehicleRepository.cs:151-169 | the in-place soft delete has exactly the outcome of DeleteOutcome |
| VehicleRepository.DeleteIsSoft | SecureMiles.Repositories/Vehicle/VehicleRepository.cs:151-169 | after a delete the row is still stored, but it is gone from both lists and the entity lookup, and a second delete reports false |
| VehicleService.GeneratePolicyOptions | SecureMiles.Services/Vehicle/VehicleService.cs:67-109 | three options: Comprehensive, Third-Party, Fire and Theft; for a non-negative market value every amount is non-negative, and coverage and premium both rise from Third-Party to Fire and Theft to Comprehensive |
| VehicleService.PolicyOptionPricing | SecureMiles.Services/Vehicle/VehicleService.cs:69-107 | Comprehensive covers 75% of the market value at 2% of that coverage plus 500; Third-Party covers 60% and Fire and Theft 80% of the Comprehensive coverage, at 60% of the Comprehensive base premium and at 80% of it plus 300 |
| VehicleService.AddVehicleOutcome | SecureMiles.Services/Vehicle/VehicleService.cs:23-65 | ArgumentNull iff the form is missing, Argument iff the user is unknown, both storing nothing; Ok exactly when both checks pass, and then the vehicle is stored for the caller under the next id and the options quoted are those of the stored record |
| VehicleService.AddVehicle | SecureMiles.Services/Vehicle/VehicleService.cs:23-65 | the in-place registration has exactly the outcome of AddVehicleOutcome |
| VehicleService.UpdateVehicleOutcome | SecureMiles.Services/Vehicle/VehicleService.cs:153-170 | the update is reported iff the procedure affected a row; otherwise InvalidOperation |
| VehicleService.GetVehicleDetails | SecureMiles.Repositories/Vehicle/VehicleRepository.cs:59-75 | the details record is never null and its IsActive is never set, so it reads false |
| VehicleService.DeleteVehicleGuarded | SecureMiles.Services/Vehicle/VehicleService.cs:174-192 | once the activity test reads false the delete is KeyNotFound and changes nothing; once it reads true the soft delete succeeds exactly for the caller's own active vehicle, and is otherwise InvalidOperation with nothing changed |
| VehicleService.DeleteVehicleAsWritten | SecureMiles.Services/Vehicle/VehicleService.cs:174-192 | as written, every delete through the service is KeyNotFound and leaves the store unchanged, because the activity flag it reads is never set |
| VehicleService.OwnActiveVehicleCannotBeDeleted | SecureMiles.Services/Vehicle/VehicleService.cs:177-182 | as written, even the caller's own active vehicle is refused, where the intended outcome succeeds |
| VehicleService.VehicleDeleteOutcome | SecureMiles.Services/Vehicle/VehicleService.cs:174-192 | intended delete: it succeeds iff the caller owns the active vehicle, and then equals the repository's soft delete; otherwise KeyNotFound with no change |
| VehicleService.DeleteVehicle | SecureMiles.Services/Vehicle/VehicleService.cs:174-192 | the in-place delete has exactly the outcome of VehicleDeleteOutcome |
| ProposalsRepository.AddProposalOutcome | SecureMiles.Repositories/Proposals/ProposalsRepository.cs:19-24 | the proposal is stored under a fresh key that is returned, and nothing else changes |
| ProposalsRepository.AddProposal | SecureMiles.Repositories/Proposals/ProposalsRepository.cs:19-24 | the in-place add has exactly the outcome of AddProposalOutcome |
| ProposalsRepository.GetProposalById | SecureMiles.Repositories/Proposals/ProposalsRepository.cs:28-39 | Ok iff a proposal has that id, with the stored row; otherwise KeyNotFound |
| ProposalsRepository.GetProposalByIdForUser | SecureMiles.Repositories/Proposals/ProposalsRepository.cs:56-68 | Ok iff the proposal exists and is the caller's, with the stored row; otherwise KeyNotFound |
| ProposalsRepository.ProposalsByVehicle | SecureMiles.Repositories/Proposals/ProposalsRepository.cs:41-46 | a proposal is listed iff it is stored and for that vehicle, cancelled ones included; each is listed once |
| ProposalsRepository.ProposalsByUser | SecureMiles.Repositories/Proposals/ProposalsRepository.cs:47-54 | a proposal is listed iff it is stored, the caller's, and not "Canceled"; each is listed once; the list runs from the latest submission to the earliest |
| ProposalsRepository.CancelOutcome | SecureMiles.Repositories/Proposals/ProposalsRepository.cs:69-90 | Ok(false) with no change unless the caller owns the proposal; InvalidOperation with no change unless it is "Pending"; otherwise Ok(true), with the proposal "Canceled" at `now` and nothing else changed |
| ProposalsRepository.CancelProposal | SecureMiles.Repositories/Proposals/ProposalsRepository.cs:69-90 | the in-place cancel has exactly the outcome of CancelOutcome |
| ProposalsRepository.CancelTwiceFails | SecureMiles.Repositories/Proposals/ProposalsRepository.cs:69-90 | a cancelled proposal leaves its owner's list, and cancelling it again is InvalidOperation |
| ProposalsRepository.UpdateProposalOutcome | SecureMiles.Repositories/Proposals/ProposalsRepository.cs:94-99 | saving a tracked proposal replaces its row, reports true, and changes nothing else |
| ProposalsRepository.UpdateProposal | SecureMiles.Repositories/Proposals/ProposalsRepository.cs:94-99 | the in-place save has exactly the outcome of UpdateProposalOutcome |
| ProposalService.AttachDocument | SecureMiles.Services/Proposals/ProposalService.cs:70-81 | the saved document, linked to the proposal, is stored under its own key when that key is stored and otherwise under the next key; every other document row is kept and no other row is added |
| Store.SaveDocument | SecureMiles.Services/Proposals/ProposalService.cs:70-81 | a document reachable from a newly saved row is stored under its own key when that key is stored and otherwise under the next key; every other document row is kept and no other row is added |
| ProposalService.SubmitOutcome | SecureMiles.Services/Proposals/ProposalService.cs:37-90 | KeyNotFound, storing nothing, iff the caller does not own the active vehicle; otherwise a "Pending" proposal is stored under the next id first; InvalidOperation iff a file was attached and the upload returned nothing, with the proposal kept; Ok otherwise, returning the new id, and an uploaded document is linked to it exactly as AttachDocument says |
| ProposalService.SubmitProposal | SecureMiles.Services/Proposals/ProposalService.cs:37-90 | the in-place submission has exactly the outcome of SubmitOutcome |
| ProposalService.RecordProposalOutcome | SecureMiles.Services/Proposals/ProposalService.cs:48-82 | a submission for an owned, active vehicle stores a "Pending" proposal under the next id and changes no other table but documents; it fails exactly when a file was attached and the upload returned nothing, and then the documents are unchanged; a successful upload leaves the documents exactly as AttachDocument makes them |
| ProposalService.RecordProposal | SecureMiles.Services/Proposals/ProposalService.cs:48-82 | the in-place writes have exactly the outcome of RecordProposalOutcome |
| ProposalService.Summarize | SecureMiles.Services/Proposals/ProposalService.cs:97-109 | a proposal's list entry carries its id, requested coverage, status, submission date, premium and policy type, and its vehicle's id, make, model and registration |
| ProposalService.SummarizeAll | SecureMiles.Services/Proposals/ProposalService.cs:97-109 | one summary per proposal, in the same order |
| ProposalService.GetProposals | SecureMiles.Services/Proposals/ProposalService.cs:93-111 | one entry per proposal the repository lists for the caller, in that order, none cancelled, each exactly that proposal's summary |
| ProposalService.GetProposalDetails | SecureMiles.Services/Proposals/ProposalService.cs:112-136 | Ok iff the proposal exists and is the caller's, otherwise KeyNotFound; the reply carries its id, requested coverage, status and submission date, and its vehicle's make, model, registration and type |
| ProposalService.CancelOutcome | SecureMiles.Services/Proposals/ProposalService.cs:137-148 | the repository's "missing or not yours" answer becomes KeyNotFound; InvalidOperation iff the caller's proposal is not "Pending"; Ok(true) iff it is, with the repository's cancel as the new state |
| ProposalService.CancelProposal | SecureMiles.Services/Proposals/ProposalService.cs:137-148 | the in-place cancel has exactly the outcome of CancelOutcome |
| PolicyRepository.AddPolicyOutcome | SecureMiles.Repositories/Policy/PolicyRepository.cs:18-23 | the policy is stored under a fresh key that is returned, and nothing else changes |
| PolicyRepository.AddPolicy | SecureMiles.Repositories/Policy/PolicyRepository.cs:18-23 | the in-place add has exactly the outcome of AddPolicyOutcome |
| PolicyRepository.PoliciesByUser | SecureMiles.Repositories/Policy/PolicyRepository.cs:25-31 | a policy is listed iff it is stored, the caller's, and not "Deleted"; each is listed once |
| PolicyRepository.GetPolicyById | SecureMiles.Repositories/Policy/PolicyRepository.cs:32-41 | the policy is returned iff both its id and its owner match, and it is the stored row |
| PolicyRepository.UpdatePolicyOutcome | SecureMiles.Repositories/Policy/PolicyRepository.cs:46-68 | false iff the id is unknown, with no change; otherwise the policy is replaced by its partial update and nothing else changes |
| PolicyRepository.AssignSupplied | SecureMiles.Repositories/Policy/PolicyRepository.cs:55-64 | the field-by-field assignments produce exactly ApplyUpdate: each supplied field (a string that is neither null nor empty, or a present value) replaces the stored one, every other field is kept, and UpdatedAt becomes `now` |
| PolicyRepository.UpdatePolicy | SecureMiles.Repositories/Policy/PolicyRepository.cs:46-68 | the in-place update has exactly the outcome of UpdatePolicyOutcome |
| PolicyRepository.UpdateIsIdempotent | SecureMiles.Repositories/Policy/PolicyRepository.cs:55-64 | applying the same update again changes only the UpdatedAt time |
| PolicyRepository.EmptyUpdateOnlyTouchesUpdatedAt | SecureMiles.Repositories/Policy/PolicyRepository.cs:55-64 | a request that supplies nothing changes only UpdatedAt |
| PolicyRepository.RenewPolicyOutcome | SecureMiles.Repositories/Policy/PolicyRepository.cs:71-89 | false iff the id is unknown, with no change; otherwise the end date and premium are replaced and the status is "Active", with every other field kept |
| PolicyRepository.RenewPolicy | SecureMiles.Repositories/Policy/PolicyRepository.cs:71-89 | the in-place renewal has exactly the outcome of RenewPolicyOutcome |
| PolicyRepository.RenewReactivates | SecureMiles.Repositories/Policy/PolicyRepository.cs:71-89 | an "Expired" policy that is renewed is "Active" again and listed for its owner, with its start, coverage and type kept |
| PolicyService.CreateOutcome | SecureMiles.Services/Policy/PolicyServices.cs:22-66 | each error iff the checks before it pass and its own fails, each storing nothing: KeyNotFound unless the caller owns the active vehicle; InvalidOperation unless the end is after the start; ArgumentNull for a missing type; ArgumentOutOfRange for a reminder before 0001-01-01. Ok iff all pass, and then an "Active" policy is stored with the requested terms and a reminder 30 days before its end |
| PolicyService.CreatePolicy | SecureMiles.Services/Policy/PolicyServices.cs:22-66 | the in-place creation has exactly the outcome of CreateOutcome |
| PolicyService.CreateKeepsDatesOrdered | SecureMiles.Services/Policy/PolicyServices.cs:32-35 | creating keeps every stored policy ending after it starts, and the new policy is listed for its owner |
| PolicyService.Summarize | SecureMiles.Services/Policy/PolicyServices.cs:76-92 | a policy's reply carries its id, type, coverage, premium, start and end dates and status, and its vehicle's id, make, model, registration and type |
| PolicyService.SummarizeAll | SecureMiles.Services/Policy/PolicyServices.cs:76-92 | one summary per policy, in the same order |
| PolicyService.GetPolicies | SecureMiles.Services/Policy/PolicyServices.cs:72-94 | one entry per policy the repository lists for the caller, in that order, none "Deleted", each exactly that policy's summary |
| PolicyService.GetPolicyDetails | SecureMiles.Services/Policy/PolicyServices.cs:95-122 | Ok iff the policy is the caller's, otherwise KeyNotFound; the reply is exactly that policy's summary |
| PolicyService.AdminCannotUpdateOthersPolicy | SecureMiles.Services/Policy/PolicyServices.cs:129-134 | as written, an administrator updating another user's policy gets KeyNotFound, where the intended outcome does not |
| PolicyService.EndOnlyUpdateInvertsDates | SecureMiles.Services/Policy/PolicyServices.cs:137-148 | as written, moving only the end date before the start succeeds and stores a policy that ends before it starts; the intended outcome is InvalidOperation with no change |
| PolicyService.UpdateOutcomeAsWritten | SecureMiles.Services/Policy/PolicyServices.cs:126-151 | as written: KeyNotFound iff the caller does not own the policy, administrator or not; InvalidOperation iff both dates are supplied and the end is not after the start, so a single supplied date is never checked; failures change nothing; Ok iff neither, and then the repository's partial update is stored |
| PolicyService.UpdateOutcome | SecureMiles.Services/Policy/PolicyServices.cs:126-151 | intended update: KeyNotFound iff the policy is missing or neither the caller's nor the caller an administrator; InvalidOperation iff the resulting dates do not have the end after the start; Ok iff neither, and then the repository's partial update is stored; failures change nothing |
| PolicyService.UpdatePolicy | SecureMiles.Services/Policy/PolicyServices.cs:126-151 | the in-place update has exactly the outcome of UpdateOutcome |
| PolicyService.UpdateKeepsDatesOrdered | SecureMiles.Services/Policy/PolicyServices.cs:137-141 | the intended update keeps every stored policy ending after it starts |
| PolicyService.RenewOutcome | SecureMiles.Services/Policy/PolicyServices.cs:157-193 | KeyNotFound iff the caller does not own the policy; InvalidOperation iff it is neither "Active" nor "Expired"; ArgumentOutOfRange iff the new end date would pass 9999-12-31; Ok iff none of these, and then the end moves by the calendar months (strictly later), the premium is the override if given, and the status is "Active" |
| PolicyService.RenewPolicy | SecureMiles.Services/Policy/PolicyServices.cs:157-193 | the in-place renewal has exactly the outcome of RenewOutcome |
| PolicyService.RenewKeepsDatesOrdered | SecureMiles.Services/Policy/PolicyServices.cs:167-176 | renewing keeps every stored policy ending after it starts, and a renewed policy is not refused for its status when renewed again |
| PaymentRepository.AddPaymentOutcome | SecureMiles.Repositories/FakePayment/PaymentRepository.cs:17-22 | the payment is stored under a fresh key that is returned, and nothing else changes |
| PaymentRepository.AddPayment | SecureMiles.Repositories/FakePayment/PaymentRepository.cs:17-22 | the in-place add has exactly the outcome of AddPaymentOutcome |
| PaymentRepository.GetPaymentById | SecureMiles.Repositories/FakePayment/PaymentRepository.cs:24-35 | Ok iff a payment has that id, with the stored row; otherwise KeyNotFound |
| PaymentRepository.GetPaymentByIdForUser | SecureMiles.Repositories/FakePayment/PaymentRepository.cs:51-62 | Ok iff the payment exists and was made by the caller; otherwise KeyNotFound |
| PaymentRepository.PaymentsByUser | SecureMiles.Repositories/FakePayment/PaymentRepository.cs:37-42 | a payment is listed iff it is stored and made by the user; each is listed once |
| PaymentRepository.PaymentsByPolicy | SecureMiles.Repositories/FakePayment/PaymentRepository.cs:44-49 | a payment is listed iff it is stored and for the policy; each is listed once |
| PaymentRepository.UpdatePaymentOutcome | SecureMiles.Repositories/FakePayment/PaymentRepository.cs:64-69 | saving a tracked payment replaces its row, reports true, and changes nothing else |
| PaymentRepository.UpdatePayment | SecureMiles.Repositories/FakePayment/PaymentRepository.cs:64-69 | the in-place save has exactly the outcome of UpdatePaymentOutcome |
| PaymentRepository.AddThenFind | SecureMiles.Repositories/FakePayment/PaymentRepository.cs:17-49 | a stored payment is found by id, by id for its payer, and in its payer's and its policy's lists; earlier payments stay listed |
| PaymentRepository.OthersPaymentsAreHidden | SecureMiles.Repositories/FakePayment/PaymentRepository.cs:51-62 | another user's payment is KeyNotFound for the caller and absent from the caller's list, though it exists |
| PaymentService.ProcessOutcome | SecureMiles.Services/FakePayment/PaymentService.cs:47-139 | KeyNotFound, then InvalidOperation (not "Approved"), then ArgumentOutOfRange (no date a year on), each writing nothing; otherwise, in order, the policy, the payment and the "Converted to Policy" proposal are written; then KeyNotFound for a caller with no stored user or an empty e-mail, then InvalidOperation for a document not generated, both keeping the writes; Ok exactly when none fails, replying with the issued policy |
| PaymentService.ProcessPayment | SecureMiles.Services/FakePayment/PaymentService.cs:47-139 | the in-place payment has exactly the outcome of ProcessOutcome |
| PaymentService.IssuedPolicyTerms | SecureMiles.Services/FakePayment/PaymentService.cs:62-99 | the issued policy is the proposal owner's, for its vehicle, linked to it, with its premium and type (or the default), "Active", zero coverage, starting now, ending one year on, with a reminder 30 days before its end; exactly one payment is recorded for it: the premium, in INR, "Completed" |
| PaymentService.SecondPaymentFails | SecureMiles.Services/FakePayment/PaymentService.cs:56-59 | after a payment the proposal is converted, so paying again or cancelling it is InvalidOperation with no change |
| PaymentService.LateFailureKeepsWrites | SecureMiles.Services/FakePayment/PaymentService.cs:81-122 | without a generated document the call fails, yet the policy is issued and the proposal converted |
| ClaimsRepository.AddClaimOutcome | SecureMiles.Repositories/Claims/ClaimsRepository.cs:18-23 | the claim is stored under a fresh key that is returned, and nothing else changes |
| ClaimsRepository.AddClaim | SecureMiles.Repositories/Claims/ClaimsRepository.cs:18-23 | the in-place add has exactly the outcome of AddClaimOutcome |
| ClaimsRepository.ClaimsByUser | SecureMiles.Repositories/Claims/ClaimsRepository.cs:24-32 | a claim is listed iff it is stored and on one of the user's policies; each is listed once; the list runs from the latest created to the earliest |
| ClaimsRepository.GetClaimByIdForUser | SecureMiles.Repositories/Claims/ClaimsRepository.cs:34-41 | the claim is returned iff it exists and is on one of the user's policies |
| ClaimsRepository.GetClaimOwner | SecureMiles.Repositories/Claims/ClaimsRepository.cs:162-174 | Ok iff the claim exists, with the owner of its policy; otherwise KeyNotFound |
| ClaimsRepository.OwnerSeesClaim | SecureMiles.Repositories/Claims/ClaimsRepository.cs:34-41 | the owner reported for a claim is exactly the user for whom the claim is visible |
| ClaimsRepository.RejectClaimOutcome | SecureMiles.Repositories/Claims/ClaimsRepository.cs:102-127 | KeyNotFound iff the claim is unknown; InvalidOperation, with no change, iff it is neither "Pending" nor "UnderReview"; Ok iff it is one of them, and then it is "Rejected" at `now` with the notes as its description, every other field kept |
| ClaimsRepository.RejectClaim | SecureMiles.Repositories/Claims/ClaimsRepository.cs:102-127 | the in-place rejection has exactly the outcome of RejectClaimOutcome |
| ClaimsRepository.RejectTwiceFails | SecureMiles.Repositories/Claims/ClaimsRepository.cs:113-116 | a rejected claim can be neither rejected again nor deleted |
| ClaimsRepository.UpdateClaimOutcome | SecureMiles.Repositories/Claims/ClaimsRepository.cs:130-135 | saving a stored claim replaces its row and changes nothing else |
| ClaimsRepository.UpdateClaim | SecureMiles.Repositories/Claims/ClaimsRepository.cs:130-135 | the in-place save has exactly the outcome of UpdateClaimOutcome |
| ClaimsRepository.DeleteClaimOutcome | SecureMiles.Repositories/Claims/ClaimsRepository.cs:138-158 | KeyNotFound iff the claim is unknown; InvalidOperation, with no change, iff it is neither "Pending" nor "UnderReview"; Ok iff it is one of them, and then the claim and exactly its documents are removed |
| ClaimsRepository.DeleteClaim | SecureMiles.Repositories/Claims/ClaimsRepository.cs:138-158 | the in-place delete has exactly the outcome of DeleteClaimOutcome |
| ClaimsRepository.DeleteRemovesExactly | SecureMiles.Repositories/Claims/ClaimsRepository.cs:149-155 | every other claim and every document of another claim stays as it was, and the deleted claim is gone from its owner's list and lookup |
| ClaimsService.AttachClaimDocument | SecureMiles.Services/Claims/ClaimsService.cs:68-81 | the saved document, linked to the claim, is stored under its own key when that key is stored and otherwise under the next key; every other document row is kept and no other row is added |
| ClaimsService.FileOutcome | SecureMiles.Services/Claims/ClaimsService.cs:29-91 | KeyNotFound iff the caller does not own the policy; InvalidOperation when it is not "Active", and InvalidOperation when the incident is after `now`; these store nothing. Otherwise a "Pending" claim is stored under the next id first; a failed upload is InvalidOperation with the claim kept; Ok iff the guards pass and no upload failed, with the reply carrying the new id and the policy's type, coverage and premium, and an uploaded document linked exactly as AttachClaimDocument says |
| ClaimsService.FileClaim | SecureMiles.Services/Claims/ClaimsService.cs:29-91 | the in-place filing has exactly the outcome of FileOutcome |
| ClaimsService.RecordClaimOutcome | SecureMiles.Services/Claims/ClaimsService.cs:50-80 | a filing that passed its guards stores a "Pending" claim under the next id and changes no other table but documents; it fails exactly when a file was attached and the upload returned nothing, and then the documents are unchanged; a successful upload leaves the documents exactly as AttachClaimDocument makes them |
| ClaimsService.RecordClaim | SecureMiles.Services/Claims/ClaimsService.cs:50-80 | the in-place writes have exactly the outcome of RecordClaimOutcome |
| ClaimsService.FiledClaimIsListed | SecureMiles.Services/Claims/ClaimsService.cs:51-65 | a filed claim is "Pending", on the requested policy, with an empty description when none was given, and listed for the caller |
| ClaimsService.IncidentNowIsAccepted | SecureMiles.Services/Claims/ClaimsService.cs:45-48 | an incident dated exactly `now` is accepted |
| ClaimsService.SummarizeDocuments | SecureMiles.Services/Claims/ClaimsService.cs:108-119 | one document summary per document, in the same order, with its id, type and path |
| ClaimsService.ClaimDocuments | SecureMiles.Services/Claims/ClaimsService.cs:108-119 | a document is shown with a claim iff it is stored and linked to that claim; each is shown once |
| ClaimsService.Summarize | SecureMiles.Services/Claims/ClaimsService.cs:96-120 | a claim's summary carries its own id, policy id, incident date, description, status, amount, approval date and created and updated times, its policy's type, coverage, premium and dates, and the summaries of exactly the documents linked to it |
| ClaimsService.SummarizeAll | SecureMiles.Services/Claims/ClaimsService.cs:96-120 | one summary per claim, in the same order |
| ClaimsService.ListedClaimsAreOwned | SecureMiles.Repositories/Claims/ClaimsRepository.cs:24-32 | every claim listed for a user is on a stored policy of that user's |
| ClaimsService.GetClaims | SecureMiles.Services/Claims/ClaimsService.cs:92-123 | one entry per claim the repository lists for the caller, in that order, each on a policy of the caller's, and each entry exactly that claim's summary |
| ClaimsService.Details | SecureMiles.Services/Claims/ClaimsService.cs:135-174 | the detail record carries every claim field including the created and updated times; its policy's id, type, coverage, premium and start date; the summaries of exactly the documents linked to the claim; and the registration, model, year, fuel type, chassis and engine numbers of the policy's vehicle |
| ClaimsService.GetClaimDetailsAsWritten | SecureMiles.Services/Claims/ClaimsService.cs:126-175 | as written: Ok iff the claim exists and is on one of the caller's policies, otherwise KeyNotFound; the reply is the claim's detail record with the policy end date left at 0001-01-01 |
| ClaimsService.DetailsLoseEndDate | SecureMiles.Services/Claims/ClaimsService.cs:146-153 | for every owned claim whose policy ends after it starts, the as-written detail reply shows an end date other than the policy's |
| ClaimsService.GetClaimDetails | SecureMiles.Services/Claims/ClaimsService.cs:126-175 | intended: Ok iff the claim exists and is on one of the caller's policies, otherwise KeyNotFound; the reply is the claim's detail record with the policy's own end date |
| ClaimsService.DetailsAgreeWithList | SecureMiles.Services/Claims/ClaimsService.cs:96-153 | the intended detail reply shows the same claim fields, policy terms and documents as the claim's entry in the list |
| ClaimsService.UpdateClaimGuard | SecureMiles.Services/Claims/ClaimsService.cs:176-185 | UnauthorizedAccess iff a non-administrator sets the status; otherwise KeyNotFound iff the procedure returns no row; Ok iff neither, with the procedure's row |
| ClaimsService.ApproveClaimGuard | SecureMiles.Services/Claims/ClaimsService.cs:186-196 | UnauthorizedAccess iff the caller is not an administrator; otherwise KeyNotFound iff the procedure returns no row; Ok iff neither, with the procedure's row |
| ClaimsService.RejectOutcome | SecureMiles.Services/Claims/ClaimsService.cs:199-216 | UnauthorizedAccess iff the caller is not an administrator, then ArgumentNull iff the notes are missing, each with no change; then KeyNotFound iff the claim is unknown and InvalidOperation iff it is not open, passed on from the repository; Ok iff none of these, with the repository's rejection stored and the reply's notes the claim's new description |
| ClaimsService.RejectClaim | SecureMiles.Services/Claims/ClaimsService.cs:199-216 | the in-place rejection has exactly the outcome of RejectOutcome |
| ClaimsService.DeleteOutcome | SecureMiles.Services/Claims/ClaimsService.cs:219-235 | KeyNotFound, with no change, iff the claim is not the caller's, checked before its status; InvalidOperation iff the caller's claim is not open; Ok iff it is open, and then the repository's delete is the new state and the reply carries the claim's id and status |
| ClaimsService.DeleteClaim | SecureMiles.Services/Claims/ClaimsService.cs:219-235 | the in-place delete has exactly the outcome of DeleteOutcome |
| DocumentRepository.AddOutcome | SecureMiles.Repositories/Documents/DocumentRepository.cs:17-30 | the document is stored under a fresh key, nothing else changes, and the reply echoes its path, type and upload time |
| DocumentRepository.AddDocument | SecureMiles.Repositories/Documents/DocumentRepository.cs:17-30 | the in-place add has exactly the outcome of AddOutcome |
| DocumentRepository.GetDocumentById | SecureMiles.Repositories/Documents/DocumentRepository.cs:33-46 | the document is returned iff it exists and its claim's policy or its proposal belongs to the user |
| DocumentRepository.VisibilityFollowsOwnership | SecureMiles.Repositories/Documents/DocumentRepository.cs:40-45 | a document on the caller's proposal is found; a document linked to nothing is found by nobody |
| DocumentRepository.SingleLinkHasOneReader | SecureMiles.Repositories/Documents/DocumentRepository.cs:40-45 | a document with a single link is visible to at most one user |
| DocumentRepository.AddThenFind | SecureMiles.Repositories/Documents/DocumentRepository.cs:17-46 | a stored document linked to the caller's proposal is found by the caller under its new id |
| DocumentRepository.DeleteOutcome | SecureMiles.Repositories/Documents/DocumentRepository.cs:51-55 | exactly that document's row is removed; every other row stays as it was |
| DocumentRepository.DeleteDocument | SecureMiles.Repositories/Documents/DocumentRepository.cs:51-55 | the in-place delete has exactly the outcome of DeleteOutcome |
| DocumentRepository.DeleteHidesOnlyThat | SecureMiles.Repositories/Documents/DocumentRepository.cs:51-55 | after a delete the document is found by nobody, and every other lookup answers as before |
| AdminRepository.UsersByCreation | SecureMiles.Repositories/Admin/AdminRepository.cs:24 | every stored user exactly once, in ascending CreatedAt order, as many as there are rows |
| AdminRepository.GetAllUsers | SecureMiles.Repositories/Admin/AdminRepository.cs:22-33 | the page is the ordered users from the page's start, at most pageSize of them, all stored; totalCount is the number of all users whatever the page |
| AdminRepository.UsersPagesConcatenate | SecureMiles.Repositories/Admin/AdminRepository.cs:27-30 | pages 1 to n read in turn are the first n times pageSize users of the ordered list (or all of them) |
| AdminRepository.UsersPagesAreDisjoint | SecureMiles.Repositories/Admin/AdminRepository.cs:27-30 | two different pages never show the same user |
| Tables.PageStartIsOffset | SecureMiles.Repositories/Admin/AdminRepository.cs:28 | the page start is the offset `(pageNumber - 1) * pageSize` |
| AdminRepository.GetUserById | SecureMiles.Repositories/Admin/AdminRepository.cs:130-133 | nothing iff no user has that id; otherwise the stored row |
| AdminRepository.UpdateUserRoleOutcome | SecureMiles.Repositories/Admin/AdminRepository.cs:135-146 | no change when the role is already exactly the new one; otherwise only that user's row changes, getting the new role and `now` as its update time |
| AdminRepository.UpdateUserRole | SecureMiles.Repositories/Admin/AdminRepository.cs:135-146 | the in-place update has exactly the outcome of UpdateUserRoleOutcome |
| AdminRepository.UpdateRoleIsIdempotent | SecureMiles.Repositories/Admin/AdminRepository.cs:138-145 | applying the same role twice, reading the user back in between, has the effect of applying it once; only role and update time change |
| AdminService.ToResponses | SecureMiles.Services/Admin/AdminService.cs:26-34 | one response per user, in the same order |
| AdminService.GetAllUsers | SecureMiles.Services/Admin/AdminService.cs:22-43 | the reply's users are exactly the responses for the repository's page, in order; the total count is the number of users, and the page number and size are echoed |
| AdminService.ParseRole | SecureMiles.Services/Admin/AdminService.cs:58-61 | a role is recognised iff the text spells its name ignoring letter case; a missing text, or one matching no name, is refused |
| AdminService.ParseRoleName | SecureMiles.Common/DTOs/Admin/UpdateUserRoleRequestDto.cs:12-17 | every role name parses back to its role, in any letter case |
| AdminService.ParseRoleIgnoresCase | SecureMiles.Services/Admin/AdminService.cs:58 | any two texts that differ only in letter case parse to the same role, or are both refused |
| AdminService.UpdateRoleOutcome | SecureMiles.Services/Admin/AdminService.cs:48-77 | KeyNotFound iff the user is unknown, whatever the role; then InvalidOperation iff the role names no role; both change nothing; Ok iff the user is known and the role parses, and then the requested text is stored exactly as given and the reply reports the old role and the requested text |
| AdminService.UpdateUserRole | SecureMiles.Services/Admin/AdminService.cs:48-77 | the in-place role change has exactly the outcome of UpdateRoleOutcome |
| AdminService.RoleIsStoredAsGiven | SecureMiles.Services/Admin/AdminService.cs:63-65 | asking for the current role changes nothing; "admin" given to an "Admin" is stored as "admin", not normalised |
| AdminService.SecondRoleChangeIsNoOp | SecureMiles.Repositories/Admin/AdminRepository.cs:138-141 | repeating a successful role change changes nothing more and reports the new role as the old one |
| Calendar.AddYearsIsLater | SecureMiles.Services/FakePayment/PaymentService.cs:69 | adding one or more years lands strictly later, 29 February included |
| Calendar.AddDaysBackwardIsEarlier | SecureMiles.Services/FakePayment/PaymentService.cs:70 | going back a positive number of days lands strictly earlier |
| Calendar.AddDaysBackInRange | SecureMiles.Services/FakePayment/PaymentService.cs:70 | going back up to 31 days from a date in year 2 or later stays representable |
| Calendar.AddMonthsIsLater | SecureMiles.Services/Policy/PolicyServices.cs:173 | adding one or more calendar months lands strictly later, whatever the clamping of the day |
| Calendar.TwelveMonthsFromNewYear | SecureMiles.Services/Policy/PolicyServices.cs:173 | months are calendar months: 2025-01-01 plus twelve months is 2026-01-01 |
| Calendar.MonthEndIsClamped | SecureMiles.Services/Policy/PolicyServices.cs:173 | the day is clamped to the end of a shorter month: 2024-01-31 plus one month is 2024-02-29 |

## Left out

- Controllers, authentication and JWT handling are not modelled. The administrator role reaches the services as the `isAdmin` argument.
- The PayPal payment path is not modelled.
- E-mail sending and PDF rendering are not modelled. The payment's only trace of them is the `documentGenerated` argument, and the e-mail check reads the caller's stored user row.
- The document-upload service and blob storage are not modelled; their reply is an optional document argument. The proposal submission passes the user id and proposal id to that service in the reverse of its declared parameter order (`ProposalService.cs:74`); the model does not depend on that order.
- The stored procedures UpdateClaimInformation, ApproveClaim, GetVehicleDetails, UpdateVehicleDetails, GetUserDetails, GetAllClaimsForReview and GetAllPolicies are not modelled: their SQL is not visible. Where a service acts on such a procedure's reply, the reply is an argument. Otherwise the procedure is left out, including AdminService's GetUserDetailsAsync, GetAllClaimsForReviewAsync and GetAllPoliciesAsync.
- ClaimsService.UpdateClaimGuard: models the authorisation guard and the missing-row case only; what the procedure writes is not visible.
- ClaimsService.ApproveClaimGuard: models the authorisation guard and the missing-row case only; the approved amount and date written by the procedure are not visible.
- VehicleService.UpdateVehicleOutcome: models only how the procedure's affected-row count is reported. The KeyNotFound branch at `VehicleService.cs:156-160` cannot be reached, because the details lookup never returns null.
- VehicleService.AddVehicleOutcome: the vehicle entity shown has no IsActive field, so whether a new vehicle is stored active is an argument.
- Concurrency, transactions and a failing `SaveChangesAsync` are not modelled; every save succeeds atomically.
- Updating or removing an entity that is not tracked is excluded by preconditions. That covers UpdateProposal, UpdatePayment, UpdateClaim, DocumentRepository.DeleteOutcome and AdminRepository.UpdateUserRoleOutcome. The services only pass rows they have just loaded.
- A database without ORDER BY returns rows in an unspecified order. The model returns them in key order, and rows with equal sort keys keep key order.
- Identity keys, counts and page offsets are unbounded integers, so 32-bit overflow is not modelled.
- `decimal` amounts are modelled as real numbers.
- `decimal.Parse` of a claim amount is not modelled: the parsed amount is an argument, and the format exception for malformed text is left out.
- Each operation reads the clock once (`now`). The source calls `DateTime.UtcNow` several times within one operation.
- Only whole days are added or subtracted. Ticks and time zones are not modelled.
- PolicyRepository.AssignSupplied: does not recompute the renewal reminder when the end date changes, as the source does not.
- AdminService.ParseRole: folds only ASCII letter case. `Enum.TryParse` also accepts numeric values, comma-separated lists and surrounding white space, which the model refuses.
- AdminRepository.GetAllUsers: requires a page number and page size of at least 1. For smaller values the SQL query is rejected (a negative OFFSET or a FETCH of no rows), and that database error is not modelled.
- Validation attributes on request DTOs (`[Required]`, `[StringLength]`, `[Range]`) are not modelled. The one exception is the renewal period of 1 to 24 months (`RenewPolicyRequestDto.cs:9`), which PolicyService.RenewOutcome requires.
- No code shown sets a proposal to "Approved". The payment operations take a database in which some proposal may already be approved.

## Findings

| source | as written | input that shows it | evidently intended | confidence | as-written member | corrected member |
|---|---|---|---|---|---|---|
| SecureMiles.Services/Vehicle/VehicleService.cs:177-182 | The activity test reads `IsActive` from the details record built at `VehicleRepository.cs:59-75`. That field is never assigned, so it is always false. | any delete, including of the caller's own active vehicle | delete the caller's active vehicle, and refuse only a missing or already deleted one | high (proved; not executed) | VehicleService.DeleteVehicleAsWritten | VehicleService.VehicleDeleteOutcome |
| SecureMiles.Services/Policy/PolicyServices.cs:129-134 | The lookup already filters by the caller's id, so the `!isAdmin` exemption never applies. | an administrator updating another user's policy | administrators may update any stored policy | medium (proved; not executed) | PolicyService.AdminCannotUpdateOthersPolicy | PolicyService.UpdateOutcome |
| SecureMiles.Services/Policy/PolicyServices.cs:137-141 | The end-after-start rule is checked only when both dates are supplied. | a policy running 2025-01-01 to 2026-01-01, updated with only an end date of 2024-01-01 | the dates the policy will have must keep the end after the start | high (proved; not executed) | PolicyService.EndOnlyUpdateInvertsDates | PolicyService.UpdateKeepsDatesOrdered |
| SecureMiles.Services/Claims/ClaimsService.cs:146-153 | The detail reply's policy block never assigns PolicyEndDate, so it is always 0001-01-01, while the claim list (ClaimsService.cs:114) shows the real end date. | the owner asks for the details of a claim on a policy running 2025-01-01 to 2026-01-01 | show the policy's own end date, as the claim list does | high (proved; not executed) | ClaimsService.DetailsLoseEndDate | ClaimsService.GetClaimDetails |

/**
 * The records the lifecycle core stores (SecureMiles.Models), reduced to the
 * columns the services and repositories read or write, and the status
 * strings the code writes into them. Navigation properties are not fields:
 * a related row is found through its foreign key.
 */
module Entities {
  import opened Errors
  import opened Calendar

  // Status strings, exactly as the code writes and compares them.
  const Pending: string := "Pending"
  const Canceled: string := "Canceled"
  const Approved: string := "Approved"
  const ConvertedToPolicy: string := "Converted to Policy"
  const Active: string := "Active"
  const Expired: string := "Expired"
  const Deleted: string := "Deleted"
  const UnderReview: string := "UnderReview"
  const Rejected: string := "Rejected"
  const Completed: string := "Completed"

  datatype User = User(
    id: int,
    name: string,
    email: string,
    role: string,
    isActive: bool,
    createdAt: DateTime,
    updatedAt: Option<DateTime>)

  datatype Vehicle = Vehicle(
    id: int,
    userId: int,
    vehicleType: string,
    make: string,
    model: string,
    year: int,
    registrationNumber: string,
    chassisNumber: string,
    engineNumber: string,
    color: string,
    fuelType: string,
    purchaseDate: Option<DateTime>,
    marketValue: real,
    isActive: bool,
    createdAt: DateTime,
    updatedAt: Option<DateTime>)

  datatype Proposal = Proposal(
    id: int,
    userId: int,
    vehicleId: int,
    policyType: Option<string>,
    requestedCoverage: real,
    premiumAmount: real,
    status: string,
    submissionDate: DateTime,
    approvalDate: Option<DateTime>,
    createdAt: DateTime,
    updatedAt: Option<DateTime>)

  datatype Policy = Policy(
    id: int,
    userId: int,
    vehicleId: int,
    proposalId: Option<int>,
    policyType: string,
    coverageAmount: real,
    premiumAmount: real,
    status: string,
    startDate: DateTime,
    endDate: DateTime,
    renewalReminderDate: Option<DateTime>,
    createdAt: DateTime,
    updatedAt: Option<DateTime>)

  datatype Payment = Payment(
    id: int,
    transactionId: Option<string>,
    amount: real,
    currency: Option<string>,
    status: Option<string>,
    userId: int,
    policyId: int,
    createdAt: DateTime)

  datatype Claim = Claim(
    id: int,
    policyId: int,
    status: string,
    incidentDate: DateTime,
    description: string,
    claimAmount: Option<real>,
    approvalDate: Option<DateTime>,
    createdAt: DateTime,
    updatedAt: Option<DateTime>)

  datatype Document = Document(
    id: int,
    proposalId: Option<int>,
    claimId: Option<int>,
    docType: string,
    filePath: string,
    uploadedDate: DateTime)

  // Primary keys, for the tables' key invariant.
  function UserKey(u: User): int { u.id }
  function VehicleKey(v: Vehicle): int { v.id }
  function ProposalKey(p: Proposal): int { p.id }
  function PolicyKey(p: Policy): int { p.id }
  function PaymentKey(p: Payment): int { p.id }
  function ClaimKey(c: Claim): int { c.id }
  function DocumentKey(d: Document): int { d.id }

  // Lookups by primary key (`x => x.Id == id`).
  function UserWithId(id: int): User -> bool { (u: User) => u.id == id }
  function ProposalWithId(id: int): Proposal -> bool { (p: Proposal) => p.id == id }
  function PolicyWithId(id: int): Policy -> bool { (p: Policy) => p.id == id }
  function PaymentWithId(id: int): Payment -> bool { (p: Payment) => p.id == id }
  function ClaimWithId(id: int): Claim -> bool { (c: Claim) => c.id == id }
}

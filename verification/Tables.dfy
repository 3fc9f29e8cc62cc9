/** The rows the review of change requests reads and writes. An id or a version of 0 stands for
    NULL, as it does once the Go code has mapped a row. */
module Tables {
  import opened Text

  type Id = nat
  type Time = int

  datatype Error =
    | NotFound | ItemNotInRequest | ItemDecided | UnknownDecision | ReasonRequired | SelfReview | NoteRequired
    | NoAdapter | TargetRequired | BadValue | Stale | Forbidden | Constraint
    | AlreadyResolved | PendingItems | DecidedItems | NotYours | UnknownPerson | Invalid | KeyReused

  datatype Result<+T> = Ok(value: T) | Err(error: Error)

  // ---- Change requests ---------------------------------------------------

  datatype Status = Draft | Submitted | InReview | Resolved | Withdrawn
  datatype ItemStatus = Pending | Approved | Rejected | NeedsVerification

  datatype Operation =
    | SetDisplayName | SetCallSign
    | AddContact | UpdateContact | ArchiveContact | SetPrimary | SetVisibility
    | SetSharing | AddRelationship | CorrectRelationship | Other

  /** What the submitter said, kept beside whatever officers conclude from it. */
  datatype Supplied = Supplied(source: string, name: string, callSign: string, contact: string,
                               relationship: string, summary: string, receivedBy: Id, submittedAt: Time)

  datatype Request = Request(status: Status, requester: Id, target: Id, supplied: Supplied,
                             triagedBy: Id, triagedAt: Option<Time>,
                             resolvedAt: Option<Time>, resolvedBy: Id, resolutionNote: string,
                             withdrawnAt: Option<Time>, version: nat)

  datatype Proposal = Proposal(operation: Operation, value: string, targetKind: string, targetId: Id,
                               targetVersion: nat, sensitive: bool)

  /** reviewed_by, reviewed_at, decision_reason and verification_note. */
  datatype Verdict = Verdict(reviewer: Id, at: Option<Time>, reason: string, note: string)

  const NO_VERDICT := Verdict(0, None, "", "")

  /** applied_at, applied_value and the resource an approved item produced. */
  datatype Applied = Applied(at: Time, value: string, kind: string, id: Id, version: nat)

  datatype Item = Item(request: Id, ordinal: nat, proposal: Proposal, status: ItemStatus, verdict: Verdict,
                       applied: Option<Applied>, version: nat)

  // ---- Canonical data ----------------------------------------------------

  datatype Person = Person(displayName: string, sortName: string, callSign: string, licenseClass: string,
                           examiner: bool, version: nat)

  datatype Contact = Contact(person: Id, kind: string, caption: string, raw: string, norm: string,
                             primary: bool, archived: bool, postal: seq<string>, version: nat)

  datatype VisibilityEvent = VisibilityEvent(contact: Id, audience: string, source: string, at: Time, actor: Id)

  datatype SharingEvent = SharingEvent(person: Id, participates: bool, source: string, at: Time, actor: Id, reason: string)

  /** The club's own records; the id of an event is its position in the log, counted from 1. */
  datatype Club = Club(persons: map<Id, Person>, contacts: map<Id, Contact>, nextContact: Id,
                       visibility: seq<VisibilityEvent>, sharing: seq<SharingEvent>)

  /** What is asked to be filed. */
  datatype NewRequest = NewRequest(supplied: Supplied, requester: Id, target: Id, proposals: seq<Proposal>)

  /** An idempotency record: who used the key, what for, and the request that came of it. The source stores a
      hash of what it was used for. */
  datatype ClaimKey = ClaimKey(actor: Id, key: string)
  datatype Claim = Claim(deed: NewRequest, request: Id)

  datatype Store = Store(requests: map<Id, Request>, nextRequest: Id, items: map<Id, Item>, nextItem: Id, club: Club,
                         claims: map<ClaimKey, Claim>)

  datatype Principal = Principal(userId: Id, caps: set<string>)
}

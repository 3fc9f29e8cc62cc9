/** The review of change requests: what each call does to the tables, and the service that does it
    through guarded UPDATE statements inside a transaction. */
module Review {
  import opened Text
  import opened Tables
  import opened Adapters

  datatype Outcome<+T> = Outcome(store: Store, answer: Result<T>)

  function Refuse<T>(s: Store, e: Error): Outcome<T> { Outcome(s, Err(e)) }

  predicate Terminal(status: Status) { status == Resolved || status == Withdrawn }

  // ---- Create ------------------------------------------------------------

  const SOURCES := {"officer_phone", "officer_email", "officer_mail", "officer_meeting", "member"}
  const TARGET_KINDS := {"person", "contact_method", "membership", "relationship"}
  const MAX_SUMMARY := 4000
  const MAX_SUPPLIED := 200
  const MAX_VALUE := 2000
  const MAX_ITEMS := 25

  predicate ValidProposal(p: Proposal) {
    && ByteLen(p.value) <= MAX_VALUE
    && (RequiresValue(p.operation) ==> TrimSpace(p.value) != "")
    && (AdapterOf(p.operation) == ContactVisibility ==> ValidAudience(TrimSpace(p.value)))
    && (p.targetKind == "" <==> p.targetId == 0)
    && (p.targetKind != "" ==> p.targetKind in TARGET_KINDS)
  }

  /** validateCreate. */
  predicate ValidNew(n: NewRequest) {
    && n.supplied.source in SOURCES
    && TrimSpace(n.supplied.summary) != "" && ByteLen(n.supplied.summary) <= MAX_SUMMARY
    && ByteLen(n.supplied.name) <= MAX_SUPPLIED && ByteLen(n.supplied.callSign) <= MAX_SUPPLIED
    && ByteLen(n.supplied.contact) <= MAX_SUPPLIED && ByteLen(n.supplied.relationship) <= MAX_SUPPLIED
    && (n.target != 0 || TrimSpace(n.supplied.name) != "" || TrimSpace(n.supplied.callSign) != "" ||
        TrimSpace(n.supplied.contact) != "")
    && 1 <= |n.proposals| <= MAX_ITEMS
    && forall p | p in n.proposals :: ValidProposal(p)
  }

  /** The CHECK constraints an insert must pass beyond what validateCreate has looked at. */
  predicate InsertAllowed(n: NewRequest) {
    (n.supplied.source == "member" ==> n.requester != 0) &&
    forall p | p in n.proposals :: p.targetVersion != 0 ==> p.targetId != 0
  }

  function FreshRequest(n: NewRequest, who: Principal, now: Time): Request {
    var supplied := n.supplied.(summary := TrimSpace(n.supplied.summary), receivedBy := who.userId, submittedAt := now);
    Request(Submitted, n.requester, n.target, supplied, 0, None, None, 0, "", None, 1)
  }

  function FreshItem(request: Id, ordinal: nat, p: Proposal): Item {
    Item(request, ordinal, p, Pending, NO_VERDICT, None, 1)
  }

  /** One insert per proposal, in order, under the next free ids. */
  function Inserted(items: map<Id, Item>, request: Id, first: Id, proposals: seq<Proposal>): (r: map<Id, Item>)
    ensures forall i :: i in r <==> i in items || first <= i < first + |proposals|
    ensures forall i | i in r :: r[i] == if first <= i < first + |proposals|
                                         then FreshItem(request, i - first, proposals[i - first]) else items[i]
  {
    if proposals == [] then items
    else
      var n := |proposals| - 1;
      Inserted(items, request, first, proposals[..n])[first + n := FreshItem(request, n, proposals[n])]
  }

  /** createFingerprint: what two requests must agree in to be one; the actor is part of the claim's key. */
  function Deed(n: NewRequest): NewRequest {
    n.(supplied := n.supplied.(summary := TrimSpace(n.supplied.summary), receivedBy := 0, submittedAt := 0))
  }

  predicate Claimed(s: Store, who: Principal, key: string) { key != "" && ClaimKey(who.userId, key) in s.claims }

  function Claims(s: Store, who: Principal, n: NewRequest, key: string): map<ClaimKey, Claim> {
    if key == "" then s.claims else s.claims[ClaimKey(who.userId, key) := Claim(Deed(n), s.nextRequest)]
  }

  /** What a key that was used before is answered with. */
  function Replay(s: Store, claim: Claim, n: NewRequest): Outcome<Id> {
    if claim.deed != Deed(n) then Refuse(s, KeyReused)
    else if claim.request !in s.requests then Refuse(s, NotFound)
    else Outcome(s, Ok(claim.request))
  }

  function Create(s: Store, who: Principal, n: NewRequest, key: string, now: Time): Outcome<Id> {
    if !ValidNew(n) then Refuse(s, Invalid)
    else if Claimed(s, who, key) then Replay(s, s.claims[ClaimKey(who.userId, key)], n)
    else if n.target != 0 && n.target !in s.club.persons then Refuse(s, UnknownPerson)
    else if !InsertAllowed(n) then Refuse(s, Constraint)
    else
      Outcome(s.(requests := s.requests[s.nextRequest := FreshRequest(n, who, now)], nextRequest := s.nextRequest + 1,
                 items := Inserted(s.items, s.nextRequest, s.nextItem, n.proposals),
                 nextItem := s.nextItem + |n.proposals|, claims := Claims(s, who, n, key)),
              Ok(s.nextRequest))
  }

  // ---- Triage, Resolve, Withdraw -----------------------------------------

  function Triage(s: Store, who: Principal, id: Id, target: Id, expected: nat, now: Time): Outcome<Request> {
    if id !in s.requests then Refuse(s, NotFound)
    else
      var row := s.requests[id];
      if Terminal(row.status) then Refuse(s, AlreadyResolved)
      else if target != 0 && target !in s.club.persons then Refuse(s, UnknownPerson)
      else if row.version != expected then Refuse(s, Stale)
      else if who.userId == 0 then Refuse(s, Constraint)
      else
        var row' := row.(target := target, triagedBy := who.userId, triagedAt := Some(now), version := expected + 1);
        Outcome(s.(requests := s.requests[id := row']), Ok(row'))
  }

  predicate Blocking(item: Item) {
    item.status == Pending && CanApply(item.proposal.operation) && item.proposal.targetId != 0
  }

  predicate SomeBlocking(items: map<Id, Item>, request: Id) {
    exists i | i in items :: items[i].request == request && Blocking(items[i])
  }

  function Resolve(s: Store, who: Principal, id: Id, note: string, expected: nat, now: Time): Outcome<Request> {
    if id !in s.requests then Refuse(s, NotFound)
    else
      var row := s.requests[id];
      if Terminal(row.status) then Refuse(s, AlreadyResolved)
      else if SomeBlocking(s.items, id) then Refuse(s, PendingItems)
      else if expected != 0 && expected != row.version then Refuse(s, Stale)
      else
        var row' := row.(status := Resolved, resolvedAt := Some(now), resolvedBy := who.userId,
                         resolutionNote := TrimSpace(note), version := row.version + 1);
        Outcome(s.(requests := s.requests[id := row']), Ok(row'))
  }

  predicate SomeDecided(items: map<Id, Item>, request: Id) {
    exists i | i in items :: items[i].request == request && items[i].status != Pending
  }

  function Withdraw(s: Store, who: Principal, id: Id, now: Time): Outcome<Request> {
    if who.userId == 0 then Refuse(s, NotYours)
    else if id !in s.requests then Refuse(s, NotFound)
    else
      var row := s.requests[id];
      if row.requester != who.userId then Refuse(s, NotYours)
      else if Terminal(row.status) then Refuse(s, AlreadyResolved)
      else if SomeDecided(s.items, id) then Refuse(s, DecidedItems)
      else
        var row' := row.(status := Withdrawn, resolvedAt := None, withdrawnAt := Some(now), version := row.version + 1);
        Outcome(s.(requests := s.requests[id := row']), Ok(row'))
  }

  // ---- DecideItem --------------------------------------------------------

  datatype DecideParams = DecideParams(decision: ItemStatus, reason: string, note: string, amended: string)
  datatype Decision = Decision(request: Request, item: Item, applied: bool, replay: bool)

  predicate SomePending(items: map<Id, Item>, request: Id) {
    exists i | i in items :: items[i].request == request && items[i].status == Pending
  }

  /** What an approval must satisfy before anything is recorded. */
  function ApprovalRefusal(request: Request, p: Proposal, who: Principal, note: string): Option<Error> {
    if Sensitive(p.operation, p.sensitive) && request.requester != 0 &&
        request.requester == who.userId then Some(SelfReview)
    else if Sensitive(p.operation, p.sensitive) && TrimSpace(note) == "" then Some(NoteRequired)
    else if !CanApply(p.operation) then Some(NoAdapter)
    else None
  }

  /** The item as a decision leaves it, before anything is applied. */
  function Judged(item: Item, who: Principal, d: DecideParams, now: Time): Item {
    item.(status := d.decision, verdict := Verdict(who.userId, Some(now), d.reason, d.note), version := item.version + 1)
  }

  /** The value an approval applies: the reviewer's amendment if there is one. */
  function Effective(p: Proposal, amended: string): Proposal {
    if TrimSpace(amended) == "" then p else p.(value := AmendedProposal(p, TrimSpace(amended)))
  }

  /** A request after one of its items was decided. */
  function Settle(row: Request, pending: bool, now: Time): Request {
    if !pending && row.status != Resolved then
      row.(status := Resolved, resolvedAt := Some(now), withdrawnAt := None, version := row.version + 1)
    else if row.status == Submitted then
      row.(status := InReview, resolvedAt := None, withdrawnAt := None, version := row.version + 1)
    else row
  }

  /** The decision and, for an approval, its effect on the club's records: the decided row and the
      records as they are then. */
  function Record(club: Club, who: Principal, target: Id, item: Item, d: DecideParams, now: Time): Result<(Item, Club)> {
    if who.userId == 0 then Err(Constraint)
    else if d.decision != Approved then Ok((Judged(item, who, d, now), club))
    else
      match ApplyItem(club, who, target, Effective(item.proposal, d.amended), now)
      case Err(e) => Err(e)
      case Ok(change) =>
        var stamp := Applied(now, change.value, change.kind, change.id, change.version);
        Ok((Judged(item, who, d, now).(applied := Some(stamp), version := item.version + 2), change.club))
  }

  /** An approval applies completely or changes nothing. */
  function Decide(s: Store, who: Principal, requestId: Id, itemId: Id, d: DecideParams, now: Time): Outcome<Decision> {
    if d.decision == Pending then Refuse(s, UnknownDecision)
    else if d.decision == Rejected && TrimSpace(d.reason) == "" then Refuse(s, ReasonRequired)
    else if requestId !in s.requests || itemId !in s.items then Refuse(s, NotFound)
    else if s.items[itemId].request != requestId then Refuse(s, ItemNotInRequest)
    else
      var request, item := s.requests[requestId], s.items[itemId];
      if item.status != Pending then
        if item.status == d.decision then Outcome(s, Ok(Decision(request, item, false, true))) else Refuse(s, ItemDecided)
      else
        var refusal := if d.decision == Approved then ApprovalRefusal(request, item.proposal, who, d.note) else None;
        if refusal.Some? then Refuse(s, refusal.value)
        else
          match Record(s.club, who, request.target, item, d, now)
          case Err(e) => Refuse(s, e)
          case Ok((row, club)) =>
            var items := s.items[itemId := row];
            var settled := Settle(request, SomePending(items, requestId), now);
            Outcome(s.(requests := s.requests[requestId := settled], items := items, club := club),
                    Ok(Decision(settled, row, d.decision == Approved, false)))
  }
}

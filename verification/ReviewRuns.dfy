/** What every run of review calls keeps: the life of an item, the life of a request, and that the
    club's records change by exactly the approved items, each once. */
module ReviewRuns {
  import opened Text
  import opened Tables
  import opened Adapters
  import opened Review

  datatype Call =
    | CreateCall(who: Principal, n: NewRequest, key: string, now: Time)
    | TriageCall(who: Principal, id: Id, target: Id, expected: nat, now: Time)
    | ResolveCall(who: Principal, id: Id, note: string, expected: nat, now: Time)
    | WithdrawCall(who: Principal, id: Id, now: Time)
    | DecideCall(who: Principal, id: Id, item: Id, d: DecideParams, now: Time)
    | OfficerEdit(club: Club)   // any change an officer makes to the records elsewhere

  function Step(s: Store, c: Call): Store {
    match c
    case CreateCall(who, n, key, now) => Create(s, who, n, key, now).store
    case TriageCall(who, id, target, expected, now) => Triage(s, who, id, target, expected, now).store
    case ResolveCall(who, id, note, expected, now) => Resolve(s, who, id, note, expected, now).store
    case WithdrawCall(who, id, now) => Withdraw(s, who, id, now).store
    case DecideCall(who, id, item, d, now) => Decide(s, who, id, item, d, now).store
    case OfficerEdit(club) => s.(club := club)
  }

  function Run(s: Store, calls: seq<Call>): Store
    decreases |calls|
  {
    if calls == [] then s else Run(Step(s, calls[0]), calls[1..])
  }

  // ---- The invariant -----------------------------------------------------

  /** The version of an item counts what happened to it: 1 filed, 2 decided, 3 decided and applied. */
  predicate ItemOk(item: Item) {
    match item.status
    case Pending => item.verdict == NO_VERDICT && item.applied.None? && item.version == 1
    case Approved =>
      item.applied.Some? && item.version == 3 && item.verdict.reviewer != 0 && item.verdict.at.Some? &&
      CanApply(item.proposal.operation) &&
      (Sensitive(item.proposal.operation, item.proposal.sensitive) ==> TrimSpace(item.verdict.note) != "")
    case Rejected =>
      item.applied.None? && item.version == 2 && item.verdict.reviewer != 0 && item.verdict.at.Some? &&
      TrimSpace(item.verdict.reason) != ""
    case NeedsVerification =>
      item.applied.None? && item.version == 2 && item.verdict.reviewer != 0 && item.verdict.at.Some?
  }

  /** Nobody has approved a sensitive change to what they asked for themselves. */
  predicate NotSelfApproved(row: Request, item: Item) {
    item.status == Approved && Sensitive(item.proposal.operation, item.proposal.sensitive) ==>
      row.requester != item.verdict.reviewer
  }

  /** The status of a request is what its items make it. */
  predicate RequestOk(items: map<Id, Item>, id: Id, row: Request) {
    && row.status != Draft
    && (row.status == Submitted ==> !SomeDecided(items, id))
    && (row.status == InReview ==> SomeDecided(items, id))
    && (!SomePending(items, id) ==> row.status == Resolved)
    && (row.status == Resolved ==> !SomeBlocking(items, id))
    && (row.status == Resolved <==> row.resolvedAt.Some?)
    && (row.status == Withdrawn <==> row.withdrawnAt.Some?)
  }

  ghost predicate Inv(s: Store) {
    && (forall r | r in s.requests :: r < s.nextRequest && RequestOk(s.items, r, s.requests[r]))
    && (forall i | i in s.items ::
          i < s.nextItem && s.items[i].request in s.requests && ItemOk(s.items[i]) &&
          NotSelfApproved(s.requests[s.items[i].request], s.items[i]))
  }

  /** Before anything is filed the invariant holds, whatever the club's records are. */
  lemma NothingFiled(club: Club)
    ensures Inv(Store(map[], 1, map[], 1, club, map[]))
  {
  }

  // ---- What a later state keeps of an earlier one ------------------------

  /** A decided item is never touched again; until then nothing about it changes. */
  predicate ItemLater(a: Item, b: Item) {
    a == b ||
    (a.status == Pending && b.status != Pending && a.version < b.version &&
     a.request == b.request && a.ordinal == b.ordinal && a.proposal == b.proposal)
  }

  /** Equal versions mean equal rows; a resolved request is never touched again; a withdrawn one can
      only become resolved, and not by triage or by Resolve: its target and what those write stay. */
  predicate RequestLater(a: Request, b: Request) {
    a == b ||
    (a.version < b.version && a.supplied == b.supplied && a.requester == b.requester &&
     a.status != Resolved &&
     (a.status == Withdrawn ==> b.status == Resolved && b.withdrawnAt == None && SameHandling(a, b)) &&
     (a.status == InReview ==> b.status != Draft && b.status != Submitted))
  }

  /** The columns triage and Resolve write. */
  predicate SameHandling(a: Request, b: Request) {
    b.target == a.target && b.triagedBy == a.triagedBy && b.triagedAt == a.triagedAt && b.resolvedBy == a.resolvedBy &&
    b.resolutionNote == a.resolutionNote
  }

  ghost predicate Later(s: Store, t: Store) {
    && (forall i | i in s.items :: i in t.items && ItemLater(s.items[i], t.items[i]))
    && (forall r | r in s.requests :: r in t.requests && RequestLater(s.requests[r], t.requests[r]))
    && (forall k | k in s.claims :: k in t.claims && t.claims[k] == s.claims[k])
  }

  lemma LaterTransitive(s: Store, t: Store, u: Store)
    requires Later(s, t) && Later(t, u)
    ensures Later(s, u)
  {
    forall r | r in s.requests ensures r in u.requests && RequestLater(s.requests[r], u.requests[r]) {
      assert RequestLater(s.requests[r], t.requests[r]) && RequestLater(t.requests[r], u.requests[r]);
    }
    forall i | i in s.items ensures i in u.items && ItemLater(s.items[i], u.items[i]) {
      assert ItemLater(s.items[i], t.items[i]) && ItemLater(t.items[i], u.items[i]);
    }
  }

  // ---- One call ----------------------------------------------------------

  predicate SameItems(a: map<Id, Item>, b: map<Id, Item>, request: Id) {
    (SomePending(a, request) <==> SomePending(b, request)) &&
    (SomeDecided(a, request) <==> SomeDecided(b, request)) &&
    (SomeBlocking(a, request) <==> SomeBlocking(b, request))
  }

  /** Writing an item of one request leaves what the others are made of. */
  lemma OtherRequests(items: map<Id, Item>, i: Id, row: Item, request: Id)
    requires i in items && items[i].request == row.request != request
    ensures SameItems(items, items[i := row], request)
  {
    var b := items[i := row];
    assert forall k | k in items :: items[k].request == request ==> b[k] == items[k];
    assert forall k | k in b :: b[k].request == request ==> k in items && b[k] == items[k];
  }

  /** New items under a new request leave what the others are made of, and are all pending. */
  lemma NewRequestItems(items: map<Id, Item>, fresh0: Id, first: Id, proposals: seq<Proposal>, request: Id)
    requires forall i | i in items :: i < first && items[i].request < fresh0
    requires proposals != [] && request <= fresh0
    ensures var t := Inserted(items, fresh0, first, proposals);
            if request < fresh0 then SameItems(items, t, request) else SomePending(t, request) && !SomeDecided(t, request)
  {
    hide Blocking;
    var t := Inserted(items, fresh0, first, proposals);
    assert first in t && t[first].request == fresh0;
    assert forall k | k in items :: t[k] == items[k];
    assert forall k | k in t :: k !in items ==> t[k].request == fresh0;
  }

  lemma FreshRowsOk(items: map<Id, Item>, id: Id, n: NewRequest, who: Principal, now: Time)
    requires SomePending(items, id) && !SomeDecided(items, id)
    ensures RequestOk(items, id, FreshRequest(n, who, now))
    ensures forall o: nat, p ::
              ItemOk(FreshItem(id, o, p)) && NotSelfApproved(FreshRequest(n, who, now), FreshItem(id, o, p))
  {
    hide SomePending, SomeDecided, SomeBlocking, TrimSpace;
  }

  lemma CreateKeeps(s: Store, who: Principal, n: NewRequest, key: string, now: Time)
    requires Inv(s)
    ensures Inv(Create(s, who, n, key, now).store) && Later(s, Create(s, who, n, key, now).store)
  {
    hide ValidProposal, TrimSpace, ByteLen, InsertAllowed, RequestOk, ItemOk, NotSelfApproved, SameItems, Inserted,
      SomePending, SomeDecided, FreshItem, FreshRequest;
    var t := Create(s, who, n, key, now).store;
    if t != s {
      assert n.proposals != [];
      assert forall i | i in s.items :: i < s.nextItem && s.items[i].request < s.nextRequest;
      NewRequestItems(s.items, s.nextRequest, s.nextItem, n.proposals, s.nextRequest);
      FreshRowsOk(t.items, s.nextRequest, n, who, now);
      forall r | r in s.requests ensures RequestOk(t.items, r, s.requests[r]) {
        NewRequestItems(s.items, s.nextRequest, s.nextItem, n.proposals, r);
        SameRequestOk(s.items, t.items, r, s.requests[r]);
      }
      FreshItemsBelong(s.items, s.nextRequest, s.nextItem, n.proposals);
    }
  }

  lemma FreshItemsBelong(items: map<Id, Item>, request: Id, first: Id, proposals: seq<Proposal>)
    requires forall i | i in items :: i < first
    ensures var t := Inserted(items, request, first, proposals);
            (forall i | i in items :: i in t && t[i] == items[i]) &&
            forall i | i in t && i !in items :: i < first + |proposals| && t[i].request == request &&
              t[i] == FreshItem(request, i - first, proposals[i - first])
  {
  }

  /** A row written into the requests alone keeps the rest. */
  lemma RowKeeps(s: Store, id: Id, row: Request)
    requires Inv(s) && id in s.requests && RequestOk(s.items, id, row) && RequestLater(s.requests[id], row)
    requires row.requester == s.requests[id].requester
    ensures Inv(s.(requests := s.requests[id := row])) && Later(s, s.(requests := s.requests[id := row]))
  {
    hide RequestOk, ItemOk;
    var t := s.(requests := s.requests[id := row]);
    forall r | r in t.requests ensures r < t.nextRequest && RequestOk(t.items, r, t.requests[r]) {
    }
  }

  /** A decision that is recorded leaves a decided item that is in order. */
  lemma RecordOk(club: Club, who: Principal, request: Request, item: Item, d: DecideParams, now: Time)
    requires ItemOk(item) && item.status == Pending && d.decision != Pending
    requires d.decision == Rejected ==> TrimSpace(d.reason) != ""
    requires d.decision == Approved ==> ApprovalRefusal(request, item.proposal, who, d.note) == None
    requires Record(club, who, request.target, item, d, now).Ok?
    ensures var row := Record(club, who, request.target, item, d, now).value.0;
            row.status == d.decision && ItemOk(row) && NotSelfApproved(request, row) && ItemLater(item, row) &&
            row.request == item.request
  {
    hide ApplyItem, Effective, TrimSpace, CanApply, Sensitive;
  }

  lemma DecideKeeps(s: Store, who: Principal, id: Id, itemId: Id, d: DecideParams, now: Time)
    requires Inv(s)
    ensures Inv(Decide(s, who, id, itemId, d, now).store) && Later(s, Decide(s, who, id, itemId, d, now).store)
  {
    hide Record, TrimSpace, ApprovalRefusal, ItemOk, NotSelfApproved, SomePending, RequestOk;
    var o := Decide(s, who, id, itemId, d, now);
    if o.answer.Ok? && !o.answer.value.replay {
      RecordOk(s.club, who, s.requests[id], s.items[itemId], d, now);
      PutDecided(s, itemId, o.answer.value.item, o.store.club, now);
    }
  }

  /** Putting a decided item into the tables and settling its request. */
  lemma PutDecided(s: Store, itemId: Id, row: Item, club: Club, now: Time)
    requires Inv(s) && itemId in s.items && s.items[itemId].status == Pending && row.status != Pending
    requires row.request == s.items[itemId].request && ItemLater(s.items[itemId], row) && ItemOk(row)
    requires NotSelfApproved(s.requests[row.request], row)
    ensures var items := s.items[itemId := row];
            var settled := Settle(s.requests[row.request], SomePending(items, row.request), now);
            var t := s.(requests := s.requests[row.request := settled], items := items, club := club);
            Inv(t) && Later(s, t)
  {
    hide ItemOk, Sensitive, SomePending, RequestOk;
    var items, id := s.items[itemId := row], row.request;
    SettleKeeps(s, itemId, row, now);
    forall r | r in s.requests && r != id ensures RequestOk(items, r, s.requests[r]) {
      OtherRequests(s.items, itemId, row, r);
      SameRequestOk(s.items, items, r, s.requests[r]);
    }
    assert Settle(s.requests[id], SomePending(items, id), now).requester == s.requests[id].requester;
  }

  lemma SameRequestOk(a: map<Id, Item>, b: map<Id, Item>, id: Id, row: Request)
    requires SameItems(a, b, id) && RequestOk(a, id, row)
    ensures RequestOk(b, id, row)
  {
    hide SomePending, SomeDecided, SomeBlocking;
  }

  /** Deciding an item and settling its request keeps the request what its items make it. */
  lemma SettleKeeps(s: Store, itemId: Id, row: Item, now: Time)
    requires itemId in s.items && s.items[itemId].status == Pending && row.status != Pending
    requires row.request == s.items[itemId].request && row.request in s.requests
    requires RequestOk(s.items, row.request, s.requests[row.request])
    ensures var items := s.items[itemId := row];
            var settled := Settle(s.requests[row.request], SomePending(items, row.request), now);
            RequestOk(items, row.request, settled) && RequestLater(s.requests[row.request], settled)
  {
    hide CanApply;
    var items, id := s.items[itemId := row], row.request;
    assert items[itemId].request == id && items[itemId].status != Pending;
    assert SomeDecided(items, id);
    assert SomeBlocking(items, id) ==> SomeBlocking(s.items, id) by {
      assert forall k | k in items && items[k].request == id && Blocking(items[k]) ::
          k != itemId && s.items[k] == items[k];
    }
    assert SomeBlocking(items, id) ==> SomePending(items, id);
  }

  lemma TriageKeeps(s: Store, who: Principal, id: Id, target: Id, expected: nat, now: Time)
    requires Inv(s)
    ensures Inv(Triage(s, who, id, target, expected, now).store) &&
        Later(s, Triage(s, who, id, target, expected, now).store)
  {
    hide TrimSpace, SomePending, SomeDecided, SomeBlocking, ItemOk;
    var o := Triage(s, who, id, target, expected, now);
    if o.answer.Ok? { RowKeeps(s, id, o.answer.value); }
  }

  lemma ResolveKeeps(s: Store, who: Principal, id: Id, note: string, expected: nat, now: Time)
    requires Inv(s)
    ensures Inv(Resolve(s, who, id, note, expected, now).store) && Later(s, Resolve(s, who, id, note, expected, now).store)
  {
    hide TrimSpace, SomePending, SomeDecided, SomeBlocking, ItemOk;
    var o := Resolve(s, who, id, note, expected, now);
    if o.answer.Ok? { RowKeeps(s, id, o.answer.value); }
  }

  lemma WithdrawKeeps(s: Store, who: Principal, id: Id, now: Time)
    requires Inv(s)
    ensures Inv(Withdraw(s, who, id, now).store) && Later(s, Withdraw(s, who, id, now).store)
  {
    hide TrimSpace, SomePending, SomeDecided, SomeBlocking, ItemOk;
    var o := Withdraw(s, who, id, now);
    if o.answer.Ok? { RowKeeps(s, id, o.answer.value); }
  }

  lemma StepKeeps(s: Store, c: Call)
    requires Inv(s)
    ensures Inv(Step(s, c)) && Later(s, Step(s, c))
  {
    hide Create, Triage, Resolve, Withdraw, Decide;
    match c {
      case CreateCall(who, n, key, now) => CreateKeeps(s, who, n, key, now);
      case TriageCall(who, id, target, expected, now) => TriageKeeps(s, who, id, target, expected, now);
      case ResolveCall(who, id, note, expected, now) => ResolveKeeps(s, who, id, note, expected, now);
      case WithdrawCall(who, id, now) => WithdrawKeeps(s, who, id, now);
      case DecideCall(who, id, item, d, now) => DecideKeeps(s, who, id, item, d, now);
      case OfficerEdit(club) => assert Inv(s.(club := club)) && Later(s, s.(club := club));
    }
  }

  // ---- Runs --------------------------------------------------------------

  /** Every run keeps the invariant, and what a run does to any row is one of a few things. */
  lemma {:induction false} RunKeeps(s: Store, calls: seq<Call>)
    requires Inv(s)
    ensures Inv(Run(s, calls)) && Later(s, Run(s, calls))
    decreases |calls|
  {
    hide Inv, Later, Step;
    if calls == [] {
      assert Later(s, s) by { SameIsLater(s); }
    } else {
      StepKeeps(s, calls[0]);
      RunKeeps(Step(s, calls[0]), calls[1..]);
      LaterTransitive(s, Step(s, calls[0]), Run(s, calls));
    }
  }

  lemma SameIsLater(s: Store)
    ensures Later(s, s)
  {
  }

  /** Between any two points of a run an item leaves pending at most once, its first decision and
      what was applied are never overwritten, and a version that has not moved is a row that has
      not changed. */
  lemma ItemLife(s: Store, before: seq<Call>, after: seq<Call>, i: Id)
    requires Inv(s) && i in Run(s, before).items
    ensures var mid, end := Run(s, before), Run(Run(s, before), after);
            i in end.items &&
            var a, b := mid.items[i], end.items[i];
            a.proposal == b.proposal && a.request == b.request &&
            (a.status != Pending ==> b == a) &&
            (a.version == b.version <==> a == b) && a.version <= b.version &&
            (b.applied.Some? <==> b.status == Approved)
  {
    hide Inv;
    RunKeeps(s, before);
    RunKeeps(Run(s, before), after);
    assert ItemOk(Run(Run(s, before), after).items[i]) by { InvItem(Run(Run(s, before), after), i); }
    assert ItemLater(Run(s, before).items[i], Run(Run(s, before), after).items[i]);
  }

  lemma InvItem(s: Store, i: Id)
    requires Inv(s) && i in s.items
    ensures ItemOk(s.items[i]) && s.items[i].request in s.requests
    ensures NotSelfApproved(s.requests[s.items[i].request], s.items[i])
  {
  }

  lemma InvRequest(s: Store, r: Id)
    requires Inv(s) && r in s.requests
    ensures RequestOk(s.items, r, s.requests[r])
  {
  }

  /** Between any two points of a run a resolved request is never touched again, a withdrawn one is not
      triaged, resolved by an officer or withdrawn again, what the submitter said is kept, equal versions
      mean equal rows, and a request is resolved as soon as nothing of it is pending; a resolved one has
      nothing left that could have been applied to a named record. */
  lemma RequestLife(s: Store, before: seq<Call>, after: seq<Call>, r: Id)
    requires Inv(s) && r in Run(s, before).requests
    ensures var mid, end := Run(s, before), Run(Run(s, before), after);
            r in end.requests &&
            var a, b := mid.requests[r], end.requests[r];
            a.supplied == b.supplied && a.requester == b.requester &&
            (a.status == Resolved ==> b == a) &&
            (a.status == Withdrawn ==> b == a || (SameHandling(a, b) && b.status == Resolved && b.withdrawnAt == None)) &&
            (a.version == b.version <==> a == b) && a.version <= b.version &&
            (!SomePending(end.items, r) ==> b.status == Resolved) &&
            (b.status == Resolved ==> !SomeBlocking(end.items, r))
  {
    hide Inv, SomePending, SomeBlocking, SomeDecided;
    RunKeeps(s, before);
    RunKeeps(Run(s, before), after);
    InvRequest(Run(Run(s, before), after), r);
    assert RequestLater(Run(s, before).requests[r], Run(Run(s, before), after).requests[r]);
  }

  /** A withdrawn request is not final: it stays withdrawn exactly as long as one of its items is
      pending, and deciding the last of them makes it resolved and drops the withdrawal. */
  lemma WithdrawnUntilLastItem(s: Store, calls: seq<Call>, r: Id)
    requires Inv(s) && r in s.requests && s.requests[r].status == Withdrawn
    ensures var t := Run(s, calls);
            r in t.requests && (t.requests[r].status == Withdrawn <==> SomePending(t.items, r)) &&
            (t.requests[r].status != Withdrawn ==> t.requests[r].status == Resolved && t.requests[r].withdrawnAt == None)
  {
    hide SomePending, SomeBlocking, SomeDecided;
    RunKeeps(s, calls);
    InvRequest(s, r);
    InvRequest(Run(s, calls), r);
    assert RequestLater(s.requests[r], Run(s, calls).requests[r]);
    ResolvedOrPending(s, calls, r);
  }

  /** From a withdrawn request only the decision of its last pending item leads on. */
  lemma {:induction false} ResolvedOrPending(s: Store, calls: seq<Call>, r: Id)
    requires Inv(s) && r in s.requests && s.requests[r].status == Withdrawn
    ensures r in Run(s, calls).requests
    ensures Run(s, calls).requests[r].status == Resolved ==> !SomePending(Run(s, calls).items, r)
    decreases |calls|
  {
    hide SomePending, SomeBlocking, SomeDecided, Inv, Step;
    if calls == [] {
    } else {
      var t := Step(s, calls[0]);
      StepKeeps(s, calls[0]);
      assert RequestLater(s.requests[r], t.requests[r]);
      if t.requests[r].status == Withdrawn {
        ResolvedOrPending(t, calls[1..], r);
      } else {
        LeavesWithdrawn(s, calls[0], r);
        RunKeeps(t, calls[1..]);
        NothingPendingStays(t, calls[1..], r);
      }
    }
  }

  /** The item is the one thing of its request still to be decided. */
  predicate LastPending(items: map<Id, Item>, request: Id, item: Id) {
    item in items && items[item].request == request && items[item].status == Pending && !OthersPending(items, request, item)
  }

  predicate OthersPending(items: map<Id, Item>, request: Id, item: Id) {
    exists i | i in items :: i != item && items[i].request == request && items[i].status == Pending
  }

  /** A decision on a pending item that nothing refuses. */
  predicate Decidable(s: Store, who: Principal, request: Request, item: Item, d: DecideParams, now: Time) {
    && who.userId != 0 && d.decision != Pending
    && (d.decision == Rejected ==> TrimSpace(d.reason) != "")
    && (d.decision == Approved ==>
          ApprovalRefusal(request, item.proposal, who, d.note).None? &&
          ApplyItem(s.club, who, request.target, Effective(item.proposal, d.amended), now).Ok?)
  }

  /** What is still pending once an item is decided. */
  lemma PendingAfter(items: map<Id, Item>, request: Id, item: Id, row: Item)
    requires item in items && items[item].request == request == row.request && row.status != Pending
    ensures SomePending(items[item := row], request) <==> OthersPending(items, request, item)
  {
    var t := items[item := row];
    assert forall i | i in items && i != item :: t[i] == items[i];
  }

  /** Deciding takes effect exactly when the item is pending and nothing refuses the decision. */
  lemma DecideEffect(s: Store, who: Principal, id: Id, itemId: Id, d: DecideParams, now: Time)
    requires id in s.requests
    ensures var t := Decide(s, who, id, itemId, d, now).store;
            if itemId in s.items && s.items[itemId].request == id && s.items[itemId].status == Pending &&
               Decidable(s, who, s.requests[id], s.items[itemId], d, now)
            then itemId in t.items && t.items == s.items[itemId := t.items[itemId]] &&
                 t.items[itemId].status == d.decision && t.items[itemId].request == id &&
                 t.requests == s.requests[id := Settle(s.requests[id], OthersPending(s.items, id, itemId), now)]
            else t == s
  {
    hide ApplyItem, Effective, ApprovalRefusal, TrimSpace, SomePending, OthersPending, Settle;
    var o := Decide(s, who, id, itemId, d, now);
    if o.answer.Ok? && !o.answer.value.replay {
      PendingAfter(s.items, id, itemId, o.answer.value.item);
    }
  }

  /** The one step out of withdrawn, exactly: a decision of its last pending item that nothing refuses. */
  lemma LeavesWithdrawn(s: Store, c: Call, r: Id)
    requires Inv(s) && r in s.requests && s.requests[r].status == Withdrawn
    ensures r in Step(s, c).requests
    ensures Step(s, c).requests[r] != s.requests[r] <==>
            c.DecideCall? && c.id == r && LastPending(s.items, r, c.item) &&
            Decidable(s, c.who, s.requests[r], s.items[c.item], c.d, c.now)
    ensures Step(s, c).requests[r] != s.requests[r] ==> !SomePending(Step(s, c).items, r)
  {
    hide SomePending, SomeBlocking, SomeDecided, ValidNew, InsertAllowed, Inserted, FreshRequest, RequestOk, ItemOk,
      Decidable, OthersPending, TrimSpace;
    if c.DecideCall? && c.id == r {
      hide Decide;
      DecideEffect(s, c.who, r, c.item, c.d, c.now);
      if Step(s, c).requests[r] != s.requests[r] {
        PendingAfter(s.items, r, c.item, Step(s, c).items[c.item]);
      }
    } else {
      OthersStay(s, c, r);
    }
  }

  /** No other call writes a withdrawn request. */
  lemma OthersStay(s: Store, c: Call, r: Id)
    requires Inv(s) && r in s.requests && s.requests[r].status == Withdrawn && !(c.DecideCall? && c.id == r)
    ensures r in Step(s, c).requests && Step(s, c).requests[r] == s.requests[r]
  {
    hide Record, ApprovalRefusal, TrimSpace, SomePending, SomeBlocking, SomeDecided, ValidNew, InsertAllowed, Inserted,
      FreshRequest, RequestOk, ItemOk;
  }

  /** No call makes an item pending again or files one under an old request. */
  lemma {:induction false} NothingPendingStays(s: Store, calls: seq<Call>, r: Id)
    requires Inv(s) && r in s.requests && !SomePending(s.items, r)
    ensures !SomePending(Run(s, calls).items, r)
    decreases |calls|
  {
    hide Inv, Step, SomeBlocking, SomeDecided;
    if calls != [] {
      var t := Step(s, calls[0]);
      StepKeeps(s, calls[0]);
      StepItems(s, calls[0], r);
      NothingPendingStays(t, calls[1..], r);
    }
  }

  /** A step adds no item to a request that is already there. */
  lemma StepItems(s: Store, c: Call, r: Id)
    requires Inv(s) && r in s.requests
    ensures forall i | i in Step(s, c).items && Step(s, c).items[i].request == r :: i in s.items
    ensures !SomePending(s.items, r) ==> !SomePending(Step(s, c).items, r)
  {
    hide Step, RequestOk, ItemOk;
    StepKeeps(s, c);
    var t := Step(s, c);
    forall i | i in t.items && t.items[i].request == r ensures i in s.items {
      if i !in s.items { NewItems(s, c, i); }
    }
    assert forall i | i in t.items && t.items[i].request == r :: ItemLater(s.items[i], t.items[i]);
  }

  /** Only filing a request brings items into being, and they belong to that request. */
  lemma NewItems(s: Store, c: Call, i: Id)
    requires Inv(s) && i !in s.items && i in Step(s, c).items
    ensures c.CreateCall? && i >= s.nextItem && Step(s, c).items[i].request == s.nextRequest && s.nextRequest !in s.requests
    ensures Step(s, c).items[i].status == Pending
  {
    hide Record, ApprovalRefusal, TrimSpace, SomePending, SomeBlocking, SomeDecided, ValidNew, InsertAllowed,
      FreshRequest, RequestOk, ItemOk, Settle;
  }

  // ---- Filing once --------------------------------------------------------

  /** What filing asks for. */
  predicate Files(s: Store, who: Principal, n: NewRequest, key: string) {
    ValidNew(n) && !Claimed(s, who, key) && (n.target == 0 || n.target in s.club.persons) && InsertAllowed(n)
  }

  lemma FilesExactly(s: Store, who: Principal, n: NewRequest, key: string, now: Time)
    ensures Create(s, who, n, key, now).store != s <==> Files(s, who, n, key)
    ensures Files(s, who, n, key) ==> Create(s, who, n, key, now).answer == Ok(s.nextRequest)
  {
    hide ValidNew, InsertAllowed, FreshRequest, Inserted, Deed;
  }

  /** A request filed under a key is filed once: whatever happens in between, the same submission again is
      answered with the first request, a different one under the key is refused, and neither files anything. */
  lemma RetriedFiling(s: Store, who: Principal, n: NewRequest, key: string, now: Time, between: seq<Call>,
                      m: NewRequest, later: Time)
    requires Inv(s) && key != "" && Files(s, who, n, key) && ValidNew(m)
    ensures var t := Run(Create(s, who, n, key, now).store, between);
            Create(t, who, m, key, later) == Outcome(t, if Deed(m) == Deed(n) then Ok(s.nextRequest) else Err(KeyReused))
  {
    hide Inv, ValidNew, InsertAllowed, FreshRequest, Inserted, Deed, RequestLater, ItemLater, Run;
    var u := Create(s, who, n, key, now).store;
    CreateKeeps(s, who, n, key, now);
    RunKeeps(u, between);
    assert ClaimKey(who.userId, key) in u.claims && s.nextRequest in u.requests;
  }
}

/** The service over the tables: each UPDATE is guarded by its WHERE clause, and a call that fails
    rolls its transaction back. */
module ReviewService {
  import opened Text
  import opened Tables
  import opened Adapters
  import opened Review

  class Service {
    var requests: map<Id, Request>
    var nextRequest: Id
    var items: map<Id, Item>
    var nextItem: Id
    var club: Club
    var claims: map<ClaimKey, Claim>

    function View(): Store
      reads this
    {
      Store(requests, nextRequest, items, nextItem, club, claims)
    }

    /** CHECK (applied_at IS NULL OR status = 'approved'). */
    predicate Valid()
      reads this
    {
      forall i | i in items :: items[i].applied.Some? ==> items[i].status == Approved
    }

    constructor (s: Store)
      requires forall i | i in s.items :: s.items[i].applied.Some? ==> s.items[i].status == Approved
      ensures View() == s && Valid()
    {
      requests, nextRequest, items, nextItem, club := s.requests, s.nextRequest, s.items, s.nextItem, s.club;
      claims := s.claims;
    }

    // ---- Guarded statements ----------------------------------------------

    /** UPDATE ... WHERE id AND version AND status = 'pending'. */
    method DecideChangeRequestItem(id: Id, version: nat, status: ItemStatus, verdict: Verdict) returns (r: Result<Item>)
      requires status != Pending
      modifies this`items
      ensures r.Ok? ==> id in old(items) && old(items)[id].version == version && old(items)[id].status == Pending &&
                        verdict.reviewer != 0 &&
                        r.value == old(items)[id].(status := status, verdict := verdict, version := version + 1)
      ensures r.Err? ==> r.error == if id in old(items) && old(items)[id].version == version &&
          old(items)[id].status == Pending
                                    then Constraint else Stale
      ensures r.Err? && r.error == Constraint ==> verdict.reviewer == 0
      ensures items == if r.Ok? then old(items)[id := r.value] else old(items)
    {
      if id !in items || items[id].version != version || items[id].status != Pending {
        return Err(Stale);
      }
      if verdict.reviewer == 0 {
        return Err(Constraint);
      }
      items := items[id := items[id].(status := status, verdict := verdict, version := version + 1)];
      return Ok(items[id]);
    }

    /** UPDATE ... WHERE id AND version AND status = 'approved' AND applied_at IS NULL. */
    method MarkChangeRequestItemApplied(id: Id, version: nat, applied: Applied) returns (r: Result<Item>)
      modifies this`items
      ensures r.Ok? <==> id in old(items) && old(items)[id].version == version && old(items)[id].status == Approved &&
                         old(items)[id].applied.None?
      ensures r.Ok? ==> r.value == old(items)[id].(applied := Some(applied), version := version + 1)
      ensures items == if r.Ok? then old(items)[id := r.value] else old(items)
    {
      if id !in items || items[id].version != version || items[id].status != Approved || items[id].applied.Some? {
        return Err(Stale);
      }
      items := items[id := items[id].(applied := Some(applied), version := version + 1)];
      return Ok(items[id]);
    }

    predicate RequestAt(id: Id, version: nat)
      reads this
    {
      id in requests && requests[id].version == version
    }

    /** UPDATE ... WHERE id AND version: it carries no guard on the status. */
    method SetChangeRequestStatus(id: Id, version: nat, status: Status, resolvedAt: Option<Time>, withdrawnAt: Option<Time>)
      returns (r: Result<Request>)
      modifies this`requests
      ensures r.Ok? <==> old(RequestAt(id, version))
      ensures r.Ok? ==> r.value == old(requests)[id].(status := status, resolvedAt := resolvedAt,
          withdrawnAt := withdrawnAt,
                                                      version := version + 1)
      ensures r.Err? ==> r.error == Stale
      ensures requests == if r.Ok? then old(requests)[id := r.value] else old(requests)
    {
      if !RequestAt(id, version) {
        return Err(Stale);
      }
      requests := requests[id := requests[id].(status := status, resolvedAt := resolvedAt, withdrawnAt := withdrawnAt,
                                               version := version + 1)];
      return Ok(requests[id]);
    }

    /** UPDATE ... WHERE id AND version AND status NOT IN ('resolved', 'withdrawn'). */
    method ResolveChangeRequest(id: Id, version: nat, at: Time, resolvedBy: Id, note: string) returns (r: Result<Request>)
      modifies this`requests
      ensures r.Ok? <==> old(RequestAt(id, version)) && !Terminal(old(requests)[id].status)
      ensures r.Ok? ==> r.value == old(requests)[id].(status := Resolved, resolvedAt := Some(at), resolvedBy := resolvedBy,
                                                      resolutionNote := note, version := version + 1)
      ensures r.Err? ==> r.error == Stale
      ensures requests == if r.Ok? then old(requests)[id := r.value] else old(requests)
    {
      if !RequestAt(id, version) || Terminal(requests[id].status) {
        return Err(Stale);
      }
      requests := requests[id := requests[id].(status := Resolved, resolvedAt := Some(at), resolvedBy := resolvedBy,
                                               resolutionNote := note, version := version + 1)];
      return Ok(requests[id]);
    }

    /** UPDATE ... WHERE id AND version; the row must keep triaged_by and triaged_at together. */
    method SetChangeRequestTarget(id: Id, version: nat, target: Id, triagedBy: Id, at: Time) returns (r: Result<Request>)
      modifies this`requests
      ensures r.Ok? <==> old(RequestAt(id, version)) && triagedBy != 0
      ensures r.Ok? ==> r.value == old(requests)[id].(target := target, triagedBy := triagedBy, triagedAt := Some(at),
                                                      version := version + 1)
      ensures r.Err? ==> r.error == if old(RequestAt(id, version)) then Constraint else Stale
      ensures requests == if r.Ok? then old(requests)[id := r.value] else old(requests)
    {
      if !RequestAt(id, version) {
        return Err(Stale);
      }
      if triagedBy == 0 {
        return Err(Constraint);
      }
      requests := requests[id := requests[id].(target := target, triagedBy := triagedBy, triagedAt := Some(at),
                                               version := version + 1)];
      return Ok(requests[id]);
    }

    /** SELECT count(*) of the pending items of a request. */
    method CountPending(request: Id) returns (n: nat)
      ensures n > 0 <==> SomePending(items, request)
    {
      var pending := set i | i in items && items[i].request == request && items[i].status == Pending;
      assert forall i | i in items :: items[i].request == request && items[i].status == Pending ==> i in pending;
      n := |pending|;
    }

    /** The items of a request, each once. */
    method ListItems(request: Id) returns (ids: seq<Id>)
      ensures forall i :: i in ids <==> i in items && items[i].request == request
      ensures forall a, b | 0 <= a < b < |ids| :: ids[a] != ids[b]
    {
      var left := set i | i in items && items[i].request == request;
      ids := [];
      while left != {}
        invariant forall i :: i in ids || i in left <==> i in items && items[i].request == request
        invariant forall i | i in ids :: i !in left
        invariant forall a, b | 0 <= a < b < |ids| :: ids[a] != ids[b]
        decreases left
      {
        var i :| i in left;
        ids, left := ids + [i], left - {i};
      }
    }

    // ---- Calls -----------------------------------------------------------

    /** One insert per proposal, in order. */
    method InsertItems(id: Id, proposals: seq<Proposal>)
      modifies this`items, this`nextItem
      ensures items == Inserted(old(items), id, old(nextItem), proposals) && nextItem == old(nextItem) + |proposals|
    {
      hide FreshItem;
      ghost var before, first := items, nextItem;
      for i := 0 to |proposals|
        invariant nextItem == first + i && items == Inserted(before, id, first, proposals[..i])
      {
        assert proposals[..i + 1][..i] == proposals[..i];
        items, nextItem := items[nextItem := FreshItem(id, i, proposals[i])], nextItem + 1;
      }
      assert proposals[..|proposals|] == proposals;
    }

    method Create(who: Principal, n: NewRequest, key: string, now: Time) returns (r: Result<Id>)
      requires Valid()
      modifies this
      ensures Valid()
      ensures Outcome(View(), r) == Review.Create(old(View()), who, n, key, now)
    {
      hide ValidNew, InsertAllowed, FreshRequest, Inserted, Deed;
      if !ValidNew(n) {
        return Err(Invalid);
      }
      var claimKey := ClaimKey(who.userId, key);
      if key != "" && claimKey in claims {
        var claim := claims[claimKey];
        return if claim.deed != Deed(n) then Err(KeyReused)
               else if claim.request !in requests then Err(NotFound) else Ok(claim.request);
      }
      if n.target != 0 && n.target !in club.persons {
        return Err(UnknownPerson);
      }
      if !InsertAllowed(n) {
        return Err(Constraint);
      }
      var id := nextRequest;
      requests, nextRequest := requests[id := FreshRequest(n, who, now)], id + 1;
      InsertItems(id, n.proposals);
      if key != "" {
        claims := claims[claimKey := Claim(Deed(n), id)];
      }
      return Ok(id);
    }

    method Triage(who: Principal, id: Id, target: Id, expected: nat, now: Time) returns (r: Result<Request>)
      requires Valid()
      modifies this
      ensures Valid()
      ensures Outcome(View(), r) == Review.Triage(old(View()), who, id, target, expected, now)
    {
      if id !in requests {
        return Err(NotFound);
      }
      if Terminal(requests[id].status) {
        return Err(AlreadyResolved);
      }
      if target != 0 && target !in club.persons {
        return Err(UnknownPerson);
      }
      r := SetChangeRequestTarget(id, expected, target, who.userId, now);
    }

    method Resolve(who: Principal, id: Id, note: string, expected: nat, now: Time) returns (r: Result<Request>)
      requires Valid()
      modifies this
      ensures Valid()
      ensures Outcome(View(), r) == Review.Resolve(old(View()), who, id, note, expected, now)
    {
      if id !in requests {
        return Err(NotFound);
      }
      var current := requests[id];
      if Terminal(current.status) {
        return Err(AlreadyResolved);
      }
      var ids := ListItems(id);
      for i := 0 to |ids|
        invariant forall k | 0 <= k < i :: !Blocking(items[ids[k]])
        invariant View() == old(View())
      {
        if Blocking(items[ids[i]]) {
          assert SomeBlocking(items, id);
          return Err(PendingItems);
        }
      }
      assert !SomeBlocking(items, id);
      var version := if expected == 0 then current.version else expected;
      r := ResolveChangeRequest(id, version, now, who.userId, TrimSpace(note));
    }

    method Withdraw(who: Principal, id: Id, now: Time) returns (r: Result<Request>)
      requires Valid()
      modifies this
      ensures Valid()
      ensures Outcome(View(), r) == Review.Withdraw(old(View()), who, id, now)
    {
      if who.userId == 0 {
        return Err(NotYours);
      }
      if id !in requests {
        return Err(NotFound);
      }
      var current := requests[id];
      if current.requester != who.userId {
        return Err(NotYours);
      }
      if Terminal(current.status) {
        return Err(AlreadyResolved);
      }
      var ids := ListItems(id);
      for i := 0 to |ids|
        invariant forall k | 0 <= k < i :: items[ids[k]].status == Pending
        invariant View() == old(View())
      {
        if items[ids[i]].status != Pending {
          assert SomeDecided(items, id);
          return Err(DecidedItems);
        }
      }
      assert !SomeDecided(items, id);
      r := SetChangeRequestStatus(id, current.version, Withdrawn, None, Some(now));
    }

    /** Records the decision and, for an approval, applies it through the adapter and stamps the item.
        When that fails nothing is kept. */
    method RecordDecision(who: Principal, target: Id, itemId: Id, item: Item, d: DecideParams,
        now: Time) returns (r: Result<Item>)
      requires Valid() && itemId in items && items[itemId] == item && item.status == Pending && d.decision != Pending
      modifies this`items, this`club
      ensures Valid()
      ensures match Record(old(club), who, target, item, d, now)
              case Err(e) => r == Err(e) && items == old(items) && club == old(club)
              case Ok((row, records)) => r == Ok(row) && items == old(items)[itemId := row] && club == records
    {
      hide ApplyItem, Effective;
      var itemsBegun := items;
      var verdict := Verdict(who.userId, Some(now), d.reason, d.note);
      var decided := DecideChangeRequestItem(itemId, item.version, d.decision, verdict);
      if decided.Err? || d.decision != Approved {
        return decided;
      }
      var change := ApplyItem(club, who, target, Effective(item.proposal, d.amended), now);
      if change.Err? {
        items := itemsBegun;
        return Err(change.error);
      }
      var stamp := Applied(now, change.value.value, change.value.kind, change.value.id, change.value.version);
      r := MarkChangeRequestItemApplied(itemId, decided.value.version, stamp);
      club := change.value.club;
    }

    /** Resolves the request when nothing is pending any more, or notes that its review has begun.
        The row is the copy read when the call began. */
    method SettleRequest(requestId: Id, request: Request, now: Time)
      requires requestId in requests && requests[requestId] == request
      modifies this`requests
      ensures requests == old(requests)[requestId := Settle(request, SomePending(items, requestId), now)]
    {
      hide SomePending;
      var pending := CountPending(requestId);
      if pending == 0 && request.status != Resolved {
        var _ := SetChangeRequestStatus(requestId, request.version, Resolved, Some(now), None);
      } else if request.status == Submitted {
        var _ := SetChangeRequestStatus(requestId, request.version, InReview, None, None);
      }
    }

    /** Decide, apply through the adapter, stamp, settle the request: one transaction. */
    method DecideItem(who: Principal, requestId: Id, itemId: Id, d: DecideParams, now: Time) returns (r: Result<Decision>)
      requires Valid()
      modifies this
      ensures Valid()
      ensures Outcome(View(), r) == Decide(old(View()), who, requestId, itemId, d, now)
    {
      hide Record, ApprovalRefusal, SomePending, TrimSpace, Settle;
      if d.decision == Pending {
        return Err(UnknownDecision);
      }
      if d.decision == Rejected && TrimSpace(d.reason) == "" {
        return Err(ReasonRequired);
      }
      if requestId !in requests || itemId !in items {
        return Err(NotFound);
      }
      var request, item := requests[requestId], items[itemId];
      if item.request != requestId {
        return Err(ItemNotInRequest);
      }
      if item.status != Pending {
        if item.status == d.decision {
          return Ok(Decision(request, item, false, true));
        }
        return Err(ItemDecided);
      }
      if d.decision == Approved {
        var refusal := ApprovalRefusal(request, item.proposal, who, d.note);
        if refusal.Some? {
          return Err(refusal.value);
        }
      }
      var recorded := RecordDecision(who, request.target, itemId, item, d, now);
      if recorded.Err? {
        return Err(recorded.error);
      }
      SettleRequest(requestId, request, now);
      return Ok(Decision(requests[requestId], recorded.value, d.decision == Approved, false));
    }
  }
}

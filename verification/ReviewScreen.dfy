/** The review screen: applying the ticked changes, and declining whatever is still pending. */
module ReviewScreen {
  import opened Text
  import opened Tables
  import opened Adapters
  import opened Review
  import opened ReviewRuns
  import opened ReviewService

  /** One ticked box: the item it names, if its value is a number, and the edited text beside it. */
  datatype Tick = Tick(item: Option<Id>, amended: string, now: Time)

  function Approval(note: string, tick: Tick): DecideParams {
    DecideParams(Approved, "", TrimSpace(note), TrimSpace(tick.amended))
  }

  datatype Tally = Tally(store: Store, applied: nat, failures: seq<Error>)

  function Counted(tally: Tally, o: Outcome<Decision>): Tally {
    match o.answer
    case Err(e) => Tally(o.store, tally.applied, tally.failures + [e])
    case Ok(decision) => Tally(o.store, tally.applied + (if decision.applied then 1 else 0), tally.failures)
  }

  /** requestApply: each tick is its own transaction, and a failure does not stop the ones after it. */
  function ApplyAll(s: Store, who: Principal, id: Id, ticks: seq<Tick>, note: string): Tally {
    if ticks == [] then Tally(s, 0, [])
    else
      var tick, tally := ticks[|ticks| - 1], ApplyAll(s, who, id, ticks[..|ticks| - 1], note);
      if tick.item.None? then tally
      else Counted(tally, Decide(tally.store, who, id, tick.item.value, Approval(note, tick), tick.now))
  }

  method RequestApply(svc: Service, who: Principal, id: Id, ticks: seq<Tick>, note: string)
    returns (applied: nat, failures: seq<Error>)
    requires svc.Valid()
    modifies svc
    ensures svc.Valid()
    ensures Tally(svc.View(), applied, failures) == ApplyAll(old(svc.View()), who, id, ticks, note)
  {
    hide Decide;
    applied, failures := 0, [];
    for k := 0 to |ticks|
      invariant svc.Valid()
      invariant Tally(svc.View(), applied, failures) == ApplyAll(old(svc.View()), who, id, ticks[..k], note)
    {
      assert ticks[..k + 1][..k] == ticks[..k];
      if ticks[k].item.None? {
        continue;
      }
      var decision := svc.DecideItem(who, id, ticks[k].item.value, Approval(note, ticks[k]), ticks[k].now);
      if decision.Err? {
        failures := failures + [decision.error];
      } else if decision.value.applied {
        applied := applied + 1;
      }
    }
    assert ticks[..|ticks|] == ticks;
  }

  /** The items a call found pending and left approved. */
  function NewlyApproved(s: Store, t: Store): set<Id> {
    set i | i in s.items && i in t.items && s.items[i].status == Pending && t.items[i].status == Approved
  }

  predicate Ticked(ticks: seq<Tick>, i: Id) { exists k | 0 <= k < |ticks| :: ticks[k].item == Some(i) }

  /** The count shown to the officer is the number of items that became approved, whatever was ticked
      twice, stale or already decided. Every other item is left as it was: an unticked one stays
      pending, and so does one whose application failed. */
  lemma {:induction false} ApplyCountsWhatItApproved(s: Store, who: Principal, id: Id, ticks: seq<Tick>, note: string)
    requires Inv(s)
    ensures var r := ApplyAll(s, who, id, ticks, note);
            Inv(r.store) && Later(s, r.store) && r.store.items.Keys == s.items.Keys &&
            r.applied == |NewlyApproved(s, r.store)| &&
            forall i | i in s.items && r.store.items[i] != s.items[i] ::
              i in NewlyApproved(s, r.store) && s.items[i].request == id && Ticked(ticks, i)
  {
    hide Inv, Later, Decide, TrimSpace;
    if ticks == [] {
      SameIsLater(s);
      assert NewlyApproved(s, s) == {};
    } else {
      var n := |ticks| - 1;
      var tick, tally := ticks[n], ApplyAll(s, who, id, ticks[..n], note);
      ApplyCountsWhatItApproved(s, who, id, ticks[..n], note);
      assert forall i | Ticked(ticks[..n], i) :: Ticked(ticks, i) by {
        forall i | Ticked(ticks[..n], i) ensures Ticked(ticks, i) { TickedLonger(ticks, n, i); }
      }
      if tick.item.Some? {
        var i, d := tick.item.value, Approval(note, tick);
        var o := Decide(tally.store, who, id, i, d, tick.now);
        ApprovalStep(tally.store, who, id, i, d, tick.now);
        DecideKeeps(tally.store, who, id, i, d, tick.now);
        LaterTransitive(s, tally.store, o.store);
        assert ticks[n].item == Some(i) && Ticked(ticks, i);
        CountOne(s, tally.store, o.store, i);
      }
    }
  }

  lemma TickedLonger(ticks: seq<Tick>, n: nat, i: Id)
    requires n <= |ticks| && Ticked(ticks[..n], i)
    ensures Ticked(ticks, i)
  {
    var k :| 0 <= k < n && ticks[..n][k].item == Some(i);
    assert ticks[k].item == Some(i);
  }

  /** An approval touches its own item at most, and it is counted exactly when it does. */
  lemma ApprovalStep(s: Store, who: Principal, id: Id, i: Id, d: DecideParams, now: Time)
    requires d.decision == Approved
    ensures var o := Decide(s, who, id, i, d, now);
            (if o.answer.Ok? && o.answer.value.applied then
               i in s.items && s.items[i].status == Pending && s.items[i].request == id &&
               o.store.items == s.items[i := o.answer.value.item] && o.answer.value.item.status == Approved
             else o.store.items == s.items)
  {
    hide ApplyItem, Effective, TrimSpace, SomePending, ApprovalRefusal;
  }

  lemma CountOne(s: Store, mid: Store, end: Store, i: Id)
    requires Later(s, mid) && s.items.Keys == mid.items.Keys == end.items.Keys
    requires end.items == mid.items ||
             (i in mid.items && mid.items[i].status == Pending && i in end.items && end.items[i].status == Approved &&
              end.items == mid.items[i := end.items[i]])
    ensures |NewlyApproved(s, end)| == |NewlyApproved(s, mid)| + if end.items == mid.items then 0 else 1
    ensures end.items != mid.items ==> NewlyApproved(s, end) == NewlyApproved(s, mid) + {i}
    ensures end.items == mid.items ==> NewlyApproved(s, end) == NewlyApproved(s, mid)
  {
    if end.items != mid.items {
      assert ItemLater(s.items[i], mid.items[i]);
      assert i !in NewlyApproved(s, mid);
      assert NewlyApproved(s, end) == NewlyApproved(s, mid) + {i};
    } else {
      assert NewlyApproved(s, end) == NewlyApproved(s, mid);
    }
  }

  // ---- Declining ---------------------------------------------------------

  function Refusal(reason: string): DecideParams { DecideParams(Rejected, reason, "", "") }

  /** Declining a pending item with a reason always succeeds and never writes the records. */
  lemma DeclineStep(s: Store, who: Principal, id: Id, i: Id, reason: string, now: Time)
    requires id in s.requests && i in s.items && s.items[i].request == id && s.items[i].status == Pending
    requires TrimSpace(reason) != "" && who.userId != 0
    ensures var o := Decide(s, who, id, i, Refusal(reason), now);
            var items := s.items[i := Judged(s.items[i], who, Refusal(reason), now)];
            o.answer.Ok? && o.store.items == items && o.store.club == s.club &&
            o.store.requests == s.requests[id := Settle(s.requests[id], SomePending(items, id), now)]
  {
    hide ApplyItem, TrimSpace, SomePending, ApprovalRefusal, Settle;
  }

  predicate PendingOf(items: map<Id, Item>, id: Id, i: Id) {
    i in items && items[i].request == id && items[i].status == Pending
  }

  /** The pending items among those handled are rejected and nothing else has changed; the request is
      as it was until the first rejection and resolved after the last. */
  ghost predicate DeclinedSoFar(s: Store, t: Store, who: Principal, id: Id, handled: seq<Id>, reason: string,
      now: Time, declined: nat)
    requires id in s.requests
  {
    && t.club == s.club && t.items.Keys == s.items.Keys && t.requests.Keys == s.requests.Keys
    && (forall i | i in s.items :: t.items[i] ==
          if PendingOf(s.items, id, i) && i in handled then Judged(s.items[i], who, Refusal(reason), now) else s.items[i])
    && (forall r | r in s.requests && r != id :: t.requests[r] == s.requests[r])
    && (declined > 0 <==> exists i :: i in handled && PendingOf(s.items, id, i))
    && (if declined > 0 then !SomePending(t.items, id) ==> t.requests[id].status == Resolved
        else t.requests[id] == s.requests[id])
  }

  lemma DeclineProgress(s: Store, t: Store, who: Principal, id: Id, handled: seq<Id>, i: Id, reason: string,
      now: Time, declined: nat)
    requires id in s.requests && DeclinedSoFar(s, t, who, id, handled, reason, now, declined)
    requires i in s.items && s.items[i].request == id && i !in handled && TrimSpace(reason) != "" && who.userId != 0
    ensures if s.items[i].status != Pending then DeclinedSoFar(s, t, who, id, handled + [i], reason, now, declined)
            else
              var o := Decide(t, who, id, i, Refusal(reason), now);
              o.answer.Ok? && DeclinedSoFar(s, o.store, who, id, handled + [i], reason, now, declined + 1)
  {
    hide Decide, TrimSpace, SomePending, Judged;
    assert forall k :: k in handled + [i] <==> k in handled || k == i;
    if s.items[i].status == Pending {
      assert PendingOf(s.items, id, i) && t.items[i] == s.items[i];
      DeclineStep(t, who, id, i, reason, now);
    }
  }

  lemma AllDeclined(s: Store, t: Store, who: Principal, id: Id, ids: seq<Id>, reason: string, now: Time, declined: nat)
    requires id in s.requests && DeclinedSoFar(s, t, who, id, ids, reason, now, declined)
    requires forall i :: i in ids <==> i in s.items && s.items[i].request == id
    ensures !SomePending(t.items, id)
    ensures SomePending(s.items, id) <==> exists i :: i in ids && PendingOf(s.items, id, i)
  {
  }

  function ErrorsOf(r: Result<Decision>): seq<Error> { if r.Err? then [r.error] else [] }

  /** Without a reviewer to name, a decision is refused and nothing changes. */
  lemma NobodyDeclines(s: Store, who: Principal, id: Id, i: Id, reason: string, now: Time)
    requires who.userId == 0 && id in s.requests && i in s.items && s.items[i].request == id
    requires s.items[i].status == Pending && TrimSpace(reason) != ""
    ensures Decide(s, who, id, i, Refusal(reason), now) == Outcome(s, Err(Constraint))
  {
    hide ApplyItem, TrimSpace, SomePending, ApprovalRefusal, Settle;
  }

  /** How far declining has come; without an officer's id it comes nowhere. */
  ghost predicate Declining(s: Store, t: Store, who: Principal, id: Id, handled: seq<Id>, reason: string, now: Time,
                            declined: nat, failures: seq<Error>)
    requires id in s.requests
  {
    if who.userId == 0 then
      t == s && declined == 0 && (forall f | f in failures :: f == Constraint) &&
      (failures != [] <==> exists i :: i in handled && PendingOf(s.items, id, i))
    else failures == [] && DeclinedSoFar(s, t, who, id, handled, reason, now, declined)
  }

  lemma DecliningBegins(s: Store, who: Principal, id: Id, reason: string, now: Time)
    requires id in s.requests
    ensures Declining(s, s, who, id, [], reason, now, 0, [])
  {
  }

  lemma DecliningGoesOn(s: Store, t: Store, who: Principal, id: Id, handled: seq<Id>, i: Id, reason: string, now: Time,
                        declined: nat, failures: seq<Error>)
    requires id in s.requests && Declining(s, t, who, id, handled, reason, now, declined, failures)
    requires i in s.items && s.items[i].request == id && i !in handled && TrimSpace(reason) != ""
    ensures if s.items[i].status != Pending then Declining(s, t, who, id, handled + [i], reason, now, declined, failures)
            else
              var o := Decide(t, who, id, i, Refusal(reason), now);
              Declining(s, o.store, who, id, handled + [i], reason, now, declined + (if o.answer.Ok? then 1 else 0),
                        failures + ErrorsOf(o.answer))
  {
    hide Decide, TrimSpace, DeclinedSoFar;
    assert forall k :: k in handled + [i] <==> k in handled || k == i;
    if who.userId != 0 {
      DeclineProgress(s, t, who, id, handled, i, reason, now, declined);
    } else if s.items[i].status == Pending {
      NobodyDeclines(s, who, id, i, reason, now);
      assert PendingOf(s.items, id, i);
    }
  }

  /** The loop over the items as they were shown. */
  method DeclineEach(svc: Service, who: Principal, id: Id, reason: string, now: Time)
    returns (declined: nat, failures: seq<Error>, ghost ids: seq<Id>)
    requires svc.Valid() && id in svc.requests && TrimSpace(reason) == reason != ""
    modifies svc
    ensures svc.Valid() && forall i :: i in ids <==> i in old(svc.items) && old(svc.items)[i].request == id
    ensures Declining(old(svc.View()), svc.View(), who, id, ids, reason, now, declined, failures)
  {
    hide Decide, TrimSpace, Declining;
    declined, failures := 0, [];
    ghost var begun := svc.View();
    var shown := svc.items;
    var listed := svc.ListItems(id);
    ids := listed;
    DecliningBegins(begun, who, id, reason, now);
    assert listed[..0] == [];
    for k := 0 to |listed|
      invariant svc.Valid() && Declining(begun, svc.View(), who, id, listed[..k], reason, now, declined, failures)
    {
      assert listed[k] !in listed[..k] && listed[..k + 1] == listed[..k] + [listed[k]];
      DecliningGoesOn(begun, svc.View(), who, id, listed[..k], listed[k], reason, now, declined, failures);
      if shown[listed[k]].status != Pending {
        continue;
      }
      var decision := svc.DecideItem(who, id, listed[k], Refusal(reason), now);
      failures := failures + ErrorsOf(decision);
      declined := declined + (if decision.Ok? then 1 else 0);
    }
    assert listed[..|listed|] == listed;
  }

  /** requestDecline: everything still pending is rejected with the one reason, nothing else changes,
      and the request is resolved; an officer who cannot be named changes nothing. */
  method RequestDecline(svc: Service, who: Principal, id: Id, typed: string, now: Time)
    returns (declined: nat, failures: seq<Error>)
    requires svc.Valid()
    modifies svc
    ensures svc.Valid() && svc.club == old(svc.club)
    ensures id !in old(svc.requests) || TrimSpace(typed) == "" || who.userId == 0 ==>
              svc.View() == old(svc.View()) && declined == 0
    ensures who.userId != 0 ==> failures == []
    ensures id in old(svc.requests) && TrimSpace(typed) != "" && who.userId == 0 ==>
              (forall f | f in failures :: f == Constraint) && (failures != [] <==> SomePending(old(svc.items), id))
    ensures id in old(svc.requests) && TrimSpace(typed) != "" && who.userId != 0 ==>
            svc.items.Keys == old(svc.items.Keys) &&
            (forall i | i in old(svc.items) :: svc.items[i] ==
               if PendingOf(old(svc.items), id, i) then
                 old(svc.items)[i].(status := Rejected, verdict := Verdict(who.userId, Some(now), TrimSpace(typed), ""),
                                    version := old(svc.items)[i].version + 1)
               else old(svc.items)[i]) &&
            svc.requests.Keys == old(svc.requests.Keys) &&
            (forall r | r in old(svc.requests) && r != id :: svc.requests[r] == old(svc.requests)[r]) &&
            (declined > 0 <==> SomePending(old(svc.items), id)) &&
            (if declined > 0 then svc.requests[id].status == Resolved else svc.requests[id] == old(svc.requests)[id])
  {
    hide Decide, TrimSpace, SomePending, Judged;
    var reason := TrimSpace(typed);
    if reason == "" || id !in svc.requests {
      return 0, [];
    }
    TrimTwice(typed);
    ghost var begun := svc.View();
    ghost var ids;
    declined, failures, ids := DeclineEach(svc, who, id, reason, now);
    if who.userId != 0 {
      AllDeclined(begun, svc.View(), who, id, ids, reason, now, declined);
      RowsDeclined(who, reason, now);
    } else {
      assert SomePending(begun.items, id) <==> exists i :: i in ids && PendingOf(begun.items, id, i) by {
        PendingAmong(begun.items, id, ids);
      }
    }
  }

  lemma PendingAmong(items: map<Id, Item>, id: Id, ids: seq<Id>)
    requires forall i :: i in ids <==> i in items && items[i].request == id
    ensures SomePending(items, id) <==> exists i :: i in ids && PendingOf(items, id, i)
  {
  }

  lemma RowsDeclined(who: Principal, reason: string, now: Time)
    ensures forall item: Item :: Judged(item, who, Refusal(reason), now) ==
              item.(status := Rejected, verdict := Verdict(who.userId, Some(now), reason, ""), version := item.version + 1)
  {
  }

  lemma TrimTwice(s: string)
    ensures TrimSpace(TrimSpace(s)) == TrimSpace(s)
  {
  }

  // ---- Reasons -----------------------------------------------------------

  /** Each value once, where it first occurred. */
  function FirstOccurrences(s: seq<string>): (r: seq<string>)
    ensures forall x :: x in r <==> x in s
    ensures forall a, b | 0 <= a < b < |r| :: r[a] != r[b]
  {
    if s == [] then []
    else
      var r := FirstOccurrences(s[..|s| - 1]);
      if s[|s| - 1] in r then r else r + [s[|s| - 1]]
  }

  /** In the order of their first occurrence: whatever is kept stands behind everything kept of a shorter beginning. */
  lemma {:induction false} InOrder(s: seq<string>, n: nat)
    requires n <= |s|
    ensures FirstOccurrences(s[..n]) <= FirstOccurrences(s)
    decreases |s|
  {
    if n == |s| {
      assert s[..n] == s;
    } else {
      assert s[..|s| - 1][..n] == s[..n];
      InOrder(s[..|s| - 1], n);
    }
  }

  /** dedupeReasons. */
  method DedupeReasons(reasons: seq<string>) returns (out: seq<string>)
    ensures out == FirstOccurrences(reasons)
  {
    var seen := {};
    out := [];
    for k := 0 to |reasons|
      invariant out == FirstOccurrences(reasons[..k])
      invariant forall x :: x in seen <==> x in out
    {
      assert reasons[..k + 1][..k] == reasons[..k];
      if reasons[k] in seen {
        continue;
      }
      seen, out := seen + {reasons[k]}, out + [reasons[k]];
    }
    assert reasons[..|reasons|] == reasons;
  }
}

/** What review calls do to the club's own records, and what they do not look at. */
module ReviewEffects {
  import opened Text
  import opened Tables
  import opened Adapters
  import opened Review
  import opened ReviewRuns

  // ---- Apply exactly once ------------------------------------------------

  /** An approval that took effect: the item, and what was applied for whom. */
  datatype Entry = Entry(item: Id, who: Principal, target: Id, proposal: Proposal, now: Time)

  /** The call approved an item and applied it, rather than failing or repeating an earlier answer. */
  predicate Applies(s: Store, c: Call) {
    c.DecideCall? && var o := Decide(s, c.who, c.id, c.item, c.d, c.now); o.answer.Ok? && o.answer.value.applied
  }

  function EntryOf(s: Store, c: Call): seq<Entry> {
    if Applies(s, c) then
      [Entry(c.item, c.who, s.requests[c.id].target, Effective(s.items[c.item].proposal, c.d.amended), c.now)]
    else []
  }

  function Journal(s: Store, calls: seq<Call>): seq<Entry>
    decreases |calls|
  {
    if calls == [] then [] else EntryOf(s, calls[0]) + Journal(Step(s, calls[0]), calls[1..])
  }

  /** The records after applying the entries of a journal, one after the other. */
  function Replay(club: Club, journal: seq<Entry>): Club
    decreases |journal|
  {
    if journal == [] then club
    else
      var e := journal[0];
      match ApplyItem(club, e.who, e.target, e.proposal, e.now)
      case Ok(change) => Replay(change.club, journal[1..])
      case Err(_) => Replay(club, journal[1..])
  }

  predicate NoOfficerEdit(calls: seq<Call>) { forall c | c in calls :: !c.OfficerEdit? }

  /** One call changes the records by its entry and nothing else. */
  lemma StepEffect(s: Store, c: Call)
    requires !c.OfficerEdit?
    ensures Step(s, c).club == Replay(s.club, EntryOf(s, c))
    ensures Applies(s, c) <==> c.DecideCall? && c.item in s.items && s.items[c.item].status == Pending &&
                               c.item in Step(s, c).items && Step(s, c).items[c.item].status == Approved
  {
    hide ApplyItem, Effective, ApprovalRefusal, TrimSpace, SomePending, SomeBlocking, SomeDecided, ValidNew, InsertAllowed,
      Inserted, FreshRequest, Settle;
    if Applies(s, c) {
      var e := EntryOf(s, c)[0];
      assert ApplyItem(s.club, e.who, e.target, e.proposal, e.now).Ok?;
      assert EntryOf(s, c)[1..] == [];
    }
  }

  lemma {:induction false} ReplayAppend(club: Club, a: seq<Entry>, b: seq<Entry>)
    ensures Replay(club, a + b) == Replay(Replay(club, a), b)
    decreases |a|
  {
    hide ApplyItem;
    if a == [] {
      assert a + b == b;
    } else {
      assert (a + b)[1..] == a[1..] + b;
      match ApplyItem(club, a[0].who, a[0].target, a[0].proposal, a[0].now) {
        case Ok(change) => ReplayAppend(change.club, a[1..], b);
        case Err(_) => ReplayAppend(club, a[1..], b);
      }
    }
  }

  /** In any run the club's records are those at its start with the journal applied: nothing else in
      review writes them. */
  lemma {:induction false} RecordsAreTheJournal(s: Store, calls: seq<Call>)
    requires NoOfficerEdit(calls)
    ensures Run(s, calls).club == Replay(s.club, Journal(s, calls))
    decreases |calls|
  {
    hide Step, EntryOf, Replay;
    if calls == [] {
      assert Replay(s.club, []) == s.club by { EmptyReplay(s.club); }
    } else {
      var t := Step(s, calls[0]);
      assert calls[0] in calls && forall c | c in calls[1..] :: c in calls;
      StepEffect(s, calls[0]);
      RecordsAreTheJournal(t, calls[1..]);
      ReplayAppend(s.club, EntryOf(s, calls[0]), Journal(t, calls[1..]));
    }
  }

  lemma EmptyReplay(club: Club)
    ensures Replay(club, []) == club
  {
  }

  predicate InJournal(journal: seq<Entry>, i: Id) { exists k | 0 <= k < |journal| :: journal[k].item == i }

  /** The journal holds exactly the items the run approved, each once, however many reviewers and
      retries there were. */
  lemma {:induction false} AppliedExactlyOnce(s: Store, calls: seq<Call>)
    requires Inv(s)
    ensures var journal, t := Journal(s, calls), Run(s, calls);
            (forall a, b | 0 <= a < b < |journal| :: journal[a].item != journal[b].item) &&
            (forall i :: InJournal(journal, i) <==>
               i in t.items && t.items[i].status == Approved && (i in s.items ==> s.items[i].status == Pending))
    decreases |calls|
  {
    hide Inv, Step, EntryOf;
    if calls == [] {
    } else {
      var c, t, rest := calls[0], Step(s, calls[0]), calls[1..];
      var tail, end := Journal(t, rest), Run(t, rest);
      StepKeeps(s, c);
      RunKeeps(t, rest);
      AppliedExactlyOnce(t, rest);
      OneEntry(s, c);
      assert forall i | i in t.items :: i in end.items && ItemLater(t.items[i], end.items[i]);
      var journal := EntryOf(s, c) + tail;
      forall i ensures InJournal(journal, i) <==> InJournal(EntryOf(s, c), i) || InJournal(tail, i) {
        InAppend(EntryOf(s, c), tail, i);
      }
      forall i ensures InJournal(journal, i) <==>
               i in end.items && end.items[i].status == Approved && (i in s.items ==> s.items[i].status == Pending) {
      }
      if EntryOf(s, c) != [] {
        assert !InJournal(tail, EntryOf(s, c)[0].item);
      }
    }
  }

  lemma InAppend(a: seq<Entry>, b: seq<Entry>, i: Id)
    ensures InJournal(a + b, i) <==> InJournal(a, i) || InJournal(b, i)
  {
    var j := a + b;
    if InJournal(b, i) {
      var k :| 0 <= k < |b| && b[k].item == i;
      assert j[|a| + k].item == i;
    }
    if InJournal(a, i) {
      var k :| 0 <= k < |a| && a[k].item == i;
      assert j[k].item == i;
    }
  }

  /** What one step approves is what it enters. */
  lemma OneEntry(s: Store, c: Call)
    requires Inv(s)
    ensures |EntryOf(s, c)| <= 1
    ensures forall i :: InJournal(EntryOf(s, c), i) <==>
              i in Step(s, c).items && Step(s, c).items[i].status == Approved &&
                  (i in s.items ==> s.items[i].status == Pending)
  {
    hide Inv, Step, Applies;
    forall i ensures InJournal(EntryOf(s, c), i) <==>
               i in Step(s, c).items && Step(s, c).items[i].status == Approved &&
                   (i in s.items ==> s.items[i].status == Pending) {
      OneEntryAt(s, c, i);
    }
  }

  lemma OneEntryAt(s: Store, c: Call, i: Id)
    requires Inv(s)
    ensures InJournal(EntryOf(s, c), i) <==>
              i in Step(s, c).items && Step(s, c).items[i].status == Approved &&
                  (i in s.items ==> s.items[i].status == Pending)
  {
    hide Inv, Step, Applies, Effective, EntryOf, InJournal;
    var t := Step(s, c);
    EntryItem(s, c, i);
    if c.OfficerEdit? {
      assert t.items == s.items && !Applies(s, c) by { EditKeepsItems(s, c); }
    } else {
      StepEffect(s, c);
    }
    if i in t.items && i !in s.items {
      NewItems(s, c, i);
    } else if i in t.items && t.items[i] != s.items[i] {
      OnlyDecided(s, c, i);
    }
  }

  lemma EntryItem(s: Store, c: Call, i: Id)
    ensures InJournal(EntryOf(s, c), i) <==> Applies(s, c) && c.DecideCall? && c.item == i
  {
    hide Decide;
    if Applies(s, c) { assert EntryOf(s, c)[0].item == c.item; }
  }

  lemma EditKeepsItems(s: Store, c: Call)
    requires c.OfficerEdit?
    ensures Step(s, c).items == s.items && !Applies(s, c)
  {
    hide Decide;
  }

  /** Only deciding an item changes it. */
  lemma OnlyDecided(s: Store, c: Call, i: Id)
    requires Inv(s) && i in s.items && i in Step(s, c).items && Step(s, c).items[i] != s.items[i]
    ensures c.DecideCall? && c.item == i
  {
    hide Record, ApprovalRefusal, TrimSpace, SomePending, SomeBlocking, SomeDecided, ValidNew, InsertAllowed,
      FreshRequest, RequestOk, ItemOk, Settle;
  }

  // ---- The status of the request is not consulted -------------------------

  /** Whether an item can be decided, what it becomes and what is applied do not depend on the status
      of its request: an approval on a withdrawn or a resolved request still writes the records. */
  lemma StatusNotConsulted(s: Store, who: Principal, id: Id, itemId: Id, d: DecideParams, now: Time,
                           status: Status, resolvedAt: Option<Time>, withdrawnAt: Option<Time>, version: nat)
    requires id in s.requests
    ensures var row := s.requests[id].(status := status, resolvedAt := resolvedAt, withdrawnAt := withdrawnAt,
                                       version := version);
            var other := Decide(s.(requests := s.requests[id := row]), who, id, itemId, d, now);
            var o := Decide(s, who, id, itemId, d, now);
            (o.answer.Ok? <==> other.answer.Ok?) && (o.answer.Err? ==> o.answer == other.answer) &&
            o.store.items == other.store.items && o.store.club == other.store.club
  {
    hide ApplyItem, Effective, TrimSpace, SomePending, Sensitive, CanApply, Settle;
  }

  const MEMBER := Principal(7, {})
  const OFFICER := Principal(1, {"member.update"})

  /** One person, and a request by the member to have the name changed. */
  function OneRequest(): Store {
    Store(map[1 := Request(Submitted, 7, 1, Supplied("member", "", "", "", "", "Correction to name.", 7, 0),
                           0, None, None, 0, "", None, 1)],
          2,
          map[1 := FreshItem(1, 0, Proposal(SetDisplayName, "Bob", "person", 1, 1, false))],
          2,
          Club(map[1 := Person("Ann", "ann", "", "", false, 1)], map[], 1, [], []), map[])
  }

  const APPROVE := DecideParams(Approved, "", "", "")

  /** The member withdraws, an officer approves all the same: the name changes and the request reads
      resolved, with no trace of the withdrawal. */
  lemma WithdrawnIsStillApplied()
    ensures Inv(OneRequest())
    ensures var w := Withdraw(OneRequest(), MEMBER, 1, 10);
            w.answer.Ok? && w.answer.value.status == Withdrawn &&
            var o := Decide(w.store, OFFICER, 1, 1, APPROVE, 20);
            o.answer.Ok? && o.answer.value.request.status == Resolved && o.answer.value.request.withdrawnAt == None &&
            1 in o.store.club.persons && o.store.club.persons[1].displayName == "Bob"
  {
    var s := OneRequest();
    assert s.items[1].request == 1 && s.items[1].status == Pending;
    var w := Withdraw(s, MEMBER, 1, 10);
    assert w.store == s.(requests := s.requests[1 := w.answer.value]);
    assert TrimSpace("Bob") == "Bob" && TrimSpace("") == "";
    ApproveOnly(w.store);
  }

  lemma ApproveOnly(s: Store)
    requires 1 in s.requests && s.items == OneRequest().items && s.club == OneRequest().club
    requires s.requests[1].target == 1 && s.requests[1].requester == 7 && s.requests[1].status == Withdrawn
    ensures var o := Decide(s, OFFICER, 1, 1, APPROVE, 20);
            o.answer.Ok? && o.answer.value.request.status == Resolved && o.answer.value.request.withdrawnAt == None &&
            1 in o.store.club.persons && o.store.club.persons[1].displayName == "Bob"
  {
    hide TrimSpace, ToLower, CallSignFree;
    assert TrimSpace("Bob") == "Bob" && TrimSpace("") == "" by { TrimsOfLiterals(); }
    var p := s.items[1].proposal;
    assert Effective(p, "") == p;
    assert CallSignFree(s.club.persons, 1, "") by { NoSignIsFree(s.club.persons); }
  }

  lemma TrimsOfLiterals()
    ensures TrimSpace("Bob") == "Bob" && TrimSpace("") == ""
  {
  }

  lemma NoSignIsFree(persons: map<Id, Person>)
    ensures CallSignFree(persons, 1, "")
  {
  }
}

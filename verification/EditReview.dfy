/** An edit form all the way: filed as a change request, reviewed on the officer's screen item by item in
    transactions of their own, and read back from the club's records. */
module EditReview {
  import opened Text
  import opened Tables
  import opened Adapters
  import opened EditForm
  import opened EditPatch
  import opened EditApply
  import opened EditKey
  import opened Woven
  import E = AdapterEffects
  import R = Review
  import ReviewRuns
  import opened ReviewScreen

  // ---- One tick ----------------------------------------------------------

  /** The tick is on a pending item of the request that nothing forbids this officer to approve. */
  predicate Approvable(s: Store, who: Principal, id: Id, tick: Tick, note: string) {
    && id in s.requests && who.userId != 0
    && tick.item.Some? && tick.item.value in s.items && s.items[tick.item.value].request == id
    && s.items[tick.item.value].status == Pending
    && R.ApprovalRefusal(s.requests[id], s.items[tick.item.value].proposal, who, TrimSpace(note)).None?
  }

  predicate AllKnown(s: Store, ticks: seq<Tick>) {
    (forall k | 0 <= k < |ticks| :: ticks[k].item.Some? && ticks[k].item.value in s.items) &&
    forall k, l | 0 <= k < l < |ticks| :: ticks[k].item != ticks[l].item
  }

  predicate AllApprovable(s: Store, who: Principal, id: Id, ticks: seq<Tick>, note: string) {
    AllKnown(s, ticks) && forall k | 0 <= k < |ticks| :: Approvable(s, who, id, ticks[k], note)
  }

  /** What approving the tick applies: the proposal, with the text beside it if the officer changed that. */
  function Proposed(s: Store, tick: Tick): Proposal
    requires tick.item.Some? && tick.item.value in s.items
  {
    R.Effective(s.items[tick.item.value].proposal, TrimSpace(tick.amended))
  }

  function AllProposed(s: Store, ticks: seq<Tick>): (xs: seq<Proposal>)
    requires AllKnown(s, ticks)
    ensures |xs| == |ticks| && forall k | 0 <= k < |ticks| :: xs[k] == Proposed(s, ticks[k])
  {
    seq(|ticks|, k requires 0 <= k < |ticks| => Proposed(s, ticks[k]))
  }

  /** The person a request is about matters to additions only. */
  lemma TargetImmaterial(club: Club, who: Principal, target: Id, x: Proposal, now: Time)
    requires FieldOf(x) != NoField
    ensures ApplyItem(club, who, target, x, now) == ApplyItem(club, who, x.targetId, x, now)
  {
    hide TrimSpace, ParseContactValue, ToUpper, ToLower, CallSignFree, NormalizeContact;
  }

  /** A tick decides its item as the adapter answers, in one transaction. */
  lemma TickStep(s: Store, who: Principal, id: Id, tick: Tick, note: string)
    requires Approvable(s, who, id, tick, note) && FieldOf(Proposed(s, tick)) != NoField
    ensures var i, x := tick.item.value, Proposed(s, tick);
            var o := R.Decide(s, who, id, i, Approval(note, tick), tick.now);
            match ApplyItem(s.club, who, x.targetId, x, tick.now)
            case Err(e) => o == R.Outcome(s, Err(e))
            case Ok(change) =>
              o.answer.Ok? && o.answer.value.applied && o.store.club == change.club &&
              i in o.store.items && o.store.items == s.items[i := o.store.items[i]] &&
              o.store.items[i].status == Approved && o.store.requests.Keys == s.requests.Keys &&
              o.store.requests[id].requester == s.requests[id].requester
  {
    hide ApplyItem, TrimSpace, R.ApprovalRefusal, R.Effective, R.SomePending, FieldOf;
    TrimTwice(note);
    TargetImmaterial(s.club, who, s.requests[id].target, Proposed(s, tick), tick.now);
  }

  /** Refusing an approval looks at the requester only. */
  lemma StaysApprovable(s: Store, t: Store, who: Principal, id: Id, ticks: seq<Tick>, note: string)
    requires ticks != [] && AllApprovable(s, who, id, ticks, note)
    requires id in s.requests && id in t.requests && t.requests[id].requester == s.requests[id].requester
    requires ticks[0].item.value in t.items && t.items == s.items[ticks[0].item.value := t.items[ticks[0].item.value]]
    ensures AllApprovable(t, who, id, ticks[1..], note)
    ensures AllProposed(t, ticks[1..]) == AllProposed(s, ticks)[1..]
  {
    hide TrimSpace, R.Effective, Sensitive, CanApply;
    forall k | 0 <= k < |ticks[1..]|
      ensures Approvable(t, who, id, ticks[1..][k], note) && Proposed(t, ticks[1..][k]) == Proposed(s, ticks[k + 1])
    {
      assert Approvable(s, who, id, ticks[k + 1], note) && ticks[0].item != ticks[k + 1].item;
    }
  }

  // ---- All of them -------------------------------------------------------

  /** The first tick, and then the others on what it left. */
  lemma {:induction false} ApplyFirst(s: Store, who: Principal, id: Id, ticks: seq<Tick>, note: string)
    requires ticks != [] && ticks[0].item.Some?
    ensures var first := Counted(Tally(s, 0, []),
                                 R.Decide(s, who, id, ticks[0].item.value, Approval(note, ticks[0]), ticks[0].now));
            var rest := ApplyAll(first.store, who, id, ticks[1..], note);
            ApplyAll(s, who, id, ticks, note) ==
              Tally(rest.store, first.applied + rest.applied, first.failures + rest.failures)
    decreases |ticks|
  {
    hide R.Decide, TrimSpace;
    var n := |ticks| - 1;
    if n == 0 {
      assert ticks[..0] == [] && ticks[1..] == [];
    } else {
      ApplyFirst(s, who, id, ticks[..n], note);
      assert ticks[..n][1..] == ticks[1..][..n - 1] && ticks[1..][n - 1] == ticks[n];
    }
  }

  function Stales(answers: seq<Option<Error>>): seq<Error> {
    if answers == [] then []
    else (match answers[0] case None => [] case Some(e) => [e]) + Stales(answers[1..])
  }

  predicate TicksForward(ticks: seq<Tick>) {
    forall k, l | 0 <= k <= l < |ticks| :: ticks[k].now <= ticks[l].now
  }

  /** No decision on record is later than the first tick. */
  predicate Begins(club: Club, p: Profile, xs: seq<Proposal>, who: Principal, ticks: seq<Tick>) {
    ticks != [] ==> Setting(club, p, xs, who, ticks[0].now)
  }

  /** Each item ends as its answer says. */
  predicate Decided(t: Store, ticks: seq<Tick>, answers: seq<Option<Error>>) {
    |answers| == |ticks| &&
    forall k | 0 <= k < |ticks| ::
      ticks[k].item.Some? && ticks[k].item.value in t.items &&
      t.items[ticks[k].item.value].status == if answers[k].None? then Approved else Pending
  }

  lemma SettingLater(club: Club, p: Profile, xs: seq<Proposal>, who: Principal, now: Time, later: Time)
    requires Setting(club, p, xs, who, now) && now <= later
    ensures Setting(club, p, xs, who, later)
  {
    hide CallSignFree, ToUpper;
  }

  /** What came of the ticks: the records, the answers, each item, and the items not ticked. */
  predicate Reviewed(s: Store, p: Profile, ticks: seq<Tick>, xs: seq<Proposal>, moved: bool, r: Tally) {
    && Mirrors(r.store.club, Patch(p, Effective(xs, moved)))
    && r.failures == Stales(Answered(xs, moved)) && r.applied + |r.failures| == |ticks|
    && Decided(r.store, ticks, Answered(xs, moved))
    && forall i | i in s.items && !Ticked(ticks, i) :: i in r.store.items && r.store.items[i] == s.items[i]
  }

  lemma TickedFirst(ticks: seq<Tick>, i: Id)
    requires ticks != []
    ensures Ticked(ticks, i) <==> ticks[0].item == Some(i) || Ticked(ticks[1..], i)
  {
    if Ticked(ticks[1..], i) {
      var k :| 0 <= k < |ticks[1..]| && ticks[1..][k].item == Some(i);
      assert ticks[k + 1].item == Some(i);
    }
    if k :| 0 < k < |ticks| && ticks[k].item == Some(i) {
      assert ticks[1..][k - 1].item == Some(i);
    }
  }

  /** One tick and what came of the others. */
  lemma ReviewedFirst(s: Store, t: Store, p: Profile, ticks: seq<Tick>, xs: seq<Proposal>, moved: bool, rest: Tally)
    requires ticks != [] && |xs| == |ticks| && AllKnown(s, ticks) && ticks[0].item.value in t.items
    requires t.items == s.items[ticks[0].item.value := t.items[ticks[0].item.value]]
    requires t.items[ticks[0].item.value].status == if OnPerson(xs[0]) && moved then Pending else Approved
    requires Reviewed(t, if OnPerson(xs[0]) && moved then p else PatchOne(p, xs[0]), ticks[1..], xs[1..],
                      moved || OnPerson(xs[0]), rest)
    ensures Reviewed(s, p, ticks, xs, moved,
                     if OnPerson(xs[0]) && moved then Tally(rest.store, rest.applied, [Stale] + rest.failures)
                     else Tally(rest.store, 1 + rest.applied, rest.failures))
  {
    hide Mirrors, OnPerson, PatchOne;
    var i := ticks[0].item.value;
    var tail := Answered(xs[1..], moved || OnPerson(xs[0]));
    assert Answered(xs, moved)[1..] == tail;
    assert ([xs[0]] + Effective(xs[1..], moved || OnPerson(xs[0])))[1..] == Effective(xs[1..], moved || OnPerson(xs[0]));
    forall j ensures Ticked(ticks, j) <==> j == i || Ticked(ticks[1..], j) {
      TickedFirst(ticks, j);
    }
    assert !Ticked(ticks[1..], i);
    forall k | 0 <= k < |ticks|
      ensures ticks[k].item.value in rest.store.items
      ensures rest.store.items[ticks[k].item.value].status == if Answered(xs, moved)[k].None? then Approved else Pending
    {
      if k > 0 {
        assert ticks[1..][k - 1] == ticks[k] && tail[k - 1] == Answered(xs, moved)[k];
      }
    }
  }

  /** The ticked items one after the other, each decided, applied and stamped in its own transaction: an item
      is refused, as stale, exactly when the person row has already moved under it, and the records then are
      what the other items make of the record. */
  lemma {:induction false} ReviewInTurn(s: Store, p: Profile, id: Id, ticks: seq<Tick>, moved: bool, who: Principal,
                                        note: string)
    requires AllApprovable(s, who, id, ticks, note) && TicksForward(ticks)
    requires var xs := AllProposed(s, ticks);
             ProfileOk(p) && Mirrors(s.club, p) && DistinctFields(xs) && AllReady(p, xs, moved) &&
             Begins(s.club, p, xs, who, ticks)
    ensures Reviewed(s, p, ticks, AllProposed(s, ticks), moved, ApplyAll(s, who, id, ticks, note))
    decreases |ticks|
  {
    hide R.Decide, ApplyItem, Ready, Setting, Mirrors, ProfileOk, DistinctFields, PatchOne, OnPerson, FieldOf, TrimSpace,
      Approvable, R.Effective, Reviewed, ApplyAll;
    var xs := AllProposed(s, ticks);
    if ticks == [] {
      NothingTicked(s, p, moved, who, id, note);
      assert xs == [];
    } else {
      var x, rest, tick := xs[0], xs[1..], ticks[0];
      DistinctTail(xs);
      assert x in xs && xs == [x] + rest;
      ReadyFields(p, x, moved);
      TickKnown(s, who, id, tick, note);
      TickStep(s, who, id, tick, note);
      ApplyFirst(s, who, id, ticks, note);
      var t := R.Decide(s, who, id, tick.item.value, Approval(note, tick), tick.now).store;
      var q := if OnPerson(x) && moved then p else PatchOne(p, x);
      if OnPerson(x) && moved {
        PersonStale(s.club, p, x, who, tick.now);
        assert t == s && t.items == s.items[tick.item.value := s.items[tick.item.value]];
        SettingTail(s.club, p, xs, who, tick.now);
      } else {
        ItemStep(s.club, p, x, rest, moved, who, tick.now);
      }
      StaysApprovable(s, t, who, id, ticks, note);
      if |ticks| > 1 { SettingLater(t.club, q, rest, who, tick.now, ticks[1].now); }
      ReviewInTurn(t, q, id, ticks[1..], moved || OnPerson(x), who, note);
      var after := ApplyAll(t, who, id, ticks[1..], note);
      ReviewedFirst(s, t, p, ticks, xs, moved, after);
      assert [] + after.failures == after.failures && [] + [Stale] == [Stale];
    }
  }

  lemma NothingTicked(s: Store, p: Profile, moved: bool, who: Principal, id: Id, note: string)
    requires Mirrors(s.club, p)
    ensures Reviewed(s, p, [], [], moved, ApplyAll(s, who, id, [], note))
  {
    hide Mirrors;
  }

  lemma TickKnown(s: Store, who: Principal, id: Id, tick: Tick, note: string)
    requires Approvable(s, who, id, tick, note)
    ensures tick.item.Some? && tick.item.value in s.items && id in s.requests
    ensures s.items[tick.item.value].status == Pending
  {
  }

  // ---- A whole form ------------------------------------------------------

  /** The items of a request, and nothing else of it, as they were filed under consecutive ids. */
  predicate Filed(s: Store, id: Id, first: Id, items: seq<Proposal>) {
    && id in s.requests
    && (forall k | 0 <= k < |items| :: FiledItem(s, id, first, items, k))
    && (forall i | i in s.items && s.items[i].request == id :: first <= i < first + |items|)
  }

  predicate FiledItem(s: Store, id: Id, first: Id, items: seq<Proposal>, k: nat)
    requires k < |items|
  {
    first + k in s.items && s.items[first + k] == R.FreshItem(id, k, items[k])
  }

  /** That is what filing a request comes to. */
  lemma FilingFiles(s: Store, who: Principal, n: NewRequest, key: string, now: Time)
    requires ReviewRuns.Inv(s) && R.Create(s, who, n, key, now).store != s
    ensures Filed(R.Create(s, who, n, key, now).store, s.nextRequest, s.nextItem, n.proposals)
  {
    hide R.ValidNew, R.InsertAllowed, R.FreshRequest, R.FreshItem;
    assert forall i | i in s.items :: i < s.nextItem && s.items[i].request < s.nextRequest;
    assert forall k | 0 <= k < |n.proposals| :: R.FreshItem(s.nextRequest, k, n.proposals[k]).request == s.nextRequest by {
      FreshBelongs(s.nextRequest, n.proposals);
    }
  }

  lemma FreshBelongs(id: Id, items: seq<Proposal>)
    ensures forall k: nat | k < |items| :: R.FreshItem(id, k, items[k]).request == id
  {
  }

  lemma FiledKept(s: Store, u: Store, id: Id, first: Id, items: seq<Proposal>)
    requires Filed(s, id, first, items) && id in u.requests
    requires forall i | i in s.items && s.items[i].request == id :: i in u.items && u.items[i] == s.items[i]
    requires forall i | i in u.items && u.items[i].request == id :: i in s.items && s.items[i].request == id
    ensures Filed(u, id, first, items)
  {
    forall k | 0 <= k < |items| ensures FiledItem(u, id, first, items, k) {
      assert FiledItem(s, id, first, items, k);
    }
  }

  /** And it stays so through every run, as long as they are all pending. */
  lemma {:induction false} FiledStays(s: Store, calls: seq<ReviewRuns.Call>, t: Store, id: Id, first: Id,
                                      items: seq<Proposal>)
    requires ReviewRuns.Inv(s) && Filed(s, id, first, items) && t == ReviewRuns.Run(s, calls)
    requires forall i | i in t.items && t.items[i].request == id :: t.items[i].status == Pending
    ensures Filed(t, id, first, items)
    decreases |calls|
  {
    hide ReviewRuns.Inv, ReviewRuns.Step, Filed;
    if calls != [] {
      var u := ReviewRuns.Step(s, calls[0]);
      ReviewRuns.StepKeeps(s, calls[0]);
      FiledHas(s, id, first, items);
      ReviewRuns.StepItems(s, calls[0], id);
      ReviewRuns.RunKeeps(u, calls[1..]);
      forall i | i in s.items && s.items[i].request == id ensures i in u.items && u.items[i] == s.items[i] {
        assert ReviewRuns.ItemLater(s.items[i], u.items[i]);
        assert ReviewRuns.ItemLater(u.items[i], t.items[i]);
      }
      forall i | i in u.items && u.items[i].request == id ensures i in s.items && s.items[i].request == id {
        assert ReviewRuns.ItemLater(s.items[i], u.items[i]);
      }
      FiledKept(s, u, id, first, items);
      FiledStays(u, calls[1..], t, id, first, items);
    }
  }

  lemma FiledHas(s: Store, id: Id, first: Id, items: seq<Proposal>)
    requires Filed(s, id, first, items)
    ensures id in s.requests
  {
  }

  /** Ticks on items of the form, each at most once. */
  predicate OfForm(ticks: seq<Tick>, first: Id, n: nat) {
    (forall k | 0 <= k < |ticks| :: ticks[k].item.Some? && first <= ticks[k].item.value < first + n) &&
    forall k, l | 0 <= k < l < |ticks| :: ticks[k].item != ticks[l].item
  }

  /** What the officer needs: an id, and for the sensitive items a note and not to be the requester. */
  predicate MayReview(s: Store, who: Principal, id: Id, items: seq<Proposal>, note: string)
    requires id in s.requests
  {
    who.userId != 0 &&
    forall x | x in items && Sensitive(x.operation, x.sensitive) ::
      TrimSpace(note) != "" && (s.requests[id].requester == 0 || s.requests[id].requester != who.userId)
  }

  /** The text beside each tick leaves the proposal as it is. */
  predicate AsProposed(s: Store, ticks: seq<Tick>)
    requires AllKnown(s, ticks)
  {
    forall k | 0 <= k < |ticks| :: Proposed(s, ticks[k]) == s.items[ticks[k].item.value].proposal
  }

  /** A box that is empty does; so does one sent as it was shown, with the plain value in it, except that of
      a contact value which itself reads as a kind and a value. */
  lemma AsShown(p: Profile, f: Form, x: Proposal, amended: string)
    requires ProfileOk(p) && Answers(p, f) && x in Diff(p, f)
    ensures TrimSpace(amended) == "" ==> R.Effective(x, TrimSpace(amended)) == x
    ensures TrimSpace(amended) == Plain(x) ==>
              (R.Effective(x, TrimSpace(amended)) == x <==>
               x.operation != UpdateContact || ParseContactValue(Plain(x)).None?)
  {
    hide TrimSpace, ParseContactValue, Diff, Answers, ProfileOk;
    TrimTwice(amended);
    DiffReady(p, f);
    assert Ready(p, x, false);
    if TrimSpace(amended) == Plain(x) {
      if x.operation == UpdateContact {
        ContactShown(p, f, x);
      } else {
        PlainOfOther(x);
        ReadyFields(p, x, false);
        ReadyText(p, x);
      }
    }
  }

  lemma ReadyText(p: Profile, x: Proposal)
    requires Ready(p, x, false) && x.operation != UpdateContact
    ensures x.value != "" && (FieldOf(x) == Name || FieldOf(x) == Sign || FieldOf(x) == Share(x.targetId))
  {
    hide Trimmed, ParseContactValue;
  }

  lemma ContactShown(p: Profile, f: Form, x: Proposal)
    requires ProfileOk(p) && Answers(p, f) && x in Diff(p, f) && x.operation == UpdateContact
    ensures Plain(x) != "" && (AmendedProposal(x, Plain(x)) == x.value <==> ParseContactValue(Plain(x)).None?)
  {
    hide TrimSpace, ParseContactValue, EqualFold, CurrentShareChoice, PlainProposedValue, ContactKind, ContactItems,
      ShareItems;
    InContactItems(p.contacts, f, x);
    InShareItems(p.contacts, p.baseType, f, x);
    var i :| 0 <= i < |p.contacts| && x in ContactItem(p.contacts[i], f);
    var kind, typed := p.contacts[i].kind, f.contacts[p.contacts[i].id];
    PlainOfEncoded(kind, typed);
    UntouchedAmendment(x, kind, typed);
  }

  lemma FormApprovable(s: Store, p: Profile, f: Form, id: Id, first: Id, ticks: seq<Tick>, who: Principal, note: string)
    requires ProfileOk(p) && Answers(p, f) && Filed(s, id, first, Diff(p, f)) && OfForm(ticks, first, |Diff(p, f)|)
    requires MayReview(s, who, id, Diff(p, f), note)
    ensures AllApprovable(s, who, id, ticks, note)
  {
    hide TrimSpace, Diff, Answers, ProfileOk, Ready;
    DiffReady(p, f);
    TrimTwice(note);
    var items := Diff(p, f);
    forall k | 0 <= k < |ticks|
      ensures ticks[k].item.value in s.items && Approvable(s, who, id, ticks[k], note)
    {
      var x := items[ticks[k].item.value - first];
      assert FiledItem(s, id, first, items, ticks[k].item.value - first);
      assert x in items && Ready(p, x, false);
      ReadyFields(p, x, false);
    }
  }

  /** The ticked items of a form touch different fields and are ready to be applied. */
  lemma TickedReady(s: Store, p: Profile, f: Form, id: Id, first: Id, ticks: seq<Tick>)
    requires ProfileOk(p) && Answers(p, f) && Filed(s, id, first, Diff(p, f)) && OfForm(ticks, first, |Diff(p, f)|)
    requires AllKnown(s, ticks) && AsProposed(s, ticks)
    ensures var xs := AllProposed(s, ticks);
            DistinctFields(xs) && AllReady(p, xs, false) && (forall x | x in xs :: x in Diff(p, f)) &&
            ((forall i: nat | first <= i < first + |Diff(p, f)| :: Ticked(ticks, i)) ==> multiset(xs) == multiset(Diff(p, f)))
  {
    hide Diff, Answers, ProfileOk, Ready, FieldOf, Proposed;
    DiffReady(p, f);
    DiffDistinct(p, f);
    var items, xs := Diff(p, f), AllProposed(s, ticks);
    forall k | 0 <= k < |ticks| ensures xs[k] == items[ticks[k].item.value - first] && xs[k] in items {
      assert FiledItem(s, id, first, items, ticks[k].item.value - first);
    }
    forall k, l | 0 <= k < l < |xs| ensures FieldOf(xs[k]) != FieldOf(xs[l]) {
      assert ticks[k].item != ticks[l].item;
    }
    if forall i: nat | first <= i < first + |items| :: Ticked(ticks, i) {
      forall x | x in items ensures x in xs {
        var m :| 0 <= m < |items| && items[m] == x;
        assert Ticked(ticks, first + m);
        var k :| 0 <= k < |ticks| && ticks[k].item == Some(first + m);
        assert xs[k] == x;
      }
      SameMultiset(xs, items);
    }
  }

  lemma SameMultiset(a: seq<Proposal>, b: seq<Proposal>)
    requires DistinctFields(a) && DistinctFields(b) && forall x :: x in a <==> x in b
    ensures multiset(a) == multiset(b)
  {
    hide DistinctFields;
    forall x ensures multiset(a)[x] == multiset(b)[x] {
      if x in a {
        var i :| 0 <= i < |a| && a[i] == x;
        var j :| 0 <= j < |b| && b[j] == x;
        Once(a, i);
        Once(b, j);
      } else {
        assert x !in multiset(a) && x !in multiset(b);
      }
    }
  }

  /** Reviewing a form, with any of its items ticked and in any order: an item is refused exactly when it is
      the second one on the person row, and stays pending; the others are approved, and the records are
      what they make of the record. What was not ticked is as it was. */
  lemma ApprovalsOfAForm(s: Store, p: Profile, f: Form, id: Id, first: Id, ticks: seq<Tick>, who: Principal, note: string)
    requires ProfileOk(p) && Answers(p, f) && Mirrors(s.club, p) && TicksForward(ticks)
    requires Filed(s, id, first, Diff(p, f)) && OfForm(ticks, first, |Diff(p, f)|)
    requires MayReview(s, who, id, Diff(p, f), note) && Begins(s.club, p, Diff(p, f), who, ticks)
    requires AllKnown(s, ticks) && AsProposed(s, ticks)
    ensures var xs, r := AllProposed(s, ticks), ApplyAll(s, who, id, ticks, note);
            Reviewed(s, p, ticks, xs, false, r) &&
            forall k | 0 <= k < |ticks| ::
              Answered(xs, false)[k] ==
              if OnPerson(xs[k]) && exists j | 0 <= j < k :: OnPerson(xs[j]) then Some(Stale) else None
  {
    hide Diff, Setting, Mirrors, Answers, ProfileOk, OnPerson, DistinctFields, AllReady, Filed, MayReview, Reviewed,
      AllApprovable, AsProposed;
    var xs := AllProposed(s, ticks);
    FormApprovable(s, p, f, id, first, ticks, who, note);
    TickedReady(s, p, f, id, first, ticks);
    if ticks != [] {
      SettingFewer(s.club, p, Diff(p, f), xs, who, ticks[0].now);
    }
    ReviewInTurn(s, p, id, ticks, false, who, note);
    forall k | 0 <= k < |ticks|
      ensures Answered(xs, false)[k] ==
              if OnPerson(xs[k]) && exists j | 0 <= j < k :: OnPerson(xs[j]) then Some(Stale) else None
    {
      AnsweredAt(xs, false, k);
    }
  }

  lemma SettingFewer(club: Club, p: Profile, items: seq<Proposal>, xs: seq<Proposal>, who: Principal, now: Time)
    requires Setting(club, p, items, who, now) && forall x | x in xs :: x in items
    ensures Setting(club, p, xs, who, now)
  {
    hide CallSignFree, ToUpper;
  }

  lemma {:induction false} NoStales(answers: seq<Option<Error>>)
    ensures Stales(answers) == [] <==> forall k | 0 <= k < |answers| :: answers[k] == None
  {
    if answers != [] {
      NoStales(answers[1..]);
      assert forall k | 1 <= k < |answers| :: answers[k] == answers[1..][k - 1];
    }
  }

  /** With every item of a form ticked, in any order, all of them are applied exactly when the member did not
      change both the name and the call sign. Then the officer is told so, the request is resolved, and
      the records show what the form said. */
  lemma FormIsAppliedWhole(s: Store, p: Profile, f: Form, id: Id, first: Id, ticks: seq<Tick>, who: Principal, note: string)
    requires ReviewRuns.Inv(s) && ProfileOk(p) && Answers(p, f) && Mirrors(s.club, p) && TicksForward(ticks)
    requires Filed(s, id, first, Diff(p, f)) && OfForm(ticks, first, |Diff(p, f)|)
    requires forall i: nat | first <= i < first + |Diff(p, f)| :: Ticked(ticks, i)
    requires MayReview(s, who, id, Diff(p, f), note) && Begins(s.club, p, Diff(p, f), who, ticks)
    requires AllKnown(s, ticks) && AsProposed(s, ticks)
    ensures var xs, r := AllProposed(s, ticks), ApplyAll(s, who, id, ticks, note);
            (r.failures == [] <==> f.displayName == p.displayName || EqualFold(f.callSign, p.callSign)) &&
            (r.failures == [] ==>
               r.applied == |Diff(p, f)| && id in r.store.requests && r.store.requests[id].status == Resolved &&
               Mirrors(r.store.club, Patch(p, xs)) && Shows(Patch(p, xs), f))
  {
    hide Diff, Setting, Mirrors, Answers, ProfileOk, Patch, Effective, EqualFold, Shows, DistinctFields, AllReady, Filed,
      MayReview, AllApprovable, AsProposed, ReviewRuns.Inv, ApplyAll, Reviewed, OnPerson, OfForm, Answered;
    var xs, r := AllProposed(s, ticks), ApplyAll(s, who, id, ticks, note);
    ApprovalsOfAForm(s, p, f, id, first, ticks, who, note);
    TickedReady(s, p, f, id, first, ticks);
    NoneStale(p, f, xs);
    NoStales(Answered(xs, false));
    ReviewedWell(s, p, ticks, xs, r);
    SameLength(xs, Diff(p, f));
    if r.failures == [] {
      PatchUndoesDiff(p, f, xs);
      FiledHas(s, id, first, Diff(p, f));
      NothingLeft(s, id, first, Diff(p, f), ticks, who, note);
    }
  }

  lemma SameLength(a: seq<Proposal>, b: seq<Proposal>)
    requires multiset(a) == multiset(b)
    ensures |a| == |b|
  {
    assert |multiset(a)| == |a| && |multiset(b)| == |b|;
  }

  lemma ReviewedWell(s: Store, p: Profile, ticks: seq<Tick>, xs: seq<Proposal>, r: Tally)
    requires Reviewed(s, p, ticks, xs, false, r)
    ensures r.failures == Stales(Answered(xs, false)) && Mirrors(r.store.club, Patch(p, Effective(xs, false)))
    ensures r.failures == [] ==> r.applied == |ticks| && forall k | 0 <= k < |ticks| ::
              ticks[k].item.Some? && ticks[k].item.value in r.store.items &&
              r.store.items[ticks[k].item.value].status == Approved
  {
    hide Mirrors, Patch, Effective, OnPerson;
    NoStales(Answered(xs, false));
  }

  /** With every item approved the request is resolved. */
  lemma NothingLeft(s: Store, id: Id, first: Id, items: seq<Proposal>, ticks: seq<Tick>, who: Principal, note: string)
    requires ReviewRuns.Inv(s) && Filed(s, id, first, items) && id in s.requests
    requires forall i: nat | first <= i < first + |items| :: Ticked(ticks, i)
    requires var t := ApplyAll(s, who, id, ticks, note).store;
             forall k | 0 <= k < |ticks| ::
               ticks[k].item.Some? && ticks[k].item.value in t.items && t.items[ticks[k].item.value].status == Approved
    ensures var t := ApplyAll(s, who, id, ticks, note).store;
            id in t.requests && t.requests[id].status == Resolved
  {
    hide ReviewRuns.Inv, ReviewRuns.ItemLater, ReviewRuns.RequestLater, ApplyAll, R.SomeDecided, R.SomeBlocking, R.FreshItem;
    var t := ApplyAll(s, who, id, ticks, note).store;
    ApplyCountsWhatItApproved(s, who, id, ticks, note);
    assert id in t.requests;
    ReviewRuns.InvRequest(t, id);
    forall i | i in t.items && t.items[i].request == id ensures t.items[i].status != Pending {
      SameRequest(s, t, i);
      assert Ticked(ticks, i);
      var k :| 0 <= k < |ticks| && ticks[k].item == Some(i);
      assert ticks[k].item.value == i;
    }
  }

  lemma SameRequest(s: Store, t: Store, i: Id)
    requires ReviewRuns.Later(s, t) && s.items.Keys == t.items.Keys && i in t.items
    ensures s.items[i].request == t.items[i].request
  {
    assert ReviewRuns.ItemLater(s.items[i], t.items[i]);
  }

  // ---- Sent again ---------------------------------------------------------

  /** A form that can be mistaken for another keeps the other from being filed: there is a post with the same
      fields and different values that, once this one is filed, files nothing, whatever it proposes. */
  lemma MistakenFormBlocks(s: Store, who: Principal, post: Post, person: Id, names: seq<string>, n: NewRequest, now: Time,
                           between: seq<ReviewRuns.Call>, later: Time)
    requires ReviewRuns.Inv(s) && Lists(post, names) && Barless(names) && Mistaken(post, names)
    requires ReviewRuns.Files(s, who, n, Key(post, person, names))
    ensures var t := ReviewRuns.Run(R.Create(s, who, n, Key(post, person, names), now).store, between);
            exists other: Post :: Lists(other, names) && Differ(post, other, names) &&
              forall m: NewRequest :: R.Create(t, who, m, Key(other, person, names), later).store == t
  {
    hide Key, Lists, Mistaken, Differ, R.ValidNew, R.Deed, ReviewRuns.Run, ReviewRuns.Inv, ReviewRuns.Files;
    var key := Key(post, person, names);
    KeyNotEmpty(post, person, names);
    KeyShared(post, person, names);
    var other: Post, q: Id :|
      Lists(other, names) && (q != person || Differ(post, other, names)) && Key(other, q, names) == key;
    KeysCompared(other, q, names, post, person, names);
    var t := ReviewRuns.Run(R.Create(s, who, n, key, now).store, between);
    forall m: NewRequest ensures R.Create(t, who, m, key, later).store == t {
      if R.ValidNew(m) {
        ReviewRuns.RetriedFiling(s, who, n, key, now, between, m, later);
      } else {
        InvalidNotFiled(t, who, m, key, later);
      }
    }
  }

  lemma KeyNotEmpty(post: Post, person: Id, names: seq<string>)
    ensures Key(post, person, names) != ""
  {
    hide FormatNat, FormValue, Weave;
    KeyIsWoven(post, person, names);
  }

  lemma InvalidNotFiled(t: Store, who: Principal, m: NewRequest, key: string, now: Time)
    requires !R.ValidNew(m)
    ensures R.Create(t, who, m, key, now).store == t
  {
  }

  /** The officer is shown, for a contact, the value that would be applied, or the whole text when it cannot be read as
      a contact. */
  lemma ShownIsApplied(raw: string)
    ensures PlainProposedValue(UpdateContact, raw) ==
            if ParseContactValue(raw).Some? then ParseContactValue(raw).value.value else raw
  {
    hide TrimSpace, CutAt;
    E.TrimmedCut(raw);
  }
}

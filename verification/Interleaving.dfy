/** Officers at the same time: each reads a request, then its items, validates what was read, and
    writes through guarded statements, with other officers' steps in between. The reads are not
    assumed to share a snapshot with the write, so what is proved rests on the WHERE clauses alone. */
module Interleaving {
  import opened Text
  import opened Tables
  import opened Adapters
  import opened Review
  import opened ReviewRuns

  type Officer = nat

  /** What one officer's call has read so far: a request row, and then perhaps its items. */
  datatype Copy = Copy(id: Id, row: Request, items: Option<map<Id, Item>>)

  datatype World = World(store: Store, copies: map<Officer, Copy>)

  datatype Move =
    | ReadRequest(o: Officer, id: Id)
    | ReadItems(o: Officer)
    | CommitTriage(o: Officer, who: Principal, target: Id, expected: nat, now: Time)
    | CommitResolve(o: Officer, who: Principal, note: string, expected: nat, now: Time)
    | CommitWithdraw(o: Officer, who: Principal, now: Time)
    | CommitDecide(o: Officer, who: Principal, item: Id, d: DecideParams, now: Time)
    | Elsewhere(n: Call)

  function ItemsOf(items: map<Id, Item>, request: Id): map<Id, Item> {
    map i | i in items && items[i].request == request :: items[i]
  }

  // ---- Commits: validation on the copy, writing through the guards ---------

  function TriageWrite(s: Store, c: Copy, who: Principal, target: Id, expected: nat, now: Time): Store {
    if Terminal(c.row.status) || (target != 0 && target !in s.club.persons) || who.userId == 0 then s
    else if c.id !in s.requests || s.requests[c.id].version != expected then s
    else
      s.(requests := s.requests[c.id := s.requests[c.id].(target := target, triagedBy := who.userId,
                                                        triagedAt := Some(now), version := expected + 1)])
  }

  function ResolveWrite(s: Store, c: Copy, who: Principal, note: string, expected: nat, now: Time): Store {
    if c.items.None? || Terminal(c.row.status) || SomeBlocking(c.items.value, c.id) then s
    else
      var version := if expected == 0 then c.row.version else expected;
      if c.id !in s.requests || s.requests[c.id].version != version || Terminal(s.requests[c.id].status) then s
      else
        s.(requests := s.requests[c.id := s.requests[c.id].(status := Resolved, resolvedAt := Some(now),
                                                          resolvedBy := who.userId, resolutionNote := TrimSpace(note),
                                                          version := version + 1)])
  }

  function WithdrawWrite(s: Store, c: Copy, who: Principal, now: Time): Store {
    if c.items.None? || who.userId == 0 || c.row.requester != who.userId || Terminal(c.row.status) ||
       SomeDecided(c.items.value, c.id) then s
    else if c.id !in s.requests || s.requests[c.id].version != c.row.version then s
    else
      s.(requests := s.requests[c.id := s.requests[c.id].(status := Withdrawn, resolvedAt := None,
                                                        withdrawnAt := Some(now), version := c.row.version + 1)])
  }

  /** SetChangeRequestStatus writes these columns of a row and leaves the others. */
  function StatusWrite(row: Request, settled: Request): Request {
    row.(status := settled.status, resolvedAt := settled.resolvedAt, withdrawnAt := settled.withdrawnAt,
         version := settled.version)
  }

  /** Guards of the decision: the item's version and that it is pending; the status of the request is
      then written only at the version that was read, and finding another one is no error. */
  function DecideWrite(s: Store, c: Copy, who: Principal, itemId: Id, d: DecideParams, now: Time): Store {
    if c.items.None? || itemId !in c.items.value || d.decision == Pending then s
    else if d.decision == Rejected && TrimSpace(d.reason) == "" then s
    else
      var item := c.items.value[itemId];
      if item.request != c.id || item.status != Pending then s
      else if d.decision == Approved && ApprovalRefusal(c.row, item.proposal, who, d.note).Some? then s
      else if itemId !in s.items || s.items[itemId].version != item.version || s.items[itemId].status != Pending then s
      else if c.id !in s.requests then s
      else
        match Record(s.club, who, s.requests[c.id].target, s.items[itemId], d, now)
        case Err(_) => s
        case Ok((row, club)) =>
          var items := s.items[itemId := row];
          var current := s.requests[c.id];
          var settled := if current.version == c.row.version
                         then StatusWrite(current, Settle(c.row, SomePending(items, c.id), now)) else current;
          s.(requests := s.requests[c.id := settled], items := items, club := club)
  }

  function Do(w: World, m: Move): World {
    match m
    case ReadRequest(o, id) =>
      if id in w.store.requests then w.(copies := w.copies[o := Copy(id, w.store.requests[id], None)]) else w
    case ReadItems(o) =>
      if o in w.copies then
        w.(copies := w.copies[o := w.copies[o].(items := Some(ItemsOf(w.store.items, w.copies[o].id)))])
      else w
    case CommitTriage(o, who, target, expected, now) =>
      if o in w.copies then w.(store := TriageWrite(w.store, w.copies[o], who, target, expected, now)) else w
    case CommitResolve(o, who, note, expected, now) =>
      if o in w.copies then w.(store := ResolveWrite(w.store, w.copies[o], who, note, expected, now)) else w
    case CommitWithdraw(o, who, now) =>
      if o in w.copies then w.(store := WithdrawWrite(w.store, w.copies[o], who, now)) else w
    case CommitDecide(o, who, item, d, now) =>
      if o in w.copies then w.(store := DecideWrite(w.store, w.copies[o], who, item, d, now)) else w
    case Elsewhere(call) => w.(store := Step(w.store, call))
  }

  // ---- What a copy still says about the tables ----------------------------

  predicate CopyOk(s: Store, c: Copy) {
    && c.id in s.requests && c.row.status != Draft && RequestLater(c.row, s.requests[c.id])
    && (c.row.status == InReview ==> SomeDecided(s.items, c.id))
    && (c.items.Some? ==>
          && (c.row.status == InReview ==> SomeDecided(c.items.value, c.id))
          && (forall i | i in c.items.value :: i in s.items && ItemLater(c.items.value[i], s.items[i]))
          && (forall i | i in s.items && s.items[i].request == c.id :: i in c.items.value))
  }

  ghost predicate WorldOk(w: World) {
    Inv(w.store) && forall o | o in w.copies :: CopyOk(w.store, w.copies[o])
  }

  /** A copy stays in order while the tables move on. */
  lemma CopyAges(s: Store, t: Store, c: Copy)
    requires Inv(s) && Later(s, t) && CopyOk(s, c)
    requires forall i | i in t.items && t.items[i].request == c.id :: i in s.items
    ensures CopyOk(t, c)
  {
    hide Inv, SomeBlocking, SomePending;
    assert RequestLater(s.requests[c.id], t.requests[c.id]);
    if SomeDecided(s.items, c.id) {
      var i :| i in s.items && s.items[i].request == c.id && s.items[i].status != Pending;
      assert ItemLater(s.items[i], t.items[i]);
      assert SomeDecided(t.items, c.id);
    }
    assert forall i | i in s.items :: ItemLater(s.items[i], t.items[i]);
  }

  // ---- Each commit against the atomic call --------------------------------

  /** What the validation of the copy and the guard of the statement ask of a triage. */
  predicate TriageLands(s: Store, c: Copy, who: Principal, target: Id, expected: nat) {
    && !Terminal(c.row.status) && (target == 0 || target in s.club.persons) && who.userId != 0
    && c.id in s.requests && s.requests[c.id].version == expected
  }

  /** A triage writes exactly when it lands, and what it writes is the atomic call at that moment unless the
      request has become terminal since it was read and the officer named the version it has now. */
  lemma TriageCommit(s: Store, c: Copy, who: Principal, target: Id, expected: nat, now: Time)
    requires Inv(s) && CopyOk(s, c)
    ensures var t := TriageWrite(s, c, who, target, expected, now);
            (t != s <==> TriageLands(s, c, who, target, expected)) &&
            (t == s || t == Step(s, TriageCall(who, c.id, target, expected, now)) <==>
             !(TriageLands(s, c, who, target, expected) && Terminal(s.requests[c.id].status)))
    ensures expected == c.row.version && TriageLands(s, c, who, target, expected) ==> !Terminal(s.requests[c.id].status)
  {
    hide Inv, SomeDecided;
  }

  /** A resolve that goes through is the atomic call: the status is guarded, and items that were not
      blocking when they were read are not blocking now. */
  lemma ResolveCommit(s: Store, c: Copy, who: Principal, note: string, expected: nat, now: Time)
    requires Inv(s) && CopyOk(s, c)
    ensures var t := ResolveWrite(s, c, who, note, expected, now);
            (t == s || t == Step(s, ResolveCall(who, c.id, note, expected, now))) &&
            (t != s <==> c.items.Some? && !SomeBlocking(c.items.value, c.id) && !Terminal(c.row.status) &&
                         !Terminal(s.requests[c.id].status) &&
                         s.requests[c.id].version == if expected == 0 then c.row.version else expected)
  {
    hide Inv, SomeDecided, TrimSpace, CanApply;
    if c.items.Some? && SomeBlocking(s.items, c.id) {
      var i :| i in s.items && s.items[i].request == c.id && Blocking(s.items[i]);
      assert ItemLater(c.items.value[i], s.items[i]);
      assert SomeBlocking(c.items.value, c.id);
    }
  }

  /** A withdrawal that goes through is the atomic call, although nothing in its statement looks at
      the items: the first decision on any of them moves the version of a submitted request. */
  lemma WithdrawCommit(s: Store, c: Copy, who: Principal, now: Time)
    requires Inv(s) && CopyOk(s, c)
    ensures var t := WithdrawWrite(s, c, who, now);
            (t == s || t == Step(s, WithdrawCall(who, c.id, now))) &&
            (t != s <==> c.items.Some? && !SomeDecided(c.items.value, c.id) && !Terminal(c.row.status) &&
                         who.userId == c.row.requester != 0 && s.requests[c.id].version == c.row.version)
  {
    hide Inv, SomeDecided, SomePending, SomeBlocking;
    InvRequest(s, c.id);
  }

  /** What the validation of the copy and the guards ask of a decision: the item is pending, was pending
      when it was read, and nothing refuses the decision. */
  predicate DecideLands(s: Store, c: Copy, who: Principal, itemId: Id, d: DecideParams, now: Time) {
    && c.items.Some? && itemId in c.items.value && c.items.value[itemId].request == c.id
    && c.items.value[itemId].status == Pending
    && c.id in s.requests && itemId in s.items && s.items[itemId].status == Pending
    && s.items[itemId].version == c.items.value[itemId].version
    && Decidable(s, who, s.requests[c.id], s.items[itemId], d, now)
  }

  /** Deciding this item would leave the request's row as it is. */
  predicate RowIsSettled(s: Store, id: Id, itemId: Id)
    requires id in s.requests
  {
    s.requests[id].status == Resolved || (s.requests[id].status != Submitted && OthersPending(s.items, id, itemId))
  }

  lemma SettledRow(s: Store, id: Id, itemId: Id, now: Time)
    requires id in s.requests
    ensures RowIsSettled(s, id, itemId) <==> Settle(s.requests[id], OthersPending(s.items, id, itemId), now) == s.requests[id]
  {
    hide OthersPending;
  }

  /** A decision writes exactly when it lands, and what it writes is the atomic call at that moment exactly
      when the request row has not moved since it was read, or has nothing to be moved on to: it is resolved,
      or it is past submitted and this is not its last pending item. */
  lemma DecideCommit(s: Store, c: Copy, who: Principal, itemId: Id, d: DecideParams, now: Time)
    requires Inv(s) && CopyOk(s, c)
    ensures var t := DecideWrite(s, c, who, itemId, d, now);
            (t != s <==> DecideLands(s, c, who, itemId, d, now)) &&
            (t == s || t == Step(s, DecideCall(who, c.id, itemId, d, now)) <==>
             !(DecideLands(s, c, who, itemId, d, now) && s.requests[c.id].version != c.row.version &&
               !RowIsSettled(s, c.id, itemId)))
  {
    hide Inv, ApplyItem, ApprovalRefusal, Effective, TrimSpace, SomePending, OthersPending, SomeDecided, SomeBlocking,
      RowIsSettled;
    var t := DecideWrite(s, c, who, itemId, d, now);
    if c.items.Some? && itemId in c.items.value && c.items.value[itemId].request == c.id {
      assert ItemLater(c.items.value[itemId], s.items[itemId]);
      SameRefusal(c.row, s.requests[c.id], c.items.value[itemId].proposal, who, d.note);
    }
    SettledRow(s, c.id, itemId, now);
    if t != s {
      var u := Step(s, DecideCall(who, c.id, itemId, d, now));
      PendingAfter(s.items, c.id, itemId, t.items[itemId]);
      assert u.requests == s.requests[c.id := Settle(s.requests[c.id], OthersPending(s.items, c.id, itemId), now)];
      assert u.items == t.items && u.club == t.club;
      assert t.requests[c.id] == u.requests[c.id] ==> t.requests == u.requests;
    }
  }

  /** The copy is what the tables say. */
  predicate UpToDate(s: Store, c: Copy) {
    c.id in s.requests && c.row == s.requests[c.id] && c.items == Some(ItemsOf(s.items, c.id))
  }

  /** If nothing of the request has moved since it was read, every commit is the atomic call: it lands when the call
      would, and writes what the call writes. */
  lemma UnmovedIsTheCall(s: Store, c: Copy, who: Principal, target: Id, note: string, expected: nat, itemId: Id,
                         d: DecideParams, now: Time)
    requires Inv(s) && UpToDate(s, c)
    ensures TriageWrite(s, c, who, target, expected, now) == Step(s, TriageCall(who, c.id, target, expected, now))
    ensures ResolveWrite(s, c, who, note, expected, now) == Step(s, ResolveCall(who, c.id, note, expected, now))
    ensures WithdrawWrite(s, c, who, now) == Step(s, WithdrawCall(who, c.id, now))
    ensures DecideWrite(s, c, who, itemId, d, now) == Step(s, DecideCall(who, c.id, itemId, d, now))
  {
    hide Inv, SomePending, SomeBlocking, SomeDecided, TrimSpace, Record, ApprovalRefusal;
    var mine := ItemsOf(s.items, c.id);
    SameOfItems(s.items, c.id);
    if itemId in s.items {
      assert itemId in mine <==> s.items[itemId].request == c.id;
    }
  }

  lemma SameOfItems(items: map<Id, Item>, id: Id)
    ensures SomeBlocking(ItemsOf(items, id), id) == SomeBlocking(items, id)
    ensures SomeDecided(ItemsOf(items, id), id) == SomeDecided(items, id)
  {
    hide CanApply;
    var mine := ItemsOf(items, id);
    assert forall i | i in items && items[i].request == id :: i in mine && mine[i] == items[i];
  }

  /** Self-review is judged by who asked, which no update changes. */
  lemma SameRefusal(a: Request, b: Request, p: Proposal, who: Principal, note: string)
    requires RequestLater(a, b)
    ensures ApprovalRefusal(a, p, who, note) == ApprovalRefusal(b, p, who, note)
  {
    hide TrimSpace, Sensitive, CanApply;
  }

  // ---- Whole interleaved runs ---------------------------------------------

  /** The moves of an officer whom nobody gets in between: reading the request and its items, then one commit. They
      come to the atomic call. */
  lemma UndisturbedMoves(w: World, o: Officer, id: Id, who: Principal, target: Id, note: string, expected: nat,
                         itemId: Id, d: DecideParams, now: Time)
    requires Inv(w.store) && id in w.store.requests
    ensures var r := Do(Do(w, ReadRequest(o, id)), ReadItems(o));
            r.store == w.store && Inv(r.store) && o in r.copies && r.copies[o].id == id && UpToDate(r.store, r.copies[o]) &&
            Do(r, CommitTriage(o, who, target, expected, now)).store ==
              Step(w.store, TriageCall(who, id, target, expected, now)) &&
            Do(r, CommitResolve(o, who, note, expected, now)).store ==
              Step(w.store, ResolveCall(who, id, note, expected, now)) &&
            Do(r, CommitWithdraw(o, who, now)).store == Step(w.store, WithdrawCall(who, id, now)) &&
            Do(r, CommitDecide(o, who, itemId, d, now)).store == Step(w.store, DecideCall(who, id, itemId, d, now))
  {
    hide Inv, Step, TriageWrite, ResolveWrite, WithdrawWrite, DecideWrite, ItemsOf;
    var c := Copy(id, w.store.requests[id], Some(ItemsOf(w.store.items, id)));
    UnmovedIsTheCall(w.store, c, who, target, note, expected, itemId, d, now);
  }

  /** The atomic call a move stands for. */
  function CallOf(w: World, m: Move): seq<Call> {
    match m
    case CommitTriage(o, who, target, expected, now) =>
      if o in w.copies then [TriageCall(who, w.copies[o].id, target, expected, now)] else []
    case CommitResolve(o, who, note, expected, now) =>
      if o in w.copies then [ResolveCall(who, w.copies[o].id, note, expected, now)] else []
    case CommitWithdraw(o, who, now) =>
      if o in w.copies then [WithdrawCall(who, w.copies[o].id, now)] else []
    case CommitDecide(o, who, item, d, now) =>
      if o in w.copies then [DecideCall(who, w.copies[o].id, item, d, now)] else []
    case Elsewhere(call) => [call]
    case _ => []
  }

  /** What the guards alone do not give. A triage that lands finds the request open; a decision that lands
      finds the request row it read, or one it has nothing to move on to. */
  predicate Orderly(w: World, m: Move) {
    match m
    case CommitTriage(o, who, target, expected, now) =>
      o in w.copies && TriageLands(w.store, w.copies[o], who, target, expected) ==>
        !Terminal(w.store.requests[w.copies[o].id].status)
    case CommitDecide(o, who, item, d, now) =>
      o in w.copies && DecideLands(w.store, w.copies[o], who, item, d, now) ==>
        w.store.requests[w.copies[o].id].version == w.copies[o].row.version ||
        RowIsSettled(w.store, w.copies[o].id, item)
    case _ => true
  }

  /** The row an officer read is still the row in the table, as SQLite's snapshot isolation has it. */
  predicate RowHeld(w: World, o: Officer) {
    o in w.copies && w.copies[o].id in w.store.requests ==> w.store.requests[w.copies[o].id] == w.copies[o].row
  }

  lemma HeldIsOrderly(w: World, m: Move)
    requires m.CommitDecide? || m.CommitTriage? ==> RowHeld(w, m.o)
    ensures Orderly(w, m)
  {
    hide Decidable, RowIsSettled;
  }

  predicate OrderlyRun(w: World, moves: seq<Move>)
    decreases |moves|
  {
    moves == [] || (Orderly(w, moves[0]) && OrderlyRun(Do(w, moves[0]), moves[1..]))
  }

  function DoAll(w: World, moves: seq<Move>): World
    decreases |moves|
  {
    if moves == [] then w else DoAll(Do(w, moves[0]), moves[1..])
  }

  /** The calls of the commits that took effect, in the order of their updates. */
  function Linear(w: World, moves: seq<Move>): seq<Call>
    decreases |moves|
  {
    if moves == [] then []
    else
      var now := Do(w, moves[0]);
      (if now.store == w.store then [] else CallOf(w, moves[0])) + Linear(now, moves[1..])
  }

  lemma ReadKeeps(w: World, m: Move)
    requires WorldOk(w) && (m.ReadRequest? || m.ReadItems?)
    ensures WorldOk(Do(w, m)) && Do(w, m).store == w.store
  {
    hide SomeBlocking, SomePending;
    if m.ReadRequest? {
      if m.id in w.store.requests { InvRequest(w.store, m.id); }
    } else if m.o in w.copies {
      var c := w.copies[m.o];
      var items := ItemsOf(w.store.items, c.id);
      if SomeDecided(w.store.items, c.id) {
        var i :| i in w.store.items && w.store.items[i].request == c.id && w.store.items[i].status != Pending;
        assert i in items && SomeDecided(items, c.id);
      }
      assert CopyOk(w.store, c.(items := Some(items)));
    }
  }

  /** A commit that changes anything is its atomic call exactly when it is orderly. */
  lemma CommitIsCall(w: World, m: Move)
    requires WorldOk(w) && Do(w, m).store != w.store
    ensures |CallOf(w, m)| == 1 && Do(w, m).copies == w.copies
    ensures Do(w, m).store == Step(w.store, CallOf(w, m)[0]) <==> Orderly(w, m)
  {
    hide Inv, Step, TriageWrite, ResolveWrite, WithdrawWrite, DecideWrite, TriageLands, DecideLands, RowIsSettled, CopyOk,
      Terminal;
    match m {
      case CommitTriage(o, who, target, expected, now) => TriageCommit(w.store, w.copies[o], who, target, expected, now);
      case CommitResolve(o, who, note, expected, now) => ResolveCommit(w.store, w.copies[o], who, note, expected, now);
      case CommitWithdraw(o, who, now) => WithdrawCommit(w.store, w.copies[o], who, now);
      case CommitDecide(o, who, item, d, now) => DecideCommit(w.store, w.copies[o], who, item, d, now);
      case _ =>
    }
  }

  lemma DoKeeps(w: World, m: Move)
    requires WorldOk(w) && Orderly(w, m)
    ensures WorldOk(Do(w, m))
  {
    hide Inv, Step, Do, CopyOk, Orderly;
    if m.ReadRequest? || m.ReadItems? {
      ReadKeeps(w, m);
    } else {
      CommitCopies(w, m);
      if Do(w, m).store != w.store {
        CommitIsCall(w, m);
        var c := CallOf(w, m)[0];
        StepKeeps(w.store, c);
        forall o | o in w.copies ensures CopyOk(Do(w, m).store, w.copies[o]) {
          CopyKnown(w.store, w.copies[o]);
          StepItems(w.store, c, w.copies[o].id);
          CopyAges(w.store, Do(w, m).store, w.copies[o]);
        }
      }
    }
  }

  lemma CommitCopies(w: World, m: Move)
    requires !m.ReadRequest? && !m.ReadItems?
    ensures Do(w, m).copies == w.copies
  {
    hide Step, TriageWrite, ResolveWrite, WithdrawWrite, DecideWrite;
  }

  lemma CopyKnown(s: Store, c: Copy)
    requires CopyOk(s, c)
    ensures c.id in s.requests
  {
  }

  /** Any interleaving of officers' reads and guarded writes does to the tables what the atomic calls
      do one after the other, in the order of the updates that took effect; so everything proved of
      runs of atomic calls holds of it. */
  lemma {:induction false} InterleavedRunIsAtomic(w: World, moves: seq<Move>)
    requires WorldOk(w) && OrderlyRun(w, moves)
    ensures WorldOk(DoAll(w, moves)) && DoAll(w, moves).store == Run(w.store, Linear(w, moves))
    decreases |moves|
  {
    hide WorldOk, Step, Do, CallOf, Orderly;
    if moves != [] {
      var m, next := moves[0], Do(w, moves[0]);
      DoKeeps(w, m);
      InterleavedRunIsAtomic(next, moves[1..]);
      if next.store != w.store {
        CommitIsCall(w, m);
        var calls := CallOf(w, m);
        assert calls == [calls[0]] && (calls + Linear(next, moves[1..]))[1..] == Linear(next, moves[1..]);
        assert (calls + Linear(next, moves[1..]))[0] == calls[0];
      } else {
        assert [] + Linear(next, moves[1..]) == Linear(next, moves[1..]);
      }
    }
  }

  /** The row is held at every triage and decision that commits. */
  predicate HeldRun(w: World, moves: seq<Move>)
    decreases |moves|
  {
    moves == [] ||
    ((moves[0].CommitTriage? || moves[0].CommitDecide? ==> RowHeld(w, moves[0].o)) && HeldRun(Do(w, moves[0]), moves[1..]))
  }

  /** So with the rows held, as SQLite holds them, the tables are what the atomic calls make of them. */
  lemma HeldRunIsAtomic(w: World, moves: seq<Move>)
    requires WorldOk(w) && HeldRun(w, moves)
    ensures WorldOk(DoAll(w, moves)) && DoAll(w, moves).store == Run(w.store, Linear(w, moves))
  {
    hide WorldOk, DoAll, Linear, Run;
    HeldRunIsOrderly(w, moves);
    InterleavedRunIsAtomic(w, moves);
  }

  lemma {:induction false} HeldRunIsOrderly(w: World, moves: seq<Move>)
    requires HeldRun(w, moves)
    ensures OrderlyRun(w, moves)
    decreases |moves|
  {
    hide Do, Orderly, RowHeld;
    if moves != [] {
      HeldIsOrderly(w, moves[0]);
      HeldRunIsOrderly(Do(w, moves[0]), moves[1..]);
    }
  }

  lemma {:induction false} PrefixStep(w: World, moves: seq<Move>, k: nat)
    requires 1 <= k <= |moves|
    ensures DoAll(w, moves[..k]) == DoAll(Do(w, moves[0]), moves[1..][..k - 1])
    ensures Linear(w, moves[..k]) ==
            (if Do(w, moves[0]).store == w.store then [] else CallOf(w, moves[0])) +
            Linear(Do(w, moves[0]), moves[1..][..k - 1])
  {
    hide Do, CallOf;
    assert moves[..k][0] == moves[0] && moves[..k][1..] == moves[1..][..k - 1];
  }

  /** The run is atomic at each of its points. */
  ghost predicate AtomicThroughout(w: World, moves: seq<Move>) {
    forall k: nat | k <= |moves| :: DoAll(w, moves[..k]).store == Run(w.store, Linear(w, moves[..k]))
  }

  /** Orderly is what it takes: a run is atomic at every point exactly when it is orderly. */
  lemma {:induction false} AtomicIffOrderly(w: World, moves: seq<Move>)
    requires WorldOk(w)
    ensures AtomicThroughout(w, moves) <==> OrderlyRun(w, moves)
    decreases |moves|
  {
    hide WorldOk, Step, Do, CallOf, Orderly, DoAll, Linear;
    if OrderlyRun(w, moves) {
      forall k: nat | k <= |moves| ensures DoAll(w, moves[..k]).store == Run(w.store, Linear(w, moves[..k])) {
        OrderlyPrefix(w, moves, k);
        InterleavedRunIsAtomic(w, moves[..k]);
      }
    } else if AtomicThroughout(w, moves) {
      AtomicIsOrderly(w, moves);
    }
  }

  lemma {:induction false} OrderlyPrefix(w: World, moves: seq<Move>, k: nat)
    requires OrderlyRun(w, moves) && k <= |moves|
    ensures OrderlyRun(w, moves[..k])
    decreases |moves|
  {
    hide Do, Orderly;
    if k > 0 {
      assert moves[..k][1..] == moves[1..][..k - 1];
      OrderlyPrefix(Do(w, moves[0]), moves[1..], k - 1);
    }
  }

  /** The first move of an atomic run is orderly, and the run goes on from there. */
  lemma AtomicFirst(w: World, moves: seq<Move>)
    requires WorldOk(w) && moves != [] && AtomicThroughout(w, moves)
    ensures Orderly(w, moves[0])
    ensures AtomicThroughout(Do(w, moves[0]), moves[1..])
  {
    hide WorldOk, Step, Do, CallOf, Orderly;
    var m, next, rest := moves[0], Do(w, moves[0]), moves[1..];
    PrefixStep(w, moves, 1);
    assert rest[..0] == [];
    assert DoAll(w, moves[..1]).store == Run(w.store, Linear(w, moves[..1]));
    var head := if next.store == w.store then [] else CallOf(w, m);
    assert Linear(next, []) == [] && head + [] == head;
    assert next.store == Run(w.store, head);
    if next.store != w.store {
      CommitIsCall(w, m);
      assert head == [head[0]] && head[1..] == [];
      assert Run(w.store, head) == Step(w.store, head[0]);
    } else {
      NothingWritten(w, m);
    }
    forall k: nat | k <= |rest| ensures DoAll(next, rest[..k]).store == Run(next.store, Linear(next, rest[..k])) {
      PrefixStep(w, moves, k + 1);
      assert DoAll(w, moves[..k + 1]).store == Run(w.store, Linear(w, moves[..k + 1]));
      RunInTwo(w.store, head, Linear(next, rest[..k]));
    }
  }

  /** What changes nothing is orderly. */
  lemma NothingWritten(w: World, m: Move)
    requires WorldOk(w) && Do(w, m).store == w.store
    ensures Orderly(w, m)
  {
    hide Inv, Step, TriageWrite, DecideWrite, TriageLands, DecideLands, RowIsSettled, CopyOk, Terminal;
    match m {
      case CommitTriage(o, who, target, expected, now) =>
        if o in w.copies { TriageCommit(w.store, w.copies[o], who, target, expected, now); }
      case CommitDecide(o, who, item, d, now) =>
        if o in w.copies { DecideCommit(w.store, w.copies[o], who, item, d, now); }
      case _ =>
    }
  }

  lemma {:induction false} RunInTwo(s: Store, a: seq<Call>, b: seq<Call>)
    ensures Run(s, a + b) == Run(Run(s, a), b)
    decreases |a|
  {
    hide Step;
    if a == [] {
      assert a + b == b;
    } else {
      assert (a + b)[1..] == a[1..] + b;
      RunInTwo(Step(s, a[0]), a[1..], b);
    }
  }

  lemma {:induction false} AtomicIsOrderly(w: World, moves: seq<Move>)
    requires WorldOk(w) && AtomicThroughout(w, moves)
    ensures OrderlyRun(w, moves)
    decreases |moves|
  {
    hide WorldOk, Do, Orderly, AtomicThroughout;
    if moves != [] {
      AtomicFirst(w, moves);
      DoKeeps(w, moves[0]);
      AtomicIsOrderly(Do(w, moves[0]), moves[1..]);
    }
  }

  // ---- What the guards alone allow ----------------------------------------

  const ANN := Principal(1, {})
  const HOLD := DecideParams(NeedsVerification, "", "", "")
  const NOTE := Proposal(Other, "", "", 0, 0, false)
  const OPEN := Request(Submitted, 7, 0, Supplied("member", "", "", "", "", "Note.", 7, 0), 0, None, None, 0, "", None, 1)
  const SHUT := OPEN.(status := Resolved, resolvedAt := Some(5), version := 2)

  function TwoNotes(row: Request): Store {
    Store(map[1 := row], 2, map[1 := FreshItem(1, 0, NOTE), 2 := FreshItem(1, 1, NOTE)], 3, Club(map[], map[], 1, [], []),
          map[])
  }

  lemma TwoNotesOk(row: Request)
    requires row == OPEN || row == SHUT
    ensures Inv(TwoNotes(row)) && CopyOk(TwoNotes(row), Copy(1, OPEN, Some(ItemsOf(TwoNotes(row).items, 1))))
    ensures CopyOk(TwoNotes(row), Copy(1, OPEN, None))
  {
    hide TrimSpace;
    var s := TwoNotes(row);
    assert s.items[1].request == 1 && s.items[1].status == Pending && s.items[2].status == Pending;
  }

  /** Holding one of the notes for verification. */
  lemma HoldNote(s: Store, i: Id, now: Time)
    requires 1 in s.requests && i in s.items && (i == 1 || i == 2) && s.items[i] == TwoNotes(OPEN).items[i]
    ensures var t := DecideWrite(s, Copy(1, OPEN, Some(ItemsOf(TwoNotes(OPEN).items, 1))), ANN, i, HOLD, now);
            var items := s.items[i := Judged(s.items[i], ANN, HOLD, now)];
            t.items == items && t.requests.Keys == s.requests.Keys &&
            t.requests[1] == if s.requests[1].version == 1
                             then StatusWrite(s.requests[1], Settle(OPEN, SomePending(items, 1), now)) else s.requests[1]
  {
    hide SomePending, ApprovalRefusal, TrimSpace, Settle;
  }

  /** Two officers decide the two items of a request, each having read it as submitted: the second one's
      status update finds another version, is silently skipped, and the request stays in review with
      nothing left to decide. */
  lemma LastDecisionLost()
    ensures var copy := Copy(1, OPEN, Some(ItemsOf(TwoNotes(OPEN).items, 1)));
            var s := DecideWrite(DecideWrite(TwoNotes(OPEN), copy, ANN, 1, HOLD, 10), copy, ANN, 2, HOLD, 20);
            Inv(TwoNotes(OPEN)) && CopyOk(TwoNotes(OPEN), copy) &&
            1 in s.requests && s.requests[1].status == InReview && !SomePending(s.items, 1)
  {
    hide DecideWrite, Inv, CopyOk;
    TwoNotesOk(OPEN);
    var s := TwoNotes(OPEN);
    HoldNote(s, 1, 10);
    var s1 := DecideWrite(s, Copy(1, OPEN, Some(ItemsOf(s.items, 1))), ANN, 1, HOLD, 10);
    assert s1.items[2].request == 1 && s1.items[2].status == Pending;
    assert SomePending(s1.items, 1);
    HoldNote(s1, 2, 20);
  }

  /** An officer who names a version newer than the row that was read can link a resolved request. */
  lemma TriageAheadOfItsRead()
    ensures var copy := Copy(1, OPEN, None);
            Inv(TwoNotes(SHUT)) && CopyOk(TwoNotes(SHUT), copy) &&
            TriageWrite(TwoNotes(SHUT), copy, ANN, 0, 2, 10) != TwoNotes(SHUT)
  {
    TwoNotesOk(SHUT);
    hide Inv, CopyOk;
    assert TriageWrite(TwoNotes(SHUT), Copy(1, OPEN, None), ANN, 0, 2, 10).requests[1].version == 3;
  }
}

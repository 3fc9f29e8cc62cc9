/** The service over the payment tables: rows are changed in place under their guards, posting and
    correcting append to the ledger, and a call that fails leaves everything as it was. */
module Treasury {
  import opened Text
  import opened Ledger
  import opened LedgerChains
  import opened LedgerCoverage
  import L = LedgerRuns

  class Service {
    var memberships: set<Id>
    var batches: map<Id, Batch>
    var nextBatch: Id
    var entries: map<Id, Entry>
    var payments: seq<Payment>
    var corrections: seq<Correction>
    var coverage: seq<CoverageEvent>
    var claims: map<ClaimKey, Claim>

    function View(): Books
      reads this
    {
      Books(memberships, batches, nextBatch, entries, payments, corrections, coverage, claims)
    }

    ghost predicate Valid()
      reads this
    {
      L.Inv(View())
    }

    constructor (b: Books)
      requires L.Inv(b)
      ensures View() == b && Valid()
    {
      memberships, batches, nextBatch, entries := b.memberships, b.batches, b.nextBatch, b.entries;
      payments, corrections, coverage, claims := b.payments, b.corrections, b.coverage, b.claims;
    }

    // ---- Queries ---------------------------------------------------------

    method NextPaymentBatchEntrySequence(batch: Id) returns (next: nat)
      ensures next == NextSequence(entries, batch)
    {
      var left := entries.Keys;
      var most := 0;
      while left != {}
        invariant left <= entries.Keys
        invariant forall i | i in entries && i !in left && entries[i].batch == batch :: entries[i].sequence <= most
        invariant most == 0 || most in SequencesOf(entries, batch)
        decreases left
      {
        var i :| i in left;
        if entries[i].batch == batch && entries[i].sequence > most {
          most := entries[i].sequence;
        }
        left := left - {i};
      }
      LargestIs(SequencesOf(entries, batch), most);
      next := most + 1;
    }

    method FreeEntryId() returns (id: Id)
      ensures id == NextEntryId(entries)
    {
      var left := entries.Keys;
      var most := 0;
      while left != {}
        invariant left <= entries.Keys
        invariant forall i | i in entries && i !in left :: i <= most
        invariant most == 0 || most in entries.Keys
        decreases left
      {
        var i :| i in left;
        if i > most {
          most := i;
        }
        left := left - {i};
      }
      LargestIs(entries.Keys, most);
      id := most + 1;
    }

    /** ListPaymentBatchEntries: the rows of a batch by sequence. */
    method ListEntries(batch: Id) returns (ids: seq<Id>)
      requires L.DistinctSequences(entries)
      ensures Listing(entries, batch, ids)
    {
      var left := EntriesOf(entries, batch);
      ids := [];
      while left != {}
        invariant left <= EntriesOf(entries, batch)
        invariant forall i :: i in ids || i in left <==> i in entries && entries[i].batch == batch
        invariant forall a, b | 0 <= a < b < |ids| :: entries[ids[a]].sequence < entries[ids[b]].sequence
        invariant forall i, j | i in ids && j in left :: entries[i].sequence < entries[j].sequence
        decreases left
      {
        var least := Least(left);
        ids, left := ids + [least], left - {least};
      }
    }

    method Least(some: set<Id>) returns (least: Id)
      requires some != {} && some <= entries.Keys && L.DistinctSequences(entries)
      requires forall i, j | i in some && j in some :: entries[i].batch == entries[j].batch
      ensures least in some && forall j | j in some && j != least :: entries[least].sequence < entries[j].sequence
    {
      least :| least in some;
      var left := some - {least};
      while left != {}
        invariant left <= some && least in some
        invariant forall j | j in some && j !in left && j != least :: entries[least].sequence < entries[j].sequence
        decreases left
      {
        var j :| j in left;
        if entries[j].sequence < entries[least].sequence {
          least := j;
        }
        left := left - {j};
      }
    }

    // ---- Drafts ----------------------------------------------------------

    /** UPDATE ... SET version = version + 1 WHERE id AND state = 'open': on any other batch it updates no row. */
    method TouchPaymentBatch(batch: Id) returns (touched: bool)
      modifies this`batches
      ensures touched <==> batch in old(batches) && old(batches)[batch].state == Open
      ensures batches == if touched then Touched(old(View()), batch) else old(batches)
    {
      touched := batch in batches && batches[batch].state == Open;
      if touched {
        batches := batches[batch := batches[batch].(version := batches[batch].version + 1)];
      }
    }

    method CompleteClaim(key: ClaimKey, deed: Deed, resource: Id)
      modifies this`claims
      ensures View() == Complete(old(View()), key, deed, resource)
    {
      if key.key != "" {
        claims := claims[key := Claim(deed, resource)];
      }
    }

    method AddEntry(who: Principal, batch: Id, input: EntryInput, key: string) returns (r: Answer)
      requires Valid()
      modifies this
      ensures Valid() && Outcome(View(), r) == Ledger.AddEntry(old(View()), who, batch, input, key)
    {
      hide L.Inv, Problem, NextSequence, NextEntryId;
      L.AddKeeps(View(), who, batch, input, key);
      if MANAGE !in who.caps {
        return Refused(Forbidden);
      }
      var problem := Problem(input.terms, input.paidThrough);
      if problem.Some? {
        return Refused(problem.value);
      }
      var shut := BatchRefusal(View(), batch);
      if shut.Some? {
        return Refused(shut.value);
      }
      if input.membership !in memberships {
        return Refused(NotFound);
      }
      var k, deed := ClaimKey(who.userId, "payment-batch-entry-create", key), EntryDeed(batch, input);
      match Begin(View(), k, deed) {
        case Reused => return Refused(KeyReused);
        case Replay(id) => return if id in entries then Done(id) else Refused(NotFound);
        case Fresh =>
      }
      var sequence := NextPaymentBatchEntrySequence(batch);
      var id := FreeEntryId();
      entries := entries[id := Entry(batch, sequence, input, 1)];
      var touched := TouchPaymentBatch(batch);
      assert touched;
      CompleteClaim(k, deed, id);
      return Done(id);
    }

    method UpdateEntry(who: Principal, batch: Id, entry: Id, input: EntryInput, expected: nat) returns (r: Answer)
      requires Valid()
      modifies this
      ensures Valid() && Outcome(View(), r) == Ledger.UpdateEntry(old(View()), who, batch, entry, input, expected)
    {
      hide L.Inv, Problem;
      L.UpdateKeeps(View(), who, batch, entry, input, expected);
      if MANAGE !in who.caps {
        return Refused(Forbidden);
      }
      var problem := Problem(input.terms, input.paidThrough);
      if problem.Some? {
        return Refused(problem.value);
      }
      var shut := BatchRefusal(View(), batch);
      if shut.Some? {
        return Refused(shut.value);
      }
      if entry !in entries {
        return Refused(NotFound);
      }
      if entries[entry].batch != batch {
        return Refused(EntryNotInBatch);
      }
      if input.membership !in memberships {
        return Refused(NotFound);
      }
      if entries[entry].version != expected {
        return Refused(Stale);
      }
      entries := entries[entry := entries[entry].(input := input, version := expected + 1)];
      var touched := TouchPaymentBatch(batch);
      assert touched;
      return Done(entry);
    }

    method DeleteEntry(who: Principal, batch: Id, entry: Id, expected: nat) returns (r: Answer)
      requires Valid()
      modifies this
      ensures Valid() && Outcome(View(), r) == Ledger.DeleteEntry(old(View()), who, batch, entry, expected)
    {
      hide L.Inv;
      L.DeleteKeeps(View(), who, batch, entry, expected);
      if MANAGE !in who.caps {
        return Refused(Forbidden);
      }
      var shut := BatchRefusal(View(), batch);
      if shut.Some? {
        return Refused(shut.value);
      }
      if entry !in entries {
        return Refused(NotFound);
      }
      if entries[entry].batch != batch {
        return Refused(EntryNotInBatch);
      }
      if entries[entry].version != expected {
        return Refused(Stale);
      }
      entries := entries - {entry};
      var touched := TouchPaymentBatch(batch);
      assert touched;
      return Done(batch);
    }

    method Abandon(who: Principal, batch: Id, reason: string, expected: nat, now: Time) returns (r: Answer)
      requires Valid()
      modifies this
      ensures Valid() && Outcome(View(), r) == Ledger.Abandon(old(View()), who, batch, reason, expected, now)
    {
      hide L.Inv, TrimSpace;
      L.RowCallsKeep(View(), L.AbandonCall(who, batch, reason, expected, now));
      if MANAGE !in who.caps {
        return Refused(Forbidden);
      }
      if TrimSpace(reason) == "" {
        return Refused(ReasonRequired);
      }
      var shut := BatchRefusal(View(), batch);
      if shut.Some? {
        return Refused(shut.value);
      }
      if batches[batch].version != expected {
        return Refused(Stale);
      }
      batches := batches[batch := Closed(batches[batch], Abandoned, who, now, reason)];
      return Done(batch);
    }

    method OpenBatch(who: Principal, caption: string, amount: int, paidThrough: string, key: string,
        now: Time) returns (r: Answer)
      requires Valid()
      modifies this
      ensures Valid() && Outcome(View(), r) == Ledger.OpenBatch(old(View()), who, caption, amount, paidThrough, key, now)
    {
      hide L.Inv, BatchProblem;
      L.OpenKeeps(View(), who, caption, amount, paidThrough, key, now);
      if MANAGE !in who.caps {
        return Refused(Forbidden);
      }
      var problem := BatchProblem(caption, amount, paidThrough);
      if problem.Some? {
        return Refused(problem.value);
      }
      var k, deed := ClaimKey(who.userId, "payment-batch-create", key), OpenDeed(caption, amount, paidThrough);
      match Begin(View(), k, deed) {
        case Reused => return Refused(KeyReused);
        case Replay(id) => return if id in batches then Done(id) else Refused(NotFound);
        case Fresh =>
      }
      var id := nextBatch;
      batches, nextBatch := batches[id := FreshBatch(caption, amount, paidThrough, who, now)], id + 1;
      CompleteClaim(k, deed, id);
      return Done(id);
    }

    /** UPDATE ... WHERE id AND version AND state = 'open'. */
    method UpdateBatch(who: Principal, batch: Id, caption: string, amount: int, paidThrough: string,
        expected: nat) returns (r: Answer)
      requires Valid()
      modifies this
      ensures Valid()
      ensures Outcome(View(), r) == Ledger.UpdateBatch(old(View()), who, batch, caption, amount, paidThrough, expected)
    {
      hide L.Inv, BatchProblem;
      L.RowCallsKeep(View(), L.BatchCall(who, batch, caption, amount, paidThrough, expected));
      if MANAGE !in who.caps {
        return Refused(Forbidden);
      }
      var problem := BatchProblem(caption, amount, paidThrough);
      if problem.Some? {
        return Refused(problem.value);
      }
      var shut := BatchRefusal(View(), batch);
      if shut.Some? {
        return Refused(shut.value);
      }
      if batches[batch].version != expected {
        return Refused(Stale);
      }
      batches := batches[batch := batches[batch].(caption := caption, defaultAmount := amount,
          defaultPaidThrough := paidThrough,
                                                  version := expected + 1)];
      return Done(batch);
    }

    // ---- Posting ---------------------------------------------------------

    /** The decision a new one on the member supersedes: one written by this post, else the one in force. */
    method EffectiveCoverageId(member: Id, written: map<Id, Id>) returns (id: Id)
      requires forall m | m in written :: written[m] == Effective(coverage, m)
      ensures id == Effective(coverage, member)
    {
      if member in written {
        return written[member];
      }
      return Effective(coverage, member);
    }

    /** The loop of postTx: a payment and a decision for each row. */
    method WriteRows(rows: seq<Entry>, who: Principal, now: Time)
      requires Valid()
      requires forall k | 0 <= k < |rows| :: rows[k].input.terms.amount > 0 && rows[k].batch == rows[0].batch
      modifies this`payments, this`coverage
      ensures View() == PostRows(old(View()), rows, who, now)
    {
      hide PaymentFor, L.LedgerOk, L.DraftsOk, Newest, PostRows;
      ghost var begun := View();
      var written: map<Id, Id> := map[];
      assert PostRows(begun, rows[..0], who, now) == begun by { NoRows(begun, who, now); assert rows[..0] == []; }
      for k := 0 to |rows|
        invariant View() == PostRows(begun, rows[..k], who, now)
        invariant forall m | m in written :: written[m] == Effective(coverage, m)
      {
        var e := rows[k];
        OneMoreRow(begun, rows, k, who, now);
        payments := payments + [PaymentFor(e, who, now)];
        var supersedes := EffectiveCoverageId(e.input.membership, written);
        coverage := coverage + [CoverageEvent(e.input.membership, e.input.paidThrough, "payment", |payments|, supersedes,
                                              who.userId, now)];
        written := written[e.input.membership := |coverage|];
      }
      assert rows[..|rows|] == rows;
    }

    method CheckRows(rows: seq<Entry>) returns (problem: Option<Refusal>)
      ensures problem == FirstProblem(View(), rows)
    {
      hide RowProblem;
      for k := 0 to |rows|
        invariant FirstProblem(View(), rows) == FirstProblem(View(), rows[k..])
      {
        problem := RowProblem(View(), rows[k]);
        if problem.Some? {
          return;
        }
        assert rows[k..][1..] == rows[k + 1..];
      }
      return None;
    }

    /** postTx: all of it or nothing. The version guard comes last and undoes what was written. */
    method PostTx(who: Principal, batch: Id, expected: nat, now: Time) returns (r: Answer, ghost ids: seq<Id>)
      requires Valid()
      modifies this
      ensures Listing(old(entries), batch, ids)
      ensures Outcome(View(), r) == PostBatch(old(View()), who, batch, ids, expected, now)
      ensures Valid()
    {
      hide PostRows, FirstProblem, Listing, L.LedgerOk, L.EntryOk, L.PaidInto;
      var begunPayments, begunCoverage := payments, coverage;
      var listed := ListEntries(batch);
      ids := listed;
      L.PostBatchEffect(View(), who, batch, ids, expected, now);
      var shut := BatchRefusal(View(), batch);
      if shut.Some? {
        return Refused(shut.value), ids;
      }
      if listed == [] {
        return Refused(EmptyBatch), ids;
      }
      ListingKnown(entries, batch, listed);
      var rows := Rows(entries, listed);
      var problem := CheckRows(rows);
      if problem.Some? {
        return Refused(problem.value), ids;
      }
      L.ListedRows(View(), batch, listed);
      L.PostRowsShape(View(), rows, who, now);
      WriteRows(rows, who, now);
      if batches[batch].version != expected || batches[batch].state != Open {
        payments, coverage := begunPayments, begunCoverage;
        return Refused(Stale), ids;
      }
      batches := batches[batch := Closed(batches[batch], Posted, who, now, "")];
      return Done(batch), ids;
    }

    /** The outcome for the one listing of the batch's entries, which ListEntries finds. */
    method Post(who: Principal, batch: Id, expected: nat, key: string, confirm: bool, now: Time) returns (r: Answer)
      requires Valid()
      modifies this
      ensures Valid()
      ensures forall ids | Listing(old(entries), batch, ids) ::
                Outcome(View(), r) == Ledger.Post(old(View()), who, batch, ids, expected, key, confirm, now)
    {
      hide PostBatch, Listing, L.Inv;
      ghost var begun := View();
      if POST !in who.caps {
        return Refused(Forbidden);
      }
      if !confirm {
        return Refused(ConfirmationRequired);
      }
      if key == "" {
        return Refused(KeyRequired);
      }
      var k, deed := ClaimKey(who.userId, "payment-batch-post", key), PostDeed(batch, expected);
      match Begin(View(), k, deed) {
        case Reused => return Refused(KeyReused);
        case Replay(id) => return if id in batches then Done(id) else Refused(NotFound);
        case Fresh =>
      }
      ghost var listed;
      r, listed := PostTx(who, batch, expected, now);
      L.PostKeeps(begun, who, batch, listed, expected, key, confirm, now);
      RefusedKeeps(begun, who, batch, listed, expected, now);
      if r.Done? {
        CompleteClaim(k, deed, batch);
      }
      forall ids | Listing(begun.entries, batch, ids) ensures ids == listed {
        OneListing(begun.entries, batch, ids, listed);
      }
    }

    /** PostSinglePayment: a batch of one row, posted by the same transaction. */
    method PostSinglePayment(who: Principal, input: EntryInput, caption: string, key: string, confirm: bool, now: Time)
      returns (r: Answer)
      requires Valid()
      modifies this
      ensures Valid() && Outcome(View(), r) == L.PostSingle(old(View()), who, input, caption, key, confirm, now)
    {
      hide L.Inv, Problem, TrimSpace, PostBatch, Listing, NextEntryId;
      ghost var begun := View();
      L.SingleKeeps(begun, who, input, caption, key, confirm, now);
      if POST !in who.caps {
        return Refused(Forbidden);
      }
      if !confirm {
        return Refused(ConfirmationRequired);
      }
      if key == "" {
        return Refused(KeyRequired);
      }
      var problem := Problem(input.terms, input.paidThrough);
      if problem.Some? {
        return Refused(problem.value);
      }
      var k, deed := ClaimKey(who.userId, "payment-single-post", key), SingleDeed(input, caption);
      match Begin(View(), k, deed) {
        case Reused => return Refused(KeyReused);
        case Replay(id) => return if id in batches then Done(id) else Refused(NotFound);
        case Fresh =>
      }
      if input.membership !in memberships {
        return Refused(NotFound);
      }
      if TrimSpace(caption) == "" {
        return Refused(CaptionRequired);
      }
      L.SingleOpens(begun, who, input, caption, now);
      var batch, rowsBefore, batchesBefore := nextBatch, entries, batches;
      batches, nextBatch := batches[batch := FreshBatch(caption, input.terms.amount, input.paidThrough, who, now)],
          batch + 1;
      var id := FreeEntryId();
      entries := entries[id := Entry(batch, 1, input, 1)];
      assert View() == WithSingle(begun, who, input, caption, now);
      ghost var listed;
      r, listed := PostTx(who, batch, 1, now);
      OneListing(WithSingle(begun, who, input, caption, now).entries, batch, listed, [id]);
      RefusedKeeps(WithSingle(begun, who, input, caption, now), who, batch, listed, 1, now);
      if r.Refused? {
        batches, nextBatch, entries := batchesBefore, batch, rowsBefore;
        return;
      }
      CompleteClaim(k, deed, batch);
    }

    // ---- Correcting ------------------------------------------------------

    /** effectivePayment: back to the root of the chain, then forward to the payment in force. */
    method EffectivePayment(payment: Id) returns (inForce: Id, revision: nat)
      requires Valid() && 1 <= payment <= |payments|
      ensures inForce == InForceFrom(View(), Root(payments, payment)) && revision == Steps(View(), Root(payments, payment))
    {
      hide CorrectionOf, L.DraftsOk, L.LedgerOk;
      var root := payment;
      while payments[root - 1].corrects != 0
        invariant 1 <= root <= |payments| && Root(payments, root) == Root(payments, payment)
        decreases root
      {
        RefersToEarlier(View(), root);
        root := payments[root - 1].corrects;
      }
      inForce, revision := root, 0;
      while true
        invariant 1 <= inForce <= |payments|
        invariant InForceFrom(View(), inForce) == InForceFrom(View(), root)
        invariant revision + Steps(View(), inForce) == Steps(View(), root)
        decreases |payments| - inForce
      {
        NextIsThere(View(), inForce);
        var correction := CorrectionOf(corrections, inForce);
        if correction == 0 {
          return;
        }
        inForce, revision := corrections[correction - 1].replacement, revision + 1;
      }
    }

    method AdjustCoverageForCorrection(inForce: Id, replacement: Id, params: CorrectParams, who: Principal, now: Time)
      requires 1 <= inForce <= |payments|
      modifies this`coverage
      ensures coverage == if SameCoverage(old(coverage), inForce, params.paidThrough) then old(coverage)
                          else Decided(old(coverage), payments[inForce - 1].membership, params.paidThrough, "correction",
                                       replacement, who.userId, now)
    {
      var prior := CoverageOf(coverage, inForce);
      if prior != 0 && coverage[prior - 1].paidThrough == params.paidThrough {
        return;
      }
      var member := payments[inForce - 1].membership;
      coverage := coverage + [CoverageEvent(member, params.paidThrough, "correction", replacement,
          Effective(coverage, member),
                                            who.userId, now)];
    }

    /** Reverse what is in force, append what it should have been, link the three. */
    method AppendCorrection(inForce: Id, revision: nat, params: CorrectParams, who: Principal, now: Time)
      requires 1 <= inForce <= |payments|
      modifies this`payments, this`corrections, this`coverage
      ensures View() == Corrected(old(View()), inForce, revision, params, who, now)
    {
      hide SameCoverage, Decided, FormatNat;
      var p, n := payments[inForce - 1], |payments|;
      payments := payments + [ReversalOf(p, inForce, revision, who, now)];
      payments := payments + [ReplacementOf(p, inForce, params.terms, revision, who, now)];
      corrections := corrections + [Correction(inForce, n + 1, n + 2, params.reason, who.userId, now)];
      AdjustCoverageForCorrection(inForce, n + 2, params, who, now);
    }

    method CorrectPayment(who: Principal, payment: Id, params: CorrectParams, expected: nat, key: string,
        confirm: bool, now: Time)
      returns (r: Answer)
      requires Valid()
      modifies this
      ensures Valid() && Outcome(View(), r) == Correct(old(View()), who, payment, params, expected, key, confirm, now)
    {
      hide L.Inv, CorrectProblem, InForceFrom, Steps, Root, Corrected;
      L.CorrectStepKeeps(View(), who, payment, params, expected, key, confirm, now);
      if CORRECT !in who.caps {
        return Refused(Forbidden);
      }
      if !confirm {
        return Refused(ConfirmationRequired);
      }
      if key == "" {
        return Refused(KeyRequired);
      }
      var problem := CorrectProblem(params);
      if problem.Some? {
        return Refused(problem.value);
      }
      var k, deed := ClaimKey(who.userId, "payment-correct", key), CorrectDeed(payment, params);
      match Begin(View(), k, deed) {
        case Reused => return Refused(KeyReused);
        case Replay(id) => return Done(id);
        case Fresh =>
      }
      if payment == 0 || payment > |payments| {
        return Refused(NotFound);
      }
      if payments[payment - 1].kind == Reversal {
        return Refused(NotCorrectable);
      }
      var inForce, revision := EffectivePayment(payment);
      if revision != expected {
        return Refused(Stale);
      }
      if inForce != payment {
        return Refused(PaymentSuperseded);
      }
      AppendCorrection(payment, revision + 1, params, who, now);
      CompleteClaim(k, deed, |payments|);
      return Done(|payments|);
    }
  }

  lemma RefusedKeeps(b: Books, who: Principal, batch: Id, ids: seq<Id>, expected: nat, now: Time)
    requires Listing(b.entries, batch, ids)
    ensures var o := PostBatch(b, who, batch, ids, expected, now); o.answer.Refused? ==> o.books == b
  {
    hide PostRows, FirstProblem;
  }

  lemma NoRows(b: Books, who: Principal, now: Time)
    ensures PostRows(b, [], who, now) == b
  {
  }

  /** One more row written. */
  lemma OneMoreRow(b: Books, rows: seq<Entry>, k: nat, who: Principal, now: Time)
    requires k < |rows| && L.LedgerOk(b)
    requires forall j | 0 <= j < |rows| :: rows[j].input.terms.amount > 0 && rows[j].batch == rows[0].batch
    ensures var mid, e := PostRows(b, rows[..k], who, now), rows[k];
            var after := Decided(mid.coverage, e.input.membership, e.input.paidThrough, "payment",
                |mid.payments| + 1, who.userId, now);
            PostRows(b, rows[..k + 1], who, now) ==
              mid.(payments := mid.payments + [PaymentFor(e, who, now)], coverage := after) &&
            Effective(after, e.input.membership) == |after| &&
            forall m | m != e.input.membership :: Effective(after, m) == Effective(mid.coverage, m)
  {
    hide PaymentFor, Decided, ChainsOk, TotalsAgree, CoverageOk, Newest;
    assert rows[..k + 1][..k] == rows[..k];
    L.PostRowsLedger(b, rows[..k], who, now, rows[0].batch);
    var mid, e := PostRows(b, rows[..k], who, now), rows[k];
    DecidedKeeps(mid.coverage, e.input.membership, e.input.paidThrough, "payment", |mid.payments| + 1, who.userId, now);
  }

  lemma LargestIs(s: set<nat>, m: nat)
    requires (forall x | x in s :: x <= m) && (m == 0 || m in s)
    ensures Largest(s) == m
  {
  }

  lemma ListingKnown(entries: map<Id, Entry>, batch: Id, ids: seq<Id>)
    requires Listing(entries, batch, ids)
    ensures forall i | i in ids :: i in entries
  {
  }

  lemma RefersToEarlier(b: Books, id: Id)
    requires L.Inv(b) && 1 <= id <= |b.payments|
    ensures b.payments[id - 1].corrects < id
  {
    assert PaymentOk(b.payments, id);
  }

  lemma NextIsThere(b: Books, id: Id)
    requires L.Inv(b) && 1 <= id <= |b.payments|
    ensures var k := CorrectionOf(b.corrections, id);
            if k == 0 then Next(b, id) == 0 else Next(b, id) == b.corrections[k - 1].replacement > id
  {
    hide CorrectionOf;
    NextOk(b, id);
  }

  /** A batch has one listing. */
  lemma {:induction false} OneListing(entries: map<Id, Entry>, batch: Id, a: seq<Id>, b: seq<Id>)
    requires Listing(entries, batch, a) && Listing(entries, batch, b)
    ensures a == b
  {
    SameOrder(entries, a, b);
  }

  lemma {:induction false} SameOrder(entries: map<Id, Entry>, a: seq<Id>, b: seq<Id>)
    requires forall i | i in a || i in b :: i in entries
    requires forall i :: i in a <==> i in b
    requires forall j, k | 0 <= j < k < |a| :: entries[a[j]].sequence < entries[a[k]].sequence
    requires forall j, k | 0 <= j < k < |b| :: entries[b[j]].sequence < entries[b[k]].sequence
    ensures a == b
    decreases |a|
  {
    assert b == [] || b[0] in b;
    if a != [] {
      assert a[0] in a && b[0] in a;
      assert a[0] in b && b[0] in b;
      var j :| 0 <= j < |b| && b[j] == a[0];
      var k :| 0 <= k < |a| && a[k] == b[0];
      assert a[0] == b[0];
      forall i ensures i in a[1..] <==> i in b[1..] {
        TailHas(entries, a, i);
        TailHas(entries, b, i);
      }
      SameOrder(entries, a[1..], b[1..]);
    }
  }

  lemma TailHas(entries: map<Id, Entry>, a: seq<Id>, i: Id)
    requires a != [] && forall i | i in a :: i in entries
    requires forall j, k | 0 <= j < k < |a| :: entries[a[j]].sequence < entries[a[k]].sequence
    ensures i in a[1..] <==> i in a && i != a[0]
  {
    if i in a[1..] {
      var k :| 0 <= k < |a| - 1 && a[1..][k] == i;
      assert a[k + 1] == i;
    }
  }
}

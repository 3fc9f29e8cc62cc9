/** What every run of the treasurer's calls keeps: drafts, posted batches, ledger and coverage. */
module LedgerRuns {
  import opened Text
  import opened Ledger
  import opened LedgerChains
  import opened LedgerCoverage

  // ---- The invariant -----------------------------------------------------

  predicate EntryOk(b: Books, e: Entry) {
    e.batch in b.batches && e.input.membership in b.memberships && Problem(e.input.terms, e.input.paidThrough) == None
  }

  /** The unique index on batch and sequence. */
  predicate DistinctSequences(entries: map<Id, Entry>) {
    forall i, j | i in entries && j in entries && i != j && entries[i].batch == entries[j].batch ::
      entries[i].sequence != entries[j].sequence
  }

  predicate PaidInto(b: Books, p: Payment) { p.batch in b.batches && b.batches[p.batch].state == Posted }

  ghost predicate DraftsOk(b: Books) {
    && (forall i | i in b.batches :: i < b.nextBatch)
    && (forall i | i in b.entries :: EntryOk(b, b.entries[i]))
    && DistinctSequences(b.entries)
    && (forall p | p in b.payments :: PaidInto(b, p))
  }

  ghost predicate LedgerOk(b: Books) {
    && ChainsOk(b.payments, b.corrections) && TotalsAgree(b.payments, b.corrections)
    && CoverageOk(b.coverage) && RefersBack(b.coverage, |b.payments|)
  }

  ghost predicate Inv(b: Books) { DraftsOk(b) && LedgerOk(b) }

  /** Empty books are in order, whoever the members are. */
  lemma EmptyBooks(memberships: set<Id>)
    ensures Inv(Books(memberships, map[], 1, map[], [], [], [], map[]))
  {
  }

  // ---- What a later state keeps of an earlier one ------------------------

  /** The draft rows of a batch. */
  function Draft(entries: map<Id, Entry>, batch: Id): map<Id, Entry> {
    map i | i in entries && entries[i].batch == batch :: entries[i]
  }

  /** Equal versions mean an equal batch with equal entries; a batch that is not open is never touched again. */
  predicate BatchLater(s: Books, t: Books, batch: Id)
    requires batch in s.batches && batch in t.batches
  {
    (s.batches[batch] == t.batches[batch] && Draft(s.entries, batch) == Draft(t.entries, batch)) ||
    (s.batches[batch].state == Open && s.batches[batch].version < t.batches[batch].version)
  }

  ghost predicate Later(s: Books, t: Books) {
    && s.payments <= t.payments && s.corrections <= t.corrections && s.coverage <= t.coverage
    && (forall batch | batch in s.batches :: batch in t.batches && BatchLater(s, t, batch))
    && (forall k | k in s.claims :: k in t.claims && t.claims[k] == s.claims[k])
  }

  lemma LaterTransitive(s: Books, t: Books, u: Books)
    requires Later(s, t) && Later(t, u)
    ensures Later(s, u)
  {
    hide Draft;
    forall batch | batch in s.batches ensures batch in u.batches && BatchLater(s, u, batch) {
      assert BatchLater(s, t, batch) && BatchLater(t, u, batch);
    }
  }

  // ---- Drafts ------------------------------------------------------------

  lemma LargestBeats(s: set<nat>, x: nat)
    requires x in s
    ensures x < Largest(s) + 1
  {
  }

  /** The number given to a new row is not in use in its batch, nor is its id. */
  lemma NewRowIsFree(entries: map<Id, Entry>, batch: Id)
    ensures NextEntryId(entries) !in entries
    ensures forall i | i in entries && entries[i].batch == batch :: entries[i].sequence < NextSequence(entries, batch)
  {
    forall i | i in entries && entries[i].batch == batch ensures entries[i].sequence < NextSequence(entries, batch) {
      assert entries[i].sequence in SequencesOf(entries, batch);
    }
  }

  /** Any change to the entries of one open batch that bumps its version keeps what the others are. */
  lemma EntriesKeep(b: Books, batch: Id, entries: map<Id, Entry>)
    requires Inv(b) && batch in b.batches && b.batches[batch].state == Open
    requires forall i | i in entries :: EntryOk(b, entries[i])
    requires DistinctSequences(entries)
    requires forall other | other != batch :: Draft(entries, other) == Draft(b.entries, other)
    ensures var t := b.(entries := entries, batches := Touched(b, batch));
            Inv(t) && Later(b, t)
  {
    hide Problem, LedgerOk, DistinctSequences;
    var t := b.(entries := entries, batches := Touched(b, batch));
    forall i | i in t.entries ensures EntryOk(t, t.entries[i]) {
      assert EntryOk(b, entries[i]);
    }
    forall p | p in t.payments ensures PaidInto(t, p) {
      assert PaidInto(b, p);
    }
    assert LedgerOk(t) by { SameLedger(b, t); }
  }

  lemma SameLedger(b: Books, t: Books)
    requires LedgerOk(b) && b.payments == t.payments && b.corrections == t.corrections && b.coverage == t.coverage
    ensures LedgerOk(t)
  {
  }

  lemma ClaimKeeps(b: Books, t: Books, k: ClaimKey, deed: Deed, resource: Id)
    requires Inv(t) && Later(b, t) && (k.key != "" ==> k !in b.claims) && t.claims == b.claims
    ensures Inv(Complete(t, k, deed, resource)) && Later(b, Complete(t, k, deed, resource))
  {
    hide Problem, LedgerOk, DistinctSequences, Draft;
    var u := Complete(t, k, deed, resource);
    assert LedgerOk(u) by { SameLedger(t, u); }
    assert forall e :: EntryOk(u, e) <==> EntryOk(t, e);
    assert forall p :: PaidInto(u, p) <==> PaidInto(t, p);
    assert forall batch | batch in b.batches :: BatchLater(b, u, batch) <==> BatchLater(b, t, batch);
  }

  lemma AddKeeps(b: Books, who: Principal, batch: Id, input: EntryInput, key: string)
    requires Inv(b)
    ensures Inv(AddEntry(b, who, batch, input, key).books) && Later(b, AddEntry(b, who, batch, input, key).books)
  {
    hide Problem, LedgerOk, NextSequence, NextEntryId;
    var o := AddEntry(b, who, batch, input, key);
    if o.books != b {
      var id, row := NextEntryId(b.entries), Entry(batch, NextSequence(b.entries, batch), input, 1);
      var entries := b.entries[id := row];
      NewRowIsFree(b.entries, batch);
      assert EntryOk(b, row);
      forall other | other != batch ensures Draft(entries, other) == Draft(b.entries, other) {
        assert forall i | i in entries && entries[i].batch == other :: i != id;
      }
      EntriesKeep(b, batch, entries);
      ClaimKeeps(b, b.(entries := entries, batches := Touched(b, batch)),
                 ClaimKey(who.userId, "payment-batch-entry-create", key), EntryDeed(batch, input), id);
    } else {
      SameIsLater(b);
    }
  }

  lemma SameIsLater(b: Books)
    ensures Later(b, b)
  {
  }

  lemma UpdateKeeps(b: Books, who: Principal, batch: Id, entry: Id, input: EntryInput, expected: nat)
    requires Inv(b)
    ensures var o := UpdateEntry(b, who, batch, entry, input, expected); Inv(o.books) && Later(b, o.books)
  {
    hide Problem, LedgerOk;
    var o := UpdateEntry(b, who, batch, entry, input, expected);
    if o.answer.Done? {
      var entries := b.entries[entry := b.entries[entry].(input := input, version := expected + 1)];
      forall other | other != batch ensures Draft(entries, other) == Draft(b.entries, other) {
      }
      EntriesKeep(b, batch, entries);
    } else {
      SameIsLater(b);
    }
  }

  lemma DeleteKeeps(b: Books, who: Principal, batch: Id, entry: Id, expected: nat)
    requires Inv(b)
    ensures var o := DeleteEntry(b, who, batch, entry, expected); Inv(o.books) && Later(b, o.books)
  {
    hide Problem, LedgerOk;
    var o := DeleteEntry(b, who, batch, entry, expected);
    if o.answer.Done? {
      var entries := b.entries - {entry};
      forall other | other != batch ensures Draft(entries, other) == Draft(b.entries, other) {
      }
      EntriesKeep(b, batch, entries);
    } else {
      SameIsLater(b);
    }
  }

  /** A batch row rewritten with a new version while it is open, its entries left alone. */
  lemma BatchRowKeeps(b: Books, batch: Id, row: Batch)
    requires Inv(b) && batch in b.batches && b.batches[batch].state == Open && row.version > b.batches[batch].version
    ensures var t := b.(batches := b.batches[batch := row]); Inv(t) && Later(b, t)
  {
    hide Problem, LedgerOk, DistinctSequences, Draft;
    var t := b.(batches := b.batches[batch := row]);
    forall i | i in t.entries ensures EntryOk(t, t.entries[i]) {
      assert EntryOk(b, b.entries[i]);
    }
    forall p | p in t.payments ensures PaidInto(t, p) {
      assert PaidInto(b, p);
    }
    assert LedgerOk(t) by { SameLedger(b, t); }
  }

  lemma OpenedKeeps(b: Books, row: Batch)
    requires Inv(b) && row.state == Open
    ensures Inv(Opened(b, row)) && Later(b, Opened(b, row))
  {
    hide Problem, LedgerOk, DistinctSequences, Draft, BatchProblem;
    var t := Opened(b, row);
    forall i | i in t.entries ensures EntryOk(t, t.entries[i]) {
      assert EntryOk(b, b.entries[i]);
    }
    forall p | p in t.payments ensures PaidInto(t, p) {
      assert PaidInto(b, p);
    }
    assert LedgerOk(t) by { SameLedger(b, t); }
  }

  lemma OpenKeeps(b: Books, who: Principal, caption: string, amount: int, paidThrough: string, key: string, now: Time)
    requires Inv(b)
    ensures var o := OpenBatch(b, who, caption, amount, paidThrough, key, now); Inv(o.books) && Later(b, o.books)
  {
    hide Inv, Later, BatchProblem;
    SameIsLater(b);
    var row := FreshBatch(caption, amount, paidThrough, who, now);
    OpenedKeeps(b, row);
    if key != "" ==> ClaimKey(who.userId, "payment-batch-create", key) !in b.claims {
      ClaimKeeps(b, Opened(b, row), ClaimKey(who.userId, "payment-batch-create", key),
                 OpenDeed(caption, amount, paidThrough), b.nextBatch);
    }
  }

  // ---- Posting -----------------------------------------------------------

  function Bills(rows: seq<Entry>, who: Principal, now: Time): (r: seq<Payment>)
    ensures |r| == |rows|
    ensures forall k | 0 <= k < |rows| :: r[k] == PaymentFor(rows[k], who, now)
  {
    seq(|rows|, k requires 0 <= k < |rows| => PaymentFor(rows[k], who, now))
  }

  /** One payment per entry in the order of the entries, and nothing but payments and decisions. */
  lemma {:induction false} PostRowsShape(b: Books, rows: seq<Entry>, who: Principal, now: Time)
    ensures var t := PostRows(b, rows, who, now);
            t == b.(payments := t.payments, coverage := t.coverage) &&
            t.payments == b.payments + Bills(rows, who, now) &&
            b.coverage <= t.coverage && |t.coverage| == |b.coverage| + |rows|
    decreases |rows|
  {
    hide PaymentFor, Decided;
    if rows != [] {
      var n := |rows| - 1;
      PostRowsShape(b, rows[..n], who, now);
      assert Bills(rows, who, now) == Bills(rows[..n], who, now) + [PaymentFor(rows[n], who, now)];
      var mid, e := PostRows(b, rows[..n], who, now), rows[n];
      DecidedAppends(mid.coverage, e.input.membership, e.input.paidThrough, "payment", |mid.payments| + 1, who.userId, now);
    } else {
      assert b.payments + Bills(rows, who, now) == b.payments;
    }
  }

  lemma DecidedAppends(coverage: seq<CoverageEvent>, m: Id, paidThrough: string, why: string, payment: Id,
      officer: Id, at: Time)
    ensures var t := Decided(coverage, m, paidThrough, why, payment, officer, at);
            coverage <= t && |t| == |coverage| + 1 && t[|coverage|].payment == payment
  {
  }

  /** The ledger stays in order, gains the draft total of the rows in their batch and nothing elsewhere. */
  lemma {:induction false} PostRowsLedger(b: Books, rows: seq<Entry>, who: Principal, now: Time, batch: Id)
    requires LedgerOk(b)
    requires forall k | 0 <= k < |rows| :: rows[k].batch == batch && rows[k].input.terms.amount > 0
    ensures LedgerOk(PostRows(b, rows, who, now))
    ensures forall means :: LedgerTotal(PostRows(b, rows, who, now).payments, batch, means) ==
                            LedgerTotal(b.payments, batch, means) + DraftTotal(rows, means)
    ensures forall other, means | other != batch ::
              LedgerTotal(PostRows(b, rows, who, now).payments, other, means) == LedgerTotal(b.payments, other, means)
    decreases |rows|
  {
    hide ChainsOk, TotalsAgree, CoverageOk, Counts, Decided, ReceiptCode;
    if rows != [] {
      var n := |rows| - 1;
      var mid, e := PostRows(b, rows[..n], who, now), rows[n];
      PostRowsLedger(b, rows[..n], who, now, batch);
      RecordKeeps(mid.payments, mid.corrections, PaymentFor(e, who, now));
      DecidedKeeps(mid.coverage, e.input.membership, e.input.paidThrough, "payment", |mid.payments| + 1, who.userId, now);
      DecidedAppends(mid.coverage, e.input.membership, e.input.paidThrough, "payment", |mid.payments| + 1, who.userId, now);
      PostRowsShape(b, rows[..n], who, now);
      forall other, means
        ensures LedgerTotal(PostRows(b, rows, who, now).payments, other, means) ==
                LedgerTotal(mid.payments, other, means) + (if other == batch then Counts(e.input.terms, means) else 0) {
        LedgerAppend(mid.payments, PaymentFor(e, who, now), other, means);
      }
    }
  }

  lemma {:induction false} NothingPaidIn(payments: seq<Payment>, batch: Id, means: Option<string>)
    requires forall p | p in payments :: p.batch != batch
    ensures LedgerTotal(payments, batch, means) == 0
  {
    if payments != [] {
      var n := |payments| - 1;
      assert payments[n] in payments && forall p | p in payments[..n] :: p in payments;
      NothingPaidIn(payments[..n], batch, means);
    }
  }

  /** The rows a listing gives are rows of the batch, and an accepted post has checked them all. */
  lemma ListedRows(b: Books, batch: Id, ids: seq<Id>)
    requires Inv(b) && Listing(b.entries, batch, ids)
    ensures forall k | 0 <= k < |ids| ::
              Rows(b.entries, ids)[k].batch == batch && Rows(b.entries, ids)[k].input.terms.amount > 0
  {
    hide LedgerOk;
    forall k | 0 <= k < |ids| ensures b.entries[ids[k]].batch == batch && b.entries[ids[k]].input.terms.amount > 0 {
      assert ids[k] in ids;
      assert EntryOk(b, b.entries[ids[k]]);
    }
  }

  /** An accepted post turns each entry, in order, into one payment of the same terms, makes the ledger
      total of the batch its draft total, by every method, and leaves every other batch's total alone. */
  lemma PostBatchEffect(b: Books, who: Principal, batch: Id, ids: seq<Id>, expected: nat, now: Time)
    requires Inv(b) && Listing(b.entries, batch, ids)
    ensures var o, rows := PostBatch(b, who, batch, ids, expected, now), Rows(b.entries, ids);
            Inv(o.books) && Later(b, o.books) &&
            (o.answer.Done? ==>
              b.batches[batch].version == expected && o.books.batches[batch].state == Posted &&
                  o.books.entries == b.entries &&
              o.books.payments == b.payments + Bills(rows, who, now) && |o.books.coverage| == |b.coverage| + |ids| &&
              (forall means :: LedgerTotal(o.books.payments, batch, means) == DraftTotal(rows, means)) &&
              forall other, means | other != batch ::
                LedgerTotal(o.books.payments, other, means) == LedgerTotal(b.payments, other, means))
  {
    hide Problem, LedgerOk, DistinctSequences, Draft, PostRows, FirstProblem, PaymentFor;
    var o := PostBatch(b, who, batch, ids, expected, now);
    if o.answer.Done? {
      var rows := Rows(b.entries, ids);
      ListedRows(b, batch, ids);
      PostRowsShape(b, rows, who, now);
      PostRowsLedger(b, rows, who, now, batch);
      forall means ensures LedgerTotal(b.payments, batch, means) == 0 {
        forall p | p in b.payments ensures p.batch != batch { assert PaidInto(b, p); }
        NothingPaidIn(b.payments, batch, means);
      }
      PostedKeeps(b, who, batch, ids, now);
    } else {
      SameIsLater(b);
    }
  }

  lemma PostedKeeps(b: Books, who: Principal, batch: Id, ids: seq<Id>, now: Time)
    requires Inv(b) && Listing(b.entries, batch, ids) && batch in b.batches && b.batches[batch].state == Open
    requires LedgerOk(PostRows(b, Rows(b.entries, ids), who, now))
    ensures var posted := PostRows(b, Rows(b.entries, ids), who, now);
            var t := posted.(batches := b.batches[batch := Closed(b.batches[batch], Posted, who, now, "")]);
            Inv(t) && Later(b, t)
  {
    hide Problem, LedgerOk, DistinctSequences, Draft, PostRows;
    var rows := Rows(b.entries, ids);
    var posted := PostRows(b, rows, who, now);
    var t := posted.(batches := b.batches[batch := Closed(b.batches[batch], Posted, who, now, "")]);
    PostRowsShape(b, rows, who, now);
    ListedRows(b, batch, ids);
    assert LedgerOk(t) by { SameLedger(posted, t); }
    forall i | i in t.entries ensures EntryOk(t, t.entries[i]) {
      assert EntryOk(b, b.entries[i]);
    }
    forall p | p in t.payments ensures PaidInto(t, p) {
      if p in b.payments {
        assert PaidInto(b, p);
      } else {
        assert p in Bills(rows, who, now);
      }
    }
  }

  lemma PostKeeps(b: Books, who: Principal, batch: Id, ids: seq<Id>, expected: nat, key: string, confirm: bool, now: Time)
    requires Inv(b) && Listing(b.entries, batch, ids)
    ensures var o := Post(b, who, batch, ids, expected, key, confirm, now); Inv(o.books) && Later(b, o.books)
  {
    hide Inv, Later, Listing, PostBatch;
    PostBatchEffect(b, who, batch, ids, expected, now);
    SameIsLater(b);
    var k, deed := ClaimKey(who.userId, "payment-batch-post", key), PostDeed(batch, expected);
    var o := PostBatch(b, who, batch, ids, expected, now);
    if key != "" && Begin(b, k, deed) == Fresh {
      assert o.books.claims == b.claims by { PostClaims(b, who, batch, ids, expected, now); }
      ClaimKeeps(b, o.books, k, deed, batch);
    }
  }

  lemma PostClaims(b: Books, who: Principal, batch: Id, ids: seq<Id>, expected: nat, now: Time)
    requires Listing(b.entries, batch, ids)
    ensures PostBatch(b, who, batch, ids, expected, now).books.claims == b.claims
  {
    hide PostRows, FirstProblem;
    PostRowsShape(b, Rows(b.entries, ids), who, now);
  }

  // ---- A single payment --------------------------------------------------

  lemma SingleOpens(b: Books, who: Principal, input: EntryInput, caption: string, now: Time)
    requires Inv(b) && Problem(input.terms, input.paidThrough) == None && input.membership in b.memberships
    ensures var t := WithSingle(b, who, input, caption, now);
            Inv(t) && Later(b, t) && Listing(t.entries, b.nextBatch, [NextEntryId(b.entries)])
  {
    hide Problem, LedgerOk, NextEntryId;
    var id, t := NextEntryId(b.entries), WithSingle(b, who, input, caption, now);
    NewRowIsFree(b.entries, b.nextBatch);
    forall i | i in b.entries ensures b.entries[i].batch != b.nextBatch && EntryOk(t, b.entries[i]) {
      assert EntryOk(b, b.entries[i]);
    }
    forall p | p in t.payments ensures PaidInto(t, p) {
      assert PaidInto(b, p);
    }
    forall batch | batch in b.batches ensures Draft(t.entries, batch) == Draft(b.entries, batch) {
      assert batch != b.nextBatch;
    }
    assert LedgerOk(t) by { SameLedger(b, t); }
  }

  /** PostSinglePayment: a batch of one row and the same posting. */
  ghost function PostSingle(b: Books, who: Principal, input: EntryInput, caption: string, key: string, confirm: bool,
      now: Time): Outcome
    requires Inv(b)
  {
    var k, deed := ClaimKey(who.userId, "payment-single-post", key), SingleDeed(input, caption);
    if POST !in who.caps then Refuse(b, Forbidden)
    else if !confirm then Refuse(b, ConfirmationRequired)
    else if key == "" then Refuse(b, KeyRequired)
    else if Problem(input.terms, input.paidThrough).Some? then Refuse(b, Problem(input.terms, input.paidThrough).value)
    else
      match Begin(b, k, deed)
      case Reused => Refuse(b, KeyReused)
      case Replay(id) => if id in b.batches then Outcome(b, Done(id)) else Refuse(b, NotFound)
      case Fresh =>
        if input.membership !in b.memberships then Refuse(b, NotFound)
        else if TrimSpace(caption) == "" then Refuse(b, CaptionRequired)
        else
          SingleOpens(b, who, input, caption, now);
          var o := PostBatch(WithSingle(b, who, input, caption, now), who, b.nextBatch, [NextEntryId(b.entries)], 1, now);
          if o.answer.Refused? then Refuse(b, o.answer.why) else Outcome(Complete(o.books, k, deed, b.nextBatch), o.answer)
  }

  lemma SingleKeeps(b: Books, who: Principal, input: EntryInput, caption: string, key: string, confirm: bool, now: Time)
    requires Inv(b)
    ensures var o := PostSingle(b, who, input, caption, key, confirm, now); Inv(o.books) && Later(b, o.books)
  {
    hide Inv, Later, Listing, PostBatch, Problem, TrimSpace, WithSingle;
    SameIsLater(b);
    var k, deed := ClaimKey(who.userId, "payment-single-post", key), SingleDeed(input, caption);
    if key != "" && Begin(b, k, deed) == Fresh && Problem(input.terms, input.paidThrough) == None &&
        input.membership in b.memberships {
      SingleOpens(b, who, input, caption, now);
      var t := WithSingle(b, who, input, caption, now);
      assert t.claims == b.claims by { SingleClaims(b, who, input, caption, now); }
      PostBatchEffect(t, who, b.nextBatch, [NextEntryId(b.entries)], 1, now);
      PostClaims(t, who, b.nextBatch, [NextEntryId(b.entries)], 1, now);
      var o := PostBatch(t, who, b.nextBatch, [NextEntryId(b.entries)], 1, now);
      LaterTransitive(b, t, o.books);
      ClaimKeeps(b, o.books, k, deed, b.nextBatch);
    }
  }

  lemma SingleClaims(b: Books, who: Principal, input: EntryInput, caption: string, now: Time)
    ensures WithSingle(b, who, input, caption, now).claims == b.claims
  {
  }

  // ---- Correcting --------------------------------------------------------

  /** The payment a correction is accepted for is one that is in force. */
  lemma TargetInForce(b: Books, payment: Id)
    requires Inv(b) && 1 <= payment <= |b.payments| && InForceFrom(b, Root(b.payments, payment)) == payment
    ensures InForce(b.payments, b.corrections, payment)
  {
    hide DraftsOk, ChainsOk, Root, InForceFrom, Chain, InForce;
    InItsChain(b, payment);
    ChainShape(b, Root(b.payments, payment));
  }

  /** Appending a correction: one more step to the chain, the new row in force, and the batch's total
      moved by the difference, by every method. */
  lemma CorrectedEffect(b: Books, payment: Id, params: CorrectParams, who: Principal, now: Time)
    requires Inv(b) && 1 <= payment <= |b.payments| && InForceFrom(b, Root(b.payments, payment)) == payment
    requires CorrectProblem(params) == None
    ensures var root := Root(b.payments, payment);
            var t := Corrected(b, payment, Steps(b, root) + 1, params, who, now);
            var p := b.payments[payment - 1];
            Inv(t) && Later(b, t) &&
            Steps(t, root) == Steps(b, root) + 1 && InForceFrom(t, root) == |t.payments| &&
            forall batch, means :: LedgerTotal(t.payments, batch, means) == LedgerTotal(b.payments, batch, means) +
              (if batch == p.batch then Counts(params.terms, means) - Counts(p.terms, means) else 0)
  {
    hide Problem, TrimSpace, DraftsOk, ChainsOk, TotalsAgree, CoverageOk, Chain, Counts, Draft, Corrected,
      CorrectProblem, Later,
      Root, Steps, InForceFrom, InForce, RefersBack;
    var root := Root(b.payments, payment);
    var rev := Steps(b, root) + 1;
    TargetInForce(b, payment);
    ParamsPositive(params);
    CorrectKeeps(b, payment, rev, params, who, now);
    DateAfterCorrection(b, payment, rev, params, who, now);
    CorrectedDrafts(b, payment, rev, params, who, now);
    InItsChain(b, payment);
    ChainGrows(b, root, payment, rev, params, who, now);
    CorrectedMoves(b, payment, rev, params, who, now);
  }

  lemma CorrectedMoves(b: Books, payment: Id, revision: nat, params: CorrectParams, who: Principal, now: Time)
    requires 1 <= payment <= |b.payments|
    ensures var t, p := Corrected(b, payment, revision, params, who, now), b.payments[payment - 1];
            forall batch, means :: LedgerTotal(t.payments, batch, means) == LedgerTotal(b.payments, batch, means) +
              (if batch == p.batch then Counts(params.terms, means) - Counts(p.terms, means) else 0)
  {
    hide Counts, Decided, SameCoverage, FormatNat;
    var t, p := Corrected(b, payment, revision, params, who, now), b.payments[payment - 1];
    var r, q := ReversalOf(p, payment, revision, who, now), ReplacementOf(p, payment, params.terms, revision, who, now);
    assert t.payments == (b.payments + [r]) + [q];
    forall batch, means
      ensures LedgerTotal(t.payments, batch, means) == LedgerTotal(b.payments, batch, means) +
              (if batch == p.batch then Counts(params.terms, means) - Counts(p.terms, means) else 0) {
      LedgerAppend(b.payments, r, batch, means);
      LedgerAppend(b.payments + [r], q, batch, means);
      NegatedCounts(p.terms, means);
    }
  }

  lemma NegatedCounts(t: Terms, means: Option<string>)
    ensures Counts(t.(amount := -t.amount), means) == -Counts(t, means)
  {
  }

  lemma ParamsPositive(params: CorrectParams)
    requires CorrectProblem(params) == None
    ensures params.terms.amount > 0
  {
    hide TrimSpace, IsoDate;
  }

  lemma CorrectedDrafts(b: Books, payment: Id, revision: nat, params: CorrectParams, who: Principal, now: Time)
    requires Inv(b) && 1 <= payment <= |b.payments|
    ensures var t := Corrected(b, payment, revision, params, who, now);
            DraftsOk(t) && Later(b, t) && RefersBack(t.coverage, |t.payments|)
  {
    hide Problem, DistinctSequences, Draft, ChainsOk, TotalsAgree, CoverageOk, FormatNat, SameCoverage, Effective;
    var t, p := Corrected(b, payment, revision, params, who, now), b.payments[payment - 1];
    assert PaidInto(b, p);
    forall q | q in t.payments ensures PaidInto(t, q) {
      if q in b.payments { assert PaidInto(b, q); }
    }
    forall i | i in t.entries ensures EntryOk(t, t.entries[i]) {
      assert EntryOk(b, b.entries[i]);
    }
  }

  /** The chain of the corrected payment is one step longer and ends in the replacement. */
  lemma {:induction false} ChainGrows(b: Books, id: Id, payment: Id, revision: nat, params: CorrectParams,
      who: Principal, now: Time)
    requires ChainsOk(b.payments, b.corrections) && 1 <= id <= |b.payments| && 1 <= payment <= |b.payments|
    requires b.payments[id - 1].kind != Reversal && InForceFrom(b, id) == payment
    ensures var t := Corrected(b, payment, revision, params, who, now);
            Steps(t, id) == Steps(b, id) + 1 && InForceFrom(t, id) == |t.payments|
    decreases |b.payments| - id
  {
    hide CorrectionOf, ChainsOk, Decided, SameCoverage, ReversalOf, ReplacementOf;
    var t := Corrected(b, payment, revision, params, who, now);
    NextOk(b, id);
    var c := t.corrections[|b.corrections|];
    assert t.corrections == b.corrections + [c];
    CorrectionOfAppend(b.corrections, c, id);
    if Next(b, id) == 0 {
      assert Next(t, id) == |t.payments|;
      NoneCorrects(b.payments, b.corrections, |t.payments|);
      CorrectionOfAppend(b.corrections, c, |t.payments|);
      assert Next(t, |t.payments|) == 0;
    } else {
      ChainShape(b, Next(b, id));
      assert InForceFrom(b, Next(b, id)) == payment && payment != id by { LastIsNotFirst(b, id); }
      assert Next(t, id) == Next(b, id);
      ChainGrows(b, Next(b, id), payment, revision, params, who, now);
    }
  }

  lemma LastIsNotFirst(b: Books, id: Id)
    requires ChainsOk(b.payments, b.corrections) && 1 <= id <= |b.payments| && b.payments[id - 1].kind != Reversal &&
        Next(b, id) != 0
    ensures InForceFrom(b, id) == InForceFrom(b, Next(b, id)) > id
  {
    hide ChainsOk, Next, CorrectionOf;
    ChainShape(b, id);
    assert |Chain(b, id)| > 1;
  }

  lemma CorrectStepKeeps(b: Books, who: Principal, payment: Id, params: CorrectParams, expected: nat, key: string,
      confirm: bool, now: Time)
    requires Inv(b)
    ensures var o := Correct(b, who, payment, params, expected, key, confirm, now); Inv(o.books) && Later(b, o.books)
  {
    hide Inv, Later, Corrected, CorrectProblem, Root, Steps, InForceFrom;
    SameIsLater(b);
    var o := Correct(b, who, payment, params, expected, key, confirm, now);
    var k, deed := ClaimKey(who.userId, "payment-correct", key), CorrectDeed(payment, params);
    if o.books != b {
      CorrectedEffect(b, payment, params, who, now);
      var t := Corrected(b, payment, expected + 1, params, who, now);
      assert t.claims == b.claims by { CorrectedClaims(b, payment, expected + 1, params, who, now); }
      ClaimKeeps(b, t, k, deed, |t.payments|);
    }
  }

  lemma CorrectedClaims(b: Books, payment: Id, revision: nat, params: CorrectParams, who: Principal, now: Time)
    requires 1 <= payment <= |b.payments|
    ensures Corrected(b, payment, revision, params, who, now).claims == b.claims
  {
  }

  lemma DecideKeeps(b: Books, m: Id, paidThrough: string, why: string, officer: Id, now: Time)
    requires Inv(b)
    ensures var o := Decide(b, m, paidThrough, why, officer, now); Inv(o.books) && Later(b, o.books)
  {
    hide Problem, IsoDate, DistinctSequences, Draft, ChainsOk, TotalsAgree, CoverageOk, Effective;
    SameIsLater(b);
    var t := Decide(b, m, paidThrough, why, officer, now).books;
    DecidedKeeps(b.coverage, m, paidThrough, why, 0, officer, now);
    forall i | i in t.entries ensures EntryOk(t, t.entries[i]) {
      assert EntryOk(b, b.entries[i]);
    }
    forall q | q in t.payments ensures PaidInto(t, q) {
      assert PaidInto(b, q);
    }
  }

  // ---- Runs --------------------------------------------------------------

  datatype Call =
    | OpenCall(who: Principal, caption: string, amount: int, paidThrough: string, key: string, now: Time)
    | BatchCall(who: Principal, batch: Id, caption: string, amount: int, paidThrough: string, expected: nat)
    | AbandonCall(who: Principal, batch: Id, reason: string, expected: nat, now: Time)
    | AddCall(who: Principal, batch: Id, input: EntryInput, key: string)
    | UpdateCall(who: Principal, batch: Id, entry: Id, input: EntryInput, expected: nat)
    | DeleteCall(who: Principal, batch: Id, entry: Id, expected: nat)
    | PostCall(who: Principal, batch: Id, ids: seq<Id>, expected: nat, key: string, confirm: bool, now: Time)
    | SingleCall(who: Principal, input: EntryInput, caption: string, key: string, confirm: bool, now: Time)
    | CorrectCall(who: Principal, payment: Id, params: CorrectParams, expected: nat, key: string, confirm: bool, now: Time)
    | DecideCall(membership: Id, paidThrough: string, why: string, officer: Id, now: Time)

  ghost function Step(b: Books, c: Call): Books
    requires Inv(b)
  {
    match c
    case OpenCall(who, caption, amount, paidThrough, key, now) =>
      OpenBatch(b, who, caption, amount, paidThrough, key, now).books
    case BatchCall(who, batch, caption, amount, paidThrough, expected) =>
      UpdateBatch(b, who, batch, caption, amount, paidThrough, expected).books
    case AbandonCall(who, batch, reason, expected, now) => Abandon(b, who, batch, reason, expected, now).books
    case AddCall(who, batch, input, key) => AddEntry(b, who, batch, input, key).books
    case UpdateCall(who, batch, entry, input, expected) => UpdateEntry(b, who, batch, entry, input, expected).books
    case DeleteCall(who, batch, entry, expected) => DeleteEntry(b, who, batch, entry, expected).books
    case PostCall(who, batch, ids, expected, key, confirm, now) =>
      if Listing(b.entries, batch, ids) then Post(b, who, batch, ids, expected, key, confirm, now).books else b
    case SingleCall(who, input, caption, key, confirm, now) => PostSingle(b, who, input, caption, key, confirm, now).books
    case CorrectCall(who, payment, params, expected, key, confirm, now) =>
      Correct(b, who, payment, params, expected, key, confirm, now).books
    case DecideCall(membership, paidThrough, why, officer, now) =>
      Decide(b, membership, paidThrough, why, officer, now).books
  }

  lemma RowCallsKeep(b: Books, c: Call)
    requires Inv(b) && (c.BatchCall? || c.AbandonCall?)
    ensures Inv(Step(b, c)) && Later(b, Step(b, c))
  {
    hide Inv, Later, BatchProblem, TrimSpace;
    SameIsLater(b);
    if Step(b, c) != b {
      BatchRowKeeps(b, c.batch, Step(b, c).batches[c.batch]);
    }
  }

  lemma StepKeeps(b: Books, c: Call)
    requires Inv(b)
    ensures Inv(Step(b, c)) && Later(b, Step(b, c))
  {
    hide Inv, Later, OpenBatch, UpdateBatch, Abandon, AddEntry, UpdateEntry, DeleteEntry, Post, PostSingle, Correct, Decide;
    SameIsLater(b);
    match c {
      case OpenCall(who, caption, amount, paidThrough, key, now) =>
        OpenKeeps(b, who, caption, amount, paidThrough, key, now);
      case BatchCall(_, _, _, _, _, _) => RowCallsKeep(b, c);
      case AbandonCall(_, _, _, _, _) => RowCallsKeep(b, c);
      case AddCall(who, batch, input, key) => AddKeeps(b, who, batch, input, key);
      case UpdateCall(who, batch, entry, input, expected) => UpdateKeeps(b, who, batch, entry, input, expected);
      case DeleteCall(who, batch, entry, expected) => DeleteKeeps(b, who, batch, entry, expected);
      case PostCall(who, batch, ids, expected, key, confirm, now) =>
        if Listing(b.entries, batch, ids) { PostKeeps(b, who, batch, ids, expected, key, confirm, now); }
      case SingleCall(who, input, caption, key, confirm, now) => SingleKeeps(b, who, input, caption, key, confirm, now);
      case CorrectCall(who, payment, params, expected, key, confirm, now) =>
        CorrectStepKeeps(b, who, payment, params, expected, key, confirm, now);
      case DecideCall(m, paidThrough, why, officer, now) => DecideKeeps(b, m, paidThrough, why, officer, now);
    }
  }

  ghost function Run(b: Books, calls: seq<Call>): (t: Books)
    requires Inv(b)
    ensures Inv(t)
    decreases |calls|
  {
    if calls == [] then b
    else
      StepKeeps(b, calls[0]);
      Run(Step(b, calls[0]), calls[1..])
  }

  lemma {:induction false} RunKeeps(b: Books, calls: seq<Call>)
    requires Inv(b)
    ensures Later(b, Run(b, calls))
    decreases |calls|
  {
    hide Inv, Later, Step;
    if calls == [] {
      SameIsLater(b);
    } else {
      StepKeeps(b, calls[0]);
      RunKeeps(Step(b, calls[0]), calls[1..]);
      LaterTransitive(b, Step(b, calls[0]), Run(b, calls));
    }
  }
}

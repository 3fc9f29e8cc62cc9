/** What the rows say that the treasurer's calls write, and who may make them: each in terms of what the call was
    given. */
module LedgerRows {
  import opened Text
  import opened Timestamps
  import opened Ledger
  import opened LedgerCoverage
  import opened LedgerChains
  import opened LedgerRuns

  // ---- Posted rows -------------------------------------------------------

  /** The payment is the entry's: its member, its money, its batch; entered by the poster at that time. */
  predicate Pays(p: Payment, e: Entry, who: Principal, now: Time) {
    && p.membership == e.input.membership && p.terms == e.input.terms && p.batch == e.batch
    && p.enteredBy == who.userId && p.enteredAt == now && p.kind == Original && p.corrects == 0
    && p.receipt == ReceiptCode(e.batch, e.sequence)
  }

  /** The decision is the entry's: its member, its date, because of that payment. */
  predicate Grants(v: CoverageEvent, e: Entry, payment: Id, who: Principal, now: Time) {
    && v.membership == e.input.membership && v.paidThrough == e.input.paidThrough && v.payment == payment
    && v.why == "payment" && v.officer == who.userId && v.at == now
  }

  /** The books gained one payment and one decision per entry, in the order of the entries. */
  ghost predicate Paid(b: Books, t: Books, rows: seq<Entry>, who: Principal, now: Time) {
    && |t.payments| == |b.payments| + |rows| && b.payments <= t.payments
    && |t.coverage| == |b.coverage| + |rows| && b.coverage <= t.coverage
    && (forall k | 0 <= k < |rows| :: Pays(t.payments[|b.payments| + k], rows[k], who, now))
    && (forall k | 0 <= k < |rows| :: Grants(t.coverage[|b.coverage| + k], rows[k], |b.payments| + k + 1, who, now))
  }

  lemma {:induction false} RowsPaid(b: Books, rows: seq<Entry>, who: Principal, now: Time)
    ensures Paid(b, PostRows(b, rows, who, now), rows, who, now)
    decreases |rows|
  {
    hide Effective, ReceiptCode;
    if rows != [] {
      var n := |rows| - 1;
      RowsPaid(b, rows[..n], who, now);
      var mid, t := PostRows(b, rows[..n], who, now), PostRows(b, rows, who, now);
      forall k | 0 <= k < |rows|
        ensures Pays(t.payments[|b.payments| + k], rows[k], who, now)
        ensures Grants(t.coverage[|b.coverage| + k], rows[k], |b.payments| + k + 1, who, now)
      {
        if k < n {
          assert rows[..n][k] == rows[k];
          assert Pays(mid.payments[|b.payments| + k], rows[..n][k], who, now);
          assert Grants(mid.coverage[|b.coverage| + k], rows[..n][k], |b.payments| + k + 1, who, now);
        }
      }
    }
  }

  /** What an accepted post writes, entry by entry, and the batch row it leaves. */
  lemma PostedRows(b: Books, who: Principal, batch: Id, ids: seq<Id>, expected: nat, now: Time)
    requires Listing(b.entries, batch, ids) && PostBatch(b, who, batch, ids, expected, now).answer.Done?
    ensures var t := PostBatch(b, who, batch, ids, expected, now).books;
            Paid(b, t, Rows(b.entries, ids), who, now) && (forall k | 0 <= k < |ids| :: b.entries[ids[k]].batch == batch) &&
            batch in b.batches && b.batches[batch].state == Open && b.batches[batch].version == expected &&
            t.batches == b.batches[batch := b.batches[batch].(state := Posted, closedBy := who.userId,
                                                              closedAt := Some(now), reason := "",
                                                              version := expected + 1)] &&
            t.entries == b.entries && t.corrections == b.corrections
  {
    hide PostRows, FirstProblem, Paid;
    var rows := Rows(b.entries, ids);
    RowsPaid(b, rows, who, now);
    PostRowsShape(b, rows, who, now);
    var t, posted := PostBatch(b, who, batch, ids, expected, now).books, PostRows(b, rows, who, now);
    assert t.payments == posted.payments && t.coverage == posted.coverage;
    PaidAlike(b, posted, t, rows, who, now);
    forall k | 0 <= k < |ids| ensures b.entries[ids[k]].batch == batch { assert ids[k] in ids; }
  }

  lemma PaidAlike(b: Books, s: Books, t: Books, rows: seq<Entry>, who: Principal, now: Time)
    requires Paid(b, s, rows, who, now) && s.payments == t.payments && s.coverage == t.coverage
    ensures Paid(b, t, rows, who, now)
  {
  }

  /** A single payment is a batch of one, posted at once: for that member, of those terms and that date. */
  lemma SingleRow(b: Books, who: Principal, input: EntryInput, caption: string, key: string, confirm: bool, now: Time)
    requires Inv(b) && PostSingle(b, who, input, caption, key, confirm, now).books != b
    ensures var t, n := PostSingle(b, who, input, caption, key, confirm, now).books, |b.payments|;
            |t.payments| == n + 1 && b.payments <= t.payments && |t.coverage| == |b.coverage| + 1 &&
            Pays(t.payments[n], Entry(b.nextBatch, 1, input, 1), who, now) &&
            Grants(t.coverage[|b.coverage|], Entry(b.nextBatch, 1, input, 1), n + 1, who, now) &&
            t.batches.Keys == b.batches.Keys + {b.nextBatch} &&
            t.batches[b.nextBatch] == Batch(caption, input.terms.amount, input.paidThrough, Posted, who.userId, now,
                                            who.userId, Some(now), "", 2)
  {
    hide Inv, Problem, TrimSpace, Listing, PostBatch, Paid, Pays, Grants;
    SingleOpens(b, who, input, caption, now);
    var s, ids := WithSingle(b, who, input, caption, now), [NextEntryId(b.entries)];
    PostedRows(s, who, b.nextBatch, ids, 1, now);
    var t := PostBatch(s, who, b.nextBatch, ids, 1, now).books;
    var rows := Rows(s.entries, ids);
    assert rows[0] == Entry(b.nextBatch, 1, input, 1);
    PaidFirst(s, t, rows, who, now);
  }

  lemma PaidFirst(b: Books, t: Books, rows: seq<Entry>, who: Principal, now: Time)
    requires Paid(b, t, rows, who, now) && |rows| == 1
    ensures |t.payments| == |b.payments| + 1 && b.payments <= t.payments && |t.coverage| == |b.coverage| + 1
    ensures Pays(t.payments[|b.payments|], rows[0], who, now)
    ensures Grants(t.coverage[|b.coverage|], rows[0], |b.payments| + 1, who, now)
  {
    assert Pays(t.payments[|b.payments| + 0], rows[0], who, now);
    assert Grants(t.coverage[|b.coverage| + 0], rows[0], |b.payments| + 0 + 1, who, now);
  }

  /** After a post the date in force for a member is that of the member's last row in the batch. */
  lemma {:induction false} LastRowDecides(b: Books, rows: seq<Entry>, who: Principal, now: Time, k: nat)
    requires CoverageOk(b.coverage) && k < |rows|
    requires forall l | k < l < |rows| :: rows[l].input.membership != rows[k].input.membership
    ensures var t := PostRows(b, rows, who, now);
            CoverageOk(t.coverage) && DateInForce(t.coverage, rows[k].input.membership) == rows[k].input.paidThrough
    decreases |rows|
  {
    hide Newest, ReceiptCode, CoverageOk, DateInForce, Decided;
    var n := |rows| - 1;
    var mid, e := PostRows(b, rows[..n], who, now), rows[n];
    assert CoverageOk(mid.coverage) by { RowsKeepCoverage(b, rows[..n], who, now); }
    DecidedDate(mid.coverage, e.input.membership, e.input.paidThrough, |mid.payments| + 1, who.userId, now,
                rows[k].input.membership);
    if k < n {
      assert rows[..n][k] == rows[k];
      LastRowDecides(b, rows[..n], who, now, k);
    }
  }

  lemma DecidedDate(coverage: seq<CoverageEvent>, m: Id, paidThrough: string, payment: Id, officer: Id, at: Time, other: Id)
    requires CoverageOk(coverage)
    ensures var after := Decided(coverage, m, paidThrough, "payment", payment, officer, at);
            CoverageOk(after) && DateInForce(after, other) == if other == m then paidThrough else DateInForce(coverage, other)
  {
    hide Newest, CoverageOk;
    DecidedKeeps(coverage, m, paidThrough, "payment", payment, officer, at);
  }

  lemma {:induction false} RowsKeepCoverage(b: Books, rows: seq<Entry>, who: Principal, now: Time)
    requires CoverageOk(b.coverage)
    ensures CoverageOk(PostRows(b, rows, who, now).coverage)
    decreases |rows|
  {
    hide CoverageOk, Decided, ReceiptCode;
    if rows != [] {
      var n := |rows| - 1;
      var mid, e := PostRows(b, rows[..n], who, now), rows[n];
      RowsKeepCoverage(b, rows[..n], who, now);
      DecidedKeeps(mid.coverage, e.input.membership, e.input.paidThrough, "payment", |mid.payments| + 1, who.userId, now);
    }
  }

  // ---- Corrected rows ----------------------------------------------------

  /** What an accepted correction writes: the payment in force taken back whole, the payment restated for the same
      member in the same batch, and why; the coverage decision, if there is one, is that member's. */
  lemma CorrectionRows(b: Books, who: Principal, payment: Id, params: CorrectParams, expected: nat, key: string,
                       confirm: bool, now: Time)
    requires Correct(b, who, payment, params, expected, key, confirm, now).books != b
    ensures 1 <= payment <= |b.payments|
    ensures var t := Correct(b, who, payment, params, expected, key, confirm, now).books;
            var p, n := b.payments[payment - 1], |b.payments|;
            |t.payments| == n + 2 && b.payments <= t.payments && p.kind != Reversal &&
            t.payments[n] == Payment(p.membership, p.batch, p.terms.(amount := -p.terms.amount), who.userId, now,
                                     p.receipt + "-R" + FormatNat(expected + 1), Reversal, payment) &&
            t.payments[n + 1] == Payment(p.membership, p.batch, params.terms, who.userId, now,
                                         p.receipt + "-C" + FormatNat(expected + 1), Replacement, payment) &&
            t.corrections == b.corrections + [Correction(payment, n + 1, n + 2, params.reason, who.userId, now)] &&
            t.batches == b.batches && t.entries == b.entries &&
            (t.coverage == b.coverage ||
             (|t.coverage| == |b.coverage| + 1 && b.coverage <= t.coverage &&
              t.coverage[|b.coverage|].membership == p.membership &&
              t.coverage[|b.coverage|].paidThrough == params.paidThrough && t.coverage[|b.coverage|].payment == n + 2 &&
              t.coverage[|b.coverage|].why == "correction" && t.coverage[|b.coverage|].officer == who.userId &&
              t.coverage[|b.coverage|].at == now))
  {
    hide FormatNat, Root, Steps, InForceFrom, Effective, CorrectProblem, SameCoverage;
  }

  /** A correction decides on coverage unless the last decision its own payment gave rise to names that date
      already, whatever else was decided in between. */
  lemma CoverageIsDecided(b: Books, who: Principal, payment: Id, params: CorrectParams, expected: nat, key: string,
                          confirm: bool, now: Time)
    requires Correct(b, who, payment, params, expected, key, confirm, now).books != b
    ensures Correct(b, who, payment, params, expected, key, confirm, now).books.coverage == b.coverage <==>
              exists k | 0 <= k < |b.coverage| ::
                b.coverage[k].payment == payment && b.coverage[k].paidThrough == params.paidThrough &&
                forall l | k < l < |b.coverage| :: b.coverage[l].payment != payment
  {
    hide FormatNat, Root, Steps, InForceFrom, Effective, CorrectProblem, CoverageOf;
    LastOfPayment(b.coverage, payment);
  }

  lemma {:induction false} LastOfPayment(coverage: seq<CoverageEvent>, payment: Id)
    ensures forall l | CoverageOf(coverage, payment) <= l < |coverage| :: coverage[l].payment != payment
  {
    if coverage != [] && coverage[|coverage| - 1].payment != payment {
      LastOfPayment(coverage[..|coverage| - 1], payment);
      assert forall l | 0 <= l < |coverage| - 1 :: coverage[..|coverage| - 1][l] == coverage[l];
    }
  }

  /** An adjustment is accepted for a known member and a day; it is in force for that member from then on, and every
      other member's date stays. */
  lemma AdjustmentDecides(b: Books, m: Id, paidThrough: string, why: string, officer: Id, now: Time)
    requires CoverageOk(b.coverage)
    ensures var o := Decide(b, m, paidThrough, why, officer, now);
            (o.answer.Done? <==> m in b.memberships && IsoDate(paidThrough)) &&
            (o.answer.Refused? ==> o.books == b) &&
            (o.answer.Done? ==>
               |o.books.coverage| == |b.coverage| + 1 && b.coverage <= o.books.coverage &&
               o.books == b.(coverage := o.books.coverage) && CoverageOk(o.books.coverage) &&
               DateInForce(o.books.coverage, m) == paidThrough &&
               forall other | other != m :: DateInForce(o.books.coverage, other) == DateInForce(b.coverage, other))
  {
    hide IsoDate, Newest, CoverageOk;
    DecidedKeeps(b.coverage, m, paidThrough, why, 0, officer, now);
  }

  // ---- Draft rows and batches ---------------------------------------------

  /** What an accepted change of a draft writes: the input it was given, in its place, with the next version; and
      the batch's version moves by one. */
  lemma DraftRows(b: Books, who: Principal, batch: Id, entry: Id, input: EntryInput, expected: nat, key: string)
    ensures var o := AddEntry(b, who, batch, input, key);
            o.books != b ==>
              o.answer.Done? && o.answer.id !in b.entries && batch in b.batches &&
              (exists s: nat :: o.books.entries == b.entries[o.answer.id := Entry(batch, s, input, 1)]) &&
              o.books.batches == b.batches[batch := b.batches[batch].(version := b.batches[batch].version + 1)]
    ensures var o := UpdateEntry(b, who, batch, entry, input, expected);
            o.books != b ==>
              entry in b.entries && b.entries[entry].batch == batch && batch in b.batches &&
              b.entries[entry].version == expected &&
              o.books.entries == b.entries[entry := Entry(batch, b.entries[entry].sequence, input, expected + 1)] &&
              o.books.batches == b.batches[batch := b.batches[batch].(version := b.batches[batch].version + 1)]
    ensures var o := DeleteEntry(b, who, batch, entry, expected);
            o.books != b ==>
              entry in b.entries && b.entries[entry].batch == batch && batch in b.batches &&
              b.entries[entry].version == expected && o.books.entries == b.entries - {entry} &&
              o.books.batches == b.batches[batch := b.batches[batch].(version := b.batches[batch].version + 1)]
  {
    hide Problem, NextSequence, NextEntryId;
    NewRowIsFree(b.entries, batch);
    var o := AddEntry(b, who, batch, input, key);
    if o.books != b {
      assert o.books.entries == b.entries[o.answer.id := Entry(batch, NextSequence(b.entries, batch), input, 1)];
    }
  }

  /** The sequence of a new row is one more than the greatest of its batch, or one. */
  lemma NewSequence(b: Books, who: Principal, batch: Id, input: EntryInput, key: string, s: nat)
    requires AddEntry(b, who, batch, input, key).books != b
    ensures var o := AddEntry(b, who, batch, input, key);
            o.answer.Done? && o.answer.id in o.books.entries &&
            var n := o.books.entries[o.answer.id].sequence;
            n >= 1 && (n > 1 ==> exists i | i in b.entries :: b.entries[i].batch == batch && b.entries[i].sequence == n - 1) &&
            forall i | i in b.entries && b.entries[i].batch == batch :: b.entries[i].sequence < n
  {
    hide Problem, NextEntryId;
    NewRowIsFree(b.entries, batch);
    var n := NextSequence(b.entries, batch);
    if n > 1 {
      assert n - 1 in SequencesOf(b.entries, batch);
    }
  }

  /** What an accepted call on a batch row writes. */
  lemma BatchRows(b: Books, who: Principal, batch: Id, caption: string, amount: int, paidThrough: string, reason: string,
                  expected: nat, key: string, now: Time)
    ensures var o := OpenBatch(b, who, caption, amount, paidThrough, key, now);
            o.books != b ==>
              o.answer == Done(b.nextBatch) && o.books.nextBatch == b.nextBatch + 1 &&
              o.books.batches == b.batches[b.nextBatch := Batch(caption, amount, paidThrough, Open, who.userId, now, 0, None,
                                                                "", 1)]
    ensures var o := UpdateBatch(b, who, batch, caption, amount, paidThrough, expected);
            o.books != b ==>
              batch in b.batches && b.batches[batch].state == Open && b.batches[batch].version == expected &&
              var row := b.batches[batch];
              o.books == b.(batches := b.batches[batch := Batch(caption, amount, paidThrough, Open, row.openedBy,
                                                                row.openedAt, row.closedBy, row.closedAt, row.reason,
                                                                expected + 1)])
    ensures var o := Abandon(b, who, batch, reason, expected, now);
            o.books != b ==>
              batch in b.batches && b.batches[batch].state == Open && b.batches[batch].version == expected &&
              TrimSpace(reason) != "" &&
              var row := b.batches[batch];
              o.books == b.(batches := b.batches[batch := Batch(row.caption, row.defaultAmount, row.defaultPaidThrough,
                                                                Abandoned, row.openedBy, row.openedAt, who.userId,
                                                                Some(now), reason, expected + 1)])
  {
    hide BatchProblem, TrimSpace;
  }

  // ---- Who may, and what is accepted ---------------------------------------

  predicate Drafts(c: Call) {
    c.OpenCall? || c.BatchCall? || c.AbandonCall? || c.AddCall? || c.UpdateCall? || c.DeleteCall?
  }

  /** Without the capability nothing is written; it is one for drafts and batches, one for posting and one for
      correcting. */
  lemma NeedsCapability(b: Books, who: Principal, c: Call)
    requires Inv(b) && !c.DecideCall? && c.who == who
    ensures Drafts(c) && "payment.batch.manage" !in who.caps ==> Step(b, c) == b
    ensures (c.PostCall? || c.SingleCall?) && ("payment.post" !in who.caps || !c.confirm || c.key == "") ==> Step(b, c) == b
    ensures c.CorrectCall? && ("payment.correct" !in who.caps || !c.confirm || c.key == "") ==> Step(b, c) == b
  {
    hide Inv, Problem, BatchProblem, Listing, PostBatch, Corrected, CorrectProblem, Root, Steps, InForceFrom, TrimSpace,
      NextEntryId, NextSequence, WithSingle;
  }

  /** A date as it is printed: four, two and two digits. */
  function DateText(y: nat, m: nat, d: nat): string { Pad(y, 4) + "-" + Pad(m, 2) + "-" + Pad(d, 2) }

  /** The dates that are accepted are the printed days of the calendar. */
  lemma IsoDateMeans(s: string)
    ensures IsoDate(s) <==> exists y: nat, m: nat, d: nat :: y < 10000 && 1 <= m <= 12 && 1 <= d <= DaysIn(y, m) &&
                              s == DateText(y, m, d)
  {
    hide Pad, DigitsValue, IsLeap;
    if IsoDate(s) {
      var y, m, d := DigitsValue(s[..4]), DigitsValue(s[5..7]), DigitsValue(s[8..]);
      PadOfDigits(s[..4]);
      PadOfDigits(s[5..7]);
      PadOfDigits(s[8..]);
      MonthLengths(y, m);
      assert s == s[..4] + "-" + s[5..7] + "-" + s[8..];
      assert s == DateText(y, m, d);
    }
    forall y: nat, m: nat, d: nat | y < 10000 && 1 <= m <= 12 && 1 <= d <= DaysIn(y, m) && s == DateText(y, m, d)
      ensures IsoDate(s)
    {
      DateTextIs(y, m, d);
      MonthLengths(y, m);
    }
  }

  /** Thirty days hath September, April, June and November. */
  function DaysIn(y: nat, m: nat): nat {
    if m == 2 then (if (y % 4 == 0 && y % 100 != 0) || y % 400 == 0 then 29 else 28)
    else if m in {4, 6, 9, 11} then 30 else 31
  }

  lemma MonthLengths(y: nat, m: nat)
    requires 1 <= m <= 12
    ensures DaysIn(y, m) == DaysBeforeMonth(m + 1, IsLeap(y)) - DaysBeforeMonth(m, IsLeap(y))
  {
    LeapYears(y);
    hide IsLeap;
    MonthLength(m, IsLeap(y));
  }

  lemma LeapYears(y: nat)
    ensures IsLeap(y) <==> (y % 4 == 0 && y % 100 != 0) || y % 400 == 0
  {
    assert y % 400 == 0 ==> y % 4 == 0;
  }

  lemma MonthLength(m: nat, leap: bool)
    requires 1 <= m <= 12
    ensures DaysBeforeMonth(m + 1, leap) - DaysBeforeMonth(m, leap) ==
            if m == 2 then (if leap then 29 else 28) else if m in {4, 6, 9, 11} then 30 else 31
  {
  }

  lemma DateTextIs(y: nat, m: nat, d: nat)
    requires y < 10000 && m < 100 && d < 100
    ensures var s := DateText(y, m, d);
            |s| == 10 && s[4] == '-' && s[7] == '-' && AllDigits(s[..4]) && AllDigits(s[5..7]) && AllDigits(s[8..]) &&
            DigitsValue(s[..4]) == y && DigitsValue(s[5..7]) == m && DigitsValue(s[8..]) == d
  {
    hide Pad, DigitsValue;
    assert Pow10(2) == 100 && Pow10(4) == 10000;
    PadDigits(y, 4);
    PadDigits(m, 2);
    PadDigits(d, 2);
    var s := DateText(y, m, d);
    assert s[..4] == Pad(y, 4) && s[5..7] == Pad(m, 2) && s[8..] == Pad(d, 2);
  }

  /** The terms of every payment that is posted or restated: a positive amount, one of three means, a day. */
  predicate Sound(t: Terms, paidThrough: string) {
    t.amount > 0 && t.means in {"cash", "check", "other"} && IsoDate(t.receivedOn) && IsoDate(paidThrough)
  }

  /** Rows are sound when they are written, and members are known. */
  lemma OnlySoundRows(b: Books, who: Principal, batch: Id, entry: Id, input: EntryInput, expected: nat, key: string,
                      payment: Id, params: CorrectParams, confirm: bool, now: Time)
    ensures AddEntry(b, who, batch, input, key).books != b ==>
              Sound(input.terms, input.paidThrough) && input.membership in b.memberships
    ensures UpdateEntry(b, who, batch, entry, input, expected).books != b ==>
              Sound(input.terms, input.paidThrough) && input.membership in b.memberships
    ensures Correct(b, who, payment, params, expected, key, confirm, now).books != b ==>
              Sound(params.terms, params.paidThrough) && TrimSpace(params.reason) != ""
  {
    hide IsoDate, TrimSpace, NextEntryId, NextSequence, Root, Steps, InForceFrom, Corrected;
  }

  /** A call on a draft row is accepted exactly when the officer may, the batch is open, and the row is sound, is of
      that batch and is at the version named; a refused call writes nothing. */
  lemma DraftsAccepted(b: Books, who: Principal, batch: Id, entry: Id, input: EntryInput, expected: nat)
    ensures var may := "payment.batch.manage" in who.caps && batch in b.batches && b.batches[batch].state == Open;
            var held := entry in b.entries && b.entries[entry].batch == batch && b.entries[entry].version == expected;
            var good := Sound(input.terms, input.paidThrough) && input.membership in b.memberships;
            (AddEntry(b, who, batch, input, "").answer.Done? <==> may && good) &&
            (UpdateEntry(b, who, batch, entry, input, expected).answer.Done? <==> may && good && held) &&
            (DeleteEntry(b, who, batch, entry, expected).answer.Done? <==> may && held)
    ensures AddEntry(b, who, batch, input, "").answer.Refused? ==> AddEntry(b, who, batch, input, "").books == b
    ensures UpdateEntry(b, who, batch, entry, input, expected).answer.Refused? ==>
              UpdateEntry(b, who, batch, entry, input, expected).books == b
    ensures DeleteEntry(b, who, batch, entry, expected).answer.Refused? ==>
              DeleteEntry(b, who, batch, entry, expected).books == b
  {
    hide IsoDate, NextEntryId, NextSequence;
  }

  /** A batch is opened or renamed exactly when its caption is not blank, its amount not negative and its date a day
      or left out; it is abandoned exactly with a reason. */
  lemma BatchesAccepted(b: Books, who: Principal, batch: Id, caption: string, amount: int, paidThrough: string,
                        reason: string, expected: nat, now: Time)
    ensures var may := "payment.batch.manage" in who.caps;
            var held := batch in b.batches && b.batches[batch].state == Open && b.batches[batch].version == expected;
            var good := TrimSpace(caption) != "" && amount >= 0 && (paidThrough == "" || IsoDate(paidThrough));
            (OpenBatch(b, who, caption, amount, paidThrough, "", now).answer.Done? <==> may && good) &&
            (UpdateBatch(b, who, batch, caption, amount, paidThrough, expected).answer.Done? <==> may && good && held) &&
            (Abandon(b, who, batch, reason, expected, now).answer.Done? <==> may && TrimSpace(reason) != "" && held)
  {
    hide IsoDate, TrimSpace;
  }

  ghost predicate SoundRow(b: Books, e: Entry) {
    Sound(e.input.terms, e.input.paidThrough) && e.input.membership in b.memberships
  }

  lemma {:induction false} SoundRows(b: Books, rows: seq<Entry>)
    ensures FirstProblem(b, rows) == None <==> forall k | 0 <= k < |rows| :: SoundRow(b, rows[k])
  {
    hide IsoDate;
    if rows != [] {
      SoundRows(b, rows[1..]);
      assert RowProblem(b, rows[0]) == None <==> SoundRow(b, rows[0]);
      if FirstProblem(b, rows) == None {
        forall k | 0 <= k < |rows| ensures SoundRow(b, rows[k]) {
          if k > 0 { assert rows[1..][k - 1] == rows[k]; }
        }
      }
    }
  }

  /** Under a key that is not yet used a batch is posted exactly when the officer may and confirms, the batch is open
      at the version named, and it has rows and each of them is sound. */
  lemma PostedExactly(b: Books, who: Principal, batch: Id, ids: seq<Id>, expected: nat, key: string, confirm: bool, now: Time)
    requires Listing(b.entries, batch, ids) && ClaimKey(who.userId, "payment-batch-post", key) !in b.claims
    ensures Post(b, who, batch, ids, expected, key, confirm, now).answer.Done? <==>
              "payment.post" in who.caps && confirm && key != "" && batch in b.batches && b.batches[batch].state == Open &&
              b.batches[batch].version == expected && ids != [] &&
              forall k | 0 <= k < |ids| :: SoundRow(b, b.entries[ids[k]])
  {
    hide IsoDate, FirstProblem, PostRows, SoundRow;
    var rows := Rows(b.entries, ids);
    SoundRows(b, rows);
    assert forall k | 0 <= k < |ids| :: rows[k] == b.entries[ids[k]];
  }

  /** A single payment is accepted exactly when its batch of one could be opened and posted. */
  lemma SingleExactly(b: Books, who: Principal, input: EntryInput, caption: string, key: string, confirm: bool, now: Time)
    requires Inv(b) && ClaimKey(who.userId, "payment-single-post", key) !in b.claims
    ensures PostSingle(b, who, input, caption, key, confirm, now).answer.Done? <==>
              "payment.post" in who.caps && confirm && key != "" && TrimSpace(caption) != "" &&
              Sound(input.terms, input.paidThrough) && input.membership in b.memberships
  {
    hide Inv, IsoDate, TrimSpace, Listing, FirstProblem, PostRows, SoundRow, NextEntryId;
    if Sound(input.terms, input.paidThrough) && input.membership in b.memberships {
      SingleOpens(b, who, input, caption, now);
      var s, ids := WithSingle(b, who, input, caption, now), [NextEntryId(b.entries)];
      var rows := Rows(s.entries, ids);
      SoundRows(s, rows);
      assert SoundRow(s, rows[0]) by { SingleIsSound(b, s, input); }
    }
  }

  lemma SingleIsSound(b: Books, s: Books, input: EntryInput)
    requires Sound(input.terms, input.paidThrough) && input.membership in b.memberships && s.memberships == b.memberships
    ensures SoundRow(s, Entry(b.nextBatch, 1, input, 1))
  {
  }

  /** Under a key that is not yet used a correction is accepted exactly when the officer may and confirms, it is sound
      and says why, its payment is no reversal and nothing has corrected it, and the chain is at the revision named. */
  lemma CorrectedExactly(b: Books, who: Principal, payment: Id, params: CorrectParams, expected: nat, key: string,
                         confirm: bool, now: Time)
    requires Inv(b) && ClaimKey(who.userId, "payment-correct", key) !in b.claims
    ensures Correct(b, who, payment, params, expected, key, confirm, now).answer.Done? <==>
              "payment.correct" in who.caps && confirm && key != "" && TrimSpace(params.reason) != "" &&
              Sound(params.terms, params.paidThrough) && 1 <= payment <= |b.payments| &&
              b.payments[payment - 1].kind != Reversal && (forall c | c in b.corrections :: c.original != payment) &&
              |Family(b.payments, Root(b.payments, payment))| == 2 * expected + 1
  {
    hide IsoDate, TrimSpace, Root, Steps, InForceFrom, Corrected, Family, DraftsOk, ChainsOk, CorrectionOf;
    if 1 <= payment <= |b.payments| {
      InItsChain(b, payment);
      var root := Root(b.payments, payment);
      ChainAtRevision(b, root);
      assert payment in Family(b.payments, root) by { FamilyHas(b.payments, payment); }
    }
  }

  lemma FamilyHas(payments: seq<Payment>, id: Id)
    requires 1 <= id <= |payments|
    ensures id in Family(payments, Root(payments, id))
  {
  }

  // ---- Keys used for something else ---------------------------------------

  ghost predicate UsedOtherwise(b: Books, who: Principal, operation: string, key: string, deed: Deed) {
    key != "" && ClaimKey(who.userId, operation, key) in b.claims &&
    b.claims[ClaimKey(who.userId, operation, key)].deed != deed
  }

  /** A key that was used for something else by the same officer is refused, and nothing is written. */
  lemma KeyIsForOneThing(b: Books, who: Principal, batch: Id, ids: seq<Id>, input: EntryInput, caption: string,
                         payment: Id, params: CorrectParams, expected: nat, key: string, now: Time)
    requires Inv(b) && Listing(b.entries, batch, ids)
    ensures UsedOtherwise(b, who, "payment-batch-post", key, PostDeed(batch, expected)) && "payment.post" in who.caps ==>
              Post(b, who, batch, ids, expected, key, true, now) == Outcome(b, Refused(KeyReused))
    ensures UsedOtherwise(b, who, "payment-single-post", key, SingleDeed(input, caption)) ==>
              PostSingle(b, who, input, caption, key, true, now).books == b
    ensures UsedOtherwise(b, who, "payment-correct", key, CorrectDeed(payment, params)) ==>
              Correct(b, who, payment, params, expected, key, true, now).books == b
    ensures UsedOtherwise(b, who, "payment-batch-entry-create", key, EntryDeed(batch, input)) ==>
              AddEntry(b, who, batch, input, key).books == b
    ensures UsedOtherwise(b, who, "payment-batch-create", key, OpenDeed(caption, input.terms.amount, input.paidThrough)) ==>
              OpenBatch(b, who, caption, input.terms.amount, input.paidThrough, key, now).books == b
  {
    hide Inv, Problem, BatchProblem, PostBatch, Corrected, CorrectProblem, Root, Steps, InForceFrom, TrimSpace,
      NextEntryId, NextSequence, WithSingle, Listing;
  }

  // ---- Totals ------------------------------------------------------------

  /** The net total of a batch is the sum of its amounts, a method's total the sum of those paid that way. */
  lemma TotalsAdd(payments: seq<Payment>, p: Payment, batch: Id, means: string)
    ensures LedgerTotal([], batch, None) == 0 == LedgerTotal([], batch, Some(means)) && LedgerCount([], batch) == 0
    ensures LedgerTotal(payments + [p], batch, None) ==
            LedgerTotal(payments, batch, None) + (if p.batch == batch then p.terms.amount else 0)
    ensures LedgerTotal(payments + [p], batch, Some(means)) ==
            LedgerTotal(payments, batch, Some(means)) +
            (if p.batch == batch && p.terms.means == means then p.terms.amount else 0)
    ensures LedgerCount(payments + [p], batch) == LedgerCount(payments, batch) + (if p.batch == batch then 1 else 0)
  {
    LedgerAppend(payments, p, batch, None);
    LedgerAppend(payments, p, batch, Some(means));
  }

  /** So the net total is what was paid in cash, by check and otherwise. */
  lemma {:induction false} NetIsSumOfMethods(payments: seq<Payment>, batch: Id)
    requires forall p | p in payments :: p.terms.means in {"cash", "check", "other"}
    ensures LedgerTotal(payments, batch, None) ==
            LedgerTotal(payments, batch, Some("cash")) + LedgerTotal(payments, batch, Some("check")) +
            LedgerTotal(payments, batch, Some("other"))
  {
    if payments != [] {
      var n := |payments| - 1;
      assert payments[n] in payments && forall p | p in payments[..n] :: p in payments;
      NetIsSumOfMethods(payments[..n], batch);
    }
  }
}

/** Receipt codes: no two payments ever carry the same one, so the unique index on them never refuses
    a post or a correction. */
module Receipts {
  import opened Text
  import opened Timestamps
  import opened Ledger
  import opened LedgerChains
  import opened LedgerRuns

  // ---- The codes ---------------------------------------------------------

  lemma {:induction false} ShortIsSmall(n: nat, w: nat)
    requires |FormatNat(n)| <= w
    ensures n < Pow10(w)
    decreases w
  {
    if n >= 10 {
      ShortIsSmall(n / 10, w - 1);
    }
  }

  lemma ZeroPadValue(n: nat, w: nat)
    ensures DigitsValue(ZeroPad(n, w)) == n
  {
    if |FormatNat(n)| < w {
      ShortIsSmall(n, w);
      PadDigits(n, w);
    }
  }

  lemma NoDash(s: string)
    requires AllDigits(s)
    ensures '-' !in s
  {
  }

  /** Text cut at its last dash. */
  lemma LastDash(a: string, x: string, b: string, y: string)
    requires a + "-" + x == b + "-" + y && '-' !in x && '-' !in y
    ensures a == b && x == y
  {
    var s, t := a + "-" + x, b + "-" + y;
    assert s[|a|] == '-' && t[|b|] == '-';
    assert s[|a| + 1..] == x && t[|b| + 1..] == y && s[..|a|] == a && t[..|b|] == b;
    assert forall k | |a| < k < |s| :: s[k] == x[k - |a| - 1];
    assert forall k | |b| < k < |t| :: t[k] == y[k - |b| - 1];
    assert |a| == |b|;
  }

  /** A code names one batch and one sequence. */
  lemma CodeIsUnique(b: Id, s: nat, c: Id, t: nat)
    requires ReceiptCode(b, s) == ReceiptCode(c, t)
    ensures b == c && s == t
  {
    hide ZeroPad;
    NoDash(ZeroPad(s, 3));
    NoDash(ZeroPad(t, 3));
    LastDash("RCPT-" + ZeroPad(b, 6), ZeroPad(s, 3), "RCPT-" + ZeroPad(c, 6), ZeroPad(t, 3));
    var x, y := "RCPT-" + ZeroPad(b, 6), "RCPT-" + ZeroPad(c, 6);
    assert x[5..] == ZeroPad(b, 6) && y[5..] == ZeroPad(c, 6);
    ZeroPadValue(b, 6);
    ZeroPadValue(c, 6);
    ZeroPadValue(s, 3);
    ZeroPadValue(t, 3);
  }

  function Suffix(kind: Kind, revision: nat): string { (if kind == Reversal then "R" else "C") + FormatNat(revision) }

  lemma SuffixShape(kind: Kind, revision: nat)
    ensures '-' !in Suffix(kind, revision) && Suffix(kind, revision)[0] == (if kind == Reversal then 'R' else 'C')
  {
    NoDash(FormatNat(revision));
  }

  // ---- The codes of a ledger ---------------------------------------------

  predicate FirstCode(p: Payment, sequence: nat) { p.receipt == ReceiptCode(p.batch, sequence) }

  predicate LaterCode(payments: seq<Payment>, id: Id, revision: nat)
    requires 1 <= id <= |payments| && 1 <= payments[id - 1].corrects <= |payments|
  {
    var p := payments[id - 1];
    p.receipt == payments[p.corrects - 1].receipt + "-" + Suffix(p.kind, revision)
  }

  /** How the code of a payment came about. */
  ghost predicate Coded(payments: seq<Payment>, id: Id)
    requires 1 <= id <= |payments|
  {
    var p := payments[id - 1];
    if p.corrects == 0 then exists s: nat :: FirstCode(p, s)
    else p.corrects < id && exists r: nat :: LaterCode(payments, id, r)
  }

  ghost predicate AllCoded(payments: seq<Payment>) { forall id: Id | 1 <= id <= |payments| :: Coded(payments, id) }

  predicate SameCode(payments: seq<Payment>, i: Id, j: Id)
    requires 1 <= i <= |payments| && 1 <= j <= |payments|
  {
    payments[i - 1].receipt == payments[j - 1].receipt
  }

  ghost predicate OriginalsDiffer(payments: seq<Payment>) {
    forall i: Id, j: Id | 1 <= i <= |payments| && 1 <= j <= |payments| && SameCode(payments, i, j) &&
      payments[i - 1].corrects == 0 && payments[j - 1].corrects == 0 :: i == j
  }

  ghost predicate CodesOk(payments: seq<Payment>) { AllCoded(payments) && OriginalsDiffer(payments) }

  predicate Corrects(payments: seq<Payment>, id: Id) {
    1 <= id <= |payments| && 1 <= payments[id - 1].corrects <= |payments|
  }

  lemma NoCodes()
    ensures CodesOk([])
  {
  }

  /** The first code of a payment does not end the way a correction's does. */
  lemma FirstIsNotLater(p: Payment, s: nat, payments: seq<Payment>, id: Id, r: nat)
    requires FirstCode(p, s) && Corrects(payments, id) && LaterCode(payments, id, r)
    ensures p.receipt != payments[id - 1].receipt
  {
    hide ZeroPad, Suffix;
    var q := payments[id - 1];
    assert IsDigit(ZeroPad(s, 3)[0]);
    NoDash(ZeroPad(s, 3));
    SuffixShape(q.kind, r);
    if p.receipt == q.receipt {
      LastDash("RCPT-" + ZeroPad(p.batch, 6), ZeroPad(s, 3), payments[q.corrects - 1].receipt, Suffix(q.kind, r));
    }
  }

  /** Two corrections with one code correct payments with one code, and are of one kind. */
  lemma LaterCodes(payments: seq<Payment>, i: Id, r: nat, j: Id, t: nat)
    requires Corrects(payments, i) && LaterCode(payments, i, r) && Corrects(payments, j) && LaterCode(payments, j, t)
    requires SameCode(payments, i, j)
    ensures SameCode(payments, payments[i - 1].corrects, payments[j - 1].corrects)
    ensures payments[i - 1].kind == Reversal <==> payments[j - 1].kind == Reversal
  {
    hide Suffix;
    var p, q := payments[i - 1], payments[j - 1];
    SuffixShape(p.kind, r);
    SuffixShape(q.kind, t);
    LastDash(payments[p.corrects - 1].receipt, Suffix(p.kind, r), payments[q.corrects - 1].receipt, Suffix(q.kind, t));
  }

  /** What corrects a payment, and of which kind, names a row. */
  lemma OneOfEach(payments: seq<Payment>, corrections: seq<Correction>, i: Id, j: Id)
    requires ChainsOk(payments, corrections) && 1 <= i <= |payments| && 1 <= j <= |payments|
    requires payments[i - 1].corrects == payments[j - 1].corrects != 0
    requires payments[i - 1].kind == Reversal <==> payments[j - 1].kind == Reversal
    ensures i == j
  {
    hide CorrectionOf, OncePerPayment;
    assert Explained(payments, corrections, i) && Explained(payments, corrections, j);
    assert CorrectionOk(payments, corrections[CorrectionOf(corrections, payments[i - 1].corrects) - 1]);
  }

  /** A receipt code names one payment. */
  lemma {:induction false} CodesDiffer(payments: seq<Payment>, corrections: seq<Correction>, i: Id, j: Id)
    requires ChainsOk(payments, corrections) && CodesOk(payments)
    requires 1 <= i <= |payments| && 1 <= j <= |payments| && SameCode(payments, i, j)
    ensures i == j
    decreases i + j
  {
    hide ChainsOk, FirstCode, LaterCode;
    assert Coded(payments, i) && Coded(payments, j);
    var p, q := payments[i - 1], payments[j - 1];
    if p.corrects == 0 && q.corrects == 0 {
    } else if p.corrects == 0 {
      var s: nat :| FirstCode(p, s);
      var r: nat :| LaterCode(payments, j, r);
      FirstIsNotLater(p, s, payments, j, r);
    } else if q.corrects == 0 {
      var s: nat :| FirstCode(q, s);
      var r: nat :| LaterCode(payments, i, r);
      FirstIsNotLater(q, s, payments, i, r);
    } else {
      var r: nat :| LaterCode(payments, i, r);
      var t: nat :| LaterCode(payments, j, t);
      LaterCodes(payments, i, r, j, t);
      CodesDiffer(payments, corrections, p.corrects, q.corrects);
      OneOfEach(payments, corrections, i, j);
    }
  }

  // ---- Every call keeps them ---------------------------------------------

  /** Appending rows that are coded, and whose first codes are new. */
  lemma AppendCoded(before: seq<Payment>, after: seq<Payment>)
    requires CodesOk(before) && before <= after
    requires forall id: Id | |before| < id <= |after| :: Coded(after, id)
    requires forall i: Id, j: Id | 1 <= i <= |after| && |before| < j <= |after| && SameCode(after, i, j) &&
               after[i - 1].corrects == 0 && after[j - 1].corrects == 0 :: i == j
    ensures CodesOk(after)
  {
    hide FirstCode, Suffix;
    forall id: Id | 1 <= id <= |after| ensures Coded(after, id) {
      if id <= |before| {
        assert Coded(before, id);
        if after[id - 1].corrects != 0 {
          var r: nat :| LaterCode(before, id, r);
          assert LaterCode(after, id, r);
        }
      }
    }
    forall i: Id, j: Id | 1 <= i <= |after| && 1 <= j <= |after| && SameCode(after, i, j) &&
      after[i - 1].corrects == 0 && after[j - 1].corrects == 0 ensures i == j {
      if i <= |before| && j <= |before| { assert SameCode(before, i, j); }
      assert SameCode(after, j, i);
    }
  }

  lemma PostCodes(b: Books, who: Principal, batch: Id, ids: seq<Id>, expected: nat, now: Time)
    requires Inv(b) && CodesOk(b.payments) && Listing(b.entries, batch, ids)
    ensures CodesOk(PostBatch(b, who, batch, ids, expected, now).books.payments)
  {
    hide LedgerOk, EntryOk, CodesOk, PostBatch, ReceiptCode, Coded;
    PostBatchEffect(b, who, batch, ids, expected, now);
    var o := PostBatch(b, who, batch, ids, expected, now);
    if o.answer.Done? {
      var rows, n := Rows(b.entries, ids), |b.payments|;
      var after := b.payments + Bills(rows, who, now);
      forall k | 0 <= k < |ids| ensures rows[k].batch == batch { assert ids[k] in ids; }
      assert OpenAt(b, batch) by { PostedWasOpen(b, who, batch, ids, expected, now); }
      NewCodes(b, batch, ids, rows, who, now);
      AppendCoded(b.payments, after);
    } else {
      PostRefused(b, who, batch, ids, expected, now);
    }
  }

  predicate OpenAt(b: Books, batch: Id) { batch in b.batches && b.batches[batch].state == Open }

  lemma PostedWasOpen(b: Books, who: Principal, batch: Id, ids: seq<Id>, expected: nat, now: Time)
    requires Listing(b.entries, batch, ids) && PostBatch(b, who, batch, ids, expected, now).answer.Done?
    ensures OpenAt(b, batch)
  {
    hide PostRows, FirstProblem;
  }

  lemma PostRefused(b: Books, who: Principal, batch: Id, ids: seq<Id>, expected: nat, now: Time)
    requires Listing(b.entries, batch, ids) && PostBatch(b, who, batch, ids, expected, now).answer.Refused?
    ensures PostBatch(b, who, batch, ids, expected, now).books == b
  {
    hide PostRows, FirstProblem;
  }

  lemma NewCodes(b: Books, batch: Id, ids: seq<Id>, rows: seq<Entry>, who: Principal, now: Time)
    requires DraftsOk(b) && CodesOk(b.payments) && OpenAt(b, batch) && Listing(b.entries, batch, ids)
    requires forall i | i in ids :: i in b.entries
    requires rows == Rows(b.entries, ids) && forall k | 0 <= k < |rows| :: rows[k].batch == batch
    ensures var before, after := b.payments, b.payments + Bills(rows, who, now);
            (forall id: Id | |before| < id <= |after| :: Coded(after, id)) &&
            forall i: Id, j: Id | 1 <= i <= |after| && |before| < j <= |after| && SameCode(after, i, j) &&
              after[i - 1].corrects == 0 && after[j - 1].corrects == 0 :: i == j
  {
    hide EntryOk, DistinctSequences, ReceiptCode;
    var n, after := |b.payments|, b.payments + Bills(rows, who, now);
    forall p | p in b.payments ensures p.batch != batch { assert PaidInto(b, p); }
    forall id: Id | n < id <= |after| ensures Coded(after, id) && FirstCode(after[id - 1], rows[id - 1 - n].sequence) {
      assert after[id - 1] == PaymentFor(rows[id - 1 - n], who, now);
      assert FirstCode(after[id - 1], rows[id - 1 - n].sequence);
    }
    forall i: Id, j: Id | 1 <= i <= |after| && n < j <= |after| && SameCode(after, i, j) &&
      after[i - 1].corrects == 0 && after[j - 1].corrects == 0 ensures i == j {
      var t := rows[j - 1 - n].sequence;
      assert FirstCode(after[j - 1], t) && after[j - 1].batch == batch;
      if i <= n {
        assert Coded(b.payments, i);
        var s: nat :| FirstCode(b.payments[i - 1], s);
        CodeIsUnique(b.payments[i - 1].batch, s, batch, t);
      } else {
        CodeIsUnique(batch, rows[i - 1 - n].sequence, batch, t);
      }
    }
  }

  lemma CorrectCodes(b: Books, id: Id, revision: nat, params: CorrectParams, who: Principal, now: Time)
    requires CodesOk(b.payments) && 1 <= id <= |b.payments|
    ensures CodesOk(Corrected(b, id, revision, params, who, now).payments)
  {
    hide Decided, SameCoverage, FormatNat;
    var t, n, p := Corrected(b, id, revision, params, who, now), |b.payments|, b.payments[id - 1];
    assert p.receipt + "-R" + FormatNat(revision) == p.receipt + "-" + ("R" + FormatNat(revision));
    assert p.receipt + "-C" + FormatNat(revision) == p.receipt + "-" + ("C" + FormatNat(revision));
    assert t.payments[id - 1] == p;
    assert LaterCode(t.payments, n + 1, revision) && LaterCode(t.payments, n + 2, revision);
    assert Coded(t.payments, n + 1) && Coded(t.payments, n + 2);
    AppendCoded(b.payments, t.payments);
  }

  lemma StepCodes(b: Books, c: Call)
    requires Inv(b) && CodesOk(b.payments)
    ensures CodesOk(Step(b, c).payments)
  {
    hide Inv, CodesOk, PostBatch, Corrected, CorrectProblem, Problem, BatchProblem, TrimSpace, Listing, NextSequence,
      NextEntryId, Root, Steps, InForceFrom, IsoDate;
    match c {
      case PostCall(who, batch, ids, expected, key, confirm, now) =>
        if Listing(b.entries, batch, ids) { PostCodes(b, who, batch, ids, expected, now); }
      case SingleCall(who, input, caption, key, confirm, now) =>
        if Problem(input.terms, input.paidThrough) == None && input.membership in b.memberships {
          SingleOpens(b, who, input, caption, now);
          PostCodes(WithSingle(b, who, input, caption, now), who, b.nextBatch, [NextEntryId(b.entries)], 1, now);
        }
      case CorrectCall(who, payment, params, expected, key, confirm, now) =>
        if 1 <= payment <= |b.payments| { CorrectCodes(b, payment, expected + 1, params, who, now); }
      case _ =>
    }
  }

  /** In any run no two payments carry the same receipt code. */
  lemma {:induction false} RunCodes(b: Books, calls: seq<Call>)
    requires Inv(b) && CodesOk(b.payments)
    ensures CodesOk(Run(b, calls).payments)
    decreases |calls|
  {
    hide Inv, CodesOk, Step;
    if calls != [] {
      StepKeeps(b, calls[0]);
      StepCodes(b, calls[0]);
      RunCodes(Step(b, calls[0]), calls[1..]);
    }
  }

  lemma ReceiptsNeverRepeat(b: Books, calls: seq<Call>, i: Id, j: Id)
    requires Inv(b) && CodesOk(b.payments)
    requires 1 <= i <= |Run(b, calls).payments| && 1 <= j <= |Run(b, calls).payments|
    ensures SameCode(Run(b, calls).payments, i, j) <==> i == j
  {
    hide DraftsOk, ChainsOk, CodesOk, CoverageOf, Run;
    RunCodes(b, calls);
    var t := Run(b, calls);
    if SameCode(t.payments, i, j) {
      CodesDiffer(t.payments, t.corrections, i, j);
    }
  }

  /** The code as it is printed: six digits for the batch and three for the sequence, or as many as it takes. */
  lemma CodeText(batch: Id, sequence: nat)
    requires batch < 1_000_000 && sequence < 1000
    ensures ReceiptCode(batch, sequence) == "RCPT-" + Pad(batch, 6) + "-" + Pad(sequence, 3)
  {
    hide FormatNat, Pad, DigitsValue;
    assert Pow10(3) == 1000 && Pow10(6) == 1000 * Pow10(3);
    PaddedText(batch, 6);
    PaddedText(sequence, 3);
  }

  lemma PaddedText(n: nat, w: nat)
    requires n < Pow10(w) && w >= 1
    ensures ZeroPad(n, w) == Pad(n, w)
  {
    hide Pad, FormatNat, DigitsValue;
    FormatFits(n, w);
    PadOfDigits(FormatNat(n));
  }

  lemma {:induction false} FormatFits(n: nat, w: nat)
    requires n < Pow10(w) && w >= 1
    ensures |FormatNat(n)| <= w
    decreases w
  {
    if n >= 10 {
      FormatFits(n / 10, w - 1);
    }
  }
}

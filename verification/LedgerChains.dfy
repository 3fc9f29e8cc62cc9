/** Correction chains: every payment belongs to one, one payment of each is in force, and the ledger's
    totals are those of the payments in force. */
module LedgerChains {
  import opened Text
  import opened Ledger

  // ---- The invariant -----------------------------------------------------

  predicate PaymentOk(payments: seq<Payment>, id: Id)
    requires 1 <= id <= |payments|
  {
    var p := payments[id - 1];
    p.corrects < id && (p.kind == Original <==> p.corrects == 0) && (p.kind == Reversal <==> p.terms.amount < 0) &&
    p.terms.amount != 0
  }

  predicate CorrectionOk(payments: seq<Payment>, c: Correction) {
    1 <= c.original < c.reversal && c.replacement == c.reversal + 1 <= |payments| &&
    var p, r, n := payments[c.original - 1], payments[c.reversal - 1], payments[c.replacement - 1];
    p.kind != Reversal && r.kind == Reversal && n.kind == Replacement &&
    r.corrects == c.original && n.corrects == c.original &&
    r.batch == p.batch && n.batch == p.batch && r.membership == p.membership && n.membership == p.membership &&
    r.terms == p.terms.(amount := -p.terms.amount)
  }

  /** A row that corrects another is there because of the correction of that one. */
  predicate Explained(payments: seq<Payment>, corrections: seq<Correction>, id: Id)
    requires 1 <= id <= |payments|
  {
    var corrects := payments[id - 1].corrects;
    corrects != 0 ==>
      var k := CorrectionOf(corrections, corrects);
      k != 0 && (corrections[k - 1].reversal == id || corrections[k - 1].replacement == id)
  }

  ghost predicate PaymentsOk(payments: seq<Payment>) { forall id: Id | 1 <= id <= |payments| :: PaymentOk(payments, id) }

  ghost predicate CorrectionsOk(payments: seq<Payment>, corrections: seq<Correction>) {
    forall k | 0 <= k < |corrections| :: CorrectionOk(payments, corrections[k])
  }

  predicate OncePerPayment(corrections: seq<Correction>) {
    forall j, k | 0 <= j < k < |corrections| :: corrections[j].original != corrections[k].original
  }

  ghost predicate AllExplained(payments: seq<Payment>, corrections: seq<Correction>) {
    forall id: Id | 1 <= id <= |payments| :: Explained(payments, corrections, id)
  }

  ghost predicate ChainsOk(payments: seq<Payment>, corrections: seq<Correction>) {
    PaymentsOk(payments) && CorrectionsOk(payments, corrections) && OncePerPayment(corrections) &&
    AllExplained(payments, corrections)
  }

  predicate InForce(payments: seq<Payment>, corrections: seq<Correction>, id: Id)
    requires 1 <= id <= |payments|
  {
    payments[id - 1].kind != Reversal && CorrectionOf(corrections, id) == 0
  }

  // ---- Totals ------------------------------------------------------------

  /** The sum over the payments in force among the first n. */
  function ForceTotal(payments: seq<Payment>, corrections: seq<Correction>, batch: Id, means: Option<string>, n: nat): int
    requires n <= |payments|
  {
    if n == 0 then 0
    else
      ForceTotal(payments, corrections, batch, means, n - 1) +
      (if payments[n - 1].batch == batch && InForce(payments, corrections, n)
       then Counts(payments[n - 1].terms, means) else 0)
  }

  lemma {:induction false} ForcePrefix(a: seq<Payment>, b: seq<Payment>, corrections: seq<Correction>, batch: Id,
                                       means: Option<string>, n: nat)
    requires n <= |a| && a <= b
    ensures ForceTotal(b, corrections, batch, means, n) == ForceTotal(a, corrections, batch, means, n)
  {
    if n > 0 {
      ForcePrefix(a, b, corrections, batch, means, n - 1);
    }
  }

  lemma CorrectionOfAppend(corrections: seq<Correction>, c: Correction, id: Id)
    ensures CorrectionOf(corrections + [c], id) == if c.original ==
        id then |corrections| + 1 else CorrectionOf(corrections, id)
  {
    assert (corrections + [c])[..|corrections|] == corrections;
  }

  /** Correcting a payment takes its amount out of the sum. */
  lemma {:induction false} ForceWithout(payments: seq<Payment>, corrections: seq<Correction>, c: Correction, batch: Id,
                                        means: Option<string>, n: nat)
    requires n <= |payments| && 1 <= c.original <= |payments| && InForce(payments, corrections, c.original)
    ensures ForceTotal(payments, corrections + [c], batch, means, n) ==
            ForceTotal(payments, corrections, batch, means, n) -
            (if c.original <= n && payments[c.original - 1].batch == batch
             then Counts(payments[c.original - 1].terms, means) else 0)
  {
    if n > 0 {
      CorrectionOfAppend(corrections, c, n);
      ForceWithout(payments, corrections, c, batch, means, n - 1);
    }
  }

  lemma LedgerAppend(payments: seq<Payment>, p: Payment, batch: Id, means: Option<string>)
    ensures LedgerTotal(payments + [p], batch, means) ==
            LedgerTotal(payments, batch, means) + (if p.batch == batch then Counts(p.terms, means) else 0)
    ensures LedgerCount(payments + [p], batch) == LedgerCount(payments, batch) + (if p.batch == batch then 1 else 0)
  {
    assert (payments + [p])[..|payments|] == payments;
  }

  ghost predicate TotalsAgree(payments: seq<Payment>, corrections: seq<Correction>) {
    forall batch, means ::
      LedgerTotal(payments, batch, means) == ForceTotal(payments, corrections, batch, means, |payments|)
  }

  /** Nothing refers to a payment that is not there yet. */
  lemma NoneCorrects(payments: seq<Payment>, corrections: seq<Correction>, id: Id)
    requires ChainsOk(payments, corrections) && id > |payments|
    ensures CorrectionOf(corrections, id) == 0
  {
    forall c | c in corrections ensures c.original != id {
      var k :| 0 <= k < |corrections| && corrections[k] == c;
      assert CorrectionOk(payments, corrections[k]);
    }
  }

  /** Recording an original payment. */
  lemma RecordKeeps(payments: seq<Payment>, corrections: seq<Correction>, p: Payment)
    requires ChainsOk(payments, corrections) && TotalsAgree(payments, corrections)
    requires p.kind == Original && p.corrects == 0 && p.terms.amount > 0
    ensures ChainsOk(payments + [p], corrections) && TotalsAgree(payments + [p], corrections)
  {
    hide CorrectionOf, Counts, ChainsOk;
    var after := payments + [p];
    RecordChains(payments, corrections, p);
    NoneCorrects(payments, corrections, |after|);
    forall batch, means ensures LedgerTotal(after, batch, means) == ForceTotal(after, corrections, batch, means, |after|) {
      LedgerAppend(payments, p, batch, means);
      ForcePrefix(payments, after, corrections, batch, means, |payments|);
    }
  }

  lemma RecordChains(payments: seq<Payment>, corrections: seq<Correction>, p: Payment)
    requires ChainsOk(payments, corrections) && p.kind == Original && p.corrects == 0 && p.terms.amount > 0
    ensures ChainsOk(payments + [p], corrections)
  {
    hide CorrectionOf, OncePerPayment;
    var after := payments + [p];
    forall id: Id | 1 <= id <= |after| ensures PaymentOk(after, id) && Explained(after, corrections, id) {
      if id <= |payments| { assert PaymentOk(payments, id) && Explained(payments, corrections, id); }
    }
    forall k | 0 <= k < |corrections| ensures CorrectionOk(after, corrections[k]) {
      assert CorrectionOk(payments, corrections[k]);
    }
  }

  /** Appending a correction: one payment leaves the sum and one enters it, and the two rows appended
      add the difference to the ledger. */
  lemma CorrectKeeps(b: Books, id: Id, revision: nat, params: CorrectParams, who: Principal, now: Time)
    requires ChainsOk(b.payments, b.corrections) && TotalsAgree(b.payments, b.corrections)
    requires 1 <= id <= |b.payments| && InForce(b.payments, b.corrections, id) && params.terms.amount > 0
    ensures var after := Corrected(b, id, revision, params, who, now);
            ChainsOk(after.payments, after.corrections) && TotalsAgree(after.payments, after.corrections)
  {
    hide Decided, SameCoverage;
    CorrectedChains(b, id, revision, params, who, now);
    CorrectedTotals(b, id, revision, params, who, now);
  }

  lemma CorrectedChains(b: Books, id: Id, revision: nat, params: CorrectParams, who: Principal, now: Time)
    requires ChainsOk(b.payments, b.corrections)
    requires 1 <= id <= |b.payments| && InForce(b.payments, b.corrections, id) && params.terms.amount > 0
    ensures var after := Corrected(b, id, revision, params, who, now);
            ChainsOk(after.payments, after.corrections)
  {
    hide CorrectionOf, ReversalOf, ReplacementOf, PaymentsOk, CorrectionsOk, OncePerPayment, AllExplained, Decided,
        SameCoverage;
    var p, n := b.payments[id - 1], |b.payments|;
    var r, q := ReversalOf(p, id, revision, who, now), ReplacementOf(p, id, params.terms, revision, who, now);
    var c := Correction(id, n + 1, n + 2, params.reason, who.userId, now);
    CorrectedRows(b.payments, id, r, q, revision, params.terms, who, now);
    var payments := b.payments + [r, q];
    assert CorrectionOk(payments, c) by { PairOk(b.payments, id, revision, params.terms, params.reason, who, now); }
    CorrectionsStay(b.payments, b.corrections, payments, c);
    OnceMore(b.corrections, c);
    ExplainedStay(b.payments, b.corrections, payments, c);
  }

  lemma CorrectedRows(payments: seq<Payment>, id: Id, r: Payment, q: Payment, revision: nat, terms: Terms,
      who: Principal, now: Time)
    requires PaymentsOk(payments) && 1 <= id <= |payments| && payments[id - 1].kind != Reversal && terms.amount > 0
    requires r == ReversalOf(payments[id - 1], id, revision, who, now)
    requires q == ReplacementOf(payments[id - 1], id, terms, revision, who, now)
    ensures PaymentsOk(payments + [r, q])
  {
    hide FormatNat;
    assert PaymentOk(payments, id);
    forall i: Id | 1 <= i <= |payments| + 2 ensures PaymentOk(payments + [r, q], i) {
      if i <= |payments| { assert PaymentOk(payments, i); }
    }
  }

  lemma PairOk(payments: seq<Payment>, id: Id, revision: nat, terms: Terms, reason: string, who: Principal, now: Time)
    requires 1 <= id <= |payments| && payments[id - 1].kind != Reversal
    ensures var p, n := payments[id - 1], |payments|;
            CorrectionOk(payments + [ReversalOf(p, id, revision, who, now),
                                     ReplacementOf(p, id, terms, revision, who, now)],
                         Correction(id, n + 1, n + 2, reason, who.userId, now))
  {
    hide FormatNat;
  }

  lemma CorrectionsStay(before: seq<Payment>, corrections: seq<Correction>, after: seq<Payment>, c: Correction)
    requires CorrectionsOk(before, corrections) && before <= after && CorrectionOk(after, c)
    ensures CorrectionsOk(after, corrections + [c])
  {
    forall k | 0 <= k < |corrections + [c]| ensures CorrectionOk(after, (corrections + [c])[k]) {
      if k < |corrections| { assert CorrectionOk(before, corrections[k]); }
    }
  }

  lemma OnceMore(corrections: seq<Correction>, c: Correction)
    requires OncePerPayment(corrections) && CorrectionOf(corrections, c.original) == 0
    ensures OncePerPayment(corrections + [c])
  {
    hide CorrectionOf;
    assert forall k | 0 <= k < |corrections| :: corrections[k] in corrections;
  }

  lemma ExplainedStay(before: seq<Payment>, corrections: seq<Correction>, after: seq<Payment>, c: Correction)
    requires AllExplained(before, corrections) && before <= after && |after| == |before| + 2
    requires CorrectionOf(corrections, c.original) == 0 && c.reversal == |before| + 1 && c.replacement == |before| + 2
    requires after[|before|].corrects == after[|before| + 1].corrects == c.original
    ensures AllExplained(after, corrections + [c])
  {
    hide CorrectionOf;
    forall i: Id | 1 <= i <= |after| ensures Explained(after, corrections + [c], i) {
      CorrectionOfAppend(corrections, c, after[i - 1].corrects);
      if i <= |before| {
        assert Explained(before, corrections, i);
      }
    }
  }

  lemma CorrectedTotals(b: Books, id: Id, revision: nat, params: CorrectParams, who: Principal, now: Time)
    requires ChainsOk(b.payments, b.corrections) && TotalsAgree(b.payments, b.corrections)
    requires 1 <= id <= |b.payments| && InForce(b.payments, b.corrections, id)
    ensures var after := Corrected(b, id, revision, params, who, now);
            TotalsAgree(after.payments, after.corrections)
  {
    hide CorrectionOf, FormatNat, ChainsOk;
    var p, n := b.payments[id - 1], |b.payments|;
    var r, q := ReversalOf(p, id, revision, who, now), ReplacementOf(p, id, params.terms, revision, who, now);
    var c := Correction(id, n + 1, n + 2, params.reason, who.userId, now);
    var one, two := b.payments + [r], b.payments + [r, q];
    assert two == one + [q];
    NoneCorrects(b.payments, b.corrections, n + 2);
    CorrectionOfAppend(b.corrections, c, n + 2);
    forall batch, means
      ensures LedgerTotal(two, batch, means) == ForceTotal(two, b.corrections + [c], batch, means, |two|) {
      LedgerAppend(b.payments, r, batch, means);
      LedgerAppend(one, q, batch, means);
      ForceWithout(b.payments, b.corrections, c, batch, means, n);
      ForcePrefix(b.payments, two, b.corrections + [c], batch, means, n);
      assert !InForce(two, b.corrections + [c], n + 1);
      assert InForce(two, b.corrections + [c], n + 2);
      assert ForceTotal(two, b.corrections + [c], batch, means, n + 1) == ForceTotal(two, b.corrections + [c], batch,
          means, n);
    }
  }

  // ---- Chains ------------------------------------------------------------

  /** A payment, its reversal and its replacement, the replacement's, and so on. */
  function Chain(b: Books, id: Id): seq<Id>
    decreases |b.payments| - id
  {
    if Next(b, id) == 0 then [id]
    else [id, b.corrections[CorrectionOf(b.corrections, id) - 1].reversal] + Chain(b, Next(b, id))
  }

  lemma NextOk(b: Books, id: Id)
    requires ChainsOk(b.payments, b.corrections) && 1 <= id <= |b.payments|
    ensures Next(b, id) == 0 <==> CorrectionOf(b.corrections, id) == 0
    ensures Next(b, id) != 0 ==> b.payments[id - 1].kind != Reversal
    ensures Next(b, id) != 0 ==> CorrectionOk(b.payments, b.corrections[CorrectionOf(b.corrections, id) - 1])
  {
    hide CorrectionOf, PaymentsOk, OncePerPayment, AllExplained;
    var k := CorrectionOf(b.corrections, id);
    if k != 0 { assert CorrectionOk(b.payments, b.corrections[k - 1]); }
  }

  /** Along a chain: ids rise, two rows for each step, one root, and one payment in force, its last. */
  lemma {:induction false} ChainShape(b: Books, id: Id)
    requires ChainsOk(b.payments, b.corrections) && 1 <= id <= |b.payments| && b.payments[id - 1].kind != Reversal
    ensures var chain := Chain(b, id);
            |chain| == 2 * Steps(b, id) + 1 && chain[0] == id && chain[|chain| - 1] == InForceFrom(b, id) &&
            (forall i, j | 0 <= i < j < |chain| :: chain[i] < chain[j]) &&
            forall x | x in chain :: 1 <= x <= |b.payments| && Root(b.payments, x) == Root(b.payments, id) &&
              (InForce(b.payments, b.corrections, x) <==> x == InForceFrom(b, id))
    decreases |b.payments| - id
  {
    hide CorrectionOf, ChainsOk;
    NextOk(b, id);
    var next := Next(b, id);
    if next != 0 {
      var c := b.corrections[CorrectionOf(b.corrections, id) - 1];
      ChainShape(b, next);
      assert Root(b.payments, c.reversal) == Root(b.payments, id) == Root(b.payments, next);
      var rest := Chain(b, next);
      assert forall x | x in rest :: x >= next;
    }
  }

  /** What corrects a payment of a chain is in the chain. */
  lemma {:induction false} ChainClosed(b: Books, id: Id, x: Id)
    requires ChainsOk(b.payments, b.corrections) && 1 <= id <= |b.payments| && b.payments[id - 1].kind != Reversal
    requires x in Chain(b, id) && 1 <= x <= |b.payments| && Next(b, x) != 0
    ensures Next(b, x) in Chain(b, id)
    ensures b.corrections[CorrectionOf(b.corrections, x) - 1].reversal in Chain(b, id)
    decreases |b.payments| - id
  {
    hide CorrectionOf, ChainsOk;
    NextOk(b, id);
    NextOk(b, x);
    if x != id {
      ChainClosed(b, Next(b, id), x);
    } else {
      assert Chain(b, Next(b, id))[0] == Next(b, id) by { ChainShape(b, Next(b, id)); }
    }
  }

  /** A row that corrects another is what that one's correction names. */
  lemma CorrectedNext(b: Books, x: Id)
    requires ChainsOk(b.payments, b.corrections) && 1 <= x <= |b.payments| && b.payments[x - 1].corrects != 0
    ensures var c := b.payments[x - 1].corrects;
            1 <= c < x && Next(b, c) != 0 &&
            (x == Next(b, c) || x == b.corrections[CorrectionOf(b.corrections, c) - 1].reversal)
  {
    hide CorrectionOf, OncePerPayment;
    var c := b.payments[x - 1].corrects;
    assert PaymentOk(b.payments, x) && Explained(b.payments, b.corrections, x);
    NextOk(b, c);
    assert CorrectionOk(b.payments, b.corrections[CorrectionOf(b.corrections, c) - 1]);
  }

  lemma {:induction false} InItsChain(b: Books, x: Id)
    requires ChainsOk(b.payments, b.corrections) && 1 <= x <= |b.payments|
    ensures b.payments[Root(b.payments, x) - 1].kind == Original && x in Chain(b, Root(b.payments, x))
    decreases x
  {
    hide CorrectionOf, CorrectionsOk, OncePerPayment, Chain, Next;
    assert PaymentOk(b.payments, x);
    var c := b.payments[x - 1].corrects;
    if c == 0 {
      ChainShape(b, x);
      assert Chain(b, x)[0] in Chain(b, x);
    } else {
      InItsChain(b, c);
      NextOk(b, c);
      assert Explained(b.payments, b.corrections, x);
      CorrectedNext(b, x);
      ChainClosed(b, Root(b.payments, c), c);
    }
  }

  /** The payments that go back to one original. */
  function Family(payments: seq<Payment>, original: Id): set<Id> {
    set x: Id | 1 <= x <= |payments| && Root(payments, x) == original
  }

  /** A chain at revision r is exactly the payments that go back to one original: 2r + 1 of them, of
      which one is in force. */
  lemma ChainAtRevision(b: Books, original: Id)
    requires ChainsOk(b.payments, b.corrections) && 1 <= original <= |b.payments| &&
        b.payments[original - 1].kind == Original
    ensures |Family(b.payments, original)| == 2 * Steps(b, original) + 1
    ensures InForceFrom(b, original) in Family(b.payments, original)
    ensures forall x | x in Family(b.payments, original) ::
              InForce(b.payments, b.corrections, x) <==> x == InForceFrom(b, original)
  {
    hide CorrectionOf, Steps, InForceFrom, Chain, ChainsOk, Root, InForce;
    RootOfOriginal(b.payments, b.corrections, original);
    ChainShape(b, original);
    var chain, members := Chain(b, original), Family(b.payments, original);
    forall x: Id ensures x in members <==> x in chain {
      if x in members { InItsChain(b, x); }
    }
    RisingCardinality(chain, members);
    assert chain[|chain| - 1] in chain;
  }

  lemma RootOfOriginal(payments: seq<Payment>, corrections: seq<Correction>, id: Id)
    requires ChainsOk(payments, corrections) && 1 <= id <= |payments| && payments[id - 1].kind == Original
    ensures Root(payments, id) == id
  {
    assert PaymentOk(payments, id);
  }

  lemma {:induction false} RisingCardinality(s: seq<Id>, members: set<Id>)
    requires forall i, j | 0 <= i < j < |s| :: s[i] < s[j]
    requires forall x :: x in members <==> x in s
    ensures |members| == |s|
  {
    if s == [] {
      assert members == {};
    } else {
      var n := |s| - 1;
      var rest := members - {s[n]};
      assert members == rest + {s[n]} by { assert s[n] in s; }
      forall x ensures x in rest <==> x in s[..n] {
        if x in rest {
          var i :| 0 <= i < |s| && s[i] == x;
          assert s[..n][i] == x;
        }
      }
      RisingCardinality(s[..n], rest);
    }
  }
}

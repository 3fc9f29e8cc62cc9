/** Coverage decisions: one is in force for each member, and what corrections do to it. */
module LedgerCoverage {
  import opened Text
  import opened Ledger

  predicate EventOk(coverage: seq<CoverageEvent>, id: Id)
    requires 1 <= id <= |coverage|
  {
    var e := coverage[id - 1];
    e.supersedes < id && (e.supersedes != 0 ==> coverage[e.supersedes - 1].membership == e.membership)
  }

  /** No decision is superseded twice, and of each member's decisions at most one is not superseded. */
  ghost predicate CoverageOk(coverage: seq<CoverageEvent>) {
    && (forall id: Id | 1 <= id <= |coverage| :: EventOk(coverage, id))
    && (forall j, k | 0 <= j < k < |coverage| :: coverage[j].supersedes == coverage[k].supersedes ==>
        coverage[j].supersedes == 0)
    && (forall m: Id, c: Id, d: Id | Candidate(coverage, m, c) && Candidate(coverage, m, d) :: c == d)
  }

  lemma CandidateAfter(coverage: seq<CoverageEvent>, e: CoverageEvent, m: Id, c: Id)
    requires e.supersedes <= |coverage| && forall id: Id | 1 <= id <= |coverage| :: EventOk(coverage, id)
    ensures Candidate(coverage + [e], m, c) <==>
              (c == |coverage| + 1 && e.membership == m) || (Candidate(coverage, m, c) && c != e.supersedes)
  {
    var after := coverage + [e];
    assert after[|coverage|] == e;
    if Candidate(coverage + [e], m, c) && c <= |coverage| {
      assert !Superseded(coverage, c) by {
        if k :| 0 <= k < |coverage| && coverage[k].supersedes == c { assert after[k].supersedes == c; }
      }
    }
    if 1 <= c <= |coverage| && Superseded(coverage, c) {
      var k :| 0 <= k < |coverage| && coverage[k].supersedes == c;
      assert after[k].supersedes == c;
    }
    if c == |coverage| + 1 {
      forall k | 0 <= k < |after| ensures after[k].supersedes != c {
        if k < |coverage| { assert EventOk(coverage, k + 1); }
      }
    }
  }

  lemma EffectiveIs(coverage: seq<CoverageEvent>, m: Id)
    requires CoverageOk(coverage)
    ensures forall c | Candidate(coverage, m, c) :: Effective(coverage, m) == c
    ensures Effective(coverage, m) != 0 ==> Candidate(coverage, m, Effective(coverage, m))
  {
    hide Newest;
    forall c | Candidate(coverage, m, c) ensures Effective(coverage, m) == c {
      assert Candidate(coverage, m, Effective(coverage, m));
    }
  }

  /** A new decision is the one in force for its member, supersedes the one that was, and leaves every
      other member's alone. */
  lemma DecidedKeeps(coverage: seq<CoverageEvent>, m: Id, paidThrough: string, why: string, payment: Id, officer: Id,
      at: Time)
    requires CoverageOk(coverage)
    ensures var after := Decided(coverage, m, paidThrough, why, payment, officer, at);
            CoverageOk(after) && Effective(after, m) == |after| &&
            forall other | other != m :: Effective(after, other) == Effective(coverage, other)
  {
    hide Newest;
    var prior := Effective(coverage, m);
    var e := CoverageEvent(m, paidThrough, why, payment, prior, officer, at);
    var after := coverage + [e];
    forall other: Id, c: Id ensures Candidate(after, other, c) <==>
              (c == |after| && m == other) || (Candidate(coverage, other, c) && c != prior) {
      CandidateAfter(coverage, e, other, c);
    }
    forall id: Id | 1 <= id <= |after| ensures EventOk(after, id) {
      if id <= |coverage| { assert EventOk(coverage, id); }
    }
    assert forall j | 0 <= j < |coverage| && prior != 0 :: coverage[j].supersedes != prior by {
      assert prior != 0 ==> !Superseded(coverage, prior);
    }
    forall other: Id, c: Id, d: Id | Candidate(after, other, c) && Candidate(after, other, d) ensures c == d {
    }
    EffectiveIs(after, m);
    assert Candidate(after, m, |after|);
    forall other: Id | other != m ensures Effective(after, other) == Effective(coverage, other) {
      EffectiveIs(coverage, other);
      EffectiveIs(after, other);
      EffectiveIs(coverage, m);
    }
  }

  // ---- Corrections and coverage -------------------------------------------

  predicate RefersBack(coverage: seq<CoverageEvent>, payments: nat) { forall e | e in coverage :: e.payment <= payments }

  /** The date in force for a member, "" when there is none. */
  function DateInForce(coverage: seq<CoverageEvent>, m: Id): string {
    var id := Effective(coverage, m);
    if id == 0 then "" else coverage[id - 1].paidThrough
  }

  /** After a correction the date in force is the one it stated, unless the payment's own decision
      names that date: then coverage is left as it is. */
  lemma DateAfterCorrection(b: Books, id: Id, revision: nat, params: CorrectParams, who: Principal, now: Time)
    requires CoverageOk(b.coverage) && 1 <= id <= |b.payments|
    ensures var m, after := b.payments[id - 1].membership, Corrected(b, id, revision, params, who, now).coverage;
            CoverageOk(after) &&
            DateInForce(after, m) == (if SameCoverage(b.coverage, id, params.paidThrough) then DateInForce(b.coverage, m)
                                      else params.paidThrough) &&
            (forall other | other != m :: Effective(after, other) == Effective(b.coverage, other))
  {
    hide Newest, SameCoverage;
    var m := b.payments[id - 1].membership;
    DecidedKeeps(b.coverage, m, params.paidThrough, "correction", |b.payments| + 2, who.userId, now);
    assert Decided(b.coverage, m, params.paidThrough, "correction", |b.payments| + 2, who.userId,
        now)[|b.coverage|].paidThrough
           == params.paidThrough;
  }

  /** Money corrected twice, the date the payment granted restated both times. The first correction
      leaves coverage alone. The second always decides anew, because the replacement it corrects has no
      decision of its own: it puts the prior date back in force over whatever was decided since. So the
      two together leave the date in force alone exactly when nothing else had been decided. */
  lemma AmountCorrectedTwice(b: Books, id: Id, revision: nat, first: CorrectParams, second: CorrectParams,
                             who: Principal, now: Time, later: Time)
    requires CoverageOk(b.coverage) && RefersBack(b.coverage, |b.payments|) && 1 <= id <= |b.payments|
    requires SameCoverage(b.coverage, id, first.paidThrough) && second.paidThrough == first.paidThrough
    ensures var m, one := b.payments[id - 1].membership, Corrected(b, id, revision, first, who, now);
            var two := Corrected(one, |one.payments|, revision + 1, second, who, later);
            one.coverage == b.coverage && |two.coverage| == |b.coverage| + 1 &&
            DateInForce(two.coverage, m) == first.paidThrough &&
            (DateInForce(two.coverage, m) == DateInForce(b.coverage, m) <==>
               DateInForce(b.coverage, m) == first.paidThrough)
  {
    hide Newest, FormatNat;
    var one := Corrected(b, id, revision, first, who, now);
    assert CoverageOf(one.coverage, |one.payments|) == 0;
    DateAfterCorrection(one, |one.payments|, revision + 1, second, who, later);
  }
}

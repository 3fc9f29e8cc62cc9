/** What holds between any two points of a run of the treasurer's calls. */
module LedgerFacts {
  import opened Text
  import opened Ledger
  import opened LedgerChains
  import opened LedgerCoverage
  import opened LedgerRuns

  /** After any run the ledger total of every batch, net and by each method, is the sum over the
      payments in force, and each correction chain has one of those among its 2r + 1 payments. */
  lemma TotalsAreInForce(b: Books, calls: seq<Call>, batch: Id, means: Option<string>)
    requires Inv(b)
    ensures var t := Run(b, calls);
            LedgerTotal(t.payments, batch, means) == ForceTotal(t.payments, t.corrections, batch, means, |t.payments|) &&
            forall id | 1 <= id <= |t.payments| && t.payments[id - 1].kind == Original ::
              |Family(t.payments, id)| == 2 * Steps(t, id) + 1 && InForceFrom(t, id) in Family(t.payments, id) &&
              forall x | x in Family(t.payments, id) :: InForce(t.payments, t.corrections, x) <==> x == InForceFrom(t, id)
  {
    hide DraftsOk, ChainsOk, CoverageOk, Steps, InForceFrom, InForce, Run;
    var t := Run(b, calls);
    forall id: Id | 1 <= id <= |t.payments| && t.payments[id - 1].kind == Original
      ensures |Family(t.payments, id)| == 2 * Steps(t, id) + 1 && InForceFrom(t, id) in Family(t.payments, id) &&
              forall x | x in Family(t.payments, id) :: InForce(t.payments, t.corrections, x) <==> x == InForceFrom(t, id) {
      ChainAtRevision(t, id);
    }
  }

  /** Between any two points of a run: payments, corrections and decisions are only appended to; a
      batch whose version has not moved has not changed, nor have its entries; and a posted or
      abandoned batch and its entries never change again. */
  lemma HistoryStands(b: Books, before: seq<Call>, after: seq<Call>, batch: Id)
    requires Inv(b) && batch in Run(b, before).batches
    ensures var mid, end := Run(b, before), Run(Run(b, before), after);
            mid.payments <= end.payments && mid.corrections <= end.corrections && mid.coverage <= end.coverage &&
            batch in end.batches && mid.batches[batch].version <= end.batches[batch].version &&
            (mid.batches[batch].version == end.batches[batch].version || mid.batches[batch].state != Open ==>
              end.batches[batch] == mid.batches[batch] && Draft(end.entries, batch) == Draft(mid.entries, batch))
  {
    hide Inv, Run, Draft;
    RunKeeps(b, before);
    RunKeeps(Run(b, before), after);
    assert BatchLater(Run(b, before), Run(Run(b, before), after), batch);
  }

  /** A post accepted at version v posts the entries that were there whenever the open batch had that
      version, whatever was done in between: the same listing gives the same rows, each becomes one
      payment, and the batch's ledger total becomes their total. */
  lemma PostsWhatWasSeen(b: Books, between: seq<Call>, who: Principal, batch: Id, ids: seq<Id>, now: Time)
    requires Inv(b) && batch in b.batches && b.batches[batch].state == Open
    requires Listing(Run(b, between).entries, batch, ids)
    requires PostBatch(Run(b, between), who, batch, ids, b.batches[batch].version, now).answer.Done?
    ensures var t := PostBatch(Run(b, between), who, batch, ids, b.batches[batch].version, now).books;
            Listing(b.entries, batch, ids) && (forall i | i in ids :: i in b.entries) &&
            t.payments == Run(b, between).payments + Bills(Rows(b.entries, ids), who, now) &&
            forall means :: LedgerTotal(t.payments, batch, means) == DraftTotal(Rows(b.entries, ids), means)
  {
    hide Inv, Run, PostBatch, Bills, PaymentFor;
    var mid := Run(b, between);
    RunKeeps(b, between);
    PostBatchEffect(mid, who, batch, ids, b.batches[batch].version, now);
    assert BatchLater(b, mid, batch);
    assert Draft(mid.entries, batch) == Draft(b.entries, batch);
    forall i ensures i in ids <==> i in b.entries && b.entries[i].batch == batch {
      assert i in Draft(mid.entries, batch) <==> i in Draft(b.entries, batch);
    }
    forall i | i in ids ensures b.entries[i] == mid.entries[i] {
      assert i in Draft(b.entries, batch) && Draft(b.entries, batch)[i] == Draft(mid.entries, batch)[i];
    }
    forall k | 0 <= k < |ids| ensures b.entries[ids[k]] == mid.entries[ids[k]] { assert ids[k] in ids; }
    assert Rows(b.entries, ids) == Rows(mid.entries, ids);
  }

  // ---- Retries -----------------------------------------------------------

  /** Posting again under the same key, at any later point, posts nothing and names the same batch. */
  lemma RetriedPost(b: Books, who: Principal, batch: Id, ids: seq<Id>, expected: nat, key: string, now: Time,
                    between: seq<Call>, others: seq<Id>, later: Time)
    requires Inv(b) && Listing(b.entries, batch, ids) && Post(b, who, batch, ids, expected, key, true, now).answer.Done?
    requires Inv(Post(b, who, batch, ids, expected, key, true, now).books)
    requires Listing(Run(Post(b, who, batch, ids, expected, key, true, now).books, between).entries, batch, others)
    ensures var t := Run(Post(b, who, batch, ids, expected, key, true, now).books, between);
            Post(t, who, batch, others, expected, key, true, later) ==
              Outcome(t, Post(b, who, batch, ids, expected, key, true, now).answer)
  {
    hide Inv, Run, Draft, Listing, BatchLater;
    var o := Post(b, who, batch, ids, expected, key, true, now);
    var k := ClaimKey(who.userId, "payment-batch-post", key);
    PostClaimed(b, who, batch, ids, expected, key, now);
    RunKeeps(o.books, between);
    assert k in Run(o.books, between).claims;
  }

  lemma PostClaimed(b: Books, who: Principal, batch: Id, ids: seq<Id>, expected: nat, key: string, now: Time)
    requires Listing(b.entries, batch, ids) && Post(b, who, batch, ids, expected, key, true, now).answer.Done?
    ensures var o, k := Post(b, who, batch, ids, expected, key, true, now), ClaimKey(who.userId, "payment-batch-post", key);
            POST in who.caps && key != "" && k in o.books.claims && o.answer.id in o.books.batches &&
            o.books.claims[k] == Claim(PostDeed(batch, expected), o.answer.id)
  {
    hide PostRows, FirstProblem, Listing;
  }

  /** Correcting again under the same key, at any later point, corrects nothing, whatever revision the
      retry states: the revision is not part of what the key was claimed for. */
  lemma RetriedCorrection(b: Books, who: Principal, payment: Id, params: CorrectParams, expected: nat, key: string,
                          now: Time, between: seq<Call>, stated: nat, later: Time)
    requires Inv(b) && Correct(b, who, payment, params, expected, key, true, now).answer.Done?
    requires Inv(Correct(b, who, payment, params, expected, key, true, now).books)
    ensures var t := Run(Correct(b, who, payment, params, expected, key, true, now).books, between);
            Correct(t, who, payment, params, stated, key, true, later) ==
              Outcome(t, Correct(b, who, payment, params, expected, key, true, now).answer)
  {
    hide Inv, Run, Draft, BatchLater, CorrectProblem, Root, Steps, InForceFrom, Corrected;
    var o := Correct(b, who, payment, params, expected, key, true, now);
    RunKeeps(o.books, between);
    assert ClaimKey(who.userId, "payment-correct", key) in o.books.claims;
  }

  /** Adding an entry again under the same key never adds a second one. */
  lemma RetriedEntry(b: Books, who: Principal, batch: Id, input: EntryInput, key: string, between: seq<Call>)
    requires Inv(b) && key != "" && AddEntry(b, who, batch, input, key).answer.Done?
    requires Inv(AddEntry(b, who, batch, input, key).books)
    ensures var t := Run(AddEntry(b, who, batch, input, key).books, between);
            AddEntry(t, who, batch, input, key).books == t
  {
    hide Inv, Run, Draft, BatchLater, Problem, NextEntryId, NextSequence;
    var o := AddEntry(b, who, batch, input, key);
    RunKeeps(o.books, between);
    assert ClaimKey(who.userId, "payment-batch-entry-create", key) in o.books.claims;
  }

  // ---- Sequence numbers and ids -------------------------------------------

  predicate KeepsPlaces(a: map<Id, Entry>, b: map<Id, Entry>) {
    forall i | i in a && i in b :: b[i].batch == a[i].batch && b[i].sequence == a[i].sequence
  }

  /** No call renumbers a row or moves it to another batch: what is there before and after a call keeps
      its place, and a row that is new has a place nobody in its batch has. */
  lemma RowsKeepTheirPlace(b: Books, c: Call)
    requires Inv(b)
    ensures KeepsPlaces(b.entries, Step(b, c).entries) && DistinctSequences(Step(b, c).entries)
  {
    hide Inv, KeepsPlaces, DistinctSequences, Step;
    StepKeeps(b, c);
    DistinctOf(Step(b, c));
    if c.AddCall? {
      AddPlace(b, c);
    } else if c.SingleCall? {
      SinglePlace(b, c);
    } else if c.UpdateCall? || c.DeleteCall? {
      EditPlace(b, c);
    } else {
      SameEntries(b, c);
      SamePlaces(b.entries);
    }
  }

  lemma SamePlaces(entries: map<Id, Entry>)
    ensures KeepsPlaces(entries, entries)
  {
  }

  lemma AddPlace(b: Books, c: Call)
    requires Inv(b) && c.AddCall?
    ensures KeepsPlaces(b.entries, Step(b, c).entries)
  {
    hide Inv, Problem, BatchRefusal, NextSequence, NextEntryId;
    NewRowIsFree(b.entries, c.batch);
  }

  lemma EditPlace(b: Books, c: Call)
    requires Inv(b) && (c.UpdateCall? || c.DeleteCall?)
    ensures KeepsPlaces(b.entries, Step(b, c).entries)
  {
    hide Inv, Problem, BatchRefusal;
  }

  lemma SinglePlace(b: Books, c: Call)
    requires Inv(b) && c.SingleCall?
    ensures KeepsPlaces(b.entries, Step(b, c).entries)
  {
    hide Inv, Problem, TrimSpace, Listing, PostBatch;
    NewRowIsFree(b.entries, b.nextBatch);
    if Step(b, c) != b {
      SingleOpens(b, c.who, c.input, c.caption, c.now);
      var single := WithSingle(b, c.who, c.input, c.caption, c.now);
      PostBatchEffect(single, c.who, b.nextBatch, [NextEntryId(b.entries)], 1, c.now);
    }
  }

  lemma DistinctOf(b: Books)
    requires Inv(b)
    ensures DistinctSequences(b.entries)
  {
  }

  lemma SameEntries(b: Books, c: Call)
    requires Inv(b) && !c.AddCall? && !c.UpdateCall? && !c.DeleteCall? && !c.SingleCall?
    ensures Step(b, c).entries == b.entries
  {
    hide Inv, Problem, BatchProblem, TrimSpace, PostRows, FirstProblem, Corrected, CorrectProblem, Root, Steps,
        InForceFrom, IsoDate, Listing;
    if c.PostCall? && Listing(b.entries, c.batch, c.ids) {
      PostRowsShape(b, Rows(b.entries, c.ids), c.who, c.now) by { ListedIn(b.entries, c.batch, c.ids); }
      ListedIn(b.entries, c.batch, c.ids);
    }
    if c.CorrectCall? && 1 <= c.payment <= |b.payments| {
      CorrectedEntries(b, c.payment, c.expected + 1, c.params, c.who, c.now);
    }
  }

  lemma ListedIn(entries: map<Id, Entry>, batch: Id, ids: seq<Id>)
    requires Listing(entries, batch, ids)
    ensures forall i | i in ids :: i in entries
  {
  }

  lemma CorrectedEntries(b: Books, payment: Id, revision: nat, params: CorrectParams, who: Principal, now: Time)
    requires 1 <= payment <= |b.payments|
    ensures Corrected(b, payment, revision, params, who, now).entries == b.entries
  {
  }

  /** An id does not name one row for ever. After deleting an entry the next one added takes over its
      id, with version 1 again, exactly when the deleted one had the largest id and the one before it is
      still in use (or there is none). */
  lemma IdTakenOver(b: Books, who: Principal, batch: Id, entry: Id, expected: nat, into: Id, input: EntryInput)
    requires Inv(b) && entry >= 1
    requires var gone := DeleteEntry(b, who, batch, entry, expected);
             gone.answer.Done? && AddEntry(gone.books, who, into, input, "").answer.Done?
    ensures var added := AddEntry(DeleteEntry(b, who, batch, entry, expected).books, who, into, input, "");
            (added.answer.id == entry <==>
              (forall i | i in b.entries :: i <= entry) && (entry == 1 || entry - 1 in b.entries)) &&
            added.answer.id in added.books.entries && added.books.entries[added.answer.id].version == 1
  {
    hide Inv, Problem, NextSequence, BatchRefusal;
    var rest := b.entries - {entry};
    assert forall i | i in rest :: i <= Largest(rest.Keys);
    assert forall i | i in b.entries && i != entry :: i in rest.Keys;
  }
}

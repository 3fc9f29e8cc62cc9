/** What reviewing may and must do, in terms of the operations themselves: which approvals are refused, what is
    written when one is not, and what can be filed. */
module ReviewPolicy {
  import opened Text
  import opened Tables
  import opened Adapters
  import opened Review
  import opened ReviewRuns

  // ---- Sensitive changes -------------------------------------------------

  /** The submitter declared the item sensitive, or it changes a call sign, who is in the directory, or what is
      shared. */
  predicate NeedsCare(p: Proposal) {
    p.sensitive || p.operation == SetCallSign || p.operation == SetVisibility || p.operation == SetSharing
  }

  predicate PendingItem(s: Store, id: Id, itemId: Id) {
    id in s.requests && itemId in s.items && s.items[itemId].request == id && s.items[itemId].status == Pending
  }

  /** Approving a pending item is refused as self-review exactly when it needs care and the reviewer is the member who
      asked for it; for want of a note exactly when it needs care and the note is blank; and as unappliable
      exactly when nothing can apply it. */
  lemma ApprovalIsRefused(s: Store, who: Principal, id: Id, itemId: Id, d: DecideParams, now: Time)
    requires PendingItem(s, id, itemId) && d.decision == Approved
    ensures var p, answer := s.items[itemId].proposal, Decide(s, who, id, itemId, d, now).answer;
            var own := s.requests[id].requester == who.userId && who.userId != 0;
            (answer == Err(SelfReview) <==> NeedsCare(p) && own) &&
            (answer == Err(NoteRequired) <==> NeedsCare(p) && !own && TrimSpace(d.note) == "") &&
            (answer == Err(NoAdapter) <==>
               p.operation in {AddRelationship, CorrectRelationship, Other} &&
               !(NeedsCare(p) && (own || TrimSpace(d.note) == "")))
  {
    hide TrimSpace, ApplyPersonUpdate, ApplyContactCreate, ApplyContactUpdate, AmendedProposal, SomePending, ValidAudience,
      ParseBool;
    NoOtherRefusal(s.club, who, s.requests[id].target, Effective(s.items[itemId].proposal, d.amended), now);
  }

  /** An adapter refuses for reasons of its own. */
  lemma NoOtherRefusal(club: Club, who: Principal, target: Id, p: Proposal, now: Time)
    ensures var r := ApplyItem(club, who, target, p, now);
            r.Err? ==> r.error !in {SelfReview, NoteRequired} &&
                       (r.error == NoAdapter ==> p.operation in {AddRelationship, CorrectRelationship, Other})
  {
    hide TrimSpace, ParseContactValue, ToUpper, ToLower, CallSignFree, NormalizeContact, ValidAudience, ParseBool;
  }

  /** In every run no item that needs care was approved by the member who asked for it, nor without a note. */
  lemma ApprovedWithCare(s: Store, calls: seq<Call>, i: Id)
    requires Inv(s) && i in Run(s, calls).items
    ensures var t := Run(s, calls);
            t.items[i].request in t.requests &&
            var item, row := t.items[i], t.requests[t.items[i].request];
            item.status == Approved && NeedsCare(item.proposal) ==>
              item.verdict.reviewer != 0 && row.requester != item.verdict.reviewer && TrimSpace(item.verdict.note) != ""
  {
    hide Inv, Run, TrimSpace, CanApply;
    RunKeeps(s, calls);
    InvItem(Run(s, calls), i);
  }

  /** A decision on a pending item is accepted exactly when someone makes it, a rejection says why, and an approval
      has its note and its second person where the item needs care and can be applied. */
  lemma DecidedExactly(s: Store, who: Principal, id: Id, itemId: Id, d: DecideParams, now: Time)
    requires PendingItem(s, id, itemId)
    ensures var p, row := s.items[itemId].proposal, s.requests[id];
            Decide(s, who, id, itemId, d, now).answer.Ok? <==>
              who.userId != 0 && d.decision != Pending && (d.decision == Rejected ==> TrimSpace(d.reason) != "") &&
              (d.decision == Approved ==>
                 (NeedsCare(p) ==> row.requester != who.userId && TrimSpace(d.note) != "") &&
                 ApplyItem(s.club, who, row.target, Effective(p, d.amended), now).Ok?)
  {
    hide TrimSpace, ApplyPersonUpdate, ApplyContactCreate, ApplyContactUpdate, AmendedProposal, SomePending, ValidAudience,
      ParseBool;
  }

  /** An item is decided once: deciding it the same way again is answered with the rows as they are, anything else is
      refused, and nothing is written. */
  lemma DecidedAgain(s: Store, who: Principal, id: Id, itemId: Id, d: DecideParams, now: Time)
    requires id in s.requests && itemId in s.items && s.items[itemId].request == id && s.items[itemId].status != Pending
    requires d.decision == Rejected ==> TrimSpace(d.reason) != ""
    ensures var o := Decide(s, who, id, itemId, d, now);
            o.store == s &&
            (o.answer == Ok(Decision(s.requests[id], s.items[itemId], false, true)) <==>
             d.decision == s.items[itemId].status) &&
            (o.answer == Err(ItemDecided) <==> d.decision !in {Pending, s.items[itemId].status})
  {
    hide TrimSpace;
  }

  /** What is asked for has to be there, and a rejection has to say why; otherwise nothing is written. */
  lemma NotDecided(s: Store, who: Principal, id: Id, itemId: Id, d: DecideParams, now: Time)
    ensures var o := Decide(s, who, id, itemId, d, now);
            (o.answer.Err? ==> o.store == s) &&
            if d.decision == Pending then o.answer == Err(UnknownDecision)
            else if d.decision == Rejected && TrimSpace(d.reason) == "" then o.answer == Err(ReasonRequired)
            else if id !in s.requests || itemId !in s.items then o.answer == Err(NotFound)
            else s.items[itemId].request != id ==> o.answer == Err(ItemNotInRequest)
  {
    hide TrimSpace, SomePending, ApprovalRefusal, Effective, ApplyPersonUpdate, ApplyContactCreate, ApplyContactUpdate,
      ValidAudience, ParseBool;
  }

  // ---- What a decision writes ---------------------------------------------

  /** A decision that is not refused writes who decided what, when, why and how it was checked; an approval also
      what was applied. The request is resolved once nothing else of it is pending, and otherwise in review. */
  lemma DecisionRows(s: Store, who: Principal, id: Id, itemId: Id, d: DecideParams, now: Time)
    requires PendingItem(s, id, itemId) && Decide(s, who, id, itemId, d, now).answer.Ok?
    ensures var t, a := Decide(s, who, id, itemId, d, now).store, s.items[itemId];
            who.userId != 0 && d.decision != Pending && itemId in t.items && id in t.requests &&
            t.items == s.items[itemId := t.items[itemId]] && t.requests == s.requests[id := t.requests[id]] &&
            var b := t.items[itemId];
            b == a.(status := d.decision, verdict := Verdict(who.userId, Some(now), d.reason, d.note), applied := b.applied,
                    version := b.version) &&
            (d.decision != Approved ==> b.applied == a.applied && t.club == s.club && b.version == a.version + 1) &&
            (d.decision == Approved ==>
               var r := ApplyItem(s.club, who, s.requests[id].target, Effective(a.proposal, d.amended), now);
               r.Ok? && t.club == r.value.club && b.version == a.version + 2 &&
               b.applied == Some(Applied(now, r.value.value, r.value.kind, r.value.id, r.value.version))) &&
            (d.decision == Rejected ==> TrimSpace(d.reason) != "") &&
            RequestMoved(s.requests[id], t.requests[id], OthersPending(s.items, id, itemId), now)
  {
    hide ApplyItem, TrimSpace, SomePending, OthersPending, ApprovalRefusal, Effective;
    PendingAfter(s.items, id, itemId, Decide(s, who, id, itemId, d, now).store.items[itemId]);
  }

  predicate RequestMoved(a: Request, b: Request, others: bool, now: Time) {
    if !others && a.status != Resolved then
      b == a.(status := Resolved, resolvedAt := Some(now), withdrawnAt := None, version := a.version + 1)
    else if a.status == Submitted then
      b == a.(status := InReview, resolvedAt := None, withdrawnAt := None, version := a.version + 1)
    else b == a
  }

  // ---- The value an approval applies ---------------------------------------

  /** Without an amendment the proposal is applied as it is. An amendment replaces its value; for a contact it keeps
      the kind that was proposed, unless it names a kind itself. */
  lemma AmendmentReplaces(p: Proposal, amended: string, kind: string, value: string)
    ensures TrimSpace(amended) == "" ==> Effective(p, amended) == p
    ensures TrimSpace(amended) != "" && p.operation !in {AddContact, UpdateContact} ==>
              Effective(p, amended) == p.(value := TrimSpace(amended))
    ensures TrimSpace(amended) != "" && p.operation in {AddContact, UpdateContact} &&
            ParseContactValue(p.value) == Some(ContactValue(kind, value)) ==>
              ParseContactValue(Effective(p, amended).value) ==
              if ParseContactValue(TrimSpace(amended)).Some? then ParseContactValue(TrimSpace(amended))
              else Some(ContactValue(kind, TrimSpace(amended)))
    ensures Effective(p, amended) == p.(value := Effective(p, amended).value)
  {
    hide TrimSpace, ParseContactValue, ContactKind;
    if TrimSpace(amended) != "" && ParseContactValue(p.value) == Some(ContactValue(kind, value)) {
      assert ContactKind(kind);
      EncodedReads(kind, TrimSpace(amended));
    }
  }

  /** A kind, a colon and a value read as that kind and value. */
  lemma EncodedReads(kind: string, typed: string)
    requires ContactKind(kind) && typed != "" && Trimmed(typed)
    ensures ParseContactValue(kind + ":" + typed) == Some(ContactValue(kind, typed))
  {
    hide TrimSpace, CutAt;
    var raw := kind + [':'] + typed;
    assert raw == kind + ":" + typed;
    KindShape(kind);
    assert raw[0] == kind[0] && raw[|raw| - 1] == typed[|typed| - 1];
    CutOfJoin(kind, ':', typed);
  }

  lemma KindShape(kind: string)
    requires ContactKind(kind)
    ensures Trimmed(kind) && kind != "" && ':' !in kind && ToLower(kind) == kind && !IsSpace(kind[0])
  {
  }

  // ---- Filing ------------------------------------------------------------

  /** What is filed: the request as it was put, received by whoever entered it, and its items in order. */
  lemma FiledRows(s: Store, who: Principal, n: NewRequest, key: string, now: Time)
    requires Files(s, who, n, key)
    ensures var t := Create(s, who, n, key, now).store;
            t.requests == s.requests[s.nextRequest :=
              Request(Submitted, n.requester, n.target,
                      Supplied(n.supplied.source, n.supplied.name, n.supplied.callSign, n.supplied.contact,
                               n.supplied.relationship, TrimSpace(n.supplied.summary), who.userId, now),
                      0, None, None, 0, "", None, 1)] &&
            t.nextRequest == s.nextRequest + 1 && t.nextItem == s.nextItem + |n.proposals| && t.club == s.club &&
            (forall i :: i in t.items <==> i in s.items || s.nextItem <= i < s.nextItem + |n.proposals|) &&
            forall i | i in t.items ::
              t.items[i] == if s.nextItem <= i < s.nextItem + |n.proposals|
                            then Item(s.nextRequest, i - s.nextItem, n.proposals[i - s.nextItem], Pending,
                                      Verdict(0, None, "", ""), None, 1)
                            else s.items[i]
  {
    hide ValidNew, InsertAllowed, TrimSpace, Deed;
  }

  /** A proposal that can be filed: not too long, with a value where the operation needs one, and a known audience. */
  predicate Sayable(p: Proposal) {
    && ByteLen(p.value) <= 2000
    && (p.operation !in {ArchiveContact, SetPrimary, Other} ==> TrimSpace(p.value) != "")
    && (p.operation == SetVisibility ==> TrimSpace(p.value) in {"full_members", "hidden", "officers_only"})
    && (if p.targetKind == "" then p.targetId == 0
        else p.targetId != 0 && p.targetKind in {"person", "contact_method", "membership", "relationship"})
  }

  /** What is refused before anything is looked up: an unknown source, no summary or too long a one, nobody it could be
      about, no items or more than 25, or an item that cannot be filed. */
  lemma InvalidExactly(s: Store, who: Principal, n: NewRequest, key: string, now: Time)
    ensures Create(s, who, n, key, now).answer == Err(Invalid) <==>
            !(n.supplied.source in {"officer_phone", "officer_email", "officer_mail", "officer_meeting", "member"} &&
              TrimSpace(n.supplied.summary) != "" && ByteLen(n.supplied.summary) <= 4000 &&
              ByteLen(n.supplied.name) <= 200 && ByteLen(n.supplied.callSign) <= 200 &&
              ByteLen(n.supplied.contact) <= 200 && ByteLen(n.supplied.relationship) <= 200 &&
              (n.target != 0 || TrimSpace(n.supplied.name) != "" || TrimSpace(n.supplied.callSign) != "" ||
               TrimSpace(n.supplied.contact) != "") &&
              1 <= |n.proposals| <= 25 && forall p | p in n.proposals :: Sayable(p))
  {
    hide TrimSpace, ByteLen, Deed, FreshRequest, Inserted, InsertAllowed;
  }

  /** Beyond that, a request is refused only for an unknown person, a member request without the member, or an item
      that names a version of nothing. */
  lemma RefusedExactly(s: Store, who: Principal, n: NewRequest, now: Time)
    requires ValidNew(n)
    ensures var answer := Create(s, who, n, "", now).answer;
            (answer == Err(UnknownPerson) <==> n.target != 0 && n.target !in s.club.persons) &&
            (answer == Err(Constraint) <==>
               (n.target == 0 || n.target in s.club.persons) &&
               ((n.supplied.source == "member" && n.requester == 0) ||
                exists p | p in n.proposals :: p.targetVersion != 0 && p.targetId == 0)) &&
            (answer.Ok? || answer.error in {UnknownPerson, Constraint})
  {
    hide ValidNew, TrimSpace, Deed, FreshRequest, Inserted;
  }

  /** Two submissions are one under a key exactly when they agree in everything but who received them and when, the
      summary up to outer spaces. */
  lemma SameSubmission(s: Store, who: Principal, n: NewRequest, key: string, now: Time, between: seq<Call>, m: NewRequest,
                       later: Time)
    requires Inv(s) && key != "" && Files(s, who, n, key) && ValidNew(m)
    ensures var t := Run(Create(s, who, n, key, now).store, between);
            var a, b := n.supplied, m.supplied;
            Create(t, who, m, key, later).store == t &&
            (Create(t, who, m, key, later).answer == Ok(s.nextRequest) <==>
               m.requester == n.requester && m.target == n.target && m.proposals == n.proposals &&
               b.source == a.source && b.name == a.name && b.callSign == a.callSign && b.contact == a.contact &&
               b.relationship == a.relationship && TrimSpace(b.summary) == TrimSpace(a.summary))
  {
    hide Inv, Files, ValidNew, TrimSpace, Run, Create;
    RetriedFiling(s, who, n, key, now, between, m, later);
  }

  // ---- Triage, Resolve and Withdraw ----------------------------------------

  /** When the other calls are not refused, and what they write then. */
  lemma RequestRows(s: Store, who: Principal, id: Id, target: Id, note: string, expected: nat, now: Time)
    requires id in s.requests
    ensures var t := Triage(s, who, id, target, expected, now).store;
            (t != s <==> s.requests[id].status !in {Resolved, Withdrawn} && s.requests[id].version == expected &&
                         (target == 0 || target in s.club.persons) && who.userId != 0) &&
            (t != s ==> t == s.(requests := s.requests[id := s.requests[id].(target := target, triagedBy := who.userId,
                                                                            triagedAt := Some(now), version := expected + 1)]))
    ensures var t := Resolve(s, who, id, note, expected, now).store;
            (t != s <==> s.requests[id].status !in {Resolved, Withdrawn} && expected in {0, s.requests[id].version} &&
                         !SomeBlocking(s.items, id)) &&
            (t != s ==> t == s.(requests := s.requests[id := s.requests[id].(status := Resolved, resolvedAt := Some(now),
                                                                            resolvedBy := who.userId,
                                                                            resolutionNote := TrimSpace(note),
                                                                            version := s.requests[id].version + 1)]))
    ensures var t := Withdraw(s, who, id, now).store;
            (t != s <==> s.requests[id].status !in {Resolved, Withdrawn} && s.requests[id].requester == who.userId &&
                         who.userId != 0 && !SomeDecided(s.items, id)) &&
            (t != s ==> t == s.(requests := s.requests[id := s.requests[id].(status := Withdrawn, resolvedAt := None,
                                                                            withdrawnAt := Some(now),
                                                                            version := s.requests[id].version + 1)]))
  {
    hide TrimSpace, SomeBlocking, SomeDecided;
  }

  /** What holds them up: a request that is open is not resolved over a pending item that could be applied to a named
      record, and not withdrawn over a decided one. */
  lemma HeldUp(s: Store, who: Principal, id: Id, note: string, now: Time)
    requires id in s.requests && s.requests[id].status !in {Resolved, Withdrawn}
    ensures Resolve(s, who, id, note, 0, now).answer == Err(PendingItems) <==>
            exists i | i in s.items :: s.items[i].request == id && s.items[i].status == Pending &&
              s.items[i].proposal.targetId != 0 &&
              s.items[i].proposal.operation !in {AddRelationship, CorrectRelationship, Other}
    ensures who.userId != 0 && s.requests[id].requester == who.userId ==>
              (Withdraw(s, who, id, now).answer == Err(DecidedItems) <==>
               exists i | i in s.items :: s.items[i].request == id && s.items[i].status != Pending)
  {
    hide TrimSpace;
  }
}

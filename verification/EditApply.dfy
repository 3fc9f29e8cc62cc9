/** The items of an edit form on their way through approval into the club's records. */
module EditApply {
  import opened Text
  import opened Tables
  import opened Adapters
  import opened EditForm
  import opened EditPatch

  // ---- The profile a member sees ------------------------------------------

  /** The latest visibility decision on a contact; a tie in time goes to the later row. */
  function LatestDecision(events: seq<VisibilityEvent>, contact: Id): (r: Option<VisibilityEvent>)
    ensures r.Some? ==> r.value in events
  {
    if events == [] then None
    else
      var last, r := events[|events| - 1], LatestDecision(events[..|events| - 1], contact);
      if last.contact == contact && (r.None? || last.at >= r.value.at) then Some(last) else r
  }

  function SharedWith(events: seq<VisibilityEvent>, contact: Id): string {
    match LatestDecision(events, contact)
    case None => ""
    case Some(e) => e.audience
  }

  predicate MirrorsEntry(club: Club, c: Entry) {
    && c.id != 0 && c.id in club.contacts
    && club.contacts[c.id].kind == c.kind && club.contacts[c.id].raw == c.value && club.contacts[c.id].version == c.version
    && c.sharedWith == SharedWith(club.visibility, c.id)
  }

  predicate MirrorsPerson(club: Club, p: Profile) {
    && p.personId != 0 && p.personId in club.persons
    && club.persons[p.personId].displayName == p.displayName && club.persons[p.personId].callSign == p.callSign
    && club.persons[p.personId].version == p.personVersion && p.personVersion >= 1
  }

  /** The profile shows the records as they are. */
  predicate Mirrors(club: Club, p: Profile) {
    MirrorsPerson(club, p) && forall i | 0 <= i < |p.contacts| :: MirrorsEntry(club, p.contacts[i])
  }

  // ---- Approving items one after the other --------------------------------

  predicate OnPerson(x: Proposal) { FieldOf(x) == Name || FieldOf(x) == Sign }

  /** The items that take effect: of two on the person row only the first, because both carry the
      version the form was filled in at. */
  function Effective(items: seq<Proposal>, moved: bool): seq<Proposal> {
    if items == [] then []
    else if OnPerson(items[0]) && moved then Effective(items[1..], moved)
    else [items[0]] + Effective(items[1..], moved || OnPerson(items[0]))
  }

  function Answered(items: seq<Proposal>, moved: bool): (r: seq<Option<Error>>)
    ensures |r| == |items|
  {
    if items == [] then []
    else [if OnPerson(items[0]) && moved then Some(Stale) else None] + Answered(items[1..], moved || OnPerson(items[0]))
  }

  const REVIEW_CAPS := {"member.update", "contact_method.write", "sharing_pref.write.officer"}

  /** An item of a form filled in from this record; once the person row has moved, items on it are behind. */
  predicate Ready(p: Profile, x: Proposal, moved: bool) {
    match FieldOf(x)
    case Value(id) =>
      exists i | 0 <= i < |p.contacts| :: p.contacts[i].id == id && p.contacts[i].version == x.targetVersion &&
        ParseContactValue(x.value) == Some(ContactValue(p.contacts[i].kind, Plain(x)))
    case Share(id) =>
      x.value in {FULL_MEMBERS, HIDDEN} && exists i | 0 <= i < |p.contacts| :: p.contacts[i].id == id
    case NoField => false
    case _ =>
      x.targetId == p.personId && x.value != "" && Trimmed(x.value) &&
      if moved then 0 < x.targetVersion < p.personVersion else x.targetVersion == p.personVersion
  }

  predicate AllReady(p: Profile, items: seq<Proposal>, moved: bool) { forall x | x in items :: Ready(p, x, moved) }

  /** What approval rests on besides the items: the unique index on call signs and a clock that has not
      run backwards. */
  predicate Setting(club: Club, p: Profile, items: seq<Proposal>, who: Principal, now: Time) {
    && REVIEW_CAPS <= who.caps
    && (forall e | e in club.visibility :: e.at <= now)
    && CallSignFree(club.persons, p.personId, p.callSign)
    && forall x | x in items && FieldOf(x) == Sign :: CallSignFree(club.persons, p.personId, ToUpper(x.value))
  }

  // ---- One item ----------------------------------------------------------

  lemma PersonStale(club: Club, p: Profile, x: Proposal, who: Principal, now: Time)
    requires Mirrors(club, p) && OnPerson(x) && Ready(p, x, true)
    ensures ApplyItem(club, who, x.targetId, x, now) == Err(Stale)
  {
    hide TrimSpace, Trimmed, ParseContactValue, ToUpper, ToLower, MirrorsEntry;
  }

  lemma PersonStep(club: Club, p: Profile, x: Proposal, who: Principal, now: Time)
    requires Mirrors(club, p) && OnPerson(x) && Ready(p, x, false) && Setting(club, p, [x], who, now)
    ensures var r := ApplyItem(club, who, x.targetId, x, now);
            r.Ok? && Mirrors(r.value.club, PatchOne(p, x)) && r.value.club.visibility == club.visibility &&
            SameOthers(club.persons, r.value.club.persons, p.personId) &&
            CallSignFree(r.value.club.persons, p.personId, PatchOne(p, x).callSign)
  {
    hide TrimSpace, Trimmed, ParseContactValue, ToUpper, ToLower, SharedWith, CallSignFree;
    assert x in [x];
    PlainOfOther(x);
    var q, r := PatchOne(p, x), ApplyPersonUpdate(club, who, x);
    assert r.Ok?;
    SameOthersFree(club.persons, r.value.club.persons, p.personId, q.callSign);
    forall i | 0 <= i < |q.contacts| ensures MirrorsEntry(r.value.club, q.contacts[i]) {
      assert MirrorsEntry(club, p.contacts[i]);
    }
  }

  /** Nobody else's row has changed. */
  predicate SameOthers(a: map<Id, Person>, b: map<Id, Person>, id: Id) {
    a.Keys == b.Keys && forall other | other in a && other != id :: b[other] == a[other]
  }

  lemma SameOthersFree(a: map<Id, Person>, b: map<Id, Person>, id: Id, callSign: string)
    requires SameOthers(a, b, id)
    ensures CallSignFree(a, id, callSign) <==> CallSignFree(b, id, callSign)
  {
  }

  lemma ContactStep(club: Club, p: Profile, x: Proposal, moved: bool, who: Principal, now: Time)
    requires ProfileOk(p) && Mirrors(club, p) && x.operation == UpdateContact && Ready(p, x, moved) &&
        REVIEW_CAPS <= who.caps
    ensures var r := ApplyItem(club, who, x.targetId, x, now);
            r.Ok? && Mirrors(r.value.club, PatchOne(p, x)) && r.value.club.visibility == club.visibility &&
            r.value.club.persons == club.persons
  {
    hide TrimSpace, Trimmed, ParseContactValue, ToUpper, ToLower, SharedWith, CallSignFree, PlainProposedValue,
      NormalizeContact, ContactKind;
    var q, r := PatchOne(p, x), ApplyItem(club, who, x.targetId, x, now);
    var k :| 0 <= k < |p.contacts| && p.contacts[k].id == x.targetId && p.contacts[k].version == x.targetVersion &&
      ParseContactValue(x.value) == Some(ContactValue(p.contacts[k].kind, Plain(x)));
    assert MirrorsEntry(club, p.contacts[k]);
    forall i | 0 <= i < |q.contacts| ensures MirrorsEntry(r.value.club, q.contacts[i]) {
      assert MirrorsEntry(club, p.contacts[i]);
      assert i != k ==> p.contacts[i].id != p.contacts[k].id;
    }
  }

  lemma AppendDecision(events: seq<VisibilityEvent>, e: VisibilityEvent, contact: Id)
    requires forall o | o in events :: o.at <= e.at
    ensures SharedWith(events + [e], contact) == if e.contact == contact then e.audience else SharedWith(events, contact)
  {
    assert (events + [e])[..|events|] == events;
  }

  lemma ShareStep(club: Club, p: Profile, x: Proposal, moved: bool, who: Principal, now: Time)
    requires Mirrors(club, p) && x.operation == SetVisibility && Ready(p, x, moved) && Setting(club, p, [], who, now)
    ensures var r := ApplyItem(club, who, x.targetId, x, now);
            r.Ok? && Mirrors(r.value.club, PatchOne(p, x)) && r.value.club.persons == club.persons &&
            forall e | e in r.value.club.visibility :: e.at <= now
  {
    hide TrimSpace, ParseContactValue, ToUpper, ToLower, SharedWith, CallSignFree, PlainProposedValue;
    PlainOfOther(x);
    AudienceTrimmed(x.value);
    var q, r := PatchOne(p, x), ApplyItem(club, who, x.targetId, x, now);
    var k :| 0 <= k < |p.contacts| && p.contacts[k].id == x.targetId;
    assert MirrorsEntry(club, p.contacts[k]);
    var e := VisibilityEvent(x.targetId, x.value, MEMBER_REQUEST, now, who.userId);
    assert r.value.club == club.(visibility := club.visibility + [e]);
    forall i | 0 <= i < |q.contacts| ensures MirrorsEntry(r.value.club, q.contacts[i]) {
      assert MirrorsEntry(club, p.contacts[i]);
      AppendDecision(club.visibility, e, p.contacts[i].id);
    }
  }

  lemma AudienceTrimmed(a: string)
    requires a in {FULL_MEMBERS, HIDDEN}
    ensures TrimSpace(a) == a && ValidAudience(a)
  {
    assert Trimmed(FULL_MEMBERS) && Trimmed(HIDDEN);
  }

  // ---- All of them -------------------------------------------------------

  /** Items on other fields stay ready when one has been applied. */
  lemma StaysReady(p: Profile, x: Proposal, y: Proposal, moved: bool)
    requires Ready(p, y, moved) && FieldOf(x) != FieldOf(y) && p.personVersion >= 1
    ensures Ready(PatchOne(p, x), y, moved || OnPerson(x))
  {
    hide TrimSpace, Trimmed, ParseContactValue, ToUpper, PlainProposedValue;
    var q := PatchOne(p, x);
    match FieldOf(y) {
      case Value(id) =>
        var i :| 0 <= i < |p.contacts| && p.contacts[i].id == id && p.contacts[i].version == y.targetVersion &&
          ParseContactValue(y.value) == Some(ContactValue(p.contacts[i].kind, Plain(y)));
        assert q.contacts[i] == PatchEntry(p.contacts[i], x);
      case Share(id) =>
        var i :| 0 <= i < |p.contacts| && p.contacts[i].id == id;
        assert q.contacts[i] == PatchEntry(p.contacts[i], x);
      case _ =>
    }
  }

  /** One item of a form: applied, unless it is on the person row and that has already moved. */
  lemma ItemStep(club: Club, p: Profile, x: Proposal, rest: seq<Proposal>, moved: bool, who: Principal, now: Time)
    requires ProfileOk(p) && Mirrors(club, p) && Ready(p, x, moved) && !(OnPerson(x) && moved)
    requires Setting(club, p, [x] + rest, who, now) && Untouched(rest, FieldOf(x)) && AllReady(p, rest, moved)
    ensures var r := ApplyItem(club, who, x.targetId, x, now);
            r.Ok? && Mirrors(r.value.club, PatchOne(p, x)) && ProfileOk(PatchOne(p, x)) &&
            Setting(r.value.club, PatchOne(p, x), rest, who, now) &&
            AllReady(PatchOne(p, x), rest, moved || OnPerson(x))
  {
    hide TrimSpace, Trimmed, ParseContactValue, ToUpper, ToLower, CallSignFree, PlainProposedValue, Ready, ApplyItem,
        MirrorsEntry;
    var q := PatchOne(p, x);
    forall y | y in rest ensures Ready(q, y, moved || OnPerson(x)) {
      StaysReady(p, x, y, moved);
    }
    assert x in [x] + rest && forall y | y in rest :: y in [x] + rest;
    ReadyFields(p, x, moved);
    if OnPerson(x) {
      assert [x][0] == x;
      PersonStep(club, p, x, who, now);
      var after := ApplyItem(club, who, x.targetId, x, now).value.club;
      forall y | y in rest && FieldOf(y) == Sign ensures CallSignFree(after.persons, p.personId, ToUpper(y.value)) {
        SameOthersFree(club.persons, after.persons, p.personId, ToUpper(y.value));
      }
    } else if x.operation == UpdateContact {
      ContactStep(club, p, x, moved, who, now);
    } else {
      ShareStep(club, p, x, moved, who, now);
    }
  }

  lemma ReadyFields(p: Profile, x: Proposal, moved: bool)
    requires Ready(p, x, moved)
    ensures FieldOf(x) != NoField
  {
  }

  lemma SettingTail(club: Club, p: Profile, items: seq<Proposal>, who: Principal, now: Time)
    requires items != [] && Setting(club, p, items, who, now)
    ensures Setting(club, p, items[1..], who, now)
  {
    hide CallSignFree, ToUpper;
  }

  // ---- A whole form ------------------------------------------------------

  lemma DiffReady(p: Profile, f: Form)
    requires ProfileOk(p) && Answers(p, f)
    ensures AllReady(p, Diff(p, f), false)
  {
    hide TrimSpace, Trimmed, ToUpper, ToLower, EqualFold, ContactKind, CurrentShareChoice, ParseContactValue,
      PlainProposedValue, ContactItems, ShareItems, Ready, ContactItem, ShareItem, Answers, ProfileOk;
    forall x | x in Diff(p, f) ensures Ready(p, x, false) {
      InContactItems(p.contacts, f, x);
      InShareItems(p.contacts, p.baseType, f, x);
      if x in ContactItems(p.contacts, f) {
        var i :| 0 <= i < |p.contacts| && x in ContactItem(p.contacts[i], f);
        ContactReady(p, f, i, x);
      } else if x in ShareItems(p.contacts, p.baseType, f) {
        var i :| 0 <= i < |p.contacts| && x in ShareItem(p.contacts[i], p.baseType, f);
        ShareReady(p, f, i, x);
      } else {
        PersonReady(p, f, x);
      }
    }
  }

  lemma PersonReady(p: Profile, f: Form, x: Proposal)
    requires Answers(p, f) && (x in NameItem(p, f) || x in SignItem(p, f))
    ensures Ready(p, x, false)
  {
    hide Trimmed, ToLower;
    assert EqualFold("", "");
  }

  lemma ContactReady(p: Profile, f: Form, i: nat, x: Proposal)
    requires ProfileOk(p) && Answers(p, f) && i < |p.contacts| && x in ContactItem(p.contacts[i], f)
    ensures Ready(p, x, false)
  {
    hide TrimSpace, Trimmed, ContactKind, ParseContactValue, PlainProposedValue;
    PlainOfEncoded(p.contacts[i].kind, f.contacts[p.contacts[i].id]);
    assert FieldOf(x) == Value(p.contacts[i].id);
  }

  lemma ShareReady(p: Profile, f: Form, i: nat, x: Proposal)
    requires Answers(p, f) && i < |p.contacts| && x in ShareItem(p.contacts[i], p.baseType, f)
    ensures Ready(p, x, false)
  {
    hide Trimmed, CurrentShareChoice;
    assert FieldOf(x) == Share(p.contacts[i].id);
  }

  /** The answer to the item at a position: stale when an earlier item was on the person row too. */
  lemma {:induction false} AnsweredAt(items: seq<Proposal>, moved: bool, k: nat)
    requires k < |items|
    ensures Answered(items, moved)[k] ==
            if OnPerson(items[k]) && (moved || exists j | 0 <= j < k :: OnPerson(items[j])) then Some(Stale) else None
  {
    hide OnPerson;
    if k > 0 {
      AnsweredAt(items[1..], moved || OnPerson(items[0]), k - 1);
      assert forall j | 0 <= j < k - 1 :: items[1..][j] == items[j + 1];
      assert forall j | 0 < j < k :: items[j] == items[1..][j - 1];
    }
  }

  lemma {:induction false} AllEffective(items: seq<Proposal>, moved: bool)
    requires forall k | 0 <= k < |items| :: Answered(items, moved)[k] == None
    ensures Effective(items, moved) == items
  {
    hide OnPerson;
    if items != [] {
      assert Answered(items, moved)[0] == None;
      var rest := Answered(items[1..], moved || OnPerson(items[0]));
      assert forall k | 0 <= k < |rest| :: rest[k] == Answered(items, moved)[k + 1];
      AllEffective(items[1..], moved || OnPerson(items[0]));
    }
  }

  /** Both changed: two items on the person row. Otherwise there is at most one. */
  lemma PersonItems(p: Profile, f: Form)
    requires ProfileOk(p) && Answers(p, f)
    ensures (exists x, y | x in Diff(p, f) && y in Diff(p, f) :: FieldOf(x) == Name && FieldOf(y) == Sign) <==>
            f.displayName != p.displayName && !EqualFold(f.callSign, p.callSign)
  {
    hide Diff, EqualFold, ContactKind, PlainProposedValue, FieldOf;
    NameTouched(p, f);
    SignTouched(p, f);
  }

  /** Of a form's items, in any order, none is answered as stale exactly when the member did not change both
      the name and the call sign; and then all of them take effect. */
  lemma NoneStale(p: Profile, f: Form, items: seq<Proposal>)
    requires ProfileOk(p) && Answers(p, f) && multiset(items) == multiset(Diff(p, f))
    ensures (forall k | 0 <= k < |items| :: Answered(items, false)[k] == None) <==>
            f.displayName == p.displayName || EqualFold(f.callSign, p.callSign)
    ensures (forall k | 0 <= k < |items| :: Answered(items, false)[k] == None) ==> Effective(items, false) == items
  {
    hide Diff, Answers, ProfileOk, Effective, EqualFold, FieldOf, DistinctFields;
    DiffDistinct(p, f);
    Reordered(items, Diff(p, f));
    PersonItems(p, f);
    if x, y :| x in items && y in items && FieldOf(x) == Name && FieldOf(y) == Sign {
      var i :| 0 <= i < |items| && items[i] == x;
      var j :| 0 <= j < |items| && items[j] == y;
      var k, l := if i < j then i else j, if i < j then j else i;
      assert OnPerson(items[k]) && OnPerson(items[l]) && k < l;
      AnsweredAt(items, false, l);
    } else {
      forall k | 0 <= k < |items| ensures Answered(items, false)[k] == None {
        AnsweredAt(items, false, k);
        OnlyOne(items, k);
      }
      AllEffective(items, false);
    }
  }

  lemma OnlyOne(items: seq<Proposal>, k: nat)
    requires k < |items| && DistinctFields(items)
    requires forall x, y | x in items && y in items :: !(FieldOf(x) == Name && FieldOf(y) == Sign)
    ensures OnPerson(items[k]) ==> forall j | 0 <= j < k :: !OnPerson(items[j])
  {
    hide FieldOf;
    forall j | 0 <= j < k && OnPerson(items[k]) ensures !OnPerson(items[j]) {
      assert items[j] in items && items[k] in items;
    }
  }

  // ---- What a person item also does ---------------------------------------

  /** Approving a name or a call sign carries the other one over but clears the license class and the
      examiner flag: they are kept exactly when there was nothing in them. */
  lemma LicenseIsCleared(club: Club, who: Principal, x: Proposal, now: Time)
    requires OnPerson(x) && x.targetId in club.persons && ApplyItem(club, who, x.targetId, x, now).Ok?
    ensures var a := club.persons[x.targetId];
            var after := ApplyItem(club, who, x.targetId, x, now).value.club;
            x.targetId in after.persons &&
            var b := after.persons[x.targetId];
            (b.licenseClass == a.licenseClass && b.examiner == a.examiner <==> a.licenseClass == "" && !a.examiner) &&
            (if FieldOf(x) == Name then b.callSign == a.callSign
             else b.displayName == a.displayName && b.sortName == a.sortName) &&
            b.version == a.version + 1 && SameOthers(club.persons, after.persons, x.targetId) &&
            after == club.(persons := after.persons)
  {
    hide ToUpper, ToLower, CallSignFree, TrimSpace;
    assert ToLower(TrimSpace("")) == "" by { EmptyStaysEmpty(); }
  }

  lemma EmptyStaysEmpty()
    ensures ToLower(TrimSpace("")) == ""
  {
  }
}

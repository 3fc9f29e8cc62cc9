/** What applying an approved item does to the club's records, whichever adapter it goes through. */
module AdapterEffects {
  import opened Text
  import opened Tables
  import opened Adapters

  // ---- Every adapter -----------------------------------------------------

  /** A row that changed has a greater version than before, so an equal version is an unchanged row. */
  predicate PersonLater(a: Person, b: Person) { a == b || a.version < b.version }

  /** A contact also keeps its person, its kind, its label and its postal lines. */
  predicate ContactLater(a: Contact, b: Contact) {
    a == b ||
    (a.version < b.version && a.person == b.person && a.kind == b.kind && a.caption == b.caption && a.postal == b.postal)
  }

  ghost predicate ClubLater(a: Club, b: Club) {
    && a.persons.Keys == b.persons.Keys && (forall i | i in a.persons :: PersonLater(a.persons[i], b.persons[i]))
    && (forall i | i in a.contacts :: i in b.contacts && ContactLater(a.contacts[i], b.contacts[i]))
    && a.visibility <= b.visibility && a.sharing <= b.sharing && a.nextContact <= b.nextContact
  }

  ghost predicate FreshIds(club: Club) { forall i | i in club.contacts :: i < club.nextContact }

  /** Whatever an item applies, nothing is removed, every changed row has a greater version, and the
      histories of preferences are only appended to. */
  lemma AppliedIsLater(club: Club, who: Principal, target: Id, p: Proposal, at: Time)
    requires FreshIds(club) && ApplyItem(club, who, target, p, at).Ok?
    ensures ClubLater(club, ApplyItem(club, who, target, p, at).value.club)
    ensures FreshIds(ApplyItem(club, who, target, p, at).value.club)
  {
    hide TrimSpace, ToLower, ToUpper, ParseContactValue, NormalizeContact, ParseBool, ValidAudience, CallSignFree;
    match AdapterOf(p.operation) {
      case PersonUpdate => assert ApplyItem(club, who, target, p, at) == ApplyPersonUpdate(club, who, p);
      case ContactCreate => assert ApplyItem(club, who, target, p, at) == ApplyContactCreate(club, who, target, p);
      case ContactUpdate => assert ApplyItem(club, who, target, p, at) == ApplyContactUpdate(club, who, p);
      case ContactSetPrimary => PrimaryIsLater(club, who, p.targetId);
      case _ =>
    }
  }

  lemma PrimaryIsLater(club: Club, who: Principal, id: Id)
    requires MakePrimary(club, who, id).Ok?
    ensures ClubLater(club, MakePrimary(club, who, id).value)
  {
  }

  /** The one row or log an operation may touch; everything else of the records is as it was. */
  lemma OneWrite(club: Club, who: Principal, target: Id, p: Proposal, at: Time)
    requires ApplyItem(club, who, target, p, at).Ok?
    ensures var after := ApplyItem(club, who, target, p, at).value.club;
            match AdapterOf(p.operation)
            case PersonUpdate =>
              after == club.(persons := after.persons) &&
              forall i | i in club.persons && i != p.targetId :: after.persons[i] == club.persons[i]
            case ContactCreate =>
              after == club.(contacts := after.contacts, nextContact := club.nextContact + 1) &&
              after.contacts.Keys == club.contacts.Keys + {club.nextContact} &&
              forall i | i in club.contacts && i != club.nextContact :: after.contacts[i] == club.contacts[i]
            case ContactVisibility => after == club.(visibility := after.visibility) &&
                |after.visibility| == |club.visibility| + 1
            case SharingPreference => after == club.(sharing := after.sharing) && |after.sharing| == |club.sharing| + 1
            case ContactSetPrimary => after == club.(contacts := after.contacts) &&
                after.contacts.Keys == club.contacts.Keys
            case _ =>
              after == club.(contacts := after.contacts) && after.contacts.Keys == club.contacts.Keys &&
              forall i | i in club.contacts && i != p.targetId :: after.contacts[i] == club.contacts[i]
  {
    hide TrimSpace, ToLower, ToUpper, ParseContactValue, NormalizeContact, ParseBool, ValidAudience, CallSignFree,
        PrimaryRow;
  }

  // ---- The version an item was written against ----------------------------

  const ON_CONTACTS := {UpdateContact, ArchiveContact, SetPrimary}

  /** An item that edits a person or a contact is refused as stale exactly when it recorded a version of its target and
      the target has another one now. */
  lemma MovedIsStale(club: Club, who: Principal, target: Id, p: Proposal, at: Time)
    requires who.caps >= {"member.update", "contact_method.write"} && p.targetId != 0
    ensures p.operation in {SetDisplayName, SetCallSign} && p.targetId in club.persons ==>
              (ApplyItem(club, who, target, p, at) == Err(Stale) <==>
               p.targetVersion != 0 && p.targetVersion != club.persons[p.targetId].version)
    ensures p.operation in ON_CONTACTS && p.targetId in club.contacts ==>
              (ApplyItem(club, who, target, p, at) == Err(Stale) <==>
               p.targetVersion != 0 && p.targetVersion != club.contacts[p.targetId].version)
  {
    hide TrimSpace, ToLower, ToUpper, ParseContactValue, NormalizeContact, ParseBool, ValidAudience, CallSignFree;
  }

  /** The other operations never look at it: a directory choice made against an old version of the
      contact is applied all the same. */
  lemma OthersIgnoreTheVersion(club: Club, who: Principal, target: Id, p: Proposal, at: Time, seen: nat)
    requires p.operation !in {SetDisplayName, SetCallSign} && p.operation !in ON_CONTACTS
    ensures ApplyItem(club, who, target, p.(targetVersion := seen), at) == ApplyItem(club, who, target, p, at)
  {
    hide TrimSpace, ToLower, ToUpper, ParseContactValue, NormalizeContact, ParseBool, ValidAudience, CallSignFree;
  }

  // ---- What is applied, and what is not ------------------------------------

  /** The item does not speak of a version its target no longer has. */
  predicate Current(p: Proposal, version: nat) { p.targetVersion == 0 || p.targetVersion == version }

  /** Nobody else has the call sign. */
  predicate SignFree(club: Club, id: Id, callSign: string) {
    forall i | i in club.persons && i != id :: club.persons[i].callSign != callSign || callSign == ""
  }

  /** Operation by operation, what it takes for an item to be applied. */
  predicate Applicable(club: Club, who: Principal, target: Id, p: Proposal) {
    match p.operation
    case SetDisplayName =>
      "member.update" in who.caps && p.targetId != 0 && p.targetId in club.persons && TrimSpace(p.value) != "" &&
      Current(p, club.persons[p.targetId].version) && SignFree(club, p.targetId, club.persons[p.targetId].callSign)
    case SetCallSign =>
      "member.update" in who.caps && p.targetId != 0 && p.targetId in club.persons && TrimSpace(p.value) != "" &&
      Current(p, club.persons[p.targetId].version) && SignFree(club, p.targetId, ToUpper(TrimSpace(p.value)))
    case AddContact =>
      "contact_method.write" in who.caps && ParseContactValue(p.value).Some? &&
      (if p.targetId != 0 then p.targetId in club.persons else target != 0 && target in club.persons)
    case UpdateContact =>
      "contact_method.write" in who.caps && p.targetId != 0 && p.targetId in club.contacts &&
      Current(p, club.contacts[p.targetId].version) && ParseContactValue(p.value).Some? &&
      ParseContactValue(p.value).value.kind == club.contacts[p.targetId].kind
    case ArchiveContact =>
      "contact_method.write" in who.caps && p.targetId != 0 && p.targetId in club.contacts &&
      Current(p, club.contacts[p.targetId].version)
    case SetPrimary =>
      "contact_method.write" in who.caps && p.targetId != 0 && p.targetId in club.contacts &&
      Current(p, club.contacts[p.targetId].version)
    case SetVisibility =>
      "sharing_pref.write.officer" in who.caps && p.targetId != 0 && p.targetId in club.contacts &&
      TrimSpace(p.value) in {"full_members", "hidden", "officers_only"}
    case SetSharing =>
      "sharing_pref.write.officer" in who.caps && p.targetId in club.persons && (SaysYes(p.value) || SaysNo(p.value))
    case _ => false
  }

  predicate SaysYes(raw: string) { exists v | v in {"true", "yes", "1"} :: EqualFold(TrimSpace(raw), v) }

  predicate SaysNo(raw: string) { exists v | v in {"false", "no", "0"} :: EqualFold(TrimSpace(raw), v) }

  lemma BoolSays(raw: string)
    ensures ParseBool(raw) == Some(true) <==> SaysYes(raw)
    ensures ParseBool(raw) == Some(false) <==> SaysNo(raw)
  {
    assert ToLower("true") == "true" && ToLower("yes") == "yes" && ToLower("1") == "1";
    assert ToLower("false") == "false" && ToLower("no") == "no" && ToLower("0") == "0";
    hide TrimSpace;
    var v := ToLower(TrimSpace(raw));
    assert ParseBool(raw) == Some(true) ==> v in {"true", "yes", "1"} && EqualFold(TrimSpace(raw), v);
    assert ParseBool(raw) == Some(false) ==> v in {"false", "no", "0"} && EqualFold(TrimSpace(raw), v);
  }

  lemma PersonApplies(club: Club, who: Principal, p: Proposal)
    requires p.operation in {SetDisplayName, SetCallSign}
    ensures ApplyPersonUpdate(club, who, p).Ok? <==> Applicable(club, who, 0, p)
  {
    hide TrimSpace, ToLower, ToUpper;
  }

  lemma ContactApplies(club: Club, who: Principal, target: Id, p: Proposal, at: Time)
    requires p.operation == AddContact || p.operation in ON_CONTACTS
    ensures ApplyItem(club, who, target, p, at).Ok? <==> Applicable(club, who, target, p)
  {
    hide ParseContactValue, NormalizeContact;
  }

  lemma PreferenceApplies(club: Club, who: Principal, target: Id, p: Proposal, at: Time)
    requires p.operation in {SetVisibility, SetSharing}
    ensures ApplyItem(club, who, target, p, at).Ok? <==> Applicable(club, who, target, p)
  {
    hide TrimSpace, ParseBool, SaysYes, SaysNo;
    BoolSays(p.value);
  }

  /** An approved item is applied exactly when its operation allows it, the officer may write there, and what it says can
      be read. */
  lemma AppliedExactly(club: Club, who: Principal, target: Id, p: Proposal, at: Time)
    ensures ApplyItem(club, who, target, p, at).Ok? <==> Applicable(club, who, target, p)
  {
    if p.operation in {SetDisplayName, SetCallSign} {
      hide Applicable, ApplyPersonUpdate;
      PersonApplies(club, who, p);
      PersonAlone(club, who, target, p);
    } else if p.operation == AddContact || p.operation in ON_CONTACTS {
      hide Applicable, ApplyItem;
      ContactApplies(club, who, target, p, at);
    } else if p.operation in {SetVisibility, SetSharing} {
      hide Applicable, ApplyItem;
      PreferenceApplies(club, who, target, p, at);
    }
  }

  lemma PersonAlone(club: Club, who: Principal, target: Id, p: Proposal)
    requires p.operation in {SetDisplayName, SetCallSign}
    ensures Applicable(club, who, target, p) <==> Applicable(club, who, 0, p)
  {
    hide TrimSpace, ToUpper;
  }

  // ---- One adapter at a time ----------------------------------------------

  /** Making a contact primary takes the mark off the person's other contacts, except archived ones, and
      touches nothing else. */
  lemma OnlyPrimary(club: Club, who: Principal, target: Id, p: Proposal, at: Time)
    requires p.operation == SetPrimary && ApplyItem(club, who, target, p, at).Ok?
    ensures var after := ApplyItem(club, who, target, p, at).value.club.contacts;
            p.targetId in club.contacts && after.Keys == club.contacts.Keys &&
            var person := club.contacts[p.targetId].person;
            after[p.targetId].primary &&
            (forall i | i in after && i != p.targetId && after[i].person == person && after[i].primary :: after[i].archived) &&
            (forall i | i in after && i != p.targetId ::
               after[i] == if club.contacts[i].person == person && club.contacts[i].primary && !club.contacts[i].archived
                           then club.contacts[i].(primary := false, version := club.contacts[i].version + 1)
                           else club.contacts[i]) &&
            after[p.targetId] == club.contacts[p.targetId].(primary := true, version := after[p.targetId].version)
  {
  }

  /** Archiving marks one contact, and it keeps everything else it says. */
  lemma Archived(club: Club, who: Principal, target: Id, p: Proposal, at: Time)
    requires p.operation == ArchiveContact && ApplyItem(club, who, target, p, at).Ok?
    ensures p.targetId in club.contacts &&
            var c := club.contacts[p.targetId];
            ApplyItem(club, who, target, p, at).value.club ==
              club.(contacts := club.contacts[p.targetId := c.(archived := true, version := c.version + 1)])
  {
  }

  /** An added contact belongs to the person the item names, or else the one the request is about, and
      reads back as the proposal does: the same kind, the same value, not primary, not archived. */
  lemma Added(club: Club, who: Principal, target: Id, p: Proposal, at: Time)
    requires p.operation == AddContact && FreshIds(club) && ApplyItem(club, who, target, p, at).Ok?
    ensures var r := ApplyItem(club, who, target, p, at).value;
            r.id !in club.contacts && r.id in r.club.contacts && r.kind == "contact_method" && r.version == 1 &&
            var c := r.club.contacts[r.id];
            c.person == (if p.targetId != 0 then p.targetId else target) && c.person in club.persons &&
            ParseContactValue(p.value) == Some(ContactValue(c.kind, c.raw)) && r.value == c.raw &&
            c.norm == NormalizeContact(c.kind, c.raw) && c.caption == "" &&
            c.postal == ["", "", "", "", "", ""] && !c.primary && !c.archived && c.version == 1
  {
    hide ParseContactValue, NormalizeContact;
  }

  /** A changed contact keeps everything but its value, what it is compared by and its version. */
  lemma ContactWritten(club: Club, who: Principal, target: Id, p: Proposal, at: Time)
    requires p.operation == UpdateContact && ApplyItem(club, who, target, p, at).Ok?
    ensures var r := ApplyItem(club, who, target, p, at).value;
            p.targetId in club.contacts && r.id == p.targetId && r.kind == "contact_method" &&
            var c := club.contacts[p.targetId];
            ParseContactValue(p.value) == Some(ContactValue(c.kind, r.value)) && r.version == c.version + 1 &&
            r.club == club.(contacts := club.contacts[p.targetId :=
              c.(raw := r.value, norm := NormalizeContact(c.kind, r.value), version := c.version + 1)])
  {
    hide ParseContactValue, NormalizeContact;
  }

  /** Two contacts of a kind are the same to the club when they agree up to case and outer spaces; telephone numbers
      when they have the same digits. */
  lemma SameContact(kind: string, a: string, b: string)
    ensures kind != "phone" ==>
              (NormalizeContact(kind, a) == NormalizeContact(kind, b) <==> EqualFold(TrimSpace(a), TrimSpace(b)))
    ensures NormalizeContact("phone", a) == Digits(a)
  {
    hide TrimSpace, Digits;
    DigitsOfTrimmed(a);
    DigitsOfLower(TrimSpace(a));
  }

  lemma {:induction false} DigitsOfLower(s: string)
    ensures Digits(ToLower(s)) == Digits(s)
  {
    if s != "" {
      DigitsOfLower(s[1..]);
      assert ToLower(s)[1..] == ToLower(s[1..]);
    }
  }

  lemma {:induction false} DigitsJoin(a: string, b: string)
    ensures Digits(a + b) == Digits(a) + Digits(b)
  {
    if a == "" {
      assert a + b == b;
    } else {
      assert (a + b)[1..] == a[1..] + b;
      DigitsJoin(a[1..], b);
    }
  }

  lemma {:induction false} NoDigits(s: string)
    requires forall k | 0 <= k < |s| :: IsSpace(s[k])
    ensures Digits(s) == ""
  {
    if s != "" {
      assert IsSpace(s[0]);
      NoDigits(s[1..]);
    }
  }

  /** What is trimmed off has no digits in it. */
  lemma DigitsOfTrimmed(s: string)
    ensures Digits(TrimSpace(s)) == Digits(s)
  {
    hide IsSpace, Digits, TrimSpace;
    var pre, mid, post := TrimParts(s);
    DigitsJoin(pre + mid, post);
    DigitsJoin(pre, mid);
    NoDigits(pre);
    NoDigits(post);
  }

  /** No two people have one call sign. */
  ghost predicate UniqueSigns(persons: map<Id, Person>) {
    forall i, j | i in persons && j in persons && i != j && persons[i].callSign == persons[j].callSign ::
      persons[i].callSign == ""
  }

  /** A new name or call sign is what was proposed, trimmed and, for the call sign and the sort name, in
      one case; and call signs stay unique. */
  lemma PersonWritten(club: Club, who: Principal, target: Id, p: Proposal, at: Time)
    requires p.operation in {SetDisplayName, SetCallSign} && ApplyItem(club, who, target, p, at).Ok?
    ensures var r := ApplyItem(club, who, target, p, at).value;
            r.id == p.targetId && r.id in r.club.persons && r.kind == "person" &&
            var b := r.club.persons[r.id];
            r.version == b.version && r.value != "" &&
            (if p.operation == SetDisplayName
             then b.displayName == r.value == TrimSpace(p.value) && b.sortName == ToLower(b.displayName)
             else b.callSign == r.value == ToUpper(TrimSpace(p.value))) &&
            (UniqueSigns(club.persons) ==> UniqueSigns(r.club.persons))
  {
    hide TrimSpace, ToLower;
    var r := ApplyPersonUpdate(club, who, p);
    assert r.Ok? && p.targetId in r.value.club.persons;
  }

  /** A preference is recorded as one more event: for the contact or the person the item names, as the text says, by
      the officer, as coming from a member's request. */
  lemma PreferenceRecorded(club: Club, who: Principal, target: Id, p: Proposal, at: Time)
    requires ApplyItem(club, who, target, p, at).Ok?
    ensures p.operation == SetVisibility ==>
              var r := ApplyItem(club, who, target, p, at).value;
              r.club == club.(visibility := club.visibility +
                              [VisibilityEvent(p.targetId, TrimSpace(p.value), "member_request", at, who.userId)]) &&
              r.id == |club.visibility| + 1 && r.value == TrimSpace(p.value) && r.kind == "contact_method_visibility_event"
    ensures p.operation == SetSharing ==>
              var r := ApplyItem(club, who, target, p, at).value;
              r.club == club.(sharing := club.sharing +
                              [SharingEvent(p.targetId, SaysYes(p.value), "member_request", at, who.userId,
                                            "Applied from reviewed member request.")]) &&
              r.id == |club.sharing| + 1 && r.value == (if SaysYes(p.value) then "true" else "false") &&
              r.kind == "acs_ares_sharing_event"
  {
    hide ParseBool, TrimSpace, SaysYes, SaysNo, ValidAudience;
    BoolSays(p.value);
  }

  /** What the item row is stamped with: the row that was written, at the version it now has where it has one, and
      the value as it was stored. */
  lemma Stamped(club: Club, who: Principal, target: Id, p: Proposal, at: Time)
    requires ApplyItem(club, who, target, p, at).Ok?
    ensures var c := ApplyItem(club, who, target, p, at).value;
            match p.operation
            case SetDisplayName =>
              c.kind == "person" && c.id == p.targetId && c.id in c.club.persons &&
              c.version == c.club.persons[c.id].version && c.value == c.club.persons[c.id].displayName
            case SetCallSign =>
              c.kind == "person" && c.id == p.targetId && c.id in c.club.persons &&
              c.version == c.club.persons[c.id].version && c.value == c.club.persons[c.id].callSign
            case AddContact =>
              c.kind == "contact_method" && c.id == club.nextContact && c.id in c.club.contacts &&
              c.version == c.club.contacts[c.id].version && c.value == c.club.contacts[c.id].raw
            case UpdateContact =>
              c.kind == "contact_method" && c.id == p.targetId && c.id in c.club.contacts &&
              c.version == c.club.contacts[c.id].version && c.value == c.club.contacts[c.id].raw
            case ArchiveContact =>
              c.kind == "contact_method" && c.id == p.targetId && c.id in c.club.contacts &&
              c.version == c.club.contacts[c.id].version && c.value == ""
            case SetPrimary => c.kind == "contact_method" && c.id == p.targetId && c.version == 0 && c.value == ""
            case SetVisibility =>
              c.kind == "contact_method_visibility_event" && c.id == |c.club.visibility| > 0 && c.version == 0 &&
              c.value == c.club.visibility[c.id - 1].audience
            case SetSharing =>
              c.kind == "acs_ares_sharing_event" && c.id == |c.club.sharing| > 0 && c.version == 0 &&
              c.value == (if c.club.sharing[c.id - 1].participates then "true" else "false")
            case _ => true
  {
    hide TrimSpace, ParseContactValue, ToUpper, ToLower, CallSignFree, NormalizeContact, ValidAudience, ParseBool;
  }

  /** A contact is read from its text up to the case of its kind and to spaces around either part. */
  lemma ContactIsRead(raw: string, kind: string, value: string)
    ensures ParseContactValue(raw) == Some(ContactValue(kind, value)) <==>
            ':' in raw && kind in {"email", "phone", "postal"} && value != "" &&
            EqualFold(TrimSpace(CutAt(raw, ':').before), kind) && TrimSpace(CutAt(raw, ':').after) == value
  {
    hide TrimSpace, CutAt;
    TrimmedCut(raw);
    assert ToLower("email") == "email" && ToLower("phone") == "phone" && ToLower("postal") == "postal";
  }

  /** Trimming a text first does not change what stands before and after its first colon, once that is trimmed. */
  lemma TrimmedCut(raw: string)
    ensures CutAt(TrimSpace(raw), ':').found <==> ':' in raw
    ensures ':' in raw ==>
              TrimSpace(CutAt(TrimSpace(raw), ':').before) == TrimSpace(CutAt(raw, ':').before) &&
              TrimSpace(CutAt(TrimSpace(raw), ':').after) == TrimSpace(CutAt(raw, ':').after)
  {
    hide IsSpace, CutAt, TrimSpace;
    var pre, mid, post := TrimParts(raw);
    ColonInside(raw, pre, mid, post);
    if ':' in raw {
      var d := CutAt(mid, ':');
      assert mid == d.before + [':'] + d.after;
      assert raw == (pre + d.before) + [':'] + (d.after + post);
      assert ':' !in pre + d.before;
      CutOfJoin(pre + d.before, ':', d.after + post);
      TrimOuter(pre, d.before, "");
      TrimOuter("", d.after, post);
      assert pre + d.before + "" == pre + d.before && "" + d.after + post == d.after + post;
    }
  }

  lemma ColonNoSpace()
    ensures !IsSpace(':')
  {
  }

  lemma TrimParts(raw: string) returns (pre: string, mid: string, post: string)
    ensures raw == pre + mid + post && mid == TrimSpace(raw) && Spaces(pre) && Spaces(post)
  {
    hide IsSpace;
    var i := SkipSpaces(raw, 0);
    var j := DropSpaces(raw, i, |raw|);
    pre, mid, post := raw[..i], raw[i..j], raw[j..];
  }

  lemma NoColon(s: string)
    requires Spaces(s)
    ensures ':' !in s
  {
    ColonNoSpace();
    hide IsSpace;
    assert forall k | 0 <= k < |s| :: s[k] != ':';
  }

  lemma ColonInside(raw: string, pre: string, mid: string, post: string)
    requires raw == pre + mid + post && Spaces(pre) && Spaces(post)
    ensures ':' in raw <==> ':' in mid
    ensures ':' !in pre && ':' !in post
  {
    hide IsSpace;
    NoColon(pre);
    NoColon(post);
  }

  /** A phone number is compared by its digits alone, so punctuation and spacing do not matter. */
  lemma {:induction false} DigitsOnly(a: string, sep: char, b: string)
    requires !IsDigit(sep)
    ensures Digits(a + [sep] + b) == Digits(a + b) == Digits(a) + Digits(b)
  {
    if a == "" {
      assert ("" + [sep] + b)[1..] == b && "" + b == b && Digits("") + Digits(b) == Digits(b);
    } else {
      assert (a + [sep] + b)[1..] == a[1..] + [sep] + b && (a + b)[1..] == a[1..] + b;
      DigitsOnly(a[1..], sep, b);
    }
  }

  /** What is stored beside a value to compare by: its digits for a phone, the value without outer
      spaces and in lower case otherwise; and normalizing again changes nothing. */
  lemma NormalizedOnce(kind: string, value: string)
    ensures kind == "phone" ==> AllDigits(NormalizeContact(kind, value))
    ensures NormalizeContact(kind, NormalizeContact(kind, value)) == NormalizeContact(kind, value)
  {
    hide TrimSpace, ToLower;
    var v := NormalizeContact(kind, value);
    if kind == "phone" {
      DigitsStay(v);
    } else {
      LowerTwice(TrimSpace(value));
    }
  }

  lemma LowerTwice(s: string)
    requires Trimmed(s)
    ensures TrimSpace(ToLower(s)) == ToLower(s) && ToLower(ToLower(s)) == ToLower(s)
  {
    assert Trimmed(ToLower(s));
    assert forall i | 0 <= i < |s| :: ToLower(ToLower(s))[i] == ToLower(s)[i];
  }

  lemma {:induction false} DigitsStay(s: string)
    requires AllDigits(s)
    ensures TrimSpace(s) == s && ToLower(s) == s && Digits(s) == s
  {
    DigitsAreDigits(s);
    assert forall i | 0 <= i < |s| :: ToLower(s)[i] == s[i];
    assert Trimmed(s);
  }

  lemma {:induction false} DigitsAreDigits(s: string)
    requires AllDigits(s)
    ensures Digits(s) == s
  {
    if s != "" {
      DigitsAreDigits(s[1..]);
      assert s == [s[0]] + s[1..];
    }
  }
}

/** The member's edit form: reading it, and turning it into the items of a change request. */
module EditForm {
  import opened Text
  import opened Tables
  import opened Adapters

  /** One contact method as its member sees it. */
  datatype Entry = Entry(id: Id, kind: string, value: string, sharedWith: string, version: nat)

  datatype Profile = Profile(personId: Id, displayName: string, callSign: string, personVersion: nat, baseType: string,
                             contacts: seq<Entry>)

  datatype Form = Form(displayName: string, callSign: string, contacts: map<Id, string>, shares: map<Id, string>,
      note: string)

  // ---- The directory choice ----------------------------------------------

  predicate DirectoryListable(kind: string) { kind == "email" || kind == "phone" }

  function EffectiveAudience(audience: string, kind: string, baseType: string): string {
    if audience != "" then audience
    else if baseType == "full" && DirectoryListable(kind) then FULL_MEMBERS
    else HIDDEN
  }

  function CurrentShareChoice(c: Entry, baseType: string): string {
    if EffectiveAudience(c.sharedWith, c.kind, baseType) == FULL_MEMBERS then FULL_MEMBERS else HIDDEN
  }

  // ---- Reading the form --------------------------------------------------

  type Post = map<string, string>

  function FormValue(post: Post, name: string): string { if name in post then post[name] else "" }

  function ContactField(id: Id): string { "contact_" + FormatNat(id) }
  function ShareField(id: Id): string { "share_" + FormatNat(id) }

  datatype Problem = BadChoice | NameBlank | CallSignBlank | ContactBlank

  predicate ChoiceOffered(chosen: string) { chosen == "" || chosen == FULL_MEMBERS || chosen == HIDDEN }

  predicate DistinctIds(contacts: seq<Entry>) {
    forall a, b | 0 <= a < b < |contacts| :: contacts[a].id != contacts[b].id
  }

  /** A record the form can be about: each contact once, of a kind the club stores. */
  predicate ProfileOk(p: Profile) {
    DistinctIds(p.contacts) && forall i | 0 <= i < |p.contacts| :: ContactKind(p.contacts[i].kind)
  }

  /** A form that says something about each field of the record, and blanks none. */
  predicate Answers(p: Profile, f: Form) {
    && f.displayName != "" && Trimmed(f.displayName)
    && Trimmed(f.callSign) && (f.callSign == "" ==> p.callSign == "")
    && (forall i | 0 <= i < |p.contacts| ::
          p.contacts[i].id in f.contacts && f.contacts[p.contacts[i].id] != "" && Trimmed(f.contacts[p.contacts[i].id]))
    && (forall i | 0 <= i < |p.contacts| ::
          if DirectoryListable(p.contacts[i].kind)
          then p.contacts[i].id in f.shares && f.shares[p.contacts[i].id] in {FULL_MEMBERS, HIDDEN}
          else p.contacts[i].id !in f.shares)
  }

  function Ids(contacts: seq<Entry>): set<Id> { set i | 0 <= i < |contacts| :: contacts[i].id }

  /** No field of the form is about anything but a contact of the record. */
  predicate OnlyAbout(contacts: seq<Entry>, f: Form) {
    f.contacts.Keys <= Ids(contacts) && f.shares.Keys <= Ids(contacts)
  }

  function ShareOf(post: Post, c: Entry, baseType: string): string {
    if FormValue(post, ShareField(c.id)) == "" then CurrentShareChoice(c, baseType) else FormValue(post, ShareField(c.id))
  }

  /** One contact of the record looked up in the post. */
  function ReadEntry(form: Form, post: Post, c: Entry, baseType: string): Form {
    var form := form.(contacts := form.contacts[c.id := TrimSpace(FormValue(post, ContactField(c.id)))]);
    if DirectoryListable(c.kind) then form.(shares := form.shares[c.id := ShareOf(post, c, baseType)]) else form
  }

  function ReadEntries(form: Form, post: Post, cs: seq<Entry>, baseType: string): Form {
    if cs == [] then form
    else ReadEntry(ReadEntries(form, post, cs[..|cs| - 1], baseType), post, cs[|cs| - 1], baseType)
  }

  /** The form a post amounts to for this record. */
  function FormFrom(post: Post, p: Profile): Form {
    var form := Form(TrimSpace(FormValue(post, "display_name")), TrimSpace(FormValue(post, "call_sign")), map[], map[],
                     TrimSpace(FormValue(post, "note")));
    ReadEntries(form, post, p.contacts, p.baseType)
  }

  predicate ChoicesOffered(post: Post, cs: seq<Entry>) {
    forall i | 0 <= i < |cs| && DirectoryListable(cs[i].kind) :: ChoiceOffered(FormValue(post, ShareField(cs[i].id)))
  }

  /** readMemberEditForm: the contacts of the record are looked up in the post, never the reverse. A
      form is accepted exactly when every choice is one that was offered and nothing is blanked. */
  method ReadMemberEditForm(post: Post, p: Profile) returns (form: Form, problem: Option<Problem>)
    requires ProfileOk(p)
    ensures problem.None? <==>
              ChoicesOffered(post, p.contacts) && FormFrom(post, p).displayName != "" &&
              (FormFrom(post, p).callSign == "" ==> p.callSign == "") &&
              forall i | 0 <= i < |p.contacts| :: TrimSpace(FormValue(post, ContactField(p.contacts[i].id))) != ""
    ensures problem.None? ==> form == FormFrom(post, p) && Answers(p, form) && OnlyAbout(p.contacts, form)
  {
    hide TrimSpace, FormValue, ContactField, ShareField, ContactKind, EffectiveAudience, OnlyAbout, Answers, ShareOf,
      DirectoryListable, ReadEntries, ChoicesOffered;
    form := Form(TrimSpace(FormValue(post, "display_name")), TrimSpace(FormValue(post, "call_sign")), map[], map[],
                 TrimSpace(FormValue(post, "note")));
    ghost var blank := form;
    var cs := p.contacts;
    var offered;
    form, offered := ReadContacts(form, post, cs, p.baseType);
    if !offered {
      return form, Some(BadChoice);
    }
    ReadEntriesAt(blank, post, cs, p.baseType);
    if form.displayName == "" {
      return form, Some(NameBlank);
    }
    if form.callSign == "" && p.callSign != "" {
      return form, Some(CallSignBlank);
    }
    for k := 0 to |cs|
      invariant forall i | 0 <= i < k :: form.contacts[cs[i].id] != ""
    {
      if form.contacts[cs[k].id] == "" {
        return form, Some(ContactBlank);
      }
    }
    FormAnswers(post, p);
    return form, None;
  }

  /** What reading one contact comes to, case by case. */
  lemma ReadEntryIs(form: Form, post: Post, c: Entry, baseType: string)
    ensures var read := form.(contacts := form.contacts[c.id := TrimSpace(FormValue(post, ContactField(c.id)))]);
            var chosen := FormValue(post, ShareField(c.id));
            ReadEntry(form, post, c, baseType) ==
              (if !DirectoryListable(c.kind) then read
               else if chosen == "" then read.(shares := read.shares[c.id := CurrentShareChoice(c, baseType)])
               else read.(shares := read.shares[c.id := chosen])) &&
            (ChoiceOffered(chosen) <==> chosen == "" || chosen == FULL_MEMBERS || chosen == HIDDEN)
  {
    hide TrimSpace, FormValue, ContactField, ShareField, CurrentShareChoice;
  }

  /** The loop over the contacts of the record. */
  method ReadContacts(blank: Form, post: Post, cs: seq<Entry>, baseType: string) returns (form: Form, offered: bool)
    ensures offered <==> ChoicesOffered(post, cs)
    ensures offered ==> form == ReadEntries(blank, post, cs, baseType)
  {
    hide TrimSpace, FormValue, ContactField, ShareField, CurrentShareChoice, DirectoryListable, ReadEntry, ChoiceOffered;
    form := blank;
    for k := 0 to |cs|
      invariant form == ReadEntries(blank, post, cs[..k], baseType) && ChoicesOffered(post, cs[..k])
    {
      assert cs[..k + 1][..k] == cs[..k];
      var c := cs[k];
      ReadEntryIs(form, post, c, baseType);
      form := form.(contacts := form.contacts[c.id := TrimSpace(FormValue(post, ContactField(c.id)))]);
      if !DirectoryListable(c.kind) {
        continue;
      }
      var chosen := FormValue(post, ShareField(c.id));
      if chosen == "" {
        form := form.(shares := form.shares[c.id := CurrentShareChoice(c, baseType)]);
      } else if chosen == FULL_MEMBERS || chosen == HIDDEN {
        form := form.(shares := form.shares[c.id := chosen]);
      } else {
        return form, false;
      }
    }
    assert cs[..|cs|] == cs;
    return form, true;
  }

  /** What the form says about one contact. */
  predicate EntryRead(r: Form, post: Post, c: Entry, baseType: string) {
    c.id in r.contacts && r.contacts[c.id] == TrimSpace(FormValue(post, ContactField(c.id))) &&
    if DirectoryListable(c.kind) then c.id in r.shares && r.shares[c.id] == ShareOf(post, c, baseType)
    else c.id !in r.shares
  }

  lemma ReadOne(form: Form, post: Post, c: Entry, baseType: string, others: seq<Entry>)
    requires forall i | 0 <= i < |others| :: others[i].id != c.id && EntryRead(form, post, others[i], baseType)
    requires c.id !in form.shares
    ensures var r := ReadEntry(form, post, c, baseType);
            EntryRead(r, post, c, baseType) && forall i | 0 <= i < |others| :: EntryRead(r, post, others[i], baseType)
  {
    hide TrimSpace, FormValue, ContactField, ShareOf, DirectoryListable;
  }

  /** What ends up in the form: a value for each contact, a choice for each the directory can list. */
  lemma {:induction false} ReadEntriesAt(form: Form, post: Post, cs: seq<Entry>, baseType: string)
    requires DistinctIds(cs) && form.contacts == map[] && form.shares == map[]
    ensures var r := ReadEntries(form, post, cs, baseType);
            r == form.(contacts := r.contacts, shares := r.shares) && OnlyAbout(cs, r) &&
            forall i | 0 <= i < |cs| :: EntryRead(r, post, cs[i], baseType)
  {
    hide TrimSpace, FormValue, ContactField, ShareOf, DirectoryListable, EntryRead;
    if cs != [] {
      var n := |cs| - 1;
      ReadEntriesAt(form, post, cs[..n], baseType);
      assert Ids(cs) == Ids(cs[..n]) + {cs[n].id} by { IdsSplit(cs); }
      ReadOne(ReadEntries(form, post, cs[..n], baseType), post, cs[n], baseType, cs[..n]);
      assert forall i | 0 <= i < n :: cs[i] == cs[..n][i];
    }
  }

  lemma IdsSplit(cs: seq<Entry>)
    requires cs != []
    ensures Ids(cs) == Ids(cs[..|cs| - 1]) + {cs[|cs| - 1].id}
    ensures DistinctIds(cs) ==> cs[|cs| - 1].id !in Ids(cs[..|cs| - 1])
  {
    var n := |cs| - 1;
    assert forall i | 0 <= i < n :: cs[i] == cs[..n][i];
  }

  lemma FormAnswers(post: Post, p: Profile)
    requires ProfileOk(p) && ChoicesOffered(post, p.contacts)
    requires FormFrom(post, p).displayName != "" && (FormFrom(post, p).callSign == "" ==> p.callSign == "")
    requires forall i | 0 <= i < |p.contacts| :: TrimSpace(FormValue(post, ContactField(p.contacts[i].id))) != ""
    ensures Answers(p, FormFrom(post, p)) && OnlyAbout(p.contacts, FormFrom(post, p))
  {
    hide TrimSpace, FormValue, ContactField, ShareField, ContactKind, EffectiveAudience, OnlyAbout, ReadEntries, Trimmed;
    var form := Form(TrimSpace(FormValue(post, "display_name")), TrimSpace(FormValue(post, "call_sign")), map[], map[],
                     TrimSpace(FormValue(post, "note")));
    ReadEntriesAt(form, post, p.contacts, p.baseType);
  }

  /** What a post says: the name, the call sign and the note as typed, up to outer spaces; for each contact of the record
      the value in its own field; and for each the directory can list the choice in its own field, or, when none
      was posted, the one in effect. */
  lemma FormSays(post: Post, p: Profile, i: nat)
    requires ProfileOk(p) && i < |p.contacts|
    ensures var f, c := FormFrom(post, p), p.contacts[i];
            f.displayName == TrimSpace(FormValue(post, "display_name")) &&
            f.callSign == TrimSpace(FormValue(post, "call_sign")) && f.note == TrimSpace(FormValue(post, "note")) &&
            c.id in f.contacts && f.contacts[c.id] == TrimSpace(FormValue(post, "contact_" + FormatNat(c.id))) &&
            var chosen := FormValue(post, "share_" + FormatNat(c.id));
            (c.id in f.shares <==> c.kind == "email" || c.kind == "phone") &&
            (c.id in f.shares && chosen != "" ==> f.shares[c.id] == chosen) &&
            (c.id in f.shares && chosen == "" ==> f.shares[c.id] == CurrentShareChoice(c, p.baseType))
  {
    hide TrimSpace, FormatNat, FormValue, ContactKind, CurrentShareChoice, ReadEntries;
    var form := Form(TrimSpace(FormValue(post, "display_name")), TrimSpace(FormValue(post, "call_sign")), map[], map[],
                     TrimSpace(FormValue(post, "note")));
    ReadEntriesAt(form, post, p.contacts, p.baseType);
  }

  // ---- The diff ----------------------------------------------------------

  function NameItem(p: Profile, f: Form): seq<Proposal> {
    if f.displayName != p.displayName
    then [Proposal(SetDisplayName, f.displayName, "person", p.personId, p.personVersion, false)] else []
  }

  function SignItem(p: Profile, f: Form): seq<Proposal> {
    if !EqualFold(f.callSign, p.callSign)
    then [Proposal(SetCallSign, f.callSign, "person", p.personId, p.personVersion, false)] else []
  }

  function ContactItem(c: Entry, f: Form): seq<Proposal> {
    if c.id in f.contacts && f.contacts[c.id] != c.value
    then [Proposal(UpdateContact, c.kind + ":" + f.contacts[c.id], "contact_method", c.id, c.version, false)] else []
  }

  function ShareItem(c: Entry, baseType: string, f: Form): seq<Proposal> {
    if c.id in f.shares && f.shares[c.id] != CurrentShareChoice(c, baseType)
    then [Proposal(SetVisibility, f.shares[c.id], "contact_method", c.id, c.version, false)] else []
  }

  function ContactItems(cs: seq<Entry>, f: Form): seq<Proposal> {
    if cs == [] then [] else ContactItems(cs[..|cs| - 1], f) + ContactItem(cs[|cs| - 1], f)
  }

  function ShareItems(cs: seq<Entry>, baseType: string, f: Form): seq<Proposal> {
    if cs == [] then [] else ShareItems(cs[..|cs| - 1], baseType, f) + ShareItem(cs[|cs| - 1], baseType, f)
  }

  function Diff(p: Profile, f: Form): seq<Proposal> {
    NameItem(p, f) + SignItem(p, f) + ContactItems(p.contacts, f) + ShareItems(p.contacts, p.baseType, f)
  }

  lemma Regroup(a: seq<Proposal>, b: seq<Proposal>, c: seq<Proposal>)
    ensures a + b + c == a + (b + c)
  {
  }

  /** memberEditItems. */
  method MemberEditItems(p: Profile, f: Form) returns (items: seq<Proposal>)
    ensures items == Diff(p, f)
  {
    hide EqualFold, CurrentShareChoice;
    items := [];
    if f.displayName != p.displayName {
      items := items + [Proposal(SetDisplayName, f.displayName, "person", p.personId, p.personVersion, false)];
    }
    if !EqualFold(f.callSign, p.callSign) {
      items := items + [Proposal(SetCallSign, f.callSign, "person", p.personId, p.personVersion, false)];
    }
    assert items == NameItem(p, f) + SignItem(p, f);
    items := AddContactItems(items, p.contacts, f);
    items := AddShareItems(items, p.contacts, p.baseType, f);
  }

  /** The loop over the contacts' values. */
  method AddContactItems(before: seq<Proposal>, cs: seq<Entry>, f: Form) returns (items: seq<Proposal>)
    ensures items == before + ContactItems(cs, f)
  {
    items := before;
    for k := 0 to |cs|
      invariant items == before + ContactItems(cs[..k], f)
    {
      hide ContactItem;
      assert cs[..k + 1][..k] == cs[..k];
      var c := cs[k];
      Regroup(before, ContactItems(cs[..k], f), ContactItem(c, f));
      ContactItemIs(c, f);
      if c.id !in f.contacts || f.contacts[c.id] == c.value {
        continue;
      }
      items := items + [Proposal(UpdateContact, c.kind + ":" + f.contacts[c.id], "contact_method", c.id, c.version, false)];
    }
    assert cs[..|cs|] == cs;
  }

  lemma ContactItemIs(c: Entry, f: Form)
    ensures c.id !in f.contacts || f.contacts[c.id] == c.value ==> ContactItem(c, f) == []
    ensures c.id in f.contacts && f.contacts[c.id] != c.value ==>
              ContactItem(c, f) ==
              [Proposal(UpdateContact, c.kind + ":" + f.contacts[c.id], "contact_method", c.id, c.version, false)]
  {
  }

  /** The loop over the directory choices. */
  method AddShareItems(before: seq<Proposal>, cs: seq<Entry>, baseType: string, f: Form) returns (items: seq<Proposal>)
    ensures items == before + ShareItems(cs, baseType, f)
  {
    items := before;
    for k := 0 to |cs|
      invariant items == before + ShareItems(cs[..k], baseType, f)
    {
      hide ShareItem, CurrentShareChoice;
      assert cs[..k + 1][..k] == cs[..k];
      var c := cs[k];
      Regroup(before, ShareItems(cs[..k], baseType, f), ShareItem(c, baseType, f));
      ShareItemIs(c, baseType, f);
      if c.id !in f.shares || f.shares[c.id] == CurrentShareChoice(c, baseType) {
        continue;
      }
      items := items + [Proposal(SetVisibility, f.shares[c.id], "contact_method", c.id, c.version, false)];
    }
    assert cs[..|cs|] == cs;
  }

  lemma ShareItemIs(c: Entry, baseType: string, f: Form)
    ensures c.id !in f.shares || f.shares[c.id] == CurrentShareChoice(c, baseType) ==> ShareItem(c, baseType, f) == []
    ensures c.id in f.shares && f.shares[c.id] != CurrentShareChoice(c, baseType) ==>
              ShareItem(c, baseType, f) ==
              [Proposal(SetVisibility, f.shares[c.id], "contact_method", c.id, c.version, false)]
  {
  }

  // ---- What an item stands for --------------------------------------------

  /** plainProposedValue: the value without its kind, where the operation encodes one. The other
      operation the source names here is not one a request can carry. */
  function PlainProposedValue(op: Operation, raw: string): string {
    if op != UpdateContact then raw
    else
      var c := CutAt(raw, ':');
      if !c.found || TrimSpace(c.after) == "" then raw
      else if ContactKind(ToLower(TrimSpace(c.before))) then TrimSpace(c.after)
      else raw
  }

  /** The text shown for a contact item is the value the member typed, and it is also what the review
      path reads out of the item. */
  lemma PlainOfEncoded(kind: string, typed: string)
    requires ContactKind(kind) && typed != "" && Trimmed(typed)
    ensures PlainProposedValue(UpdateContact, kind + ":" + typed) == typed
    ensures ParseContactValue(kind + ":" + typed) == Some(ContactValue(kind, typed))
  {
    hide TrimSpace, CutAt;
    var raw := kind + [':'] + typed;
    assert raw == kind + ":" + typed;
    assert raw[0] == kind[0] && raw[|raw| - 1] == typed[|typed| - 1];
    KindIsPlain(kind);
    assert Trimmed(raw) by { KindStart(kind); }
    CutOfJoin(kind, ':', typed);
  }

  lemma KindIsPlain(kind: string)
    requires ContactKind(kind)
    ensures ':' !in kind && TrimSpace(kind) == kind && ToLower(kind) == kind
  {
    hide TrimSpace;
    KindStart(kind);
  }

  lemma KindStart(kind: string)
    requires ContactKind(kind)
    ensures !IsSpace(kind[0]) && Trimmed(kind)
  {
  }

  /** Approving a contact item without touching the text box applies the proposal itself, except when
      the value, on its own, reads as a kind and a value: then that reading is applied instead. */
  lemma UntouchedAmendment(p: Proposal, kind: string, typed: string)
    requires ContactKind(kind) && typed != "" && Trimmed(typed)
    requires p.operation == UpdateContact && p.value == kind + ":" + typed
    ensures AmendedProposal(p, PlainProposedValue(UpdateContact, p.value)) == p.value <==> ParseContactValue(typed).None?
  {
    hide ParseContactValue, PlainProposedValue, ContactKind, Trimmed;
    PlainOfEncoded(kind, typed);
    assert |kind + ":" + typed| > |typed|;
  }

  // ---- The patch ---------------------------------------------------------

  datatype Field = Name | Sign | Value(id: Id) | Share(id: Id) | NoField

  function FieldOf(p: Proposal): Field {
    match p.operation
    case SetDisplayName => Name
    case SetCallSign => Sign
    case UpdateContact => Value(p.targetId)
    case SetVisibility => Share(p.targetId)
    case _ => NoField
  }

  predicate DistinctFields(items: seq<Proposal>) {
    forall a, b | 0 <= a < b < |items| :: FieldOf(items[a]) != FieldOf(items[b])
  }

  function PatchEntry(c: Entry, item: Proposal): Entry {
    if FieldOf(item) == Value(c.id) then c.(value := PlainProposedValue(item.operation, item.value),
        version := c.version + 1)
    else if FieldOf(item) == Share(c.id) then c.(sharedWith := PlainProposedValue(item.operation, item.value))
    else c
  }

  function PatchEntries(cs: seq<Entry>, item: Proposal): (r: seq<Entry>)
    ensures |r| == |cs|
    ensures forall i | 0 <= i < |cs| :: r[i] == PatchEntry(cs[i], item)
  {
    seq(|cs|, i requires 0 <= i < |cs| => PatchEntry(cs[i], item))
  }

  /** One item, written on the values of the record; a call sign is stored in upper case. */
  function PatchOne(p: Profile, item: Proposal): Profile {
    var plain := PlainProposedValue(item.operation, item.value);
    var p := p.(contacts := PatchEntries(p.contacts, item));
    match FieldOf(item)
    case Name => p.(displayName := plain, personVersion := p.personVersion + 1)
    case Sign => p.(callSign := ToUpper(plain), personVersion := p.personVersion + 1)
    case _ => p
  }

  function Patch(p: Profile, items: seq<Proposal>): Profile
    decreases |items|
  {
    if items == [] then p else Patch(PatchOne(p, items[0]), items[1..])
  }

  /** The form reads the way a submitted one does. */
  predicate Shows(p: Profile, f: Form) {
    && p.displayName == f.displayName && EqualFold(p.callSign, f.callSign)
    && (forall i | 0 <= i < |p.contacts| ::
          p.contacts[i].id in f.contacts && p.contacts[i].value == f.contacts[p.contacts[i].id])
    && (forall i | 0 <= i < |p.contacts| && DirectoryListable(p.contacts[i].kind) ::
          p.contacts[i].id in f.shares && CurrentShareChoice(p.contacts[i], p.baseType) == f.shares[p.contacts[i].id])
  }
}

/** The items of an edit form are a diff that applying them undoes, in any order. */
module EditPatch {
  import opened Text
  import opened Tables
  import opened Adapters
  import opened EditForm

  function Plain(x: Proposal): string { PlainProposedValue(x.operation, x.value) }

  predicate Untouched(items: seq<Proposal>, f: Field) { forall x | x in items :: FieldOf(x) != f }

  /** What a sequence of items that touch different fields makes of each field: the item's value
      where there is one, the old value where there is none. */
  predicate Patched(p: Profile, items: seq<Proposal>, q: Profile) {
    && q.personId == p.personId && q.baseType == p.baseType && |q.contacts| == |p.contacts|
    && (Untouched(items, Name) ==> q.displayName == p.displayName)
    && (Untouched(items, Sign) ==> q.callSign == p.callSign)
    && (forall x | x in items && FieldOf(x) == Name :: q.displayName == Plain(x))
    && (forall x | x in items && FieldOf(x) == Sign :: q.callSign == ToUpper(Plain(x)))
    && (forall i | 0 <= i < |p.contacts| :: PatchedEntry(p.contacts[i], items, q.contacts[i]))
  }

  predicate PatchedEntry(c: Entry, items: seq<Proposal>, d: Entry) {
    && d.id == c.id && d.kind == c.kind
    && (Untouched(items, Value(c.id)) ==> d.value == c.value)
    && (Untouched(items, Share(c.id)) ==> d.sharedWith == c.sharedWith)
    && (forall x | x in items && FieldOf(x) == Value(c.id) :: d.value == Plain(x))
    && (forall x | x in items && FieldOf(x) == Share(c.id) :: d.sharedWith == Plain(x))
  }

  lemma {:induction false} PatchGives(p: Profile, items: seq<Proposal>)
    requires DistinctFields(items)
    ensures Patched(p, items, Patch(p, items))
    decreases |items|
  {
    hide PlainProposedValue, ToUpper, DistinctFields, PatchedEntry, PatchEntry, Patched;
    if items == [] {
      NothingPatched(p);
    } else {
      DistinctTail(items);
      PatchGives(PatchOne(p, items[0]), items[1..]);
      PatchStep(p, items, Patch(p, items));
    }
  }

  lemma NothingPatched(p: Profile)
    ensures Patched(p, [], p)
  {
  }

  lemma DistinctTail(items: seq<Proposal>)
    requires items != [] && DistinctFields(items)
    ensures DistinctFields(items[1..]) && Untouched(items[1..], FieldOf(items[0]))
  {
    hide FieldOf;
  }

  lemma PatchStep(p: Profile, items: seq<Proposal>, q: Profile)
    requires items != [] && Untouched(items[1..], FieldOf(items[0])) && Patched(PatchOne(p, items[0]), items[1..], q)
    ensures Patched(p, items, q)
  {
    hide PlainProposedValue, ToUpper;
    assert forall x :: x in items <==> x == items[0] || x in items[1..];
    assert forall f :: Untouched(items, f) <==> FieldOf(items[0]) != f && Untouched(items[1..], f);
    forall i | 0 <= i < |p.contacts| ensures PatchedEntry(p.contacts[i], items, q.contacts[i]) {
      assert PatchedEntry(PatchEntry(p.contacts[i], items[0]), items[1..], q.contacts[i]);
    }
  }

  // ---- The items of a diff -----------------------------------------------

  lemma {:induction false} InContactItems(cs: seq<Entry>, f: Form, x: Proposal)
    ensures x in ContactItems(cs, f) <==> exists i | 0 <= i < |cs| :: x in ContactItem(cs[i], f)
  {
    hide ContactItem;
    if cs != [] {
      var n := |cs| - 1;
      InContactItems(cs[..n], f, x);
      assert forall i | 0 <= i < n :: cs[..n][i] == cs[i];
    }
  }

  lemma {:induction false} InShareItems(cs: seq<Entry>, baseType: string, f: Form, x: Proposal)
    ensures x in ShareItems(cs, baseType, f) <==> exists i | 0 <= i < |cs| :: x in ShareItem(cs[i], baseType, f)
  {
    hide ShareItem;
    if cs != [] {
      var n := |cs| - 1;
      InShareItems(cs[..n], baseType, f, x);
      assert forall i | 0 <= i < n :: cs[..n][i] == cs[i];
    }
  }

  lemma DistinctJoin(a: seq<Proposal>, b: seq<Proposal>)
    requires DistinctFields(a) && DistinctFields(b)
    requires forall x, y | x in a && y in b :: FieldOf(x) != FieldOf(y)
    ensures DistinctFields(a + b)
  {
    hide FieldOf;
    var c := a + b;
    forall i, j | 0 <= i < j < |c| ensures FieldOf(c[i]) != FieldOf(c[j]) {
      if j < |a| {
        assert c[i] == a[i] && c[j] == a[j];
      } else if i >= |a| {
        assert c[i] == b[i - |a|] && c[j] == b[j - |a|];
      } else {
        assert c[i] in a && c[j] in b;
      }
    }
  }

  lemma {:induction false} ContactItemsDistinct(cs: seq<Entry>, f: Form)
    requires DistinctIds(cs)
    ensures DistinctFields(ContactItems(cs, f))
    ensures forall x | x in ContactItems(cs, f) :: x.operation == UpdateContact && x.targetId in Ids(cs)
  {
    if cs != [] {
      var n := |cs| - 1;
      ContactItemsDistinct(cs[..n], f);
      IdsSplit(cs);
      DistinctJoin(ContactItems(cs[..n], f), ContactItem(cs[n], f));
    }
  }

  lemma {:induction false} ShareItemsDistinct(cs: seq<Entry>, baseType: string, f: Form)
    requires DistinctIds(cs)
    ensures DistinctFields(ShareItems(cs, baseType, f))
    ensures forall x | x in ShareItems(cs, baseType, f) :: x.operation == SetVisibility && x.targetId in Ids(cs)
  {
    hide CurrentShareChoice;
    if cs != [] {
      var n := |cs| - 1;
      ShareItemsDistinct(cs[..n], baseType, f);
      IdsSplit(cs);
      DistinctJoin(ShareItems(cs[..n], baseType, f), ShareItem(cs[n], baseType, f));
    }
  }

  /** There is at most one item per field of the record. */
  lemma DiffDistinct(p: Profile, f: Form)
    requires ProfileOk(p)
    ensures DistinctFields(Diff(p, f))
  {
    hide EqualFold, ContactItems, ShareItems, DistinctFields;
    ContactItemsDistinct(p.contacts, f);
    ShareItemsDistinct(p.contacts, p.baseType, f);
    SinglesDistinct(p, f);
    DistinctJoin(NameItem(p, f), SignItem(p, f));
    DistinctJoin(NameItem(p, f) + SignItem(p, f), ContactItems(p.contacts, f));
    DistinctJoin(NameItem(p, f) + SignItem(p, f) + ContactItems(p.contacts, f), ShareItems(p.contacts, p.baseType, f));
  }

  lemma SinglesDistinct(p: Profile, f: Form)
    ensures DistinctFields(NameItem(p, f)) && DistinctFields(SignItem(p, f))
  {
    hide EqualFold;
  }

  /** Reordering keeps the items and that they touch different fields. */
  lemma Reordered(items: seq<Proposal>, diff: seq<Proposal>)
    requires multiset(items) == multiset(diff) && DistinctFields(diff)
    ensures forall x :: x in items <==> x in diff
    ensures DistinctFields(items)
  {
    hide FieldOf;
    assert forall x :: x in items <==> x in multiset(items);
    assert forall x :: x in diff <==> x in multiset(diff);
    forall a, b | 0 <= a < b < |items| ensures FieldOf(items[a]) != FieldOf(items[b]) {
      if FieldOf(items[a]) == FieldOf(items[b]) {
        assert items[a] in items && items[b] in items;
        var i :| 0 <= i < |diff| && diff[i] == items[a];
        var j :| 0 <= j < |diff| && diff[j] == items[b];
        assert i == j;
        Twice(items, a, b);
        Once(diff, i);
        assert false;
      }
    }
  }

  lemma Twice(s: seq<Proposal>, a: nat, b: nat)
    requires a < b < |s| && s[a] == s[b]
    ensures multiset(s)[s[a]] >= 2
  {
    assert s == s[..b] + [s[b]] + s[b + 1..];
    assert s[..b][a] == s[a] && s[a] in multiset(s[..b]);
  }

  lemma Once(s: seq<Proposal>, i: nat)
    requires i < |s| && DistinctFields(s)
    ensures multiset(s)[s[i]] == 1
  {
    assert s == s[..i] + [s[i]] + s[i + 1..];
    assert s[i] !in s[..i] && s[i] !in s[i + 1..];
  }

  // ---- What a form files ---------------------------------------------------

  /** The form files an item of this operation on this record. */
  predicate FilesOn(p: Profile, f: Form, op: Operation, id: Id) {
    exists x | x in Diff(p, f) :: x.operation == op && x.targetId == id
  }

  /** A name is proposed when it differs, a call sign when it differs by more than case: as typed, for the person
      row at the version it was shown at. */
  lemma PersonFiled(p: Profile, f: Form)
    ensures FilesOn(p, f, SetDisplayName, p.personId) <==> f.displayName != p.displayName
    ensures FilesOn(p, f, SetCallSign, p.personId) <==> !EqualFold(f.callSign, p.callSign)
    ensures forall x | x in Diff(p, f) && x.operation == SetDisplayName ::
              x == Proposal(SetDisplayName, f.displayName, "person", p.personId, p.personVersion, false)
    ensures forall x | x in Diff(p, f) && x.operation == SetCallSign ::
              x == Proposal(SetCallSign, f.callSign, "person", p.personId, p.personVersion, false)
  {
    hide EqualFold, CurrentShareChoice;
    forall x | x in Diff(p, f) && x.operation in {SetDisplayName, SetCallSign}
      ensures x in NameItem(p, f) || x in SignItem(p, f)
    {
      InContactItems(p.contacts, f, x);
      InShareItems(p.contacts, p.baseType, f, x);
    }
    if f.displayName != p.displayName {
      assert NameItem(p, f)[0] in Diff(p, f);
    }
    if !EqualFold(f.callSign, p.callSign) {
      assert SignItem(p, f)[0] in Diff(p, f);
    }
  }

  /** A contact the form has a value for is proposed when the value differs: with its kind, at its version. */
  lemma ValueFiled(p: Profile, f: Form, i: nat)
    requires ProfileOk(p) && i < |p.contacts| && p.contacts[i].id in f.contacts
    ensures var c := p.contacts[i];
            (FilesOn(p, f, UpdateContact, c.id) <==> f.contacts[c.id] != c.value) &&
            forall x | x in Diff(p, f) && x.operation == UpdateContact && x.targetId == c.id ::
              x == Proposal(UpdateContact, c.kind + ":" + f.contacts[c.id], "contact_method", c.id, c.version, false)
  {
    hide Diff, ContactKind;
    var c := p.contacts[i];
    forall x | FieldOf(x) == Value(c.id) ensures x in Diff(p, f) <==> x in ContactItem(c, f) {
      ValueInDiff(p, f, i, x);
    }
    if f.contacts[c.id] != c.value {
      assert ContactItem(c, f)[0] in ContactItem(c, f) && FieldOf(ContactItem(c, f)[0]) == Value(c.id);
    }
  }

  /** A directory choice the form answers is proposed when it changes what the directory shows: with no decision on
      record, an address or a number of a full member is listed and anything else is not; with one, it is
      listed when that says so. */
  lemma ShareFiled(p: Profile, f: Form, i: nat)
    requires ProfileOk(p) && i < |p.contacts| && p.contacts[i].id in f.shares
    requires f.shares[p.contacts[i].id] in {"full_members", "hidden"}
    ensures var c := p.contacts[i];
            var listed := if c.sharedWith != "" then c.sharedWith == "full_members"
                          else p.baseType == "full" && (c.kind == "email" || c.kind == "phone");
            (FilesOn(p, f, SetVisibility, c.id) <==> listed != (f.shares[c.id] == "full_members")) &&
            forall x | x in Diff(p, f) && x.operation == SetVisibility && x.targetId == c.id ::
              x == Proposal(SetVisibility, f.shares[c.id], "contact_method", c.id, c.version, false)
  {
    hide Diff, ContactKind;
    var c := p.contacts[i];
    assert "full_members" != "hidden" by { assert |"full_members"| != |"hidden"|; }
    forall x | FieldOf(x) == Share(c.id) ensures x in Diff(p, f) <==> x in ShareItem(c, p.baseType, f) {
      ShareInDiff(p, f, i, x);
    }
    if ShareItem(c, p.baseType, f) != [] {
      assert ShareItem(c, p.baseType, f)[0] in ShareItem(c, p.baseType, f);
      assert FieldOf(ShareItem(c, p.baseType, f)[0]) == Share(c.id);
    }
  }

  /** A form files nothing else. */
  lemma NothingElseFiled(p: Profile, f: Form, x: Proposal)
    requires x in Diff(p, f)
    ensures x.operation in {SetDisplayName, SetCallSign, UpdateContact, SetVisibility}
    ensures x.operation == UpdateContact ==>
              exists i | 0 <= i < |p.contacts| :: p.contacts[i].id == x.targetId && x.targetId in f.contacts
    ensures x.operation == SetVisibility ==>
              exists i | 0 <= i < |p.contacts| :: p.contacts[i].id == x.targetId && x.targetId in f.shares
  {
    hide EqualFold, CurrentShareChoice, ContactItems, ShareItems;
    InContactItems(p.contacts, f, x);
    InShareItems(p.contacts, p.baseType, f, x);
  }

  // ---- The theorem -------------------------------------------------------

  /** The items about the value of a contact are those its own comparison gives. */
  lemma ValueInDiff(p: Profile, f: Form, i: nat, x: Proposal)
    requires ProfileOk(p) && i < |p.contacts| && FieldOf(x) == Value(p.contacts[i].id)
    ensures x in Diff(p, f) <==> x in ContactItem(p.contacts[i], f)
  {
    hide EqualFold, CurrentShareChoice, ContactKind, ContactItems, ShareItems;
    InContactItems(p.contacts, f, x);
    InShareItems(p.contacts, p.baseType, f, x);
  }

  lemma ShareInDiff(p: Profile, f: Form, i: nat, x: Proposal)
    requires ProfileOk(p) && i < |p.contacts| && FieldOf(x) == Share(p.contacts[i].id)
    ensures x in Diff(p, f) <==> x in ShareItem(p.contacts[i], p.baseType, f)
  {
    hide EqualFold, CurrentShareChoice, ContactKind, ContactItems, ShareItems;
    InContactItems(p.contacts, f, x);
    InShareItems(p.contacts, p.baseType, f, x);
  }

  lemma ValueTouched(p: Profile, f: Form, i: nat)
    requires ProfileOk(p) && Answers(p, f) && i < |p.contacts|
    ensures var c := p.contacts[i];
            if f.contacts[c.id] == c.value then Untouched(Diff(p, f), Value(c.id))
            else exists x | x in Diff(p, f) && FieldOf(x) == Value(c.id) :: Plain(x) == f.contacts[c.id]
  {
    hide Diff, PlainProposedValue, ContactKind, ContactItem, ParseContactValue, Trimmed;
    var c := p.contacts[i];
    ContactItemIs(c, f);
    forall x | FieldOf(x) == Value(c.id) ensures x in Diff(p, f) <==> x in ContactItem(c, f) {
      ValueInDiff(p, f, i, x);
    }
    if f.contacts[c.id] != c.value {
      var typed := f.contacts[c.id];
      var x := Proposal(UpdateContact, c.kind + ":" + typed, "contact_method", c.id, c.version, false);
      PlainOfEncoded(c.kind, typed);
      assert x in ContactItem(c, f);
      assert x in Diff(p, f) && FieldOf(x) == Value(c.id);
    }
  }

  lemma ShareTouched(p: Profile, f: Form, i: nat)
    requires ProfileOk(p) && Answers(p, f) && i < |p.contacts| && DirectoryListable(p.contacts[i].kind)
    ensures var c := p.contacts[i];
            if f.shares[c.id] == CurrentShareChoice(c, p.baseType) then Untouched(Diff(p, f), Share(c.id))
            else exists x | x in Diff(p, f) && FieldOf(x) == Share(c.id) :: Plain(x) == f.shares[c.id]
  {
    hide Diff, PlainProposedValue, ContactKind, CurrentShareChoice;
    var c := p.contacts[i];
    forall x | FieldOf(x) == Share(c.id) ensures x in Diff(p, f) <==> x in ShareItem(c, p.baseType, f) {
      ShareInDiff(p, f, i, x);
    }
    if f.shares[c.id] != CurrentShareChoice(c, p.baseType) {
      var x := ShareItem(c, p.baseType, f)[0];
      assert Plain(x) == x.value by { PlainOfOther(x); }
      assert x in Diff(p, f) && FieldOf(x) == Share(c.id);
    }
  }

  lemma PlainOfOther(x: Proposal)
    requires x.operation != UpdateContact
    ensures Plain(x) == x.value
  {
  }

  /** Applying the items of a form in any order gives a record that shows what the form said. */
  lemma PatchUndoesDiff(p: Profile, f: Form, items: seq<Proposal>)
    requires ProfileOk(p) && Answers(p, f) && multiset(items) == multiset(Diff(p, f))
    ensures Shows(Patch(p, items), f)
  {
    hide PlainProposedValue, EqualFold, CurrentShareChoice, ContactKind, Diff, PatchedEntry, Patch, FieldOf, DistinctFields;
    DiffDistinct(p, f);
    Reordered(items, Diff(p, f));
    PatchGives(p, items);
    var q := Patch(p, items);
    NameTouched(p, f);
    SignTouched(p, f);
    EqualFoldSymmetric(f.callSign, p.callSign);
    forall i | 0 <= i < |q.contacts| ensures EntryShows(q.contacts[i], p.baseType, f) {
      EntryUndone(p, f, i, items, q.contacts[i]);
    }
  }

  predicate EntryShows(c: Entry, baseType: string, f: Form) {
    c.id in f.contacts && c.value == f.contacts[c.id] &&
    (DirectoryListable(c.kind) ==> c.id in f.shares && CurrentShareChoice(c, baseType) == f.shares[c.id])
  }

  lemma EntryUndone(p: Profile, f: Form, i: nat, items: seq<Proposal>, d: Entry)
    requires ProfileOk(p) && Answers(p, f) && i < |p.contacts| && PatchedEntry(p.contacts[i], items, d)
    requires forall x :: x in items <==> x in Diff(p, f)
    ensures EntryShows(d, p.baseType, f)
  {
    hide PlainProposedValue, ContactKind, Diff, FieldOf;
    ValueTouched(p, f, i);
    if DirectoryListable(p.contacts[i].kind) {
      ShareTouched(p, f, i);
    }
  }

  lemma NameTouched(p: Profile, f: Form)
    ensures if f.displayName == p.displayName then Untouched(Diff(p, f), Name)
            else exists x | x in Diff(p, f) && FieldOf(x) == Name :: Plain(x) == f.displayName
  {
    hide EqualFold, PlainProposedValue, CurrentShareChoice;
    forall x | x in Diff(p, f) && FieldOf(x) == Name ensures x in NameItem(p, f) {
      InContactItems(p.contacts, f, x);
      InShareItems(p.contacts, p.baseType, f, x);
    }
    if f.displayName != p.displayName {
      var x := NameItem(p, f)[0];
      PlainOfOther(x);
      assert x in Diff(p, f) && FieldOf(x) == Name;
    }
  }

  lemma SignTouched(p: Profile, f: Form)
    requires Trimmed(f.callSign)
    ensures if EqualFold(f.callSign, p.callSign) then Untouched(Diff(p, f), Sign)
            else exists x | x in Diff(p, f) && FieldOf(x) == Sign :: Plain(x) == f.callSign
    ensures EqualFold(ToUpper(f.callSign), f.callSign)
  {
    hide EqualFold, PlainProposedValue, CurrentShareChoice;
    forall x | x in Diff(p, f) && FieldOf(x) == Sign ensures x in SignItem(p, f) {
      InContactItems(p.contacts, f, x);
      InShareItems(p.contacts, p.baseType, f, x);
    }
    ToUpperTrimmed(f.callSign);
    EqualFoldSymmetric(f.callSign, ToUpper(f.callSign));
    if !EqualFold(f.callSign, p.callSign) {
      var x := SignItem(p, f)[0];
      PlainOfOther(x);
      assert x in Diff(p, f) && FieldOf(x) == Sign;
    }
  }

  lemma EqualFoldSymmetric(a: string, b: string)
    ensures EqualFold(a, b) <==> EqualFold(b, a)
  {
  }

  /** An item in the diff is a field that does not show what the form says. */
  lemma ItemIsDifference(p: Profile, f: Form, x: Proposal)
    requires ProfileOk(p) && Answers(p, f) && x in Diff(p, f)
    ensures !Shows(p, f)
  {
    hide EqualFold, CurrentShareChoice, ContactKind;
    EqualFoldSymmetric(f.callSign, p.callSign);
    InContactItems(p.contacts, f, x);
    InShareItems(p.contacts, p.baseType, f, x);
  }

  /** A record has nothing to propose exactly when it already shows what the form says; so sending the
      same form again, once its items are applied, proposes nothing. */
  lemma NoDiffIffShown(p: Profile, f: Form)
    requires ProfileOk(p) && Answers(p, f)
    ensures Diff(p, f) == [] <==> Shows(p, f)
  {
    hide EqualFold, CurrentShareChoice, ContactKind, Diff;
    EqualFoldSymmetric(f.callSign, p.callSign);
    if Diff(p, f) != [] {
      ItemIsDifference(p, f, Diff(p, f)[0]);
    } else {
      NameTouched(p, f);
      SignTouched(p, f);
      forall i | 0 <= i < |p.contacts| ensures EntryShows(p.contacts[i], p.baseType, f) {
        ValueTouched(p, f, i);
        if DirectoryListable(p.contacts[i].kind) {
          ShareTouched(p, f, i);
        }
      }
    }
  }

  /** The form of the patched record, sent again, proposes nothing. */
  lemma ResubmitProposesNothing(p: Profile, f: Form, items: seq<Proposal>)
    requires ProfileOk(p) && Answers(p, f) && multiset(items) == multiset(Diff(p, f))
    ensures Diff(Patch(p, items), f) == []
  {
    hide Diff, EqualFold, CurrentShareChoice, ContactKind, Patch, Shows;
    DiffDistinct(p, f);
    Reordered(items, Diff(p, f));
    PatchGives(p, items);
    PatchUndoesDiff(p, f, items);
    assert ProfileOk(Patch(p, items)) && Answers(Patch(p, items), f) by { StillAnswers(p, f, items, Patch(p, items)); }
    NoDiffIffShown(Patch(p, items), f);
  }

  lemma StillAnswers(p: Profile, f: Form, items: seq<Proposal>, q: Profile)
    requires ProfileOk(p) && Answers(p, f) && Patched(p, items, q) && Shows(q, f)
    ensures ProfileOk(q) && Answers(q, f)
  {
    hide PlainProposedValue, CurrentShareChoice, ContactKind, Untouched, ToUpper, Trimmed;
    assert forall i | 0 <= i < |q.contacts| :: PatchedEntry(p.contacts[i], items, q.contacts[i]);
    assert f.callSign == "" ==> q.callSign == "";
  }
}

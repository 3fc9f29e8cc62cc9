/** The review policy, the member-record writes an approval may make, and how an approved item
    is mapped to one of them. */
module Adapters {
  import opened Text
  import opened Tables

  datatype Adapter =
    | PersonUpdate | ContactCreate | ContactUpdate | ContactArchive | ContactSetPrimary | ContactVisibility
    | SharingPreference | NoAdapterKind

  function AdapterOf(op: Operation): Adapter {
    match op
    case SetDisplayName => PersonUpdate
    case SetCallSign => PersonUpdate
    case AddContact => ContactCreate
    case UpdateContact => ContactUpdate
    case ArchiveContact => ContactArchive
    case SetPrimary => ContactSetPrimary
    case SetVisibility => ContactVisibility
    case SetSharing => SharingPreference
    case AddRelationship => NoAdapterKind
    case CorrectRelationship => NoAdapterKind
    case Other => NoAdapterKind
  }

  predicate CanApply(op: Operation) { AdapterOf(op) != NoAdapterKind }

  predicate RequiresTargetId(op: Operation) {
    AdapterOf(op) in {ContactUpdate, ContactArchive, ContactSetPrimary, ContactVisibility}
  }

  predicate RequiresValue(op: Operation) {
    match AdapterOf(op)
    case ContactArchive => false
    case ContactSetPrimary => false
    case NoAdapterKind => op != Other
    case _ => true
  }

  /** EffectiveSensitivity: the submitter may raise the class, never lower it. */
  predicate Sensitive(op: Operation, declared: bool) {
    declared || op in {SetCallSign, SetVisibility, SetSharing}
  }

  const FULL_MEMBERS := "full_members"
  const HIDDEN := "hidden"
  const OFFICERS_ONLY := "officers_only"

  predicate ValidAudience(a: string) { a == FULL_MEMBERS || a == HIDDEN || a == OFFICERS_ONLY }

  // ---- The kind:value encoding of a contact ------------------------------

  datatype ContactValue = ContactValue(kind: string, value: string)

  predicate ContactKind(kind: string) { kind == "email" || kind == "phone" || kind == "postal" }

  function ParseContactValue(raw: string): (r: Option<ContactValue>)
    ensures r.Some? ==> ContactKind(r.value.kind) && r.value.value != "" && Trimmed(r.value.value)
  {
    var c := CutAt(TrimSpace(raw), ':');
    var kind := ToLower(TrimSpace(c.before));
    var value := TrimSpace(c.after);
    if !c.found || !ContactKind(kind) || value == "" then None else Some(ContactValue(kind, value))
  }

  /** amendedProposal: a plain amendment takes over the kind of the value it amends. */
  function AmendedProposal(p: Proposal, amended: string): string {
    if AdapterOf(p.operation) != ContactCreate && AdapterOf(p.operation) != ContactUpdate then amended
    else if ParseContactValue(amended).Some? then amended
    else
      match ParseContactValue(p.value)
      case None => amended
      case Some(v) => v.kind + ":" + amended
  }

  function Digits(s: string): (r: string)
    ensures AllDigits(r)
  {
    if s == "" then "" else (if IsDigit(s[0]) then [s[0]] else "") + Digits(s[1..])
  }

  function NormalizeContact(kind: string, value: string): string {
    var v := ToLower(TrimSpace(value));
    if kind == "phone" then Digits(v) else v
  }

  function ParseBool(raw: string): Option<bool> {
    var v := ToLower(TrimSpace(raw));
    if v == "true" || v == "yes" || v == "1" then Some(true)
    else if v == "false" || v == "no" || v == "0" then Some(false)
    else None
  }

  // ---- Writes of the member service --------------------------------------

  const MEMBER_REQUEST := "member_request"

  /** The unique index on persons.call_sign, which leaves NULL alone. */
  predicate CallSignFree(persons: map<Id, Person>, id: Id, callSign: string) {
    callSign == "" || forall other | other in persons && other != id :: persons[other].callSign != callSign
  }

  /** UpdatePerson writes every editable column, whatever its caller filled in. */
  function UpdatePerson(club: Club, who: Principal, id: Id, version: nat, displayName: string, sortName: string,
                        callSign: string, licenseClass: string, examiner: bool): Result<Club>
  {
    if "member.update" !in who.caps then Err(Forbidden)
    else if id !in club.persons || club.persons[id].version != version then Err(Stale)
    else if !CallSignFree(club.persons, id, callSign) then Err(Constraint)
    else
      var row := Person(displayName, sortName, callSign, ToLower(TrimSpace(licenseClass)), examiner, version + 1);
      Ok(club.(persons := club.persons[id := row]))
  }

  function CreateContactMethod(club: Club, who: Principal, row: Contact): Result<Club> {
    if "contact_method.write" !in who.caps then Err(Forbidden)
    else if row.person !in club.persons then Err(Constraint)
    else Ok(club.(contacts := club.contacts[club.nextContact := row], nextContact := club.nextContact + 1))
  }

  /** The guarded contact updates: one row, only at the version the caller holds. */
  function UpdateContactRow(club: Club, who: Principal, id: Id, version: nat, row: Contact): Result<Club> {
    if "contact_method.write" !in who.caps then Err(Forbidden)
    else if id !in club.contacts then Err(NotFound)
    else if club.contacts[id].version != version then Err(Stale)
    else Ok(club.(contacts := club.contacts[id := row.(version := version + 1)]))
  }

  /** ClearPrimaryForPerson on one row, then SetPrimary on the chosen one. */
  function PrimaryRow(c: Contact, id: Id, chosen: Id, person: Id): Contact {
    var swept := if c.person == person && c.primary && !c.archived then c.(primary := false,
        version := c.version + 1) else c;
    if id == chosen then swept.(primary := true, version := swept.version + 1) else swept
  }

  function MakePrimary(club: Club, who: Principal, id: Id): Result<Club> {
    if "contact_method.write" !in who.caps then Err(Forbidden)
    else if id !in club.contacts then Err(NotFound)
    else
      var person := club.contacts[id].person;
      Ok(club.(contacts := map i | i in club.contacts :: PrimaryRow(club.contacts[i], i, id, person)))
  }

  function SetDirectoryVisibility(club: Club, who: Principal, id: Id, audience: string, at: Time): Result<Club> {
    if "sharing_pref.write.officer" !in who.caps then Err(Forbidden)
    else if !ValidAudience(audience) then Err(BadValue)
    else if id !in club.contacts then Err(Constraint)
    else Ok(club.(visibility := club.visibility + [VisibilityEvent(id, audience, MEMBER_REQUEST, at, who.userId)]))
  }

  function SetAcsAresSharing(club: Club, who: Principal, person: Id, participates: bool, at: Time): Result<Club> {
    if "sharing_pref.write.officer" !in who.caps then Err(Forbidden)
    else if person !in club.persons then Err(Constraint)
    else
      var event := SharingEvent(person, participates, MEMBER_REQUEST, at, who.userId,
          "Applied from reviewed member request.");
      Ok(club.(sharing := club.sharing + [event]))
  }

  // ---- Applying one item -------------------------------------------------

  datatype Change = Change(club: Club, kind: string, id: Id, version: nat, value: string)

  /** Puts the written records together with what the item row is stamped with. */
  function Changed(written: Result<Club>, kind: string, id: Id, version: nat, value: string): Result<Change> {
    match written
    case Err(e) => Err(e)
    case Ok(club) => Ok(Change(club, kind, id, version, value))
  }

  predicate VersionMoved(p: Proposal, current: nat) {
    p.targetVersion != 0 && p.targetVersion != current
  }

  /** applyItem: the one write an operation maps to. requestTarget is the person the request is about. */
  function ApplyItem(club: Club, who: Principal, requestTarget: Id, p: Proposal, at: Time): Result<Change> {
    if RequiresTargetId(p.operation) && p.targetId == 0 then Err(TargetRequired)
    else
      match AdapterOf(p.operation)
      case PersonUpdate => ApplyPersonUpdate(club, who, p)
      case ContactCreate => ApplyContactCreate(club, who, requestTarget, p)
      case ContactUpdate => ApplyContactUpdate(club, who, p)
      case ContactArchive =>
        if p.targetId !in club.contacts then Err(TargetRequired)
        else
          var c := club.contacts[p.targetId];
          if VersionMoved(p, c.version) then Err(Stale)
          else Changed(UpdateContactRow(club, who, p.targetId, c.version, c.(archived := true)),
                       "contact_method", p.targetId, c.version + 1, "")
      case ContactSetPrimary =>
        if p.targetId !in club.contacts then Err(TargetRequired)
        else if VersionMoved(p, club.contacts[p.targetId].version) then Err(Stale)
        else Changed(MakePrimary(club, who, p.targetId), "contact_method", p.targetId, 0, "")
      case ContactVisibility =>
        var audience := TrimSpace(p.value);
        if !ValidAudience(audience) then Err(BadValue)
        else Changed(SetDirectoryVisibility(club, who, p.targetId, audience, at),
                     "contact_method_visibility_event", |club.visibility| + 1, 0, audience)
      case SharingPreference =>
        (match ParseBool(p.value)
         case None => Err(BadValue)
         case Some(participates) =>
           Changed(SetAcsAresSharing(club, who, p.targetId, participates, at), "acs_ares_sharing_event",
                   |club.sharing| + 1, 0, if participates then "true" else "false"))
      case NoAdapterKind => Err(NoAdapter)
  }

  /** License class and examiner flag are not carried over: the parameters leave them at their zero
      values, and the update writes those. */
  function ApplyPersonUpdate(club: Club, who: Principal, p: Proposal): Result<Change> {
    if p.targetId == 0 || p.targetId !in club.persons then Err(TargetRequired)
    else
      var row := club.persons[p.targetId];
      var value := TrimSpace(p.value);
      if VersionMoved(p, row.version) then Err(Stale)
      else if value == "" then Err(BadValue)
      else if p.operation == SetDisplayName then
        Changed(UpdatePerson(club, who, p.targetId, row.version, value, ToLower(value), row.callSign, "", false),
                "person", p.targetId, row.version + 1, value)
      else
        Changed(UpdatePerson(club, who, p.targetId, row.version, row.displayName, row.sortName, ToUpper(value), "", false),
                "person", p.targetId, row.version + 1, ToUpper(value))
  }

  function ApplyContactCreate(club: Club, who: Principal, requestTarget: Id, p: Proposal): Result<Change> {
    match ParseContactValue(p.value)
    case None => Err(BadValue)
    case Some(v) =>
      var person := if p.targetId != 0 then p.targetId else requestTarget;
      if person == 0 then Err(TargetRequired)
      else
        var row := Contact(person, v.kind, "", v.value, NormalizeContact(v.kind, v.value), false, false,
                           ["", "", "", "", "", ""], 1);
        Changed(CreateContactMethod(club, who, row), "contact_method", club.nextContact, 1, v.value)
  }

  function ApplyContactUpdate(club: Club, who: Principal, p: Proposal): Result<Change> {
    if p.targetId !in club.contacts then Err(TargetRequired)
    else
      var row := club.contacts[p.targetId];
      if VersionMoved(p, row.version) then Err(Stale)
      else
        match ParseContactValue(p.value)
        case None => Err(BadValue)
        case Some(v) =>
          if v.kind != row.kind then Err(BadValue)
          else
            var written := row.(raw := v.value, norm := NormalizeContact(v.kind, v.value));
            Changed(UpdateContactRow(club, who, p.targetId, row.version, written),
                    "contact_method", p.targetId, row.version + 1, v.value)
  }
}

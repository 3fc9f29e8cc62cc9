/** The operation registry and the middleware that enforces what it declares. */
module Gate {
  import opened Text

  const PUBLIC := "*public*"
  const EXPLICIT := "explicit-confirm"
  const NONE := "none"

  datatype Meta = Meta(capability: string, confirmation: string, auditAction: string)

  type Registry = map<string, Meta>

  datatype Principal = Principal(userId: nat, caps: set<string>)

  /** A request, and the status its handler would answer with. */
  datatype Request = Request(opId: string, principal: Option<Principal>, confirmHeader: string, handled: int)

  datatype Event = Event(action: string, outcome: string, reason: string, actor: nat, status: int)

  /** OutcomeForStatus: 401, 403 and 429 are denials, other errors failures. */
  function OutcomeForStatus(status: int): string {
    if status == 401 || status == 403 || status == 429 then "denied" else if status >= 400 then "failure" else "success"
  }

  predicate Confirmed(header: string) {
    var v := ToLower(TrimSpace(header));
    v == "true" || v == "yes" || v == "1"
  }

  function Actor(p: Option<Principal>): nat { if p.Some? then p.value.userId else 0 }

  function DenialAction(meta: Meta, opId: string): string {
    if meta.auditAction != "" then meta.auditAction
    else if opId != "" then "authz.denied." + opId
    else "authz.denied"
  }

  datatype Reply = Reply(ran: bool, status: int, events: seq<Event>)

  class Api {
    const catalog: set<string>
    var metas: Registry
    var log: seq<Event>

    constructor (catalog: set<string>)
      ensures this.catalog == catalog && metas == map[] && log == []
    {
      this.catalog, metas, log := catalog, map[], [];
    }

    /** Register: accepted is false where the program would stop at start-up. */
    method Register(opId: string, meta: Meta) returns (accepted: bool)
      modifies this`metas
      ensures accepted <==> Declarable(catalog, meta)
      ensures accepted <==> meta.capability != "" && (meta.capability == "*public*" || meta.capability in catalog) &&
                            meta.confirmation in {"none", "explicit-confirm"}
      ensures metas == if accepted then old(metas)[opId := meta] else old(metas)
    {
      if meta.capability == "" {
        return false;
      }
      if meta.capability != PUBLIC && meta.capability !in catalog {
        return false;
      }
      if meta.confirmation != NONE && meta.confirmation != EXPLICIT {
        return false;
      }
      metas := metas[opId := meta];
      return true;
    }

    /** VerifyAll over the operations of each path; an operation without an id is passed over. */
    method VerifyAll(paths: seq<seq<string>>) returns (missing: seq<string>)
      ensures forall id :: id in missing <==> Served(paths, id) && id != "" && id !in metas
    {
      missing := [];
      for i := 0 to |paths|
        invariant forall id :: id in missing <==> Served(paths[..i], id) && id != "" && id !in metas
      {
        assert forall id :: Served(paths[..i + 1], id) <==> Served(paths[..i], id) || id in paths[i] by {
          forall id { ServedNext(paths, i, id); }
        }
        for j := 0 to |paths[i]|
          invariant forall id :: id in missing <==>
                      (Served(paths[..i], id) || id in paths[i][..j]) && id != "" && id !in metas
        {
          assert paths[i][..j + 1] == paths[i][..j] + [paths[i][j]];
          if paths[i][j] == "" {
            continue;
          }
          if paths[i][j] !in metas {
            missing := missing + [paths[i][j]];
          }
        }
        assert paths[i][..|paths[i]|] == paths[i];
      }
      assert paths[..|paths|] == paths;
    }

    method RecordEvent(action: string, outcome: string, reason: string, actor: nat, status: int)
      modifies this`log
      ensures log == if action == "" then old(log) else old(log) + [Event(action, outcome, reason, actor, status)]
    {
      if action != "" {
        log := log + [Event(action, outcome, reason, actor, status)];
      }
    }

    /** AuthzMiddleware around one request. */
    method Serve(q: Request) returns (ran: bool, status: int)
      modifies this`log
      ensures var r := Handle(catalog, metas, q); ran == r.ran && status == r.status && log == old(log) + r.events
    {
      hide Confirmed;
      if q.opId !in metas {
        RecordEvent("operation.unregistered", "denied", "no_operation_metadata", 0, 403);
        return false, 403;
      }
      var meta := metas[q.opId];
      if meta.capability != PUBLIC {
        if q.principal.None? {
          RecordEvent(DenialAction(meta, q.opId), "denied", "unauthenticated", Actor(q.principal), 401);
          return false, 401;
        }
        if meta.capability !in catalog || meta.capability !in q.principal.value.caps {
          RecordEvent(DenialAction(meta, q.opId), "denied", "missing_capability", Actor(q.principal), 403);
          return false, 403;
        }
      }
      if meta.confirmation == EXPLICIT && !Confirmed(q.confirmHeader) {
        RecordEvent(DenialAction(meta, q.opId), "denied", "missing_confirmation", Actor(q.principal), CONFIRMATION_STATUS);
        return false, CONFIRMATION_STATUS;
      }
      ran, status := true, q.handled;
      RecordEvent(meta.auditAction, OutcomeForStatus(status), "", Actor(q.principal), status);
    }
  }

  const CONFIRMATION_STATUS: int := 428

  predicate Declarable(catalog: set<string>, meta: Meta) {
    meta.capability != "" && (meta.capability == PUBLIC || meta.capability in catalog) &&
    (meta.confirmation == NONE || meta.confirmation == EXPLICIT)
  }

  predicate Served(paths: seq<seq<string>>, id: string) { exists i | 0 <= i < |paths| :: id in paths[i] }

  lemma ServedNext(paths: seq<seq<string>>, i: nat, id: string)
    requires i < |paths|
    ensures Served(paths[..i + 1], id) <==> Served(paths[..i], id) || id in paths[i]
  {
    if Served(paths[..i], id) {
      var k :| 0 <= k < i && id in paths[..i][k];
      assert id in paths[..i + 1][k];
    }
    if id in paths[i] {
      assert id in paths[..i + 1][i];
    }
    if Served(paths[..i + 1], id) {
      var k :| 0 <= k < i + 1 && id in paths[..i + 1][k];
      if k < i { assert id in paths[..i][k]; }
    }
  }

  /** Why a request is refused before its handler, as status and reason; None when it goes through. */
  function Refusal(catalog: set<string>, metas: Registry, q: Request): Option<(int, string)> {
    if q.opId !in metas then Some((403, "no_operation_metadata"))
    else
      var meta := metas[q.opId];
      if meta.capability != PUBLIC && q.principal.None? then Some((401, "unauthenticated"))
      else if meta.capability != PUBLIC && (meta.capability !in catalog || meta.capability !in q.principal.value.caps)
      then Some((403, "missing_capability"))
      else if meta.confirmation == EXPLICIT && !Confirmed(q.confirmHeader)
      then Some((CONFIRMATION_STATUS, "missing_confirmation"))
      else None
  }

  function Handle(catalog: set<string>, metas: Registry, q: Request): Reply {
    match Refusal(catalog, metas, q)
    case Some((status, reason)) =>
      var action := if q.opId in metas then DenialAction(metas[q.opId], q.opId) else "operation.unregistered";
      Reply(false, status, [Event(action, "denied", reason, if q.opId in metas then Actor(q.principal) else 0, status)])
    case None =>
      var action := metas[q.opId].auditAction;
      Reply(true, q.handled, if action == "" then []
                             else [Event(action, OutcomeForStatus(q.handled), "", Actor(q.principal), q.handled)])
  }

  // ---- Declaration is enforcement ----------------------------------------

  /** What can be registered: an operation open to everybody or to a capability there is, with one of two levels of
      confirmation. */
  lemma DeclarableMeans(catalog: set<string>, meta: Meta)
    ensures Declarable(catalog, meta) <==>
            meta.capability != "" && (meta.capability == "*public*" || meta.capability in catalog) &&
            meta.confirmation in {"none", "explicit-confirm"}
  {
  }

  /** What Register lets into the registry. */
  predicate Declared(catalog: set<string>, metas: Registry) { forall id | id in metas :: Declarable(catalog, metas[id]) }

  /** A handler runs exactly when its operation is declared, its capability is public or held, and an
      explicit confirmation it asks for is there. */
  lemma RunsExactlyWhenDeclared(catalog: set<string>, metas: Registry, q: Request)
    requires Declared(catalog, metas)
    ensures Handle(catalog, metas, q).ran <==>
            q.opId in metas &&
            (metas[q.opId].capability == PUBLIC || (q.principal.Some? &&
                metas[q.opId].capability in q.principal.value.caps)) &&
            (metas[q.opId].confirmation == EXPLICIT ==> Confirmed(q.confirmHeader))
  {
    hide Confirmed;
  }

  /** The caller holds what the operation asks for, or it asks for nothing. */
  predicate Permitted(catalog: set<string>, metas: Registry, q: Request) {
    q.opId in metas &&
    var c := metas[q.opId].capability;
    c == "*public*" || (q.principal.Some? && c in catalog && c in q.principal.value.caps)
  }

  /** The header says yes: one of three spellings, up to case, between outer spaces. */
  predicate SaysYes(header: string) {
    exists v | v in {"true", "yes", "1"} :: EqualFold(TrimSpace(header), v)
  }

  lemma SaysYesIs(header: string)
    ensures SaysYes(header) <==> Confirmed(header)
    ensures !SaysYes("")
  {
    assert ToLower("true") == "true" && ToLower("yes") == "yes" && ToLower("1") == "1";
    assert TrimSpace("") == "" && ToLower("") == "" && "" !in {"true", "yes", "1"};
    hide TrimSpace;
    var v := ToLower(TrimSpace(header));
    assert Confirmed(header) ==> v in {"true", "yes", "1"} && ToLower(v) == v;
    assert Confirmed(header) ==> EqualFold(TrimSpace(header), v);
  }

  /** An operation that asks for an explicit confirmation runs, for a caller it is open to, exactly when the
      header says yes; a missing header is refused with 428, and the refusal is on the log. */
  lemma ConfirmationIsAsked(catalog: set<string>, metas: Registry, q: Request)
    requires Permitted(catalog, metas, q) && metas[q.opId].confirmation == "explicit-confirm"
    ensures var r := Handle(catalog, metas, q);
            (r.ran <==> SaysYes(q.confirmHeader)) && (q.confirmHeader == "" ==> !r.ran) &&
            (!r.ran ==> r.status == 428 && |r.events| == 1 && r.events[0].outcome == "denied" &&
                        r.events[0].reason == "missing_confirmation" && r.events[0].status == 428)
  {
    hide Confirmed, SaysYes, TrimSpace, DenialAction, OutcomeForStatus;
    SaysYesIs(q.confirmHeader);
  }

  /** Every other operation that is open to the caller runs whatever the header says. */
  lemma UnconfirmedRuns(catalog: set<string>, metas: Registry, q: Request)
    requires Permitted(catalog, metas, q) && metas[q.opId].confirmation != "explicit-confirm"
    ensures Handle(catalog, metas, q).ran && Handle(catalog, metas, q).status == q.handled
  {
    hide OutcomeForStatus;
  }

  /** What the log says of a call that is not open to the caller: who, which status and why, under the
      operation's own audit action or a name made of its id. */
  lemma DeniedAs(catalog: set<string>, metas: Registry, q: Request)
    requires !Permitted(catalog, metas, q)
    ensures var r := Handle(catalog, metas, q);
            !r.ran && |r.events| == 1 && r.events[0].outcome == "denied" && r.events[0].status == r.status &&
            if q.opId !in metas then
              r.status == 403 && r.events[0].action == "operation.unregistered" && r.events[0].actor == 0 &&
              r.events[0].reason == "no_operation_metadata"
            else
              r.events[0].action == (if metas[q.opId].auditAction != "" then metas[q.opId].auditAction
                                     else if q.opId != "" then "authz.denied." + q.opId else "authz.denied") &&
              if q.principal.None? then
                r.status == 401 && r.events[0].reason == "unauthenticated" && r.events[0].actor == 0
              else
                r.status == 403 && r.events[0].reason == "missing_capability" &&
                r.events[0].actor == q.principal.value.userId
  {
    hide Confirmed, OutcomeForStatus;
  }

  /** What the log says of a call that ran: its action, its status, and how that counts. */
  lemma HandledAs(catalog: set<string>, metas: Registry, q: Request)
    requires Handle(catalog, metas, q).ran && q.opId in metas && metas[q.opId].auditAction != ""
    ensures var r := Handle(catalog, metas, q);
            r.status == q.handled && |r.events| == 1 && r.events[0].action == metas[q.opId].auditAction &&
            r.events[0].status == q.handled && r.events[0].reason == "" &&
            r.events[0].actor == (if q.principal.Some? then q.principal.value.userId else 0) &&
            r.events[0].outcome == (if q.handled in {401, 403, 429} then "denied" else if q.handled < 400 then "success"
                                    else "failure")
  {
    hide Confirmed;
  }

  function Log(catalog: set<string>, metas: Registry, qs: seq<Request>): seq<Event> {
    if qs == [] then [] else Log(catalog, metas, qs[..|qs| - 1]) + Handle(catalog, metas, qs[|qs| - 1]).events
  }

  function Refusals(catalog: set<string>, metas: Registry, qs: seq<Request>): nat {
    if qs == [] then 0
    else Refusals(catalog, metas, qs[..|qs| - 1]) + (if Handle(catalog, metas, qs[|qs| - 1]).ran then 0 else 1)
  }

  /** Handled calls of operations that declare an audit action. */
  function Audited(catalog: set<string>, metas: Registry, qs: seq<Request>): nat {
    if qs == [] then 0
    else
      var q := qs[|qs| - 1];
      Audited(catalog, metas, qs[..|qs| - 1]) +
      (if Handle(catalog, metas, q).ran && metas[q.opId].auditAction != "" then 1 else 0)
  }

  function Denials(log: seq<Event>): nat {
    if log == [] then 0 else Denials(log[..|log| - 1]) + (if log[|log| - 1].reason != "" then 1 else 0)
  }

  /** For every sequence of requests the audit log holds exactly one event per refusal and one per
      handled call that declares an action, and the refusals are the events that carry a reason. */
  lemma {:induction false} AuditIsComplete(catalog: set<string>, metas: Registry, qs: seq<Request>)
    ensures |Log(catalog, metas, qs)| == Refusals(catalog, metas, qs) + Audited(catalog, metas, qs)
    ensures Denials(Log(catalog, metas, qs)) == Refusals(catalog, metas, qs)
  {
    hide Confirmed, OutcomeForStatus;
    if qs != [] {
      var n := |qs| - 1;
      AuditIsComplete(catalog, metas, qs[..n]);
      var log, events := Log(catalog, metas, qs[..n]), Handle(catalog, metas, qs[n]).events;
      if events != [] {
        assert events == [events[0]] && (log + events)[..|log|] == log;
      } else {
        assert log + events == log;
      }
    }
  }

  /** Once every named operation that is served has been found in the registry, none of them is ever
      refused for want of a declaration, whatever is registered afterwards. */
  lemma CleanMeansRegistered(catalog: set<string>, metas: Registry, later: Registry, paths: seq<seq<string>>, q: Request)
    requires forall id | id != "" && Served(paths, id) :: id in metas
    requires metas.Keys <= later.Keys && q.opId != "" && Served(paths, q.opId)
    ensures Refusal(catalog, later, q) != Some((403, "no_operation_metadata"))
    ensures forall e | e in Handle(catalog, later, q).events :: e.reason != "no_operation_metadata"
  {
    hide Confirmed, DenialAction;
    assert q.opId in later.Keys;
    assert "missing_capability"[0] != "no_operation_metadata"[0];
    assert "missing_confirmation"[0] != "no_operation_metadata"[0];
    assert "unauthenticated"[0] != "no_operation_metadata"[0];
  }
}

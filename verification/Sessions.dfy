/** Sign-in sessions. */
module Sessions {
  import opened Text
  import opened Timestamps

  type UserId = nat

  datatype Session = Session(user: UserId, createdAt: Instant, lastSeen: Instant, expires: Instant, ipHash: string,
                             agent: string, revoked: Option<Instant>)

  type Table = map<string, Session>

  datatype Lookup = Found(session: Session) | NotFoundOrExpired | SessionRevoked

  function Get(t: Table, id: string, now: Instant): Lookup {
    if id !in t then NotFoundOrExpired
    else if t[id].revoked.Some? then SessionRevoked
    else if now > t[id].expires then NotFoundOrExpired
    else Found(t[id])
  }

  predicate LiveAt(t: Table, id: string, now: Instant) { Get(t, id, now).Found? }

  datatype Op =
    | CreateOp(id: string, user: UserId, ipHash: string, agent: string, now: Instant)
    | TouchOp(id: string, now: Instant)
    | RevokeOp(id: string, now: Instant)
    | RevokeAllOp(user: UserId, now: Instant)
    | RotateOp(before: string, id: string, now: Instant)

  /** The primary key refuses an id that is taken. */
  function Created(t: Table, ttl: int, id: string, user: UserId, ipHash: string, agent: string, now: Instant): Table {
    if id in t then t else t[id := Session(user, now, now, now + ttl, ipHash, agent, None)]
  }

  function Revoked(t: Table, id: string, now: Instant): Table {
    if id in t then t[id := t[id].(revoked := Some(now))] else t
  }

  function AllRevoked(t: Table, user: UserId, now: Instant): Table {
    map id | id in t :: if t[id].user == user && t[id].revoked.None? then t[id].(revoked := Some(now)) else t[id]
  }

  function Apply(t: Table, ttl: int, op: Op): Table {
    match op
    case CreateOp(id, user, ipHash, agent, now) => Created(t, ttl, id, user, ipHash, agent, now)
    case TouchOp(id, now) => if id in t then t[id := t[id].(lastSeen := now)] else t
    case RevokeOp(id, now) => Revoked(t, id, now)
    case RevokeAllOp(user, now) => AllRevoked(t, user, now)
    case RotateOp(before, id, now) =>
      if !LiveAt(t, before, now) then t
      else Created(Revoked(t, before, now), ttl, id, t[before].user, t[before].ipHash, t[before].agent, now)
  }

  class SessionStore {
    const ttl: int
    var sessions: Table

    constructor (ttl: int)
      ensures this.ttl == ttl && sessions == map[]
    {
      this.ttl, sessions := ttl, map[];
    }

    /** The id is random; ok tells whether the insert went through. */
    method Create(id: string, user: UserId, ipHash: string, agent: string, now: Instant) returns (ok: bool)
      modifies this`sessions
      ensures sessions == Apply(old(sessions), ttl, CreateOp(id, user, ipHash, agent, now)) &&
          (ok <==> id !in old(sessions))
    {
      ok := id !in sessions;
      if ok {
        sessions := sessions[id := Session(user, now, now, now + ttl, ipHash, agent, None)];
      }
    }

    method Touch(id: string, now: Instant)
      modifies this`sessions
      ensures sessions == Apply(old(sessions), ttl, TouchOp(id, now))
    {
      if id in sessions {
        sessions := sessions[id := sessions[id].(lastSeen := now)];
      }
    }

    method Revoke(id: string, now: Instant)
      modifies this`sessions
      ensures sessions == Apply(old(sessions), ttl, RevokeOp(id, now))
    {
      if id in sessions {
        sessions := sessions[id := sessions[id].(revoked := Some(now))];
      }
    }

    method RevokeAllForUser(user: UserId, now: Instant)
      modifies this`sessions
      ensures sessions == Apply(old(sessions), ttl, RevokeAllOp(user, now))
    {
      sessions := AllRevoked(sessions, user, now);
    }

    method Rotate(before: string, id: string, now: Instant) returns (ok: bool)
      modifies this`sessions
      ensures sessions == Apply(old(sessions), ttl, RotateOp(before, id, now))
      ensures ok <==> LiveAt(old(sessions), before, now) && id !in old(sessions)
    {
      var found := Get(sessions, before, now);
      if !found.Found? {
        return false;
      }
      Revoke(before, now);
      ok := Create(id, found.session.user, found.session.ipHash, found.session.agent, now);
    }
  }

  // ---- Runs --------------------------------------------------------------

  function Run(t: Table, ttl: int, ops: seq<Op>): Table
    decreases |ops|
  {
    if ops == [] then t else Run(Apply(t, ttl, ops[0]), ttl, ops[1..])
  }

  /** What happens to a session that is on file: its owner and its end never move, and a revocation stays. */
  lemma {:induction false} SessionsStay(t: Table, ttl: int, ops: seq<Op>, id: string)
    requires id in t
    ensures var r := Run(t, ttl, ops);
            id in r && r[id].user == t[id].user && r[id].expires == t[id].expires &&
                (t[id].revoked.Some? ==> r[id].revoked.Some?)
    decreases |ops|
  {
    if ops != [] {
      SessionsStay(Apply(t, ttl, ops[0]), ttl, ops[1..], id);
    }
  }

  /** A session that is not live is never live again, at no later time and after no run of calls. */
  lemma NeverLiveAgain(t: Table, ttl: int, ops: seq<Op>, id: string, now: Instant, later: Instant)
    requires id in t && !LiveAt(t, id, now) && now <= later
    ensures !LiveAt(Run(t, ttl, ops), id, later)
  {
    SessionsStay(t, ttl, ops, id);
  }

  function LiveOf(t: Table, user: UserId, now: Instant): set<string> {
    set id | id in t && t[id].user == user && LiveAt(t, id, now)
  }

  lemma RotateAt(t: Table, ttl: nat, before: string, id: string, now: Instant, x: string)
    requires LiveAt(t, before, now) && id !in t
    ensures var r := Apply(t, ttl, RotateOp(before, id, now));
            (LiveAt(r, x, now) <==> x == id || (x != before && LiveAt(t, x, now))) &&
            (x in r <==> x == id || x in t) && (x in t ==> r[x].user == t[x].user)
  {
  }

  /** Rotating a live session puts one in its place with the same owner, address and agent; the old one
      is dead, and everyone has as many live sessions as before. */
  lemma RotateReplaces(t: Table, ttl: nat, before: string, id: string, now: Instant, user: UserId)
    requires LiveAt(t, before, now) && id !in t
    ensures var r := Apply(t, ttl, RotateOp(before, id, now));
            LiveAt(r, id, now) && !LiveAt(r, before, now) &&
            r[id].user == t[before].user && r[id].ipHash == t[before].ipHash && r[id].agent == t[before].agent &&
            (forall other | other in t && other != before :: other in r && r[other] == t[other]) &&
            |LiveOf(r, user, now)| == |LiveOf(t, user, now)|
  {
    var r := Apply(t, ttl, RotateOp(before, id, now));
    assert r[id].user == t[before].user;
    RotateCount(t, ttl, before, id, now, user);
  }

  lemma RotateCount(t: Table, ttl: nat, before: string, id: string, now: Instant, user: UserId)
    requires LiveAt(t, before, now) && before in t && id !in t
    requires var r := Apply(t, ttl, RotateOp(before, id, now)); id in r && r[id].user == t[before].user
    ensures |LiveOf(Apply(t, ttl, RotateOp(before, id, now)), user, now)| == |LiveOf(t, user, now)|
  {
    hide Apply, LiveAt;
    var r := Apply(t, ttl, RotateOp(before, id, now));
    forall x ensures x in LiveOf(r, user, now) <==>
                     if x == id then t[before].user == user else x != before && x in LiveOf(t, user, now) {
      RotateAt(t, ttl, before, id, now, x);
    }
    if t[before].user == user {
      assert LiveOf(r, user, now) == LiveOf(t, user, now) - {before} + {id};
    } else {
      assert LiveOf(r, user, now) == LiveOf(t, user, now);
    }
  }

  /** Revoking all of a user's sessions ends exactly those that were live and theirs, from then on. */
  lemma RevokeAllEnds(t: Table, ttl: int, user: UserId, now: Instant, id: string, later: Instant)
    requires id in t
    ensures var r := Apply(t, ttl, RevokeAllOp(user, now));
            LiveAt(r, id, later) <==> LiveAt(t, id, later) && t[id].user != user
  {
  }

  // ---- How long a session lives -------------------------------------------

  /** The operation ends a session of this user: revoked by itself, with all of the user's, or put out by rotation. */
  predicate Ends(t: Table, op: Op, id: string, user: UserId) {
    (op.RevokeOp? && op.id == id) || (op.RevokeAllOp? && op.user == user) ||
    (op.RotateOp? && op.before == id && LiveAt(t, id, op.now))
  }

  predicate Ended(t: Table, ttl: int, ops: seq<Op>, id: string, user: UserId)
    decreases |ops|
  {
    ops != [] && (Ends(t, ops[0], id, user) || Ended(Apply(t, ttl, ops[0]), ttl, ops[1..], id, user))
  }

  lemma {:induction false} RevokedExactly(t: Table, ttl: int, ops: seq<Op>, id: string)
    requires id in t
    ensures id in Run(t, ttl, ops)
    ensures Run(t, ttl, ops)[id].revoked.Some? <==> t[id].revoked.Some? || Ended(t, ttl, ops, id, t[id].user)
    decreases |ops|
  {
    if ops != [] {
      SessionsStay(t, ttl, [ops[0]], id);
      assert Run(t, ttl, [ops[0]]) == Apply(t, ttl, ops[0]) by { assert [ops[0]][1..] == []; }
      RevokedExactly(Apply(t, ttl, ops[0]), ttl, ops[1..], id);
    }
  }

  /** A session opened now is live, after any run, up to the moment its time to live has passed and no longer,
      unless something has ended it. */
  lemma LivesExactly(t: Table, ttl: int, id: string, user: UserId, ipHash: string, agent: string, now: Instant,
                     ops: seq<Op>, later: Instant)
    requires id !in t
    ensures var begun := Apply(t, ttl, CreateOp(id, user, ipHash, agent, now));
            id in begun && begun[id] == Session(user, now, now, now + ttl, ipHash, agent, None) &&
            (LiveAt(Run(begun, ttl, ops), id, later) <==> later <= now + ttl && !Ended(begun, ttl, ops, id, user))
  {
    hide Run, Ended;
    var begun := Apply(t, ttl, CreateOp(id, user, ipHash, agent, now));
    SessionsStay(begun, ttl, ops, id);
    RevokedExactly(begun, ttl, ops, id);
  }

  /** What the other calls write: the moment a session was last seen, or ended. */
  lemma EndedRows(t: Table, ttl: int, id: string, user: UserId, now: Instant, x: string)
    ensures Apply(t, ttl, TouchOp(id, now)) == if id in t then t[id := t[id].(lastSeen := now)] else t
    ensures Apply(t, ttl, RevokeOp(id, now)) == if id in t then t[id := t[id].(revoked := Some(now))] else t
    ensures var r := Apply(t, ttl, RevokeAllOp(user, now));
            r.Keys == t.Keys &&
            (x in t ==> r[x] == if t[x].user == user && t[x].revoked == None then t[x].(revoked := Some(now)) else t[x])
  {
  }
}

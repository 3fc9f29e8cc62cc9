/** One-time links: recovery, invitations, and the account an invitation leads to. */
module Links {
  import opened Text
  import opened Timestamps
  import R = RateLimit

  type UserId = nat

  datatype Purpose = Recovery | Invitation

  datatype Link = Link(purpose: Purpose, user: UserId, email: string, expires: Instant, consumed: Option<Instant>,
      role: string)

  datatype User = User(email: string, active: bool)
  datatype Grant = Grant(user: UserId, role: string)

  /** Links are kept under their tokens; the source keeps them under a digest of the token. */
  datatype Accounts = Accounts(users: map<UserId, User>, nextUser: UserId, grants: seq<Grant>, links: map<string, Link>)

  datatype Refusal = RateLimited | LinkNotFound | LinkConsumed | WrongPurpose | EmailTaken | UnknownRole | MailFailed

  datatype Result<+T> = Ok(value: T) | Err(error: Refusal)

  // ---- Consuming ---------------------------------------------------------

  function Consume(links: map<string, Link>, token: string, now: Instant): (map<string, Link>, Result<Link>) {
    if token !in links then (links, Err(LinkNotFound))
    else if links[token].consumed.Some? then (links, Err(LinkConsumed))
    else if now > links[token].expires then (links, Err(LinkNotFound))
    else (links[token := links[token].(consumed := Some(now))], Ok(links[token]))
  }

  /** CreateUserFromInvitation: the account and the invited role, or neither. */
  function CreateInvited(a: Accounts, roles: set<string>, link: Link): (Accounts, Result<UserId>) {
    if exists u | u in a.users :: a.users[u].email == link.email then (a, Err(EmailTaken))
    else if link.role != "" && link.role !in roles then (a, Err(UnknownRole))
    else
      (a.(users := a.users[a.nextUser := User(link.email, true)], nextUser := a.nextUser + 1,
          grants := a.grants + (if link.role == "" then [] else [Grant(a.nextUser, link.role)])),
       Ok(a.nextUser))
  }

  datatype Op =
    | Invite(token: string, email: string, role: string, now: Instant)
    | Recover(token: string, user: UserId, now: Instant)
    | Accept(token: string, now: Instant)
    | Reset(token: string, now: Instant)
    | SetActive(user: UserId, active: bool)

  /** A token is random: one that is taken is refused by the unique index. */
  function Issued(links: map<string, Link>, token: string, link: Link): map<string, Link> {
    if token in links then links else links[token := link]
  }

  /** The handlers consume the link first; whatever goes wrong after that, it stays consumed. */
  function Step(a: Accounts, roles: set<string>, ttl: int, op: Op): (Accounts, Option<UserId>) {
    match op
    case Invite(token, email, role, now) =>
      (a.(links := Issued(a.links, token, Link(Invitation, 0, email, now + ttl, None, role))), None)
    case Recover(token, user, now) =>
      if user in a.users && a.users[user].active
      then (a.(links := Issued(a.links, token, Link(Recovery, user, a.users[user].email, now + ttl, None, ""))), None)
      else (a, None)
    case Accept(token, now) =>
      var c := Consume(a.links, token, now);
      if c.1.Err? || c.1.value.purpose != Invitation then (a.(links := c.0), None)
      else
        var made := CreateInvited(a.(links := c.0), roles, c.1.value);
        (made.0, if made.1.Ok? then Some(made.1.value) else None)
    case Reset(token, now) => (a.(links := Consume(a.links, token, now).0), None)
    case SetActive(user, active) =>
      if user in a.users then (a.(users := a.users[user := a.users[user].(active := active)]), None) else (a, None)
  }

  function Run(a: Accounts, roles: set<string>, ttl: int, ops: seq<Op>): Accounts
    decreases |ops|
  {
    if ops == [] then a else Run(Step(a, roles, ttl, ops[0]).0, roles, ttl, ops[1..])
  }

  // ---- Once at most ------------------------------------------------------

  /** The operation consumes this token. */
  predicate Consumes(a: Accounts, op: Op, token: string) {
    (op.Accept? || op.Reset?) && op.token == token && Consume(a.links, token, op.now).1.Ok?
  }

  function TimesConsumed(a: Accounts, roles: set<string>, ttl: int, ops: seq<Op>, token: string): nat
    decreases |ops|
  {
    if ops == [] then 0
    else
      (if Consumes(a, ops[0], token) then 1 else 0) +
      TimesConsumed(Step(a, roles, ttl, ops[0]).0, roles, ttl, ops[1..], token)
  }

  /** What a link says is fixed when it is issued, and once consumed it stays so. */
  predicate LinkStays(before: Link, after: Link) {
    after == before.(consumed := after.consumed) && (before.consumed.Some? ==> after == before)
  }

  lemma StepLinks(a: Accounts, roles: set<string>, ttl: int, op: Op, token: string)
    requires token in a.links
    ensures token in Step(a, roles, ttl, op).0.links && LinkStays(a.links[token], Step(a, roles, ttl, op).0.links[token])
    ensures Consumes(a, op, token) ==>
              Step(a, roles, ttl, op).0.links[token].consumed.Some? && op.now <= a.links[token].expires
  {
  }

  /** In any run a token is consumed at most once, not at all if it was already, and the link it stands
      for says the same at the end as at the start. */
  lemma {:induction false} ConsumedOnce(a: Accounts, roles: set<string>, ttl: int, ops: seq<Op>, token: string)
    requires token in a.links
    ensures TimesConsumed(a, roles, ttl, ops, token) <= (if a.links[token].consumed.Some? then 0 else 1)
    ensures token in Run(a, roles, ttl, ops).links && LinkStays(a.links[token], Run(a, roles, ttl, ops).links[token])
    decreases |ops|
  {
    hide Step;
    if ops != [] {
      StepLinks(a, roles, ttl, ops[0], token);
      ConsumedOnce(Step(a, roles, ttl, ops[0]).0, roles, ttl, ops[1..], token);
    }
  }

  /** No operation consumes a token after it has expired. */
  lemma {:induction false} NeverAfterExpiry(a: Accounts, roles: set<string>, ttl: int, ops: seq<Op>, token: string)
    requires token in a.links
    requires forall op | op in ops && (op.Accept? || op.Reset?) :: op.now > a.links[token].expires
    ensures TimesConsumed(a, roles, ttl, ops, token) == 0
    decreases |ops|
  {
    hide Step;
    if ops != [] {
      assert ops[0] in ops && forall op | op in ops[1..] :: op in ops;
      StepLinks(a, roles, ttl, ops[0], token);
      NeverAfterExpiry(Step(a, roles, ttl, ops[0]).0, roles, ttl, ops[1..], token);
    }
  }

  // ---- The invited account -----------------------------------------------

  function Roles(grants: seq<Grant>, user: UserId): seq<string> {
    if grants == [] then []
    else Roles(grants[..|grants| - 1], user) + (if grants[|grants| - 1].user ==
        user then [grants[|grants| - 1].role] else [])
  }

  predicate AccountsOk(a: Accounts) {
    (forall u | u in a.users :: u < a.nextUser) && forall g | g in a.grants :: g.user < a.nextUser
  }

  lemma {:induction false} NoRoles(grants: seq<Grant>, user: UserId)
    requires forall g | g in grants :: g.user < user
    ensures Roles(grants, user) == []
  {
    if grants != [] {
      assert grants[|grants| - 1] in grants && forall g | g in grants[..|grants| - 1] :: g in grants;
      NoRoles(grants[..|grants| - 1], user);
    }
  }

  /** The new account is one that was not there, with the invited address, and has the invited role. */
  lemma InvitedAccount(a: Accounts, roles: set<string>, link: Link)
    requires AccountsOk(a) && CreateInvited(a, roles, link).1.Ok?
    ensures var r, u := CreateInvited(a, roles, link).0, CreateInvited(a, roles, link).1.value;
            u !in a.users && r.users == a.users[u := User(link.email, true)] && AccountsOk(r) && r.links == a.links &&
            Roles(r.grants, u) == (if link.role == "" then [] else [link.role]) &&
            (link.role != "" ==> link.role in roles)
  {
    var u := a.nextUser;
    NoRoles(a.grants, u);
    var g := Grant(u, link.role);
    assert (a.grants + [g])[..|a.grants|] == a.grants;
    assert a.grants + [] == a.grants;
  }

  /** Accepting an invitation makes an account that was not there, with the invited address, active, and
      holding the invited role and no other. */
  lemma AcceptedAccount(a: Accounts, roles: set<string>, ttl: int, token: string, now: Instant)
    requires AccountsOk(a) && Step(a, roles, ttl, Accept(token, now)).1.Some?
    ensures var r, u := Step(a, roles, ttl, Accept(token, now)).0, Step(a, roles, ttl, Accept(token, now)).1.value;
            token in a.links && Consumes(a, Accept(token, now), token) && a.links[token].purpose == Invitation &&
            u !in a.users && r.users == a.users[u := User(a.links[token].email, true)] && AccountsOk(r) &&
            Roles(r.grants, u) == (if a.links[token].role == "" then [] else [a.links[token].role]) &&
            (a.links[token].role != "" ==> a.links[token].role in roles)
  {
    hide CreateInvited, Roles;
    InvitedAccount(a.(links := Consume(a.links, token, now).0), roles, a.links[token]);
  }

  function AccountsMade(a: Accounts, roles: set<string>, ttl: int, ops: seq<Op>, token: string): nat
    decreases |ops|
  {
    if ops == [] then 0
    else
      (if ops[0].Accept? && ops[0].token == token && Step(a, roles, ttl, ops[0]).1.Some? then 1 else 0) +
      AccountsMade(Step(a, roles, ttl, ops[0]).0, roles, ttl, ops[1..], token)
  }

  /** Each invitation leads to at most one account, in any run. */
  lemma {:induction false} OneAccountPerInvitation(a: Accounts, roles: set<string>, ttl: int, ops: seq<Op>, token: string)
    requires token in a.links
    ensures AccountsMade(a, roles, ttl, ops, token) <= TimesConsumed(a, roles, ttl, ops, token) <= 1
    decreases |ops|
  {
    hide CreateInvited;
    ConsumedOnce(a, roles, ttl, ops, token);
    if ops != [] {
      StepLinks(a, roles, ttl, ops[0], token);
      OneAccountPerInvitation(Step(a, roles, ttl, ops[0]).0, roles, ttl, ops[1..], token);
    }
  }

  lemma {:induction false} RolesAppend(grants: seq<Grant>, more: seq<Grant>, user: UserId)
    requires forall g | g in more :: g.user != user
    ensures Roles(grants + more, user) == Roles(grants, user)
  {
    if more == [] {
      assert grants + more == grants;
    } else {
      var n := |more| - 1;
      assert (grants + more)[..|grants + more| - 1] == grants + more[..n] && more[n] in more;
      RolesAppend(grants, more[..n], user);
    }
  }

  /** No later call gives an account another role or takes one away. */
  lemma {:induction false} RolesStay(a: Accounts, roles: set<string>, ttl: int, ops: seq<Op>, user: UserId)
    requires AccountsOk(a) && user in a.users
    ensures user in Run(a, roles, ttl, ops).users && Roles(Run(a, roles, ttl, ops).grants, user) == Roles(a.grants, user)
    decreases |ops|
  {
    if ops != [] {
      var r := Step(a, roles, ttl, ops[0]).0;
      if r.grants != a.grants {
        RolesAppend(a.grants, r.grants[|a.grants|..], user);
        assert r.grants == a.grants + r.grants[|a.grants|..];
      }
      RolesStay(r, roles, ttl, ops[1..], user);
    }
  }

  // ---- Asking for recovery -----------------------------------------------

  /** The unique index on users.email. */
  predicate UniqueEmails(users: map<UserId, User>) {
    forall u, v | u in users && v in users && users[u].email == users[v].email :: u == v
  }

  predicate Known(users: map<UserId, User>, email: string) { exists u | u in users :: users[u] == User(email, true) }

  ghost function ActiveUser(users: map<UserId, User>, email: string): UserId
    requires Known(users, email)
  {
    var u :| u in users && users[u] == User(email, true);
    u
  }

  /** What recovery reads and writes. */
  datatype World = World(users: map<UserId, User>, links: map<string, Link>, log: seq<R.Attempt>)

  /** A request, the token it would be given and what the mailer would do with it. */
  datatype Request = Request(call: R.TimedCall, token: string, delivered: bool)

  predicate ForRecovery(q: Request) { q.call.Ask? && q.call.rule == R.RecoveryRule }

  ghost function AskRecovery(w: World, hash: R.Hash, ttl: int, q: Request): (World, Result<bool>)
    requires ForRecovery(q)
  {
    var d := R.Decide(w.log, hash, q.call.rule, q.call.sourceHash, q.call.target, q.call.now);
    var log := w.log + [R.Recorded(hash, q.call.rule, q.call.sourceHash, q.call.target, q.call.now, d)];
    if !d.Allowed? then (w.(log := log), Err(RateLimited))
    else if !Known(w.users, q.call.target) then (w.(log := log), Ok(true))
    else
      var link := Link(Recovery, ActiveUser(w.users, q.call.target), q.call.target, q.call.now + ttl, None, "");
      (w.(log := log, links := Issued(w.links, q.token, link)), if q.delivered then Ok(true) else Err(MailFailed))
  }

  class LinkService {
    const limiter: R.Limiter
    const ttl: int
    const roles: set<string>
    var users: map<UserId, User>
    var nextUser: UserId
    var grants: seq<Grant>
    var links: map<string, Link>

    constructor (limiter: R.Limiter, ttl: int, roles: set<string>, a: Accounts)
      ensures this.limiter == limiter && this.ttl == ttl && this.roles == roles && View() == a
    {
      this.limiter, this.ttl, this.roles := limiter, ttl, roles;
      users, nextUser, grants, links := a.users, a.nextUser, a.grants, a.links;
    }

    function View(): Accounts
      reads this
    {
      Accounts(users, nextUser, grants, links)
    }

    /** The bound is evaluated before the address is looked up. */
    method RequestRecovery(q: Request) returns (r: Result<bool>)
      requires ForRecovery(q) && UniqueEmails(users)
      modifies this`links, limiter
      ensures (World(users, links, limiter.log), r) ==
              AskRecovery(World(users, old(links), old(limiter.log)), limiter.hash, ttl, q)
    {
      hide R.Decide, R.Recorded, Storable;
      var d := limiter.Allow(R.RecoveryRule, q.call.sourceHash, q.call.target, q.call.now);
      if !d.Allowed? {
        return Err(RateLimited);
      }
      if u :| u in users && users[u] == User(q.call.target, true) {
        links := Issued(links, q.token, Link(Recovery, u, q.call.target, q.call.now + ttl, None, ""));
        return if q.delivered then Ok(true) else Err(MailFailed);
      }
      return Ok(true);
    }

    method CreateInvitation(token: string, email: string, role: string, now: Instant)
      modifies this`links
      ensures links == Issued(old(links), token, Link(Invitation, 0, email, now + ttl, None, role))
    {
      if token !in links {
        links := links[token := Link(Invitation, 0, email, now + ttl, None, role)];
      }
    }

    method ConsumeLink(token: string, now: Instant) returns (r: Result<Link>)
      modifies this`links
      ensures (links, r) == Consume(old(links), token, now)
    {
      if token !in links {
        return Err(LinkNotFound);
      }
      var link := links[token];
      if link.consumed.Some? {
        return Err(LinkConsumed);
      }
      if now > link.expires {
        return Err(LinkNotFound);
      }
      links := links[token := link.(consumed := Some(now))];
      return Ok(link);
    }

    /** One transaction: the account and the role the link carries, or neither. */
    method CreateUserFromInvitation(link: Link) returns (r: Result<UserId>)
      modifies this
      ensures (View(), r) == CreateInvited(old(View()), roles, link)
    {
      if exists u | u in users :: users[u].email == link.email {
        return Err(EmailTaken);
      }
      var usersBegun, user := users, nextUser;
      users, nextUser := users[user := User(link.email, true)], user + 1;
      if link.role != "" {
        if link.role !in roles {
          users, nextUser := usersBegun, user;
          return Err(UnknownRole);
        }
        grants := grants + [Grant(user, link.role)];
      }
      assert old(grants) + [] == old(grants);
      return Ok(user);
    }

    /** The invitation handler: the link is consumed before the account is made. */
    method AcceptInvitation(token: string, now: Instant) returns (user: Option<UserId>)
      modifies this
      ensures (View(), user) == Step(old(View()), roles, ttl, Accept(token, now))
    {
      hide CreateInvited;
      var link := ConsumeLink(token, now);
      if link.Err? || link.value.purpose != Invitation {
        return None;
      }
      var made := CreateUserFromInvitation(link.value);
      return if made.Ok? then Some(made.value) else None;
    }
  }

  ghost function Requests(w: World, hash: R.Hash, ttl: int, qs: seq<Request>): (r: (World, seq<Result<bool>>))
    requires forall q | q in qs :: ForRecovery(q)
    ensures |r.1| == |qs|
    decreases |qs|
  {
    if qs == [] then (w, [])
    else
      assert qs[0] in qs && forall q | q in qs[1..] :: q in qs;
      var first := AskRecovery(w, hash, ttl, qs[0]);
      var rest := Requests(first.0, hash, ttl, qs[1..]);
      (rest.0, [first.1] + rest.1)
  }

  /** The same requests against different accounts leave the same log and are limited at the same places,
      and while the mail goes out they are answered alike throughout. */
  lemma {:induction false} LimitTellsNothing(v: World, w: World, hash: R.Hash, ttl: int, qs: seq<Request>)
    requires v.log == w.log && forall q | q in qs :: ForRecovery(q)
    ensures Requests(v, hash, ttl, qs).0.log == Requests(w, hash, ttl, qs).0.log
    ensures forall k | 0 <= k < |qs| ::
              Requests(v, hash, ttl, qs).1[k] == Err(RateLimited) <==> Requests(w, hash, ttl, qs).1[k] == Err(RateLimited)
    ensures (forall q | q in qs :: q.delivered) ==> Requests(v, hash, ttl, qs).1 == Requests(w, hash, ttl, qs).1
    decreases |qs|
  {
    hide R.Decide, R.Recorded;
    if qs != [] {
      assert qs[0] in qs && forall q | q in qs[1..] :: q in qs;
      LimitTellsNothing(AskRecovery(v, hash, ttl, qs[0]).0, AskRecovery(w, hash, ttl, qs[0]).0, hash, ttl, qs[1..]);
    }
  }

  // ---- What a link is good for --------------------------------------------

  /** A link is consumed exactly when it is there, not consumed before and not past its time. */
  lemma ConsumedExactly(links: map<string, Link>, token: string, now: Instant)
    ensures var r := Consume(links, token, now);
            (r.1.Ok? <==> token in links && links[token].consumed == None && now <= links[token].expires) &&
            (r.1.Ok? ==> r.1.value == links[token] && r.0 == links[token := links[token].(consumed := Some(now))]) &&
            (r.1.Err? ==> r.0 == links) &&
            (r.1 == Err(LinkConsumed) <==> token in links && links[token].consumed != None)
  {
  }

  /** What is issued: an invitation for the address and role given, a recovery for the account's own address, each good
      for the time to live. */
  lemma IssuedFor(a: Accounts, roles: set<string>, ttl: int, token: string, email: string, role: string, user: UserId,
                  now: Instant)
    requires token !in a.links
    ensures Step(a, roles, ttl, Invite(token, email, role, now)).0.links ==
            a.links[token := Link(Invitation, 0, email, now + ttl, None, role)]
    ensures Step(a, roles, ttl, Recover(token, user, now)).0.links ==
            if user in a.users && a.users[user].active
            then a.links[token := Link(Recovery, user, a.users[user].email, now + ttl, None, "")] else a.links
    ensures forall active :: Step(a, roles, ttl, SetActive(user, active)).0 ==
              if user in a.users then a.(users := a.users[user := User(a.users[user].email, active)]) else a
  {
  }

  /** Accepting makes an account exactly when the link is a good invitation, the address is not taken and the role is
      one there is; a token used for the wrong purpose is used up all the same. */
  lemma AcceptedExactly(a: Accounts, roles: set<string>, ttl: int, token: string, now: Instant)
    ensures Step(a, roles, ttl, Accept(token, now)).1.Some? <==>
            token in a.links && a.links[token].consumed == None && now <= a.links[token].expires &&
            a.links[token].purpose == Invitation && (a.links[token].role == "" || a.links[token].role in roles) &&
            forall u | u in a.users :: a.users[u].email != a.links[token].email
    ensures Step(a, roles, ttl, Accept(token, now)).0.links == Consume(a.links, token, now).0
  {
  }

  /** No two accounts ever have one address. */
  lemma {:induction false} AddressesStayUnique(a: Accounts, roles: set<string>, ttl: int, ops: seq<Op>)
    requires AccountsOk(a) && UniqueEmails(a.users)
    ensures UniqueEmails(Run(a, roles, ttl, ops).users)
    decreases |ops|
  {
    if ops != [] {
      AddressesStayUnique(Step(a, roles, ttl, ops[0]).0, roles, ttl, ops[1..]);
    }
  }

  /** Asking for recovery issues a link exactly for an active account, to that account, and only when it is not limited. */
  lemma RecoveryIssues(w: World, hash: R.Hash, ttl: int, q: Request)
    requires ForRecovery(q) && UniqueEmails(w.users) && q.token !in w.links
    ensures var r := AskRecovery(w, hash, ttl, q);
            (q.token in r.0.links <==>
               r.1 != Err(RateLimited) && exists u | u in w.users :: w.users[u] == User(q.call.target, true)) &&
            (forall u | u in w.users && w.users[u] == User(q.call.target, true) && q.token in r.0.links ::
               r.0.links == w.links[q.token := Link(Recovery, u, q.call.target, q.call.now + ttl, None, "")]) &&
            (r.1 == Err(RateLimited) <==>
               !R.Decide(w.log, hash, q.call.rule, q.call.sourceHash, q.call.target, q.call.now).Allowed?) &&
            (r.1 == Err(MailFailed) <==> q.token in r.0.links && !q.delivered) && |r.0.log| == |w.log| + 1
  {
    hide R.Decide, R.Recorded;
  }
}

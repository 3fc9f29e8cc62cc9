/** Signing in and the lockout of an account after repeated failures. */
module Lockout {
  import opened Text
  import opened Timestamps
  import P = Password
  import S = Sessions

  const MAX_FAILED: nat := 10
  const LOCKOUT: int := 15 * MINUTE

  datatype User = User(id: nat, active: bool, hash: Option<string>, failedCount: nat, lockedUntil: Option<Instant>,
                       lastLogin: Option<Instant>, version: nat)

  datatype Outcome = SignedIn | InvalidCredentials | AccountLocked | AccountInactive | VerifyFailed

  /** What VerifyPassword answers for a stored hash: a verdict, or nothing when it cannot be read. */
  type Verify = string -> Option<bool>

  /** recordFailedLogin: the new count comes from the caller's copy of the row, not from the row. */
  function RecordFailedLogin(u: User, currentCount: nat, now: Instant): User {
    var newCount := currentCount + 1;
    if newCount >= MAX_FAILED then
      u.(failedCount := newCount, lockedUntil := Some(now + LOCKOUT), version := u.version + 1)
    else
      u.(failedCount := newCount, version := u.version + 1)
  }

  function RecordLogin(u: User, now: Instant): User {
    u.(lastLogin := Some(now), failedCount := 0, lockedUntil := None, version := u.version + 1)
  }

  /** Whether a sign-in at this moment reaches the password check. */
  predicate Checks(u: User, now: Instant) {
    u.active && (u.lockedUntil.Some? ==> now >= u.lockedUntil.value) && u.hash.Some?
  }

  /** SignIn on a row: now is read at the lock check, later when its result is written. */
  function SignInRow(u: User, verify: Verify, now: Instant, later: Instant): (User, Outcome) {
    if !u.active then (u, AccountInactive)
    else if u.lockedUntil.Some? && now < u.lockedUntil.value then (u, AccountLocked)
    else
      var row := if u.lockedUntil.Some? then u.(failedCount := 0, lockedUntil := None) else u;
      if u.hash.None? then (row, InvalidCredentials)
      else
        match verify(u.hash.value)
        case None => (row, VerifyFailed)
        case Some(ok) =>
          if ok then (RecordLogin(row, later), SignedIn)
          else (RecordFailedLogin(row, u.failedCount, later), InvalidCredentials)
  }

  /** A sign-in succeeds exactly when the password is checked and right. */
  lemma SignedInMeans(u: User, verify: Verify, now: Instant, later: Instant)
    ensures SignInRow(u, verify, now, later).1 == SignedIn <==> Checks(u, now) && verify(u.hash.value) == Some(true)
  {
  }

  class AuthService {
    const kdf: P.Kdf
    const pepper: P.Bytes
    const store: S.SessionStore
    var users: map<string, User>

    constructor (kdf: P.Kdf, pepper: P.Bytes, store: S.SessionStore)
      ensures this.kdf == kdf && this.pepper == pepper && this.store == store && users == map[]
    {
      this.kdf, this.pepper, this.store, users := kdf, pepper, store, map[];
    }

    /** The password check SignIn makes against whatever hash the row holds. */
    function Verifier(password: P.Bytes): Verify {
      hash => P.VerifyPassword(kdf, password, hash, pepper)
    }

    /** SignIn. The token is the random id of the session; a session is opened by a successful sign-in and by
        nothing else, for the account that signed in. */
    method SignIn(email: string, password: P.Bytes, ipHash: string, agent: string, token: string, now: Instant,
                  later: Instant)
      returns (outcome: Outcome, session: Option<string>)
      modifies this, store
      ensures email !in old(users) ==> users == old(users) && outcome == InvalidCredentials
      ensures email in old(users) ==>
              var r := SignInRow(old(users)[email], Verifier(password), now, later);
              users == old(users)[email := r.0] && outcome == r.1
      ensures outcome != SignedIn ==> store.sessions == old(store.sessions) && session == None
      ensures outcome == SignedIn ==>
                email in old(users) &&
                store.sessions == S.Apply(old(store.sessions), store.ttl,
                                          S.CreateOp(token, old(users)[email].id, ipHash, agent, later)) &&
                session == if token in old(store.sessions) then None else Some(token)
    {
      hide P.VerifyPassword;
      if email !in users {
        return InvalidCredentials, None;
      }
      var u := users[email];
      if !u.active {
        return AccountInactive, None;
      }
      if u.lockedUntil.Some? {
        if now < u.lockedUntil.value {
          return AccountLocked, None;
        }
        users := users[email := u.(failedCount := 0, lockedUntil := None)];
      }
      if u.hash.None? {
        return InvalidCredentials, None;
      }
      var verdict := P.VerifyPassword(kdf, password, u.hash.value, pepper);
      if verdict.None? {
        return VerifyFailed, None;
      }
      if !verdict.value {
        users := users[email := RecordFailedLogin(users[email], u.failedCount, later)];
        return InvalidCredentials, None;
      }
      users := users[email := RecordLogin(users[email], later)];
      var ok := store.Create(token, u.id, ipHash, agent, later);
      return SignedIn, if ok then Some(token) else None;
    }

    /** LoginByUserID, for someone recovery or an invitation has already identified; without an account no
        session can be stored. */
    method LoginByUser(email: string, token: string, now: Instant) returns (session: Option<string>)
      modifies this, store
      ensures email !in old(users) ==>
                users == old(users) && store.sessions == old(store.sessions) && session == None
      ensures email in old(users) ==>
                users == old(users)[email := RecordLogin(old(users)[email], now)] &&
                store.sessions == S.Apply(old(store.sessions), store.ttl,
                                          S.CreateOp(token, old(users)[email].id, "", "recovery/invitation", now)) &&
                session == if token in old(store.sessions) then None else Some(token)
    {
      if email !in users {
        return None;
      }
      users := users[email := RecordLogin(users[email], now)];
      var ok := store.Create(token, users[email].id, "", "recovery/invitation", now);
      session := if ok then Some(token) else None;
    }

    method SetPassword(email: string, hash: string)
      modifies this
      ensures users == if email in old(users)
                       then old(users)[email := old(users)[email].(hash := Some(hash),
                           version := old(users)[email].version + 1)]
                       else old(users)
    {
      if email in users {
        users := users[email := users[email].(hash := Some(hash), version := users[email].version + 1)];
      }
    }
  }

  // ---- Runs on one account -----------------------------------------------

  datatype Op =
    | Attempt(verify: Verify, now: Instant, later: Instant)
    | LoginByUserID(now: Instant)
    | NewPassword(hash: string, now: Instant)
    | SetActive(active: bool, now: Instant)

  function Apply(u: User, op: Op): User {
    match op
    case Attempt(verify, now, later) => SignInRow(u, verify, now, later).0
    case LoginByUserID(now) => RecordLogin(u, now)
    case NewPassword(hash, _) => u.(hash := Some(hash), version := u.version + 1)
    case SetActive(active, _) => u.(active := active, version := u.version + 1)
  }

  function Run(u: User, ops: seq<Op>): User
    decreases |ops|
  {
    if ops == [] then u else Run(Apply(u, ops[0]), ops[1..])
  }

  /** The operation is a sign-in whose password was checked and found wrong. */
  predicate Fails(u: User, op: Op) {
    op.Attempt? && Checks(u, op.now) && op.verify(u.hash.value) == Some(false)
  }

  /** The operation signs the user in, by password or otherwise. */
  predicate Succeeds(u: User, op: Op) {
    op.LoginByUserID? || (op.Attempt? && SignInRow(u, op.verify, op.now, op.later).1 == SignedIn)
  }

  function Failures(u: User, ops: seq<Op>): nat
    decreases |ops|
  {
    if ops == [] then 0 else (if Fails(u, ops[0]) then 1 else 0) + Failures(Apply(u, ops[0]), ops[1..])
  }

  predicate NoSuccess(u: User, ops: seq<Op>)
    decreases |ops|
  {
    ops == [] || (!Succeeds(u, ops[0]) && NoSuccess(Apply(u, ops[0]), ops[1..]))
  }

  /** Every operation happens from first to last, and a write does not precede its check. */
  predicate Within(ops: seq<Op>, first: Instant, last: Instant) {
    forall i | 0 <= i < |ops| :: first <= ops[i].now <= last && (ops[i].Attempt? ==> ops[i].now <= ops[i].later)
  }

  // ---- What every run keeps ----------------------------------------------

  /** A lock is on the row exactly when the stored count has reached the maximum. */
  predicate LockConsistent(u: User) { u.lockedUntil.Some? <==> u.failedCount >= MAX_FAILED }

  lemma {:induction false} RunLockConsistent(u: User, ops: seq<Op>)
    requires LockConsistent(u)
    ensures LockConsistent(Run(u, ops))
    decreases |ops|
  {
    if ops != [] {
      RunLockConsistent(Apply(u, ops[0]), ops[1..]);
    }
  }

  /** While the account is locked no password is checked and nothing changes; and this is the only
      thing that keeps an active account with a password from being checked. */
  lemma LockedIsNotChecked(u: User, verify: Verify, now: Instant, later: Instant)
    requires u.active && u.hash.Some?
    ensures !Checks(u, now) <==> u.lockedUntil.Some? && now < u.lockedUntil.value
    ensures !Checks(u, now) ==> SignInRow(u, verify, now, later) == (u, AccountLocked)
    ensures Checks(u, now) ==> SignInRow(u, verify, now, later).1 ==
                               match verify(u.hash.value)
                               case None => VerifyFailed
                               case Some(ok) => if ok then SignedIn else InvalidCredentials
  {
  }

  /** The failed checks still possible up to the instant last. */
  function Budget(u: User, last: Instant): int {
    if u.lockedUntil.None? then MAX_FAILED - u.failedCount
    else if u.lockedUntil.value > last then 0
    else MAX_FAILED
  }

  lemma {:induction false} FailuresWithinBudget(u: User, ops: seq<Op>, first: Instant, last: Instant)
    requires LockConsistent(u) && Within(ops, first, last) && last < first + LOCKOUT && NoSuccess(u, ops)
    ensures Failures(u, ops) <= Budget(u, last)
    decreases |ops|
  {
    if ops != [] {
      var op, u' := ops[0], Apply(u, ops[0]);
      assert forall i | 0 <= i < |ops[1..]| :: ops[1..][i] == ops[i + 1];
      assert LockConsistent(u') by { RunLockConsistent(u, [op]); assert [op][1..] == []; }
      assert first <= ops[0].now <= last;
      FailuresWithinBudget(u', ops[1..], first, last);
    }
  }

  /** In any run, a span shorter than the lockout with no successful sign-in holds at most the
      maximum of failed password checks on the account. */
  lemma FailuresInAnySpan(u: User, before: seq<Op>, span: seq<Op>, first: Instant, last: Instant)
    requires LockConsistent(u)
    requires Within(span, first, last) && last < first + LOCKOUT && NoSuccess(Run(u, before), span)
    ensures Failures(Run(u, before), span) <= MAX_FAILED
  {
    RunLockConsistent(u, before);
    FailuresWithinBudget(Run(u, before), span, first, last);
  }

  ghost predicate OnlyAttempts(ops: seq<Op>) {
    forall i | 0 <= i < |ops| :: ops[i].Attempt? && forall h :: ops[i].verify(h).Some?
  }

  /** Once an account has been locked the stale count is what the next failure adds to, so a span
      of attempts shorter than the lockout holds at most one failed check: one failure re-locks. */
  lemma {:induction false} OneFailureRelocks(u: User, ops: seq<Op>, first: Instant, last: Instant)
    requires LockConsistent(u) && u.lockedUntil.Some? && u.active && u.hash.Some?
    requires OnlyAttempts(ops) && Within(ops, first, last) && last < first + LOCKOUT && NoSuccess(u, ops)
    ensures Failures(u, ops) <= if u.lockedUntil.value > last then 0 else 1
    ensures Run(u, ops).lockedUntil.Some?
    decreases |ops|
  {
    if ops != [] {
      var op, u' := ops[0], Apply(u, ops[0]);
      assert forall i | 0 <= i < |ops[1..]| :: ops[1..][i] == ops[i + 1];
      assert op.verify(u.hash.value).Some?;
      assert first <= ops[0].now <= last;
      OneFailureRelocks(u', ops[1..], first, last);
    }
  }

  function Repeat(op: Op, n: nat): (ops: seq<Op>)
    ensures |ops| == n && forall i | 0 <= i < n :: ops[i] == op
  {
    seq(n, i => op)
  }

  /** The bound is reached: on an unlocked account each of the remaining attempts is checked and
      fails, the last of them locks it for the lockout, and the one after is not checked. */
  lemma {:induction false} BoundIsReached(u: User, verify: Verify, now: Instant, n: nat)
    requires u.active && u.hash.Some? && verify(u.hash.value) == Some(false)
    requires u.lockedUntil.None? && u.failedCount + n == MAX_FAILED && n >= 1
    ensures var ops := Repeat(Attempt(verify, now, now), n);
            Failures(u, ops) == n && NoSuccess(u, ops) &&
            Run(u, ops).lockedUntil == Some(now + LOCKOUT) &&
            forall t | t < now + LOCKOUT :: !Checks(Run(u, ops), t)
    decreases n
  {
    var op := Attempt(verify, now, now);
    var ops := Repeat(op, n);
    var u' := Apply(u, op);
    assert ops[1..] == Repeat(op, n - 1);
    assert Run(u, ops) == Run(u', ops[1..]);
    if n > 1 {
      BoundIsReached(u', verify, now, n - 1);
    }
  }

  /** What a sign-in leaves of the row: a failure counts one more, and the tenth locks the account for fifteen minutes;
      a success clears the count and the lock; nothing else touches them, but for a lock that has run out. */
  lemma CountedAttempts(u: User, verify: Verify, now: Instant, later: Instant)
    requires Checks(u, now) && verify(u.hash.value).Some?
    ensures var r := SignInRow(u, verify, now, later).0;
            if verify(u.hash.value) == Some(true) then
              r == u.(lastLogin := Some(later), failedCount := 0, lockedUntil := None, version := u.version + 1)
            else
              r == u.(failedCount := u.failedCount + 1, version := u.version + 1,
                      lockedUntil := if u.failedCount + 1 >= 10 then Some(later + 15 * 60 * 1_000_000_000) else None)
  {
  }

  /** Signing in otherwise clears the count and the lock; a new password and switching the account on or off leave
      them alone. */
  lemma OtherWrites(u: User, now: Instant, hash: string, active: bool)
    ensures Apply(u, LoginByUserID(now)) ==
            u.(lastLogin := Some(now), failedCount := 0, lockedUntil := None, version := u.version + 1)
    ensures Apply(u, NewPassword(hash, now)) == u.(hash := Some(hash), version := u.version + 1)
    ensures Apply(u, SetActive(active, now)) == u.(active := active, version := u.version + 1)
  {
  }
}

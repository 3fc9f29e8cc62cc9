/** The rolling-window limiter on unauthenticated operations. */
module RateLimit {
  import opened Text
  import opened Timestamps

  /** An instant the log can hold; its attempted_at column is NanoText of it. */
  type Stamp = t: Instant | Storable(t) witness 0

  datatype Rule = Rule(operation: string, window: int, maxPerSource: int, maxPerTarget: int)

  const RecoveryRule: Rule := Rule("auth.recovery.request", 15 * MINUTE, 5, 5)

  datatype Attempt = Attempt(operation: string, source: Option<string>, target: Option<string>, allowed: bool, at: Stamp)

  datatype Decision = Allowed | LimitedBySource | LimitedByTarget

  /** The keyed digest of a normalized target, as an unknown function. */
  type Hash = string -> string

  function NormalizeTarget(target: string): string { ToLower(TrimSpace(target)) }

  /** No target is no bucket, rather than a bucket of its own. */
  function TargetKey(hash: Hash, target: string): Option<string> {
    if NormalizeTarget(target) == "" then None else Some(hash(NormalizeTarget(target)))
  }

  /** An unknown source is no bucket either. */
  function SourceKey(sourceHash: string): Option<string> {
    if sourceHash == "" then None else Some(sourceHash)
  }

  /** Two spellings of one target: they agree up to case and outer spaces. */
  predicate SameTarget(a: string, b: string) { EqualFold(TrimSpace(a), TrimSpace(b)) }

  predicate Blank(target: string) { forall i | 0 <= i < |target| :: IsSpace(target[i]) }

  /** Spellings of one target have one key, and a digest that tells texts apart gives different targets
      different ones; a blank target has none. */
  lemma KeyOfSpelling(hash: Hash, a: string, b: string)
    ensures SameTarget(a, b) ==> TargetKey(hash, a) == TargetKey(hash, b)
    ensures TargetKey(hash, a) == None <==> Blank(a)
    ensures Injective(hash) ==> (TargetKey(hash, a) == TargetKey(hash, b) <==> SameTarget(a, b))
  {
    hide TrimSpace, IsSpace;
  }

  ghost predicate Injective(hash: Hash) { forall x, y | hash(x) == hash(y) :: x == y }

  // ---- Counting ----------------------------------------------------------

  /** What one counting query selects on besides the time. */
  datatype Bucket = BySource(operation: string, key: string) | ByTarget(operation: string, key: string)

  predicate In(b: Bucket, a: Attempt) {
    a.operation == b.operation &&
    match b case BySource(_, key) => a.source == Some(key) case ByTarget(_, key) => a.target == Some(key)
  }

  /** attempted_at >= cutoff: the column and the cutoff are compared as texts. */
  predicate AtOrAfter(t: Stamp, cut: Stamp) { TextAtLeast(NanoText(t), NanoText(cut)) }

  /** The comparison in terms of instants: it is turned round for an inverted pair. */
  lemma AtOrAfterMeans(t: Stamp, cut: Stamp)
    ensures AtOrAfter(t, cut) <==> if Inverted(t, cut) then t <= cut else t >= cut
  {
    hide NanoText, TextLess, Inverted;
    TextOrder(t, cut);
  }

  lemma AtOrAfterTransitive(t: Stamp, u: Stamp, v: Stamp)
    requires AtOrAfter(t, u) && AtOrAfter(u, v)
    ensures AtOrAfter(t, v)
  {
    hide NanoText, TextLess;
    TextLessTotal(NanoText(v), NanoText(u));
    if TextLess(NanoText(t), NanoText(v)) && NanoText(v) != NanoText(u) {
      TextLessTransitive(NanoText(t), NanoText(v), NanoText(u));
    }
  }

  /** SELECT count(*) ... AND attempted_at >= since */
  function Count(log: seq<Attempt>, b: Bucket, since: Stamp): (n: nat)
    ensures n <= |log|
  {
    if log == [] then 0
    else
      var a := log[|log| - 1];
      Count(log[..|log| - 1], b, since) + (if In(b, a) && AtOrAfter(a.at, since) then 1 else 0)
  }

  /** The attempts of a bucket that were made at or after an instant. */
  function TrueCount(log: seq<Attempt>, b: Bucket, since: Instant): nat {
    if log == [] then 0
    else
      var a := log[|log| - 1];
      TrueCount(log[..|log| - 1], b, since) + (if In(b, a) && a.at >= since then 1 else 0)
  }

  /** Every attempt of a bucket, allowed or not. */
  function Occurrences(log: seq<Attempt>, b: Bucket): nat {
    if log == [] then 0
    else Occurrences(log[..|log| - 1], b) + (if In(b, log[|log| - 1]) then 1 else 0)
  }

  // ---- Deciding ----------------------------------------------------------

  predicate Exceeds(log: seq<Attempt>, operation: string, bySource: bool, key: Option<string>, max: int, since: Stamp) {
    max > 0 && key.Some? &&
    Count(log, if bySource then BySource(operation, key.value) else ByTarget(operation, key.value), since) >= max
  }

  function Decide(log: seq<Attempt>, hash: Hash, rule: Rule, sourceHash: string, target: string, now: Stamp): Decision
    requires Storable(now - rule.window)
  {
    var since: Stamp := now - rule.window;
    if Exceeds(log, rule.operation, true, SourceKey(sourceHash), rule.maxPerSource, since) then LimitedBySource
    else if Exceeds(log, rule.operation, false, TargetKey(hash, target), rule.maxPerTarget, since) then LimitedByTarget
    else Allowed
  }

  function Recorded(hash: Hash, rule: Rule, sourceHash: string, target: string, now: Stamp, d: Decision): Attempt {
    Attempt(rule.operation, SourceKey(sourceHash), TargetKey(hash, target), d.Allowed?, now)
  }

  /** DELETE ... WHERE attempted_at < cutoff */
  function Retained(log: seq<Attempt>, cutoff: Stamp): seq<Attempt> {
    if log == [] then []
    else
      var a := log[|log| - 1];
      Retained(log[..|log| - 1], cutoff) + (if AtOrAfter(a.at, cutoff) then [a] else [])
  }

  class Limiter {
    const hash: Hash
    var log: seq<Attempt>

    constructor (hash: Hash)
      ensures this.hash == hash && log == []
    {
      this.hash := hash;
      log := [];
    }

    /** Allow: whatever is decided, the attempt is recorded. */
    method Allow(rule: Rule, sourceHash: string, target: string, now: Stamp) returns (decision: Decision)
      requires Storable(now - rule.window)
      modifies this
      ensures decision == Decide(old(log), hash, rule, sourceHash, target, now)
      ensures log == old(log) + [Recorded(hash, rule, sourceHash, target, now, decision)]
    {
      hide Count, TargetKey, SourceKey, Storable;
      var since: Stamp := now - rule.window;
      var source := SourceKey(sourceHash);
      var targetKey := TargetKey(hash, target);
      decision := Allowed;
      if rule.maxPerSource > 0 && source.Some? {
        var n := Count(log, BySource(rule.operation, source.value), since);
        if n >= rule.maxPerSource {
          decision := LimitedBySource;
        }
      }
      if decision.Allowed? && rule.maxPerTarget > 0 && targetKey.Some? {
        var n := Count(log, ByTarget(rule.operation, targetKey.value), since);
        if n >= rule.maxPerTarget {
          decision := LimitedByTarget;
        }
      }
      log := log + [Attempt(rule.operation, source, targetKey, decision.Allowed?, now)];
    }

    method Prune(olderThan: int, now: Stamp)
      requires Storable(now - olderThan)
      modifies this
      ensures log == Retained(old(log), now - olderThan)
    {
      log := Retained(log, now - olderThan);
    }
  }

  // ---- Runs --------------------------------------------------------------

  datatype Call =
    | Ask(rule: Rule, sourceHash: string, target: string, now: Stamp)
    | PruneOlder(olderThan: int, now: Stamp)

  /** The cutoff a call compares against. */
  function Cutoff(c: Call): Instant { c.now - (if c.Ask? then c.rule.window else c.olderThan) }

  type TimedCall = c: Call | Storable(Cutoff(c)) witness PruneOlder(0, 0)

  predicate ClockForward(calls: seq<TimedCall>) {
    forall i, j | 0 <= i <= j < |calls| :: calls[i].now <= calls[j].now
  }

  /** One call on a log: the new log and, for Ask, the decision. */
  function Step(hash: Hash, log: seq<Attempt>, c: TimedCall): (r: (seq<Attempt>, seq<Decision>)) {
    match c
    case Ask(rule, sourceHash, target, now) =>
      var d := Decide(log, hash, rule, sourceHash, target, now);
      (log + [Recorded(hash, rule, sourceHash, target, now, d)], [d])
    case PruneOlder(_, _) => (Retained(log, Cutoff(c)), [])
  }

  /** The log after a run, and the decisions given. */
  function Run(hash: Hash, log: seq<Attempt>, calls: seq<TimedCall>): (r: (seq<Attempt>, seq<Decision>))
    decreases |calls|
  {
    if calls == [] then (log, [])
    else
      var s := Step(hash, log, calls[0]);
      var rest := Run(hash, s.0, calls[1..]);
      (rest.0, s.1 + rest.1)
  }

  // ---- What a log says about its run --------------------------------------

  predicate Ordered(log: seq<Attempt>) {
    forall i, j | 0 <= i <= j < |log| :: log[i].at <= log[j].at
  }

  function MaxOf(rule: Rule, b: Bucket): int { if b.BySource? then rule.maxPerSource else rule.maxPerTarget }

  /** Each bucket of an attempt with a maximum has fewer attempts on record, by the texts, than that. */
  ghost predicate WithinLimits(before: seq<Attempt>, rule: Rule, a: Attempt)
    requires Storable(a.at - rule.window)
  {
    forall b: Bucket {:trigger In(b, a)} | b.operation == rule.operation && In(b, a) && MaxOf(rule, b) > 0 ::
      Count(before, b, a.at - rule.window) < MaxOf(rule, b)
  }

  /** Every attempt of the rule's operation was allowed exactly when it was within the limits then. */
  ghost predicate Explained(log: seq<Attempt>, rule: Rule) {
    forall j: nat | j < |log| && log[j].operation == rule.operation ::
      Storable(log[j].at - rule.window) && (log[j].allowed <==> WithinLimits(log[..j], rule, log[j]))
  }

  /** Allowing an attempt is finding its buckets within their limits. */
  lemma DecideIsWithinLimits(log: seq<Attempt>, hash: Hash, rule: Rule, sourceHash: string, target: string, now: Stamp)
    requires Storable(now - rule.window)
    ensures forall d: Decision :: Decide(log, hash, rule, sourceHash, target, now).Allowed? <==>
              WithinLimits(log, rule, Recorded(hash, rule, sourceHash, target, now, d))
  {
    hide Count, SourceKey, TargetKey, Storable;
    var source, key := SourceKey(sourceHash), TargetKey(hash, target);
    forall d: Decision
      ensures Decide(log, hash, rule, sourceHash, target, now).Allowed? <==>
              WithinLimits(log, rule, Recorded(hash, rule, sourceHash, target, now, d))
    {
      var a := Recorded(hash, rule, sourceHash, target, now, d);
      assert source.Some? ==> In(BySource(rule.operation, source.value), a);
      assert key.Some? ==> In(ByTarget(rule.operation, key.value), a);
    }
  }

  lemma StepExplained(hash: Hash, log: seq<Attempt>, rule: Rule, c: TimedCall)
    requires Explained(log, rule) && c.Ask?
    requires c.rule.operation == rule.operation ==> c.rule == rule
    ensures Explained(Step(hash, log, c).0, rule)
  {
    hide WithinLimits, Decide;
    var log' := Step(hash, log, c).0;
    assert log' == log + [log'[|log|]];
    DecideIsWithinLimits(log, hash, c.rule, c.sourceHash, c.target, c.now);
    forall j: nat | j < |log'| && log'[j].operation == rule.operation
      ensures Storable(log'[j].at - rule.window) && (log'[j].allowed <==> WithinLimits(log'[..j], rule, log'[j]))
    {
      if j < |log| {
        assert log'[..j] == log[..j];
      } else {
        assert log'[..j] == log;
      }
    }
  }

  lemma {:induction false} RunExplained(hash: Hash, log: seq<Attempt>, rule: Rule, calls: seq<TimedCall>)
    requires ClockForward(calls) && Explained(log, rule) && Ordered(log)
    requires |log| > 0 && |calls| > 0 ==> log[|log| - 1].at <= calls[0].now
    requires OneRule(rule, calls)
    ensures Explained(Run(hash, log, calls).0, rule) && Ordered(Run(hash, log, calls).0)
    decreases |calls|
  {
    hide WithinLimits;
    if calls != [] {
      StepExplained(hash, log, rule, calls[0]);
      var log' := Step(hash, log, calls[0]).0;
      assert forall i | 0 <= i < |log| :: log'[i] == log[i];
      assert ClockForward(calls[1..]);
      RunExplained(hash, log', rule, calls[1..]);
    }
  }

  /** Nothing is pruned, and the operation is asked for under this rule only. */
  predicate OneRule(rule: Rule, calls: seq<TimedCall>) {
    forall i | 0 <= i < |calls| :: calls[i].Ask? && (calls[i].rule.operation == rule.operation ==> calls[i].rule == rule)
  }

  // ---- Counting by text against counting by time --------------------------

  /** The attempts of a bucket made at or after the cutoff whose texts order before it: they are missed. */
  function Missed(log: seq<Attempt>, b: Bucket, cut: Stamp): nat {
    if log == [] then 0
    else
      var a := log[|log| - 1];
      Missed(log[..|log| - 1], b, cut) + (if In(b, a) && a.at >= cut && Inverted(a.at, cut) then 1 else 0)
  }

  /** The attempts made before the cutoff whose texts order after it: they are counted all the same. */
  function Overdue(log: seq<Attempt>, b: Bucket, cut: Stamp): nat {
    if log == [] then 0
    else
      var a := log[|log| - 1];
      Overdue(log[..|log| - 1], b, cut) + (if In(b, a) && a.at < cut && Inverted(a.at, cut) then 1 else 0)
  }

  lemma InvertedApart(t: Instant, u: Instant)
    requires Inverted(t, u)
    ensures t != u
  {
    hide FractionDigits;
  }

  /** In every log the query counts the attempts inside the window, less those missed, plus those overdue. */
  lemma {:induction false} CountIsExact(log: seq<Attempt>, b: Bucket, cut: Stamp)
    ensures Count(log, b, cut) + Missed(log, b, cut) == TrueCount(log, b, cut) + Overdue(log, b, cut)
  {
    hide AtOrAfter, Inverted;
    if log != [] {
      var a := log[|log| - 1];
      CountIsExact(log[..|log| - 1], b, cut);
      AtOrAfterMeans(a.at, cut);
      if Inverted(a.at, cut) {
        InvertedApart(a.at, cut);
      }
    }
  }

  predicate NoneInverted(log: seq<Attempt>, b: Bucket, cut: Stamp) {
    forall k | 0 <= k < |log| && In(b, log[k]) :: !Inverted(log[k].at, cut)
  }

  lemma {:induction false} NoneMissed(log: seq<Attempt>, b: Bucket, cut: Stamp)
    requires NoneInverted(log, b, cut)
    ensures Missed(log, b, cut) == 0 == Overdue(log, b, cut)
  {
    hide Inverted;
    if log != [] {
      NoneMissed(log[..|log| - 1], b, cut);
    }
  }

  /** The query counts exactly the attempts inside the window when none of them is inverted with the cutoff. */
  lemma CountIsTrueCount(log: seq<Attempt>, b: Bucket, cut: Stamp)
    requires NoneInverted(log, b, cut)
    ensures Count(log, b, cut) == TrueCount(log, b, cut)
  {
    CountIsExact(log, b, cut);
    NoneMissed(log, b, cut);
  }

  /** The attempts of a bucket in one whole second. */
  function InSecond(log: seq<Attempt>, b: Bucket, second: int): nat {
    if log == [] then 0
    else
      var a := log[|log| - 1];
      InSecond(log[..|log| - 1], b, second) + (if In(b, a) && SecondOf(a.at) == second then 1 else 0)
  }

  /** What is missed or overdue was made in the cutoff's own second, so in any log the two counts differ by no
      more than the attempts made then. */
  lemma {:induction false} CountsDifferInOneSecond(log: seq<Attempt>, b: Bucket, cut: Stamp)
    ensures Missed(log, b, cut) + Overdue(log, b, cut) <= InSecond(log, b, SecondOf(cut))
    ensures Count(log, b, cut) <= TrueCount(log, b, cut) + InSecond(log, b, SecondOf(cut))
    ensures TrueCount(log, b, cut) <= Count(log, b, cut) + InSecond(log, b, SecondOf(cut))
  {
    CountIsExact(log, b, cut);
    if log != [] {
      CountsDifferInOneSecond(log[..|log| - 1], b, cut);
    }
  }

  // ---- The bound ---------------------------------------------------------

  /** Exactly which attempts are allowed, in every run: those for which each of their buckets has fewer attempts
      inside the window than the maximum, where what is missed does not count and what is overdue does. */
  lemma AllowedExactly(hash: Hash, rule: Rule, calls: seq<TimedCall>, j: nat)
    requires ClockForward(calls) && OneRule(rule, calls)
    requires var log := Run(hash, [], calls).0; j < |log| && log[j].operation == rule.operation
    ensures var log := Run(hash, [], calls).0;
            Storable(log[j].at - rule.window) &&
            (log[j].allowed <==>
             forall b: Bucket | b.operation == rule.operation && In(b, log[j]) && MaxOf(rule, b) > 0 ::
               TrueCount(log[..j], b, log[j].at - rule.window) + Overdue(log[..j], b, log[j].at - rule.window) <
               MaxOf(rule, b) + Missed(log[..j], b, log[j].at - rule.window))
  {
    hide Count, TrueCount, Missed, Overdue, Run;
    var log := Run(hash, [], calls).0;
    RunExplained(hash, [], rule, calls);
    var cut: Stamp := log[j].at - rule.window;
    forall b: Bucket
      ensures Count(log[..j], b, cut) + Missed(log[..j], b, cut) == TrueCount(log[..j], b, cut) + Overdue(log[..j], b, cut)
    {
      CountIsExact(log[..j], b, cut);
    }
  }

  /** Every attempt inside the window is counted, or else missed. */
  lemma {:induction false} CountCovers(log: seq<Attempt>, b: Bucket, i: nat, cut: Stamp)
    requires i <= |log| && Ordered(log)
    requires i < |log| ==> log[i].at >= cut
    ensures Count(log, b, cut) + Missed(log[i..], b, cut) >= Occurrences(log[i..], b)
    decreases |log|
  {
    hide AtOrAfter, Inverted;
    if i < |log| {
      var init, last := log[..|log| - 1], log[|log| - 1];
      assert log[i..][..|log| - i - 1] == init[i..];
      CountCovers(init, b, i, cut);
      assert log[i].at <= last.at;
      AtOrAfterMeans(last.at, cut);
    }
  }

  /** The bound the limiter keeps. Take any span of a log, no longer than the window, that ends in an allowed
      attempt of a bucket: refused attempts included, it holds at most the maximum and as many more as
      were missed when that attempt was decided; where none of them is inverted, at most the maximum. */
  lemma WindowBound(hash: Hash, rule: Rule, calls: seq<TimedCall>, b: Bucket, i: nat, j: nat)
    requires ClockForward(calls) && OneRule(rule, calls)
    requires var log := Run(hash, [], calls).0;
             i <= j < |log| && log[j].allowed && In(b, log[j]) && b.operation == rule.operation && MaxOf(rule, b) > 0 &&
             log[i].at >= log[j].at - rule.window
    ensures var log := Run(hash, [], calls).0;
            Storable(log[j].at - rule.window) &&
            var missed := Missed(log[i..j], b, log[j].at - rule.window);
            Occurrences(log[i..j + 1], b) <= MaxOf(rule, b) + missed &&
            (NoneInverted(log[i..j], b, log[j].at - rule.window) ==> missed == 0)
  {
    hide Count, Run, Missed, Inverted;
    var log := Run(hash, [], calls).0;
    RunExplained(hash, [], rule, calls);
    var cut: Stamp := log[j].at - rule.window;
    var before := log[..j];
    assert WithinLimits(before, rule, log[j]);
    assert Count(before, b, cut) < MaxOf(rule, b);
    CountCovers(before, b, i, cut);
    assert before[i..] == log[i..j] && log[i..j + 1][..j - i] == before[i..];
    if NoneInverted(log[i..j], b, cut) {
      NoneMissed(log[i..j], b, cut);
    }
  }

  lemma {:induction false} WholeWindow(log: seq<Attempt>, b: Bucket, i: nat, cut: Stamp)
    requires i <= |log|
    requires forall k | 0 <= k < |log| :: log[k].at >= cut <==> i <= k
    ensures TrueCount(log, b, cut) == Occurrences(log[i..], b)
    ensures Missed(log, b, cut) == Missed(log[i..], b, cut) && Overdue(log, b, cut) == Overdue(log[..i], b, cut)
    decreases |log|
  {
    hide Inverted;
    if log != [] {
      var n := |log| - 1;
      if i <= n {
        assert log[i..][..n - i] == log[..n][i..] && log[..n][..i] == log[..i];
        WholeWindow(log[..n], b, i, cut);
      } else {
        assert log[..i] == log && log[i..] == [];
        WholeWindow(log[..n], b, n, cut);
        assert log[..n][..n] == log[..n] && log[..n][n..] == [];
      }
    }
  }

  /** When more than the maximum gets through. Let the span begin with the first attempt inside the window of
      its last one: that attempt is within the bucket's limit if and only if the span holds no more than the
      maximum, those missed in it added and those overdue before it taken off. */
  lemma ExcessAdmitted(log: seq<Attempt>, rule: Rule, b: Bucket, i: nat, j: nat)
    requires i <= j < |log| && Ordered(log) && In(b, log[j]) && Storable(log[j].at - rule.window)
    requires log[i].at >= log[j].at - rule.window && (i > 0 ==> log[i - 1].at < log[j].at - rule.window)
    ensures var cut := log[j].at - rule.window;
            Count(log[..j], b, cut) < MaxOf(rule, b) <==>
            Occurrences(log[i..j + 1], b) + Overdue(log[..i], b, cut) <= MaxOf(rule, b) + Missed(log[i..j], b, cut)
  {
    hide Count, Missed, Overdue, TrueCount;
    var cut, before := log[j].at - rule.window, log[..j];
    WholeWindow(before, b, i, cut);
    CountIsExact(before, b, cut);
    assert before[i..] == log[i..j] && before[..i] == log[..i] && log[i..j + 1][..j - i] == log[i..j];
  }

  /** Attempts in whole seconds later than the cutoff's are not inverted with it. */
  lemma LaterSecond(log: seq<Attempt>, b: Bucket, cut: Stamp)
    requires Ordered(log) && (log != [] ==> SecondOf(log[0].at) > SecondOf(cut))
    ensures NoneInverted(log, b, cut)
  {
    forall k | 0 <= k < |log| ensures SecondOf(log[k].at) > SecondOf(cut) {
      assert log[0].at <= log[k].at;
    }
  }

  /** In particular a span that begins in a whole second later than the second the window begins in holds
      at most the maximum. */
  lemma SpanInLaterSeconds(hash: Hash, rule: Rule, calls: seq<TimedCall>, b: Bucket, i: nat, j: nat)
    requires ClockForward(calls) && OneRule(rule, calls)
    requires var log := Run(hash, [], calls).0;
             i <= j < |log| && log[j].allowed && In(b, log[j]) && b.operation == rule.operation && MaxOf(rule, b) > 0 &&
             SecondOf(log[i].at) > SecondOf(log[j].at - rule.window)
    ensures Occurrences(Run(hash, [], calls).0[i..j + 1], b) <= MaxOf(rule, b)
  {
    hide Run, NoneInverted, Explained;
    var log := Run(hash, [], calls).0;
    WindowBound(hash, rule, calls, b, i, j);
    assert Explained([], rule) by { NothingToExplain(rule); }
    RunExplained(hash, [], rule, calls);
    LaterSecond(log[i..j], b, log[j].at - rule.window);
  }

  /** A span shorter than the window by a second is such a span. */
  lemma SpanShortByASecond(first: Stamp, last: Stamp, window: int)
    requires last - first <= window - NS_PER_SECOND
    ensures SecondOf(first) > SecondOf(last - window)
  {
  }

  lemma NothingToExplain(rule: Rule)
    ensures Explained([], rule)
  {
  }

  /** The buckets of an attempt to come. */
  predicate Asks(hash: Hash, rule: Rule, sourceHash: string, target: string, b: Bucket) {
    (sourceHash != "" && b == BySource(rule.operation, sourceHash)) || Some(b) == TargetBucket(hash, rule, target)
  }

  function TargetBucket(hash: Hash, rule: Rule, target: string): Option<Bucket> {
    match TargetKey(hash, target) case None => None case Some(key) => Some(ByTarget(rule.operation, key))
  }

  lemma DecideByBuckets(log: seq<Attempt>, hash: Hash, rule: Rule, sourceHash: string, target: string, now: Stamp)
    requires Storable(now - rule.window)
    ensures Decide(log, hash, rule, sourceHash, target, now).Allowed? <==>
            forall b: Bucket | Asks(hash, rule, sourceHash, target, b) && MaxOf(rule, b) > 0 ::
              Count(log, b, now - rule.window) < MaxOf(rule, b)
  {
    hide Count, NormalizeTarget, Storable;
    if sourceHash != "" {
      assert Asks(hash, rule, sourceHash, target, BySource(rule.operation, sourceHash));
    }
    if TargetKey(hash, target).Some? {
      assert Asks(hash, rule, sourceHash, target, ByTarget(rule.operation, TargetKey(hash, target).value));
    }
  }

  /** However a target is spelled, the same is decided, on every log, and the same is recorded; a request
      without a target is never limited by one. */
  lemma SpellingIsImmaterial(log: seq<Attempt>, hash: Hash, rule: Rule, sourceHash: string, a: string, b: string,
                             now: Stamp, d: Decision)
    requires Storable(now - rule.window) && SameTarget(a, b)
    ensures Decide(log, hash, rule, sourceHash, a, now) == Decide(log, hash, rule, sourceHash, b, now)
    ensures Recorded(hash, rule, sourceHash, a, now, d) == Recorded(hash, rule, sourceHash, b, now, d)
    ensures Blank(a) ==> Decide(log, hash, rule, sourceHash, a, now) != LimitedByTarget
    ensures Blank(a) <==> Recorded(hash, rule, sourceHash, a, now, d).target == None
  {
    hide Count, TargetKey, SourceKey, SameTarget, Blank, Storable;
    KeyOfSpelling(hash, a, b);
  }

  /** Requests for different targets are recorded under different keys, if the digest tells them apart. */
  lemma TargetsApart(hash: Hash, rule: Rule, s: string, a: string, now: Stamp, d: Decision, s': string, b: string,
                     now': Stamp, d': Decision)
    requires Injective(hash)
    ensures Recorded(hash, rule, s, a, now, d).target == Recorded(hash, rule, s', b, now', d').target <==> SameTarget(a, b)
  {
    hide SourceKey, TargetKey, SameTarget, Injective;
    KeyOfSpelling(hash, a, b);
  }

  /** The log of a run that starts empty and prunes nothing holds one attempt per request, in order. */
  lemma {:induction false} RunRecords(hash: Hash, log: seq<Attempt>, calls: seq<TimedCall>)
    requires forall k | 0 <= k < |calls| :: calls[k].Ask?
    ensures var r := Run(hash, log, calls).0;
            |r| == |log| + |calls| && log <= r &&
            forall k | 0 <= k < |calls| :: Records(hash, r[|log| + k], calls[k])
    decreases |calls|
  {
    hide Decide, SourceKey, TargetKey, Records;
    if calls != [] {
      var log' := Step(hash, log, calls[0]).0;
      RunRecords(hash, log', calls[1..]);
      assert Records(hash, log'[|log|], calls[0]) by { StepRecords(hash, log, calls[0]); }
      var r := Run(hash, log, calls).0;
      forall k | 0 <= k < |calls| ensures Records(hash, r[|log| + k], calls[k]) {
        if k > 0 { assert calls[1..][k - 1] == calls[k]; }
      }
    }
  }

  predicate Records(hash: Hash, a: Attempt, c: TimedCall) {
    c.Ask? && a.operation == c.rule.operation && a.source == SourceKey(c.sourceHash) && a.at == c.now &&
    a.target == TargetKey(hash, c.target)
  }

  lemma StepRecords(hash: Hash, log: seq<Attempt>, c: TimedCall)
    requires c.Ask?
    ensures Records(hash, Step(hash, log, c).0[|log|], c)
  {
    hide Decide, SourceKey, TargetKey;
  }

  /** The requests of an operation for a target, however they spell it. */
  function ForTarget(calls: seq<TimedCall>, operation: string, target: string): nat {
    if calls == [] then 0
    else
      var c := calls[|calls| - 1];
      ForTarget(calls[..|calls| - 1], operation, target) +
      (if c.Ask? && c.rule.operation == operation && SameTarget(c.target, target) then 1 else 0)
  }

  /** The requests of an operation from a source. */
  function FromSource(calls: seq<TimedCall>, operation: string, sourceHash: string): nat {
    if calls == [] then 0
    else
      var c := calls[|calls| - 1];
      FromSource(calls[..|calls| - 1], operation, sourceHash) +
      (if c.Ask? && c.rule.operation == operation && c.sourceHash == sourceHash then 1 else 0)
  }

  lemma {:induction false} RequestsAreCounted(hash: Hash, log: seq<Attempt>, calls: seq<TimedCall>, operation: string,
                                              sourceHash: string, target: string)
    requires |log| == |calls| && forall k | 0 <= k < |calls| :: Records(hash, log[k], calls[k])
    ensures !Blank(target) ==>
              TargetKey(hash, target).Some? &&
              ForTarget(calls, operation, target) <= Occurrences(log, ByTarget(operation, TargetKey(hash, target).value)) &&
              (Injective(hash) ==> ForTarget(calls, operation, target) ==
                                   Occurrences(log, ByTarget(operation, TargetKey(hash, target).value)))
    ensures sourceHash != "" ==>
              FromSource(calls, operation, sourceHash) == Occurrences(log, BySource(operation, sourceHash))
  {
    hide TargetKey, SameTarget, Blank, Injective;
    KeyOfSpelling(hash, target, target);
    if calls != [] {
      var n := |calls| - 1;
      RequestsAreCounted(hash, log[..n], calls[..n], operation, sourceHash, target);
      KeyOfSpelling(hash, calls[n].target, target);
    }
  }

  /** The bounds over requests. Take any span of a run, no longer than the window, that ends in an allowed
      request: however they spell it, it holds no more requests for that one's target than the maximum and those
      missed; and no more from its source. */
  lemma RequestBounds(hash: Hash, rule: Rule, calls: seq<TimedCall>, i: nat, j: nat)
    requires ClockForward(calls) && OneRule(rule, calls) && i <= j < |calls| && calls[j].rule == rule
    requires calls[i].now >= calls[j].now - rule.window
    ensures |Run(hash, [], calls).0| == |calls|
    ensures var log := Run(hash, [], calls).0;
            log[j].allowed && rule.maxPerTarget > 0 && !Blank(calls[j].target) ==>
              TargetKey(hash, calls[j].target).Some? &&
              ForTarget(calls[i..j + 1], rule.operation, calls[j].target) <= rule.maxPerTarget +
                Missed(log[i..j], ByTarget(rule.operation, TargetKey(hash, calls[j].target).value), Cutoff(calls[j]))
    ensures var log := Run(hash, [], calls).0;
            log[j].allowed && rule.maxPerSource > 0 && calls[j].sourceHash != "" ==>
              FromSource(calls[i..j + 1], rule.operation, calls[j].sourceHash) <= rule.maxPerSource +
                Missed(log[i..j], BySource(rule.operation, calls[j].sourceHash), Cutoff(calls[j]))
  {
    hide Run, Count, Missed, Occurrences, ForTarget, FromSource, TargetKey, Blank, SameTarget, NoneInverted, ClockForward;
    var log := Run(hash, [], calls).0;
    RunRecords(hash, [], calls);
    assert forall k | 0 <= k < |calls| :: Records(hash, log[0 + k], calls[k]);
    RequestsAreCounted(hash, log[i..j + 1], calls[i..j + 1], rule.operation, calls[j].sourceHash, calls[j].target);
    assert Records(hash, log[j], calls[j]) && Records(hash, log[i], calls[i]);
    if log[j].allowed && rule.maxPerTarget > 0 && !Blank(calls[j].target) {
      WindowBound(hash, rule, calls, ByTarget(rule.operation, TargetKey(hash, calls[j].target).value), i, j);
    }
    if log[j].allowed && rule.maxPerSource > 0 && calls[j].sourceHash != "" {
      WindowBound(hash, rule, calls, BySource(rule.operation, calls[j].sourceHash), i, j);
    }
  }

  /** Refused attempts count: once a bucket holds the maximum inside the window, besides those missed, the
      next attempt is refused, whatever became of those attempts. */
  lemma HammeringExtendsTheBlock(log: seq<Attempt>, hash: Hash, rule: Rule, sourceHash: string, target: string, now: Stamp,
                                 b: Bucket, i: nat)
    requires Storable(now - rule.window) && Ordered(log) && i < |log|
    requires Asks(hash, rule, sourceHash, target, b) && log[i].at >= now - rule.window
    requires 0 < MaxOf(rule, b) && MaxOf(rule, b) + Missed(log[i..], b, now - rule.window) <= Occurrences(log[i..], b)
    ensures !Decide(log, hash, rule, sourceHash, target, now).Allowed?
  {
    hide Count, Occurrences, Missed;
    CountCovers(log, b, i, now - rule.window);
    DecideByBuckets(log, hash, rule, sourceHash, target, now);
  }

  lemma {:induction false} CountIsZero(log: seq<Attempt>, b: Bucket, cut: Stamp)
    requires forall k | 0 <= k < |log| && In(b, log[k]) :: !AtOrAfter(log[k].at, cut)
    ensures Count(log, b, cut) == 0
  {
    hide AtOrAfter;
    if log != [] {
      CountIsZero(log[..|log| - 1], b, cut);
    }
  }

  lemma {:induction false} NothingInside(log: seq<Attempt>, b: Bucket, cut: Stamp)
    requires forall k | 0 <= k < |log| && In(b, log[k]) :: log[k].at < cut
    ensures TrueCount(log, b, cut) == 0 == Missed(log, b, cut)
  {
    hide Inverted;
    if log != [] {
      NothingInside(log[..|log| - 1], b, cut);
    }
  }

  /** A source and a target quiet for longer than the window are allowed again exactly when the attempts still
      overdue do not reach a maximum; so they are allowed when none of theirs is inverted with the cutoff. */
  lemma QuietIsAllowed(log: seq<Attempt>, hash: Hash, rule: Rule, sourceHash: string, target: string, now: Stamp)
    requires Storable(now - rule.window)
    requires forall k, b: Bucket {:trigger In(b, log[k])} |
               0 <= k < |log| && Asks(hash, rule, sourceHash, target, b) && In(b, log[k]) :: log[k].at < now - rule.window
    ensures Decide(log, hash, rule, sourceHash, target, now).Allowed? <==>
            forall b: Bucket | Asks(hash, rule, sourceHash, target, b) && MaxOf(rule, b) > 0 ::
              Overdue(log, b, now - rule.window) < MaxOf(rule, b)
    ensures (forall b: Bucket | Asks(hash, rule, sourceHash, target, b) :: NoneInverted(log, b, now - rule.window)) ==>
              Decide(log, hash, rule, sourceHash, target, now).Allowed?
  {
    hide Count, TrueCount, Missed, Overdue, Asks, Decide, NoneInverted;
    var cut: Stamp := now - rule.window;
    DecideByBuckets(log, hash, rule, sourceHash, target, now);
    forall b: Bucket | Asks(hash, rule, sourceHash, target, b) ensures Count(log, b, cut) == Overdue(log, b, cut) {
      NothingInside(log, b, cut);
      CountIsExact(log, b, cut);
    }
    forall b: Bucket | NoneInverted(log, b, cut) ensures Overdue(log, b, cut) == 0 {
      NoneMissed(log, b, cut);
    }
  }

  function Same(n: nat, a: Attempt): (s: seq<Attempt>)
    ensures |s| == n && forall i | 0 <= i < n :: s[i] == a
  {
    seq(n, i => a)
  }

  /** Fewer attempts on record than either maximum: allowed. */
  lemma FewAreAllowed(log: seq<Attempt>, hash: Hash, rule: Rule, source: string, target: string, now: Stamp)
    requires Storable(now - rule.window) && |log| < rule.maxPerSource && |log| < rule.maxPerTarget
    ensures Decide(log, hash, rule, source, target, now) == Allowed
  {
    hide Count, SourceKey, TargetKey, Storable;
  }

  /** None of the attempts on record compares as inside the window: allowed. */
  lemma UncountedAreAllowed(log: seq<Attempt>, hash: Hash, rule: Rule, source: string, target: string, now: Stamp)
    requires Storable(now - rule.window)
    requires forall k | 0 <= k < |log| :: !AtOrAfter(log[k].at, now - rule.window)
    ensures Decide(log, hash, rule, source, target, now) == Allowed
  {
    hide AtOrAfter, Count, SourceKey, TargetKey, Storable;
    if SourceKey(source).Some? {
      CountIsZero(log, BySource(rule.operation, SourceKey(source).value), now - rule.window);
    }
    if TargetKey(hash, target).Some? {
      CountIsZero(log, ByTarget(rule.operation, TargetKey(hash, target).value), now - rule.window);
    }
  }

  /** The window itself is not a bound: six recovery requests from one source against one target are
      all allowed within 899.99 seconds, though the rule allows five in 900. The first five are made
      51 hundredths into a second; the window of the sixth begins half a second into it, and that
      text is the greater one. */
  lemma SixInsideTheWindow(hash: Hash, source: string, target: string, second: nat)
    requires 900 <= second && second + 901 < DAYS * SECONDS_PER_DAY
    ensures var t, u := second * NS_PER_SECOND + 510_000_000, (second + 900) * NS_PER_SECOND + 500_000_000;
            Storable(t) && Storable(u) && Storable(t - RecoveryRule.window) && Storable(u - RecoveryRule.window) &&
            u - t < RecoveryRule.window &&
            var a := Recorded(hash, RecoveryRule, source, target, t, Allowed);
            (forall n: nat | n < 5 :: Decide(Same(n, a), hash, RecoveryRule, source, target, t) == Allowed) &&
            Decide(Same(5, a), hash, RecoveryRule, source, target, u) == Allowed
  {
    hide NanoText, TextLess, Count, Inverted, Decide, Recorded;
    var t, u := second * NS_PER_SECOND + 510_000_000, (second + 900) * NS_PER_SECOND + 500_000_000;
    assert u - RecoveryRule.window == second * NS_PER_SECOND + 500_000_000;
    InversionsExist(second);
    var a := Recorded(hash, RecoveryRule, source, target, t, Allowed);
    assert a.at == t by { RecordedAt(hash, RecoveryRule, source, target, t, Allowed); }
    forall n: nat | n < 5
      ensures Decide(Same(n, a), hash, RecoveryRule, source, target, t) == Allowed
    {
      FewAreAllowed(Same(n, a), hash, RecoveryRule, source, target, t);
    }
    UncountedAreAllowed(Same(5, a), hash, RecoveryRule, source, target, u);
  }

  /** The rule for recovery requests: five of a source, and five for a target, in fifteen minutes. */
  lemma FiveInFifteenMinutes(hash: Hash, source: string, target: string, t: Stamp, now: Stamp)
    requires t <= now && Storable(now - RecoveryRule.window)
    ensures var a := Recorded(hash, RecoveryRule, source, target, t, Allowed);
            Decide(Same(4, a), hash, RecoveryRule, source, target, now) == Allowed &&
            (now - t <= 899 * 1_000_000_000 && (source != "" || !Blank(target)) ==>
               Decide(Same(5, a), hash, RecoveryRule, source, target, now) ==
               if source != "" then LimitedBySource else LimitedByTarget) &&
            (now - t >= 901 * 1_000_000_000 ==> Decide(Same(5, a), hash, RecoveryRule, source, target, now) == Allowed)
  {
    hide Count, Decide, Recorded, TargetKey, Blank, Inverted, AtOrAfter, SecondOf, Storable, Same;
    var a := Recorded(hash, RecoveryRule, source, target, t, Allowed);
    RecordedAt(hash, RecoveryRule, source, target, t, Allowed);
    FewAreAllowed(Same(4, a), hash, RecoveryRule, source, target, now);
    InOrOut(t, now);
    if now - t <= 899 * 1_000_000_000 {
      KeyOfSpelling(hash, target, target);
      AllCounted(a, 5, source, TargetKey(hash, target), now - RecoveryRule.window);
      FiveLimit(hash, source, target, t, now);
    } else if now - t >= 901 * 1_000_000_000 {
      UncountedAreAllowed(Same(5, a), hash, RecoveryRule, source, target, now);
    }
  }

  lemma InOrOut(t: Stamp, now: Stamp)
    requires Storable(now - RecoveryRule.window)
    ensures now - t <= 899 * 1_000_000_000 ==> AtOrAfter(t, now - RecoveryRule.window)
    ensures now - t >= 901 * 1_000_000_000 ==> !AtOrAfter(t, now - RecoveryRule.window)
  {
    hide AtOrAfter, FractionDigits;
    AtOrAfterMeans(t, now - RecoveryRule.window);
    assert SecondOf(now - RecoveryRule.window) == SecondOf(now) - 900;
  }

  lemma FiveLimit(hash: Hash, source: string, target: string, t: Stamp, now: Stamp)
    requires Storable(now - RecoveryRule.window)
    requires TargetKey(hash, target) == None <==> Blank(target)
    requires var a := Recorded(hash, RecoveryRule, source, target, t, Allowed);
             (source != "" ==> Count(Same(5, a), BySource("auth.recovery.request", source), now - RecoveryRule.window) == 5) &&
             (TargetKey(hash, target).Some? ==>
                Count(Same(5, a), ByTarget("auth.recovery.request", TargetKey(hash, target).value),
                      now - RecoveryRule.window) == 5)
    ensures var a := Recorded(hash, RecoveryRule, source, target, t, Allowed);
            source != "" || !Blank(target) ==>
              Decide(Same(5, a), hash, RecoveryRule, source, target, now) ==
              if source != "" then LimitedBySource else LimitedByTarget
  {
    hide Count, Recorded, TargetKey, Blank;
  }

  /** Equal attempts inside the window are all counted in their buckets. */
  lemma {:induction false} AllCounted(a: Attempt, n: nat, source: string, key: Option<string>, cut: Stamp)
    requires AtOrAfter(a.at, cut)
    ensures a.source == Some(source) ==> Count(Same(n, a), BySource(a.operation, source), cut) == n
    ensures a.target == key && key.Some? ==> Count(Same(n, a), ByTarget(a.operation, key.value), cut) == n
  {
    hide AtOrAfter;
    if n > 0 {
      assert Same(n, a)[..n - 1] == Same(n - 1, a);
      AllCounted(a, n - 1, source, key, cut);
    }
  }

  lemma RecordedAt(hash: Hash, rule: Rule, source: string, target: string, now: Stamp, d: Decision)
    ensures Recorded(hash, rule, source, target, now, d).at == now
    ensures Recorded(hash, rule, source, target, now, d).operation == rule.operation
    ensures Recorded(hash, rule, source, target, now, d).target == TargetKey(hash, target)
    ensures source != "" ==> Recorded(hash, rule, source, target, now, d).source == Some(source)
  {
  }

  // ---- Pruning -----------------------------------------------------------

  lemma {:induction false} RetainedCount(log: seq<Attempt>, b: Bucket, prune: Stamp, since: Stamp)
    requires AtOrAfter(since, prune)
    ensures Count(Retained(log, prune), b, since) == Count(log, b, since)
  {
    hide AtOrAfter;
    if log != [] {
      var init, a := log[..|log| - 1], log[|log| - 1];
      var kept := Retained(init, prune);
      RetainedCount(init, b, prune, since);
      if AtOrAfter(a.at, prune) {
        assert (kept + [a])[..|kept|] == kept;
      } else {
        if AtOrAfter(a.at, since) {
          AtOrAfterTransitive(a.at, since, prune);
        }
        assert kept + [] == kept;
      }
    }
  }

  ghost predicate SameCountFor(prune: Stamp, since: Stamp) {
    forall log: seq<Attempt>, b: Bucket :: Count(Retained(log, prune), b, since) == Count(log, b, since)
  }

  /** Pruning at one cutoff leaves every count from another unchanged, for every log, if and only if
      the second cutoff is not the earlier instant or, when the two are inverted, not the later. */
  lemma PruneInvisible(prune: Stamp, since: Stamp)
    ensures SameCountFor(prune, since) <==> if Inverted(since, prune) then since <= prune else since >= prune
  {
    hide AtOrAfter, Inverted;
    AtOrAfterMeans(since, prune);
    if AtOrAfter(since, prune) {
      forall log: seq<Attempt>, b: Bucket
        ensures Count(Retained(log, prune), b, since) == Count(log, b, since)
      {
        RetainedCount(log, b, prune, since);
      }
    } else {
      var a := Attempt("", Some(""), None, true, since);
      var b := BySource("", "");
      AtOrAfterMeans(since, since);
      assert [a][..0] == [];
      assert Count([a], b, since) == 1;
      assert Retained([a], prune) == [] && Count([], b, since) == 0;
    }
  }

  /** Each prune's cutoff compares as no later than that of any later decision. */
  predicate Harmless(calls: seq<TimedCall>) {
    forall i, j | 0 <= i < j < |calls| && calls[i].PruneOlder? && calls[j].Ask? ::
      AtOrAfter(Cutoff(calls[j]), Cutoff(calls[i]))
  }

  function AsksOnly(calls: seq<TimedCall>): (asks: seq<TimedCall>)
    ensures forall i | 0 <= i < |asks| :: asks[i].Ask?
  {
    if calls == [] then [] else (if calls[0].Ask? then [calls[0]] else []) + AsksOnly(calls[1..])
  }

  ghost predicate SameCounts(full: seq<Attempt>, pruned: seq<Attempt>, calls: seq<TimedCall>) {
    forall i: nat, b: Bucket | i < |calls| && calls[i].Ask? ::
      Count(pruned, b, Cutoff(calls[i])) == Count(full, b, Cutoff(calls[i]))
  }

  lemma AppendKeepsSameCounts(full: seq<Attempt>, pruned: seq<Attempt>, a: Attempt, calls: seq<TimedCall>)
    requires SameCounts(full, pruned, calls)
    ensures SameCounts(full + [a], pruned + [a], calls)
  {
    hide AtOrAfter, Storable;
    assert (full + [a])[..|full|] == full && (pruned + [a])[..|pruned|] == pruned;
    forall i: nat, b: Bucket | i < |calls| && calls[i].Ask?
      ensures Count(pruned + [a], b, Cutoff(calls[i])) == Count(full + [a], b, Cutoff(calls[i]))
    {
      assert Count(pruned, b, Cutoff(calls[i])) == Count(full, b, Cutoff(calls[i]));
    }
  }

  lemma SameCountsDecideAlike(hash: Hash, full: seq<Attempt>, pruned: seq<Attempt>, calls: seq<TimedCall>)
    requires calls != [] && calls[0].Ask? && SameCounts(full, pruned, calls)
    ensures var c := calls[0];
            Decide(pruned, hash, c.rule, c.sourceHash, c.target, c.now) ==
            Decide(full, hash, c.rule, c.sourceHash, c.target, c.now)
  {
    hide Count, AtOrAfter, SourceKey, TargetKey, Storable;
  }

  lemma PruneKeepsSameCounts(full: seq<Attempt>, pruned: seq<Attempt>, calls: seq<TimedCall>)
    requires calls != [] && calls[0].PruneOlder? && SameCounts(full, pruned, calls) && Harmless(calls)
    ensures SameCounts(full, Retained(pruned, Cutoff(calls[0])), calls[1..])
  {
    hide Count, AtOrAfter, Retained, Storable;
    var c, rest := calls[0], calls[1..];
    forall i: nat, b: Bucket | i < |rest| && rest[i].Ask?
      ensures Count(Retained(pruned, Cutoff(c)), b, Cutoff(rest[i])) == Count(full, b, Cutoff(rest[i]))
    {
      assert rest[i] == calls[i + 1];
      RetainedCount(pruned, b, Cutoff(c), Cutoff(rest[i]));
    }
  }

  lemma {:induction false} PrunedRunFrom(hash: Hash, full: seq<Attempt>, pruned: seq<Attempt>, calls: seq<TimedCall>)
    requires SameCounts(full, pruned, calls) && Harmless(calls)
    ensures Run(hash, pruned, calls).1 == Run(hash, full, AsksOnly(calls)).1
    decreases |calls|
  {
    hide AtOrAfter, Count, Decide, Retained, Storable, Recorded;
    if calls != [] {
      var c, rest := calls[0], calls[1..];
      assert forall i | 0 <= i < |rest| :: rest[i] == calls[i + 1];
      assert Harmless(rest);
      if c.Ask? {
        SameCountsDecideAlike(hash, full, pruned, calls);
        var d := Decide(full, hash, c.rule, c.sourceHash, c.target, c.now);
        var a := Recorded(hash, c.rule, c.sourceHash, c.target, c.now, d);
        assert SameCounts(full, pruned, rest);
        AppendKeepsSameCounts(full, pruned, a, rest);
        PrunedRunFrom(hash, full + [a], pruned + [a], rest);
        assert AsksOnly(calls)[0] == c && AsksOnly(calls)[1..] == AsksOnly(rest);
      } else {
        PruneKeepsSameCounts(full, pruned, calls);
        PrunedRunFrom(hash, full, Retained(pruned, Cutoff(c)), rest);
        assert AsksOnly(calls) == AsksOnly(rest);
        var tail := Run(hash, Retained(pruned, Cutoff(c)), rest);
        assert [] + tail.1 == tail.1;
      }
    }
  }

  /** The pruned log refines the full one: interleaving harmless prunes anywhere in a run changes no decision. */
  lemma PrunedRunDecidesAlike(hash: Hash, calls: seq<TimedCall>)
    requires Harmless(calls)
    ensures Run(hash, [], calls).1 == Run(hash, [], AsksOnly(calls)).1
  {
    PrunedRunFrom(hash, [], [], calls);
  }

  /** Under a forward clock, an age of the longest window plus one second is always harmless. */
  lemma SecondOfSlackIsHarmless(calls: seq<TimedCall>, window: int)
    requires ClockForward(calls)
    requires forall i | 0 <= i < |calls| :: if calls[i].Ask? then calls[i].rule.window <= window
                                            else calls[i].olderThan >= window + NS_PER_SECOND
    ensures Harmless(calls)
  {
    hide AtOrAfter, Storable;
    forall i, j | 0 <= i < j < |calls| && calls[i].PruneOlder? && calls[j].Ask?
      ensures AtOrAfter(Cutoff(calls[j]), Cutoff(calls[i]))
    {
      AtOrAfterMeans(Cutoff(calls[j]), Cutoff(calls[i]));
    }
  }
}

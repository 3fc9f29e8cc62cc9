/** Payment batches and the append-only ledger: what each call of the treasurer does to the tables. */
module Ledger {
  import opened Text
  import opened Timestamps

  type Id = nat   // 0 stands for NULL
  type Time = int

  datatype Principal = Principal(userId: Id, caps: set<string>)

  // ---- Rows --------------------------------------------------------------

  /** What an entry, a payment or a correction states about the money. */
  datatype Terms = Terms(amount: int, means: string, reference: string, receivedOn: string, officer: string, note: string)

  datatype EntryInput = EntryInput(membership: Id, terms: Terms, paidThrough: string)

  datatype Entry = Entry(batch: Id, sequence: nat, input: EntryInput, version: nat)

  datatype State = Open | Posted | Abandoned

  datatype Batch = Batch(caption: string, defaultAmount: int, defaultPaidThrough: string, state: State,
                         openedBy: Id, openedAt: Time, closedBy: Id, closedAt: Option<Time>, reason: string, version: nat)

  datatype Kind = Original | Reversal | Replacement

  datatype Payment = Payment(membership: Id, batch: Id, terms: Terms, enteredBy: Id, enteredAt: Time, receipt: string,
                             kind: Kind, corrects: Id)

  datatype Correction = Correction(original: Id, reversal: Id, replacement: Id, reason: string, officer: Id, at: Time)

  datatype CoverageEvent = CoverageEvent(membership: Id, paidThrough: string, why: string, payment: Id, supersedes: Id,
                                         officer: Id, at: Time)

  /** What an idempotency key was claimed for; the source stores a hash of it. */
  datatype Deed =
    | OpenDeed(caption: string, amount: int, paidThrough: string)
    | EntryDeed(batch: Id, input: EntryInput)
    | PostDeed(batch: Id, version: nat)
    | SingleDeed(input: EntryInput, caption: string)
    | CorrectDeed(payment: Id, params: CorrectParams)

  datatype ClaimKey = ClaimKey(actor: Id, operation: string, key: string)
  datatype Claim = Claim(deed: Deed, resource: Id)

  /** Payments, corrections and coverage are only appended to: the id of a row is its place, from 1. */
  datatype Books = Books(memberships: set<Id>, batches: map<Id, Batch>, nextBatch: Id, entries: map<Id, Entry>,
                         payments: seq<Payment>, corrections: seq<Correction>, coverage: seq<CoverageEvent>,
                         claims: map<ClaimKey, Claim>)

  datatype Refusal =
    | Forbidden | NotFound | NotOpen | Stale | EntryNotInBatch | EmptyBatch | ConfirmationRequired | KeyRequired | KeyReused
    | ReasonRequired | CaptionRequired | InvalidAmount | InvalidMethod | InvalidDate | PaymentSuperseded | NotCorrectable

  datatype Answer = Done(id: Id) | Refused(why: Refusal)
  datatype Outcome = Outcome(books: Books, answer: Answer)

  function Refuse(b: Books, why: Refusal): Outcome { Outcome(b, Refused(why)) }

  // ---- Validation --------------------------------------------------------

  /** time.Parse with the layout 2006-01-02: four, two and two digits that name a day. */
  predicate IsoDate(s: string) {
    |s| == 10 && s[4] == '-' && s[7] == '-' && AllDigits(s[..4]) && AllDigits(s[5..7]) && AllDigits(s[8..]) &&
    var y, m, d := DigitsValue(s[..4]), DigitsValue(s[5..7]), DigitsValue(s[8..]);
    1 <= m <= 12 && 1 <= d <= DaysBeforeMonth(m + 1, IsLeap(y)) - DaysBeforeMonth(m, IsLeap(y))
  }

  const METHODS := {"cash", "check", "other"}

  /** EntryInput.validate. */
  function Problem(t: Terms, paidThrough: string): Option<Refusal> {
    if t.amount <= 0 then Some(InvalidAmount)
    else if t.means !in METHODS then Some(InvalidMethod)
    else if !IsoDate(t.receivedOn) || !IsoDate(paidThrough) then Some(InvalidDate)
    else None
  }

  // ---- Idempotency -------------------------------------------------------

  datatype Begun = Fresh | Replay(resource: Id) | Reused

  function Begin(b: Books, key: ClaimKey, deed: Deed): Begun {
    if key.key == "" || key !in b.claims then Fresh
    else if b.claims[key].deed != deed then Reused
    else Replay(b.claims[key].resource)
  }

  /** The claim and the work are committed together. */
  function Complete(b: Books, key: ClaimKey, deed: Deed, resource: Id): Books {
    if key.key == "" then b else b.(claims := b.claims[key := Claim(deed, resource)])
  }

  const MANAGE := "payment.batch.manage"
  const POST := "payment.post"
  const CORRECT := "payment.correct"

  // ---- Draft entries -----------------------------------------------------

  ghost function Largest(s: set<nat>): (m: nat)
    ensures forall x | x in s :: x <= m
    ensures if s == {} then m == 0 else m in s
  {
    if s == {} then 0
    else
      var x :| x in s;
      var m := Largest(s - {x});
      assert s == (s - {x}) + {x};
      if m < x then x else m
  }

  function EntriesOf(entries: map<Id, Entry>, batch: Id): set<Id> { set i | i in entries && entries[i].batch == batch }

  function SequencesOf(entries: map<Id, Entry>, batch: Id): set<nat> {
    set i | i in entries && entries[i].batch == batch :: entries[i].sequence
  }

  /** COALESCE(MAX(sequence), 0) + 1 over the rows of the batch. */
  ghost function NextSequence(entries: map<Id, Entry>, batch: Id): nat { Largest(SequencesOf(entries, batch)) + 1 }

  /** An INTEGER PRIMARY KEY without AUTOINCREMENT takes the largest id in use plus one. */
  ghost function NextEntryId(entries: map<Id, Entry>): Id { Largest(entries.Keys) + 1 }

  function BatchRefusal(b: Books, batch: Id): Option<Refusal> {
    if batch !in b.batches then Some(NotFound)
    else if b.batches[batch].state != Open then Some(NotOpen)
    else None
  }

  function Touched(b: Books, batch: Id): map<Id, Batch>
    requires batch in b.batches
  {
    b.batches[batch := b.batches[batch].(version := b.batches[batch].version + 1)]
  }

  ghost function AddEntry(b: Books, who: Principal, batch: Id, input: EntryInput, key: string): Outcome {
    var k, deed := ClaimKey(who.userId, "payment-batch-entry-create", key), EntryDeed(batch, input);
    if MANAGE !in who.caps then Refuse(b, Forbidden)
    else if Problem(input.terms, input.paidThrough).Some? then Refuse(b, Problem(input.terms, input.paidThrough).value)
    else if BatchRefusal(b, batch).Some? then Refuse(b, BatchRefusal(b, batch).value)
    else if input.membership !in b.memberships then Refuse(b, NotFound)
    else
      match Begin(b, k, deed)
      case Reused => Refuse(b, KeyReused)
      case Replay(id) => if id in b.entries then Outcome(b, Done(id)) else Refuse(b, NotFound)
      case Fresh =>
        var id := NextEntryId(b.entries);
        var row := Entry(batch, NextSequence(b.entries, batch), input, 1);
        Outcome(Complete(b.(entries := b.entries[id := row], batches := Touched(b, batch)), k, deed, id), Done(id))
  }

  function UpdateEntry(b: Books, who: Principal, batch: Id, entry: Id, input: EntryInput, expected: nat): Outcome {
    if MANAGE !in who.caps then Refuse(b, Forbidden)
    else if Problem(input.terms, input.paidThrough).Some? then Refuse(b, Problem(input.terms, input.paidThrough).value)
    else if BatchRefusal(b, batch).Some? then Refuse(b, BatchRefusal(b, batch).value)
    else if entry !in b.entries then Refuse(b, NotFound)
    else if b.entries[entry].batch != batch then Refuse(b, EntryNotInBatch)
    else if input.membership !in b.memberships then Refuse(b, NotFound)
    else if b.entries[entry].version != expected then Refuse(b, Stale)
    else
      var row := b.entries[entry].(input := input, version := expected + 1);
      Outcome(b.(entries := b.entries[entry := row], batches := Touched(b, batch)), Done(entry))
  }

  function DeleteEntry(b: Books, who: Principal, batch: Id, entry: Id, expected: nat): Outcome {
    if MANAGE !in who.caps then Refuse(b, Forbidden)
    else if BatchRefusal(b, batch).Some? then Refuse(b, BatchRefusal(b, batch).value)
    else if entry !in b.entries then Refuse(b, NotFound)
    else if b.entries[entry].batch != batch then Refuse(b, EntryNotInBatch)
    else if b.entries[entry].version != expected then Refuse(b, Stale)
    else Outcome(b.(entries := b.entries - {entry}, batches := Touched(b, batch)), Done(batch))
  }

  // ---- Batches -----------------------------------------------------------

  function FreshBatch(caption: string, amount: int, paidThrough: string, who: Principal, now: Time): Batch {
    Batch(caption, amount, paidThrough, Open, who.userId, now, 0, None, "", 1)
  }

  function BatchProblem(caption: string, amount: int, paidThrough: string): Option<Refusal> {
    if TrimSpace(caption) == "" then Some(CaptionRequired)
    else if amount < 0 then Some(InvalidAmount)
    else if paidThrough != "" && !IsoDate(paidThrough) then Some(InvalidDate)
    else None
  }

  function Opened(b: Books, row: Batch): Books {
    b.(batches := b.batches[b.nextBatch := row], nextBatch := b.nextBatch + 1)
  }

  function OpenBatch(b: Books, who: Principal, caption: string, amount: int, paidThrough: string, key: string,
      now: Time): Outcome {
    var k, deed := ClaimKey(who.userId, "payment-batch-create", key), OpenDeed(caption, amount, paidThrough);
    if MANAGE !in who.caps then Refuse(b, Forbidden)
    else if BatchProblem(caption, amount, paidThrough).Some?
    then Refuse(b, BatchProblem(caption, amount, paidThrough).value)
    else
      match Begin(b, k, deed)
      case Reused => Refuse(b, KeyReused)
      case Replay(id) => if id in b.batches then Outcome(b, Done(id)) else Refuse(b, NotFound)
      case Fresh =>
        Outcome(Complete(Opened(b, FreshBatch(caption, amount, paidThrough, who, now)), k, deed, b.nextBatch),
            Done(b.nextBatch))
  }

  function UpdateBatch(b: Books, who: Principal, batch: Id, caption: string, amount: int, paidThrough: string,
      expected: nat): Outcome {
    if MANAGE !in who.caps then Refuse(b, Forbidden)
    else if BatchProblem(caption, amount, paidThrough).Some?
    then Refuse(b, BatchProblem(caption, amount, paidThrough).value)
    else if BatchRefusal(b, batch).Some? then Refuse(b, BatchRefusal(b, batch).value)
    else if b.batches[batch].version != expected then Refuse(b, Stale)
    else
      var row := b.batches[batch].(caption := caption, defaultAmount := amount, defaultPaidThrough := paidThrough,
                                   version := expected + 1);
      Outcome(b.(batches := b.batches[batch := row]), Done(batch))
  }

  function Closed(row: Batch, state: State, who: Principal, now: Time, reason: string): Batch {
    row.(state := state, closedBy := who.userId, closedAt := Some(now), reason := reason, version := row.version + 1)
  }

  function Abandon(b: Books, who: Principal, batch: Id, reason: string, expected: nat, now: Time): Outcome {
    if MANAGE !in who.caps then Refuse(b, Forbidden)
    else if TrimSpace(reason) == "" then Refuse(b, ReasonRequired)
    else if BatchRefusal(b, batch).Some? then Refuse(b, BatchRefusal(b, batch).value)
    else if b.batches[batch].version != expected then Refuse(b, Stale)
    else Outcome(b.(batches := b.batches[batch := Closed(b.batches[batch], Abandoned, who, now, reason)]), Done(batch))
  }

  // ---- Coverage ----------------------------------------------------------

  predicate Superseded(coverage: seq<CoverageEvent>, id: Id) {
    exists k | 0 <= k < |coverage| :: coverage[k].supersedes == id
  }

  predicate Candidate(coverage: seq<CoverageEvent>, membership: Id, id: Id) {
    1 <= id <= |coverage| && coverage[id - 1].membership == membership && !Superseded(coverage, id)
  }

  /** GetEffectiveCoverageEvent among the first n events: of those nothing supersedes the newest, a tie
      in time going to the larger id; 0 if there is none. */
  function Newest(coverage: seq<CoverageEvent>, membership: Id, n: nat): (id: Id)
    requires n <= |coverage|
    ensures id == 0 || (id <= n && Candidate(coverage, membership, id))
    ensures id == 0 ==> forall c | 1 <= c <= n :: !Candidate(coverage, membership, c)
    ensures id != 0 ==> forall c | 1 <= c <= n && Candidate(coverage, membership, c) ::
              coverage[c - 1].at < coverage[id - 1].at || (coverage[c - 1].at == coverage[id - 1].at && c <= id)
  {
    if n == 0 then 0
    else
      var best := Newest(coverage, membership, n - 1);
      if Candidate(coverage, membership, n) && (best == 0 || coverage[n - 1].at >= coverage[best - 1].at) then n else best
  }

  function Effective(coverage: seq<CoverageEvent>, membership: Id): Id { Newest(coverage, membership, |coverage|) }

  /** A new decision on a membership supersedes the one in force. */
  function Decided(coverage: seq<CoverageEvent>, membership: Id, paidThrough: string, why: string, payment: Id,
                   officer: Id, at: Time): seq<CoverageEvent>
  {
    coverage + [CoverageEvent(membership, paidThrough, why, payment, Effective(coverage, membership), officer, at)]
  }

  // ---- Posting -----------------------------------------------------------

  ghost predicate Listing(entries: map<Id, Entry>, batch: Id, ids: seq<Id>) {
    (forall i :: i in ids <==> i in entries && entries[i].batch == batch) &&
    forall a, b | 0 <= a < b < |ids| :: entries[ids[a]].sequence < entries[ids[b]].sequence
  }

  /** %0wd for a number that is not negative. */
  function ZeroPad(n: nat, w: nat): (s: string)
    ensures AllDigits(s) && s != ""
  {
    var s := FormatNat(n);
    if |s| < w then Pad(n, w) else s
  }

  function ReceiptCode(batch: Id, sequence: nat): string {
    "RCPT-" + ZeroPad(batch, 6) + "-" + ZeroPad(sequence, 3)
  }

  function PaymentFor(e: Entry, who: Principal, now: Time): Payment {
    Payment(e.input.membership, e.batch, e.input.terms, who.userId, now, ReceiptCode(e.batch, e.sequence), Original, 0)
  }

  /** Each entry in its order becomes a payment and a decision on its member's coverage. */
  function PostRows(b: Books, rows: seq<Entry>, who: Principal, now: Time): Books {
    if rows == [] then b
    else
      var n := |rows| - 1;
      var before, e := PostRows(b, rows[..n], who, now), rows[n];
      before.(payments := before.payments + [PaymentFor(e, who, now)],
              coverage := Decided(before.coverage, e.input.membership, e.input.paidThrough, "payment",
                                  |before.payments| + 1, who.userId, now))
  }

  function RowProblem(b: Books, e: Entry): Option<Refusal> {
    if Problem(e.input.terms, e.input.paidThrough).Some? then Problem(e.input.terms, e.input.paidThrough)
    else if e.input.membership !in b.memberships then Some(NotFound)
    else None
  }

  function FirstProblem(b: Books, rows: seq<Entry>): Option<Refusal> {
    if rows == [] then None
    else if RowProblem(b, rows[0]).Some? then RowProblem(b, rows[0])
    else FirstProblem(b, rows[1..])
  }

  function Rows(entries: map<Id, Entry>, ids: seq<Id>): (rows: seq<Entry>)
    requires forall i | i in ids :: i in entries
    ensures |rows| == |ids|
  {
    seq(|ids|, k requires 0 <= k < |ids| => entries[ids[k]])
  }

  /** postTx; ids list the entries of the batch in their order. */
  function PostBatch(b: Books, who: Principal, batch: Id, ids: seq<Id>, expected: nat, now: Time): Outcome
    requires Listing(b.entries, batch, ids)
  {
    if BatchRefusal(b, batch).Some? then Refuse(b, BatchRefusal(b, batch).value)
    else if ids == [] then Refuse(b, EmptyBatch)
    else
      var rows := Rows(b.entries, ids);
      if FirstProblem(b, rows).Some? then Refuse(b, FirstProblem(b, rows).value)
      else if b.batches[batch].version != expected then Refuse(b, Stale)
      else
        var posted := PostRows(b, rows, who, now);
        Outcome(posted.(batches := b.batches[batch := Closed(b.batches[batch], Posted, who, now, "")]), Done(batch))
  }

  function Post(b: Books, who: Principal, batch: Id, ids: seq<Id>, expected: nat, key: string, confirm: bool,
      now: Time): Outcome
    requires Listing(b.entries, batch, ids)
  {
    var k, deed := ClaimKey(who.userId, "payment-batch-post", key), PostDeed(batch, expected);
    if POST !in who.caps then Refuse(b, Forbidden)
    else if !confirm then Refuse(b, ConfirmationRequired)
    else if key == "" then Refuse(b, KeyRequired)
    else
      match Begin(b, k, deed)
      case Reused => Refuse(b, KeyReused)
      case Replay(id) => if id in b.batches then Outcome(b, Done(id)) else Refuse(b, NotFound)
      case Fresh =>
        var o := PostBatch(b, who, batch, ids, expected, now);
        if o.answer.Refused? then Refuse(b, o.answer.why) else Outcome(Complete(o.books, k, deed, batch), o.answer)
  }

  /** A batch of one entry, opened for a single payment. */
  ghost function WithSingle(b: Books, who: Principal, input: EntryInput, caption: string, now: Time): Books {
    var batch := FreshBatch(caption, input.terms.amount, input.paidThrough, who, now);
    b.(batches := b.batches[b.nextBatch := batch], nextBatch := b.nextBatch + 1,
       entries := b.entries[NextEntryId(b.entries) := Entry(b.nextBatch, 1, input, 1)])
  }

  // ---- Correcting --------------------------------------------------------

  datatype CorrectParams = CorrectParams(terms: Terms, paidThrough: string, reason: string)

  /** The payment a chain of corrections started from. Rows refer only to rows that were there before them. */
  function Root(payments: seq<Payment>, id: Id): (r: Id)
    requires 1 <= id <= |payments|
    ensures 1 <= r <= id
    decreases id
  {
    var c := payments[id - 1].corrects;
    if c == 0 || c >= id then id else Root(payments, c)
  }

  /** The correction of a payment, as its place from 1; 0 if there is none. */
  function CorrectionOf(corrections: seq<Correction>, id: Id): (k: nat)
    ensures k <= |corrections|
    ensures k == 0 <==> forall c | c in corrections :: c.original != id
    ensures k != 0 ==> corrections[k - 1].original == id
  {
    if corrections == [] then 0
    else if corrections[|corrections| - 1].original == id then |corrections|
    else CorrectionOf(corrections[..|corrections| - 1], id)
  }

  function Next(b: Books, id: Id): Id {
    var k := CorrectionOf(b.corrections, id);
    if k == 0 then 0
    else
      var next := b.corrections[k - 1].replacement;
      if id < next <= |b.payments| then next else 0
  }

  /** Forward from a payment to the one nothing has superseded. */
  function InForceFrom(b: Books, id: Id): Id
    decreases |b.payments| - id
  {
    if Next(b, id) == 0 then id else InForceFrom(b, Next(b, id))
  }

  function Steps(b: Books, id: Id): nat
    decreases |b.payments| - id
  {
    if Next(b, id) == 0 then 0 else 1 + Steps(b, Next(b, id))
  }

  /** GetCoverageEventByPayment: the last event a payment gave rise to, 0 if none. */
  function CoverageOf(coverage: seq<CoverageEvent>, payment: Id): (id: Id)
    ensures id <= |coverage|
    ensures id != 0 ==> coverage[id - 1].payment == payment
    ensures id == 0 <==> forall e | e in coverage :: e.payment != payment
  {
    if coverage == [] then 0
    else if coverage[|coverage| - 1].payment == payment then |coverage|
    else CoverageOf(coverage[..|coverage| - 1], payment)
  }

  /** The decision the payment itself granted already names this date. */
  predicate SameCoverage(coverage: seq<CoverageEvent>, payment: Id, paidThrough: string) {
    var id := CoverageOf(coverage, payment);
    id != 0 && coverage[id - 1].paidThrough == paidThrough
  }

  function ReversalOf(p: Payment, id: Id, revision: nat, who: Principal, now: Time): Payment {
    p.(terms := p.terms.(amount := -p.terms.amount), enteredBy := who.userId, enteredAt := now,
       receipt := p.receipt + "-R" + FormatNat(revision), kind := Reversal, corrects := id)
  }

  function ReplacementOf(p: Payment, id: Id, terms: Terms, revision: nat, who: Principal, now: Time): Payment {
    p.(terms := terms, enteredBy := who.userId, enteredAt := now,
       receipt := p.receipt + "-C" + FormatNat(revision), kind := Replacement, corrects := id)
  }

  /** The rows a correction appends to the payment in force. */
  function Corrected(b: Books, id: Id, revision: nat, params: CorrectParams, who: Principal, now: Time): Books
    requires 1 <= id <= |b.payments|
  {
    var p, n := b.payments[id - 1], |b.payments|;
    b.(payments := b.payments + [ReversalOf(p, id, revision, who, now),
                                 ReplacementOf(p, id, params.terms, revision, who, now)],
       corrections := b.corrections + [Correction(id, n + 1, n + 2, params.reason, who.userId, now)],
       coverage := if SameCoverage(b.coverage, id, params.paidThrough) then b.coverage
                   else Decided(b.coverage, p.membership, params.paidThrough, "correction", n + 2, who.userId, now))
  }

  function CorrectProblem(params: CorrectParams): Option<Refusal> {
    if TrimSpace(params.reason) == "" then Some(ReasonRequired) else Problem(params.terms, params.paidThrough)
  }

  function Correct(b: Books, who: Principal, payment: Id, params: CorrectParams, expected: nat, key: string, confirm: bool,
                   now: Time): Outcome
  {
    var k, deed := ClaimKey(who.userId, "payment-correct", key), CorrectDeed(payment, params);
    if CORRECT !in who.caps then Refuse(b, Forbidden)
    else if !confirm then Refuse(b, ConfirmationRequired)
    else if key == "" then Refuse(b, KeyRequired)
    else if CorrectProblem(params).Some? then Refuse(b, CorrectProblem(params).value)
    else
      match Begin(b, k, deed)
      case Reused => Refuse(b, KeyReused)
      case Replay(id) => Outcome(b, Done(id))
      case Fresh =>
        if payment == 0 || payment > |b.payments| then Refuse(b, NotFound)
        else if b.payments[payment - 1].kind == Reversal then Refuse(b, NotCorrectable)
        else
          var root := Root(b.payments, payment);
          if Steps(b, root) != expected then Refuse(b, Stale)
          else if InForceFrom(b, root) != payment then Refuse(b, PaymentSuperseded)
          else
            var after := Corrected(b, payment, expected + 1, params, who, now);
            Outcome(Complete(after, k, deed, |after.payments|), Done(|after.payments|))
  }

  /** An adjustment or an import decides on a membership outside the ledger of payments. */
  function Decide(b: Books, membership: Id, paidThrough: string, why: string, officer: Id, now: Time): Outcome {
    if membership !in b.memberships then Refuse(b, NotFound)
    else if !IsoDate(paidThrough) then Refuse(b, InvalidDate)
    else
      var coverage := Decided(b.coverage, membership, paidThrough, why, 0, officer, now);
      Outcome(b.(coverage := coverage), Done(|coverage|))
  }

  // ---- Totals ------------------------------------------------------------

  /** The amounts a filter on the method lets through; None is the net total over all methods. */
  function Counts(t: Terms, means: Option<string>): int {
    if means == None || means == Some(t.means) then t.amount else 0
  }

  /** GetBatchLedgerTotals: the sum over the payments of a batch. */
  function LedgerTotal(payments: seq<Payment>, batch: Id, means: Option<string>): int {
    if payments == [] then 0
    else
      var p := payments[|payments| - 1];
      LedgerTotal(payments[..|payments| - 1], batch, means) + (if p.batch == batch then Counts(p.terms, means) else 0)
  }

  function LedgerCount(payments: seq<Payment>, batch: Id): nat {
    if payments == [] then 0
    else LedgerCount(payments[..|payments| - 1], batch) + (if payments[|payments| - 1].batch == batch then 1 else 0)
  }

  /** GetPaymentBatchTotals over the entries in their order. */
  function DraftTotal(rows: seq<Entry>, means: Option<string>): int {
    if rows == [] then 0
    else DraftTotal(rows[..|rows| - 1], means) + Counts(rows[|rows| - 1].input.terms, means)
  }
}

# BCARS portal: what is proved about it

The portal keeps a radio club's records. Members ask for corrections and officers review them;
a treasurer records payments in batches and corrects them later; people sign in, recover their
passwords and are invited. The Dafny files here model those parts of the program over values and
over classes whose fields are the tables, and prove what they keep over whole runs. Each class
method does what the Go method does, step by step and with the same guards, and its contract ties
it to a function that says what the call comes to; the theorems are about those functions and
about runs of them.

| files | part of the program |
|---|---|
| `Tables`, `Adapters`, `AdapterEffects`, `Review`, `ReviewPolicy`, `ReviewService` | change requests: rows, policy, adapters and what they write, the guarded statements and the service |
| `ReviewRuns`, `ReviewEffects`, `ReviewScreen`, `Interleaving` | runs of review calls, their effect on the club's records, the officer's screen, several officers at once |
| `EditForm`, `EditPatch`, `EditApply`, `EditReview`, `EditKey`, `Woven` | a member's edit form: reading it, its items as a diff, their filing and review, its resubmission key |
| `Ledger`, `Treasury`, `LedgerChains`, `LedgerCoverage`, `LedgerRuns`, `LedgerRows`, `LedgerFacts`, `Receipts` | payment batches, posting, corrections, coverage, receipt codes |
| `Lockout`, `Sessions`, `Links`, `Password` | sign-in and lockout, sessions, one-time links, the stored password hash |
| `RateLimit`, `Timestamps` | the rolling-window limiter and the order of the timestamps it stores as text |
| `Paging`, `Base64`, `Headers`, `Amounts`, `Gate` | cursors and page walks, entity tags and role lists, typed dollar amounts, the operation registry and its middleware |
| `Text` | the string functions of Go's standard library that the rest uses |

## Where the program does something else than it says

The model follows the code. Each of these is a lemma that says exactly when the promise holds, or a
lemma with the input that breaks it.

- A withdrawn request is not final. Deciding an item does not look at the status of its request
  (`ReviewEffects.StatusNotConsulted`), so an officer can still approve, the records change, and
  deciding the last pending item makes the request resolved and drops the withdrawal
  (`ReviewRuns.LeavesWithdrawn`, `ReviewRuns.WithdrawnUntilLastItem`, `ReviewEffects.WithdrawnIsStillApplied`).
- A member who corrects both name and call sign in one form files two items with one version of the
  person row. Whichever is approved second is stale for good; every item of a form can be applied
  exactly when not both were changed (`EditReview.FormIsAppliedWhole`).
- Approving a name or a call sign clears the person's license class and examiner flag, though the
  comment says every field is carried over (`EditApply.LicenseIsCleared`).
- A recorded version protects a name, a call sign or a contact from a later edit, but a directory choice is
  applied whatever has happened since (`AdapterEffects.MovedIsStale`, `AdapterEffects.OthersIgnoreTheVersion`).
- Approving a contact correction untouched applies another value when the value typed reads as a
  kind and a value by itself (`EditForm.UntouchedAmendment`).
- Correcting an amount leaves coverage alone the first time. Correcting the replacement always
  decides coverage again, and puts the old date back over whatever was decided in between
  (`LedgerCoverage.AmountCorrectedTwice`).
- A retried correction is answered for whatever revision the retry states (`LedgerFacts.RetriedCorrection`).
- After the newest draft row is deleted its id, with version 1, goes to the next row added
  (`LedgerFacts.IdTakenOver` has the exact condition).
- Without SQLite's snapshot check the version guards do not make every call atomic: a decision whose
  request row has moved leaves it unsettled (`Interleaving.LastDecisionLost`), and a triage that names
  a version newer than the row it read can link a closed request (`Interleaving.TriageAheadOfItsRead`).
  `Interleaving.DecideCommit` and `Interleaving.TriageCommit` say exactly when, in terms of the tables
  before the commit; a run is atomic at all of its points exactly when each commit is
  (`Interleaving.AtomicIffOrderly`), and with the snapshot check every run is (`Interleaving.HeldRunIsAtomic`).
- Two instants in one second can order the wrong way round as RFC 3339 texts (`Timestamps.TextOrder`).
  The limiter therefore misses attempts inside its window and counts some before it. `RateLimit.CountIsExact`
  gives the exact difference, `RateLimit.AllowedExactly` which attempts are let through in any run, and
  `RateLimit.WindowBound` and `RateLimit.ExcessAdmitted` how many more than the maximum;
  `RateLimit.SixInsideTheWindow` is an input. Pruning at the window's own age can, in that second, hide
  an attempt (`RateLimit.PruneInvisible`).
- Amounts beyond int64 cents wrap (`Amounts.HugeAmountsWrap`), and signs are read. `Amounts.AcceptedExactly`
  says which texts are accepted. A minus sign before zero dollars is ignored, so "-0.50" and "-00.5" are
  fifty cents; "40.+" and "40.-" are forty dollars, and "40.+5" is five cents more, not fifty
  (`Amounts.SignedAmount`, `Amounts.SignedCents`, and `Amounts.SignedZeroIsAccepted` for an input).
- Different edit forms can share a resubmission key: exactly those with a bar in the name, the call sign or the
  note, or with a contact or share value that contains a bar, the name of its own field or of the next one, and an
  equals sign (`EditKey.KeyShared`; `EditKey.BarsCollide` is an input). A post with fewer fields can share the
  key of any form that has contact fields (`EditKey.KeySharedAnyhow`). Once one of two such forms
  is filed the other is not (`EditReview.MistakenFormBlocks`).

## Model

| member | source | states |
|---|---|---|
| ReviewService.Service.DecideChangeRequestItem | internal/db/sqlc/change_requests.sql.go:161-172 | the update happens exactly for a pending row at the given version with a reviewer; it writes the decision, bumps the version and touches no other row |
| ReviewService.Service.MarkChangeRequestItemApplied | internal/db/sqlc/change_requests.sql.go:591-603 | the stamp happens exactly for an approved, not yet applied row at the given version |
| ReviewService.Service.ResolveChangeRequest | internal/db/sqlc/change_requests.sql.go:663-673 | the update happens exactly at the given version on a request that is not terminal |
| ReviewService.Service.SetChangeRequestStatus | internal/db/sqlc/change_requests.sql.go:731-739 | the update happens exactly at the given version, whatever the status |
| ReviewService.Service.SetChangeRequestTarget | internal/db/sqlc/change_requests.sql.go:787-795 | the update happens exactly at the given version, whatever the status, for a named officer |
| ReviewService.Service.CountPending | internal/db/sqlc/change_requests.sql.go:13-16 | the count is positive exactly while an item of the request is pending |
| ReviewService.Service.Create | internal/domain/changerequests/service.go:342-418 | filing adds one submitted request and one pending item per proposal under fresh ids and claims its key, or nothing; a key used before is answered with its request, or refused for another submission |
| ReviewService.Service.Triage | internal/domain/changerequests/service.go:487-536 | the whole new state and answer: the row is linked at the expected version, or a named refusal changes nothing |
| ReviewService.Service.Resolve | internal/domain/changerequests/service.go:594-644 | resolved only when open, at the expected version, with nothing pending that could be applied to a named record |
| ReviewService.Service.Withdraw | internal/domain/changerequests/service.go:646-694 | withdrawn only by its requester, while open and with every item pending |
| ReviewService.Service.DecideItem | internal/domain/changerequests/review.go:113-274 | the decision, the write to the records, the stamp and the status of the request come about together or not at all; a repeated decision is answered and changes nothing |
| ReviewService.Service.RecordDecision | internal/domain/changerequests/review.go:194-240 | a decision whose application is refused is not recorded |
| ReviewService.Service.SettleRequest | internal/domain/changerequests/review.go:242-264 | the request is resolved when nothing is pending, else in review if it was submitted, else left alone |
| ReviewRuns.CreateKeeps | internal/domain/changerequests/service.go:342-418 | filing keeps the invariant and every row that is there |
| ReviewRuns.DecideKeeps | internal/domain/changerequests/review.go:113-274 | deciding keeps the invariant; it moves one item out of pending and at most one request on |
| ReviewRuns.RunKeeps | internal/db/sqlc/change_requests.sql.go:161-172 | every run keeps the invariant: item version 1 filed, 2 decided, 3 applied; status is what the items make it; nobody approved a sensitive change of their own |
| ReviewRuns.ItemLife | internal/db/sqlc/change_requests.sql.go:161-172 | between any two points of a run an item leaves pending at most once, its first decision and what was applied are never overwritten, equal versions mean equal rows, applied exactly when approved |
| ReviewRuns.RequestLife | internal/db/sqlc/change_requests.sql.go:663-673 | a resolved request is never touched again, a withdrawn one is not triaged, resolved by an officer or withdrawn again, what the submitter said stays, equal versions mean equal rows, nothing pending means resolved |
| ReviewRuns.WithdrawnUntilLastItem | internal/domain/changerequests/review.go:242-264 | a withdrawn request stays withdrawn exactly while an item of it is pending, and then is resolved with the withdrawal dropped |
| ReviewRuns.LeavesWithdrawn | internal/domain/changerequests/review.go:242-264 | a call changes a withdrawn request if and only if it is a decision of its last pending item that nothing refuses |
| ReviewRuns.DecideEffect | internal/domain/changerequests/review.go:113-274 | a decision takes effect exactly when the item is pending and nothing refuses it, and the row is settled by what else is pending |
| ReviewRuns.FilesExactly | internal/domain/changerequests/service.go:342-418 | a request is filed exactly when it is valid, its key is not used, its target is known and the constraints hold |
| ReviewRuns.RetriedFiling | internal/domain/idem/idem.go:50-94 | at any later point the same submission under the key is answered with the first request, another one is refused, and nothing is filed |
| ReviewPolicy.ApprovalIsRefused | internal/domain/changerequests/review.go:174-190 | an approval is refused as self-review if and only if the item is declared sensitive, or sets a call sign, a directory choice or a sharing preference, and the reviewer asked for it; for want of a note likewise; as unappliable for the three operations without an adapter |
| ReviewPolicy.DecidedExactly | internal/domain/changerequests/review.go:113-274 | a decision on a pending item is accepted exactly when a known officer makes it, a rejection says why, and an approval has note and second person where the item needs care and can be applied |
| ReviewPolicy.DecidedAgain | internal/domain/changerequests/review.go:163-172 | an item is decided once: the same decision is answered with the rows as they are, another is refused, and nothing is written |
| ReviewPolicy.ApprovedWithCare | internal/domain/changerequests/policy.go:22-66 | in every run each such item that is approved was approved by somebody else than who asked for it, with a note |
| ReviewPolicy.DecisionRows | internal/domain/changerequests/review.go:191-264 | a decision writes who decided what, when, why and how it was checked, what was applied, and moves the request on by what else of it is pending |
| ReviewPolicy.AmendmentReplaces | internal/domain/changerequests/review.go:203-216 | an approval applies the proposal, or the amendment in its place, which keeps the kind of a contact unless it names one |
| ReviewPolicy.InvalidExactly | internal/domain/changerequests/service.go:741-814 | which submissions are refused before anything is looked up |
| ReviewPolicy.SameSubmission | internal/domain/changerequests/service.go:821-844 | under one key two submissions are one if and only if they agree in all but who received them and when |
| ReviewPolicy.HeldUp | internal/domain/changerequests/service.go:594-694 | a request is held up by a pending item that could be applied to a named record, and cannot be withdrawn once an item is decided |
| ReviewEffects.RecordsAreTheJournal | internal/domain/changerequests/service.go:1-14 | after any run of review calls the club's records are those at the start with the applied approvals replayed, and nothing else |
| ReviewEffects.AppliedExactlyOnce | internal/db/sqlc/change_requests.sql.go:591-624 | the journal names each item that became approved once, and no other, whatever the retries |
| ReviewEffects.StatusNotConsulted | internal/domain/changerequests/review.go:140-240 | whether an item can be decided, what it becomes and what is applied do not depend on the status of its request |
| ReviewEffects.WithdrawnIsStillApplied | internal/domain/changerequests/review.go:242-264 | a concrete withdrawn request whose approval changes a name and ends as resolved |
| ReviewScreen.RequestApply | internal/web/requests.go:808-863 | the loop: the ticked items in turn, each its own transaction, with the count and the failures it reports |
| ReviewScreen.ApplyCountsWhatItApproved | internal/web/requests.go:808-863 | the reported count is the number of items that became approved; every other item, unticked or failed, is as it was |
| ReviewScreen.RequestDecline | internal/web/requests.go:870-915 | every pending item is rejected with the one reason, none fails, the records are untouched, the request is resolved; an officer without an id changes nothing |
| ReviewScreen.DedupeReasons | internal/web/requests.go:998-1009 | each reason once, in the order of first occurrence |
| ReviewScreen.FirstOccurrences | internal/web/requests.go:998-1009 | the same reasons as given, none of them twice |
| Interleaving.InterleavedRunIsAtomic | internal/domain/changerequests/service.go:478-536 | reads and guarded writes of any number of officers in any order do to the tables what the atomic calls do in the order of the updates that took effect, as long as each commit is orderly |
| Interleaving.AtomicIffOrderly | internal/domain/changerequests/service.go:478-536 | an interleaved run is atomic at all of its points if and only if every commit is orderly |
| Interleaving.HeldRunIsAtomic | internal/domain/changerequests/service.go:707-717 | with the row read still in the table at every triage and decision, as in a snapshot transaction, every interleaved run is the run of its atomic calls |
| Interleaving.TriageCommit | internal/domain/changerequests/service.go:487-536 | a triage writes exactly when it lands, and is the atomic call unless the request is terminal now, was not when it was read, and the officer named the version it has now |
| Interleaving.ResolveCommit | internal/domain/changerequests/service.go:594-644 | a resolve takes effect exactly when its checks on what was read and its guards hold, and is then the atomic call, although its items were read earlier |
| Interleaving.WithdrawCommit | internal/domain/changerequests/service.go:646-694 | a withdrawal takes effect exactly when its checks on what was read and its version guard hold, and is then the atomic call, although its statement does not look at the items |
| Interleaving.DecideCommit | internal/domain/changerequests/review.go:113-274 | a decision writes exactly when it lands, and is the atomic call if and only if the row is the one read, is resolved, or is past submitted with another item pending |
| Interleaving.UndisturbedMoves | internal/domain/changerequests/review.go:113-274 | the moves of an officer whom nobody gets in between come to the atomic call |
| Interleaving.UnmovedIsTheCall | internal/domain/changerequests/review.go:113-274 | while nothing of the request has moved since it was read, every commit lands exactly when the atomic call would and writes what it writes |
| Interleaving.HeldIsOrderly | internal/domain/changerequests/service.go:707-717 | while the row read is still the row in the table, as in a snapshot transaction, every commit is orderly |
| Interleaving.LastDecisionLost | internal/domain/changerequests/review.go:242-264 | with the guards alone two last decisions can leave a request in review with nothing pending |
| Interleaving.TriageAheadOfItsRead | internal/domain/changerequests/service.go:515-527 | with the guards alone a resolved request can be linked by naming its new version |
| ReviewRuns.NothingFiled | internal/db/migrations/0009_member_requests_access.sql:70-105 | empty tables satisfy the invariant, so it holds in every reachable state |
| AdapterEffects.AppliedIsLater | internal/domain/changerequests/review.go:307-380 | whatever an item applies, nothing is removed, a changed row has a greater version, preference histories only grow |
| AdapterEffects.OneWrite | internal/domain/changerequests/review.go:302-380 | each operation touches the one row or log it maps to and leaves the rest of the records alone |
| AdapterEffects.MovedIsStale | internal/domain/changerequests/review.go:498-509 | an item of a person or contact edit is stale if and only if it recorded a version and its target has another one |
| AdapterEffects.OthersIgnoreTheVersion | internal/domain/changerequests/review.go:351-377 | directory choices, sharing preferences and additions are applied whatever version was seen |
| AdapterEffects.OnlyPrimary | internal/domain/members/service.go:764-785 | the mark is taken off the person's other contacts, except archived ones, and nothing else changes |
| AdapterEffects.Added | internal/domain/changerequests/review.go:429-458 | a new contact of the named person, or else the request's, reads as the proposal does |
| AdapterEffects.Stamped | internal/domain/changerequests/review.go:307-500 | the item is stamped with the row that was written, its version now and the value as stored |
| AdapterEffects.PersonWritten | internal/domain/changerequests/review.go:382-427 | the name with its sort name, or the call sign in upper case, as proposed; call signs stay unique |
| AdapterEffects.PreferenceRecorded | internal/domain/members/service.go:960-1057 | a preference is one more event, for the record the item names, as the text says |
| AdapterEffects.AppliedExactly | internal/domain/changerequests/review.go:302-496 | operation by operation, an approved item is applied if and only if the officer may write there, its target is there at the version recorded, and what it says can be read |
| AdapterEffects.ContactIsRead | internal/domain/changerequests/review.go:556-572 | a text is read as a contact if and only if what stands before its first colon is a kind, up to case and spaces, and something stands behind it |
| AdapterEffects.SameContact | internal/domain/changerequests/review.go:574-587 | contacts are compared up to case and outer spaces, telephone numbers by their digits |
| AdapterEffects.DigitsOnly | internal/domain/changerequests/review.go:575-587 | punctuation in a phone number does not matter to what it is compared by |
| AdapterEffects.NormalizedOnce | internal/domain/changerequests/review.go:574-587 | a phone is compared by digits alone, and normalizing twice is normalizing once |
| Adapters.ParseContactValue | internal/domain/changerequests/review.go:556-572 | what is read has one of three kinds and a trimmed value that is not empty |
| EditForm.ReadMemberEditForm | internal/web/member.go:678-727 | accepted exactly when every choice is one offered and nothing is blanked; the form then says something about each field of the record and nothing else |
| EditForm.ReadContacts | internal/web/member.go:690-706 | the loop over the record's contacts, never over what was posted |
| EditForm.FormSays | internal/web/member.go:678-706 | what a post says of each field of the record, and of a choice that was not posted |
| EditForm.MemberEditItems | internal/web/member.go:731-787 | the loops produce the diff of record and form |
| EditForm.PlainOfEncoded | internal/web/requests.go:589-603 | the text shown for a contact item and the value the review path reads are both the value typed |
| EditForm.UntouchedAmendment | internal/domain/changerequests/review.go:539-554 | an untouched approval applies the proposal itself if and only if the value does not itself read as kind and value |
| EditPatch.DiffDistinct | internal/web/member.go:731-787 | at most one item per field of the record |
| EditPatch.ShareFiled | internal/web/member.go:369-377 | a directory choice is filed if and only if it changes what the directory shows, by the decision on record or else the club's default |
| EditPatch.ValueFiled | internal/web/member.go:754-770 | a contact is filed if and only if its value differs, with its kind and at its version |
| EditPatch.PersonFiled | internal/web/member.go:733-752 | a name is filed if and only if it differs, a call sign if and only if it differs by more than case |
| EditPatch.NothingElseFiled | internal/web/member.go:731-787 | a form files nothing else |
| EditPatch.PatchUndoesDiff | internal/web/member.go:731-787 | applying the items in any order gives a record that shows what the form said, the call sign up to case |
| EditPatch.NoDiffIffShown | internal/web/member.go:729-757 | a form proposes nothing exactly when the record already shows it |
| EditPatch.ResubmitProposesNothing | internal/web/member.go:731-787 | the same form sent again after its items are applied proposes nothing |
| EditReview.FilingFiles | internal/web/member.go:654-662 | filing puts the items in the tables under consecutive ids, all pending and nothing else of the request |
| EditReview.FiledStays | internal/domain/changerequests/service.go:342-418 | through every run they stay as filed as long as they are all pending |
| EditReview.AsShown | internal/web/requests.go:834-842 | a box left empty or sent as shown approves the proposal itself, except a contact value that reads as kind and value |
| EditReview.ShownIsApplied | internal/web/requests.go:589-603 | for every text the officer is shown the value that would be applied, or the text itself where it cannot be read as a contact |
| EditReview.ReviewInTurn | internal/web/requests.go:828-849 | any ticks on the officer's screen, with the values amended or not: records, item statuses, count and failures, with one stale item where the person row has moved |
| EditReview.ApprovalsOfAForm | internal/domain/changerequests/review.go:382-427 | any of a form's items ticked in any order, each its own transaction: one is refused, and stays pending, exactly when it is the second on the person row; the records are what the others make of them |
| EditReview.FormIsAppliedWhole | internal/domain/changerequests/review.go:504-509 | every item is applied if and only if not both name and call sign were changed; then no failure is reported, the request is resolved and the records show the form |
| EditReview.MistakenFormBlocks | internal/web/member.go:654-662 | a form whose key can be mistaken has another post, different in its values, that files nothing once it is filed |
| EditApply.LicenseIsCleared | internal/domain/changerequests/review.go:395-421 | license class and examiner flag survive a person update exactly when they were empty; the other name fields are carried over |
| EditApply.ContactStep | internal/domain/changerequests/review.go:460-496 | a contact item at its version changes that contact's value and nothing else the member sees |
| EditApply.ShareStep | internal/domain/members/service.go:960-982 | a directory choice becomes the latest decision on its contact, by time and then by id |
| EditKey.MemberEditKey | internal/web/member.go:816-841 | the contact and share fields are collected in any order and sorted, and the key is the posted values joined by bars |
| EditKey.ListedOnce | internal/web/member.go:824-833 | there is one sorted list of the fields, so the order of the walk does not matter to the key |
| EditKey.KeySeparates | internal/web/member.go:810-841 | two posts without bars, whatever their fields, have one key exactly when they are about one record and agree in every field |
| EditKey.KeyShared | internal/web/member.go:810-841 | a form shares its key with another of the same fields if and only if a bar is in name, call sign or note, or a value contains a bar and its own or the next field's name with an equals sign |
| EditKey.KeySharedAnyhow | internal/web/member.go:810-841 | among posts with any fields a form has its key for itself if and only if it has no contact field and no bar in the others |
| Woven.OneReading | internal/web/member.go:816-841 | text woven of such delimiters and values has one reading if and only if no value contains its own or the next delimiter |
| Treasury.Service.NextPaymentBatchEntrySequence | internal/db/sqlc/batches.sql.go:159-162 | the largest sequence of the batch plus one |
| Treasury.Service.TouchPaymentBatch | internal/db/sqlc/batches.sql.go:173-178 | the version of an open batch moves by one and nothing else; on any other batch no row is touched |
| Treasury.Service.OpenBatch | internal/domain/batches/service.go:216-270 | one new open batch, or the one opened under the key before |
| Treasury.Service.UpdateBatch | internal/db/sqlc/batches.sql.go:207-213 | label and defaults change only at the expected version of an open batch |
| Treasury.Service.AddEntry | internal/domain/batches/service.go:408-472 | one row more with a free sequence, and the batch version moves with it; under a used key nothing |
| Treasury.Service.UpdateEntry | internal/domain/batches/service.go:476-529 | the row changes in place at its version, keeping its batch and sequence, and the batch version moves |
| Treasury.Service.DeleteEntry | internal/domain/batches/service.go:533-564 | the row goes at its version, the others keep their sequences, and the batch version moves |
| Treasury.Service.Abandon | internal/domain/batches/service.go:367-400 | an open batch is closed at the expected version, with a reason |
| Treasury.Service.WriteRows | internal/domain/batches/post.go:297-344 | the loop, which remembers the decisions it wrote, does what asking for the one in force each time would |
| Treasury.Service.EffectiveCoverageId | internal/domain/batches/post.go:376-389 | the event a decision must supersede, from memory or from the table |
| Treasury.Service.PostTx | internal/domain/batches/post.go:256-371 | all rows posted and the batch closed, or nothing written |
| Treasury.Service.Post | internal/domain/batches/post.go:108-145 | a post under a fresh key, a replay, or a named refusal, with the whole new state |
| Treasury.Service.PostSinglePayment | internal/domain/batches/post.go:162-246 | a batch of one row posted by the same transaction, or nothing |
| Treasury.Service.EffectivePayment | internal/domain/batches/correct.go:150-184 | the two loops find the payment in force and the number of corrections from the root |
| Treasury.Service.CorrectPayment | internal/domain/batches/correct.go:191-315 | reversal, replacement, link and coverage are appended for the payment in force at the stated revision, or nothing |
| Treasury.Service.AdjustCoverageForCorrection | internal/domain/batches/correct.go:319-357 | coverage is left alone exactly when the payment's own event names the same date |
| Ledger.Newest | internal/db/queries/treasury.sql:96-102 | of a member's decisions nothing supersedes, the newest by time and then id |
| LedgerCoverage.DecidedKeeps | internal/db/migrations/0007_treasury_ledger.sql:151-175 | a new decision is the one in force for its member and no other member's changes; no decision is superseded twice |
| LedgerCoverage.DateAfterCorrection | internal/domain/batches/correct.go:317-357 | the date in force after a correction is the one stated, unless the payment's own decision names it |
| LedgerCoverage.AmountCorrectedTwice | internal/domain/batches/correct.go:301-306 | two corrections restating the payment's date leave the date in force alone exactly when nothing else was decided |
| LedgerChains.ChainAtRevision | internal/httpapi/ops_corrections.go:31-55 | a chain at revision r is 2r + 1 payments, those that go back to its original, exactly one of them in force |
| LedgerChains.ChainShape | internal/domain/batches/correct.go:150-184 | along a chain ids rise, there are two rows per step, and the last is the one in force |
| LedgerChains.CorrectKeeps | internal/domain/batches/correct.go:186-308 | a correction keeps chains in order and ledger totals equal to those in force |
| LedgerRuns.PostBatchEffect | internal/domain/batches/post.go:256-371 | one payment per entry in order and of the same terms; the batch's ledger total becomes its draft total by every method; no other total moves |
| LedgerRows.PostedRows | internal/domain/batches/post.go:295-371 | each entry becomes a payment for its own member, of its own terms, in its batch, and a decision on that member's coverage because of that payment; the batch row is closed and nothing else changes |
| LedgerRows.SingleRow | internal/domain/batches/post.go:162-246 | a single payment is entered for the member, the terms and the date it was given |
| LedgerRows.LastRowDecides | internal/domain/batches/post.go:290-344 | after a post the date in force for a member is that of the member's last row in the batch |
| LedgerRows.CorrectionRows | internal/domain/batches/correct.go:225-308 | a correction takes the payment back whole and restates it for the same member in the same batch; its decision is that member's |
| LedgerRows.CoverageIsDecided | internal/domain/batches/correct.go:319-357 | a correction decides on coverage exactly unless the last decision its own payment gave rise to names the date already |
| LedgerRows.AdjustmentDecides | internal/domain/dues/service.go:335-396 | a decision outside the ledger is accepted for a known member and a day, is in force for that member alone from then on, and changes nothing else |
| LedgerRows.NeedsCapability | internal/domain/batches/post.go:108-130 | without the capability, and for posts and corrections the confirmation and a key, nothing is written |
| LedgerRows.DraftsAccepted | internal/domain/batches/service.go:408-566 | a draft row is added, changed or removed exactly when the officer may, the batch is open, and the row is sound and held at the version named |
| LedgerRows.BatchesAccepted | internal/domain/batches/service.go:216-392 | a batch is opened or renamed exactly with a caption, an amount that is not negative and a date or none; it is abandoned exactly with a reason |
| LedgerRows.PostedExactly | internal/domain/batches/post.go:108-289 | under a new key a batch is posted exactly when it is confirmed, open at the version named and not empty, and every row is sound for a known member |
| LedgerRows.SingleExactly | internal/domain/batches/post.go:162-246 | under a new key a single payment is accepted exactly when it is confirmed, captioned and sound for a known member |
| LedgerRows.CorrectedExactly | internal/domain/batches/correct.go:191-260 | under a new key a correction is accepted exactly for a payment that is no reversal and that nothing has corrected, at the revision the size of its chain gives |
| LedgerRows.OnlySoundRows | internal/domain/batches/service.go:173-190 | what is written has a positive amount, one of three methods, days of the calendar and a known member |
| LedgerRows.IsoDateMeans | internal/domain/batches/service.go:173-190 | the dates accepted are the printed days of the Gregorian calendar |
| LedgerRows.KeyIsForOneThing | internal/domain/idem/idem.go:65-78 | a key used by the same officer for something else writes nothing |
| LedgerRows.NetIsSumOfMethods | internal/db/sqlc/corrections.sql.go:13-22 | the net total of a batch is what was paid in cash, by check and otherwise |
| LedgerRuns.CorrectedEffect | internal/domain/batches/correct.go:186-315 | one step more on the chain, the replacement in force, the batch's total moved by the difference by every method |
| LedgerRuns.NewRowIsFree | internal/db/sqlc/batches.sql.go:159-165 | a new row's sequence is above all of its batch, and its id is not in use |
| LedgerRuns.StepKeeps | internal/domain/batches/service.go:402-406 | every call keeps drafts, ledger and coverage in order and only appends to history |
| LedgerRuns.EmptyBooks | internal/db/migrations/0007_treasury_ledger.sql:34-175 | empty books satisfy the invariant, so it holds in every reachable state |
| LedgerFacts.TotalsAreInForce | internal/db/sqlc/corrections.sql.go:13-22 | after any run a batch's ledger total, net and by method, is the sum over the payments in force |
| LedgerFacts.HistoryStands | internal/domain/batches/service.go:52-55 | payments, corrections and decisions are only appended to; a posted or abandoned batch and its entries never change; an unchanged version is an unchanged batch |
| LedgerFacts.PostsWhatWasSeen | internal/domain/batches/service.go:404-407 | a post accepted at version v posts the entries the batch had whenever it was open at v, and their total |
| LedgerFacts.RetriedPost | internal/domain/idem/idem.go:50-94 | a post repeated under its key at any later point posts nothing and names the same batch |
| LedgerFacts.RetriedCorrection | internal/domain/batches/correct.go:206-223 | a correction repeated under its key corrects nothing, whatever revision is stated |
| LedgerFacts.RetriedEntry | internal/domain/batches/service.go:429-441 | an entry repeated under its key is never added twice |
| LedgerFacts.RowsKeepTheirPlace | internal/domain/batches/service.go:531-533 | no call renumbers a row, and live sequences of a batch stay distinct |
| LedgerFacts.IdTakenOver | internal/db/migrations/0007_treasury_ledger.sql:65-66 | the next row takes over a deleted row's id exactly when it was the largest and its neighbour is in use |
| Receipts.CodeIsUnique | internal/domain/batches/post.go:391-396 | a receipt code names one batch and one sequence |
| Receipts.CodeText | internal/domain/batches/post.go:391-396 | the code as it is printed, six digits and three |
| Receipts.ReceiptsNeverRepeat | internal/db/migrations/0007_treasury_ledger.sql:114-114 | in any run no two payments carry the same receipt code |
| Lockout.AuthService.SignIn | internal/authn/service.go:37-99 | the outcome and the new row for every branch: inactive, locked, expired lock, no password, unreadable, wrong, right; a session is opened for the account by the last and by nothing else |
| Lockout.SignedInMeans | internal/authn/service.go:37-99 | a sign-in succeeds exactly when the account is active and not locked and the password is checked and right |
| Lockout.AuthService.LoginByUser | internal/authn/service.go:125-137 | the count and the lock are cleared and a session is opened |
| Lockout.AuthService.SetPassword | internal/authn/service.go:107-121 | the hash is replaced, the count and the lock are not |
| Lockout.RunLockConsistent | internal/authn/service.go:217-233 | in every run a lock is on the row exactly when the stored count has reached the maximum |
| Lockout.LockedIsNotChecked | internal/authn/service.go:64-68 | while locked no password is checked and nothing changes, and nothing else keeps an active account with a password from being checked |
| Lockout.FailuresInAnySpan | internal/authn/service.go:11-15 | a span shorter than the lockout without a successful sign-in holds at most ten failed checks |
| Lockout.OneFailureRelocks | internal/authn/service.go:82-85 | once locked, such a span of attempts holds at most one: the stale count re-locks |
| Lockout.CountedAttempts | internal/authn/service.go:217-233 | a failure counts one more and the tenth locks for fifteen minutes; a success clears both |
| Lockout.BoundIsReached | internal/authn/service.go:217-233 | the bound is attained, and the attempt after it is not checked for the whole lockout |
| Sessions.SessionStore.Create | internal/authn/session.go:48-68 | one new session for the time to live |
| Sessions.SessionStore.Rotate | internal/authn/session.go:147-158 | only a live session is rotated |
| Sessions.NeverLiveAgain | internal/authn/session.go:72-110 | a session that is not live is never live again, after any run |
| Sessions.LivesExactly | internal/authn/session.go:48-143 | after any run a session is live if and only if its time has not passed and nothing has ended it |
| Sessions.RotateReplaces | internal/authn/session.go:145-158 | rotation keeps the owner, address and agent, kills the old session and keeps everyone's number of live ones |
| Sessions.RevokeAllEnds | internal/authn/session.go:133-143 | exactly the user's own live sessions end |
| Links.LinkService.ConsumeLink | internal/authn/emaillink.go:257-302 | unknown, consumed, expired or consumed now |
| Links.LinkService.RequestRecovery | internal/authn/emaillink.go:134-182 | limited before the address is looked up; a link only for an active account |
| Links.LinkService.CreateUserFromInvitation | internal/authn/service.go:168-215 | the account and its role, or neither |
| Links.LinkService.AcceptInvitation | internal/httpapi/ops_session.go:315-335 | the link is consumed first, whatever becomes of the account |
| Links.ConsumedOnce | internal/authn/emaillink.go:275-294 | in any run a token is consumed at most once |
| Links.NeverAfterExpiry | internal/authn/emaillink.go:279-286 | and never after its expiry |
| Links.AcceptedAccount | internal/authn/service.go:156-215 | the account is new, active, at the invited address, and holds exactly the invited role |
| Links.AcceptedExactly | internal/authn/emaillink.go:257-302 | an account is made if and only if the link is a good invitation, the address is not taken and the role is known |
| Links.AddressesStayUnique | internal/authn/service.go:168-205 | in any run no two accounts have one address |
| Links.RecoveryIssues | internal/authn/emaillink.go:134-182 | a recovery link is issued if and only if the request is not limited and the address has an active account, to that account |
| Links.OneAccountPerInvitation | internal/authn/emaillink.go:257-302 | each invitation leads to at most one account |
| Links.RolesStay | internal/authn/service.go:190-205 | no later call on links or accounts changes what roles an account holds |
| Links.LimitTellsNothing | internal/authn/emaillink.go:135-149 | against different accounts the same requests leave the same log and are limited at the same places |
| RateLimit.Limiter.Allow | internal/ratelimit/ratelimit.go:142-194 | the decision, and that the attempt is recorded whatever it is |
| RateLimit.Limiter.Prune | internal/ratelimit/ratelimit.go:199-205 | exactly the attempts whose text is before the cutoff go |
| RateLimit.WindowBound | internal/ratelimit/ratelimit.go:142-194 | a span no longer than the window that ends in an allowed attempt holds at most the maximum, refusals included, and as many more as are missed in it; none are where none is inverted |
| RateLimit.AllowedExactly | internal/ratelimit/ratelimit.go:142-194 | in any run an attempt is allowed if and only if for each of its buckets the attempts inside the window, less those missed, plus those overdue, are below the maximum |
| RateLimit.SpellingIsImmaterial | internal/ratelimit/ratelimit.go:206-231 | targets that agree up to case and outer spaces are decided and recorded alike on every log; a blank one is never limited by target |
| RateLimit.TargetsApart | internal/ratelimit/ratelimit.go:206-231 | with a digest that tells texts apart two requests share a target bucket if and only if their targets agree so |
| RateLimit.RequestBounds | internal/ratelimit/ratelimit.go:142-194 | a span of a run that ends in an allowed request holds no more requests for its target, however spelled, or from its source, than the maximum and those missed |
| RateLimit.FiveInFifteenMinutes | internal/ratelimit/ratelimit.go:142-194 | five recovery requests in under fifteen minutes by a second block a sixth, and are forgotten a second after fifteen |
| RateLimit.ExcessAdmitted | internal/ratelimit/ratelimit.go:148-177 | the whole window before an attempt is within a limit if and only if it holds no more than the maximum, those missed added and those overdue taken off |
| RateLimit.SpanInLaterSeconds | internal/ratelimit/ratelimit.go:142-194 | a span that begins in a later second than the window holds at most the maximum |
| RateLimit.SpanShortByASecond | internal/ratelimit/ratelimit.go:148-148 | every span shorter than the window by a second is such a span |
| RateLimit.HammeringExtendsTheBlock | internal/ratelimit/ratelimit.go:142-194 | with the maximum inside the window besides those missed the next attempt is refused, whatever became of them |
| RateLimit.QuietIsAllowed | internal/ratelimit/ratelimit.go:142-194 | a source and a target quiet for longer than the window are allowed if and only if those overdue stay below the maxima |
| RateLimit.CountIsExact | internal/ratelimit/ratelimit.go:148-177 | in every log the count by text plus those missed is the count by time plus those overdue |
| RateLimit.CountIsTrueCount | internal/ratelimit/ratelimit.go:148-177 | the count by text is the count by time when no attempt is inverted with the cutoff |
| RateLimit.CountsDifferInOneSecond | internal/ratelimit/ratelimit.go:148-177 | those missed and overdue, and so the difference, are at most the attempts in the cutoff's own second |
| RateLimit.SixInsideTheWindow | internal/ratelimit/ratelimit.go:148-148 | six requests inside fifteen minutes that are all allowed |
| RateLimit.PruneInvisible | internal/ratelimit/ratelimit.go:199-205 | pruning at one cutoff is invisible to counts from another if and only if they compare in order |
| RateLimit.PrunedRunDecidesAlike | internal/ratelimit/ratelimit.go:199-205 | harmless prunes anywhere in a run change no decision |
| RateLimit.SecondOfSlackIsHarmless | internal/ratelimit/ratelimit.go:196-205 | an age of the window and a second is harmless |
| Timestamps.TextOrder | internal/ratelimit/ratelimit.go:190-190 | stored texts order as the instants do, except inverted pairs, which order the other way round |
| Timestamps.InversionsExist | internal/ratelimit/ratelimit.go:190-190 | there are such pairs in every second |
| Timestamps.StoredAs | internal/ratelimit/ratelimit.go:190-190 | an instant is stored as its date, its time of day and its fraction without closing zeros |
| Password.Peppered | internal/authn/password.go:85-93 | the buffer is the password and then the pepper |
| Password.DecodeOfHash | internal/authn/password.go:99-132 | decoding a printed hash gives back parameters, salt and hash |
| Password.StoredText | internal/authn/password.go:41-56 | the stored text has the parameters, the salt and the derived key of the peppered password where the PHC format has them |
| Password.ReadOfFields | internal/authn/password.go:99-132 | any text of those fields is read back, unless a number is too wide for its field |
| Password.VersionsRead | internal/authn/password.go:105-110 | of the version only that it is a number matters |
| Password.VerifyOfHash | internal/authn/password.go:60-70 | a password is accepted exactly when both derive the same key, in particular the one just hashed |
| Password.RehashOfHash | internal/authn/password.go:74-83 | renewal is asked for exactly when one of the four compared parameters differs |
| Base64.RoundTrip | internal/httpapi/page.go:36-49 | unpadded base64 of section 4 and 5 of RFC 4648 decodes to what was encoded |
| Base64.Vectors | internal/httpapi/page.go:36-49 | test vectors of section 10 of RFC 4648 |
| Paging.CursorRoundTrip | internal/httpapi/page.go:36-49 | every cursor decodes to what it was made of |
| Paging.OffsetRoundTrip | internal/httpapi/ops_dues.go:250-271 | every non-negative offset comes back from its cursor |
| Paging.WalkShowsEveryRowOnce | internal/httpapi/ops_audit.go:140-193 | following cursors from the empty one ends, and the pages are the kept rows once each in order, under both schemes |
| Paging.PageShows | internal/httpapi/ops_audit.go:140-193 | a page shows the kept rows of its own stretch, and offers the next exactly while rows remain or, without an extra row, when it came back full |
| Paging.ImportPage | internal/httpapi/ops_import.go:383-423 | the loop stops at the limit and drops the rows not asked for |
| Headers.TagRoundTrip | internal/httpapi/ops_corrections.go:261-273 | an entity tag comes back as its number; only the reader of revisions takes 0 |
| Headers.BareTags | internal/httpapi/ops_corrections.go:261-273 | without quotes a number is read alike, a missing one is told apart, a negative one refused |
| Headers.SpacedTags | internal/httpapi/ops_corrections.go:261-273 | spaces around a tag do not matter |
| Headers.SplitRoleCodes | internal/httpapi/ops_audit.go:99-111 | an empty column is no list, else the parts that are not blank |
| Headers.CleanedMeans | internal/httpapi/ops_audit.go:99-111 | what is shown is what is left of each part that is not blank |
| Headers.RolesRoundTrip | internal/httpapi/ops_audit.go:99-111 | the roles an event was stored with are the roles it is shown with |
| Amounts.ReadAmount | internal/web/treasury.go:382-415 | the steps of the parser, with int64 wrap-around |
| Amounts.ParseIsExact | internal/web/treasury.go:382-415 | the exact cents come back if and only if they are positive and fit an int64 |
| Amounts.ParseOfPrint | internal/web/treasury.go:382-415 | reading inverts the two-decimal printer for every positive int64 total |
| Amounts.TrailingZeroImmaterial | internal/web/treasury.go:397-404 | a missing trailing zero changes nothing |
| Amounts.DecorationImmaterial | internal/web/treasury.go:383-384 | dollar sign, commas and outer spaces change nothing |
| Amounts.HugeAmountsWrap | internal/web/treasury.go:410-413 | an amount beyond int64 cents that is read as 84 cents |
| Amounts.AcceptedExactly | internal/web/treasury.go:382-415 | a text is accepted if and only if it is, undecorated, a numeral that can be read, signs included, and what is read comes to a positive int64 |
| Amounts.SignedAmount | internal/web/treasury.go:391-394 | a minus before an amount is refused unless the dollars are there and zero, and is then ignored; a plus is ignored unless no dollars follow |
| Amounts.SignedCents | internal/web/treasury.go:397-408 | a sign before the cents is read: one digit behind it is cents, none is zero, and behind a minus only zero is |
| Gate.Api.Register | internal/httpapi/register.go:65-96 | an operation enters the registry exactly when its capability and its confirmation level can be enforced |
| Gate.Api.VerifyAll | internal/httpapi/register.go:124-158 | the list is exactly the named served operations without metadata |
| Gate.Api.Serve | internal/httpapi/authz_middleware.go:28-100 | whether the handler runs, the status and the events, for every branch |
| Gate.RunsExactlyWhenDeclared | internal/httpapi/authz_middleware.go:18-24 | a handler runs exactly when its operation is declared, its capability is public or held and a required confirmation is there |
| Gate.ConfirmationIsAsked | internal/httpapi/authz_middleware.go:73-84 | an explicit-confirm call that is otherwise permitted runs if and only if its header is true, yes or 1 up to case and outer spaces; without a header it is refused with 428 |
| Gate.DeniedAs | internal/httpapi/authz_middleware.go:28-71 | a call that is not open to the caller is refused with 401 or 403, and the log says who, what and why |
| Gate.HandledAs | internal/httpapi/authz_middleware.go:86-100 | the log says of a call that ran what its status comes to |
| Gate.AuditIsComplete | internal/httpapi/authz_middleware.go:28-100 | for every sequence of requests, one event per refusal and one per handled call that declares an action |
| Gate.CleanMeansRegistered | internal/httpapi/register.go:119-158 | after a clean check no named served operation is refused for want of a declaration |

## Left out

- Interleaving.InterleavedRunIsAtomic: asks that each commit is orderly, because without SQLite's snapshot check it is false otherwise (AtomicIffOrderly); HeldRunIsAtomic asks only what that check gives.
- RateLimit.SecondOfSlackIsHarmless: asks for an age of the window and one second, because an age of exactly the window can hide an attempt of the same second.
- Links.LimitTellsNothing: the full answers agree only while the mail goes out, because a failed delivery is reported for an address that has an account.
- EditKey.KeyShared: the names of the posted contact and share fields are taken to be without bars, as those of the rendered form are (RenderedFields).
- Case mapping covers ASCII letters; Go's covers all of Unicode, which matters for names and call signs outside ASCII.
- Cryptography: argon2, HMAC and SHA-256 are unknown functions; tokens and session ids are fresh values; request fingerprints are compared as the values they digest.
- Each service call is one step and reads one clock; only the review protocol is also modelled statement by statement.
- SQLite itself: write-ahead logging, busy timeouts, pragmas, migrations; foreign keys are taken as enforced.
- Rows are never removed from requests, items, contacts, payments or users, so their next id is a counter; draft entries are removed, and theirs is the largest id plus one.
- What the limiter answers when its table cannot be read or written.
- Counters and amounts are unbounded integers outside the parser of typed amounts.
- Listing and searching change requests, batches and members; the order in which a request's items are listed.
- The summary line of an edit form, form labels, flash messages, templates, printing, static assets.
- LedgerRows.AdjustmentDecides: the capability and the reason an adjustment needs are not modelled; the step stands for every decision on coverage made outside the ledger, an import included.
- Imports, worksheets, notes, relationships, honorary grants, dues rates and standing.
- Mail transport, command-line tools, backups, configuration, logging and the HTTP framework.

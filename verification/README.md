# OpenRails billing: verified model

A Dafny model of the stateful cores of OpenRails, with proofs about single steps,
whole runs and concurrent interleavings. `dafny verify dfyconfig.toml` checks it.

- **Entitlement timelines** (`EntitlementTable`, `EntitlementTimeline`, `EntitlementBulk`,
  `EntitlementLoops`, `EntitlementOrders`, `EntitlementEffects`, `EntitlementRuns`,
  `EntitlementRepo`). A table of access windows
  `[start, end)`, an absent end meaning indefinite. The live windows of one user and one
  entitlement name form a timeline, and no two of them may overlap. An operation edits one
  window and repairs the rest: later windows follow the change of the end, or are deleted when
  the end becomes indefinite. The class `EntitlementRepo` does this statement by statement, as
  the repository does; each method is proved against a one-pass, row-by-row description of its
  effect, and the theorems are about those descriptions. `EntitlementEffects` says of each
  operation, column by column, which rows it selects, what it writes and when it refuses.
- **Credit and hold expiry** (`CreditStore`, `CreditExpiry`, `CreditWorkers`). Two batch
  loops that empty expired credit blocks and expire credit holds, group totals per user and
  credit type in a map, deduct balances with a floor of zero and post ledger rows.
- **Dunning claims** (`Dunning`). A transition system of any number of workers that claim a
  past-due subscription by a guarded update carrying a 15-minute lease. Any worker may try to
  claim any subscription at any time, which covers every list a worker can have read.
- **Rate limiting** (`RateLimit`). The in-memory window, the Redis window with key expiry,
  and the middleware that falls back from one to the other.
- **Spool** (`Spool`). Oldest-first eviction to a low watermark.

Instants count microseconds, the resolution of the timestamp columns. A shift of a timeline is
truncated to whole seconds toward zero, as in the code; where that matters the theorems say
exactly when. A transaction is one atomic step that either commits or leaves the table alone.
Clocks, fresh identifiers, the order in which a query returns tied rows, and the order of a map
iteration are parameters or arbitrary choices, so every result holds for all of them.

Where code and documentation disagree the model follows the code:

- The comment at internal/db/repo/entitlement_timeline.go:88-91 says that shortening a window
  does not move later ones back; the code at lines 131-137 moves them.
- docs/entitlements_timeline.md says that `end_at` is immutable and that only two write
  operations exist; the repository also sets, extends, clears and moves ends.
- `ExtendActiveBySubscription` (entitlement.go:196-204) promises to extend the active windows
  to the given end without overlaps. Where a selected window with a second or more to go is
  followed by another selected one of its timeline, some order in which the rows may come pushes
  the later one past that end (`ExtendReachesEnd`: exactly there); where ends change by whole
  seconds every order does (`ExtendReachesEndInOrder`). The statements can also leave an overlap,
  depending on the order (`ExtendEarliestFirstOverlaps`); `ExtendEveryOrder` says exactly, for
  disjoint tables with windows at any instants, on which no order does. As shipped, the exclusion
  constraint of migrations/postgres/001_setup_billing_tables.up.sql:193-204 is checked after each
  statement and refuses the first update of that example, so there the call fails instead.
- `ResumeBySubscription` clears ends and leaves later windows in place (`ResumeOverlaps`;
  `ResumeDisjoint` is the exact condition).
- The hold-expiry loop does not end when a batch can be filled with malformed holds
  (`HoldExpiryStops` is the exact condition, `HoldExpiryEndless` a store for every batch size).

## Model

| member | source | states |
|---|---|---|
| EntitlementRuns.RunFromEmpty | internal/db/repo/entitlement_timeline.go:92-218 | Over every legal run of the thirteen operations from the empty table, at any instants, the live windows of every timeline stay non-empty and pairwise disjoint; at most one is indefinite and it is the last |
| EntitlementRuns.StepKeeps | internal/audit/checks_duplicates.go:190-207 | Each operation, failing or not, at any instants, keeps the no-overlap invariant of the audit; callers owe the gap condition for a set-end, safety in every order (or rows latest first and the gap condition) for an extension, and the conditions for resume and insert, and nothing for the other nine |
| EntitlementRuns.LegalIsNeeded | internal/audit/checks_duplicates.go:190-207 | For set-end, resume and insert what is asked of the caller is exactly what keeps the invariant |
| EntitlementRuns.WholeRunKeeps | internal/db/repo/entitlement_timeline.go:45-48 | When every instant that becomes a bound lies on a whole second no gap has to be measured: such runs are legal and all bounds stay on whole seconds |
| EntitlementTimeline.SetEndDisjoint | internal/db/repo/entitlement_timeline.go:92-154 | One set-end step keeps the timeline disjoint if and only if, when a finite end is extended, the gap before every later window is at least the fraction of a second the shift loses |
| EntitlementTimeline.SetEndIntrusion | internal/db/repo/entitlement_timeline.go:45-59 | At arbitrary instants no later window ends up starting a full second or more before the new end, none at all before it when shortening, and the other windows stay disjoint |
| EntitlementTimeline.SetEndConserves | internal/db/repo/entitlement_timeline.go:32-67 | Moving an end from e0 to e1 leaves earlier windows and other timelines alone, moves all later windows by one common distance, and changes the summed length of the windows by exactly e1 - e0 |
| EntitlementTimeline.SetEndAccess | internal/db/repo/entitlement_timeline.go:92-154 | Access as a function of time after an edit, at any instants, for a finite or indefinite old and new end: between finite ends a stretch is spliced in or cut out at the edited end and what followed comes after the new end, moved by the whole seconds of the change; an end made indefinite gives access for ever from the window's start; an end given to an indefinite window takes access away from there on |
| EntitlementTimeline.SetEndPathIndependent | internal/db/repo/entitlement_timeline.go:134-137 | Setting e1 and then e2 equals setting e2 if and only if the truncated shifts add up for every later window, which whole-second moves guarantee |
| EntitlementTimeline.SetEndUndo | internal/db/repo/entitlement_timeline.go:134-137 | Setting the old end back restores every row if and only if the gaps absorbed what the first step lost, or it moved the end backward or by less than a second |
| EntitlementTimeline.SetEndPathDependsOnFractions | internal/db/repo/entitlement_timeline.go:45-48 | Two half-second extensions leave a table that differs from one full-second extension and overlaps |
| EntitlementTimeline.RevokeDisjoint | internal/db/repo/entitlement_timeline.go:158-218 | Revoking at r after the start ends the row at r, moves later windows by one distance with their lengths kept and none before r (early, or whole seconds), and keeps disjointness at any instants and for any old end |
| EntitlementTimeline.RevokeAccess | internal/db/repo/entitlement_timeline.go:189-217 | At any instants and for a finite or indefinite window: access before the window's start is unchanged, the revoked window counts at no time, and what followed its old end moves by the whole seconds of the change |
| EntitlementTimeline.SetEndByShift | internal/db/repo/entitlement_timeline.go:119-137 | Writing the new end and then running the shift statement is the one-pass edit |
| EntitlementTimeline.SetEndByDelete | internal/db/repo/entitlement_timeline.go:138-152 | Writing an indefinite end and then deleting from the old end on is the one-pass edit |
| EntitlementTable.QueriesAgree | internal/db/repo/entitlement.go:25-134 | On a disjoint table access, the list of names, exactly one record of the name, and exactly one of an indefinite window and a latest finite window are equivalent at every time |
| EntitlementTable.IndefiniteIsLast | internal/audit/checks_duplicates.go:190-207 | An indefinite window is the only one of its timeline and starts after all others |
| EntitlementLoops.ExtendAnyOrder | internal/db/repo/entitlement.go:198-260 | With selected windows on distinct timelines every processing order leaves the same table, and the call fails exactly when a selected row lacks a key |
| EntitlementLoops.ExtendEffect | internal/db/repo/entitlement.go:240-256 | Row by row: selected windows end exactly at the new end, later windows move by their own timeline's change, nothing gets shorter, everything else is untouched |
| EntitlementLoops.ExtendDisjoint | internal/db/repo/entitlement.go:198-260 | The extended table is disjoint if and only if the gaps of every selected window absorb the lost fraction |
| EntitlementOrders.ExtendReachesEnd | internal/db/repo/entitlement.go:196-260 | At any instants, every order of the selected rows leaves all of them ending exactly at the requested end if and only if no key is missing and no selected window followed by another selected one of its timeline has a second or more to go |
| EntitlementLoops.ExtendReachesEndInOrder | internal/db/repo/entitlement.go:196-260 | When the selected ends change by whole seconds, any one order leaves all of them ending exactly at the requested end if and only if no key is missing and no two of them share a timeline |
| EntitlementOrders.ExtendEveryOrder | internal/db/repo/entitlement.go:206-257 | On a disjoint table, at any instants, every order of the selected rows succeeds and leaves a disjoint table if and only if no key is missing and every window keeps a distance from each later one of its timeline: the fraction of a second lost if it is selected itself, plus the change of the later one if that is selected and another selected window before both moves them; or it is not selected and that change takes it past the end of the later one |
| EntitlementLoops.ExtendLatestFirst | internal/db/repo/entitlement.go:221-257 | When the later windows of a timeline happen to come first, the table stays disjoint, at any instants, if and only if the gaps of every selected window absorb the lost fraction, even where it is not safe in every order |
| EntitlementLoops.ExtendEarliestFirstOverlaps | internal/db/repo/entitlement.go:206-257 | A disjoint table with two selected windows and one of another source between them, on which the opposite order leaves an overlap |
| EntitlementLoops.EndGraceAnyOrder | internal/db/repo/entitlement_grace.go:51-91 | On a disjoint table ending grace fails exactly when a selected row lacks a key, and otherwise leaves the same table in every order |
| EntitlementLoops.EndGraceEffect | internal/db/repo/entitlement_grace.go:51-91 | No live grace window of the subscription ends after now (but an indefinite one already running); every other live window survives, untouched or moved earlier but not before now, with its length; the table stays disjoint at any instants |
| EntitlementBulk.ResumeDisjoint | internal/db/repo/entitlement.go:264-277 | Resuming keeps the table disjoint if and only if every resumed window is the last of its timeline |
| EntitlementBulk.ResumeOverlaps | internal/db/repo/entitlement.go:264-277 | Two windows of one timeline that overlap after the first is resumed |
| EntitlementBulk.InsertDisjoint | internal/db/repo/entitlement.go:84-102 | An insert keeps the table disjoint if and only if the new live window meets no other of its timeline |
| EntitlementBulk.PushDisjoint | internal/modules/entitlements/entitlement_service.go:114-226 | Appending at the tail never overlaps: every live window of the timeline ends by the start of the new one |
| EntitlementRuns.InPlaceDisjoint | internal/db/repo/entitlement.go:156-194 | Ending by subscription or payment, revoking by id, by name or by timeline, and deleting grace never make windows overlap or empty, at any instants |
| EntitlementBulk.EndActiveBySubscriptionAccess | internal/db/repo/entitlement.go:151-194 | Fails exactly when a window to be ended starts at or after the end; otherwise access before the end is unchanged and from then on what it was without the ended windows, or at all times when a reason revokes them |
| EntitlementBulk.EndActiveByPaymentAccess | internal/db/repo/entitlement.go:282-313 | Fails exactly when an indefinite row of the payment, revoked or not, starts at or after the end; otherwise access is what it was without those rows, at all times |
| EntitlementBulk.RevokeByIdAccess | internal/db/repo/entitlement.go:353-374 | Revoking a row takes away its access at all times and no other |
| EntitlementBulk.RevokeByNameAccess | internal/db/repo/entitlement.go:378-404 | Revoking a name of a subscription takes away the access of its live rows of that name and no other |
| EntitlementBulk.SoftDeleteGraceAccess | internal/db/repo/entitlement_grace.go:19-44 | Deleting grace takes away the access of the subscription's live grace rows and no other |
| EntitlementBulk.RevokeExistingAccess | internal/modules/entitlements/entitlement_service.go:274-309 | Under any source filter, access at any time is what it was without the matching windows that were not over by now |
| EntitlementBulk.RevokeExistingEndsAccess | internal/modules/entitlements/entitlement_service.go:246-311 | After revoking all of a user's windows of a name, with no source filter, there is no access at any time from now on |
| EntitlementEffects.SetEndAtWrites | internal/db/repo/entitlement_timeline.go:92-154 | Refused for a missing row, an end not after the start, or an empty user or name, in that order; a dead row is left alone; otherwise the row gets the end, live windows of its timeline starting at or after a finite old end have start and end moved by the whole seconds of the change, or are deleted when the new end is indefinite, and every other row is as it was |
| EntitlementEffects.RevokeNowWrites | internal/db/repo/entitlement_timeline.go:158-218 | Refused likewise; otherwise the row gets the end, the mark and the reason, live windows of its timeline starting at or after a finite old end have start and end moved by the whole seconds of the change, and every other row is as it was |
| EntitlementEffects.ExtendRoundWrites | internal/db/repo/entitlement.go:221-257 | One round of the loop: the end is written only while the stored one is the one read, the windows behind the end read move in either case, and a row without a key fails the call |
| EntitlementEffects.ExtendWrites | internal/db/repo/entitlement.go:206-257 | Exactly the live windows of the subscription that end before the new end are extended to it; with these on distinct timelines, in any order, the windows behind each follow its change and every other row is as it was |
| EntitlementEffects.EndGraceWrites | internal/db/repo/entitlement_grace.go:51-91 | On a disjoint table, in any order: exactly the subscription's running grace windows with an end are ended now and the windows behind them follow, those to come are deleted, those over or indefinite are left, and every other row is as it was |
| EntitlementEffects.ResumeWrites | internal/db/repo/entitlement.go:264-277 | Exactly the live windows of the subscription that end after now become indefinite |
| EntitlementEffects.ResumeAccess | internal/db/repo/entitlement.go:264-277 | Access after resuming is the old access and, for each resumed window, access for ever from its start |
| EntitlementEffects.InsertWrites | internal/db/repo/entitlement.go:84-102 | Refused for an empty window or a used identifier, otherwise one row is added |
| EntitlementEffects.PushWrites | internal/modules/entitlements/entitlement_service.go:118-224 | A request must name user, name and source and say in exactly one way how long; nothing happens behind an indefinite window or when the given end is not after the start; otherwise one row is added that starts at the first instant not before now, the requested start and the end of every live window of the timeline, and lasts the duration, until the given end, or for ever |
| EntitlementEffects.EndBySubscriptionWrites | internal/db/repo/entitlement.go:151-194 | Exactly the live windows of the subscription that run past the end get it, and the mark and reason when a reason is given |
| EntitlementEffects.EndByPaymentWrites | internal/db/repo/entitlement.go:282-313 | Exactly the payment's indefinite one-off rows that are not deleted, revoked ones too, get the end, the mark and the reason |
| EntitlementEffects.RevokeByIdWrites | internal/db/repo/entitlement.go:353-374 | Refused for a missing or dead row, otherwise that row alone gets the mark and the reason |
| EntitlementEffects.RevokeByNameWrites | internal/db/repo/entitlement.go:378-404 | Exactly the subscription's live rows of the name get the end, the mark and the reason |
| EntitlementEffects.SoftDeleteGraceWrites | internal/db/repo/entitlement_grace.go:19-44 | Exactly the subscription's live grace rows are deleted |
| EntitlementEffects.RevokeRequestWrites | internal/modules/entitlements/entitlement_service.go:246-311 | A request names an entitlement or a user and a name, not both and not neither; of the live windows of the timeline meant, its own or that of the entitlement named, that match the filter those running are revoked, those to come deleted, those over left |
| EntitlementEffects.RevokeRequestNotFound | internal/modules/entitlements/entitlement_service.go:260-264 | A request for an entitlement that is not there is refused |
| EntitlementEffects.RevokeRequestAccess | internal/modules/entitlements/entitlement_service.go:246-311 | After a request that succeeds, access at any time is what it was without the matching windows of the timeline meant not over by now; with no filter none of that timeline is left from now on |
| EntitlementRepo.EntitlementRepo.ShiftEntitlementTimeline | internal/db/repo/entitlement_timeline.go:32-67 | The guarded, whole-second shift statement in place |
| EntitlementRepo.EntitlementRepo.SetEntitlementEndAtTx | internal/db/repo/entitlement_timeline.go:92-154 | Edit, then shift or delete: the one-pass effect, or the same table and an error |
| EntitlementRepo.EntitlementRepo.RevokeEntitlementNowTx | internal/db/repo/entitlement_timeline.go:158-218 | Revoke, then shift: the one-pass effect, or the same table and an error |
| EntitlementRepo.EntitlementRepo.ExtendActiveBySubscription | internal/db/repo/entitlement.go:198-260 | The loop over rows read beforehand, in the order returned, rolled back on an error |
| EntitlementRepo.EntitlementRepo.EndGraceNowBySubscription | internal/db/repo/entitlement_grace.go:51-91 | The loop of set-end steps followed by the delete, rolled back on an error |
| EntitlementRepo.EntitlementRepo.PushNewEntitlement | internal/modules/entitlements/entitlement_service.go:114-226 | Validation, the indefinite check, the tail and the insert |
| EntitlementRepo.EntitlementRepo.RevokeExistingEntitlement | internal/modules/entitlements/entitlement_service.go:246-311 | Two statements, the one-pass effect |
| EntitlementRepo.EntitlementRepo.TailEnd | internal/modules/entitlements/entitlement_service.go:169-180 | The latest finite end of a timeline, or nothing when there is none |
| EntitlementRepo.EntitlementRepo.GetLatestFiniteActive | internal/db/repo/entitlement.go:65-82 | A finite active row that no other outlasts, or nothing when there is none |
| CreditStore.SelectDue | internal/river/jobs_credit_expiry.go:60-70 | A batch: distinct due rows in order of expiry, none left out that expires earlier, short only when nothing is left |
| CreditStore.DeductCompose | internal/river/jobs_credit_expiry.go:129-132 | Deductions with a floor of zero compose: two leave the amount less their sum, or zero when there is less, for any starting amount |
| CreditExpiry.CreditBatchConserves | internal/river/jobs_credit_expiry.go:78-168 | At every commit point ledger sum minus block remainders is unchanged, every new ledger row carries the stored balance, and balance minus remainders is unchanged when the balance covers what expired |
| CreditExpiry.HoldBatchConserves | internal/river/jobs_hold_expiry.go:84-151 | If held balance equals the active, well-formed authorizations, a batch keeps that, never meets the floor, and raises balance minus held by what it released |
| CreditExpiry.InterleavingReaches | internal/river/jobs_hold_expiry.go:135-139 | At every point of any interleaving of the two workers each row is untouched or expired and each amount is the starting one deducted by what is gone |
| CreditExpiry.CompleteRunIsOnePass | internal/river/jobs_credit_expiry.go:55-169 | Every complete run, for any batches, ties, map orders and interleaving of both workers, ends with the same blocks, holds, balances and held balances: every due block empty, every due hold with an authorization expired, and every amount reduced once by the whole total that went, or zero if it was less |
| CreditExpiry.HoldExpiryStops | internal/river/jobs_hold_expiry.go:58-161 | With balance rows present, hold expiry stops if and only if fewer due holds are malformed than a batch has rows, after at most as many full batches as there are well-formed ones |
| CreditExpiry.HoldExpiryEndless | internal/river/jobs_hold_expiry.go:91-160 | For every batch size, a store of as many holds without an authorization on which the loop runs more full batches than any bound |
| CreditExpiry.ShortBatch | internal/river/jobs_hold_expiry.go:158-160 | When the loop breaks on a short batch, every well-formed due hold is expired |
| CreditWorkers.CreditWorkers.WorkCreditExpiry | internal/river/jobs_credit_expiry.go:35-172 | For any batch size the whole job terminates with every due block at zero, every balance reduced once by the whole expired total or zero if it was less, every ledger sum reduced by that total, and nothing new in the ledger but expiry rows that carry a balance not below zero |
| CreditWorkers.CreditWorkers.ExpireBlocks | internal/river/jobs_credit_expiry.go:56-164 | One transaction: the selected blocks, one deducted balance and one posting per user and type |
| CreditWorkers.CreditWorkers.WorkHoldExpiry | internal/river/jobs_hold_expiry.go:36-168 | For any store, watched for any number of batches: it stops with every well-formed due hold expired and every held balance reduced once, or at a missing balance row between two committed batches; it does stop when fewer due holds are malformed than a batch has rows, and never without an error otherwise |
| CreditWorkers.CreditWorkers.ExpireHolds | internal/river/jobs_hold_expiry.go:59-153 | One transaction: the well-formed selected holds and one reduced held balance per user and type, or nothing when a balance row is missing |
| Dunning.AtMostOneInFlight | internal/river/jobs_dunning.go:337-368 | If every attempt ends within its lease and nothing else makes a leased subscription due, at most one attempt per subscription is in flight in every interleaving |
| Dunning.ClaimsAreApart | internal/river/jobs_dunning.go:337-368 | Two consecutive claims of a subscription with no outcome recorded between them are at least 15 minutes apart, however long attempts take and whichever workers die |
| Dunning.OverdueAttemptIsDoubled | internal/river/jobs_dunning.go:342-352 | While an attempt runs under its lease another worker can claim the subscription if and only if the lease has run out |
| Dunning.SubscriptionTable.ClaimDunningAttempt | internal/river/jobs_dunning.go:337-368 | The claim succeeds exactly on a past-due subscription whose retry time has come, records the attempt, makes the subscription due again exactly 15 minutes later, and touches no other |
| RateLimit.InMemoryBound | internal/http/middleware/ratelimit.go:100-133 | At most 2 * limit - 1 requests are admitted in any 60 seconds, both ends included |
| RateLimit.InMemoryBoundAttained | internal/http/middleware/ratelimit.go:114-122 | For every limit some run of requests attains that bound |
| RateLimit.CounterIsPosition | internal/http/middleware/ratelimit.go:115-122 | The counter is the request's position in its window, so a window admits exactly its first limit requests |
| RateLimit.RedisBound | internal/http/middleware/ratelimit.go:136-160 | At most 2 * limit requests are admitted in any 60 seconds, both ends included, whether or not the expiry could be set |
| RateLimit.RedisBoundAttained | internal/http/middleware/ratelimit.go:144-153 | For every limit some run of requests attains that bound |
| RateLimit.RedisAdmitsFirst | internal/http/middleware/ratelimit.go:144-153 | Each minute window admits exactly its first limit requests |
| RateLimit.StoredIsPosition | internal/http/middleware/ratelimit.go:146-152 | Key expiry never resets a window that is still running; a key expires one minute after the first request of its window, or never if that expiry could not be set |
| RateLimit.MiddlewareBound | internal/http/middleware/ratelimit.go:60-69 | However requests are split between Redis and the fallback, lost replies included, at most 4 * limit - 1 get through in any 60 seconds |
| RateLimit.MiddlewareBoundAttained | internal/http/middleware/ratelimit.go:60-69 | For every limit some split of requests attains that bound |
| RateLimit.KeysDiffer | internal/http/middleware/ratelimit.go:113 | Counter keys of different buckets or addresses differ |
| RateLimit.EffectiveLimit | internal/http/middleware/ratelimit.go:214-222 | Zero without a limit, 60 for a configured limit of zero or less, the configured limit otherwise |
| RateLimit.RateLimitStore.Allow | internal/http/middleware/ratelimit.go:100-133 | One request: the counter it is counted on, the decision, and what the caller is told |
| RateLimit.RedisWindows.RedisAllow | internal/http/middleware/ratelimit.go:136-160 | One request through Redis: the stored count, the decision, and what the caller is told |
| Spool.RunKeeps | pkg/spool/spool.go:50-186 | Over any run of enqueues bytes and files at rest stay within the caps, and what is at rest is the newest of what was written, in order |
| Spool.EvictionSpares | pkg/spool/spool.go:58-68 | An eviction leaves the record's own temporary file in place if and only if the record is accepted, and then what is left fits |
| Spool.EnqueueEvicts | pkg/spool/spool.go:121-186 | With the record counted twice: nothing is evicted while it fits within the caps; otherwise the oldest files go, as few as leave it within nine tenths of each cap, and the record is refused when that would take its own temporary file |
| Spool.Spool.Enqueue | pkg/spool/spool.go:50-69 | The record is written if and only if it fits twice without an eviction, or twice below the watermark with an older file to evict; otherwise the directory is left empty |
| Spool.Spool.EnforceCapacity | pkg/spool/spool.go:121-186 | Evicts the shortest non-empty prefix of the oldest files that meets the watermark, or everything when none does |

## Left out

- CreditWorkers.CreditWorkers.WorkHoldExpiry: the source has no bound on the number of batches; the method takes one, of any size, because it would not end where `HoldExpiryStops` says that the loop does not.
- Dunning.AtMostOneInFlight: assumes that an attempt ends within 15 minutes of the clock reading it claimed with, and that nothing but a recorded outcome makes a leased subscription due; the second is an assumption about the lifecycle code, whose effect on a subscription is otherwise arbitrary here.
- The exact condition under which one given order of selected rows, neither every order nor latest first, keeps an extended table disjoint.
- Charging, idempotency keys and the resolution of the payment provider: a claimed attempt is only known to be in flight. As written, the provider lookup in internal/river/jobs_dunning.go:377-406 always yields the empty string.
- Table constraints of the migrations (overlap exclusion, start before end, reason with revocation): a statement that breaches one fails and rolls back; the model shows what the statements alone do.
- The row read that precedes the timeline lock in `SetEntitlementEndAtTx` and `RevokeEntitlementNowTx`: transactions are atomic here.
- `FOR UPDATE SKIP LOCKED`: no row is locked by anyone else while a batch selects.
- int64 overflow of totals and balances, saturation of time differences beyond 292 years, sub-microsecond instants, and the zero time as an instant.
- A bucket's limit changing while a window runs; the choice of a bucket from the request path.
- Errors of the file system other than the rename of an evicted temporary file; names are taken to sort in the order of writing. The low watermark is nine tenths of a cap rounded down, which is what the floating-point product gives for the built-in cap.
- Database errors, `created_at` and `updated_at`, logging, and the lists of records ordered for display (`GetLatestActive`, `ListByUser`).
- Subscription period fields (internal/db/models/subscription.go): easy members.

# Verification of the customer portal's core

A Dafny model of the parts of the portal in which many calls must work together: the digest pipeline,
the e-mail outbox, the rate limiter with typo clustering, the audit export, phase ordering, date, money
and base32 conversions, the document store with its byte quota, and the e-mail change protocol.
`dafny verify dfyconfig.toml` checks everything.

A table is a class field, a transaction a method, and time a natural number. Each method is proved against
a specification function or relation, and the properties of whole runs are proved about that.

| file | what it holds |
|---|---|
| `Wrappers.dfy`, `Numbers.dfy`, `Seqs.dfy`, `Text.dfy` | options and results, arithmetic, filtering of sequences, JavaScript string operations |
| `Digest.dfy`, `DigestLog.dfy`, `DigestRuns.dfy`, `DigestTheorems.dfy` | pending rows and timers, the grouped event log, runs and what holds of them |
| `DigestGroups.dfy`, `DigestTicks.dfy`, `DigestStore.dfy` | which events share a row, what a tick mails and leaves, the tables as a class |
| `DigestLocks.dfy` | recorders and workers statement by statement, with row locks |
| `DigestGrouping.dfy` | the layout of an admin digest |
| `Outbox.dfy`, `RateLimit.dfy`, `EmailCluster.dfy` | the retry state machine, the limiter, the one-edit test |
| `AuditQuery.dfy`, `Csv.dfy` | cursor paging, the CSV printer and a reader for it |
| `Phases.dfy` | the operations that share `display_order` |
| `Calendar.dfy`, `Money.dfy`, `InvoiceAmount.dfy`, `Base32.dfy` | conversions and round trips |
| `Documents.dfy`, `Quota.dfy`, `QuotaRuns.dfy` | uploads and version chains; the quota under interleaving; what committed rows owe to their requests |
| `EmailChange.dfy` | request, verify, revert |

## What the proofs found

- A strict limiter lets through at most 2 * limit - 2 failures in any window length, and every one with a
  window above 1 ms can reach it. The counter stays within the limit exactly when limit >= 2 and lockout >= window,
  which is what strict means.
- `RUNBOOK.md:298` says that a non-retryable send failure sets `failed` immediately, as the code does.
  But the claim query also takes `failed` rows (`domain/email-outbox/repo.js:37`), so such a mail is retried like
  any other.
- The comment at `lib/audit-query.js:125-127` speaks of a `(ts, id)` cursor; the query seeks on `id` alone.
  Paging is complete exactly when the ids split at the page boundaries.
- An event whose metadata has its own `count` overrides the starting count (`lib/digest.js:107-109`).
- `29/02/0000` is the one calendar day that the date check turns away.
- A whole amount grouped with commas (`1,234`) is read as a decimal; it is read back only below 1000.
- The base32 printer drops trailing bits where section 6 of RFC 4648 pads them; the 20-byte secrets it is
  used for lose nothing.
- The comment at `domain/phases/service.js:240-241` says that a date set by hand wins for ever; going back to
  `not_started` clears it, and a completion date is also cleared by `in_progress` and `blocked`.
- A version uploaded beside an earlier sibling is missing from its own version chain.
- A typo of a locked address evades the lock when it is the smaller of the two, as the comment at
  `lib/auth/email-cluster.js:89-94` concedes.
- Reverting an older e-mail change, or editing the address as an admin, while a request is open makes that
  request's own revert restore another address than the one held before.
- Account creation (`domain/admins/service.js:68`, `domain/customers/service.js:88`), the admin's edit
  (`domain/customers/service.js:338-341`) and reverts check only their own table, so one address can come to
  be held by an admin and a customer user. Requests and verifications look at both tables.

## Modelling choices

- JavaScript strings are sequences of UTF-16 units. Text case folding, title text, name collation, times and
  UUIDs as text enter as arbitrary functions; a collation only has to be a total preorder.
- An e-mail address is a pair of its folded form, which CITEXT columns compare, and its text, which `===`
  compares.
- JavaScript numbers that may leave the exact range enter through a rounding function that is monotone and
  exact up to 2^53.
- Ids, tokens and timestamps from outside are arguments; a new id or token is one not used before.
- The digest claims fix window and cap for a run. Grouping, timers and conservation hold for any times the
  transactions bring; fairness and mail keys need a clock that does not go back, also
  within a tick, which reads the time once for its claims and once more for each mail. Fairness is about one
  worker; timer coverage and commit order (`DigestLocks`) are about any number.
- The quota model interleaves single statements: the checks before the transaction read what is committed
  then, the lock on the customer row is held to the commit, and any job may abort at any point.

## Model

| member | source | states |
|---|---|---|
| `Digest.MatchIndex` | domain/digest/repo.js:42-65 | finds a pending row of the key exactly when there is one; the key is recipient, event type, customer and the discriminator values, a missing value matching only a missing one |
| `DigestGroups.KeyIffTakes` | lib/digest.js:31-72 | a pending row has the key of an event iff recipient, type, customer and, for checklist toggles alone, the text of `phaseId` agree |
| `Digest.FreshLine` | lib/digest.js:98-113 | an inserted row has the key of its event and starts at count 1 unless the metadata brings its own `count` |
| `Digest.Coalesced` | lib/digest.js:73-88 | folding an event in keeps the key of the row and raises its count by one |
| `Digest.RecordedKeepsValid` | lib/digest.js:55-120 | recording keeps row ids distinct and at most one row per coalescing key |
| `Digest.DrainedKeepsValid` | domain/digest/repo.js:127-143 | so does draining a recipient |
| `DigestLog.LineCount` | lib/digest.js:74-112 | the row of a group counts the group, shifted by what its first event started with, and keeps the first event's key and time |
| `DigestLog.CountIsGroupSize` | lib/digest.js:74-112 | the count equals the group size if and only if the first event brings no `count` or the count 1 |
| `DigestLog.LineKeepsFirst` | lib/digest.js:79-113 | a row keeps recipient, customer, type, bucket, detail, link, time and other metadata of the first event of its group, and its title while alone |
| `DigestLog.LineTakesNewest` | lib/digest.js:76-87 | and carries the newest vars and the newest locale that any event of the group brought |
| `DigestLog.LineKeepsOwn` | lib/digest.js:76-87 | or, when none of them brought any, what the metadata of the first event held |
| `DigestLog.TitleOfFold` | lib/digest.js:38-53 | the title after each fold: rendered for the size of the group when vars and locale are at hand, else the fixed plural of its type |
| `DigestLog.FoldedTitle` | lib/digest.js:38-44 | after folding in an event with vars and locale the title is rendered from them with the size of the group |
| `DigestLog.HeadsApart` | lib/digest.js:61-73 | no two coalescing groups share a key |
| `DigestLog.ViewSnocOpens` | lib/digest.js:98-113 | an event of a new key adds one row to the grouped log and changes no other |
| `DigestLog.ViewSnocFolds` | lib/digest.js:61-95 | any other event changes exactly the row of its key |
| `DigestLog.ViewDrain` | domain/digest/repo.js:127-135 | draining removes exactly the rows of the recipient |
| `DigestGroups.OneGroupIff` | lib/digest.js:31-72 | two un-drained events, one of them of a coalescing type, are reported by one row iff recipient, type and customer agree and, for checklist toggles alone, the phase |
| `DigestGroups.OtherIsAlone` | lib/digest.js:17-23 | an event of any other type shares its row with no other event |
| `DigestGroups.OthersOpenRows` | lib/digest.js:61-98 | and opens a row each time it comes |
| `DigestGroups.PhasesLieApart` | lib/digest.js:25-33 | in every reachable state toggles of two phases are reported by two rows with different ids |
| `DigestGroups.InsertedIff` | domain/digest/repo.js:42-65 | an event is folded in iff its type coalesces and a pending row has its recipient, type, customer and, for toggles, phase |
| `DigestRuns.MatchIsOnly` | domain/digest/repo.js:53-64 | the row that matches is the only one of its key, so its id names one row |
| `DigestRuns.InsertsIffOpens` | lib/digest.js:61-98 | `recordForDigest` inserts exactly for events whose key is not in the un-drained log |
| `DigestRuns.StepKeepsInv` | domain/digest/worker.js:84-143 | one transaction, of either kind, keeps the pending table equal to the grouped log, the timers equal to their closed form and the event count balanced |
| `DigestRuns.RunKeepsInv` | domain/digest/worker.js:84-143 | and so does every run |
| `DigestTheorems.PendingIsGroupedLog` | lib/digest.js:61-113 | in every reachable state there is one row per group, in order of first event, equal to the fold of the group, with the group size as count |
| `DigestTheorems.EveryEventReported` | lib/digest.js:61-113 | every un-drained event is in some row, and a coalescing one in exactly one |
| `DigestTheorems.DebounceClosedForm` | domain/digest/repo.js:77-103 | a recipient has a timer iff it has pending rows; `oldest_item_at` is its first un-drained event, `due_at` is min(last + window, first + cap) (with window above cap: iff more than one event came) |
| `DigestTheorems.NeverEarly` | domain/digest/repo.js:115-125 | a claimed recipient has rows to send and was idle for the window or reached its cap |
| `DigestTheorems.EventsConserved` | domain/digest/worker.js:84-143 | events recorded equal the counts pending, mailed and dropped, over every run, when no event brings its own `count`; otherwise they differ by the surplus |
| `DigestTheorems.OwnCountBreaksConservation` | lib/digest.js:107-109 | a caller's `count: 5` is counted five times |
| `DigestTheorems.MailKeysDistinct` | domain/digest/worker.js:113 | with a clock that does not go back a digest's idempotency key is never used twice, so none is swallowed |
| `DigestTheorems.RecordAddsNoRival` | domain/digest/repo.js:97-101 | once a recipient's cap has run out, recording never adds a timer due by then |
| `DigestTheorems.TickTakesFullBatch` | domain/digest/repo.js:115-125 | a tick that leaves such a recipient waiting takes a full batch of its rivals |
| `DigestTheorems.ClaimedWithin` | domain/digest/worker.js:84-139 | with k timers due by the deadline, and a clock that does not go back, it is claimed within k / batch ticks, rounded up |
| `DigestTheorems.NoStarvation` | domain/digest/worker.js:84-139 | from every reachable state, with a clock that does not go back, floor(k / batch) + 1 ticks after the cap suffice, whatever is recorded meanwhile |
| `DigestTheorems.ClaimDrains` | domain/digest/worker.js:90-138 | a claimed recipient ends the tick with no timer, no row and no un-drained event |
| `DigestTicks.TickMails` | domain/digest/worker.js:90-139 | a tick appends exactly one mail for each claim whose recipient is active and had rows, in claim order, stamped with the time of that claim and holding those rows in order |
| `DigestTicks.TickCounts` | domain/digest/worker.js:91-103 | the rows of active claims count as mailed, those of all other claims as dropped |
| `DigestTicks.SentExactly` | domain/digest/worker.js:84-143 | the mails of a whole run are exactly those of active claims with rows, each with the rows pending at its tick |
| `DigestTicks.UndrainedIsWaiting` | domain/digest/worker.js:90-139 | the un-drained events of a recipient are those recorded since the last tick that claimed it |
| `DigestStore.Store.FindCoalescable` | domain/digest/repo.js:42-65 | returns a newest row of the key, or nothing when there is none |
| `DigestStore.Store.UpdateCoalesced` | domain/digest/repo.js:67-75 | rewrites title, detail and metadata of the row with the id and no other; no effect when it is gone |
| `DigestStore.Store.FoldInto` | lib/digest.js:73-88 | the coalescing branch turns the row into `Coalesced` of it |
| `DigestStore.Store.UpsertSchedule` | domain/digest/repo.js:77-103 | starts or slides the recipient's timer |
| `DigestStore.Store.RecordForDigest` | lib/digest.js:55-120 | coalesces iff the type does and a pending row agrees on recipient, type, customer and, for toggles, phase; leaves the tables that the specification function says and returns the id of such a row |
| `DigestStore.Store.ClaimDue` | domain/digest/repo.js:115-125 | claims due recipients, earliest first, at most the batch, leaving none that was due before a claimed one |
| `DigestStore.Store.Serve` | domain/digest/worker.js:90-139 | mails the drained rows iff the recipient is active and has rows, and clears the timer either way |
| `DigestStore.Store.TickOnce` | domain/digest/worker.js:84-143 | drains every claim and appends one mail for each active one that had rows, with its own time; fired is their number and fired + dropped = claimed |
| `DigestStore.MethodsAreSteps` | domain/digest/worker.js:84-143 | both methods are enabled steps of the runs |
| `DigestStore.ServesIgnoreHistory` | domain/digest/worker.js:90-139 | the tables and mails after a tick depend on nothing but tables and claims |
| `DigestLocks.StepKeepsInv` | lib/digest.js:98-118 | each single statement of a recorder or a worker, or an abort, keeps the lock invariant |
| `DigestLocks.EveryItemScheduled` | domain/digest/worker.js:85-137 | with any number of recorders and workers interleaved statement by statement, every committed item always has a committed timer |
| `DigestLocks.CommitsAreSerial` | lib/digest.js:61-118 | with any such interleaving, the items and timers committed are those that the committed transactions give one after another, in the order of their commits: a recorder adds the items and timers it wrote, a worker drops those of the recipients it claimed, and nothing else changes them |
| `DigestLocks.StepIsSerial` | domain/digest/worker.js:85-137 | so no other statement changes a committed row |
| `DigestLocks.RecorderRuns` | lib/digest.js:98-118 | a recorder whose timer row is free can run to its commit |
| `DigestLocks.WorkerRuns` | domain/digest/worker.js:85-137 | and a worker can claim, drain and clear any timer that nobody holds |
| `DigestGrouping.BucketsPartition` | domain/digest/worker.js:45-49 | the two buckets share out the items, each in one of them |
| `DigestGrouping.PushUnder` | domain/digest/worker.js:69-72 | one push changes the group of that name only, adding it when it is missing |
| `DigestGrouping.PlaceItem` | domain/digest/worker.js:66-76 | the loop body keeps the groups equal to those of the items seen |
| `DigestGrouping.CollectGroups` | domain/digest/worker.js:64-76 | after the loop there is one group per heading, holding all its items in order |
| `DigestGrouping.SortGroupsSorted` | domain/digest/worker.js:78-80 | the groups come out in name order |
| `DigestGrouping.GroupItemsByCustomer` | domain/digest/worker.js:62-82 | sorted, distinctly named groups of the items, and the items without a customer apart |
| `DigestGrouping.ItemPlacedOnce` | domain/digest/worker.js:62-82 | an item is in the group of its customer's name, or of `Other` when the name is unknown, and in no other, or among the system items iff it has no customer |
| `DigestGrouping.ItemInItsBucket` | domain/digest/worker.js:67-74 | and there in the list of its own bucket |
| `Outbox.BackoffBelowCap` | domain/email-outbox/repo.js:76 | for attempts 1 to 5 the backoff is 2^n minutes, doubling, always below the one-hour cap |
| `Outbox.OutboxTable.Enqueue` | domain/email-outbox/repo.js:4-28 | nothing exactly when the idempotency key exists; else appends an untried row with the given key, address, template, locale and locals, plus the subject iff one is given, claimable from the given time or now on |
| `Outbox.EnqueueIsAdd` | domain/email-outbox/repo.js:4-28 | which is an enabled step of the runs below |
| `Outbox.TickIsStep` | domain/email-outbox/worker.js:6-51 | and so is the tick below |
| `Outbox.OutboxTable.Claim` | domain/email-outbox/repo.js:30-47 | marks the earliest claimable rows `sending` with one more attempt and touches no other |
| `Outbox.OutboxTable.Settle` | domain/email-outbox/worker.js:14-47 | the loop body: the row is marked sent or failed as the send went |
| `Outbox.OutboxTable.TickOnce` | domain/email-outbox/worker.js:6-51 | every claimed row is settled by its own outcome, the others untouched; sent is the number of deliveries and sent + failed = claimed |
| `Outbox.StepKeepsInv` | domain/email-outbox/worker.js:6-51 | an enqueue or a tick keeps the outbox invariant |
| `Outbox.OutboxInvariant` | domain/email-outbox/repo.js:30-84 | in every reachable state: attempts are the claims made and at most 5, the k-th 2^k minutes before the next, only the last one delivered; status, error, times and absence of secrets are what the last claim made them; keys are unique |
| `Outbox.TriesAreClaims` | domain/email-outbox/worker.js:8-14 | the history of a row is the list of the ticks that claimed it, with their outcomes |
| `Outbox.ClaimableIff` | domain/email-outbox/repo.js:30-84 | a row tried n times is claimable iff it is not sent, n is below 5 and 2^n minutes have passed since its last try |
| `Outbox.UnclaimedUnchanged` | domain/email-outbox/repo.js:34-45 | a row that no tick claims stays as it is |
| `Outbox.SentIsFinal` | domain/email-outbox/repo.js:37 | a sent row is never claimed or changed again |
| `Outbox.ContentKept` | domain/email-outbox/repo.js:61-84 | a row keeps key, address, template and locale for ever, and its locals but for the secrets dropped on delivery |
| `Outbox.BudgetFalls` | domain/email-outbox/repo.js:34-39 | the sum of 5 - attempts over unsent rows falls by at least the number claimed |
| `Outbox.SendsBounded` | domain/email-outbox/worker.js:13-48 | over any run the mailer is called at most five times per stored row |
| `Outbox.RetryableIsInert` | domain/email-outbox/repo.js:37-75 | `retryable` never decides what is claimed: tables that differ only in the queued/failed label stay that way under the same claims |
| `Outbox.PermanentFailureIsRetried` | domain/email-outbox/repo.js:73-84 | a non-retryable first failure is claimable again after exactly two minutes |
| `RateLimit.Limiter.CheckLockout` | lib/auth/rate-limit.js:3-14 | locked or not, and the exact wait until the lock ends |
| `RateLimit.Limiter.RecordFail` | lib/auth/rate-limit.js:16-39 | the new bucket of the key; all other buckets as before |
| `RateLimit.BucketShape` | lib/auth/rate-limit.js:20-35 | the bucket in terms of the guarded history: what is counted, when the window began, until when it is locked |
| `RateLimit.SlidingBound` | lib/auth/rate-limit.js:3-39 | any half-open interval of one window holds at most 2 * limit - 2 recorded failures |
| `RateLimit.SlidingBoundReached` | lib/auth/rate-limit.js:3-39 | and that number is reached by every such limiter whose window is longer than 1 ms |
| `RateLimit.LaxOverflows` | lib/auth/rate-limit.js:30-34 | a limiter with limit 1 or a lockout shorter than the window lets its counter pass the limit |
| `RateLimit.CountStopsAtLimitIff` | lib/auth/rate-limit.js:16-39 | the counter stays within the limit for all guarded histories iff limit >= 2 and lockout >= window |
| `EmailCluster.DistanceSymmetric` | lib/auth/email-cluster.js:25-67 | the recursive Levenshtein distance is symmetric |
| `EmailCluster.AtMostOneEdit` | lib/auth/email-cluster.js:25-28 | distance at most 1 means equal or one substitution, deletion or insertion |
| `EmailCluster.OneSubstitution` | lib/auth/email-cluster.js:37-47 | the equal-length loop decides distance at most 1 |
| `EmailCluster.OneInsertion` | lib/auth/email-cluster.js:49-66 | so does the two-pointer loop, whichever way it exits |
| `EmailCluster.WithinOneEdit` | lib/auth/email-cluster.js:29-67 | true exactly when the distance of the lower-cased strings is at most 1 |
| `EmailCluster.Representative` | lib/auth/email-cluster.js:110-119 | the least of the address and its neighbours among the rows |
| `EmailCluster.AddressOfKey` | lib/auth/email-cluster.js:113-114 | the address is what follows `reset:email:` or `reset:cluster:` in a key |
| `EmailCluster.RecentAddressIsFound` | lib/auth/email-cluster.js:98-119 | an address that failed within the window represents every address one edit away, unless a smaller one does |
| `EmailCluster.RecentClusterIsFound` | lib/auth/email-cluster.js:104-108 | so does a cluster that is locked or was failed against within window plus lockout |
| `EmailCluster.RepresentativeHasBucket` | lib/auth/email-cluster.js:98-119 | any other representative is smaller, one edit away and has such a bucket |
| `EmailCluster.RepresentativeUnique` | lib/auth/email-cluster.js:98-119 | the same for every order of the rows |
| `EmailCluster.LockedClusterIsFound` | lib/auth/email-cluster.js:95-120 | an address one edit from a locked cluster gets that cluster iff neither it nor a neighbour is smaller, and a smaller address otherwise |
| `EmailCluster.SmallerTypoEvades` | lib/auth/email-cluster.js:89-94 | every smaller address one edit from a lone locked cluster stands for itself, in a bucket that is not locked |
| `AuditQuery.ListAuditPage` | lib/audit-query.js:59-93 | a page is the first rows of the query, as many as the limit cut to 32 bits and then to 1..500, with a cursor exactly when more follow |
| `AuditQuery.Clamp` | lib/audit-query.js:60 | 100 when no limit is given, else the limit brought into 1..500, for 32-bit limits |
| `AuditQuery.ClampWraps` | lib/audit-query.js:60 | limits that differ by a multiple of 2^32 are alike |
| `AuditQuery.OrderedSorted` | lib/audit-query.js:84 | the listing is sorted by (ts desc, id desc) |
| `AuditQuery.QueryIsListingAhead` | lib/audit-query.js:77-85 | the page query sees the part of the one big listing that is ahead of the cursor |
| `AuditQuery.PagingCompleteIff` | lib/audit-query.js:83-91 | paging gives the listing, each row once and in order, iff at every page boundary the ids split |
| `AuditQuery.PagingComplete` | lib/audit-query.js:54-58 | so it does for every page size when id order follows time |
| `AuditQuery.PagingCanSkip` | lib/audit-query.js:83-84 | and loses a row when it does not |
| `AuditQuery.StreamPages` | lib/audit-query.js:130-138 | with distinct ids, in any order, the export loop ends and prints exactly the rows of the paged listing |
| `AuditQuery.StreamAuditCsv` | lib/audit-query.js:128-139 | the header, then those rows |
| `AuditQuery.CellUnderHeader` | lib/audit-query.js:9-121 | each column holds the text of the field it is named after, empty for a missing one |
| `AuditQuery.HeaderIsRecord` | lib/audit-query.js:9-12 | the unquoted header line is a CSV record |
| `AuditQuery.ExportReadsPaged` | lib/audit-query.js:95-139 | reading an exported file always gives the headers and the cells of the paged rows, in order |
| `AuditQuery.ExportCompleteIff` | lib/audit-query.js:83-139 | and of every listed row, once, iff the ids of the listing split at every page boundary |
| `AuditQuery.ExportReadsBack` | lib/audit-query.js:54-58 | as they do when id order follows time |
| `Csv.CellRoundTrip` | lib/audit-query.js:95-106 | a printed cell reads back, whatever commas, quotes, CR or LF it holds |
| `Csv.RecordRoundTrip` | lib/audit-query.js:108-122 | so does a printed row |
| `Csv.FileRoundTrip` | lib/audit-query.js:95-122 | reading the concatenated lines by section 2 of RFC 4180 (LF line ends) recovers all cell strings |
| `Csv.QuotedIff` | lib/audit-query.js:95-106 | a cell is quoted exactly when it holds a comma, a quote or a line break, and printed as it is otherwise |
| `Phases.ListsUnique` | domain/phases/repo.js:8-15 | a project has only one list by display order |
| `Phases.ExchangeSwaps` | domain/phases/service.js:188-189 | exchanging the orders of neighbours swaps exactly those two places |
| `Phases.ReorderSwapsNeighbours` | domain/phases/service.js:177-189 | `reorder` fails exactly at the edge and otherwise swaps two neighbours, other projects unchanged |
| `Phases.UpThenDown` | domain/phases/service.js:177-189 | up and then down leaves every row as it was |
| `Phases.MovedShape` | domain/phases/service.js:390-391 | filter and splice give a permutation with the phase at its target and the others in their old order |
| `Phases.SetOrderMoves` | domain/phases/service.js:387-397 | `setPhaseOrder` lists the phases in that order, numbered 0 to N - 1 |
| `Phases.ReorderStep` | domain/phases/service.js:177-189 | in a run a reorder step moves the phase past its neighbour on the side asked for |
| `Phases.SetPhaseOrderStep` | domain/phases/service.js:387-397 | and a `setPhaseOrder` step changes nothing but orders, with the phase at its target and the others in their old order |
| `Phases.StepKeepsValid` | domain/phases/service.js:92-457 | each operation keeps labels and orders distinct within a project |
| `Phases.OrdersStayDistinct` | domain/phases/service.js:92-457 | and so does every run |
| `Phases.DatesFollowStatus` | domain/phases/service.js:236-259 | without overrides, in every reachable state: a completion date iff done, none of both when not started, a start date when in progress |
| `Phases.DatesAreOfSteps` | domain/phases/service.js:236-259 | and every such date is the time of a change of that phase to in progress, or to done |
| `Phases.CreateAppends` | domain/phases/service.js:100-107 | a created phase is listed last, with order 100 past the last one or 100, not started, without dates |
| `Phases.PhaseService.FindMaxDisplayOrder` | domain/phases/repo.js:25-32 | the greatest order of the project, or 0 |
| `Phases.PhaseService.ListPhasesByProject` | domain/phases/repo.js:8-15 | the project's phases by display order |
| `Phases.PhaseService.Create` | domain/phases/service.js:92-107 | appends a not-started phase 100 past the last, or reports the label error |
| `Phases.PhaseService.Rename` | domain/phases/service.js:136-144 | changes the label only, or reports which check failed |
| `Phases.PhaseService.Reorder` | domain/phases/service.js:177-189 | does what the specification function says, with its errors |
| `Phases.PhaseService.SetPhaseOrder` | domain/phases/service.js:361-397 | moves the phase, or reports range, missing phase or foreign customer |
| `Phases.PhaseService.Renumber` | domain/phases/service.js:393-397 | the loop of updates gives every listed phase its place |
| `Phases.PhaseService.ChangeStatus` | domain/phases/service.js:229-259 | the new status with its dates; the same status changes nothing |
| `Phases.PhaseService.SetPhaseDates` | domain/phases/service.js:304-328 | overrides both dates and keeps the status |
| `Phases.PhaseService.Delete` | domain/phases/service.js:418-426 | removes that phase only |
| `Calendar.OverflowCheck` | lib/invoice-parser.js:78-79 | the overflow check accepts exactly real days of the year `Date.UTC` reads |
| `Calendar.AcceptsRealDays` | lib/invoice-parser.js:73-81 | a dd/mm/yyyy text is accepted iff it writes a real day other than 29/02/0000 |
| `Calendar.LeapDayOfYearZeroRejected` | lib/invoice-parser.js:78-79 | 29/02/0000 is turned away |
| `Calendar.DiffCountsNextDays` | lib/digest-dates.js:31-38 | from year 100 on the difference is n iff n next-day steps lead from one day to the other |
| `Calendar.DiffIsMetric` | lib/digest-dates.js:31-38 | for all dates: additive, antisymmetric, and zero iff `Date.UTC` reads the two as one day, which from year 100 on means equal |
| `Calendar.DiffTrueIff` | lib/digest-dates.js:31-38 | for all years from 0 on: exactly when the difference is the true one |
| `Calendar.LabelsUnambiguous` | lib/digest-dates.js:43-63 | on one day two items have the same label iff they are from the same day |
| `Calendar.LabelsTrue` | lib/digest-dates.js:43-63 | Today, Yesterday and a weekday name mean what they say; other labels show the day, with the year iff it is another year |
| `Calendar.WeekdaysFollow` | lib/digest-dates.js:50-52 | the weekday is anchored at Thursday, 1 January 1970, and moves on by one a day |
| `Money.DoublesSuffice` | lib/money.js:43-44 | the cents are exact up to 2^53 - 1 and never fall back into that range past it |
| `Money.AcceptsExactly` | lib/money.js:24-48 | `euroToCents` returns c iff the trimmed text writes c cents with c at most 2^53 - 1 |
| `Money.TooLargeIsOutOfRange` | lib/money.js:44-46 | a larger written amount is out of range |
| `Money.RejectsExactly` | lib/money.js:25-38 | `required` iff only white space is given, `invalid format` iff any other text writes no amount |
| `Money.PrintedForm` | lib/money.js:57-59 | the euros without leading zeros, a dot and two digits |
| `Money.PrintParse` | lib/money.js:24-60 | parsing a printed amount gives it back, for all safe cents and whatever double the division yields |
| `Money.FloorOfDoubleQuotient` | lib/money.js:57 | the double that the division of safe cents yields has the whole euros as its floor |
| `InvoiceAmount.NormalisedPrinted` | lib/invoice-parser.js:45-67 | the text handed to `parseFloat` for an amount printed in either grouping |
| `InvoiceAmount.ReadsTwoDecimals` | lib/invoice-parser.js:68-70 | a dotted number with two decimals is read as its cents |
| `InvoiceAmount.PrintedReadsBack` | lib/invoice-parser.js:45-71 | every amount printed 1.234.567,89 or 1,234,567.89 is read back |
| `InvoiceAmount.UngroupedReadsBack` | lib/invoice-parser.js:59-66 | so is every amount without separators, with a dot or a comma before two decimals or without decimals |
| `InvoiceAmount.RoundsHalfUp` | lib/invoice-parser.js:70 | the cents are the nearest, halves upwards |
| `InvoiceAmount.DotGroupedWholeReadsBack` | lib/invoice-parser.js:61-64 | so is every whole amount grouped with dots |
| `InvoiceAmount.CommaGroupedWholeReadsBackIff` | lib/invoice-parser.js:59-60 | a whole amount grouped with commas is read back iff it is below 1000 |
| `Base32.BufferToBase32` | lib/auth/totp-enrol.js:6-14 | the two loops compute the symbols of the full five-bit groups, floor(8n/5) of them |
| `Base32.BitsReadBack` | lib/auth/totp-enrol.js:6-14 | reading the text recovers exactly the longest bit prefix that is a multiple of five |
| `Base32.ReadsBack` | lib/auth/totp-enrol.js:6-14 | all bytes come back when 5 divides the length, all but the last otherwise |
| `Base32.InjectiveIff` | lib/auth/totp-enrol.js:6-14 | buffers of one length print differently for every length that 5 divides, and for no other |
| `Base32.SecretReadsBack` | lib/auth/totp-enrol.js:16-22 | a derived secret is 32 symbols and reads back |
| `Documents.ForestGrows` | domain/documents/service.js:129-137 | storing a checked row keeps every parent earlier, of one customer and category |
| `Documents.InsertKeepsStore` | domain/documents/service.js:189-205 | and keeps every customer within quota |
| `Documents.DocumentStore.CustomerStorageBytes` | domain/documents/repo.js:34-41 | the sum of the customer's sizes |
| `Documents.DocumentStore.PreCheck` | domain/documents/service.js:129-179 | passes iff the upload is acceptable, with its parent's category, and otherwise gives the first reason against it, in the order of the source |
| `Documents.DocumentStore.UploadForCustomer` | domain/documents/service.js:105-269 | succeeds iff the upload is acceptable, adds one row then and nothing otherwise; the error is the first reason against it; a version takes its parent's category |
| `Documents.DocumentStore.InsertUnderLock` | domain/documents/service.js:185-205 | inserts iff the customer is active and stays within quota, and says which of the two failed |
| `Documents.DocumentStore.EarliestChild` | domain/documents/repo.js:59-64 | one of the earliest children, or nothing when there is none |
| `Documents.DocumentStore.ListVersionChain` | domain/documents/repo.js:47-69 | both loops end; nothing iff the id is unknown, else a path from the first version to a leaf by earliest children |
| `Documents.PathUniform` | domain/documents/repo.js:47-69 | a chain is of one customer and one category, parents before children |
| `Documents.ListedIffFirstLine` | domain/documents/repo.js:56-67 | a document is sure to be in its own chain iff it and all its ancestors were uploaded before any sibling |
| `Documents.ListedIffEarliestLine` | domain/documents/repo.js:56-67 | it can be in its own chain at all iff no sibling of it or of an ancestor was uploaded before |
| `Documents.ForkedVersionMissing` | domain/documents/repo.js:59-64 | two versions of one document: no chain from the first holds the later one |
| `Documents.LinearChains` | domain/documents/repo.js:43-69 | when no document has two children, the chain holds the document asked for and is the same for every member |
| `Quota.StepKeepsInv` | domain/documents/service.js:178-205 | each statement of any upload, draft or status change keeps the quota invariant |
| `Quota.QuotaKept` | domain/ndas/service.js:268-293 | whatever the interleaving, committed sizes stay within 5 GB a customer and the rows a forest |
| `Quota.OneAtATime` | domain/documents/service.js:86-95 | one job at a time is between lock and commit for a customer |
| `Quota.CommitIsChecked` | domain/documents/service.js:189-205 | a row is committed for an active customer, and what was weighed still holds then |
| `QuotaRuns.CommittedAsRequested` | domain/documents/service.js:193-205 | each committed row was begun by exactly one step of the run and carries what it asked for: customer, parent, file size and time of an upload whose file passed the checks; customer, size and time of a draft |
| `QuotaRuns.RowsAreCommits` | domain/documents/service.js:185-205 | the table holds the rows of the committed jobs, in the order of their commits |
| `QuotaRuns.RequestsWithinQuota` | domain/ndas/service.js:265-293 | the sizes that a customer's committed jobs asked for are at most 5 GB in all, whatever the interleaving |
| `QuotaRuns.CommittedWhileActive` | domain/documents/service.js:86-95 | a row is committed only while the last status given to its customer is active |
| `QuotaRuns.FitUploadCommits` | domain/documents/service.js:129-205 | an upload that fits can run to its commit from every forest, when nobody holds its customer row |
| `QuotaRuns.FitDraftCommits` | domain/ndas/service.js:265-293 | so can a draft |
| `EmailChange.EmailChangeService.RequestEmailChange` | domain/customer-users/service.js:109-175 | succeeds iff the account exists, the address is spelt differently and passes the collision checks of its kind; then the open request is cancelled and one opened |
| `EmailChange.EmailChangeService.VerifyEmailChange` | domain/customer-users/service.js:199-293 | succeeds iff the token belongs to an open, unexpired request of this kind with a free address; then the address is swapped; each error is given exactly when its reason is the first that holds |
| `EmailChange.EmailChangeService.RevertEmailChange` | domain/admins/service.js:662-694 | succeeds iff the token is a live revert token of this kind; then the old address is back and all sessions are revoked; each error exactly when its reason is the first that holds |
| `EmailChange.EmailChangeService.CreateAccount` | domain/admins/service.js:60-83 | succeeds iff no account of the same table holds the address, whatever the other table holds |
| `EmailChange.EmailChangeService.AdminUpdateCustomerUserEmail` | domain/customers/service.js:317-350 | writes the address iff it differs and no other customer user holds it; open requests stay as they are |
| `EmailChange.RespellIff` | domain/admins/service.js:562-566 | an admin may ask for the own address in another spelling when no customer user holds it, a customer user never |
| `EmailChange.StepKeepsInv` | domain/admins/service.js:553-694 | each call keeps one open request per account, tokens apart and addresses unique per table |
| `EmailChange.RunKeepsInv` | domain/customer-users/service.js:109-293 | so does every run, and every request met its 24 hour and 7 day limits |
| `EmailChange.TokenWorksOnce` | domain/customer-users/service.js:256-263 | in any run a verify or revert token succeeds at most once |
| `EmailChange.RequestThenVerify` | domain/customer-users/service.js:199-293 | a request is verified with its own token, within 24 hours of it, and brings its address to its account and no other |
| `EmailChange.VerifyThenRevert` | domain/customer-users/service.js:593-660 | a change is reverted with the token that its verification issued, within 7 days of it, for its account alone |
| `EmailChange.RequestClosesOpen` | domain/customer-users/service.js:131-153 | a request remembers the address held and cancels the open request of its account and no other |
| `EmailChange.SessionEndsIff` | domain/customer-users/service.js:640-646 | a revert ends all sessions of its account that were live, at its time, and no other step ends any |
| `EmailChange.RevertRestoresIff` | domain/customer-users/service.js:630-633 | verify, then anything, then revert brings the address back iff the account still held the old one at the verification |
| `EmailChange.RequestVerifyRevert` | domain/customer-users/service.js:593-660 | which is so when the account sees no revert and no edit by an admin between a request and its verification |
| `EmailChange.LateRevertMissesAddress` | domain/customer-users/service.js:593-660 | a run with such a revert, after which the account is on another address |
| `EmailChange.EditMissesAddress` | domain/customers/service.js:337-341 | a run with such an edit, after which the account is on the address from before the edit |
| `EmailChange.StepKeepsDistinct` | domain/customer-users/service.js:234-245 | requests and verifications keep addresses distinct across both tables |
| `EmailChange.UncheckedDistinctIff` | domain/customers/service.js:337-341 | creation, an admin's edit and a revert do iff nobody in the other table holds the address |
| `EmailChange.RunDistinctIff` | domain/admins/service.js:60-694 | addresses stay distinct over a whole run iff no creation, edit or revert in it writes one that the other table holds |
| `EmailChange.CreationAndEditCollide` | domain/customers/service.js:88-95 | states in which a creation and an edit leave two holders of one address |
| `EmailChange.RevertCollides` | domain/admins/service.js:679 | a run of requests, verifications and one revert after which two accounts hold one address |

## Left out

- HTTP routes, page and mail rendering, the PDF service, the mail provider, file streaming, disk writes and file name cleaning: a send is an arbitrary outcome, a file its size, type and truncation flag.
- AES-GCM, argon2, HMAC, TOTP checks, WebAuthn and SHA-256: tokens stand for their hashes.
- Time zones and `Intl` output: `humanDate` starts from two calendar days.
- Extraction of fields from PDF text by regular expressions, and the SQL filters of the audit query, which are an arbitrary predicate.
- Audit rows, digest fan-out and mails written by the phase, document and e-mail services; e-mail address syntax and trimming.
- Tables of invoices, credential requests, customers, questions, NDA slots and sessions beyond revocation: each is settled by reading one branch.
- Deadlock detection and statement errors: an abort may come at any point of `DigestLocks` and `Quota`, and the other components take a transaction as one step.
- Lost updates between two folds of one row at statement granularity: `updateCoalesced` ignores its row count, so `DigestLocks` is about which items and timers there are, and counts are proved with transactions as steps.
- Several digest workers in the fairness and conservation results.
- The gap between `checkLockout` and `recordFail`: a guarded call is one step.
- The race of two verifications that take one address in different account tables.
- The invitation, credentials and customer that come with a created account, and the new invitation that an admin's edit may send; any accounts with addresses unique per table may be there when a run starts.
- Whether an edited customer user belongs to the customer named in the call.
- Other ends of sessions: sign-out, password change, an authentication reset, suspension of a customer.
- Fractional and non-numeric page limits.
- Width of `display_order`, `count` and `attempts` columns; the model's integers do not overflow.
- Errors of `parseFloat` and of the product by 100 in the last binary digit: invoice amounts are exact decimals.
- Non-numeric or null `count` values in event metadata, and callers that pass non-strings.
- InvoiceAmount.PrintedReadsBack: states nothing about texts with misplaced separators, which the source accepts too.

# A model of the agent interaction ledger

The repository records what an AI agent was allowed to do in an append-only,
verifiable ledger (ImmuDB). Several services write to it and read from it
concurrently, over calls that can fail, lag or lose their reply. This project
models the parts where that matters and proves what they promise.

Run `dafny verify dfyconfig.toml` to check everything. Every lemma is marked
`{:induction false}`: its proof is the one written, with no induction added.

## What is modelled

**The ordered write** (`Ledger`, `LedgerInvariant`, `OrderedCommit`,
`WriterInvariant`, `OrderedTheorems`, `OrderedAnswers`, `OrderedProgress`,
`OrderedRefusal`, `OrderedRace`, `OrderedRoute`, `Binary64`). Any number of
verifier processes, each with a shared counter cache, a shared reserve cache and
any number of concurrent calls, commit records to one ledger. Each attempt is one
atomic ExecAll: the record, the counter, the view entry and possibly the reserve
binding, under preconditions judged against the current ledger. Point reads answer
from any earlier state or fail; an ExecAll, once sent, may land at any later moment
or never, and its reply may be lost. `OrderedCommit` is that system as steps,
`WriterInvariant` is its inductive invariant, and `OrderedTheorems` is what follows
for every run; `OrderedAnswers` ties every answer to the one step of the run that gave it and
what that step was told; `OrderedProgress` is the other half, that an attempt left alone
commits, and `OrderedRefusal` says exactly when one that is not left alone is refused,
with `OrderedRace` as its strangest case.
`OrderedRoute` is the same route as the source writes it, a retry
loop over local variables and shared caches, proved to take only steps of the
system while everything else moves between them.

**The readers of the index** (`Paging`, `ZScan`, `Reconcile`, `ReconcileVerdict`,
`ReconcileRun`, `AuditPage`, `BackfillReads`, `BackfillRun`, `BackfillLive`). The reconciliation's
inclusive-score walk over arbitrary views, its verdict, and the pass that runs while
writers keep committing (`Paging` is any paged read: which calls it makes, and that it
ends in one way); the audit page's order check, page and truncation flag; the
offline backfill, interrupted anywhere and run again, and what it does when it is
run beside live writers after all.

**Fault records** (`FaultKey`, `FaultIdentity`, `FaultPage`). The composite key in
bytes, the identity chosen for any call id, the `seekKey` scan of a page's
transaction window, and the fold of faults onto rows.

**Erasure and write-ahead intent** (`Erasure`, `ErasureAudit`, `ErasureRoute`,
`Decide`, `DecideAnswers`, `GatewayRoute`, with `RemoteWrite` for what becomes of a write on the wire). Both
protocols as step systems in which every step can fail and requests, writes and
audits interleave, and both routes in their own imperative form on top. In `Decide`
the gateway may also die between any two steps. `ErasureAudit` and `DecideAnswers` say what
each answer, each record and each audit rests on: what was read, or what the policy said, at
which step.

**The trust anchor** (`Anchor`). The service class with its cache and state file, and
what holds over every sequence of its calls.

## Where the code and its own account disagree

The model follows the code. Each of these is a lemma with its input, beside the lemma
that says exactly when the code does keep the promise:

- `ReconcileRun.CleanIgnoresCommitOrder`, `ReconcileRun.CleanAllowsTwoHolders`: the
  reconciliation reads positions and keys and no transaction, so an index that
  contradicts commit order, or two records on one live position of one view, reads
  clean. `ReconcileRun.CleanOrdersExactly`: a clean index has one holder per live
  position and follows commit order if and only if the audit page's adjacent-pair test
  passes on the live rows of both views merged.
- `Reconcile.BoundaryRepeats` and the contract of `ReconcileVerdict.ReconcileOnce`:
  the row at a page boundary is read again by the inclusive cursor and appended
  again, so a view of 2500 members or more is reported `duplicated` however sound it
  is. For still views the verdict is clean exactly when both are smaller than a page
  and every check holds.
- `OrderedRace.ClearedGlobalIsRefused`: the process's cached reserve is tested and
  returned as two reads of one global; another call of the process, refused, clears it
  between the two, and the first then sends a binding nobody competes for and is refused
  although nothing landed after its reads. `OrderedRefusal.RefusedExactlyWhen`: that, and
  a write of another call after one of the attempt's two reads, are the only causes.
- `Decide.UnknownWithoutExecution`, `Decide.UnknownAfterDeath`: an intent write that
  raised can still land, and a gateway can die between its intent and its tool, so an
  `unknown` row does not mean that the tool ran. `Decide.UnknownMeans`: it was started if
  and only if the intent write never raised and the call got past its start.
- `Decide.UnknownBetweenScans`, `Decide.UnknownOnATruncatedPage`: the decision view is
  scanned before the intent view, and both are cut to a page, so a call can show
  `unknown` although its decision record is there. `Decide.AuditIsExact` says for every
  audit exactly which rows show as what.
- `Erasure.LateTombstoneStrandsTheRow`: a DELETE refused because nothing was found
  can still have its tombstone land, which leaves the conflict the refusal was meant
  to avoid. `Erasure.RefusalStrandsExactly`: it does if and only if the write was put
  on the wire and is not lost.
- `Erasure.RacingWriteLeavesARow`: a content write that checked before the tombstone
  puts a row back after the erasure. `Erasure.RowReturnsExactly`: while every check
  reads past the tombstone, a row returns if and only if some write is already past its
  check.
- `Anchor.RestartCanGoBackwards`: an anchor seeded from the head is not written to
  the file, and a failed write truncates the file, so a restart can hold a lower
  anchor. `Anchor.RestartKeepsExactly`: no restart lowers it if and only if it is zero
  or the file holds a state for this database at or above it.
- `BackfillRun.LiveWriteBetweenReadsIsDoubled`: a record committed between the
  backfill's two reads of a view ends at two positions.
  `BackfillRun.DoublesExactlyTheCaught`: a pass, stopped anywhere and with writers moving
  between its zAdds, doubles a key if and only if it wrote a record caught so;
  `BackfillLive.PassBesideWriters` says it of every run.
- `BackfillRun.FailedReadSkipsTheSeed`: a counter read that fails is taken for no
  counter, so the pass writes its history and leaves a counter that runs below the
  reserve. `BackfillRun.UnseededIsSeeded`: that is what a seeded pass leaves if and only
  if there is no counter or it runs at or above the reserve.
- `BackfillRun.KeepsSeamExactly`: backfilling a ledger that already allocates keeps
  position order equal to commit order if and only if every record it indexes is older
  than the first allocation. The tool checks the reserve and not this.

## Model

| member | source | states |
|---|---|---|
| OrderedTheorems.PositionsAreExact | verifier/main.py:2016-2247 | In every run of any number of writers, the positions above the bound reserve are exactly reserve+1..counter over both views, each held by one key in one view, no key at two positions, and position order is commit order |
| OrderedTheorems.AgreedPositionsAreExact | control_plane/main.py:1220-1252 | The same for a reader configured with the bound reserve or, while none is bound, with the reserve of some writer: whether nothing was allocated yet or a counter runs |
| OrderedTheorems.OrderIsCommitOrder | control_plane/main.py:1255-1320 | In every run, whatever reserve a reader is configured with, position order is commit order over both views and no key holds two positions |
| OrderedTheorems.LetThroughIsReadable | control_plane/main.py:1220-1252 | Every ledger the readers' agreement check lets through reads in commit order without repeats above the reserve: with a writer's reserve, and with any other while none is bound and no historical transaction wrote two records |
| OrderedTheorems.SeamStays | verifier/main.py:2133-2153 | Once allocation has started above a reserve, every run keeps the live range gapless and adds nothing at or below the reserve |
| OrderedAnswers.AnswersStayTrue | verifier/main.py:2324-2522 | Every answer of an ordered write is true when given and in every continuation: true names the transaction holding these bytes and a position the key holds, false and 409 mean none of its ExecAlls lands, at most one lands, and it says verified, then and later, if and only if the proof of its commit was answered |
| OrderedAnswers.VerifiedMeansProved | verifier/main.py:2475-2522 | In every run, a finished write says verified if and only if at some step it stood at its proof read and that read was answered; an answer from the confirmation read or a failed proof never does |
| OrderedAnswers.PositionIsExact | verifier/main.py:2288-2320 | A committed answer names a position if and only if the call knew its own commit or the view read back showed this key, in the first row that names it, at the position asked for |
| OrderedAnswers.NegativesAreExact | verifier/main.py:2389-2474 | Null is answered if and only if the read back failed or found nothing after a lost reply; false if and only if nothing was ever sent, other bytes were read, or nothing was read after the ledger refused every attempt; 409 if and only if the record was read after a refusal |
| OrderedAnswers.SpentIsExact | verifier/main.py:2060-2247 | The ledger is asked back as after a spent budget if and only if the loop found no attempt left, and never because of a lost reply, a failed read or a reserve that disagrees |
| OrderedTheorems.OneCommitPerKey | verifier/main.py:2139-2163 | Over all calls of all processes a record key is committed by at most one ExecAll |
| OrderedTheorems.OneReserve | verifier/main.py:1944-1985 | The reserve is bound once and never moves, and every allocation came from a process configured with the bound value, lagging reads and bind races included |
| OrderedTheorems.CachedReserveIsUsable | verifier/main.py:1789-1828 | Over any ledger, whatever it has bound, no process ever caches a reserve outside 1 to 2^53-1 |
| OrderedTheorems.CachedPairsArePast | verifier/main.py:2085-2116 | Every counter pair in a cache or held by a call is a past state of the counter, and a granted ExecAll was built from its current state |
| OrderedProgress.StalenessCostsOneAttempt | verifier/main.py:2060-2226 | In every reachable state, whatever the caches hold, a call left alone with two attempts commits at the counter's next position on its first attempt or, a stale pair refused, on its second |
| OrderedProgress.AttemptOutcome | verifier/main.py:2064-2226 | An attempt with current reads commits at the next position, and only one built from a cached pair can be refused |
| OrderedProgress.RefusalClearsCaches | verifier/main.py:2183-2214 | After a refusal not about the record the loop starts over with both caches empty |
| OrderedProgress.CommitFillsCaches | verifier/main.py:2222-2226 | After a commit the caches hold the new counter and its transaction, and the reserve this commit bound |
| OrderedProgress.RestartIsCold | verifier/main.py:1941-1985 | A restarted process holds neither cache and keeps its configuration |
| OrderedRefusal.RefusedExactlyWhen | verifier/main.py:2060-2226 | In every run, an attempt that knew the reserve and the counter as they were and whose record is absent is refused if and only if another call's transaction wrote the counter or the reserve after that, or another call of its process dropped the cached reserve before this one returned it |
| OrderedRefusal.RetriedRefusalHasACause | verifier/main.py:2181-2214 | A refused attempt that is retried lost to one of these causes and never to its own record |
| OrderedRace.ClearedGlobalIsRefused | verifier/main.py:1944-1985 | Three calls of one process: the second, refused, drops the cached reserve between the first's test and its return, and the first is refused although nothing landed after its reads |
| OrderedRefusal.EmptyMeansCleared | verifier/main.py:2205-2214 | A call that found the cached reserve filled returns it empty if and only if another call of its process ran its drop in between |
| OrderedTheorems.PositionsStayBelowCeiling | verifier/main.py:2119-2132 | No ExecAll in any run carries a position at or above 2^53 |
| OrderedTheorems.SeamIsExact | verifier/main.py:2133-2153 | A ledger whose allocations came one by one above the seam has an index that describes its log, backfilled history included |
| OrderedTheorems.RunKeepsPaired | ledger/immudb_ledger.py:205-217 | With callers that pair prefix and view as the ledger client does, every view entry in every run is under its view's prefix |
| OrderedTheorems.RunGrows | verifier/main.py:2164-2168 | Every run only appends to the ledger and leaves every process's configuration alone |
| OrderedTheorems.AnswerNow | verifier/main.py:2392-2455 | In any state the invariant allows, a finished call's answer agrees with the ledger and at most one of its ExecAlls has landed |
| WriterInvariant.RunKeeps | verifier/main.py:2060-2247 | Every step of every interleaving keeps what the ledger, the caches and every call know |
| WriterInvariant.GrantKeepsLedger | verifier/main.py:2133-2168 | A granted ExecAll makes the live range longer by exactly its own transaction, leaves the counter at that position, and leaves the reserve bound |
| WriterInvariant.OtherBytesMeanNever | verifier/main.py:1648-1671 | Different bytes under the record key mean that no ExecAll of this call has landed or can |
| WriterInvariant.GrantedMeansCurrent | verifier/main.py:2109-2116 | KeyNotModifiedAfterTX holding for an observed pair proves the pair is the counter's present state |
| WriterInvariant.PositionFromRows | verifier/main.py:2288-2320 | A confirmed position is one the view really holds for this key |
| LedgerInvariant.SeamStep | verifier/main.py:2099-2116 | Allocating counter+1 under the compare-and-set keeps the live range gapless |
| LedgerInvariant.FirstAllocation | verifier/main.py:2091-2107 | The first allocation of a ledger starts the live range at reserve+1, above all history |
| OrderedRoute.CommittedPosition | verifier/main.py:2288-2320 | The loop over returned rows reports a position only when a row for this key carries exactly the score asked for |
| OrderedRoute.Route.OrderedCommit | verifier/main.py:2016-2247 | The retry loop takes only steps of the system, issues at most its budget of ExecAlls, and leaves with the exception class that its state calls for |
| OrderedRoute.Route.ReadBoundReserve | verifier/main.py:1944-1985 | The reserve read, whose test and return are two reads of the global, ends in a bound that is this process's own reserve and the ledger's, in none, or in the exception class its state calls for |
| OrderedRoute.Route.ObserveCounter | verifier/main.py:2083-2090 | The counter pair handed to the attempt, cached or read, is a state the counter really had |
| OrderedRoute.Route.AfterRefusal | verifier/main.py:2181-2214 | A conflict is reported only over a record that is in the ledger; otherwise the loop goes on with the reserve cache empty |
| OrderedRoute.Route.AskTheLedger | verifier/main.py:2397-2455 | An uncertain outcome is answered only with what is true of the ledger, however its reads lag or fail |
| OrderedRoute.Route.WriteOrdered | verifier/main.py:2324-2522 | Whatever fails and whatever else runs meanwhile, the route's answer is true of the ledger; it says verified if and only if its proof was answered, names a position if and only if the commit was known or read back there, and is null if and only if the read back settled nothing; no call commits twice, and none exceeds its budget |
| Binary64.ScoreIsNearest | verifier/main.py:1781-1786 | No value of 53 significant bits is nearer to an integer than the score modelled for it |
| Binary64.ScoreIsRepresentable | verifier/main.py:1781-1786 | Every modelled score has at most 53 significant bits |
| Binary64.ScoreIsMonotone | verifier/main.py:1781-1786 | Rounding positions to scores never inverts their order |
| Binary64.FirstMergeIsAtTheCeiling | verifier/main.py:1781-1801 | Scores of the integers below a limit are distinct and ordered if and only if the limit is at most 2^53+1 |
| Binary64.UncheckedReserveMerges | verifier/main.py:1792-1801 | A reserve of 2^53+1 is refused at load; unchecked, six positions would give four scores with three on one |
| Binary64.ScoresOrderTheLog | anchor_service/main.py:649-653 | In every run, whatever reserve a reader is configured with, every score is its position exactly, so truncation reads it back and score order is commit order |
| ZScan.FullPageAdvances | anchor_service/main.py:430-505 | With fewer than a page of members on one score, a full page reaches a higher score than the one it started at |
| Paging.OneEnd | anchor_service/main.py:415-527 | A paged read that stops by itself stops at one place, and every call of it was answered |
| Reconcile.TakeRows | anchor_service/main.py:480-512 | One page's rows are grouped by score, with foreign prefixes, zero scores and rows below the requested score set aside, in the order they came |
| Reconcile.CollectView | anchor_service/main.py:415-527 | The walk ends on any view and any server, one that ignores the requested bound included, and reports success exactly when every call of it was answered; from a server that honours the bound it reads only members, and then every member of a view with fewer than a page on one score |
| Reconcile.OutsideIsReported | anchor_service/main.py:480-512 | A row is reported as outside the requested bound if and only if some page returned it below the score that page asked for |
| Reconcile.ZeroIsReported | anchor_service/main.py:480-512 | A row without a score is reported, as itself, if and only if some page returned it |
| Reconcile.WalkEnds | anchor_service/main.py:512-527 | The two stopping tests stop the walk only when nothing is left to read |
| Reconcile.BoundaryRepeats | anchor_service/main.py:505-512 | Every page after the first reads the cursor's row again |
| ReconcileVerdict.DuplicatedKeys | anchor_service/main.py:655-683 | The grouping names exactly the keys that hold more than one place |
| ReconcileVerdict.GroupedKeepsPlaces | anchor_service/main.py:500-512 | Grouping rows by score keeps every place each key was read at |
| ReconcileVerdict.CleanMeans | anchor_service/main.py:685-711 | A report is clean if and only if nothing malformed was collected, no row was read twice and the members read are exactly the range, unshared, unforeign and one score per key |
| ReconcileVerdict.FindingsMean | anchor_service/main.py:639-711 | Category by category, and in both directions, what the report lists is what the members read break: missing, unallocated, foreign, shared, duplicated, and the malformed rows and calls as they were collected |
| ReconcileVerdict.StillWalk | anchor_service/main.py:415-527 | Over a still view the walk reads exactly the view, and repeats a row if and only if it fills a page |
| ReconcileVerdict.ReconcileOnce | anchor_service/main.py:558-735 | The pass as a whole, over any servers: when it refuses and what each category holds; where the bounds are honoured, clean if and only if every call was answered, nothing was reread and every check holds; and for still views, if and only if both fit one page |
| ReconcileRun.PassDuringWrites | anchor_service/main.py:619-708 | While writers commit and zscans lag, a pass that read the counter first reports missing only positions its walks had not reached when they began, exactly those over views that hold still, and none when neither walk began behind the counter read; every unallocated position lies above that counter and at or below the one at the end |
| ReconcileRun.CleanIgnoresCommitOrder | anchor_service/main.py:639-711 | An index that contradicts commit order satisfies every check of the pass |
| ReconcileRun.CleanAllowsTwoHolders | anchor_service/main.py:649-653 | Two records on one live position of one view satisfy every check of the pass |
| ReconcileRun.CleanOrdersExactly | anchor_service/main.py:639-711 | For every ledger that satisfies the checks, each live position has one holder and position order is commit order if and only if the adjacent-pair test passes on the live rows of both views merged |
| AuditPage.AdjacentDecidesAll | control_plane/main.py:1279-1290 | The adjacent-pair test passes if and only if score and transaction strictly agree over all pairs, and otherwise names an adjacent disagreement |
| AuditPage.AllocatedKeepsOrder | control_plane/main.py:1279 | Restricting to allocated rows keeps the descending order the test needs |
| AuditPage.ScanOrder | control_plane/main.py:1255-1320 | On every ledger that reads in commit order without repeats above the reserve, the order check passes on a view's page, and each prefix of the page is the newest records in commit order |
| AuditPage.PageIsNewest | control_plane/main.py:1948-2047 | For every limit, and every configured reserve the agreement check lets through on the two scanned ledgers, the response is a page, its rows are the newest of each view as scanned in commit order, a view with a member not on the page fills it, and has_more holds if and only if there is such a member |
| AuditPage.SelectIsNewest | control_plane/main.py:1984-2047 | The same for the two scans taken from any two ledgers that read in commit order without repeats above the reserve |
| AuditPage.PageLimitIs | control_plane/main.py:1940-1949 | The page's limit is the caller's below 2500, 2499 at or above it and 0 at or below 0, and each scan asks for one row more, at most 2500 |
| AuditPage.TakeFills | control_plane/main.py:2045-2047 | A page is as long as it may be: rows of its view, none twice, and as many as the limit allows whenever a member of the view is not on it |
| AuditPage.FaultsExactly | control_plane/main.py:1255-1320 | Over any two scans, the response is a page if and only if all allocated rows of each scan agree in position and commit order; otherwise it names the decision view if that one disagrees, else the intent view, and two rows of it that do |
| AuditPage.LeftOut | control_plane/main.py:2043-2047 | One row more than the page shows was returned if and only if a member of the view is not on the page |
| BackfillReads.ScanAll | tools/ail_backfill_index.py:177-263 | The key scan refuses if and only if a call of it fails or some page holds a row outside the prefix or not past its seek key; otherwise it returns the rows of all its pages, which from a server that honours its bounds are every record once in key order |
| BackfillReads.HonestScanRefusal | tools/ail_backfill_index.py:177-263 | Served within its bounds, the key scan refuses only for a failed call |
| BackfillReads.IndexedKeys | tools/ail_backfill_index.py:266-351 | The index walk ends on any view and any server, and refuses if and only if a call of it fails or some page holds a row below the score it asked for; otherwise it returns the keys of all its pages, which over a still, honoured view with one score per key and fewer than a page of members on one score are exactly the view's |
| BackfillReads.HonestIndexRefusal | tools/ail_backfill_index.py:266-351 | Served within its bounds, the index walk refuses only for a failed call |
| BackfillRun.MissingFrom | tools/ail_backfill_index.py:437-456 | It fails exactly when one of the view's two reads refuses; otherwise, over true reads, the records found missing are exactly those the key scan finds under the prefix and the earlier index read did not, each once at its own transaction |
| BackfillRun.SortByTxSorts | tools/ail_backfill_index.py:457-462 | Sorting keeps the pending entries and puts them in commit order |
| BackfillRun.Backfill | tools/ail_backfill_index.py:418-514 | Over any servers and whatever ledger states its reads came from, a pass refuses if and only if the reserve disagrees, a read of it refuses or some record found missing lies at or above the reserve; it changes nothing when it refuses or runs dry, is interrupted if and only if the connection is lost before its last zAdd, and performs exactly the zAdds before that |
| BackfillRun.OnlyFailuresRefuse | tools/ail_backfill_index.py:177-351 | Where answered reads honour their bounds, a pass mistrusts a read only because a call of it failed |
| BackfillRun.Store.SeedCounterAboveReserve | tools/ail_backfill_index.py:372-403 | With its counter read answered, a counter that exists ends at or above the reserve and is never lowered; one that does not exist is not created, one already there or above is not written, and no other key and no view entry changes; with the read failed, nothing changes |
| BackfillRun.UnseededIsSeeded | tools/ail_backfill_index.py:372-403 | Skipping the seed leaves what seeding would if and only if there is no counter or it runs at or above the reserve |
| BackfillRun.FailedReadSkipsTheSeed | tools/ail_backfill_index.py:406-415 | A failed counter read leaves a counter below the reserve there, under the history the pass then writes |
| BackfillRun.PassAdds | tools/ail_backfill_index.py:463-514 | Any prefix of a pass adds entries at their own transaction below the reserve, leaves old entries alone and doubles no key |
| BackfillRun.FinishedPassIndexesAll | tools/ail_backfill_index.py:463-514 | A finished pass leaves every record indexed |
| BackfillRun.BackfillConverges | tools/ail_backfill_index.py:418-514 | Interrupted any number of times and then finished, every record is at exactly one position, old entries untouched, and a further pass finds nothing |
| BackfillRun.BackfillKeepsFresh | tools/ail_backfill_index.py:372-403 | Backfilling an unallocated ledger leaves it one the ordered write may start from |
| BackfillRun.KeepsSeamExactly | tools/ail_backfill_index.py:418-514 | On a ledger that already allocates, a finished pass keeps position order equal to commit order if and only if every record it indexed is older than the first allocation |
| BackfillRun.LiveWriteBetweenReadsIsDoubled | tools/ail_backfill_index.py:437-456 | On a ledger with nothing left to index, one decision committed between the two reads is all the pass finds, and it ends at two positions |
| BackfillRun.DoublesExactlyTheCaught | tools/ail_backfill_index.py:437-514 | Beside live writers, stopped after any of its zAdds and with writers moving between them, a pass doubles a key if and only if it wrote a record absent from the index read and both present and indexed at the key scan, and each such record lies below the reserve |
| BackfillRun.FinishedWritesTheCaught | tools/ail_backfill_index.py:437-514 | A pass that finishes writes every record so caught |
| BackfillRun.AloneIsWoven | tools/ail_backfill_index.py:497-510 | A pass nothing moves beside is the case of these in which the writers stand still |
| BackfillLive.PassBesideWriters | tools/ail_backfill_index.py:437-514 | The same in every run of the writers bound to the reserve or to none, the four reads taken at any four moments of it in order |
| FaultKey.WindowIsExact | control_plane/main.py:1572-1639 | Below 10^20, a key lies in the half-open byte range of a window if and only if its transaction lies in the window |
| FaultKey.InclusiveEndDropsLast | control_plane/main.py:994-996 | Ending the range at the last transaction's own bound would drop all of its faults |
| FaultKey.ParseInvertsPad | control_plane/main.py:999-1025 | Parsing a fault key returns the transaction the writer padded |
| FaultKey.ParsesExactly | control_plane/main.py:999-1025 | A key parses as naming a transaction if and only if it is that transaction padded behind the prefix, followed by a separator |
| FaultKey.KeyIsInjective | verifier/main.py:1124-1137 | Distinct transaction, identity and nonce give distinct keys, colons in the identity included |
| FaultKey.LessOrder | control_plane/main.py:1572-1639 | The byte order used is a strict total order |
| FaultIdentity.IdentityFits | verifier/main.py:1056-1121 | For every call id the chosen identity is encodable, not empty and within its budget |
| FaultIdentity.SurrogatesAreRefused | verifier/main.py:1056-1121 | A call id with an unencodable character falls back to the digest |
| FaultIdentity.UsableIsKept | verifier/main.py:1056-1121 | A call id is kept if and only if it is there, not empty, encodes and fits its budget; anything else becomes the digest identity |
| FaultIdentity.OneKeyOneFault | verifier/main.py:1124-1149 | Faults whose built keys are one key name one transaction, one identity and one nonce, whatever characters their call ids hold |
| FaultIdentity.FaultKeyIsAlwaysWritable | verifier/main.py:1124-1149 | For every call id the key is built, encodes, fits 1023 bytes and parses back to its transaction: the length error is unreachable |
| FaultPage.FaultsInTxWindow | control_plane/main.py:1572-1639 | The seekKey loop ends on any server, fails if and only if a call fails, refuses if and only if a page returns a row outside the part of the window it asked for, and otherwise returns the rows of all its pages, which from a server that honours its bounds are every in-window entry once, in order |
| FaultPage.HonestNeverStrays | control_plane/main.py:1572-1639 | A server that honours its bounds is never refused for one |
| FaultPage.PresentedExactly | control_plane/main.py:1450-1529 | An entry is presented about a record if and only if it is a signed fault naming that record whose key and body name one transaction, and then with its own class, transaction and key |
| FaultPage.MergeKeepsFold | control_plane/main.py:1532-1569 | Folding in one fault keeps, per record, the number of its faults and the one with the largest entry transaction |
| FaultPage.FoldFaults | control_plane/main.py:1663-1694 | The fold over any scan order holds per record the count and the newest fault |
| FaultPage.WrittenFaultIsPlaced | verifier/main.py:1170-1287 | A fault is set if and only if the record reads back as the call's own and signing answered, left behind unless the write raised and did not land, and reported if and only if its write answered; its class is the call's, its key and body name the record's transaction, and the page accepts it as a fault about that record |
| FaultPage.VerifierPlacesWell | verifier/main.py:1170-1287 | A fault set every qualifying member of which an attempt of the verifier left has each of them at the transaction of the record it names |
| FaultPage.FaultsAreCounted | verifier/main.py:1124-1149 | The faults held about a record are as many as the attempts that left one, because the keys tell them apart |
| FaultPage.RowIsRight | control_plane/main.py:1642-1660 | A record in the window shows the number of valid faults the ledger holds about it, and the class, transaction and key of the newest of them |
| FaultPage.NothingBorrowed | control_plane/main.py:1642-1660 | What a row shows is the class, transaction and key of a fault the ledger holds about that row's record |
| FaultPage.PageFaults | control_plane/main.py:1663-1694 | From a page's transactions to its rows: the page is refused if and only if a call of its fault read failed or a row lay outside its bound; otherwise each record on it shows exactly the number of its own faults and the class, transaction and key of the newest, their number is the number of the verifier's attempts that left one, and no row shows another's |
| Erasure.NoRowLostWithoutTombstone | control_plane/main.py:647-697 | In every run, over every reply and confirmation outcome, a row that was there and is gone has an erasure record behind it, and so has every DELETE that reported an erasure |
| Erasure.SuccessMeansGone | control_plane/main.py:673-691 | A DELETE succeeds only with the row gone, and with the tombstone present if the row was ever there |
| ErasureAudit.AuditsTellErasedFromLost | control_plane/main.py:892-935 | Every audit's payload state agrees with the ledger prefix its tombstone read covered and the row as it was when it read it: a payload shown is exactly that row's, the starting one or one some content write was asked to store, and never one past a tombstone; lost exactly when there was no row and no tombstone seen |
| ErasureAudit.ShownIsRead | control_plane/main.py:892-935 | What an audit shows is decided by the row at the one step of the run at which it read it, and by what its tombstone read said |
| ErasureAudit.RowHasASource | control_plane/main.py:421-432 | A row that is there was there from the start or is what a content write of the run was asked to store |
| ErasureAudit.OutcomeIsExact | control_plane/main.py:647-697 | A DELETE answers that there was nothing to erase if and only if it looked and found no row, and that it erased if and only if it deleted the row |
| ErasureAudit.RepliesAreExact | verifier/main.py:1405-1603 | Committed false is answered only for a write never sent or for other bytes read under the key, null only where the read back failed or found nothing, and committed true only over the transaction proved or read, with these very bytes where the fate of the write was unknown |
| Erasure.ErasedNeverReadsAsLost | control_plane/main.py:892-935 | A row that was there and is gone is shown as erased, and not as lost, by every audit whose tombstone read is current |
| Erasure.TombstoneGoverns | control_plane/main.py:367-432 | A check that reads past a tombstone refuses a content write, whatever else is under the key; an audit that does shows no payload if there is no row, the store is unavailable, or the latest value it read under the key is an erasure record, and otherwise exactly the row |
| Erasure.ConfirmedExactly | control_plane/main.py:560-644 | A call is taken for erased if and only if the last version the read saw under its key is an erasure record of that very call, at the transaction named where one was |
| Erasure.NotCommittedIsFinal | verifier/main.py:1405-1603 | With no earlier version and no concurrent DELETE, committed false is never said of a tombstone that lands, then or later |
| Erasure.CompletesExactlyWhenLanded | control_plane/main.py:492-644 | With the reply in hand and the control plane's own read current, the DELETE goes on to delete if and only if its tombstone landed |
| Erasure.RacingWriteLeavesARow | control_plane/main.py:421-432 | A content write that checked before the tombstone can leave its row behind; the audit then shows the conflict and no payload |
| Erasure.RowReturnsExactly | control_plane/main.py:367-432 | Once the tombstone is there and the row is gone, while every check reads past the tombstone, a row can come back if and only if some content write is already past its check |
| Erasure.LateTombstoneStrandsTheRow | control_plane/main.py:499-515 | A refused DELETE whose tombstone lands later leaves the row, the conflict and refused content writes |
| Erasure.RefusalStrandsExactly | control_plane/main.py:492-644 | With the key to itself, a refused DELETE strands the row in a continuation if and only if its write landed there, and some continuation does if and only if that write is on the wire or landed |
| Erasure.GivingUpSettlesNothing | control_plane/main.py:484-492 | A DELETE whose caller gave up on the tombstone write is refused with the row as it was, and the erasure record lands afterwards or does not |
| ErasureRoute.ControlPlane.PlainWrite | verifier/main.py:1405-1603 | A verified reply names the transaction holding an erasure record, an unproved one a transaction that wrote the key, and a write the caller gave up on refuses the DELETE |
| ErasureRoute.ControlPlane.WriteTombstone | control_plane/main.py:492-644 | The erasure goes on only when the ledger holds an erasure record for the call |
| ErasureRoute.ControlPlane.EraseContent | control_plane/main.py:647-697 | The route leaves no row on success, deletes only over an erasure record, and never leaves a vanished row without one |
| Decide.ToolRunsOnlyAfterItsIntent | decision_service/main.py:438-476 | In every run the tool starts only once the call's intent record is in the ledger |
| Decide.ApprovedMeansRecorded | decision_service/main.py:474-528 | APPROVED and any result come only over a decision record saying policy_allow at the transaction named; an answer that names a transaction is approved if and only if the record there says policy_allow; a mediated call is approved if and only if it returns its tool's result |
| DecideAnswers.OnlyThePolicyAllows | decision_service/main.py:278-333 | In every run, a tool is started, and an agent told APPROVED or handed a result, only if the one step that asked the policy was answered with an allow, for object arguments that satisfy the tool's schema; a result handed over is the one the tool returned |
| DecideAnswers.RecordCarriesVerdict | decision_service/main.py:278-528 | A decision record says schema_deny if and only if the arguments are no object or fail the schema, policy_deny if and only if the policy denied them, the fault of the way it failed to answer if and only if it so failed, an intent or tool fault if and only if that write or tool raised, and policy_allow if and only if the policy allowed and neither did |
| DecideAnswers.ContentIsExact | decision_service/main.py:412-426 | The copy of the arguments is held as present only for an object and as unavailable only for what is none; every call that goes past the store holds one of the two, and one answered without either is denied and names no transaction |
| Decide.ShortScanIsWhole | control_plane/main.py:2043-2047 | A scan that returned less than it asked for returned its whole view |
| Decide.HasMoreIsExact | control_plane/main.py:1948-2047 | For every limit, has_more holds if and only if the decision view or the intent view, as scanned, holds more records than the page shows |
| Decide.AuditIsExact | control_plane/main.py:1984-2081 | For every audit, truncated or not, a call shows as completed, unknown or n/a exactly as the newest records of the two scans cover it and the page has room |
| Decide.UntruncatedAuditIsExact | control_plane/main.py:2285-2350 | With has_more false, a call shows as completed, unknown or n/a exactly as the two scans covered its records |
| Decide.ExecutedCallsShow | control_plane/main.py:2045-2081 | With has_more false and its intent in range, every executed call shows, as completed if and only if its decision is in the decision scan, else as unknown |
| Decide.ApprovedIsNeverUnknown | control_plane/main.py:2285-2350 | A call its agent was told is approved never shows as unknown where the decision scan reaches its record |
| Decide.UnknownWithoutExecution | control_plane/main.py:2285-2294 | A reachable state whose intent landed although its write raised shows unknown without execution |
| Decide.NotExecutedExactlyWhen | decision_service/main.py:438-528 | Of any call of any run whose intent record is in the ledger, the tool was not started if and only if its intent write raised, or it stands, or its gateway died, before execution |
| Decide.UnknownMeans | control_plane/main.py:2285-2294 | On any audit, truncated or not, an unknown row is a call whose intent is in the ledger, and its tool was started if and only if the intent write never raised and the call got past its start |
| Decide.RefusedMeansRaised | decision_service/main.py:438-466 | A call is refused exactly when, at some step of the run, its intent write raised |
| Decide.UnknownAfterDeath | control_plane/main.py:2285-2294 | A reachable call whose gateway died after its intent landed shows unknown for good, with no write of it raised and its tool never started |
| Decide.UnknownBetweenScans | control_plane/main.py:1984-2011 | Records landing between the two scans make a recorded call show as unknown |
| Decide.UnknownOnATruncatedPage | control_plane/main.py:2045-2047 | On a truncated page a recorded call can show as unknown |
| GatewayRoute.Gateway.LogIntent | ledger/immudb_ledger.py:247-323 | The intent write lets the route go on only when the intent record is in the ledger; otherwise the call is refused and fails as an intent write |
| GatewayRoute.Gateway.LogDecision | ledger/immudb_ledger.py:142-244 | The decision write names a transaction only when it holds the decision record, and otherwise turns the answer into a denial without a result |
| GatewayRoute.Gateway.QueryPolicy | decision_service/main.py:278-333 | It evaluates to policy_allow if and only if the arguments are an object, satisfy the schema and the policy service answered with a literal allow |
| GatewayRoute.Gateway.Decide | decision_service/main.py:386-528 | The route as written: approval and results only over a recorded policy_allow and only on the policy's own allow, execution only over a recorded intent and that allow, a result only as the tool returned it, whatever fails |
| Anchor.RootService.Init | verifier/main.py:339-356 | The anchor becomes the file's for this database, else a head that is an empty ledger's or signed, else none; the call raises exactly in the last case, and the file is left alone |
| Anchor.RootService.Get | verifier/main.py:358-362 | A held anchor is returned unchanged; an empty one becomes the reported head exactly when that is an empty ledger's or signed |
| Anchor.RootService.Set | verifier/main.py:364-386 | It succeeds if and only if the file was written and the state is an empty ledger's or signed and not older than the held one; a refused state changes neither cache nor file, and an accepted one is held and, on a completed write, stored beside the other databases' |
| Anchor.NeverBackwards | verifier/main.py:358-386 | Through any calls after init, a held anchor stays held and its transaction never decreases |
| Anchor.FreshProcessIsSourced | verifier/main.py:306-356 | Over any sequence of calls the held anchor came from the file, was signed, or is the empty ledger's |
| Anchor.AnchorsHaveASource | verifier/main.py:339-386 | The same for the held anchor and for everything the file comes to hold |
| Anchor.NeverBackwardsAcrossRestarts | verifier/main.py:339-386 | Once an accepted state is in the file, and while every file write completes, restarts do not lower the anchor either |
| Anchor.RestartCanGoBackwards | verifier/main.py:339-386 | An anchor seeded from the head, or one whose write truncated the file, can be followed by a lower one after a restart |
| Anchor.RestartKeepsExactly | verifier/main.py:339-386 | Whatever head it is given, a restart leaves no lower anchor than the one held if and only if that one is zero or the file holds a state of this database at or above it |

## Left out

- The `attempts`, `detail`, `error_class` and fault fields of the ordered route's answer; of a proof that fails and one that cannot be fetched the model keeps only that neither is verified.
- Signatures, Merkle proofs and JSON are not modelled: a proof check passes, fails or is unavailable, a signature is an opaque predicate, record values are datatypes. `verified: true` is taken as sound.
- HTTP, gRPC, SQL sessions, authentication, SPIFFE, MCP, OPA policy content, metrics and the dashboard: every remote call is a step with the outcomes the code distinguishes.
- The evidence bundle (`tools/ail_verify_bundle.py`, `/audit/bundle`) and the external anchoring of heads: equality checks around library cryptography.
- Runs start from a ledger without allocations, or from one whose counter is at or above the reserve; a ledger already in use that binds a different configured reserve is outside the model, as `verifier/main.py` says of itself.
- Only keys under `tool_call:` and `tool_call_intent:` take the ordered route in the model; other keys it would accept are not write-once across both routes.
- Erasure.NotCommittedIsFinal: requires that the call's tombstone key has no earlier version and no other writer, because the plain route compares the latest bytes it reads and an earlier version seen by a lagging read is reported as different bytes.
- Erasure.ErasedNeverReadsAsLost: requires that only erasure records are written under the tombstone key; the plain route does not refuse other values there, and the readers classify the latest one.
- ReconcileRun.PassDuringWrites: requires that the views as the counter was read hold fewer than 2500 members on one score, without which the inclusive cursor cannot move, that every zscan of the pass was answered, that later zscans of one walk do not answer from an earlier state than its first, and a reserve that is bound or some writer's.
- AuditPage.PageIsNewest: with a reserve that is no writer's, while none is bound, requires that no historical transaction wrote two records; two such on one position above that reserve would be reported as a disagreement.
- BackfillReads.IndexedKeys: completeness requires one score per key and fewer than 2500 members on one score; the walk stops at a full page that brings no new key.
- BackfillLive.PassBesideWriters: between the zAdds the writers are what `OnlyLive` says of them, which is proved of every run of theirs up to the first zAdd.
- OrderedRefusal.RefusedExactlyWhen: an attempt whose counter came from the cache is not in it; `OrderedProgress` says what becomes of a stale one.
- OrderedCommit.Apply: nobody writes the counter and reserve keys outside the ordered route. The plain route refuses only the two record prefixes and `ledger_fault:` (`verifier/main.py:1309`), so it would accept those keys.
- OrderedCommit.Orphan: a restart ends the process's unfinished calls; what they sent may still land.
- ReconcileVerdict.ReconcileOnce: a view member whose score or key cannot be read, and scores that are not numbers, are not modelled; scores are reals.
- BackfillReads.ScanAll: byte order on keys is an arbitrary strict total order.
- FaultKey.ParseInvertsPad: transaction digits are ASCII; the wider set Python's `isdigit` accepts is not modelled.
- FaultPage.RowIsRight: requires that a record's transaction does not change, which holds for write-once keys.
- Decide.AuditOf: the payload, verification and fault fields of a row are modelled elsewhere or not at all; rows are a set, so their order on the page is not part of this member.
- Erasure.StepWriter: the upsert of one row is one step, so two inserts colliding inside the database are a failed step.
- OrderedRoute.Route.Others: interference happens between the steps of the modelled thread, never inside one ExecAll or one assignment of a global.

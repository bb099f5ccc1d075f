# ORMP indexer verification

A Dafny model of the ORMP indexer: how it keeps the legacy tables in step with several reorganising
chains, how it answers filtered queries over them, how it recovers Tron history, and how its Datalens client
retries and paces requests. `dafny verify dfyconfig.toml` checks all of it.

**Tables** (`Schema`, `Assignments`, `DatabaseSpec`, `Database`). The seven legacy tables are one map from primary key
to row, next to the block anchors and the checkpoints. The six assignment columns of
`ormp_message_accepted` are kept apart from its event columns, in `Db.view`, because they are a view: the
fold of all assignments of the message in `(block_number, id)` order. `Database.Store` is the writer
and the rollback as they update the tables; each of its methods is proved against a function of `DatabaseSpec`.

**The view and histories** (`Views`, `Idempotence`, `ViewLimits`, `History`, `SignatureIds`, `SignatureRollback`). When a
write keeps the view equal to the fold (both directions, for every write), that a rollback restores it, exactly when a
second write of a batch changes nothing, and that any orderly history of commits and rollbacks ends like a plain replay
of what survives. `ViewLimits` gives concrete histories behind the conditions. Orderly means that two assignments of a
message whose order shows in its columns arrive in `(block_number, id)` order; order shows only if both can set one
role's columns, and to different values (`Views.InOrder`). Ids sort as text, so logs 9 and 10 of one transaction, or
logs of two transactions of one block, arrive in log order and may still not be orderly: such data is left to the exact
conditions on single writes and to `Views.RollbackRestoresView`.

**The indexer** (`RunnerSpec`, `RunnerSafety`, `RunnerRuns`, `RunnerAnchors`, `RunnerReach`, `RunnerProgress`,
`RunnerExample`, `OtherChains`, `Planner`, `Runner`, `Checkpoints`). One pass is a function of the tables and of a server, which is an
arbitrary function of the questions asked; the loops of `Runner.IndexerRunner` are proved against it. A world gives the
hash of the block at every height, and a hash fixes its logs. Assumed of each pass (`HonestPass`, `GoodPass`): the world
stands still during the pass and the server, where it answers, is truthful about it; the served end is not before the
served start and the logs lie in the clamped range; the logs of a chain without reorg protection name their blocks;
within this one world, events carry their chain and height and
equal keys mean equal rows; and between passes others leave the chain's rows, anchors and checkpoint alone, as
`OtherChains` shows other chains do. Nothing is assumed across worlds, nor about failures, short serves, incomplete
checks or how often the world reorganises. What is indexed is then tracked block by block together with every block
committed later, and after every pass whose check completed two equivalences hold (`WholeRunExactIff`): everything
indexed is current if and only if what is indexed below the window of that check is; and if so, the rows are exact if
and only if no block committed after a still indexed one, and rolled back since, shares a primary key with it. The
second holds in particular if no block is committed behind an incomplete check, whichever requests and transactions
fail, or if no height went away and returned. Anchors and rollback decisions need no assumption on rows or keys at all.
`RunnerExample` has a run of each kind. `RunnerReach` states which heights a check looks at and what it decides, and
`RunnerProgress` what becomes of every reply and how far a poll and a pass get, both on heights and replies alone.

**All chains together** (`Fleet`, `FleetRuns`, `Interleaving`, `FleetExample`, `TronFleet`). The chains' tasks run concurrently, so their
transactions interleave, also within a pass. `Fleet` is the shared tables after any sequence of transactions of any
chains; `FleetRuns` turns a pass into its list of transactions; `Interleaving` shows that a chain finds in the shared
tables the anchors and checkpoint it would find alone, so its passes are those it would make alone, and that in every
interleaving, after every single transaction, the rows of every chain and the six columns of every message are right.
Asked for are only the discipline of each chain (truthful servers, and no commit behind an incomplete check unless
everything indexed is still current, as it is where blocks are final) and conditions on the worlds: within a world,
events carry their chain and height, equal keys mean equal rows, and the events of one block are orderly; worlds of
different chains share no key and no message whose assignments depend on their order. A chain without reorg protection
makes no check and takes its anchors from logs, which must name their blocks; it is disciplined as long as its world
stays fixed below the heads it reads. The Tron recovery may run beside the indexer: each of its commits is one more
transaction of the schedule.

**The WHERE compiler** (`Filters`, `WhereCompiler`, `QueryBuilder`). `Filters` holds the filter trees with their
two-valued meaning, and separately a token grammar with SQL precedence (PostgreSQL manual, section 4.1.6)
and three-valued evaluation (section 9.1). `QueryBuilder.Builder` emits tokens as the source does, with a
flag saying whether an AND is due.

**Tron recovery** (`TronScan`, `TronRecovery`, `TronStorage`) and **the client** (`Client`, `Pacer`).

Findings about the code, each with a concrete lemma: assignments that arrive against the text order of their ids leave
the view wrong until a rollback touches the message; the accepted upsert keeps stale oracle columns; replaying a batch
can move the columns if it replaces an assignment by one of other parties; a message that a reorg moves to a higher block,
indexed there while a check was incomplete, is lost if its first block returns; a window that slides past a stale block
during an incomplete check leaves its rows; signature rows are deleted by the chain in their payload, so a
rollback of one chain removes rows sourced from another; a reversed serve is committed and moves the checkpoint back;
from height 10^10 on the pattern for signature ids no longer finds a row through its own anchor; and a filter with an
empty membership list compiles to a clause that is not valid SQL.

## Model

| member | source | states |
|---|---|---|
| Prelude.EqualIgnoringCaseIff | src/schema/assignments.rs:96-111 | two texts are equal ignoring ASCII case if and only if they differ, place by place, at most by the case of a letter |
| Prelude.LowerIs | src/tron_recovery/scan.rs:100 | lower-casing replaces each capital letter by its small letter and keeps every other character |
| Prelude.SaturatingBounds | src/runner.rs:479-482 | saturating sums and differences, stated by what they are compared with |
| Prelude.StrLessIff | src/database.rs:404-425 | one id sorts before another if and only if it is a proper beginning of it or smaller at their first difference |
| Schema.RowKeepsEvent | src/schema/rows.rs:18-328 | for all seven events, the row determines the event up to metadata: no table drops or merges event content |
| Schema.RowColumns | src/schema/rows.rs:18-328 | column by column and by name, what each of the seven rows takes from its event, and the text it is keyed by; a signature row takes the chain of its payload |
| Schema.WithMetaKeeps | src/tron_recovery/storage.rs:85-139 | giving an event other metadata changes nothing else of it |
| Assignments.MembershipTestsAgree | src/schema/assignments.rs:106-111 | lower-casing the candidate first makes no difference to a case-insensitive membership test |
| Assignments.TwoMatchersAgree | src/database.rs:686-728 | the CASE update with its bound parameters and early return computes the columns of the in-memory matcher, for every accepted row, assignment and configuration, cutovers and mixed-case exception included |
| Assignments.BackfillColumns | src/database.rs:686-728 | with all constants written out: the b49e oracle sets the oracle columns if and only if the row is of chain 1 to 46 from block 22474070, of chain 46 from block 6634860 or of chain 42161 from block 334644126; any other oracle if and only if it is configured, in its own spelling but for the one mixed-case message; and the relayer columns are set if and only if the relayer is configured |
| Assignments.AcceptedRecord.ApplyAssignmentToAccepted | src/schema/assignments.rs:48-74 | an assignment of another message changes nothing; one of this message leaves what the SQL statement leaves and reports the matched roles |
| Assignments.FoldIsLastMatch | src/database.rs:749-763 | applying assignments one by one is last-writer-wins in each role |
| Assignments.SortedRowsAreListed | src/database.rs:735-748 | assignments with distinct ids have a listing in strict `(block_number, id)` order |
| Database.ListingUnique | src/database.rs:735-748 | that listing is unique, so ORDER BY leaves no choice |
| Database.Store.SelectAssignments | src/database.rs:404-425 | returns exactly the stored assignments of the given messages, in that order |
| Database.Store.BackfillMessageAssignment | src/database.rs:686-728 | the accepted row of the assignment's message takes the matched slots; nothing else changes |
| Database.Store.BackfillAcceptedAssignment | src/database.rs:730-763 | the accepted row takes the sorted fold of its stored assignments on top of the columns it had |
| Database.Store.WriteLegacyEvent | src/database.rs:512-545 | upsert, then the backfill of the arrival order at hand; keys, accepted keys and column presence stay consistent |
| Database.Store.WriteEventsAndAdvanceCheckpoint | src/database.rs:292-321 | events, anchors and checkpoint in one state change |
| Database.Store.WriteEventsThenAdvance | src/database.rs:219-235 | the default path in three steps ends where the one transaction ends, provided the checkpoint row exists; otherwise everything but the checkpoint |
| Database.Store.ReadOrCreate | src/database.rs:55-87 | an existing checkpoint wins over the start block, and the row exists afterwards |
| Database.Store.DeleteSignatureSubmittionsBySourceAnchors | src/database.rs:353-380 | removes exactly the signature rows some rolled back anchor matches by height and id pattern |
| Database.Store.RecomputeAcceptedAssignments | src/database.rs:382-435 | one pass over the assignments of all given messages leaves each of them with its own sorted fold from NULLs, and every other row's columns alone |
| Database.Store.DeleteFromLegacyTables | src/database.rs:179-190 | removes, over all seven tables, exactly the rows with this chain id at or above the block |
| Database.Store.RollbackLegacyFrom | src/database.rs:156-212 | the new state is the rollback of the old: kept rows, refolded touched messages, anchors below the block, checkpoint at the block |
| Views.BestWins | src/database.rs:735-763 | the sorted fold shows the greatest matching assignment, and nothing exactly when none matches |
| Views.ViewShows | src/database.rs:735-763 | a right view shows, for each role, what the stored assignment of the message that is latest by height and then id, among those that set the role, writes; and NULLs exactly if none does |
| Views.StepEffect | src/database.rs:512-545 | what one write puts into one role's columns of any message, in both arrival orders |
| Views.AcceptedWriteKeepsViewIff | src/database.rs:590-641 | an accepted write keeps the view right if and only if it does not replace a row whose oracle columns were set by one for which no assignment sets them |
| Views.AssignedWriteKeepsViewIff | src/database.rs:643-684 | for every assignment, new, repeated or replacing another row: the view stays right if and only if, for every role it matches, the greatest matching assignment then stored writes the same columns, and the message of a replaced row still folds to what is shown in every role only that row set |
| Views.InOrderAssignmentKeepsView | src/database.rs:526-530 | an assignment that arrives in order keeps the view right, be it new or in the place of one of the same message, oracle and relayer; only the order of assignments that set one role to different values counts |
| Views.WriteKeepsViewIff | src/database.rs:512-545 | one write of any kind keeps the view right if and only if it fits the stored rows |
| Views.RollbackRestoresView | src/database.rs:382-435 | after a rollback every touched message shows exactly the fold of what remains, even if it was wrong before; untouched ones keep their columns and their fold |
| Views.RollbackIs | src/database.rs:156-212 | the rolled back tables row by row, column by column, anchor by anchor and checkpoint by checkpoint: columns are refolded exactly where an assignment of the chain at or above the block is lost |
| ViewLimits.LateArrivalBreaksView | src/database.rs:526-530 | a new assignment that sorts before the one shown, and would write something else, always breaks the view |
| ViewLimits.TextOrderOfLogs | src/datalens/query.rs:137-146 | the id of log 10 sorts before the id of log 9 of the same transaction |
| ViewLimits.OutOfOrderBreaksView | src/database.rs:526-530 | logs 9 and 10 of one transaction assign one message and arrive in log order: the view is wrong afterwards, because their ids sort as text |
| ViewLimits.StaleColumnsBreakView | src/database.rs:605-619 | a concrete history in which the accepted upsert leaves stale oracle columns across a cutover |
| ViewLimits.ReplacedAssignmentBreaksIdempotence | src/database.rs:512-545 | a concrete table state and batch, with agreeing keys, for which the second write moves the columns |
| Idempotence.FirstPassSettles | src/database.rs:512-545 | if replaced assignments name the same message, oracle and relayer, one pass leaves every slot as the last effective write of the batch, judged by the final rows, sets it |
| Idempotence.FirstPass | src/database.rs:512-545 | what one pass leaves in every slot: the last write with an effect, each judged by the rows stored at its time, or else what was there |
| Idempotence.RewriteChangesNothingIff | src/database.rs:512-545 | for every table state and every batch in which equal keys mean equal rows, a second write changes nothing if and only if, for each message the batch writes, the greatest matching assignment stored at its last write and the one stored at the end write the same, unless a later assignment of the batch sets the columns or none matches at the end |
| Idempotence.BatchIdempotent | src/database.rs:219-235 | writing a batch twice equals writing it once, derived columns included, in any order, whatever is stored, if replaced assignments name the same message, oracle and relayer |
| Idempotence.PrefixThenWhole | src/database.rs:219-235 | writing a prefix and then the whole batch equals writing the batch |
| Idempotence.CrashThenRerun | src/database.rs:219-235 | a crash at any point of the default path followed by a rerun gives the clean-run tables, anchors and checkpoint |
| History.HistoryTracksLive | src/database.rs:156-212 | after any orderly history of commits and rollbacks of any chains (equal keys mean equal rows, assignments whose order shows arrive in it), the tables hold exactly the surviving events and the right columns |
| History.HistoryEqualsReplay | src/database.rs:156-212 | such a history ends with the non-signature tables and the columns of one plain replay of the surviving events |
| History.RollbackEqualsReexecution | src/database.rs:156-212 | for an orderly history, rolling chain c back to block b equals replaying without chain c's events at b or above, signature rows aside |
| SignatureIds.PatternMatchesExactly | src/database.rs:353-380 | below 10^10 and with hex hashes, the LIKE pattern of an anchor matches an id exactly when it was built for that height and five-digit hash prefix |
| SignatureIds.LikeElements | src/database.rs:353-380 | the LIKE that is assumed, element by element: percent sign, underscore, escape and ordinary character |
| SignatureIds.LegacyIdText | src/schema/types.rs:66-82 | the text of an id: the height in at least ten digits, a dash, up to five small digits of the block hash after its 0x, a dash, the log index in at least six characters; and the metadata's own id where there is no block hash |
| SignatureIds.OwnAnchorFindsRow | src/schema/types.rs:66-82 | a row is found through its own block's anchor if and only if its height is below 10^10 |
| SignatureIds.IdNamesItsLog | src/schema/types.rs:66-82 | with hex hashes, two logs get one id if and only if they agree on height, five-digit hash prefix and log index, at any height and on any chains |
| SignatureRollback.SignatureRemovedIff | src/database.rs:353-380 | exactly which signature rows a rollback removes: by payload chain, or through an anchor of their height and hash prefix |
| SignatureRollback.SignatureRollbackComplete | src/database.rs:353-380 | with the anchor of its block present, no signature row sourced at or above the block survives, whatever its payload chain |
| SignatureRollback.RunRollsBackSignatures | src/database.rs:353-380 | in every run with a monotone finalized head, the rollback a check asks for leaves no signature row of an indexed block at or above its height, below 10^10: the anchors it needs are there |
| SignatureRollback.TallRowSurvivesRollback | src/database.rs:353-380 | at height 10^10 a signature row whose payload names another chain survives the rollback of its own block |
| SignatureRollback.PayloadChainIsNotIsolated | src/schema/rows.rs:302-327 | a row sourced from another chain is removed when its payload names the rolled back one |
| Checkpoints.InMemoryCheckpointStore.ReadBlockAnchors | src/checkpoint.rs:143-161 | exactly the stored anchors of the range, in strictly increasing height |
| Checkpoints.InMemoryCheckpointStore.UpsertBlockAnchors | src/checkpoint.rs:129-141 | anchors are replaced as the Postgres store replaces them |
| Checkpoints.InMemoryCheckpointStore.RollbackLegacyFrom | src/checkpoint.rs:163-181 | the in-memory rollback is the Postgres rollback of a store without event tables |
| Checkpoints.StoresAgree | src/checkpoint.rs:98-181 | commits and rollbacks take both stores through the same anchors and checkpoints, whatever the tables hold |
| RunnerSpec.FirstMismatch | src/runner.rs:536-546 | the first height of the window whose anchor is missing or differs, and none if there is none |
| Runner.IndexerRunner.DecodeLogs | src/runner.rs:365-382 | all events in log order, or failure at the first log that does not decode |
| RunnerProgress.DecodeAllIff | src/runner.rs:365-382 | decoding fails if and only if some log does not decode, and otherwise the events of each log stand after those of the logs before it |
| RunnerProgress.IndexedBlocksDecode | src/runner.rs:365-382 | in every run no block is indexed one of whose logs does not decode: nothing is skipped, whatever fails and is tried again |
| Runner.IndexerRunner.BlockAnchorsFromBlocks | src/runner.rs:664-695 | one anchor for every height of the range, or failure if a header is missing |
| Runner.IndexerRunner.BlockAnchorsFromLogs | src/runner.rs:639-662 | the loop computes the anchors named by the logs, which `RunnerAnchors.LogAnchorsAreFirst` describes |
| RunnerAnchors.LogAnchorsAreFirst | src/runner.rs:639-662 | they are in strictly increasing height, one for every height some log names with a hash, and each is the one its first such log names |
| Runner.IndexerRunner.BlockAnchorsForRange | src/runner.rs:569-637 | protected chains anchor every height above the finalized head, or wait, or fail |
| RunnerProgress.AnchorsForRangeIs | src/runner.rs:569-695 | chains that index finalized or durable blocks anchor what their logs name; the others anchor every served height above the finalized head with the hash and parent its last header has, wait if the header reply does not answer for all of them, and fail if one is missing |
| Runner.IndexerRunner.ProcessOneRange | src/runner.rs:316-467 | a range step commits events, anchors and checkpoint together, or changes none of them |
| RunnerProgress.RangeOutcome | src/runner.rs:316-467 | what becomes of a range for every reply: nothing served is no progress; a wrong start, a log that does not decode or an end at the largest height fails it; otherwise it is anchored and committed up to the served end, and the poll stops at a page that is incomplete or ends early |
| RunnerProgress.WholeRangeIff | src/runner.rs:316-467 | a range is committed to its end if and only if the server gives all it takes: logs that decode, headers above the finalized head on a protected chain, and the commit |
| Runner.IndexerRunner.RollbackReorgedAnchors | src/runner.rs:469-567 | the check decides as specified and rolls the store back to its first mismatch, or leaves it alone |
| Runner.IndexerRunner.PollRanges | src/runner.rs:233-252 | the poll loop ends for every server and computes the specified poll |
| Runner.IndexerRunner.RunChainOnce | src/runner.rs:188-259 | one pass over the store is the specified pass |
| Runner.IndexerRunner.RunChainLoop | src/runner.rs:133-169 | after any number of passes over the store, if the last check completed, both equivalences of the whole-run theorem hold of the stored rows, anchors and checkpoint |
| RunnerSafety.RangeExtends | src/runner.rs:316-467 | a range step, protected or not, either changes nothing or commits exactly the current world's blocks up to the served end: their rows in order, their anchors and the checkpoint |
| RunnerSafety.PollExtends | src/runner.rs:233-252 | a whole poll writes the blocks from where it starts to where it stops, in order, with short serves and failures anywhere: no gap and no overlap |
| RunnerSafety.BlocksCommitted | src/runner.rs:316-467 | committing blocks of one world on top of what is indexed leaves exactly the rows that no later block has overwritten |
| RunnerRuns.RollbackCutsMarks | src/runner.rs:556-566 | a rollback leaves the anchors of exactly the blocks below it, and the checkpoint on top of them |
| RunnerRuns.RollbackCutsRows | src/runner.rs:556-566 | a rollback leaves exactly the surviving rows of the blocks below it |
| RunnerRuns.CheckIsRightIff | src/runner.rs:469-567 | the exact reach of a completed check: what it leaves indexed is current if and only if every indexed block below its window is |
| RunnerRuns.RollbackIsMinimal | src/runner.rs:475-566 | the block rolled back to is bounded by start block, window, finalized head and checkpoint, and every earlier block of the window has an anchor with the current hash |
| RunnerReach.CheckDecides | src/runner.rs:469-546 | exactly what a check decides, on heights alone: it asks from the lowest height that is indexed, no further back than the window and above the finalized head; it fails without a reply, is undecided if the reply does not answer for every one of these heights, and otherwise returns the lowest one whose anchor the reply does not confirm, if any |
| RunnerReach.NothingToCheck | src/runner.rs:474-486 | at height 0, or where no height is in reach, the check passes without asking for headers; without a finalized head it fails |
| RunnerReach.ReachIsChecked | src/runner.rs:478-546 | every indexed height n with n + window >= next and n above the finalized head is looked at: if its block is not current, a completed check returns a height no greater than n |
| RunnerRuns.PassShape | src/runner.rs:188-259 | whatever the server answers and wherever it fails, a pass is a rollback perhaps and then the current world's blocks in order, with anchors and checkpoint to match |
| RunnerRuns.PassKeepsRows | src/runner.rs:188-259 | one pass keeps the rows exactly those that no later block has overwritten |
| RunnerRuns.RunMarks | src/runner.rs:133-169 | in every run the checkpoint stands after what is indexed and every anchor is one of its blocks, whatever the rows |
| RunnerRuns.RunRows | src/runner.rs:133-169 | in every run the rows of the chain are exactly those of its indexed blocks whose key no block committed later carries, rolled back or not |
| RunnerRuns.ExactIffNothingLost | src/runner.rs:188-259 | the rows are those of all indexed blocks if and only if no later committed block shares a primary key with one of them |
| RunnerRuns.WholeRunExactIff | src/runner.rs:188-259 | after every pass whose check completed, over any reorgs, rollbacks, short serves, incomplete checks and failures: everything indexed is current if and only if it was below the window, and then the rows are exactly those of the current blocks up to the checkpoint if and only if nothing is lost |
| RunnerRuns.WholeRunSafety | src/runner.rs:188-259 | in particular the rows, anchors and checkpoint are exact if no height went away and returned |
| RunnerRuns.CompleteChecksAreSafe | src/runner.rs:188-259 | as long as no block is committed behind an incomplete check, or everything indexed was still current, the rows are exact after every checked or settled pass, over any reorgs within the windows, rollbacks, short serves, and failures of any request or transaction; unprotected chains included |
| RunnerReach.RecentReorgsAreHealed | src/runner.rs:188-259 | as long as only blocks n with n + window >= next and above the finalized head are replaced, and no block is committed behind an incomplete check, everything indexed is current and the rows are exact after every checked pass |
| RunnerRuns.SafeRunIsCurrent | src/runner.rs:188-259 | after a pass that was checked, or whose world had settled, everything indexed is current |
| RunnerRuns.BlocksComeFromWorlds | src/runner.rs:478-486 | heights on which the worlds of all passes agree with the current one are current, so blocks that settled before the window satisfy the assumption on it |
| RunnerExample.ReorgedRunIsGood | src/runner.rs:188-259 | a run in which a reorg moves a message from block 1 to block 2 meets all assumptions with complete checks, and the message is stored where it is now and nowhere else |
| RunnerExample.FlappingRunLosesMessage | src/runner.rs:521-529 | a run with one incomplete check: block 1 goes away, its message is indexed in block 2, block 1 returns; the last check completes, everything indexed is current, and the message is gone |
| RunnerExample.BlindRunKeepsStaleRow | src/runner.rs:200-206 | a run with one incomplete check and a window of one block: the last check completes and reports nothing, but block 1 is stale and its row stays |
| RunnerAnchors.RunKeepsAnchored | src/runner.rs:585-635 | with a monotone finalized head, every indexed block above it has an anchor, in every run, whatever its rows and keys |
| RunnerAnchors.RollsBackIff | src/runner.rs:478-546 | with those anchors, a check rolls back if and only if some indexed block of its window is not current, and then to the lowest such height |
| RunnerAnchors.NoSpuriousRollback | src/runner.rs:478-546 | after any such run, a check whose window holds no changed block does not roll back, whatever the rows and keys |
| RunnerAnchors.CheckIsBlindBelowWindow | src/runner.rs:521-529 | a check decides the same whatever anchors lie below its window; `RunnerRuns.CheckIsRightIff` is the exact condition and `RunnerExample.BlindRunKeepsStaleRow` a failing run |
| RunnerAnchors.CommitMovesForwardIff | src/runner.rs:349-358 | a commit moves the checkpoint forward if and only if the served end is not before the requested start |
| RunnerAnchors.ReversedServeMovesBack | src/runner.rs:349-358 | a concrete reversed serve that is committed and moves the checkpoint from 100 to 41 |
| OtherChains.OtherCommitLeavesChain | src/database.rs:292-321 | a commit of another chain leaves this chain's rows, anchors and checkpoint, if no primary key is shared |
| OtherChains.OtherRollbackLeavesChain | src/database.rs:156-212 | a rollback of another chain leaves them, signature rows aside |
| Fleet.FleetIsOrderly | src/runner.rs:119-131 | in any sequence of transactions of any chains in which every commit is made in a world where what its chain has indexed is current, the surviving events are orderly after every transaction |
| Fleet.FleetKeepsTables | src/runner.rs:119-131 | then, after every transaction, the rows of every chain are exactly those of its indexed blocks and the six columns of every accepted row are the sorted fold |
| FleetRuns.PassIsActs | src/runner.rs:188-259 | a pass leaves what its list of transactions leaves |
| FleetRuns.RunActsFit | src/runner.rs:133-169 | the transactions of a disciplined run, protected or not, are made in worlds where everything indexed is current, and index what the run does |
| FleetRuns.RecoveryActsFit | src/tron_recovery/scan.rs:20-82 | the commits of a recovery over a fixed world continue one another from the start block and index exactly the blocks up to the last |
| Interleaving.MarksAreAlone | src/runner.rs:119-131 | in the shared tables, whatever other chains do in between, a chain finds the anchors and checkpoint it would find alone |
| Interleaving.PassReadsOwnMarks | src/runner.rs:188-259 | a pass makes the same transactions on any tables with the same anchors and checkpoint of its chain |
| Interleaving.FleetRunKeepsTables | src/runner.rs:119-131 | in every interleaving of the passes of all chains, protected or not, and of recoveries, after every single transaction: every chain's rows are exactly those of its indexed blocks, and the six columns of every accepted row are the sorted fold of all assignments stored for it |
| Interleaving.FleetRunIsExact | src/runner.rs:119-131 | in every interleaving, once a chain has made m passes: after a checked or settled one its rows are exactly those of its current world up to its checkpoint, and its next pass does to the shared tables what it does alone |
| Interleaving.RunKeepsView | src/runner.rs:188-259 | a disciplined run of one chain ends every pass with all six columns right, rollbacks included |
| TronFleet.RecoveryIsStep | src/tron_recovery/storage.rs:83-150 | beside the indexer, and with distinct assignment contents, each commit of the Tron recovery succeeds and leaves exactly what the next transaction of the schedule leaves |
| FleetExample.ReorgedRunIsDisciplined | src/runner.rs:188-259 | a run in which a reorg moves a message is disciplined, so its columns are right |
| FleetExample.ReorgedFleet | src/runner.rs:119-131 | with all other chains idle it is a fleet run, so the assumptions of the interleaving theorems can be met |
| Planner.PlanEvmLogQueries | src/planner.rs:119-168 | refuses exactly the empty or reversed arguments, and otherwise returns the planned ranges, up to the largest 64-bit height |
| Planner.PlanTiles | src/planner.rs:144-167 | the plan tiles the range without gap or overlap, every range full but the last |
| Planner.PollFollowsPlan | src/runner.rs:233-252 | for every server and target, a pass queries a prefix of the plan, and the whole plan if it goes past its target |
| RunnerProgress.PollReachesIff | src/checkpoint.rs:33-45 | a poll gets past its target if and only if every planned range is served, only the last one may be marked incomplete, and a full batch from the start of the last one is still a 64-bit height |
| RunnerProgress.PollEndsEarly | src/runner.rs:233-252 | it fails exactly where no range can be planned or the next range fails; otherwise it ends early at a range with nothing to commit or a page that ends short |
| RunnerProgress.PassReachesIff | src/runner.rs:207-252 | a pass goes to the head it read less the buffer and never beyond, and all the way if and only if the plan up to there is served |
| RunnerProgress.UnprotectedPassIgnoresHeaders | src/config.rs:249-251 | a chain that indexes finalized or durable blocks is never checked: its passes do not depend on any header, finalized head or rollback |
| RunnerProgress.ProtectedPassIsChecked | src/runner.rs:200-206 | a chain that follows safe or latest blocks commits nothing in a pass whose check failed or whose rollback did not go through; otherwise it polls on, from the height rolled back to if there is one |
| WhereCompiler.BodyParses | src/graphql/query.rs:215-406 | a group's tokens parse, under AND/OR precedence and in any parenthesised context, to the expression of its tree |
| WhereCompiler.BodyMeaning | src/graphql/types.rs:78-229 | that expression is true in three-valued logic exactly when the tree holds in two-valued logic |
| WhereCompiler.CompilationPreservesMeaning | src/graphql/query.rs:203-213 | the clause parses if and only if no membership list is empty, and then keeps a row exactly when the tree means to |
| WhereCompiler.EmptyListIsNotSql | src/graphql/query.rs:203-213 | the filter for no ids at all compiles to a clause that does not parse |
| WhereCompiler.NoFilterKeepsEveryRow | src/graphql/query.rs:203-206 | without a filter the clause parses and keeps every row |
| QueryBuilder.Builder.PushWhereGroup | src/graphql/query.rs:215-370 | appends the group's conjuncts after whatever stands in the buffer, with an AND exactly where one is due, and reports whether a condition stands |
| QueryBuilder.Builder.PushLogicalGroups | src/graphql/query.rs:372-399 | appends one parenthesis of parenthesised groups, and nothing for an empty list |
| QueryBuilder.Builder.PushWhere | src/graphql/query.rs:203-213 | the tokens left in the buffer parse exactly if no list is empty, and keep exactly the rows the filter means; without a filter they parse and keep every row |
| TronScan.SortByPosition | src/tron_recovery/scan.rs:44-50 | a sorted permutation of the reply |
| TronScan.BatchingDoesNotMatter | src/tron_recovery/scan.rs:20-82 | two complete recoveries of a range commit the same events in the same order, whatever the batch sizes and failures |
| TronScan.ValidatedReplyIsScan | src/tron_recovery/scan.rs:84-120 | a sorted reply that passes validation is the range's logs in strictly increasing (block, transaction, log) order |
| TronScan.ScanAscends | src/tron_recovery/scan.rs:44-50 | a scan ascends by height, then transaction index, then log index, all of them readable |
| TronScan.ScansConcatenate | src/tron_recovery/scan.rs:20-82 | scans of adjacent ranges join to the scan of both |
| TronScan.DecodesIff | src/tron_recovery/scan.rs:100-176 | a log gives an event if and only if it is of the right contract for its topic, its block and transaction name the same place and hashes, and the decoder makes that event of the fields listed; a message must start on chain 728126428 |
| TronScan.RecoveredIdsDiffer | src/tron_recovery/scan.rs:148-152 | the ids given to recovered logs are equal only for equal height, log index and transaction hash, ignoring case |
| TronRecovery.Scanner.FetchRange | src/tron_recovery/scan.rs:31-43 | ends for every node: each query covers half the width of the failed one before it, and it ends with the first that is served or with a failed single block, after at most about log2(batch) + 1 failures |
| TronRecovery.Scanner.DecodeRange | src/tron_recovery/scan.rs:84-181 | accepts exactly the valid logs when every lookup is answered, and returns their events in order |
| TronRecovery.Scanner.ValidLogsIff | src/tron_recovery/scan.rs:94-176 | which logs are valid: in the range, not removed, at different (height, log index) places, and each accepted with its block and transaction |
| TronRecovery.Scanner.Recover | src/tron_recovery/scan.rs:20-82 | recovery into the tables: on any error they are those of the batches committed so far, the checkpoint is the first uncommitted block and the batches hold everything before it once and in order; on success that is the whole range |
| TronStorage.RecoveryStore.PreserveOne | src/tron_recovery/storage.rs:152-182 | one event keeps stored timestamp, log index or id, or aborts on a conflict or a duplicate |
| TronStorage.RecoveryStore.Commit | src/tron_recovery/storage.rs:83-150 | the rewritten batch and the checkpoint are committed together, or the state is unchanged: on a conflict, a duplicate, or a transaction that does not go through |
| TronStorage.AbortsIff | src/tron_recovery/storage.rs:83-182 | a commit aborts, before any write, if and only if some event conflicts with a stored message or matches several stored assignments |
| TronStorage.CommitRefusedIff | src/tron_recovery/storage.rs:83-182 | exactly when a commit is refused, on stored rows alone: a message is stored under its hash with any other content, chain, height or transaction hash ignoring case; or an assignment is stored twice on chain 728126428 with its content and transaction hash ignoring case |
| TronStorage.CommitKeeps | src/tron_recovery/storage.rs:87-139 | what is written for each event: a stored message keeps timestamp and log index, a stored assignment its id, every other event is written as it is |
| TronStorage.KeptKeysAgree | src/tron_recovery/storage.rs:105-139 | reusing stored ids keeps the batch free of key clashes |
| TronStorage.KeptIsReplayable | src/tron_recovery/storage.rs:105-139 | then the rewritten batch replaces only assignments with its own content |
| TronStorage.ReplayKeepsRows | src/tron_recovery/storage.rs:83-150 | committing a committed range again changes no row and no anchor and adds no assignment, whatever its new ids replaced; and no derived column if and only if those replacements do not change what its messages show |
| TronStorage.ReplayChangesNothing | src/tron_recovery/storage.rs:83-150 | in particular nothing changes, derived columns included, if no assignment that is not stored yet carries a stored id |
| TronStorage.AcceptedMetadataSurvives | src/tron_recovery/storage.rs:87-102 | a commit never changes the timestamp or log index of a stored message |
| TronStorage.LegacyIdsAreKept | src/tron_recovery/storage.rs:103-139 | an assignment appears under a new id only if none with its content was stored |
| Client.RankOrdersServes | src/datalens/client.rs:260-264 | the rank orders pages by served end with nothing served last; only the two highest 64-bit ends tie |
| Client.AttemptEndsOnce | src/datalens/client.rs:108-132 | an attempt's number of requests is determined by the replies |
| Client.AttemptGives | src/datalens/client.rs:108-130 | each request carries the cursor the page before named; the result is the last page with the rows of all pages in request order, the failure the server gave, or a final failure for a repeated cursor |
| Client.GoesOnIff | src/datalens/types.rs:24-26 | another attempt follows exactly a page that is pending or had a provider error, or a retryable failure |
| Client.BestIsFurthest | src/datalens/client.rs:70-78 | the page kept is the first one than which none is served further |
| Client.QueryPages | src/datalens/client.rs:108-132 | follows distinct cursors, concatenates the rows of all pages in order, fails on a repeated cursor, and ends within one request per cursor plus one |
| Client.AnswerIsUnique | src/datalens/client.rs:59-106 | the replies determine the answer: no two attempt sequences the rule allows give different ones |
| Client.PostQuery | src/datalens/client.rs:59-106 | within the allowed attempts, the first page that needs no immediate retry, otherwise the earliest page of greatest rank, and an error only if no attempt gave a page |
| Pacer.RequestPacer.TakeSlot | src/datalens/client.rs:176-198 | one turn under the lock: takes the slot or says how long to sleep, without touching the pacer |
| Pacer.RequestPacer.TakeTurns | src/datalens/client.rs:171-203 | over the turns of all tasks in lock order, exactly the granted ones get a slot |
| Pacer.SlotsAreApart | src/datalens/client.rs:171-203 | for every interleaving on a monotone clock, granted slots are at least the interval apart |
| Pacer.WindowHolds | src/datalens/client.rs:171-203 | a window of length T holds at most T / interval + 1 slots |
| Pacer.DelayIsEnough | src/datalens/client.rs:188-202 | once a refused task's delay is over, a slot has been granted to it or to another |
| Pacer.DelayIsLeast | src/datalens/client.rs:188-202 | before that delay is over every turn is refused |

## Left out

- HTTP, JSON and header handling, sqlx, connection pools, the recovery advisory lock, metrics, logging, rates, backoff times, configuration, CLI and the GraphQL root.
- The ABI decoder: a decoder is any function from a log to events or failure.
- ORDER BY and paging of the GraphQL queries, and the list of filter fields: a filter atom is a column with an operator and operands, and how two values compare is left open.
- Text ids are ordered by code point; the database's collation is not modelled.
- Hexadecimal quantities of Tron logs: parsing one is an optional number.
- The check for a preceding message before recovery (src/tron_recovery/storage.rs:63-81) and the dry-run writer.
- Block anchors carry no finality mode; no code path modelled here reads it back.
- The dataset of a chain and its contract and topic lists, except that the planner refuses empty ones.
- `wait_for_request_slot` returns at once for a zero interval; the pacer model then grants every turn, which no rate bound is stated for.
- Real clocks and sleeping: the pacer sees the clock as two readings per turn, and a run is the order in which the lock is taken.
- Runner.IndexerRunner.RunChainLoop: one chain's passes without other writers in between; `RunnerRuns.WholeRunExactIff` allows them. The loop stops after the given passes instead of running for ever.
- RunnerRuns.WholeRunExactIff: excludes the signature table, whose rows carry the payload's chain; `SignatureRollback` says which of them a rollback removes. Other chains act between passes here; within passes they do in `Interleaving`.
- Interleaving.FleetRunKeepsTables: the tables start empty, so rows left by earlier software, whose ids and metadata the recovery keeps, are not part of it; `TronStorage` has the results about them. A chain that commits behind an incomplete check in a world that has not settled is left to `RunnerRuns.WholeRunExactIff`.
- RunnerAnchors.NoSpuriousRollback: also asks that a header list which claims to cover the window names every height in it; the code treats a missing header as a mismatch.
- History.RollbackEqualsReexecution: excludes the signature table, and histories in which two assignments that set one role to different values arrive against the text order of their ids; there the view is wrong (`ViewLimits.LateArrivalBreaksView`).
- Idempotence.BatchIdempotent: one direction, with a condition on the replaced assignments alone; `Idempotence.RewriteChangesNothingIff` is exact.
- TronStorage.ReplayKeepsRows: asks that equal keys in the batch mean equal rows and that no assignment not stored yet carries the id another assignment of the batch is stored under; whether rows change otherwise depends on the order of the batch.
- TronRecovery.Scanner.Recover: recovery without a store (a dry run) is not modelled.
- Client.QueryPages: asks that the server names cursors from some finite set; with endless fresh cursors the source's loop does not end.
- Client.PostQuery: asks the same.
- Text is a sequence of characters, so a block hash with characters of several bytes, which the source would cut by bytes, is not modelled.
- SignatureIds.LikeElements: a pattern that ends in a lone escape character, which PostgreSQL rejects, matches that character here; no pattern of the code ends so.

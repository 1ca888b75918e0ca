# A model of the sync engine and the storage formats

This project models the logic of a cloud synchronisation program and proves what that logic guarantees. `dafny verify dfyconfig.toml` checks all of it.

**The sync engine** (`SyncTypes`, `RenameDetector`, `Optimality`, `FileNames`, `Planner`, `Ownership`, `Moves`, `PlanContents`, `Executor`, `Counters`, `Orchestrator`, `Commutation`, `Followup`, `Convergence`, `Merge`, `Agreement`, `Failures`, `StaleEntries`, `AlteredUploads`, `VanishedTrees`, `ModeSafety`, `Filter`, `FilterMeaning`, `Scanner`). A cycle scans a local and a remote tree, compares both with a catalogue path by path, pairs deletions with additions that look like the same file, carries out the plan, and folds the plan back into the catalogue. Trees are maps from paths to file records. The planner walks a hash set, so theorems hold for every order in which the path set can be walked. How each call to the backend ends, what a failed transfer leaves behind, what the other side lists after a transfer, and the clock are parameters.

**The encrypted vault format** (`Vault`, `VaultProofs`, `VaultTruncation`, `VaultLayout`): a header and a stream of sealed chunks whose nonces count up and whose last chunk is flagged. Sealing is a parameter. Authenticity assumes that nothing opens under the file key but what the writer sealed; the round trip assumes that what was sealed opens again and is longer by the tag (RFC 5116, section 2). The lengths of the reads are arbitrary.

**MEGA transfers** (`Mega`, `MegaTransfer`, `MegaProofs`, `MegaAttributes`, `MegaBlocks`): a counter-mode stream over growing chunks, a CBC-MAC of chunk MACs, and a file key merged with its MAC and wrapped block by block (sections 6.1, 6.2 and 6.5 of NIST SP 800-38A). The block cipher is an arbitrary function with an inverse.

**Catalogue persistence** (`Fnv`, `StateStore`, `CatalogueFiles`): a checksummed frame, a backup copy and an atomic rename, each of which may be the last thing that happens before a crash. The encoding is an arbitrary pair of functions of which the decoder undoes the encoder.

**Resilience layers** (`CircuitBreaker`, `Interleaved`, `Retry`): a breaker shared by calls in flight, and retrying layered outside it on one timeline.

**Smaller parts**: a nested block hash (`BlockHash`), path normalisation (`NormalizedPath`) and percent-encoding (`UrlEncoding`), over `Segments`. `Prelude` and `Bytes` hold what the others share.

Code that works by updating state is modelled by classes and by methods with loops, each proved against a specification function; the theorems are about those functions and hold for the methods through their postconditions.

## Findings

Where the code does less than one might expect, the model follows the code. What that costs, or the exact condition under which the expected property holds, is proved.

- The catalogue is updated from the plan even if actions failed (`crates/cloud_sync_daemon/src/engine/orchestrator.rs:205-271`). In two-way mode a new file whose transfer failed and left nothing is removed by the next plan, and only then: `Failures.FailedTransferRemovesFile`, with the smallest cases in `Failures.OneFailedUpload` and `Failures.OneFailedDownload`. A failed or torn upload makes the next plan fetch what is on the remote side over the local file, and a failed remote deletion brings the file back: `Failures.UploadOverwritten`, `Failures.FailedDeletionComesBack`. `Followup.SecondDecision` gives the next decision for every action and outcome, and `Convergence.ConvergenceWithFailures` says exactly for which outcomes a cycle settles. `Merge` and `Agreement` are about cycles in which every action succeeded; commutation and mode safety hold for all outcomes.
- A server-side move is never catalogued (`crates/cloud_sync_daemon/src/engine/orchestrator.rs:267`). At its target the next cycle reports a conflict (`Convergence.SecondPlan`); at its source the old entry stays, and a file that appears there later, on either side, is removed by the next two-way plan (`StaleEntries.MoveLeavesTrap`).
- Nothing drops the catalogue entry of a path that neither side has (`crates/cloud_sync_daemon/src/engine/planner.rs:188`): `StaleEntries.StaleEntryStays`. A file on one side only is removed by a two-way plan exactly if the catalogue knows its path: `StaleEntries.FileOnOneSide`, `StaleEntries.NewFileAtOldPath`.
- For the same reason a removal on one side removes the file on the other even if it was edited there (`crates/cloud_sync_daemon/src/engine/planner.rs:131-154`).
- A move can put a remote file beside a local file of another size, because the sizes compared are those of the local file and of the catalogue: `Merge.CycleMovesFile`.
- Conflict actions are counted but not carried out (`crates/cloud_sync_daemon/src/engine/executor.rs:236-263`): both versions stay and the conflict is planned again, whatever the outcomes (`Convergence.OwnedPathRests`).
- The catalogue entry of a transfer records the local modification time for both sides (`crates/cloud_sync_daemon/src/engine/orchestrator.rs:230-265`), so a two-way mode settles only if transfers preserve the time; `Convergence.Convergence` is an equivalence. In a one-way mode the edit of a file whose remote copy has another size or time is not sent but becomes a conflict that recurs as long as nobody touches the remote side: `AlteredUploads.EditAfterUpload`, `AlteredUploads.AlteredUploadSticks`, a case in `AlteredUploads.OneEditedUpload`.
- Greedy rename detection finds as many moves as possible in the plans of this engine, because a local scan computes no checksums: `Moves.PlanHasMostMoves`, `Optimality.OptimalWithoutChecksums`. For callers of the detector whose additions carry checksums `Optimality.GreedyIsOptimal` says exactly when this holds; in general at least half of the possible moves are found and no more can be promised: `RenameDetector.MatchingQuality`, `RenameDetector.HalfIsTight`.
- The documentation of the planner promises a deterministic plan (`crates/cloud_sync_daemon/src/engine/planner.rs:4`), but the loop walks a hash set. Which of two files that look alike is moved and which is deleted, and with it the remote content, depends on the walk: `Moves.TwoWalks`. `Moves.WalkMatters` says exactly when the walk does not matter; the number of moves never depends on it (`Moves.SameNumberOfMoves`).
- A remote directory that is reported as not found scans as an empty one (`crates/cloud_sync_daemon/src/engine/scanner.rs:76`), and so does a watched directory that does not exist (`crates/cloud_sync_daemon/src/engine/scanner.rs:90-92`); the next plan deletes the other side of every catalogued file below it: `VanishedTrees.MissingListing`, `VanishedTrees.MissingWatchDirectory`.
- A half-open breaker admits every call until one reports, so that overlapping calls to a backend that is down can exceed the failure threshold, by the number of calls in flight less one at most: `Interleaved.HalfOpenAdmitsAll`, `Interleaved.InterleavedBound`.
- A vault file that is cut off less than four bytes behind the header or a frame is read without an error, any other cut is reported (`crates/cloud_sync_lib/src/providers/encryption.rs:212-214`): `VaultTruncation.TruncationExact`.
- A vault file written with short reads can be listed with a wrong size: `VaultProofs.ListedSizeIsLength` says exactly when, `VaultTruncation.ShortReadsMislead` is a case.
- A catalogue file whose own name ends in ".bak" is copied onto itself and can be lost: `StateStore.CrashSafetyExact`.
- If the ceiling of a random delay is 2^64 - 1 milliseconds, `rand % (ceiling + 1)` overflows (`crates/cloud_sync_lib/src/layers/retry.rs:93`): `Retry.PanicsExactly`, for which configurations in `Retry.OverflowPossible`, a case in `Retry.OverflowingInput`.
- Joining paths checks nothing, so an unsafe child makes an unsafe path: `NormalizedPath.JoinSafety`, `NormalizedPath.UnsafeJoin`.
- The documentation calls the catalogue checksum CRC32; the code computes 64-bit FNV-1a (`crates/cloud_sync_core/src/state.rs:48-56`).

## Model

| member | source | states |
|---|---|---|
| SyncTypes.ClampedSnoc | crates/cloud_sync_daemon/src/engine/plan.rs:79-93 | adding one action with saturating 64-bit arithmetic gives the true sum clamped once, so totals that saturated on the way are still right |
| SyncTypes.SyncPlan.AddAction | crates/cloud_sync_daemon/src/engine/plan.rs:79-93 | the action is appended last, and the three totals are the clamped sums over all actions |
| RenameDetector.FirstMatch | crates/cloud_sync_daemon/src/engine/rename_detector.rs:34-52 | the first addition that passes the match test, or none |
| RenameDetector.DetectMoves | crates/cloud_sync_daemon/src/engine/rename_detector.rs:22-67 | the nested loops compute the greedy pairing: moves and both lists of left-overs |
| RenameDetector.Conserved | crates/cloud_sync_daemon/src/engine/rename_detector.rs:54-63 | counted by any property, deletions are exactly those moved plus those left over, and so are additions |
| RenameDetector.MatchingQuality | crates/cloud_sync_daemon/src/engine/rename_detector.rs:22-67 | the moves are a one-to-one pairing of candidates that pass the match test; both lists are split exactly; no matchable pair is left behind; any matching whatever has at most twice as many pairs |
| RenameDetector.OneMoveMissed | crates/cloud_sync_daemon/src/engine/rename_detector.rs:31-64 | if the first deletion takes the only addition the second could use, one move is found |
| RenameDetector.HalfIsTight | crates/cloud_sync_daemon/src/engine/rename_detector.rs:31-64 | lists with checksums on which exactly half of the possible moves are found: for such lists the factor two cannot be improved |
| FileNames.NamedFile | crates/cloud_sync_daemon/src/engine/rename_detector.rs:43-45 | a file is named by its whole last component, for every folder and every name |
| FileNames.TrailingParts | crates/cloud_sync_daemon/src/engine/rename_detector.rs:43-45 | slashes and dots at the end do not count, and ".." names nothing |
| FileNames.MatchesByName | crates/cloud_sync_daemon/src/engine/rename_detector.rs:35-48 | without a checksum on one side two files match exactly if they have one positive size and the same text after the last slash |
| FileNames.OneCandidateEach | crates/cloud_sync_daemon/src/engine/rename_detector.rs:31-64 | one file gone and one new, of one size: moved if the whole names are equal, left over otherwise |
| FileNames.MoveKeepsName | crates/cloud_sync_daemon/src/engine/planner.rs:193-205 | a move planned without local checksums keeps the name of the file |
| Optimality.OptimalWithoutChecksums | crates/cloud_sync_daemon/src/engine/rename_detector.rs:31-64 | additions without checksums, which is all a local scan yields, are paired with as many deletions as any one-to-one pairing pairs |
| Optimality.GreedyIsOptimal | crates/cloud_sync_daemon/src/engine/rename_detector.rs:31-64 | as many moves as possible are found for every list of deletions and every order of both lists if and only if no two additions of one size are confusable and yet differ in checksum or file name |
| Moves.PlanHasMostMoves | crates/cloud_sync_daemon/src/engine/planner.rs:192-205 | without local checksums the plan of any walk holds as many moves as any one-to-one pairing of disappeared and new paths that meets the match test |
| Moves.SameNumberOfMoves | crates/cloud_sync_daemon/src/engine/planner.rs:192-205 | without local checksums the plans of all walks hold equally many moves |
| Moves.MovesExactly | crates/cloud_sync_daemon/src/engine/planner.rs:192-205 | a plan moves a file exactly if the backend can and some disappeared path matches some new one |
| Moves.WalkMatters | crates/cloud_sync_daemon/src/engine/planner.rs:42-241 | the plans of all walks are permutations of each other if and only if the backend cannot move files or no candidate matches two others |
| Moves.TwoWalks | crates/cloud_sync_daemon/src/engine/planner.rs:42-241 | an input with two plans: of two files that disappeared, which one is moved and which one is deleted depends on the walk alone |
| Planner.AddLastPhase | crates/cloud_sync_daemon/src/engine/planner.rs:192-241 | after rename detection, or without it, the plan is extended by the moves, then the remaining remote deletions, then the remaining uploads |
| Prelude.Walk | crates/cloud_sync_daemon/src/engine/planner.rs:33-42 | a set of paths, or the entries of a directory, is met once each, in some order |
| Planner.Plan | crates/cloud_sync_daemon/src/engine/planner.rs:19-245 | for some order of the path set, the plan is the direct actions of the three-way comparison in that order, followed by the move phase; totals are right |
| PlanContents.PlannedRemovals | crates/cloud_sync_daemon/src/engine/planner.rs:130-154 | OneWayNoDeletions removes nothing; OneWay removes exactly what is gone locally, there remotely and catalogued; TwoWay exactly what is catalogued and on one side only |
| PlanContents.PlannedDownloads | crates/cloud_sync_daemon/src/engine/planner.rs:97-128 | downloads happen in TwoWay only: exactly what is new remotely, and what differs from the catalogue there and not here in size, time or known checksum |
| PlanContents.PlannedDeliveries | crates/cloud_sync_daemon/src/engine/planner.rs:91-96 | what is uploaded or moved to its place: exactly what is new locally, what differs from the catalogue here and not there, and, one way, what is gone remotely |
| PlanContents.PlannedConflicts | crates/cloud_sync_daemon/src/engine/planner.rs:61-90 | where both sides hold a version of their own, a conflict exactly if they are not known to be equal by checksum or by being empty, and a recorded state otherwise |
| PlanContents.PlanDescribes | crates/cloud_sync_daemon/src/engine/planner.rs:47-241 | every action carries the size, times, checksum and permissions of the files it is about, and every conflict what its policy asks for |
| Ownership.DecisionAbout | crates/cloud_sync_daemon/src/engine/planner.rs:47-189 | what is decided about a path names that path only |
| Ownership.LastPhaseOwners | crates/cloud_sync_daemon/src/engine/planner.rs:192-241 | the move phase claims each path as often as the candidate lists name it: a move claims one deletion and one addition |
| Ownership.PlanOwners | crates/cloud_sync_daemon/src/engine/planner.rs:42-241 | a path is claimed by exactly one action if the comparison found something to do, and by none otherwise |
| Ownership.EachPathHasOneOwner | crates/cloud_sync_daemon/src/engine/planner.rs:42-241 | the actions of a plan claim pairwise disjoint paths, a move claims two different ones, and a path is claimed exactly if something was to be done there |
| Ownership.PlanServes | crates/cloud_sync_daemon/src/engine/planner.rs:42-241 | every path with something to do has an action in the plan that carries out what was decided, possibly as one end of a move |
| Ownership.MoveJoins | crates/cloud_sync_daemon/src/engine/planner.rs:193-205 | a planned move leads from a path removed locally, with the size the catalogue gives, to a path new locally of that size, greater than zero, on a backend that can move |
| Ownership.OwnerRealises | crates/cloud_sync_daemon/src/engine/planner.rs:42-241 | the action that claims a path carries out what was decided about it |
| Ownership.RemovalIsDecided | crates/cloud_sync_daemon/src/engine/planner.rs:130-154 | a plan deletes a path, or moves its remote file away, exactly if the comparison of the three trees decided so |
| Ownership.LeftoversDoNotMatch | crates/cloud_sync_daemon/src/engine/planner.rs:193-223 | no planned remote deletion matches a planned upload of a new file on a backend that can move |
| Executor.Replica.Perform | crates/cloud_sync_daemon/src/engine/executor.rs:45-275 | the effect of each action on both trees, on success and on failure, and whether it is counted as executed |
| Executor.CopyAndMove | crates/cloud_sync_daemon/src/engine/executor.rs:155-197 | a file copied on the server stays where it was, a moved one does not |
| Executor.Replica.Execute | crates/cloud_sync_daemon/src/engine/executor.rs:25-284 | a run has the effect of its steps in order and the right counters; a dry run changes nothing; executed and failed actions add up to the plan |
| Counters.PlanTally | crates/cloud_sync_daemon/src/engine/executor.rs:31-34 | after a plan, failed actions are exactly the calls to the backend that failed, all others count as executed, and the byte counters hold the sizes of the successful transfers modulo 2^64 |
| Counters.TotalsAnnounced | crates/cloud_sync_daemon/src/engine/plan.rs:79-93 | if every action succeeds, the bytes sent and fetched are the totals of the plan before clamping |
| Orchestrator.UpdateCatalogue | crates/cloud_sync_daemon/src/engine/orchestrator.rs:211-269 | the loop folds the plan into the catalogue, failed actions included, moves and conflicts excluded |
| Orchestrator.SyncBidirectional | crates/cloud_sync_daemon/src/engine/orchestrator.rs:148-275 | one call is one cycle for some walk of the paths, planned from one load of the catalogue and folded into another; a failing scan or a dry run changes nothing; a failed load counts as empty; a failed save leaves the stored catalogue as it was |
| Commutation.ExecAt | crates/cloud_sync_daemon/src/engine/executor.rs:38-276 | a step that shares its paths with no other step has the effect it would have had alone |
| Commutation.ExecPermuted | crates/cloud_sync_daemon/src/engine/executor.rs:38-276 | steps on different paths can be performed in any order, whichever fail |
| Commutation.RecordPermuted | crates/cloud_sync_daemon/src/engine/orchestrator.rs:211-269 | catalogue entries of steps on different paths can be written in any order |
| Commutation.AnyOrderGivesTheSameResult | crates/cloud_sync_daemon/src/engine/executor.rs:38-276 | any permutation of a plan, with any outcomes, gives the same local tree, remote tree and catalogue |
| Followup.UntouchedPath | crates/cloud_sync_daemon/src/engine/orchestrator.rs:188-270 | a cycle leaves alone, in both trees and in whatever catalogue it is folded into, every path it had nothing to do about |
| Followup.OwnedPath | crates/cloud_sync_daemon/src/engine/orchestrator.rs:188-270 | whatever the outcomes, a path is afterwards as its own action with its own outcome would have left it alone, in both trees and in the catalogue |
| Followup.OwnerFits | crates/cloud_sync_daemon/src/engine/planner.rs:47-241 | why an action was planned: what the planner saw at the path |
| Followup.SecondDecision | crates/cloud_sync_daemon/src/engine/orchestrator.rs:205-270 | whatever the outcomes, what the next plan decides about a path, from what the planner saw there and the outcome of the one action that owned it |
| Convergence.OwnedPathRests | crates/cloud_sync_daemon/src/engine/orchestrator.rs:205-270 | a conflict is decided again; any other action is followed by nothing if it came to rest, and by something at its witness path if not |
| Convergence.ConvergenceWithFailures | crates/cloud_sync_daemon/src/engine/orchestrator.rs:205-270 | for every mode, policy and all outcomes: planning again gives exactly the conflicts of the first plan if and only if every other action came to rest, which is read off the first trees and its outcome |
| Convergence.SecondPlan | crates/cloud_sync_daemon/src/engine/planner.rs:42-241 | the next plan holds exactly the conflicts of this one and one new conflict at the target of each server-side move |
| Convergence.Convergence | crates/cloud_sync_daemon/src/engine/planner.rs:42-241 | for every mode and policy: planning again after a successful cycle gives exactly the conflicts of the first plan, each as often as there, if and only if the three trees offered nothing to move and, in two-way mode, every file they ask to be sent or fetched kept size and time |
| Merge.CycleMergesEveryPath | crates/cloud_sync_daemon/src/engine/orchestrator.rs:188-270 | scan, plan, execution and catalogue update together are a three-way merge of each path on its own, against an independent definition of that merge |
| Merge.CycleMergesPath | crates/cloud_sync_daemon/src/engine/orchestrator.rs:188-270 | the same for each path whose own action succeeded and is no move, however the other actions went |
| Merge.CycleMovesFile | crates/cloud_sync_daemon/src/engine/orchestrator.rs:188-270 | a server-side move takes the remote file to its new path and the catalogue keeps the old path and does not learn the new one; the sizes at the new path agree exactly if the remote file still had the catalogued size |
| Merge.OneWayMirrors | crates/cloud_sync_daemon/src/engine/planner.rs:97-154 | in one-way modes every local file is remote afterwards, and a path that is not local survives remotely exactly if it is unknown to the catalogue or deletions are off; the remote content is the local file as sent if it was missing there or changed here only, otherwise what was there before, and at a move target the moved file |
| Agreement.SamePaths | crates/cloud_sync_daemon/src/engine/planner.rs:47-190 | after a successful two-way cycle both sides hold the same paths, conflicts and moves included |
| Agreement.TwoWayAgreement | crates/cloud_sync_daemon/src/engine/planner.rs:47-190 | if transfers keep sizes, both sides hold a path with equal size and it is catalogued, except exactly at move targets and at conflicts that did not agree before |
| Agreement.AgreementByOutcome | crates/cloud_sync_daemon/src/engine/orchestrator.rs:205-270 | in every mode and whatever the outcomes, the two sides agree at a path exactly if its own action, with its own outcome, brought it about, or if they did before and nothing was done |
| AlteredUploads.EditAfterUpload | crates/cloud_sync_daemon/src/engine/orchestrator.rs:225-244 | the edit of an uploaded file is sent by the next plan, in every mode, if and only if the remote copy has the size and time that were sent; otherwise it becomes a conflict unless both are empty; without a remote copy it is sent in one-way modes only |
| AlteredUploads.AlteredUploadSticks | crates/cloud_sync_daemon/src/engine/orchestrator.rs:225-244 | in one-way modes a nonempty remote copy with another size or time than was sent stays as it is over any run without remote edits, and every plan reports the same conflict or does nothing about the path |
| AlteredUploads.OneEditedUpload | crates/cloud_sync_daemon/src/engine/orchestrator.rs:225-244 | the smallest case: a backend that stamps files with a later time, one upload, one edit, and a conflict instead of a second upload |
| Failures.FailedTransferRemovesFile | crates/cloud_sync_daemon/src/engine/orchestrator.rs:205-271 | in two-way mode a file on one side only that the catalogue does not know is removed by the next plan exactly if its transfer failed and left nothing |
| Failures.RemovedIsGone | crates/cloud_sync_daemon/src/engine/executor.rs:199-234 | once a cycle whose plan removes a path has succeeded, neither side has anything there |
| Failures.OneFailedUpload | crates/cloud_sync_daemon/src/engine/orchestrator.rs:225-244 | the smallest case: one new local file, its upload fails, and the next plan is to delete it |
| Failures.OneFailedDownload | crates/cloud_sync_daemon/src/engine/orchestrator.rs:245-266 | the smallest case the other way: one new remote file, its download fails, and the next plan is to delete it |
| Failures.UploadOverwritten | crates/cloud_sync_daemon/src/engine/orchestrator.rs:225-244 | in two-way mode the next plan overwrites an uploaded local file exactly if what is on the remote side then, torn, older or altered, differs in size or time |
| Failures.FailedDeletionComesBack | crates/cloud_sync_daemon/src/engine/orchestrator.rs:222-224 | in two-way mode the next plan fetches a remotely deleted file again exactly if the deletion failed |
| Failures.OneTornUpload | crates/cloud_sync_daemon/src/engine/orchestrator.rs:225-244 | the smallest torn upload: the next plan fetches the torn file over the intact one |
| Failures.OneFailedDeletion | crates/cloud_sync_daemon/src/engine/orchestrator.rs:222-224 | the smallest failed remote deletion: the next plan fetches the file that was deleted locally |
| StaleEntries.FileOnOneSide | crates/cloud_sync_daemon/src/engine/planner.rs:131-154 | in two-way mode a file on one side only is removed there exactly if the catalogue knows its path, edited or not |
| StaleEntries.StaleEntryStays | crates/cloud_sync_daemon/src/engine/planner.rs:188 | over any run with failures in which nobody creates the path, a catalogue entry of a path that neither side has stays as it is |
| StaleEntries.NewFileAtOldPath | crates/cloud_sync_daemon/src/engine/planner.rs:188 | a file that appears after such a run at a path neither side had is removed by the next two-way plan exactly if the catalogue knew the path at its start |
| StaleEntries.MoveLeavesTrap | crates/cloud_sync_daemon/src/engine/orchestrator.rs:267 | after a server-side move, a file that appears at the old path is removed by the next two-way plan, however many cycles later |
| VanishedTrees.NothingBelow | crates/cloud_sync_daemon/src/engine/scanner.rs:76 | the scan returns nothing below a directory whose listing fails |
| VanishedTrees.MissingListing | crates/cloud_sync_daemon/src/engine/scanner.rs:76 | in two-way mode a local file below a directory that the backend reports as not found, be it the root, is deleted exactly if the catalogue knows it |
| VanishedTrees.ScanAndPlan | crates/cloud_sync_daemon/src/engine/orchestrator.rs:89-112 | the same for the scan and the planner run one after the other |
| VanishedTrees.MissingWatchDirectory | crates/cloud_sync_daemon/src/engine/scanner.rs:90-92 | a watched directory that does not exist scans as empty, and every mode with deletions deletes the remote files of exactly the catalogued paths |
| ModeSafety.PlannedKinds | crates/cloud_sync_daemon/src/engine/planner.rs:97-154 | which kinds of action a mode, or an empty catalogue, rules out |
| ModeSafety.OneWayNeverAltersLocal | crates/cloud_sync_daemon/src/engine/planner.rs:97-154 | over any run with edits, failures, failed saves and lost catalogues, a one-way mode leaves the local tree as the last local edit made it |
| ModeSafety.NoDeletionsNeverRemovesRemote | crates/cloud_sync_daemon/src/engine/planner.rs:130-139 | over any such run the mode without deletions removes no remote path |
| ModeSafety.EmptyCatalogueDestroysNothing | crates/cloud_sync_daemon/src/engine/state_repository.rs:14-16 | a plan from the empty catalogue a failed load falls back to holds no deletion or move, and carrying it out changes no existing file on either side, even if transfers fail half way |
| ModeSafety.FailedLoadDestroysNothing | crates/cloud_sync_daemon/src/engine/state_repository.rs:14-16 | a cycle whose first load of the catalogue fails changes no existing file on either side |
| ModeSafety.LuckyCycle | crates/cloud_sync_daemon/src/engine/orchestrator.rs:188-270 | with nothing failing around it a cycle is planned from the stored catalogue, folded into it and saved |
| Filter.UnsafeBelow | crates/cloud_sync_daemon/src/engine/filter.rs:45-47 | everything below an unsafe directory is unsafe |
| Filter.SelectedAbove | crates/cloud_sync_daemon/src/engine/filter.rs:64-83 | every directory on the way to a selected path is selected |
| FilterMeaning.SafeBySegment | crates/cloud_sync_daemon/src/engine/filter.rs:45-47 | a path is safe exactly if it does not start at the root, no segment holds two dots in a row and none but the last ends in a dot |
| FilterMeaning.ParentIsUnsafe | crates/cloud_sync_daemon/src/engine/filter.rs:45-47 | the parent directory as a segment makes a path unsafe wherever it stands |
| FilterMeaning.SelectedBySegment | crates/cloud_sync_daemon/src/engine/filter.rs:64-83 | with a selection exactly the paths on one branch with a selected prefix are selected, segment by segment; without one every path |
| FilterMeaning.StateFileNames | crates/cloud_sync_daemon/src/engine/filter.rs:50-56 | the state files are three names and everything of the form .sync_state_*.json or .sync_state_*.bin |
| FilterMeaning.SizeWindow | crates/cloud_sync_daemon/src/engine/filter.rs:30-42 | a size is allowed from the smallest to the largest, both included; a bound that is not given does not count |
| Scanner.ScanDirectory | crates/cloud_sync_daemon/src/engine/scanner.rs:33-74 | one listing: what is recorded and what is queued, entry by entry |
| Scanner.NothingMissed | crates/cloud_sync_daemon/src/engine/scanner.rs:30-79 | once every reached directory has been listed, every visible entry has been found |
| Scanner.ScanRemote | crates/cloud_sync_daemon/src/engine/scanner.rs:23-82 | the work list empties on every finite store; the scan fails exactly if a directory it reaches is broken (not merely gone), and otherwise returns exactly the visible entries |
| Scanner.PruningIsComplete | crates/cloud_sync_daemon/src/engine/scanner.rs:30-79 | on a tree an entry is returned exactly if it is safe, selected, of an allowed size, and nothing on the way to it is ignored or a state file |
| FilterMeaning.ScannedAs | crates/cloud_sync_daemon/src/engine/scanner.rs:47-72 | files are returned as they were listed, directories without size and checksum |
| Vault.Upload | crates/cloud_sync_lib/src/providers/encryption.rs:99-147 | the loop writes the header and one sealed frame per read, the last one flagged |
| Vault.DecodeStream | crates/cloud_sync_lib/src/providers/encryption.rs:210-254 | the reading loop writes what the frame-by-frame decoding gives and stops for the same reason |
| Vault.DownloadFile | crates/cloud_sync_lib/src/providers/encryption.rs:183-262 | which files are streamed, refused for their version, or left to the legacy decoder |
| VaultLayout.HeaderLayout | crates/cloud_sync_lib/src/providers/encryption.rs:99-103 | the first 29 bytes of an uploaded file are "CSYC", 1, the salt and the base of the nonces |
| VaultLayout.FrameLayout | crates/cloud_sync_lib/src/providers/encryption.rs:115-141 | the k-th frame is the length in four big-endian bytes, the flag, and the piece sealed with base and the four bytes of k as nonce, the four bytes of k and the flag bound to it |
| VaultLayout.Dispatch | crates/cloud_sync_lib/src/providers/encryption.rs:183-195 | what becomes of a file is told by its length, its first four bytes and its version byte |
| VaultLayout.ForgeryIsReported | crates/cloud_sync_lib/src/providers/encryption.rs:239-245 | a chunk that does not open ends the download with an error, the pieces before it having been written |
| VaultLayout.ShortFilesListedEmpty | crates/cloud_sync_lib/src/providers/encryption.rs:308-315 | files shorter than 29 bytes are listed as empty |
| VaultProofs.PiecesChunk | crates/cloud_sync_lib/src/providers/encryption.rs:110-147 | however short the reads, the pieces concatenate to the file, are at most 64 KiB long, and none is empty unless the file is |
| VaultProofs.NoncesDistinct | crates/cloud_sync_lib/src/providers/encryption.rs:115-119 | no two chunks of a file share a nonce if and only if there are at most 2^32 of them |
| VaultProofs.AcceptedChunk | crates/cloud_sync_lib/src/providers/encryption.rs:225-245 | a chunk accepted as the i-th is the i-th piece under the flag it was sealed with |
| VaultProofs.VaultAuthenticity | crates/cloud_sync_lib/src/providers/encryption.rs:210-254 | with ideal encryption and at most 2^32 chunks, any bytes after the uploaded header make the reader write some first pieces, whole and in order; all of them exactly if it stops on the last flag |
| VaultProofs.TruncatedAtFrame | crates/cloud_sync_lib/src/providers/encryption.rs:212-214 | cut off after k whole frames, a file is read without error as its first k pieces: success alone does not mean the file is whole |
| VaultTruncation.TruncationExact | crates/cloud_sync_lib/src/providers/encryption.rs:183-257 | a proper prefix of an uploaded file is read without error if and only if it ends less than four bytes behind the header or a frame, and then exactly the pieces before that point are written; any other cut behind the header is reported |
| VaultTruncation.FileAuthenticity | crates/cloud_sync_lib/src/providers/encryption.rs:210-254 | whatever follows the header of an uploaded file, what is written is a prefix of it, and the whole of a file that is not empty exactly if the reader stops on the last flag |
| VaultTruncation.ShortReadsMislead | crates/cloud_sync_lib/src/providers/encryption.rs:302-320 | a file of two bytes read byte by byte is listed with a size of 23 |
| VaultProofs.VaultRoundTrip | crates/cloud_sync_lib/src/providers/encryption.rs:183-257 | downloading what was uploaded gives the file, stopping on the last flag, for every pattern of short reads |
| VaultProofs.ListedSizeIsLength | crates/cloud_sync_lib/src/providers/encryption.rs:302-320 | the listed size is the length of the file if and only if the file was not cut into more pieces than the formula expects |
| VaultProofs.ListedSizeOfFullReads | crates/cloud_sync_lib/src/providers/encryption.rs:302-320 | with full reads the listed size is the length of the file, 0 and exact multiples of 65536 included |
| Mega.Ctr.ApplyKeystream | crates/mega-rs/src/lib.rs:699 | the buffer is combined with the key stream at the position where the last call stopped |
| Mega.ChunkMac | crates/mega-rs/src/lib.rs:794-806 | whole blocks and a padded rest give the CBC-MAC of the chunk, whatever the last chunk left in the buffer |
| Mega.FoldMac | crates/mega-rs/src/lib.rs:836-839 | folding in place, each round overwriting what a later round must not read, gives the 8-byte MAC |
| Mega.MergeKeyMac | crates/mega-rs/src/utils.rs:134-146 | the first 16 bytes are combined in place with those that follow; the rest is unchanged |
| Mega.EcbInPlace | crates/mega-rs/src/utils.rs:120-132 | each 16-byte block is transformed on its own, in place |
| MegaTransfer.UploadNode | crates/mega-rs/src/lib.rs:759-858 | what is sent is the counter-mode stream of the first `size` bytes, and the packed key carries the MAC of the growing chunks |
| MegaTransfer.PackKey | crates/mega-rs/src/lib.rs:851-858 | file key, seed and MAC are merged and wrapped under the session key |
| MegaTransfer.DownloadNode | crates/mega-rs/src/lib.rs:662-732 | the bytes written, and acceptance exactly if their MAC is the one in the node key |
| MegaTransfer.UnpackKey | crates/mega-rs/src/lib.rs:316-317 | the node key is unwrapped under the session key |
| MegaProofs.StreamUndoes | crates/mega-rs/src/lib.rs:699 | the key stream applied twice at one position gives the data back |
| MegaProofs.EcbUndoes | crates/mega-rs/src/utils.rs:120-132 | unwrapping undoes wrapping |
| MegaProofs.MergedUndoes | crates/mega-rs/src/utils.rs:134-146 | unmerging undoes merging, for keys of every length from 16 on |
| MegaProofs.ChunkSchedule | crates/mega-rs/src/lib.rs:782-816 | the MAC of a file is taken over slices of which the k-th holds min(k, 8) times 128 KiB, the last one what is left |
| MegaProofs.KeyRoundTrip | crates/mega-rs/src/lib.rs:851-858 | unwrapping and unmerging a packed key gives file key, seed and MAC back |
| MegaProofs.MegaRoundTrip | crates/mega-rs/src/lib.rs:662-732 | for every file, size limit, key and seed, what an upload sends and packs makes a download write the same bytes and accept the MAC |
| MegaProofs.SendAndFetch | crates/mega-rs/src/lib.rs:759-858 | the same, by calling upload, unpacking and download one after the other |
| MegaBlocks.SentByBlock | crates/mega-rs/src/lib.rs:761-765 | what is sent for the i-th block is the block combined with the encrypted i-th counter block, the last one cut short; the counter starts at the seed and eight zero bytes and goes up by one with carry |
| MegaBlocks.CountersDistinct | crates/mega-rs/src/lib.rs:764 | the first n counter blocks of a file are pairwise distinct if and only if n is at most 2^128 |
| MegaBlocks.MacIsLastBlock | crates/mega-rs/src/lib.rs:794-806 | the MAC of a chunk is the last block of CBC over the chunk padded with zeros |
| MegaBlocks.MacMeaning | crates/mega-rs/src/lib.rs:769-839 | the MAC of a file is CBC, from a zero vector, over the chunk MACs, each from the seed twice, with the words of the last block combined in pairs |
| MegaBlocks.EncryptedByBlock | crates/mega-rs/src/utils.rs:51-54 | in CBC each block is combined with the cipher block before it and encrypted |
| MegaBlocks.DecryptedByBlock | crates/mega-rs/src/utils.rs:31-34 | each cipher block is decrypted and combined with the cipher block before it |
| MegaBlocks.EcbByBlock | crates/mega-rs/src/utils.rs:120-132 | each block is transformed on its own |
| MegaBlocks.PackedKeyBlocks | crates/mega-rs/src/lib.rs:851-858 | a packed key is the encryption of the file key combined with seed and MAC, and the encryption of seed and MAC |
| MegaBlocks.FileKeyMeaning | crates/mega-rs/src/lib.rs:662-663 | the file key of a node is its first sixteen bytes combined with the next sixteen |
| MegaBlocks.AttributeText | crates/mega-rs/src/utils.rs:44-57 | packed attributes decrypt to "MEGA", the text and zeros to the next multiple of sixteen |
| MegaAttributes.PackAndEncrypt | crates/mega-rs/src/utils.rs:44-57 | magic word, text and zero padding under CBC |
| MegaAttributes.DecryptAndUnpack | crates/mega-rs/src/utils.rs:30-42 | the text between the magic word and the first zero byte; a panic without the magic word |
| MegaAttributes.CbcUndoes | crates/mega-rs/src/utils.rs:31-34 | CBC decryption undoes CBC encryption from any chaining value |
| MegaAttributes.AttributesRoundTrip | crates/mega-rs/src/utils.rs:30-57 | packed attributes are read back unchanged if and only if their text holds no zero byte |
| Fnv.ComputeChecksum | crates/cloud_sync_core/src/state.rs:49-56 | the loop computes the FNV-1a hash with 64-bit wrap-around |
| Fnv.StepInjective | crates/cloud_sync_core/src/state.rs:51-54 | one step tells apart any two hashes and any two bytes, the multiplier being odd |
| Fnv.SingleByteChangeShows | crates/cloud_sync_core/src/state.rs:49-56 | changing any one byte of a payload of any length changes its checksum |
| Fnv.PublishedValues | crates/cloud_sync_core/src/state.rs:49-56 | the published FNV-1a values of the empty string, "a" and "b" |
| CatalogueFiles.FrameLayout | crates/cloud_sync_core/src/state_io.rs:118-124 | a frame is "CSTX", 1, eight checksum bytes with the highest first, and the payload |
| CatalogueFiles.BackupName | crates/cloud_sync_core/src/state_io.rs:87 | the backup has the name with the last extension replaced, a leading dot not starting one |
| CatalogueFiles.OldFormats | crates/cloud_sync_core/src/state_io.rs:63-72 | a file without a valid frame is left to the old binary decoder, then to the JSON decoder |
| CatalogueFiles.LoadWithoutCatalogue | crates/cloud_sync_core/src/state_io.rs:86-94 | without a catalogue file a whole backup is loaded; without a backup, or if nothing reads it, the default |
| CatalogueFiles.LoadFails | crates/cloud_sync_core/src/state_io.rs:96-109 | loading is an error exactly if there is a catalogue file and neither it nor a backup can be read |
| CatalogueFiles.LoadPrefersCatalogue | crates/cloud_sync_core/src/state_io.rs:96-97 | a catalogue file that can be read is what is loaded, whatever the backup holds |
| CatalogueFiles.LostCatalogueRecovers | crates/cloud_sync_core/src/state_io.rs:85-159 | after any interrupted saves and an effective one with a complete copy, losing the catalogue file makes loading give the state of the effective save before it |
| StateStore.LoadRaw | crates/cloud_sync_core/src/state_io.rs:42-79 | checksummed frame first, then the old binary format, then JSON |
| StateStore.Disk.WriteTemp | crates/cloud_sync_core/src/state_io.rs:147-149 | the temporary file holds the bytes written, which for an interrupted save are a prefix of the frame |
| StateStore.Disk.Save | crates/cloud_sync_core/src/state_io.rs:113-159 | the files after a save that was cut off anywhere or not at all; it took effect exactly if the rename did |
| StateStore.Disk.Load | crates/cloud_sync_core/src/state_io.rs:85-111 | the catalogue file, else its backup, else the default or an error |
| StateStore.SingleByteChangeRejected | crates/cloud_sync_core/src/state_io.rs:46-61 | changing any one byte of a frame, header and stored checksum included, makes the checksummed branch reject it |
| StateStore.BackupIsSeparate | crates/cloud_sync_core/src/state_io.rs:87 | the backup is a file of its own if and only if the catalogue file does not end in ".bak" |
| StateStore.SaveHolds | crates/cloud_sync_core/src/state_io.rs:113-159 | every save, cut off anywhere, keeps the catalogue file the frame of the last effective save |
| StateStore.CrashSafety | crates/cloud_sync_core/src/state_io.rs:85-159 | after any sequence of interrupted saves, loading gives the state of the last save whose rename took effect, or the default if none did |
| StateStore.BakExtensionLosesCatalogue | crates/cloud_sync_core/src/state_io.rs:152-155 | a catalogue file that itself ends in ".bak" is emptied by its own backup copy: a save cut off before the rename then leaves nothing to load |
| StateStore.CrashSafetyExact | crates/cloud_sync_core/src/state_io.rs:85-159 | all sequences of interrupted saves are safe if and only if the catalogue file does not end in ".bak" |
| StateStore.DamagedCatalogueRecovers | crates/cloud_sync_core/src/state_io.rs:96-109 | one damaged byte in the stored catalogue makes loading fall back to the backup: the previous catalogue as far as it was copied, wholly if the copy was complete, or the older backup if the copy, whose errors are ignored, never opened it; unless an old decoder accepts the damaged file |
| CircuitBreaker.Breaker.BeforeCall | crates/cloud_sync_lib/src/layers/circuit_breaker.rs:90-117 | whether a call is admitted, and the transition to half-open, as functions of the events so far |
| CircuitBreaker.Breaker.AfterCall | crates/cloud_sync_lib/src/layers/circuit_breaker.rs:120-154 | recording an outcome keeps the fields equal to what the events so far make them |
| CircuitBreaker.BreakerMeaning | crates/cloud_sync_lib/src/layers/circuit_breaker.rs:90-154 | for every interleaving: closed exactly while the failures are below the threshold; while closed they are the transient errors since the last success; while half-open no error has been reported since probing began and too few successes |
| CircuitBreaker.ClosingTakesAllProbes | crates/cloud_sync_lib/src/layers/circuit_breaker.rs:124-134 | half-open closes exactly on the success that completes the required number, with no error in between |
| CircuitBreaker.TripsExactly | crates/cloud_sync_lib/src/layers/circuit_breaker.rs:140-150 | a closed breaker opens, at that time, on the error that makes as many in a row as the threshold, and other errors do not count |
| CircuitBreaker.AdmitsExactly | crates/cloud_sync_lib/src/layers/circuit_breaker.rs:92-116 | an open breaker admits a call exactly if the recovery timeout has passed, the others admit every call |
| CircuitBreaker.OneErrorReopens | crates/cloud_sync_lib/src/layers/circuit_breaker.rs:140-150 | the first transient error reopens a half-open breaker |
| CircuitBreaker.Recovers | crates/cloud_sync_lib/src/layers/circuit_breaker.rs:94-134 | an open breaker asked after its timeout closes after as many successes as it wants, and not before |
| CircuitBreaker.CounterWraps | crates/cloud_sync_lib/src/layers/circuit_breaker.rs:142 | the failure counter has 32 bits and starts again from zero after its largest value |
| Retry.CeilingIsExact | crates/cloud_sync_lib/src/layers/retry.rs:85-91 | despite shifts past bit 63 and saturation the backoff ceiling before retry k is min(base * 2^(k-1), max) for every k |
| Retry.Guarded.Execute | crates/cloud_sync_lib/src/layers/circuit_breaker.rs:156-165 | one call through the breaker: admitted or refused as the history says, answered as the next call to the backend, reported if admitted |
| Retry.ExecuteWithRetry | crates/cloud_sync_lib/src/layers/retry.rs:65-115 | an operation makes 1 to max(1, max_attempts) calls, pauses before each retry as long as the server asks or else for the random draw modulo the exact bound plus one, goes on exactly if the attempt is to be retried and does not overflow, and stops for the right reason |
| Retry.EveryPauseIsDrawn | crates/cloud_sync_lib/src/layers/retry.rs:92-97 | every pause from 0 to the backoff bound is made for some draw, and no other |
| Retry.PanicsExactly | crates/cloud_sync_lib/src/layers/retry.rs:82-96 | an operation overflows if and only if one of its attempts calls for a random delay below a ceiling of 2^64 - 1 |
| Retry.OperationIsDetermined | crates/cloud_sync_lib/src/layers/retry.rs:72-113 | the responses decide how many attempts an operation makes and how it ends |
| Retry.FollowedExactly | crates/cloud_sync_lib/src/layers/retry.rs:72-113 | an attempt is followed by another one exactly if it failed in a way worth retrying, attempts are left and the next delay can be computed |
| Retry.RefusedIsRetried | crates/cloud_sync_lib/src/layers/circuit_breaker.rs:94-113 | a call the breaker refuses is retried with backoff like a lost connection while attempts are left |
| Retry.OtherErrorsDoNotOpen | crates/cloud_sync_lib/src/layers/circuit_breaker.rs:140-152 | errors that are not transient never open the breaker |
| Retry.SuccessCounts | crates/cloud_sync_lib/src/layers/circuit_breaker.rs:123-137 | a call that succeeds ends the row of failures of a closed breaker and counts towards closing a half-open one |
| Retry.OverflowPossible | crates/cloud_sync_lib/src/layers/retry.rs:85-93 | some backend makes an operation overflow if and only if the largest delay is 2^64 - 1 ms and the backoff before the last retry reaches it |
| Retry.OverflowingInput | crates/cloud_sync_lib/src/layers/retry.rs:93 | two attempts with delays of 2^64 - 1 ms: the first failure overflows |
| Retry.TotalPauseBound | crates/cloud_sync_lib/src/layers/retry.rs:81-111 | without delays asked for by the server the pauses add up to at most (calls - 1) times the largest delay |
| Retry.DownState | crates/cloud_sync_lib/src/layers/circuit_breaker.rs:140-150 | while every dispatched call fails transiently the breaker counts the dispatches, and once open it dates from the last one: refused calls do not move it |
| Retry.DispatchesBounded | crates/cloud_sync_lib/src/layers/circuit_breaker.rs:94-114 | then no window as long as the recovery timeout sees more dispatches than the failure threshold |
| Retry.HammerDownBackend | crates/cloud_sync_lib/src/client.rs:257-264 | the same for any sequence of operations, each retried as configured, with retry layered outside the breaker |
| Interleaved.DownMeaning | crates/cloud_sync_lib/src/layers/circuit_breaker.rs:90-154 | the state of the breaker under overlapping calls to a backend that is down: the reports counted, the last one being the time of opening |
| Interleaved.InterleavedBound | crates/cloud_sync_lib/src/layers/circuit_breaker.rs:90-154 | for overlapping calls to a backend that is down, no window as long as the recovery timeout admits more than the threshold less one plus the calls in flight at a time |
| Interleaved.HalfOpenAdmitsAll | crates/cloud_sync_lib/src/layers/circuit_breaker.rs:94-115 | a half-open breaker admits every call until one reports |
| BlockHash.ReadBlock | crates/cloud_sync_std/src/checksum.rs:71-79 | however short the reads, a block is the next 4 MiB of the file or what is left |
| BlockHash.ComputeDropboxHash | crates/cloud_sync_std/src/checksum.rs:66-86 | the digest is the hash of the concatenated block hashes, for every pattern of short reads |
| BlockHash.BlocksByNumber | crates/cloud_sync_std/src/checksum.rs:67-84 | the blocks hashed are the file from i * 4 MiB to the next multiple or the end, for each i, and none is empty |
| BlockHash.BlocksMakeFile | crates/cloud_sync_std/src/checksum.rs:67-84 | the blocks make up the file, each but the last holds 4 MiB and none is empty |
| NormalizedPath.NewAccepts | crates/cloud_sync_core/src/path.rs:40-62 | a path is accepted exactly if it has no null byte and every segment is harmless, and is then only re-slashed and trimmed |
| NormalizedPath.ReservedNames | crates/cloud_sync_core/src/path.rs:15-37 | a name is reserved exactly if what comes before its first dot spells CON, PRN, AUX, NUL, COM1-9 or LPT1-9 in any case |
| NormalizedPath.AcceptedExactly | crates/cloud_sync_core/src/path.rs:40-62 | a path is accepted exactly if it has no null byte and no segment is "." or "..", holds a colon or names a device |
| NormalizedPath.FirstHarmful | crates/cloud_sync_core/src/path.rs:50-60 | the error of a path is that of its first harmful segment |
| NormalizedPath.NewIsIdempotent | crates/cloud_sync_core/src/path.rs:40-62 | normalising an accepted path again changes nothing |
| NormalizedPath.JoinSafety | crates/cloud_sync_core/src/path.rs:82-90 | a join to an accepted path is accepted exactly if the child is, and is then left unchanged; the join itself checks nothing |
| NormalizedPath.UnsafeJoin | crates/cloud_sync_core/src/path.rs:82-90 | joined with "..", every accepted path becomes one that normalising refuses |
| NormalizedPath.JoinOfAccepted | crates/cloud_sync_core/src/path.rs:82-90 | joining two accepted paths gives a path that normalising returns unchanged |
| UrlEncoding.UrlEncode | crates/cloud_sync_core/src/path.rs:223-236 | the loop encodes byte by byte |
| UrlEncoding.UrlEncodePath | crates/cloud_sync_core/src/path.rs:239-252 | the same, keeping slashes |
| UrlEncoding.DecodingRecovers | crates/cloud_sync_core/src/path.rs:223-252 | percent-decoding (RFC 3986, sections 2.1 and 2.3) recovers every input of either function |
| UrlEncoding.UnreservedCharacters | crates/cloud_sync_core/src/path.rs:227 | the bytes left alone are the letters, the digits and the four marks of RFC 3986, section 2.3 |
| UrlEncoding.UnreservedKept | crates/cloud_sync_core/src/path.rs:223-252 | text of unreserved characters is its own encoding |
| UrlEncoding.ReservedByte | crates/cloud_sync_core/src/path.rs:230-232 | every other byte comes out as a percent sign and two digits, capital letters above nine |
| UrlEncoding.OnlyHarmlessBytes | crates/cloud_sync_core/src/path.rs:223-252 | nothing but unreserved characters, percent signs and, in paths, slashes comes out |
| UrlEncoding.PathEncodingBySegment | crates/cloud_sync_core/src/path.rs:239-252 | encoding a path is encoding each segment between slashes on its own |

## Left out

- Directories in the planner and the executor: the code plans an upload for a local directory as if it were a file; the model has one record per path and gives directories no contents of their own. The scanner model does have directories.
- The scans of a cycle give the trees as they are; how the remote scan filters and fails is modelled on its own in `Scanner`.
- `scan_local`: the same work list over the local file system; the only thing used of it is that local records carry no checksum.
- Trash and versioning: the orchestrator passes no trash manager to the executor.
- Event broadcasting, logging, metrics, display of dry runs, permissions set after a download.
- Resumable uploads: the session and the fallback to a plain upload are one call with one outcome.
- Changes to either tree between the scan and the end of the same cycle.
- The conflict manager, the resolver registry and custom conflict hooks; only the built-in strategies that the planner creates are modelled.
- Gitignore rules: an arbitrary predicate on path and kind.
- `apply_mutation`: an insertion or a removal in the catalogue map; the catalogue update of a cycle does not use it.
- AES, AES-GCM, SHA-256, key derivation, postcard and JSON: parameters with the assumptions named above.
- Vault files that change while they are being uploaded, failing reads and writes, temporary files, and erasing of buffers.
- The legacy vault format and the legacy catalogue decoders: fallbacks of which nothing is assumed.
- MEGA sessions, login, RSA parsing, the node tree, folder creation, base64 text forms, unwrapping of a key whose length is not a multiple of 16, at which the program panics.
- MegaAttributes.DecryptAndUnpack: stops at the JSON text; parsing it, and errors of parsing, are not modelled.
- The file operations of a save are sequential and complete in order; what a disk loses after a reported sync is not modelled. The names of the catalogue file, its backup and its temporary file are in one directory.
- Breaker and retry: wall-clock time is a number of milliseconds; `Retry.Guarded` makes calls one after the other; `CircuitBreaker.BreakerMeaning` and `Interleaved` cover calls that overlap, calls that never report included.
- CircuitBreaker.BreakerMeaning: for fewer than 2^32 events, after which the 32-bit counters wrap around; a failure threshold of 0 is excluded because such a breaker is closed although no count is below its threshold.
- The truncation in `as_millis() as u64`: configured delays are taken to fit 64 bits of milliseconds.
- `TokenBucket`, the other layers, backend factories, provider clients, the control server and the user interfaces.
- The other checksums of files (SHA-256, MD5, SHA-1): single loops without blocks.
- Paths outside ASCII, and the formatting of relative and absolute paths.
- `perform_backup` and the JSON catalogue store: simpler relatives of what is modelled.

# Verified kernels of the workflow control plane

The control plane moves AI-written changes from intake to a user's project. It is a set of Rust
crates and a TypeScript client. This project models the parts of it that have to be right whatever
happens around them, in the form the program has (objects with fields that methods update, loops over
queues and buffers, pure functions over values), and proves what those parts promise.

| file | what it models |
|---|---|
| `DeliveryTree`, `DeliverySteps`, `DeliveryTerms`, `DeliveryMachine` | the journaled promotion of a frozen candidate into the project, its rollback and its recovery, with a fault or a power loss at any operation, reads included |
| `DeliveryStore` | the promotion's view of the database, and that its transactions are those of the store |
| `Admission*` | the fair admission scheduler and its debug and release builds |
| `DagGraph`, `DagSort`, `DagSearch`, `DagTasks` | task graphs: Kahn's sort, both cycle checks, write scopes, ready tasks |
| `GraphQuery` | bounded shortest path and impact queries over the code graph |
| `Workflow`, `Store` | the workflow machine, and the transactional, idempotent store over it |
| `Leases` | execution leases |
| `Frame` | the streaming and the buffering decoder of the IPC channel |
| `Candidate`, `Reading` | candidate manifests, their canonical digest layout, and a reader of such bytes |
| `Ledger` | the hash chain of the audit ledger |
| `Manifest`, `ManifestDiff`, `ManifestEffects` | the incremental file inventory |
| `Options`, `Ordering`, `Bytes`, `ByteOrder` | shared vocabulary |

## How the results are stated

Each method is proved equal to a specification function, and each specification is in turn tied to a
description that shares nothing with it: what one call answers and leaves, told by rows, positions,
bytes, literal numbers or the history of calls. `DeliveryTerms` tells when a tree is the approved one
and when a change is in place, from the tree, the manifest and the accepted files; `AdmissionReap` and
`AdmissionEffects` who survives a reap and what a call does, by membership, expiry and order;
`Dag.Acceptable` which list of tasks is accepted, from its bytes and chains of dependencies;
`WorkflowHistory` and `LeaseHistory` every answer from the calls before it; `StoreEffects` the rows that
each transaction writes; `Frame.Says` what a byte stream carries; `Reading` what hashed bytes say;
`ManifestEffects` what became of each file.

## How the delivery is modelled

`DeliveryMachine.Machine` holds the project tree, the temporary files next to the delivered ones, the
copies a rollback may set aside, the journal, its unpublished temporary, the commit marker, and the
promotion's part of the database. Every operation on the files or the database, reads included, first
consults a schedule of faults: it proceeds, fails, or power is lost and nothing runs any more. Reads
that follow one another with no other effect in between are one operation. What a failing read means is
what the code makes of it: most end the attempt with an error, but a failing existence test at the start
of a recovery is taken for an absent file (`Exists`), and a digest that a rollback cannot read is taken
for a different one (`MatchesSnapshot`). The theorems quantify over all schedules, all manifests (files
that replace directories and directories that replace files included) and all starting trees.

Two results deserve a remark.

* A delivery without faults succeeds exactly when the tree is the approved base, every directory to be
  replaced holds nothing but deleted files directly in it, and every missing parent can be made when its
  turn comes (`DeliveryTerms.Ready`). Parents are made file by file in manifest order, the deepest first, each by
  a call that needs its own parent. So a file below two missing directories is rolled back, unless the
  upper one is a parent of an earlier file of the manifest and has been made for that (`CanMake`).
* Convergence has exceptions, which are stated exactly and shown to be real. `Machine.Unharmed` excludes
  three things. A commit marker without the approved files (`Stranded`) makes every recovery refuse; it
  takes a marker that was created but could not be synced, followed by a rollback that is cut short, or a
  file that a recovery overlooked. A journal other than the bound one (`Unbound`) makes every recovery
  refuse as well; it takes a journal that a recovery overlooked, after which the reservation was bound to
  another one or ended. And an original file is lost (`lost`) when a rollback cannot read the digest of
  the file, still in place and without a backup, or when a marker, or the journal next to it, is
  overlooked while the backups of a committed delivery are being removed. Without such a failed sync or
  failed read nothing is ever harmed, whatever else fails. `StrandOneFile`, `OverlookJournal` and
  `LoseOneFile` reach the three from concrete schedules.

## Model

| member | source | states |
|---|---|---|
| DeliveryMachine.Machine.RunThenPromote | crates/workflowd/src/candidate.rs:515-591 | after any number of promotions, each with faults and power losses at any reads and writes, one without faults delivers exactly the approved files, cleans up and completes the workflow whenever the original tree is ready for the change, and otherwise leaves the original files, provided the project is unharmed; only a marker that could not be synced or a misled read harms it; a harmed one is refused or, after a failure, has the original files exactly if none was lost; a success without misled reads leaves no unpublished journal either |
| DeliveryMachine.Machine.StopThenRecover | crates/workflowd/src/candidate.rs:1021-1058 | wherever a promotion of an unharmed project stops, recovery restores exactly the original files if there was no commit marker and leaves exactly the approved ones if there was; no backup, staged file, journal or marker is left, though an unpublished journal file may be; refused disks are left as they were |
| DeliveryMachine.Machine.StrandOneFile | crates/workflowd/src/candidate.rs:979-989 | a refused marker is reachable: one new file, a marker whose sync fails, power lost in the rollback, no read failing |
| DeliveryMachine.Machine.LoseOneFile | crates/workflowd/src/candidate.rs:803-809 | a lost original is reachable: one deletion, a rollback that cannot read the digest of the file still in place; it reports success, the journal is gone, and the file survives only as a copy that nothing puts back |
| DeliveryMachine.Machine.OverlookJournal | crates/workflowd/src/candidate.rs:1029-1038 | a refused journal is reachable: its existence test fails once while the tree is still the approved base; another journal gets bound and cannot be published |
| DeliveryMachine.Machine.PromoteAgain | crates/workflowd/src/candidate.rs:561-567 | promoting a delivered candidate again changes nothing on disk |
| DeliveryMachine.Machine.Promote | crates/workflowd/src/lifecycle.rs:622-735 | one request keeps the two-resource invariant; it completes the workflow only with the approved files in place and the bound digest, and without faults succeeds exactly where the change is in place or the tree is ready for it, releasing the reservation after a clean failure; whatever fails, an idle project that is neither in place nor as approved (a file to modify or delete is missing or none that the base accepts, a new path is taken, a file bars the way) is never reported done and its disk does not change, and no file outside the change ever does |
| DeliveryMachine.Machine.Release | crates/workflowd/src/lifecycle.rs:681-696 | after a failure the reservation is dropped only where neither a journal nor a marker is found; a failing test keeps it |
| DeliveryMachine.Machine.Complete | crates/workflowd/src/lifecycle.rs:716-735 | completes the workflow only for the digest its reservation is bound to; a completed one just drops its reservation |
| DeliveryMachine.Machine.ApplyPayload | crates/workflowd/src/candidate.rs:515-591 | without faults and from an idle disk it succeeds if and only if the change is already in place or the tree is ready for it; whatever fails, an idle disk with a file to modify or delete missing or none that the base accepts, a new path taken or a folder barred is never reported done and stays as it was; at any end the files differ from the original within the change only; a failure leaves the original files but for lost ones; a stranded or unbound disk is refused and not touched; a journal overlooked once leads to another one being bound |
| DeliveryMachine.Machine.Prepare | crates/workflowd/src/candidate.rs:568-583 | the journal is bound in the database before it is written; success, faults aside, exactly for deliverable trees; next to an overlooked journal it fails after binding |
| DeliveryMachine.Machine.Commit | crates/workflowd/src/candidate.rs:583-590 | a commit ends delivered; a marker next to other files takes a failed sync; the schedule that strands the disk |
| DeliveryMachine.Machine.ApplyStaged | crates/workflowd/src/candidate.rs:639-789 | without faults it installs all files exactly when every replaced directory gets emptied and every parent can be made, and otherwise rolls back to the original files; originals are lost only to misled reads |
| DeliveryMachine.Machine.Recover | crates/workflowd/src/candidate.rs:1021-1058 | a journal with another digest is refused and left alone, unless it is overlooked; otherwise recovery without faults is total except on a marker without the approved files; originals are lost only to misled or overlooking reads, and what is overlooked is left untouched |
| DeliveryMachine.Machine.Exists | crates/workflowd/src/candidate.rs:1029-1030 | a failing existence test answers no, which is wrong exactly if the file is there |
| DeliveryMachine.Machine.MatchesSnapshot | crates/workflowd/src/candidate.rs:1176-1185 | a digest that cannot be read counts as different, a mode that cannot be read is an error; the answer yes is never wrong |
| DeliveryMachine.Machine.JudgeTarget | crates/workflowd/src/candidate.rs:801-809 | what a rollback does with a file it finds: the verdict is wrong about an original exactly when a read failed, and without faults it is never set aside |
| DeliveryMachine.Machine.Rollback | crates/workflowd/src/candidate.rs:791-892 | from any point of a delivery, and restarted from any of its own intermediate states, rollback ends with the journal gone last and every original file in place except the lost ones; whatever fails, it loses one only by misreading it |
| DeliveryMachine.Machine.Unwind | crates/workflowd/src/candidate.rs:797-846 | the first two passes clear every installed file and made directory; they lose an original only by misreading it |
| DeliveryMachine.Machine.RestoreAll | crates/workflowd/src/candidate.rs:847-887 | the third pass puts back every displaced file that is not lost and every replaced directory |
| DeliveryMachine.Machine.Cleanup | crates/workflowd/src/candidate.rs:1112-1128 | cleanup touches no delivered file and can be restarted anywhere; the marker outlives the journal |
| DeliveryMachine.Machine.WriteJournal | crates/workflowd/src/candidate.rs:942-971 | the journal appears under its name whole or not at all |
| DeliveryMachine.Machine.BindJournal | crates/workflow-store/src/candidates.rs:138-165 | compare-and-set of the reservation's journal digest |
| DeliveryMachine.Machine.DisplaceAll | crates/workflowd/src/candidate.rs:665-709 | moving the originals away, deepest first, succeeds exactly when every directory to be replaced holds nothing but deleted files |
| DeliveryMachine.Machine.MakeParents | crates/workflowd/src/candidate.rs:710-737 | making the parents succeeds exactly when none of them needs another new one |
| DeliveryMachine.Machine.InstallAll | crates/workflowd/src/candidate.rs:738-773 | linking the staged files yields exactly the approved tree |
| DeliveryMachine.CapturedAgrees | crates/workflowd/src/candidate.rs:894-940 | a captured journal matches its manifest, and tells as well as the manifest which directories lead to approved files |
| DeliveryMachine.CommittedIsFinished | crates/workflowd/src/candidate.rs:1049-1055 | a marker that recovery accepts means exactly the approved files |
| DeliveryMachine.PromotedLeavesNoTemp | crates/workflowd/src/candidate.rs:942-971 | where the approved files stand no unpublished journal file is left over |
| DeliverySteps.StageKeepsPending | crates/workflowd/src/candidate.rs:652-663 | staging a file keeps the delivery recoverable |
| DeliverySteps.DisplaceKeepsPending | crates/workflowd/src/candidate.rs:674-695 | renaming an original to its backup keeps the delivery recoverable |
| DeliverySteps.RemoveDirKeepsPending | crates/workflowd/src/candidate.rs:696-708 | removing an emptied or a made directory keeps it recoverable |
| DeliverySteps.CreateDirKeepsPending | crates/workflowd/src/candidate.rs:729-736 | making a parent of an approved file keeps it recoverable |
| DeliverySteps.LinkKeepsPending | crates/workflowd/src/candidate.rs:738-765 | linking a staged file or a backup into place keeps it recoverable |
| DeliverySteps.UninstallKeepsPending | crates/workflowd/src/candidate.rs:803-810 | taking an installed file away again keeps it recoverable |
| DeliverySteps.RemoveOriginal | crates/workflowd/src/candidate.rs:806-809 | taking an original away loses it, to this and every later rollback, if and only if it has no backup |
| DeliverySteps.DropBackupKeepsPending | crates/workflowd/src/candidate.rs:870-885 | a backup may go once its original stands in place |
| DeliverySteps.BaseIsPending | crates/workflowd/src/candidate.rs:568-573 | the tree the journal was captured from is a recoverable state |
| DeliveryPhases.RollbackRestores | crates/workflowd/src/candidate.rs:847-891 | once every path is put back the tree has exactly the files of the base but for the lost originals, and no temporary is left |
| DeliveryPhases.MadeDirectoryIsEmpty | crates/workflowd/src/candidate.rs:832-846 | in the second pass a directory the delivery made is always empty, so removing it cannot fail |
| DeliveryPhases.BaseDirsCanReturn | crates/workflowd/src/candidate.rs:851-869 | no file is in the way of a directory that has to come back |
| DeliveryPhases.EmptiedExactly | crates/workflowd/src/candidate.rs:696-706 | when its turn comes a directory is empty if and only if the base had nothing but deleted files in it |
| DeliveryPhases.ParentMissingExactly | crates/workflowd/src/candidate.rs:718-737 | when its turn comes a parent is missing if and only if neither the base nor an earlier file made it |
| DeliveryPhases.InstalledIsFinished | crates/workflowd/src/candidate.rs:774-778 | after the last link the promoted tree verifies |
| DeliveryTerms.AsApprovedIs | crates/workflowd/src/candidate.rs:593-637 | the checks before a delivery accept exactly the trees in which every file to modify or delete is one that the base accepts, every new path is free or a directory out of which the change deletes files, and no file that stays bars the way |
| DeliveryTerms.ReadyIs | crates/workflowd/src/candidate.rs:639-789 | and without faults a delivery succeeds exactly if also every directory to be replaced holds only what the change deletes and no missing folder lacks its own folder at its turn |
| DeliveryTerms.InPlaceIs | crates/workflowd/src/candidate.rs:401-440 | the verification accepts exactly the trees with every approved image at its path and nothing at a deleted one but a directory for files below it |
| DeliveryTerms.FinishedIsApplied | crates/workflowd/src/candidate.rs:401-440 | a tree that verifies, with nothing else changed, has exactly the files that applying the change to the original gives |
| DeliveryTerms.PendingIsWithin | crates/workflowd/src/candidate.rs:639-892 | at every step in between only files of the change differ, and each is absent, original or approved |
| DeliveryPhases.DeliverableStays | crates/workflowd/src/candidate.rs:593-637 | directories left by rolled-back attempts never make a deliverable tree undeliverable |
| DeliveryPhases.PromotedLikeOrigin | crates/workflowd/src/candidate.rs:401-440 | rolled-back attempts do not decide whether the approved files verify |
| DeliveryPhases.LostIsNoPreimage | crates/workflowd/src/candidate.rs:593-637 | a tree that lacks a lost original is never taken for the approved base |
| DeliveryTree.DirAtTarget | crates/workflowd/src/candidate.rs:811-828 | rollback never meets a foreign directory, so it never refuses to preserve one |
| DeliveryLimits.TwoMissingParents | crates/workflowd/src/candidate.rs:718-737 | a new file below two missing directories is accepted by every check and still not deliverable |
| DeliveryLimits.NestedDirectory | crates/workflowd/src/candidate.rs:696-708 | nor is a file in place of a directory with a subdirectory |
| DeliveryStore.ReserveIsStored | crates/workflow-store/src/candidates.rs:71-109 | the promotion's reserving is the store's, told apart from a repeated one |
| DeliveryStore.BindIsStored | crates/workflow-store/src/candidates.rs:138-165 | its binding succeeds exactly when the store's does, and both refuse without a change |
| DeliveryStore.ReleaseIsStored | crates/workflow-store/src/candidates.rs:111-136 | same for its releasing |
| DeliveryStore.DeliverIsStored | crates/workflow-store/src/workflows.rs:116-213 | same for the delivery transaction, which compares the bound digest and completes the workflow |
| Admission.RepairEstablishes | crates/workflowd/src/admission.rs:172-204 | repair restores the queue invariant from any state with duplicate-free queues |
| Admission.RepairIsIdentity | crates/workflowd/src/admission.rs:172-204 | repair changes nothing in an orderly state |
| AdmissionRuns.EveryRunIsOrderly | crates/workflowd/src/admission.rs:68-223 | every run of either build keeps: leases within the maximum, active and waiting disjoint and, entries without an owner swept aside, every waiting workflow in exactly the queue of its project and the rotation a permutation of the waiting projects; its swept state is that of the run with the pop |
| AdmissionRuns.StepSweeps | crates/workflowd/src/admission.rs:68-120 | so does every single call of either build, which answers as the one with the pop |
| AdmissionRuns.ReapSweeps | crates/workflowd/src/admission.rs:156-170 | the next reap removes whatever the missing pop left behind |
| AdmissionRuns.DequeueLeaves | crates/workflowd/src/admission.rs:140-154 | leaving the queue with and without the pop differ by dead entries only |
| AdmissionRuns.ReleaseBuildAgrees | crates/workflowd/src/admission.rs:140-154 | from states that differ by dead entries the build without the pop answers every call of every run as the other one does, and ends in a state that differs by dead entries |
| AdmissionRuns.BuildsAgree | crates/workflowd/src/admission.rs:145 | both builds answer every run from the start alike, and every state they reach is orderly |
| AdmissionRuns.StepLowersPotential | crates/workflowd/src/admission.rs:68-219 | in either build no call raises the number ahead of a waiting workflow plus the bypasses still possible, and an admission of another project lowers it |
| AdmissionRuns.BypassBound | crates/workflowd/src/admission.rs:86-154 | in either build, while a workflow keeps waiting, any other project is admitted at most once more often than there are workflows ahead in its queue |
| AdmissionRuns.IdleSchedulerAdmits | crates/workflowd/src/admission.rs:263-281 | a scheduler without live leases admits whoever asks, whatever its rotation still says |
| AdmissionReap.ReapKeepsExactly | crates/workflowd/src/admission.rs:156-170 | a lease and a place in a queue survive a reap if and only if their expiry lies ahead, with expiry, project and the order of queues and rotation |
| AdmissionReap.ReapedIsUnique | crates/workflowd/src/admission.rs:156-204 | which leaves one possible outcome |
| AdmissionEffects.EveryCallDoes | crates/workflowd/src/admission.rs:68-120 | every call of either build: what is reported, who waits where and until 15 000 ms later (saturating at 64 bits), who is next, which refusal comes first, what a lease changes in queues and rotation |
| AdmissionEffects.StaysInTouch | crates/workflowd/src/admission.rs:122-127 | a workflow keeps waiting through a run if and only if every call comes before its place lapses, nobody drops or releases it and its own requests, which each move the lapse, are not admitted |
| AdmissionEffects.FairWhileInTouch | crates/workflowd/src/admission.rs:86-154 | so whoever asks again in time is bypassed by another project at most once more often than there are workflows ahead in its queue |
| AdmissionEffects.RepairKeepsExactly | crates/workflowd/src/admission.rs:172-204 | from any duplicate-free queues a repair keeps exactly who waits in the queue of its owner, in order, and the turns of the projects, those missing from the rotation last and by number |
| AdmissionEffects.RemovedLeaves | crates/workflowd/src/admission.rs:206-219 | a removal takes away exactly one workflow, order kept |
| AdmissionScheduler.RuntimeAdmission.Execute | crates/workflowd/src/admission.rs:68-120 | the in-place scheduler does what the specification says, in either build, and has the effect that `EveryCallDoes` describes without it |
| AdmissionScheduler.RuntimeAdmission.Enqueue | crates/workflowd/src/admission.rs:122-138 | same for enqueueing |
| AdmissionScheduler.RuntimeAdmission.DequeueFront | crates/workflowd/src/admission.rs:140-154 | same for leaving the queue, popping only in a debug build |
| AdmissionScheduler.RuntimeAdmission.Reap | crates/workflowd/src/admission.rs:156-170 | same for reaping: nobody goes whose expiry lies ahead, nobody stays whose does not |
| AdmissionScheduler.RuntimeAdmission.RepairQueueInvariants | crates/workflowd/src/admission.rs:172-204 | same for the repair, and who stays queued in which order |
| AdmissionScheduler.RuntimeAdmission.Remove | crates/workflowd/src/admission.rs:206-219 | same for removal |
| DagSort.Sort | crates/workflow-core/src/dag.rs:205-240 | an order comes out exactly when the graph is acyclic; it is a permutation with dependencies first, and no other such order comes before it |
| DagSort.Relax | crates/workflow-core/src/dag.rs:224-232 | counting down never underflows and a task becomes ready exactly when nothing it needs is missing |
| DagGraph.OrderedIsAcyclic | crates/workflow-core/src/dag.rs:205-240 | a complete order rules out cycles |
| DagGraph.StuckIsCyclic | crates/workflow-core/src/dag.rs:235-239 | a non-empty set of tasks each waiting for another one contains a cycle |
| DagGraph.GreedyIsLeast | crates/workflow-core/src/dag.rs:222-223 | always taking the least ready task gives the least order |
| DagSearch.DependsOn | crates/workflow-core/src/dag.rs:247-266 | true exactly for non-empty dependency paths |
| DagSearch.AssertAcyclic | mcp/src/architecture-plan.ts:224-237 | the client's depth-first check accepts exactly the acyclic graphs |
| DagSearch.CycleCheck.Visit | mcp/src/architecture-plan.ts:228-235 | a visit fails only on a cycle, and otherwise leaves everything reachable visited |
| Dag.BothChecksAgree | crates/workflow-core/src/dag.rs:205-240 | daemon and client accept the same task graphs |
| Scopes.AcceptsExactlySafe | crates/workflow-core/src/path.rs:1-9 | the path check accepts exactly the byte strings with no backslash, leading slash or colon in second place and no empty, dot or dot-dot part between slashes |
| Scopes.OverlapIsMeeting | crates/workflow-core/src/path.rs:11-19 | scopes overlap exactly when some byte string is each of them or continues it after a slash |
| Scopes.OverlapIsSharedPath | crates/workflow-core/src/path.rs:11-19 | two scopes overlap exactly when some path lies under both |
| Scopes.CoversIsSegmentPrefix | crates/workflow-core/src/path.rs:11-19 | a path lies under a scope exactly when the scope's segments are its first ones |
| Dag.ValidateNodes | crates/workflow-core/src/dag.rs:148-203 | accepts exactly the node sets with safe scopes, known and distinct dependencies and no unordered overlapping claims, and otherwise names the first defect |
| Dag.Validate | crates/workflow-core/src/dag.rs:90-109 | accepts exactly the lists of distinct executors' tasks with safe scopes, known and distinct dependencies, no two scopes meeting unless one task needs the other in the end, and no cycle, told by the list alone; the order returned lists each task once after what it needs and is the least such; otherwise the error is the first one: a task listed again, then the least task with a defect and its first defect, then the first clash of scopes, then a cycle |
| Dag.AcceptableIs | crates/workflow-core/src/dag.rs:148-240 | the description by the list agrees with the checks on the indexed nodes |
| Dag.FirstClashIs | crates/workflow-core/src/dag.rs:186-201 | the clash reported is the first by task and place, of the later scope and then of the earlier one |
| Dag.ExecutionIsClosed | crates/workflow-core/src/dag.rs:132-139 | along every execution the completed set contains the dependencies of its tasks |
| Dag.ReadyTasksWriteApart | crates/workflow-core/src/dag.rs:117-129 | in every execution no path is under write scopes of two distinct ready tasks |
| Dag.SomeTaskIsReady | crates/workflow-core/src/dag.rs:117-129 | until everything is completed something is ready |
| Dag.ExecutionsFinish | crates/workflow-core/src/dag.rs:117-139 | every execution completes each task at most once and can only end with all of them |
| GraphQuery.ShortestPath | crates/workflow-code-intel/src/query.rs:48-92 | a path found is simple, as short as any, within the depth limit and never marked truncated; an empty answer that is not truncated means unreachable, and a truncated one is justified |
| GraphQuery.Reconstruct | crates/workflow-code-intel/src/query.rs:149-170 | walking the parents back ends, with a simple path of exactly the recorded depth |
| GraphQuery.NearNodesVisited | crates/workflow-code-intel/src/query.rs:68-88 | whatever has a route shorter than the frontier has been visited |
| GraphQuery.VisitNew | crates/workflow-code-intel/src/query.rs:78-85 | a node met from depth k is at distance k + 1, and the breadth-first invariant stays |
| GraphQuery.BuildAdjacency | crates/workflow-code-intel/src/query.rs:131-147 | lists exactly the edges in the given direction, sorted by edge |
| GraphQuery.Impact | crates/workflow-code-intel/src/query.rs:95-129 | within both limits, only what is reachable; when not truncated, every edge that leaves (outgoing) or enters (incoming) an answered node is answered with its other end, told by the edges' sources and targets; whenever the node limit is not reached, everything within the depth limit and every edge out of anything nearer; nothing answered is farther than anything left out; truncated only at a limit |
| GraphQuery.NextIsNearest | crates/workflow-code-intel/src/query.rs:108-123 | below the node limit a node is visited only once everything nearer to the roots has been |
| GraphQuery.WithinMeans | crates/workflow-code-intel/src/query.rs:131-147 | within n edges outgoing is a stored path from a root of at most n edges, and incoming one to a root |
| GraphQuery.IncomingIsReversed | crates/workflow-code-intel/src/query.rs:131-147 | so a node is within n edges incoming exactly when an outgoing route of at most n edges leads from it to a root |
| GraphQuery.WholeClosure | crates/workflow-code-intel/src/query.rs:95-129 | an exhausted, uncut search has visited everything reachable |
| GraphQuery.RouteFollowed | crates/workflow-code-intel/src/query.rs:108-123 | first in, first out: a finished search below its node limit has followed every route up to the depth limit |
| WorkflowMachine.StepKeepsInv | crates/workflow-core/src/workflow.rs:179-343 | candidate exactly after the freeze, repair target exactly in repair, budget exhausted exactly in a budget block; a refusal changes nothing |
| WorkflowMachine.UnreachableRefusals | crates/workflow-core/src/workflow.rs:315-337 | a missing candidate, a missing repair target and a rejection overflow never come up |
| WorkflowMachine.InterruptionsAreUndone | crates/workflow-core/src/workflow.rs:258-307 | pause and resume, block and unblock restore every field |
| WorkflowMachine.RunKeepsInv | crates/workflow-core/src/workflow.rs:141-343 | every run from a new workflow satisfies the invariant |
| WorkflowMachine.CyclesAreCounted | crates/workflow-core/src/workflow.rs:315-332 | the cycle counter is the number of accepted rejections, and the budget what was granted |
| WorkflowMachine.JudgedStep | crates/workflow-core/src/workflow.rs:197-246 | how a judged state can be entered |
| WorkflowMachine.RunExplained | crates/workflow-core/src/workflow.rs:179-313 | in every run the commands accepted since the last freeze are exactly the ones its state requires |
| WorkflowMachine.DeliverySafety | crates/workflow-core/src/workflow.rs:179-313 | a completed run accepted, after its last freeze and interruptions aside, exactly: verification passed, reviews ready if and only if the mode is full, approval with all gates passed, delivery |
| WorkflowMachine.CandidateHeld | crates/workflow-core/src/workflow.rs:197-257 | the delivered candidate has been the current one ever since it was frozen |
| WorkflowHistory.EveryMove | crates/workflow-core/src/workflow.rs:179-313 | after any commands the next one is accepted exactly where its rule allows, moves to the state that the accepted commands determine (a repair to the target of the last rejection, a resumption back to where the interruption came from), reports exactly that, and is otherwise refused for the reason given with no field changed |
| WorkflowHistory.FieldsFromHistory | crates/workflow-core/src/workflow.rs:141-343 | mode, candidate, counter and budget are what the accepted commands say |
| WorkflowObject.LiveWorkflow.Apply | crates/workflow-core/src/workflow.rs:179-313 | the in-place machine does what the specification says, whose every move `EveryMove` derives from the history without it |
| StoreModel.StoreRefinesMachine | crates/workflow-store/src/workflows.rs:21-213 | after any calls each row is the fold of the machine over the first successful use of each key, its events lead from intake to the stored state, and each key is recorded once |
| StoreModel.ReplayAnswersTheSame | crates/workflow-store/src/workflows.rs:43-62 | using a key again changes nothing and returns the recorded answer, a conflict for another workflow |
| StoreModel.StoredIsReachable | crates/workflow-store/src/workflows.rs:64-114 | the machine's delivery safety holds of what is stored |
| StoreModel.OnlyDeliveryCompletes | crates/workflow-store/src/workflows.rs:116-213 | while a workflow is reserved only the delivery holding the reservation changes it, completing it and dropping the reservation in one step |
| StoreModel.ReservedStandsStill | crates/workflow-store/src/workflows.rs:33-42 | between a reservation and its end the workflow stands still |
| StoreModel.ServeKeepsInv | crates/workflow-store/src/workflows.rs:21-213 | every transaction keeps the refinement |
| StoreEffects.CommandDoes | crates/workflow-store/src/workflows.rs:21-114 | a command: keys of 1 to 256 bytes, then reservations, then the record of the key, then the machine on the row or on a fresh workflow with five cycles; which rows, events and record are written, and nothing else |
| StoreEffects.DeliverDoes | crates/workflow-store/src/workflows.rs:116-213 | a delivery, its refusals in order, a reservation without a journal digest being unreadable |
| StoreEffects.ReservingDoes | crates/workflow-store/src/candidates.rs:71-165 | reserving, releasing and binding change one reservation, exactly when it is absent, held with the digest, or held with the digests expected |
| StoreObject.Store.ApplyWorkflowCommand | crates/workflow-store/src/workflows.rs:21-114 | the in-place transaction does what the specification says and has the effect of `CommandDoes` |
| StoreObject.Store.DeliverReservedCandidate | crates/workflow-store/src/workflows.rs:116-213 | same for the delivery |
| StoreObject.Store.ReserveCandidateDelivery | crates/workflow-store/src/candidates.rs:71-109 | same for reserving |
| StoreObject.Store.ReleaseCandidateDelivery | crates/workflow-store/src/candidates.rs:111-136 | same for releasing |
| StoreObject.Store.BindCandidateDeliveryJournal | crates/workflow-store/src/candidates.rs:138-165 | same for binding the journal digest |
| LeaseTable.StepKeepsUnique | crates/workflow-store/src/leases.rs:48-66 | no two rows ever have the same lease |
| LeaseRuns.HeldUntilEnded | crates/workflow-store/src/leases.rs:14-116 | a lease stays in its row until it is released or, idempotent and expired, replaced |
| LeaseRuns.LeaseExclusion | crates/workflow-store/src/leases.rs:14-106 | whenever a lease is granted, every earlier one for the task was released, or was idempotent and expired strictly before; it can never be renewed again |
| LeaseRuns.NotReplacedUntilReleased | crates/workflow-core/src/lease.rs:91-100 | a non-idempotent lease, however long expired, keeps its task until it is released, and others are told so |
| LeaseHistory.AlwaysTracks | crates/workflow-store/src/leases.rs:14-116 | in every run the rows are the leases granted and not ended: owner, task, safety and start of the grant, expiry `now + duration` of the grant or the last heartbeat |
| LeaseHistory.AcquireAnswers | crates/workflow-store/src/leases.rs:14-72 | every answer to an acquisition, from the calls before it: occupied with that lease up to its last expiry, a request for review after it or once one was made if the work must not be repeated, and otherwise a lease from now for the duration asked or the first reason against it |
| LeaseHistory.HeartbeatAnswers | crates/workflow-store/src/leases.rs:74-106 | and to a heartbeat |
| LeaseHistory.ReleaseAnswers | crates/workflow-store/src/leases.rs:108-116 | and to a release |
| LeaseObject.LeaseStore.AcquireLease | crates/workflow-store/src/leases.rs:14-72 | the in-place transaction does what the specification says, whose every answer `AcquireAnswers` derives from the history without it |
| LeaseObject.LeaseStore.HeartbeatLease | crates/workflow-store/src/leases.rs:74-106 | same for the heartbeat |
| LeaseObject.LeaseStore.ReleaseLease | crates/workflow-store/src/leases.rs:108-116 | same for the release |
| Frame.RoundTrip | crates/workflow-ipc/src/frame.rs:39-129 | however the encodings of a list of payloads are cut into chunks, feeding them gives back the payloads with nothing buffered |
| Frame.FeedInPieces | crates/workflow-ipc/src/frame.rs:84-129 | feeding two pieces is feeding their concatenation, refusals included |
| Frame.DecodersAgree | mcp/src/client.ts:1623-1644 | from any point the buffering decoder yields the frames and the refusal of the streaming one, and what it keeps is what the other buffers plus the length bytes of a frame that has begun, always below its limit |
| Frame.FeedSays | crates/workflow-ipc/src/frame.rs:84-129 | from any point the frames given back are those that the bytes carry, each behind four length bytes of 1 to 8 388 608, up to an unfinished rest, and a refusal names the length that breaks this |
| Frame.DrainReads | mcp/src/client.ts:1626-1644 | same for the buffering decoder |
| Frame.EncodeCarries | crates/workflow-ipc/src/frame.rs:39-55 | an encoded frame carries its payload, and exactly the empty and the oversized ones are refused |
| Frame.RefusalIsFinal | crates/workflow-ipc/src/frame.rs:97-126 | after a refusal neither decoder accepts anything again |
| FrameDecoders.StreamingDecoder.Feed | crates/workflow-ipc/src/frame.rs:84-129 | copying in bulk is feeding byte by byte, and says what the bytes carry |
| FrameDecoders.BufferingDecoder.Feed | mcp/src/client.ts:1626-1644 | cutting frames off the buffer is draining it, and the overflow check never fires |
| Bytes.ValueOfBigEndian | crates/workflow-ipc/src/frame.rs:50-52 | reading a big-endian length gives back what was written |
| CandidateManifests.New | crates/workflow-core/src/candidate.rs:158-189 | succeeds exactly without repeated paths and repeated evidence; otherwise names the least repeated path, and only without one the least repeated evidence; the lists come out in dictionary order |
| CandidateManifests.DigestOf | crates/workflow-core/src/candidate.rs:197-232 | the hasher is fed exactly the canonical layout |
| ManifestReading.EncodedReadsBack | crates/workflow-core/src/candidate.rs:197-232 | a reader that knows only length bytes and flags gets every encoded field back: domain, base revision, files with path, digest and name of kind, the four digests in order, evidence, and the payload digest at the very end |
| ByteOrder.BeforeIsEarlier | crates/workflow-core/src/candidate.rs:165-175 | the comparison of paths is that of a dictionary over bytes |
| CandidateManifests.EncodingIdentifiesTheChange | crates/workflow-core/src/candidate.rs:197-232 | two manifests feed the same bytes if and only if base revision, set of (path, digest, kind), the four digests, set of evidence and optional payload digest agree |
| CandidateManifests.EncodingIsInjective | crates/workflow-core/src/candidate.rs:197-232 | the bytes determine every encoded field, the optional last one included |
| CandidateManifests.DigestIgnoresOrder | crates/workflow-core/src/candidate.rs:165-178 | the digest does not depend on the order of the files or the evidence given |
| CandidateManifests.SameRefusals | crates/workflow-core/src/candidate.rs:165-178 | neither does the refusal |
| CanonicalEncoding.PopText | crates/workflow-core/src/digest.rs:118-122 | a length-prefixed field can be cut off in only one way |
| CanonicalEncoding.CanonicalHasher.WriteBytes | crates/workflow-core/src/digest.rs:118-122 | feeds the length and the bytes |
| CanonicalEncoding.CanonicalHasher.WriteOptionalText | crates/workflow-core/src/digest.rs:128-136 | feeds a flag and, if present, the text |
| Ledger.LedgerChain.Append | crates/workflow-ledger/src/chain.rs:86-92 | appends an entry linked to its predecessor with the right hash, or changes nothing and says which limit was met; a verified chain stays verified |
| Ledger.LedgerChain.Verify | crates/workflow-ledger/src/chain.rs:95-136 | valid exactly for linked chains with the expected head; otherwise the first entry that is wrong, told by its fields and by what its hash is taken over, and the first thing wrong with it |
| Ledger.CalculateHash | crates/workflow-ledger/src/chain.rs:34-61 | hashes exactly the domain, sequence, tagged previous hash and sized event |
| Ledger.RightHashIs | crates/workflow-ledger/src/chain.rs:34-61 | an entry has the right hash exactly if it is the hash of the one byte string that reads as domain, sequence number, previous hash if any, and sized event |
| Ledger.EntryReadsBack | crates/workflow-ledger/src/chain.rs:34-61 | the bytes hashed read so |
| Ledger.OnlyEntryReadsSo | crates/workflow-ledger/src/chain.rs:34-61 | and no others do |
| Ledger.EntryBytesInjective | crates/workflow-ledger/src/chain.rs:34-61 | those bytes determine sequence, previous hash and event |
| Ledger.HashPinsHistory | crates/workflow-ledger/src/chain.rs:95-136 | an entry hash shared by two verified chains puts both entries at the same position with the same history, or the chains themselves exhibit a hash collision |
| Ledger.HeadPinsLedger | crates/workflow-ledger/src/chain.rs:95-136 | so does a shared head for the whole ledgers |
| ManifestDiff.MakePlan | crates/workflow-code-intel/src/manifest.rs:65-95 | the loop plans what the specification says |
| ManifestDiff.Resolve | crates/workflow-code-intel/src/manifest.rs:120-188 | the loop resolves as the specification says |
| ManifestEffects.UpdateTells | crates/workflow-code-intel/src/manifest.rs:65-188 | an update fails with the error of the first file that goes wrong, or tells file by file in inventory order: added, renamed from the first vanished file with its content that is not yet taken, modified, or nothing; and then the files that are gone, in dictionary order |
| ManifestEffects.UpdateLists | crates/workflow-code-intel/src/manifest.rs:65-188 | the new manifest lists exactly the inventory, each file as hashed or, if its metadata were trusted, as before |
| ManifestUpdates.SucceedsExactly | crates/workflow-code-intel/src/manifest.rs:151-154 | an update succeeds exactly when every file that needs hashing reads with the metadata of the inventory |
| ManifestUpdates.ManifestIsRebuilt | crates/workflow-code-intel/src/manifest.rs:65-188 | the new manifest is that of a full rebuild if and only if no file with trusted metadata changed its content |
| ManifestUpdates.ChangesAccountForEveryFile | crates/workflow-code-intel/src/manifest.rs:150-186 | every vanished path is deleted or a rename source exactly once, the new paths are added or rename targets and the changed ones modified, once each and in inventory order; renames keep the content |
| ManifestUpdates.NewPathsOnce | crates/workflow-code-intel/src/manifest.rs:83-87 | without duplicates in the inventory the arrivals are exactly the new paths |
| ManifestUpdates.RenamesAreMaximal | crates/workflow-code-intel/src/manifest.rs:160-176 | for every content the number of renames is the smaller of vanished and new files |
| ManifestUpdates.NoPairingRenamesMore | crates/workflow-code-intel/src/manifest.rs:160-176 | no other pairing of vanished with new files of the same content has more pairs |

## Left out

- Git subprocesses: the tree matches the approved base when each base file is one of the accepted images of its path (the blob or its checked-out form); `git apply --check` is part of that.
- Durability of writes: syncing is modelled only for the commit marker, where it decides a branch. A sync that fails elsewhere has the effect of the next operation failing. That unsynced data may vanish with a power loss is not modelled.
- Other writers: nobody else changes the project during a delivery, so the collision checks never act, and a file is set aside as a concurrent one only when it could not be read. The promotion lock and the delivery gate are taken as given, so promotions follow one another.
- Names of staged files, backups and copies set aside: they are kept apart from the tree, so project files with such names are not modelled. Copies set aside are never removed, neither here nor by the program.
- The legacy journal directory, and journals that are not JSON: recovery starts from what a delivery wrote.
- Digests of files, journals and payloads are taken to be injective, and so are the numbers that stand for them in the store, except in the ledger, where collisions are part of the statement.
- Windows specifics, symbolic links, platform modes beyond the executable bit, and the size limit of a payload.
- The promotion request also checks the project index, the arbitration verdict and the stored payload; here it starts when those have passed.
- The resource controller's verdict is an arbitrary input of the scheduler, and so is the clock, which may even run backwards there.
- JSON, SQL text and migrations: tables are maps and keys byte strings, transactions atomic, uniqueness constraints checks. The foreign keys of reservations to candidates, cascading deletes of tasks, and timestamps of rows are not modelled.
- Other users of the shared idempotency keys appear as calls that take a key; what they do is not modelled.
- Identifiers drawn at random (leases, nonces) are inputs; that leases are never drawn twice is a hypothesis of the lease theorems.
- Event serialisation: the canonical bytes of a ledger event are given by a function, so two entries are compared by their canonical bytes.
- `CandidateFile::new` and the path rule it checks: a manifest may hold any files, as one read back from storage may.
- The order of files with equal paths after an unstable sort: such manifests are refused.
- `hash_file` is a function from paths to outcomes for the duration of one update; a file that changes while it is read shows up as one of its errors.
- Goals, routing, reviews, verdicts, evidence, arbitration and the worktree and index modules: mostly single-branch checks that would add easy members, or code whose data structures are not part of this model.
- DeliveryMachine.Machine.RunThenPromote: promises the original files, not the original directories, because a rollback may leave empty directories that lead to approved files. After a read that misled a recovery it does not promise that no unpublished journal file is left.
- DeliveryMachine.Machine.StopThenRecover: recovery never removes an unpublished journal file, because the program's does not; the next publication does.
- DeliveryStore.DeliverIsStored: assumes an idempotency key that is used for nothing else.
- DeliverySteps.StageKeepsPending: a staged file may be torn in any way, but never damages another file.
- GraphQuery.Impact: at the node limit it does not say which of several nodes at the same distance were kept.
- GraphQuery.ShortestPath: a truncated empty answer says that a limit was used up, not that the target is reachable.
- Ledger.HashPinsHistory: the same canonical bytes, not the same event values, because equality of events beyond their bytes is the serialiser's matter.

# A verified model of the RustRaft engine

This project models the in-process Raft engine of `src/lib.rs` in Dafny and proves what it keeps
over whole runs. It covers six components:

- the **cluster** (modules `ClusterModel`, `Nodes`, `Clusters`): nodes, elections, proposals, the
  commit rule, appends from a remote leader, membership, learner catch-up, snapshot installs,
  compaction, reads, and the records a node writes and restores;
- the **replication pipeline** of a peer (`PipelineModel`, `Pipelines`): bounded queue, inflight
  window, reorder buffer, snapshot transfer;
- the **write-ahead log** (`WalModel`, `LocalWalModel`, `LocalWals`, `WalFileModel`, `WalFiles`,
  `PersistentWalModel`, `PersistentWals`): records, recovery, segment files, rolling and compaction;
- the **snapshot** sender and installer (`SnapshotModel`, `Snapshots`);
- the **state machine adapter** (`FsmModel`, `Fsm`) with idempotent apply, replay and checkpoints;
- **membership**, joint quorums and the **membership executor** (`MembershipModel`,
  `MembershipList`, `ExecutorModel`, `Executors`), and the sequential core of the node **runtime**
  (`Runtimes`).

Every object that the engine updates in place is a class here: the cluster holds maps of node and
pipeline objects, and each method is verified against a function on plain values that gives its
whole new state. The theorems are about those functions, so they hold of the objects; they talk
about sequences of steps (`ClusterRuns.Step`, `PipelineTheorems.Op`, ...) of any length.

Main results, hardest first:

1. a node that crashes with any corrupted end of its log, or at any byte of the record it is
   appending or of the file it is rolling, gets back exactly the persistent state of its last whole record, in memory, through
   the segment files and through the running node (`CrashRecovery`, `RuntimeTheorems`);
2. logs agree over every run, proposals that fail half way included (`LogAgreement`);
3. the commit rule is exact, and an acknowledged entry is on a majority for good exactly when a
   quorum was live at its proposal (`CommitRule`, `Durability`, `ClusterTheorems`);
4. safe reads are fresh in every reachable state, and with no lag allowed they are monotone and
   cover what was committed (`ReadSafety`);
5. a proposal succeeds exactly when every other node that stores entries has room in its pipeline,
   so one follower that stops answering eventually stops every proposal (`Progress`, `Wedge`);
6. every run of the state machine adapter calls the machine with each index until it is accepted
   and never again (`FsmTheorems`);
7. the executor is atomic and keeps a leader, and its reports tell what happened
   (`ExecutorTheorems`, `ExecutorReports`);
8. a snapshot sender that is told the offset of the installer resumes there, and whatever requests
   are lost the snapshot is handed out once (`SnapshotSessions`);
9. over every run of appends the segments keep their limits, and over every run of appends and
   compactions every segment is present or counted as released (`WalLimits`, `WalSteps`);
10. what an election, a step, a response, a transfer or a proposal leaves is stated in terms of the
    nodes and queues alone (`Elections`, `Leases`, `ClusterSteps`, `CatchUpTheorems`,
    `AppendTheorems`, `PipelineSteps`, `Sending`, `SnapshotSteps`).

## Where the engine falls short

These hold of the code as it is. Each names a run or an input, and the condition under which, and
only under which, the expected property holds.

- With fewer live participants than a quorum the commit rule takes the minimum of the live matches,
  so a proposal commits on a minority (`Scenarios.MinorityCommits`); it is on a majority exactly
  when a quorum was live (`ClusterTheorems.AcknowledgedEntriesAreDurable`).
- A follower that was down at a proposal, or that a proposal which failed half way did not reach,
  has a gap in its log, is fully committed, and serves safe reads over the entry it lacks
  (`Scenarios.SafeReadOverGap`); a safe reader holds an acknowledged entry exactly when it was
  healthy and stores entries at the proposal (`ReadSafety.SafeReaderHoldsExactly`).
- Without a leader the lag of a read is not checked, and removing a node can take the commit index
  back (`Scenarios.StaleReadAfterRemoval`); a removal does so exactly when that node alone was at
  the commit index (`CommitRule.RemovalKeepsCommitExactly`).
- Compaction can restart the numbering, so that a committed log id is returned again
  (`Scenarios.CommittedIdIsReused`), exactly when no node keeps the commit index in a snapshot or a
  later entry (`Scenarios.NextIdIsNewExactly`); compaction, or a snapshot that regresses behind the
  commit index, makes the next record of a node unusable exactly when it fails the guard
  (`CrashRecovery.SafeExactlyWhenGuarded`).
- A full follower pipeline is never flushed again, so it stops proposals even after the follower
  heals (`Wedge.FullPipelineStopsProposals`, reached in `Scenarios.ReturnedFollowerStopsProposals`);
  a proposal succeeds exactly when all have room (`Progress.ProposalSucceedsExactly`).
- Truncating recovery recomputes checksums, which turns a corrupt record into a valid one exactly
  when it stands before a valid one in a log with a corrupt end
  (`LocalWalModel.RecoveryKeepsRecordsExactly`).
- A last record without its newline survives reading, but a record appended after it is lost with
  it; that happens exactly when the file does not end in a newline
  (`WalFileModel.AppendAfterReadExactly`).
- Rolling writes the sealed segment file again from its start, so a crash meanwhile loses its
  records, except when at most the last newline is missing (`WalTheorems.CrashInRollKeepsExactly`).
- The sender does not rewind its count of accepted chunks on a rejection
  (`SnapshotTheorems.RejectedSendCanCompleteEarly`); a completed send had every chunk accepted
  exactly when none was accepted twice (`SnapshotTheorems.CompletionMeansAllAcceptedExactly`).
- The words under the checksum do not say whether two of them are a commit or a snapshot
  (`WalSteps.CommitAndSnapshotAreConfused`); between records that both have a commit or both have
  none, a change goes unseen exactly when it touches no covered field
  (`WalSteps.ChecksumDetectsExactly`).
- A first chunk received while a send is going on clears the sending flag, and nothing else sets it
  again before the next send (`SnapshotSteps.FlagsAreExact`).
- Compaction can drop the only record when the active segment is empty, as a crash after a roll
  leaves it (`WalCompaction.EmptyActiveCanLoseAll`); it changes what is recovered exactly when no
  segment that holds a record is kept or goes beyond the index
  (`WalCompaction.CompactionKeepsRecovery`).

## Model

| member | source | states |
|---|---|---|
| Clusters.RaftCluster.Create | src/lib.rs:4077-4131 | construction fails on no peers, on a repeated id and without a voter, and otherwise gives a cluster of fresh, unshared node and pipeline objects in the initial state |
| Clusters.RaftCluster.Start | src/lib.rs:4133-4145 | starting elects the first healthy voter in id order when there is no leader; the running flag is set even when that fails |
| Clusters.RaftCluster.Stop | src/lib.rs:4147-4151 | stopping clears the running flag and the lease, nothing else |
| Clusters.RaftCluster.SetNodeHealthy | src/lib.rs:4157-4171 | changes the health of one node in place and drops the lease exactly when the leader goes down |
| Clusters.RaftCluster.Campaign | src/lib.rs:4177-4220 | the loop over the nodes installs term, vote and role everywhere; every error leaves the whole state as it was |
| Clusters.RaftCluster.TransferLeader | src/lib.rs:4631-4655 | an election of the target, refused when it cannot lead, is down or is behind the commit index |
| Clusters.RaftCluster.ReplicateTo | src/lib.rs:4285-4325 | the loop body of a proposal for one node, pipeline and node objects changed in step; a refused entry changes only the pipeline |
| Clusters.RaftCluster.Propose | src/lib.rs:4262-4330 | the whole proposal over node and pipeline objects, including the early return that leaves the entry on the nodes already served |
| Clusters.RaftCluster.RefreshCommitIndex | src/lib.rs:5193-5213 | sort, index with saturating subtraction, advance every healthy node in place |
| Clusters.RaftCluster.RefreshReplicationPipelines | src/lib.rs:5255-5276 | creates the missing pipelines as fresh objects and acknowledges that of the leader |
| Clusters.RaftCluster.RestoreWalRecord | src/lib.rs:4368-4388 | restores a record into a node in place and refreshes indices and pipelines; a wrong group or node is refused |
| Clusters.RaftCluster.AppendEntriesTo | src/lib.rs:4390-4444 | stale term and missing previous index are refused with the match index as hint; otherwise demote, append, commit |
| Clusters.RaftCluster.AddPeer | src/lib.rs:4682-4706 | adds a fresh node and a pipeline that starts after the last index; refuses a known id |
| Clusters.RaftCluster.PromotePeer | src/lib.rs:4708-4723 | promotes in place unless the node is behind the commit index |
| Clusters.RaftCluster.RemovePeer | src/lib.rs:4730-4741 | drops exactly that node and its pipeline, and the leadership with it |
| Clusters.RaftCluster.LearnerCatchUp | src/lib.rs:4756-4826 | copies snapshot and newer entries from the leader, commits, acknowledges the pipeline and reports the match before and after and whether it caught up; four distinct errors |
| Clusters.RaftCluster.InstallSnapshotTo | src/lib.rs:4856-4886 | installs a snapshot on a node and in its pipeline; wrong group, bad fence and unknown node are refused in that order |
| Clusters.RaftCluster.CompactLogsThrough | src/lib.rs:4926-4934 | compacts every log in place, refreshes the indices and returns how many entries were removed in all |
| Nodes.RaftNode.AppendEntry | src/lib.rs:4018-4027 | the search loop cuts at the first entry with the same index, wherever it is |
| Nodes.RaftNode.RetainAbove | src/lib.rs:4043-4060 | the filter loop keeps exactly the entries above an index, in order |
| Nodes.RaftNode.AdvanceCommit | src/lib.rs:4029-4038 | commit, applied index and hard state after a commit, in place |
| ClusterRuns.ReplicatedNodes | src/lib.rs:4276-4327 | a proposal adds its entry at the end of logs only; when it succeeds, of the leader and the healthy nodes that store entries and of no others |
| ClusterRuns.StepKeepsShape | src/lib.rs:4076-5276 | over every kind of step logs stay ascending with terms up to the current one, only the leader has the leader role, pipelines and nodes have the same ids, no node is past the last index, and entries come only from proposals |
| LogAgreement.LogAgreement | src/lib.rs:4177-4330 | after any run from a new cluster (proposals that fail included, and removals, promotions, catch-up, snapshots and compaction) two nodes agree wherever both hold an index, logs are ordered by index and term, every entry was proposed, entries of one term by one leader |
| LogAgreement.OneProposerPerTerm | src/lib.rs:4177-4220 | the proposals of any run come in term order and those of one term from one leader |
| LogAgreement.EntriesAreProposed | src/lib.rs:4262-4330 | no log holds an entry that no proposal of the run made |
| Ordering.NthLargest | src/lib.rs:5203-5205 | at least n values of a list reach k exactly when k is at most the n-th from the end of the sorted list |
| CommitRule.QuorumIndexIsGreatestBacked | src/lib.rs:5193-5206 | the sorted-and-indexed value is the greatest index that a quorum of live participants has matched, or all of them when fewer are live |
| CommitRule.CommitRuleIsExact | src/lib.rs:5193-5235 | refreshing sets the commit index to the greatest of the old one and the backed ones, changes nothing without live participants, and lowers no node |
| CommitRule.RefreshedReaches | src/lib.rs:5193-5213 | an index is committed after a refresh exactly when it was before or is backed |
| CommitRule.StepCommits | src/lib.rs:5215-5235 | a step keeps the cluster commit index the greatest of the nodes exactly when it does not remove the only node at it, and lowers neither it nor that of any node that stays |
| CommitRule.RemovalKeepsCommitExactly | src/lib.rs:4730-4741 | a removal changes no other node and not the commit index, which stays the greatest of the nodes exactly when nothing is committed or another node is at it |
| CommitRule.StepKeepsNoneAhead | src/lib.rs:5215-5235 | no step at all, removals included, leaves a node with a commit index past that of the cluster |
| Durability.RunCommits | src/lib.rs:5193-5235 | over every run whose removals each leave a node at the commit index, that index stays the greatest of the nodes and never goes down, nor does that of a node that is not removed |
| Durability.CommittedAtOnce | src/lib.rs:4262-4330 | a successful proposal is committed at once exactly when its index already was or the live voters satisfy the commit rule |
| Durability.AcknowledgedEntriesStay | src/lib.rs:4262-4330 | whatever starts, stops, elections, transfers, health changes and proposals follow, exactly the nodes that were healthy and store entries when an id was returned hold the entry |
| ClusterTheorems.AcknowledgedEntriesAreDurable | src/lib.rs:4262-4330 | from a new cluster of voters: an acknowledged entry is committed at once and for good, and is on a majority for good exactly when a quorum was live at its proposal |
| Scenarios.MinorityCommits | src/lib.rs:5204 | a run in which a proposal without a live quorum commits and stays on one of two voters for ever |
| ReadSafety.ReadQuorumIsLiveQuorum | src/lib.rs:4592-4629 | the quorum counted over the membership lists for a read is the live quorum of the nodes |
| ReadSafety.SafeReadIsFresh | src/lib.rs:4499-4576 | exactly when a read is safe; then its index is at least the one asked for and, under a leader, within the allowed lag of the cluster commit |
| ReadSafety.SafeReadsAreFresh | src/lib.rs:4446-4576 | in every state that any steps, removals included, lead to from a new cluster: a safe read is at least at the requested commit and, under a leader, within the allowed lag of the cluster commit |
| ReadSafety.LeaderStaysUnlessRemoved | src/lib.rs:4730-4741 | a step leaves a cluster without a leader exactly when it removes the leader |
| ReadSafety.SafeReadsAreMonotone | src/lib.rs:4446-4576 | with no lag allowed a safe read under a leader returns the cluster commit index, and a later one on any node, after any steps whose removals leave a node at that index, at least as much |
| ReadSafety.SafeReadsFromNewAreMonotone | src/lib.rs:4446-4576 | the same from a new cluster: successive safe reads with no lag return commit indices that never go down |
| ReadSafety.SafeReadCoversProposal | src/lib.rs:4446-4576 | a later safe read with no lag allowed, under a leader and after any such steps, covers every proposal that was committed when it returned |
| ReadSafety.SafeReaderHoldsExactly | src/lib.rs:4018-4027 | over any steps on fixed members a safe read covers the index of a committed proposal, and the reader holds its entry exactly when it was healthy and stores entries at the proposal |
| Scenarios.SafeReadOverGap | src/lib.rs:4018-4027 | a run in which a healed follower with a gap in its log serves a safe read, no lag allowed, over an entry it never got |
| Scenarios.StaleReadAfterRemoval | src/lib.rs:4524-4543 | a run in which, the leader removed, a read with no lag allowed is safe behind the commit index, which the next refresh then lowers |
| Scenarios.CommittedIdIsReused | src/lib.rs:4926-4934 | a run in which compaction without a snapshot makes a proposal return the id of a committed entry again |
| Scenarios.CompactionKeepsNumberingExactly | src/lib.rs:4926-4934 | compaction leaves the last index at or past the commit index exactly when nothing is committed or some node keeps that index in its snapshot or in a last entry beyond the compacted index |
| Scenarios.NextIdIsNewExactly | src/lib.rs:4926-4934 | the id that the next successful proposal returns lies past the commit index exactly then |
| Scenarios.CompactionRestartsIndices | src/lib.rs:4926-4934 | compacting any cluster without snapshots through its last index keeps the commit index and restarts the numbering at 1 |
| CrashRecovery.InstallSafeExactlyWhen | src/lib.rs:4040-4052 | a snapshot leaves applied, commit and match in order exactly when it, or the entries above it, reach the commit index |
| CrashRecovery.CompactSafeExactlyWhen | src/lib.rs:4054-4058 | compaction leaves them in order exactly when it keeps the last entry or the snapshot reaches the commit index |
| CrashRecovery.StepIsSafe | src/lib.rs:4076-5276 | every step that passes those guards keeps every node recoverable and no commit index going down |
| CrashRecovery.SafeExactlyWhenGuarded | src/lib.rs:4040-4058 | a step keeps every node recoverable exactly when it passes its guard |
| CrashRecovery.RecordIsUsable | src/lib.rs:4332-4366 | the record of a recoverable node has a valid checksum, passes every validator and is filed under its commit index |
| CrashRecovery.RestoreGivesRecordedNode | src/lib.rs:4368-4388 | restoring the record of a node gives its hard state, log, snapshot, commit and applied index back and leaves every other node alone |
| CrashRecovery.RestoreRaisesTerm | src/lib.rs:4368-4388 | restoring any record succeeds exactly for a node of the group, which takes it over; the cluster term becomes the greater of the two and never goes down |
| CrashRecovery.ElectionAfterRestoreIsNewer | src/lib.rs:4177-4388 | a restore keeps every node at or below the cluster term, so the next election takes a term newer than that of any node |
| CrashRecovery.CrashRecoveryIsExact | src/lib.rs:2018-2057 | record a node after each successful proposal of a guarded run, corrupt any suffix: recovery keeps exactly the intact records and restoring gives the node its state at the last of them |
| CrashRecovery.DiskRecoveryIsExact | src/lib.rs:2111-2255 | the same through the segment files on disk, with any bytes that hold no record after the last one |
| CrashRecovery.CrashInAppendIsExact | src/lib.rs:2149-2214 | crash the append of the last record at any byte: what is restored is the state at that record when at most its newline is missing, and at the one before otherwise |
| Runtimes.RaftNodeRuntime.Propose | src/lib.rs:6037-6050 | a proposal is followed by the record of this node in the log exactly when it succeeds |
| Runtimes.RaftNodeRuntime.Recover | src/lib.rs:5902-5916 | opening recovers from the directory and restores what was found into the cluster |
| RuntimeTheorems.LogHoldsRecordedStates | src/lib.rs:6037-6050 | the log of a running node is the one that appending the states after its successful proposals makes |
| RuntimeTheorems.RuntimeRecoversExactly | src/lib.rs:5902-6050 | run, crash with bytes that hold no record, reopen, read again, restore: the node has exactly the persistent state it had right after its last successful proposal |
| RuntimeTheorems.RuntimeSurvivesAppend | src/lib.rs:5902-6050 | the same when the crash comes at any byte of the record of the next successful proposal: the state after that one when its record was written whole, newline or not, and after the one before otherwise |
| RuntimeTheorems.RuntimeSurvivesRoll | src/lib.rs:2422-2440 | the same when the crash comes while a roll rewrites the sealed file: the state at the last record that is left, which is the last one exactly when at most the last newline of the file is missing |
| AppendTheorems.ValidateRequest | src/lib.rs:3699-3723 | the validation loop accepts exactly the requests with positive ids and indices whose entries follow the previous index without a hole |
| AppendTheorems.AcceptedAppendIsExact | src/lib.rs:4390-4444 | on a contiguous log an accepted request leaves the old entries up to the previous index and then the new ones; a recoverable node stays so exactly when it had not committed past the last new entry |
| AppendTheorems.AppendIsFollowedExactly | src/lib.rs:4390-4444 | which requests are errors or refused, with nothing changed, and what every other one leaves: term and role of a follower, the log replaced from each entry on and untouched for a witness or without entries, commit and applied index raised to what is matched of the commit of the leader |
| AppendTheorems.AppendIsIdempotent | src/lib.rs:4390-4444 | the same request delivered again is accepted and changes no entry |
| AppendTheorems.RejectionRepairsNext | src/lib.rs:705-716 | after a rejection the pipeline starts the next request right after what the node matched, and only a stale term is then refused |
| AppendTheorems.RefusalChangesNothing | src/lib.rs:4404-4421 | a refused request changes nothing and answers with the match index as hint; an accepted one changes that node only |
| AppendTheorems.PreviousTermIsIgnored | src/lib.rs:4412-4421 | the term of the previous entry has no influence at all |
| Wedge.FullPipelineStopsProposals | src/lib.rs:4297-4305 | once the pipeline of a follower is full, no proposal of another leader ever succeeds again, whatever steps follow short of removing it, even after it heals |
| Wedge.DownFollowerLimitsProposals | src/lib.rs:4297-4313 | while a follower is down, the proposals that succeed and what its pipeline held are together at most twice the inflight limit; at that number it is full |
| Scenarios.ReturnedFollowerStopsProposals | src/lib.rs:4297-4313 | a run from a new pair in which a follower is down for 512 successful proposals and comes back healthy, after which no proposal of another leader ever succeeds, short of removing it |
| Progress.HealthyClusterAcceptsProposals | src/lib.rs:4262-4330 | after any run from a new cluster that takes no node down there is no backlog, and a proposal the leader may make succeeds exactly when its payload is at most 8 MiB or no other node stores entries |
| Progress.ProposalSucceedsExactly | src/lib.rs:4262-4330 | in any state a proposal returns a log id exactly when the leader may make it and the pipeline of every other node that stores entries has room: payload limit, queue depth and memory |
| Progress.IdleTakes | src/lib.rs:594-685 | an idle pipeline takes an entry exactly when it is not too large and sends it at once as a batch of its own |
| Elections.CampaignElectsExactly | src/lib.rs:4177-4220 | a campaign succeeds exactly for a healthy voter of a running cluster, or when forced; then the term is one more, every node is at that term and voted for the winner, the winner alone has the leader role, learners the learner role and the others the follower role, every node has a pipeline and that of the leader is acknowledged; otherwise nothing changes |
| Elections.TransferElectsExactly | src/lib.rs:4631-4655 | a transfer elects its target in the same way exactly when that is a healthy voter that has matched the commit index, whether the cluster runs or not |
| Elections.StartElectsLeast | src/lib.rs:4133-4145 | starting a cluster without a leader elects the healthy voter of least id, and fails exactly when there is none |
| Elections.OlderTermsAreRefused | src/lib.rs:4177-4421 | after an election every node refuses every append of a term up to the one before, and nothing changes |
| Elections.NewClusterVotesOnce | src/lib.rs:4177-4220 | from a new cluster, over any steps that do not remove a node: its term never goes down and at one term its vote stays, and a leader is at the cluster term and voted for itself |
| Leases.LeaseIsExact | src/lib.rs:4147-4220 | a step leaves the lease held exactly when it elects a leader or sets the lease, or when it was held and the step is none of a stop and the leader going down or away |
| Leases.LeaseHeldExactly | src/lib.rs:4147-4220 | after any run the lease is held exactly when some point of the run gained it and nothing after that lost it |
| Leases.ReadIsExact | src/lib.rs:4446-4497 | when a read is refused, when it is safe, what index it returns, and when it rests on the lease |
| Leases.ReadReportIsExact | src/lib.rs:4499-4576 | a read report repeats refusal and index of the read, is safe only when that is, and rests on the lease exactly when both hold |
| Leases.StopIsExact | src/lib.rs:4147-4151 | a stop changes the flags alone; until a start, whatever else happens, no proposal and no unforced campaign succeeds or changes anything |
| Leases.SetHealthyIsExact | src/lib.rs:4157-4171 | setting the health of a node changes that alone, apart from the lease; an unknown node is refused |
| Leases.UpFrontRefusals | src/lib.rs:4262-4284 | the errors of a proposal in their order and that they change nothing; a later refusal by a pipeline still uses up the index |
| ClusterSteps.NewIsExact | src/lib.rs:4077-4131 | a cluster is refused exactly without peers, with a repeated id or without a voter; otherwise every peer has a fresh node of its role and an idle pipeline, and nobody leads |
| ClusterSteps.AddPeerIsExact | src/lib.rs:4682-4701 | a peer is added exactly when its id is unknown, with a fresh node and a pipeline that waits past the last index |
| ClusterSteps.RemovePeerIsExact | src/lib.rs:4730-4741 | a peer is removed exactly when it is known, with node, pipeline and, if it led, leadership and lease; the others stay |
| ClusterSteps.PromoteIsExact | src/lib.rs:4708-4723 | a node is promoted exactly when it has matched the commit index, and then votes and follows, whatever it was |
| ClusterSteps.InstallIsExact | src/lib.rs:4856-4886 | a snapshot is installed exactly when it is of the group, fits its fence and the node is known; the node keeps the entries past it, commits and, serving data, applies it; its pipeline records it; the aggregate indices are those of the nodes again |
| ClusterSteps.ReachedInstallIsExact | src/lib.rs:4856-4886 | this holds in every state that a run from a new cluster reaches |
| ClusterSteps.ReachedIsSound | src/lib.rs:594-942 | in every state that a run from a new cluster reaches the counters of every pipeline agree with its queues and no snapshot transfer is open |
| ClusterSteps.CompactIsExact | src/lib.rs:4926-4934 | compaction leaves of every log the entries past the index, and the number it reports is what the nodes hold less of |
| ClusterSteps.RecordIsExact | src/lib.rs:4332-4366 | the record of a node carries all it keeps, the members by role in id order, and a fence whose first retained index is past the snapshot or that of the first entry |
| ClusterSteps.RestoreRefreshes | src/lib.rs:4368-4388 | after a restore the aggregate indices are those of the nodes and the pipeline of the leader is acknowledged up to the last index |
| CatchUpTheorems.CatchUpIsExact | src/lib.rs:4756-4826 | catching up succeeds exactly for a learner under a leader; it takes a snapshot that is ahead and the entries past what it matches, commits what the cluster has as far as it then matches, and the report tells this |
| CatchUpTheorems.CaughtUpIsPromotable | src/lib.rs:4708-4826 | after catching up, a learner can be promoted exactly when it or the leader had matched the commit index |
| Sending.ProposalIsSent | src/lib.rs:4285-4325 | a successful proposal is queued for every other node that stores entries and sent on in batches of up to 64 entries, none of which could have taken one more; a healthy node acknowledges what it then matches, and for a node that is down everything stays in flight |
| Executors.RaftMembershipExecutor.ExecuteInner | src/lib.rs:5421-5490 | validates, performs, rolls back and reports one operation on the cluster object |
| Executors.RaftMembershipExecutor.ExecuteAll | src/lib.rs:5492-5505 | the loop stops at the first failure and has appended one report per operation tried |
| Executors.RaftMembershipExecutor.ExecuteAllWithRollback | src/lib.rs:5507-5535 | the loop, the restored clone on failure and the flag on the last report |
| ExecutorTheorems.FailureChangesNothing | src/lib.rs:5421-5592 | an operation fails exactly when validation blocks it or the transfer target is down, and then changes nothing |
| ExecutorTheorems.AllOrNothing | src/lib.rs:5507-5535 | with rollback a list succeeds exactly when every operation does in turn, with their joint effect, and otherwise leaves the cluster as it was |
| ExecutorTheorems.ExecutorKeepsLeader | src/lib.rs:5537-5592 | over any list of operations, failed ones included, a voter remains and a cluster with a leader keeps one that is a voter member |
| ExecutorTheorems.QuorumsMeetAcrossOperation | src/lib.rs:5421-5490 | acknowledgements that reached quorum before an operation share a participant with any that reach it after |
| ExecutorTheorems.ExecutorAgreesWithMembershipList | src/lib.rs:4657-4741 | an operation changes the members of the cluster as the membership list type would |
| ExecutorTheorems.ReportedJointQuorum | src/lib.rs:5612-5620 | a report carries a joint membership exactly when the voters changed, and a joint quorum meets every majority on both sides |
| ExecutorReports.ExecuteIsExact | src/lib.rs:5421-5592 | an operation succeeds exactly when the nodes allow it and a new leader is healthy, it has then done just what it names, and otherwise nothing |
| ExecutorReports.ReportsTell | src/lib.rs:5421-5505 | a list of operations leaves one report for each up to the first failure, each telling members, leader, validation, success and joint membership of the state that the operations before it led to |
| ExecutorReports.StopsAtFailure | src/lib.rs:5492-5505 | without rollback the operations before the first failure stay done and none after it is tried |
| ExecutorReports.RollbackIsReported | src/lib.rs:5507-5535 | with rollback the report of the failed operation, and no other, is marked |
| Pipelines.ReplicationPipeline.QueueAppend | src/lib.rs:594-623 | three distinct refusals in order, each counted, or the entry queued |
| Pipelines.ReplicationPipeline.FlushAppendBatch | src/lib.rs:629-685 | the nested loops of a flush in place |
| Pipelines.ReplicationPipeline.HandleAppendResponse | src/lib.rs:687-717 | the response handler in place: release, drain and reset, or back off |
| Pipelines.ReplicationPipeline.ReceiveOutOfOrder | src/lib.rs:747-775 | the reorder buffer in place |
| PipelineTheorems.Conservation | src/lib.rs:594-717 | over any run of pipeline operations the inflight counters are the sums over the inflight queue, the depths the queue lengths, and the bytes held within the limit |
| PipelineTheorems.FlushNeverHitsMemoryGuard | src/lib.rs:629-685 | a flush never trips its own memory guard and stops only with a full window or an empty queue |
| PipelineTheorems.ReleaseIsExact | src/lib.rs:901-917 | releasing drops exactly the batches up to the index from the front, and no saturating subtraction saturates |
| PipelineTheorems.FlushIsFifoPartition | src/lib.rs:629-685 | the batches of a flush and the remaining queue are the old queue in order, each batch within both bounds or a single entry, the window overshot by less than a batch |
| PipelineTheorems.WindowOvershoot | src/lib.rs:629-685 | over every run of operations whose flushes take at most m entries a batch, the entries in flight stay below the inflight limit plus m |
| PipelineTheorems.UnacknowledgedCapacity | src/lib.rs:594-685 | without acknowledgements and with enough memory a new pipeline takes exactly twice its inflight limit |
| PipelineSteps.CountersAreExact | src/lib.rs:594-786 | after any run from a new pipeline each counter is the number of operations its cause refused, or of entries that expired |
| PipelineSteps.BackoffFollowsRejections | src/lib.rs:705-717 | after any run the retry delay is that of the rejections since the last success: 10 ms, doubled each time, up to 5 s |
| PipelineSteps.ResponseIsExact | src/lib.rs:687-717 | a success raises the match index over the buffered entries that follow without a gap, releases the covered batches and clears the back-off; a rejection sets the next index after its hint |
| PipelineSteps.RunIsKeyed | src/lib.rs:594-786 | over any run buffered entries are kept under their own index and the counters agree with the queues |
| PipelineSteps.FlushIsGreedy | src/lib.rs:629-685 | a flush sends only into an open window and until it is full or the queue empty, and no batch could have taken one more entry |
| PipelineSteps.TransferIsExact | src/lib.rs:788-942 | a snapshot transfer begins exactly on an idle pipeline, stays open until the first event that ends it, which installs the snapshot once, and a roll-back restores the pipeline |
| PipelineSteps.FlagsFollowTransfer | src/lib.rs:788-942 | over any run the transfer flags are set exactly while a transfer is open |
| ReorderTheorems.ReorderComputesLongestPrefix | src/lib.rs:747-786 | after any arrivals and expiries the match index is the end of the longest prefix of the live indices and the buffer holds exactly the others |
| ReorderTheorems.ArrivalOrderIrrelevant | src/lib.rs:747-775 | two deliveries of the same indices, in any order and repetition, leave the match index at the same place |
| MembershipList.RaftMembership.QuorumReached | src/lib.rs:1702-1719 | the counting loop decides whether voters and witnesses that acknowledged are a majority |
| MembershipList.RaftMembership.Change | src/lib.rs:1721-1758 | each change of the lists in place, with its errors and the epoch |
| MembershipModel.RunKeepsWellFormed | src/lib.rs:1721-1758 | over any run of changes the lists stay free of duplicates and pairwise disjoint |
| MembershipModel.ChangeIsExact | src/lib.rs:1721-1758 | a change applies exactly from the place it is meant for; its node moves to the end of the list it is meant for, everyone else stays in place and order, and the epoch goes up by one |
| MembershipModel.EpochCountsChanges | src/lib.rs:1721-1758 | over any run the epoch counts the changes that applied |
| MembershipModel.QuorumsMeetAcrossChange | src/lib.rs:1702-1797 | acknowledgements that reached quorum before a change share a participant with any that reach it after |
| MembershipModel.TwoChangesLoseOverlap | src/lib.rs:1735-1747 | two changes are already too many for that |
| MembershipModel.JointQuorumMeetsBothSides | src/lib.rs:1808-1834 | a joint quorum meets every majority of the old and of the new voters |
| LocalWals.LocalRaftWal.Append | src/lib.rs:1948-1987 | appends in place, rolling a full segment, with the checksum recomputed |
| LocalWals.LocalRaftWal.Recover | src/lib.rs:2018-2057 | the truncation loop and the rebuild, in place |
| WalModel.RecoverLatestIsLastBest | src/lib.rs:7137-7164 | recovery fails exactly when there is no usable record after valid ones only, and otherwise returns the last one of greatest committed index |
| WalModel.NewestIsRecovered | src/lib.rs:7137-7164 | with valid, usable records and commits that do not go down the newest is recovered |
| LocalWalModel.RecoverDropsCorruptSuffix | src/lib.rs:2018-2038 | after valid records and a corrupted suffix recovery keeps exactly the valid ones and reports the loss |
| LocalWalModel.RecoveryKeepsRecordsExactly | src/lib.rs:2050-2057 | recovery only drops records from the end exactly when the last record is valid or no corrupt record stands before a valid one: otherwise it seals a corrupt record as valid |
| WalSteps.UsableExactly | src/lib.rs:6975-7038 | the validators accept exactly the records that restore a node with its indices in order |
| WalSteps.RecordIsFiledUnder | src/lib.rs:1948-1987 | the record of a node is filed under its committed index or, without one, under its last entry |
| WalSteps.ChecksumDetectsExactly | src/lib.rs:6921-6951 | with a digest that tells word lists apart, a record changed under its checksum stays valid exactly when all covered fields are the same |
| WalSteps.CommitAndSnapshotAreConfused | src/lib.rs:6921-6951 | two different records, one with a commit and one with a snapshot, that have the same words |
| WalSteps.LocalSegmentsAreNumbered | src/lib.rs:1948-2057 | over any run of appends and recoveries in memory segments are numbered from zero and all but the last are sealed |
| WalLimits.LocalWithinLimits | src/lib.rs:1948-1987 | over any run of appends no segment in memory holds more records than configured |
| WalFiles.ReadSegmentFile | src/lib.rs:2561-2603 | the offset loop over the lines of a segment file, with the truncation |
| WalFileModel.FileRoundTrip | src/lib.rs:2512-2603 | written records and any corrupt tail read back as exactly the records, the file cut to exactly their bytes, and again with nothing cut |
| WalFileModel.ReadIsIdempotent | src/lib.rs:2561-2603 | reading a file that was read before returns the same records and cuts nothing |
| WalFileModel.AppendAfterReadExactly | src/lib.rs:2153-2214 | a record appended to a recovered file is read back after the old ones exactly when the file ends in a newline |
| PersistentWals.PersistentRaftWal.constructor | src/lib.rs:2111-2147 | opening reads every segment file in id order and truncates each |
| PersistentWals.PersistentRaftWal.Append | src/lib.rs:2149-2214 | rolls on record count or byte size, writes one line |
| PersistentWals.PersistentRaftWal.CompactThrough | src/lib.rs:2257-2291 | removes the files and segments it may |
| WalLimits.AppendRollsExactly | src/lib.rs:2149-2214 | an append opens a new segment exactly when its line would be a record too many for the active one or make its file too long |
| WalLimits.RollRepairsFile | src/lib.rs:2422-2440 | an append that opens a new segment leaves a sealed file that reads back as exactly its records, whatever the file held before |
| WalLimits.WrittenWithinLimits | src/lib.rs:2149-2214 | over any run of appends no segment holds too many records and no file with more than one record is too long |
| WalTheorems.AppendKeepsSynced | src/lib.rs:2153-2214 | after an append the files still spell out exactly the segments, which hold the record last |
| WalTheorems.ReopenAfterCrash | src/lib.rs:2111-2147 | reopening after a crash that left a corrupt tail on the active file restores segments and files exactly |
| WalTheorems.ReopenWithAnyTail | src/lib.rs:2111-2147 | whatever bytes a crash leaves after the active file, reopening finds the records that were there and then those the bytes hold |
| WalTheorems.CrashInAppendKeepsRecords | src/lib.rs:2149-2214 | a crash at any byte of an append loses no earlier record, and the new one is found exactly when at most its newline is missing |
| WalTheorems.CrashInRollKeepsExactly | src/lib.rs:2422-2440 | a crash while a roll rewrites the sealed file keeps a prefix of the records, and all of them exactly when at most the last newline of that file is missing |
| WalTheorems.RereadFindsSame | src/lib.rs:2216-2255 | reading an opened directory again finds the same segments |
| WalTheorems.CrashKeepsWrittenRecords | src/lib.rs:2111-2214 | records written to an empty directory are all there after any such crash, followed by what the bytes hold |
| WalCompaction.CompactionDropsOldPrefix | src/lib.rs:2257-2291 | compaction drops a prefix of the records, none above the index, keeps the configured number of segments, and whole segments from the front when none is empty |
| WalCompaction.FencedCompactionIsDurable | src/lib.rs:2293-2324 | under a fence nothing beyond the durably applied index is dropped; a bad fence drops nothing |
| WalSteps.FenceIsExact | src/lib.rs:7040-7071 | a fenced compaction goes ahead exactly when the fence is in order and durable up to the index |
| WalSteps.EverySegmentIsAccounted | src/lib.rs:2149-2324 | over any run of appends and compactions from an empty directory the segments present and those reported as released are all that were opened, and no id is used twice |
| WalCompaction.CompactionKeepsRecovery | src/lib.rs:2257-2291 | the recovered record is the same before and after exactly when there was none or a segment that holds one is among those to keep or goes beyond the index |
| WalCompaction.RecordLeftExactly | src/lib.rs:2257-2291 | compaction leaves a record exactly when such a segment exists |
| WalCompaction.ActiveRecordStays | src/lib.rs:2257-2291 | a record in the active segment is always left |
| WalCompaction.EmptyActiveCanLoseAll | src/lib.rs:2257-2291 | a log that a crash while the second record was appended left with an empty active segment: compaction through the first record drops it, the only one |
| WalCompaction.CompactKeepsSynced | src/lib.rs:2257-2291 | files and segments stay in step when no segment is empty |
| Snapshots.Checkpoint | src/lib.rs:3337-3367 | the chunk loop |
| Snapshots.SnapshotLifecycle.PollSendRequests | src/lib.rs:3406-3436 | the throttled send loop in place |
| Snapshots.SnapshotLifecycle.RecordSendResponse | src/lib.rs:3438-3473 | accepts, rejections and completion in place |
| Snapshots.SnapshotLifecycle.InstallRequest | src/lib.rs:3492-3518 | assembly of an incoming snapshot in place |
| SnapshotTheorems.CheckpointPartitionsPayload | src/lib.rs:3337-3367 | the chunks are consecutive pieces, together the payload, each within the chunk size, only the last marked done |
| SnapshotTheorems.ReassemblyToleratesAnyDelivery | src/lib.rs:3198-3238 | chunks lost, duplicated, reordered, mixed with other snapshots or rolled back: the installer holds a prefix and every snapshot handed out is an original |
| SnapshotTheorems.InOrderDeliveryRebuilds | src/lib.rs:3492-3518 | chunks in order rebuild the snapshot, once |
| SnapshotTheorems.PollIsThrottled | src/lib.rs:3406-3436 | a poll emits at most the configured chunks, and bytes unless it emits one chunk |
| SnapshotTheorems.SenderEmissionBound | src/lib.rs:3369-3490 | any mix of polls, accepts, rejections and timeouts emits at most (retries + 1) times the chunks |
| SnapshotTheorems.CompletionMeansAllAcceptedExactly | src/lib.rs:3438-3490 | whatever the polls, accepts, rejections and timeouts, a send completes exactly when it has counted as many accepts as chunks, and then every chunk was accepted exactly when none was accepted twice |
| SnapshotTheorems.CleanSendCompletesExactly | src/lib.rs:3438-3490 | without rejections chunks go out in order and once, whatever times out; the send is complete exactly when every chunk was accepted while it lasted, and within the retry limit it lasts through every accept |
| SnapshotTheorems.CleanTransferEndToEnd | src/lib.rs:3369-3518 | a send that completes without rejections, delivered in order, hands out exactly the snapshot |
| SnapshotTheorems.RejectedSendCanCompleteEarly | src/lib.rs:3449-3471 | with a rejection the send can complete although a chunk was never accepted |
| SnapshotSessions.RejectionRewindsExactly | src/lib.rs:3438-3473 | a rejection within the budget moves the cursor to the first chunk at or beyond the offset asked for |
| SnapshotSessions.TimeoutKeepsCursor | src/lib.rs:3475-3490 | a time-out within the budget spends a retry and keeps the cursor; beyond it the send is dropped |
| SnapshotSessions.RejectionResumesExactly | src/lib.rs:3406-3473 | a sender told the offset of the installer emits next exactly the chunk the installer takes |
| SnapshotSessions.PollIsGreedy | src/lib.rs:3406-3436 | a poll stops only at the end, at the chunk limit or before a chunk over the byte limit |
| SnapshotSessions.SessionHandsOutExactly | src/lib.rs:3369-3518 | rounds of polls that lose any of their requests and are answered with the offset of the installer hand out the snapshot at most once, and do when enough rounds are clean and the retries last |
| SnapshotSteps.StatusIsTruthful | src/lib.rs:3369-3527 | after any run the status tells of the transfer last begun or received its id, chunks, requests sent, retries, chunks taken, completion and index, and all roll-backs |
| SnapshotSteps.FlagsAreExact | src/lib.rs:3369-3527 | over any run the installing flag is set exactly while chunks are taken, the sending flag exactly while a send goes on that no first chunk from outside interrupted |
| SnapshotSteps.IdleIsExact | src/lib.rs:3369-3527 | a send begins exactly when nothing is going on, at the first chunk; without a send ticks, responses and time-outs change nothing and answer as they do; a roll-back drops what was taken |
| Fsm.FsmAdapter.ApplyEntry | src/lib.rs:2849-2892 | applies an entry once, answers a duplicate from the record, refuses a conflicting term |
| Fsm.FsmAdapter.ReplayEntries | src/lib.rs:2894-2917 | the replay loop with its counts |
| FsmTheorems.EveryRunAppliesOnce | src/lib.rs:2849-2948 | from a new adapter, over every run of applies, replays, checkpoints and installs, the machine was called with exactly the entries offered before their index was accepted, in order; state, applied terms, last applied index and recorded responses are those of these calls, no index accepted twice |
| FsmTheorems.DuplicateIsAnsweredExactly | src/lib.rs:2849-2892 | after any such run an entry whose index was accepted leaves adapter and machine alone: refused with another term, an error when a checkpoint forgot the answer, and otherwise the recorded answer |
| FsmTheorems.EveryRunIsFold | src/lib.rs:2849-2948 | with a machine that never fails the state after any such run is the fold over the first occurrences of the offered indices |
| FsmTheorems.AppliesAndReplaysAreFold | src/lib.rs:2849-2917 | without going back to a checkpoint, any applies and replays of consistent entries leave the fold over the first occurrences of all entries handed in |
| FsmTheorems.ReplayIsFold | src/lib.rs:2894-2917 | a replay reaches the fold over first occurrences and counts exactly |
| FsmTheorems.InstallRestores | src/lib.rs:2919-2948 | installing a checkpoint makes any adapter the one it was taken of, responses apart |
| FsmTheorems.FailedInstallKeepsAnswers | src/lib.rs:2919-2948 | a failed installation keeps what the machine left, and every index applied before is answered as before |
| FsmTheorems.CheckpointThenTailEqualsFullReplay | src/lib.rs:2919-2948 | replay, checkpoint, install and replay of the rest equals one full replay; the rest is accepted exactly when it repeats no index |

## Left out

- Integer width: indices, terms, counters and byte counts are unbounded naturals, so overflow of 64-bit integers is not modelled; saturating subtraction is.
- Transports, the server thread, `ClusterRaftTransport`, and the threads, channels and timers of the runtime: the model has the sequential effects of opening and proposing only.
- Configuration validation: the limits a configuration must meet appear as assumptions where a result needs them.
- `pre_vote`, `lease_read_eligible`, the status, readiness, parity and metric reports, error message text, and counters that no queue depends on.
- `install_snapshot_with_tail_to`: a caller-supplied tail is trusted blindly, so it takes part in no run.
- `install_snapshot_chunk_to` and `checkpoint_snapshot`: they buffer nothing; the snapshot lifecycle is modelled instead.
- `append_entries_to` and `restore_wal_record` are not steps of the runs: a remote leader or a record can bring in anything; what one call does is in AppendTheorems and CrashRecovery.
- The count of catch-up rounds in the catch-up report, which nothing depends on.
- The checksum is an uninterpreted function of the words it covers, which leave out payload contents and members; what it detects is stated for a digest that tells two lists of words apart.
- The JSON encoding of a record is a pair of functions with decode(encode(r)) = r and no newline in an encoding and, where a result says so, no proper prefix of an encoding that decodes, as of a JSON object none does; directories are maps from segment ids to bytes, and fsync and listing are not modelled.
- Methods for the read paths and for building a record, which change nothing: they are the functions ReadPathReport and WalRecordFor of ClusterModel.

# A verified model of the distributed runtime's stateful core

This project models the parts of the runtime that hold state and have to survive failures, and proves what they promise:

- **The durable task registry** (`Wire`, `Hashing`, `Outcomes`, `Frames`, `Tasks`, `Journal`, `Replicas`, `Runs`, `RunsSafety`, `RegistryTheorems`, `Calls`, `Registry`, `Progress`, `Lineage`, `Soundness`, `ScanSoundness`). The disk is a snapshot file, the bytes of a write-ahead log and a synced prefix; replicas have a log and an id map of their own. A run is a sequence of steps (prepare, replicate, commit, snapshot, truncate, crash at any byte, replica reopen), each with its faults as data. The invariant ties memory, bytes and replicas to one committed history. The classes in `Registry` follow `transact_locked` and its callees, and each call is proved to be such a run.
- **The reference control plane** (`Control`, `ControlSafety`, `ControlLeases`, `ControlGrants`, `ControlEntries`, `ControlExample`, `ControlPlane`, `ControlBridge`, `ControlLagging`, `ControlJoint`, `ControlLinks`, `ControlAnswers`). Elections, leases, writes with failing disks, recovery, isolation, grants and reopening over any number of full and witness nodes; safety by quorum intersection; fencing of execution grants; the registry log carried in, and restored from, the control log.
- **The chunk store** (`Content`, `ContentTheorems`, `ContentRemoval`, `ContentStores`), **the audit log** (`Audit`, `AuditRuns`, `AuditEntries`, `Merkle`) and **three parts of the scheduler** (`Capabilities`, `Admission`, `Profiles`).

SHA-256 is an arbitrary function, and so is JSON except that parsing undoes printing. Where a result needs the absence of collisions, its hypothesis names the finite set of inputs on which the hash must be injective. Loops, objects and in-place updates of the source are methods and classes; each is proved against a function whose properties are the theorems.

## What the code does not keep

Each of these has a lemma with the exact condition or a concrete run:

- Recovery refuses its own log when the first body length is 8827 modulo 65536 (`RegistryTheorems.LegacyExactly`, `RegistryTheorems.OwnLogRefused`).
- The frame decoder reads out of bounds on well-signed bodies of 48 to 51 bytes (`Frames.PanicsExactly`).
- A leader that cannot write its own log commits an index twice (`ControlSafety.IndexCommittedTwice`, `ControlExample.IndexTwiceReached`).
- A write that reaches a lagging node leaves a log with a hole (`ControlSafety.PrefixesExactly`). Electing that node and recovering the others from it removes a committed entry from every log (`ControlEntries.TakeoverExactly`, `ControlExample.CommittedEntryLost`), and a reopened cluster then honours a superseded grant (`ControlExample.FencedGrantReturns`).
- Committing through a lagging control node can carry a transaction a second time (`ControlBridge.CommitExactly`), and the restored registry log is then refused (`ControlBridge.RepeatRefused`, `ControlLagging.CommittedThroughLagging`).
- Two full nodes and a witness do not survive every loss of one node: after a committed write that missed one full node, the loss of the other leaves a majority that elects nobody (`ControlLinks.WitnessStalls`, `ControlLinks.StalledStays`); it holds exactly when the witness is not ahead (`ControlLinks.PairSurvivesExactly`).
- Healing one isolated node links it with nodes that are still isolated (`ControlLinks.LinksExactly`).
- Removing a content deletes chunks that uploads in progress have stored (`ContentRemoval.UploadAfterRemoval`).
- Putting the same bytes under a second format returns an id that cannot be read (`ContentTheorems.PutThenRead`, `ContentTheorems.TwoFormats`).
- A failed audit append that landed part of its text makes the log unreadable at once, and one that landed all of it after the next append (`AuditRuns.FailedAppend`, `AuditRuns.OpensExactly`); inclusion proofs check neither index nor height (`Merkle.IndexUnchecked`, `Merkle.HeightUnchecked`).
- A budget at the maximum of its type does not bind (`Admission.TotalBindsExactly`); quantiles sink when their rank computation saturates (`Profiles.TargetExactly`).
- `docs/acceptance/issue-19.md` says that a dangling prepare is truncated. The primary keeps it as the pending transaction, and the model follows the code; only the replica scan truncates it.

## Model

| member | source | states |
|---|---|---|
| Frames.DecodeEncoded | crates/mutsuki-distributed-runtime/src/persistent_registry.rs:1069-1166 | decoding an encoded frame inside any surrounding bytes returns its kind, index, payload and end, or a rejection exactly when the payload exceeds the limit |
| Frames.DecodeTorn | crates/mutsuki-distributed-runtime/src/persistent_registry.rs:1121-1166 | no strict prefix of a frame decodes: a torn write reads as an incomplete tail |
| Frames.ParsesOneWay | crates/mutsuki-distributed-runtime/src/persistent_registry.rs:1069-1166 | a sequence of frames parses in only one way: two sequences with the same bytes are equal |
| Frames.CutShape | crates/mutsuki-distributed-runtime/src/persistent_registry.rs:1121-1166 | every cut of a log is a run of whole frames followed by a strict prefix of one frame |
| Frames.PanicsExactly | crates/mutsuki-distributed-runtime/src/persistent_registry.rs:1138-1160 | the decoder reads out of bounds exactly on well-signed bodies of 48 to 51 bytes, which its length check lets through |
| Frames.PanicExample | crates/mutsuki-distributed-runtime/src/persistent_registry.rs:1138-1160 | a 52-byte input on which the decoder panics, whatever the hash |
| Soundness.DecodesExactly | crates/mutsuki-distributed-runtime/src/persistent_registry.rs:1121-1166 | the decoder returns a frame exactly when that frame's whole encoding, digest included, stands at that place and its payload is within the limit: decoding arbitrary bytes inverts encoding |
| Soundness.FrameLayout | crates/mutsuki-distributed-runtime/src/persistent_registry.rs:1069-1094 | where each field of a frame lies on disk: length, magic, version, kind, zero byte, index, payload length, payload and the digest of what it covers |
| Soundness.RecoveryInventsNothing | crates/mutsuki-distributed-runtime/src/persistent_registry.rs:1179-1337 | for arbitrary bytes that recovery accepts: what it keeps is a sequence of encoded frames, and the image is that of transactions which these frames prepare and later commit, each acceptable after those before it; a pending one is prepared there and acceptable next |
| Soundness.SnapshotSound | crates/mutsuki-distributed-runtime/src/persistent_registry.rs:1495-1515 | a snapshot file that loads is the encoding of exactly one snapshot frame around that snapshot, with its index |
| Soundness.AcceptsExactly | crates/mutsuki-distributed-runtime/src/persistent_registry.rs:1286-1337 | recovery accepts a transaction exactly when it names the image's last id, the next index and its task's version, its id is the hash of its own text, and the records admit its mutation |
| Soundness.AcceptedContinue | crates/mutsuki-distributed-runtime/src/persistent_registry.rs:1286-1337 | whatever bytes recovery accepts, each transaction that it publishes continues the image before it in this way |
| Soundness.SecondPrepareExactly | crates/mutsuki-distributed-runtime/src/persistent_registry.rs:1206-1262 | a second prepare for an open index is taken exactly when it has the same id, and changes nothing |
| Soundness.SnapshotAloneExactly | crates/mutsuki-distributed-runtime/src/persistent_registry.rs:1191-1206 | a snapshot alone recovers to its own image exactly when it has format 1 and no more records than allowed |
| Soundness.SavesExactly | crates/mutsuki-distributed-runtime/src/persistent_registry.rs:1457-1473 | an image is saved exactly when its JSON is within the record limit times the number of records, at least one, and fits a frame |
| Tasks.ApplyKeeps | crates/mutsuki-distributed-runtime/src/persistent_registry.rs:920-1046 | every mutation that is accepted keeps all records well formed (strictly rising attempt numbers, an active attempt exactly in the busy states and it is the last, outputs staged by the newest attempt), lets its target only evolve (terminal states and committed outputs never change) and respects the task limit |
| Calls.CallExactly | crates/mutsuki-distributed-runtime/src/persistent_registry.rs:322-560 | for every public call, without naming the mutation: the exact condition and error of a refusal by durability, state, attempt at work and node; otherwise the target record field by field (state, failure reason, attempts with the new one appended, staged and committed output, quarantined reports) and every other record unchanged; an output is quarantined exactly when it is stale |
| Tasks.PlanShape | crates/mutsuki-distributed-runtime/src/persistent_registry.rs:322-560 | each public call asks for as many copies as the acceptance mode of its task requires, and for syncing exactly outside Fast mode |
| Journal.RunReplay | crates/mutsuki-distributed-runtime/src/persistent_registry.rs:1179-1284 | the replay loop computes the recovery function: image, pending transaction, count and kept length, or the error |
| Journal.ReplayEncoded | crates/mutsuki-distributed-runtime/src/persistent_registry.rs:1206-1262 | replaying bytes is replaying their frames, and a torn frame at the end is never reached |
| Journal.ReplayPairs | crates/mutsuki-distributed-runtime/src/persistent_registry.rs:1206-1262 | any number of prepare and commit frames of a chained history replays to the image of the transactions they commit |
| Journal.RecoverAnyCut | crates/mutsuki-distributed-runtime/src/persistent_registry.rs:1179-1337 | for every byte at which a log is cut, recovery reports no corruption and yields exactly the transactions whose commit frame lies wholly before the cut, with a fully written trailing prepare as pending; the one exception is a log that starts like the legacy format |
| Lineage.SameLastId | crates/mutsuki-distributed-runtime/src/persistent_registry.rs:1418-1430 | two chained histories with the same last id are the same history, unless the hash collides on one of the texts hashed: previous id, index and version in fixed widths, and the mutation |
| Lineage.IdsDistinct | crates/mutsuki-distributed-runtime/src/persistent_registry.rs:1418-1430 | the ids along one chain are pairwise distinct under the same proviso |
| Lineage.SameLastIdSameRegistry | crates/mutsuki-distributed-runtime/src/persistent_registry.rs:1418-1430 | two registries, whatever their runs and crashes, that agree on the last id agree on history, records and versions |
| Replicas.RunScan | crates/mutsuki-distributed-runtime/src/persistent_registry.rs:1360-1416 | the replica's scan loop computes the scan function: the ids found and the length kept |
| Replicas.ScanAnyCut | crates/mutsuki-distributed-runtime/src/persistent_registry.rs:1360-1416 | for every cut of a replica log, the scan keeps exactly the whole pairs before the cut with their ids and drops a dangling prepare, unless a payload exceeds the fixed 65536-byte limit of replicas |
| ScanSoundness.ScanInventsNothing | crates/mutsuki-distributed-runtime/src/persistent_registry.rs:1360-1416 | for arbitrary bytes that the scan accepts: they are encoded frames of at most 65536 payload bytes, each a prepare of its own index or the commit of an id prepared before; the ids found are exactly those of the last commit for each index, and the file is cut at its end or where a prepare starts |
| RunsSafety.StepKeeps | crates/mutsuki-distributed-runtime/src/persistent_registry.rs:647-885 | every step, with every fault, keeps the invariant that ties memory, snapshot, log bytes, synced prefix and replicas to one committed history |
| RunsSafety.EveryRunKeeps | crates/mutsuki-distributed-runtime/src/persistent_registry.rs:647-885 | the invariant holds after every run of prepares, replications, commits, snapshots, truncations, crashes at any byte and replica reopens |
| RunsSafety.SnapshotLoads | crates/mutsuki-distributed-runtime/src/persistent_registry.rs:1457-1520 | loading a snapshot file undoes saving it |
| RunsSafety.SurvivesPrefix | crates/mutsuki-distributed-runtime/src/persistent_registry.rs:1534-1570 | whatever survives a crash is a prefix of the full log of what is known and holds all synced frames |
| RunsSafety.CrashMeans | crates/mutsuki-distributed-runtime/src/persistent_registry.rs:284-320 | what a crash leads to, for every interrupted write and every cut: the state of the whole surviving frames, or a refusal exactly when the bytes look legacy |
| RunsSafety.NeverConflicts | crates/mutsuki-distributed-runtime/src/persistent_registry.rs:146-174 | what a replica has stored at the pending index is the pending transaction itself |
| RunsSafety.ReopenTorn | crates/mutsuki-distributed-runtime/src/persistent_registry.rs:124-140 | a replica that dies after any number of bytes of a pair reopens without the transaction or with all of it |
| RegistryTheorems.FilesAgree | crates/mutsuki-distributed-runtime/src/persistent_registry.rs:1179-1337 | replaying the files of an invariant state gives back exactly its records, versions, index, last id and pending transaction |
| RegistryTheorems.DiskAlwaysAgrees | crates/mutsuki-distributed-runtime/src/persistent_registry.rs:647-787 | after every run, snapshot plus log replay to exactly the live image and pending transaction |
| RegistryTheorems.LegacyExactly | crates/mutsuki-distributed-runtime/src/persistent_registry.rs:1184-1190 | a log that the registry wrote is taken for the legacy format exactly when two of its bytes survive and its first body length is 8827 modulo 65536 |
| RegistryTheorems.OwnLogRefused | crates/mutsuki-distributed-runtime/src/persistent_registry.rs:1184-1190 | a new registry that commits one transaction and restarts on at least two bytes of its log is refused exactly when its prepare body is 8827 bytes modulo 65536 long |
| RegistryTheorems.RefusedExactly | crates/mutsuki-distributed-runtime/src/persistent_registry.rs:1184-1190 | a crash ends in a refused registry exactly under that same condition on the surviving bytes |
| RegistryTheorems.SyncedForever | crates/mutsuki-distributed-runtime/src/persistent_registry.rs:1534-1548 | a synced transaction keeps its place in every continuation: no crash loses it, nothing takes its index, and once committed it stays committed |
| RegistryTheorems.UnsyncedMayVanish | crates/mutsuki-distributed-runtime/src/persistent_registry.rs:836-858 | syncing is necessary: any transaction that does not sync can be committed and then lost to a crash |
| RegistryTheorems.ReplicaAgrees | crates/mutsuki-distributed-runtime/src/persistent_registry.rs:146-174 | every id a replica holds is that of the registry's own transaction at that index, which was a synced one |
| RegistryTheorems.IndexNeverReused | crates/mutsuki-distributed-runtime/src/persistent_registry.rs:146-174 | over all runs with crashes and reopens, what any replica stored at an index is what the registry and every replica hold there at any later time |
| RegistryTheorems.GapRejected | crates/mutsuki-distributed-runtime/src/persistent_registry.rs:1286-1337 | a commit that skips an index is reported as corruption |
| RegistryTheorems.ReplicaReplaysExactly | crates/mutsuki-distributed-runtime/src/persistent_registry.rs:146-174 | a replica's log opens as a registry exactly when it skipped no transaction and does not look legacy, and then holds exactly the registry's first transactions |
| RegistryTheorems.WholeLog | crates/mutsuki-distributed-runtime/src/persistent_registry.rs:1179-1284 | the frames of a whole history replay to that history's image with nothing pending |
| RegistryTheorems.VersionsCountTransactions | crates/mutsuki-distributed-runtime/src/persistent_registry.rs:683-700 | along every chained history the versions of all tasks sum to the log index |
| RegistryTheorems.RecordsEvolve | crates/mutsuki-distributed-runtime/src/persistent_registry.rs:920-1046 | between any two points of a history each record stays well formed and only evolves: attempts are kept in order, terminal states and committed outputs are final |
| RegistryTheorems.ReachableImage | crates/mutsuki-distributed-contracts/src/durability.rs:38-96 | in every run, crashes included, every record has strictly rising attempt numbers, an active attempt exactly in the busy states and it is the last, and a committed output staged by the newest attempt; versions sum to the log index |
| Registry.FileMetadataReplica.Commit | crates/mutsuki-distributed-runtime/src/persistent_registry.rs:146-174 | stores a transaction once, acknowledges a repeat without writing, refuses another id at the same index and changes nothing on a failed write |
| Registry.OpenReplica | crates/mutsuki-distributed-runtime/src/persistent_registry.rs:124-140 | opening on any torn file is the reopen step of the model; it fails exactly when that step closes the replica |
| Registry.PersistentRegistry.PreparePending | crates/mutsuki-distributed-runtime/src/persistent_registry.rs:720-787 | a retry reuses the pending transaction unchanged, another mutation is refused while one is pending, a new prepare opens exactly the drafted transaction and changes no record, version or index; each error is given by the state and the write |
| Registry.PersistentRegistry.Replicate | crates/mutsuki-distributed-runtime/src/persistent_registry.rs:789-833 | asks the replicas without a proof in order, stops as soon as enough have acknowledged, and records a proof for exactly those that did; the run consists of just these asks |
| Registry.PersistentRegistry.CommitLocal | crates/mutsuki-distributed-runtime/src/persistent_registry.rs:674-700 | publishes the pending transaction exactly when its commit frame was written; otherwise everything stays pending |
| Registry.PersistentRegistry.CompactLocked | crates/mutsuki-distributed-runtime/src/persistent_registry.rs:865-885 | image and history never change, whichever of snapshot write and truncation fails; success empties the log |
| Registry.PersistentRegistry.Compact | crates/mutsuki-distributed-runtime/src/persistent_registry.rs:592-605 | refused with no change while a transaction is pending |
| Registry.PersistentRegistry.Conclude | crates/mutsuki-distributed-runtime/src/persistent_registry.rs:674-718 | the answer exactly, from the replicas, the proofs held and the faults: too few acknowledgements, a failed commit write, or a commit, which reports an error only for a lost length; a commit with a working disk leaves no compaction due |
| Registry.PersistentRegistry.Maintain | crates/mutsuki-distributed-runtime/src/persistent_registry.rs:703-708 | compaction runs when it is due: with a working disk and an image that fits its snapshot none is due afterwards; when none is due nothing changes |
| Registry.PersistentRegistry.Transact | crates/mutsuki-distributed-runtime/src/persistent_registry.rs:647-718 | is a run of the step system whose answer is exactly the model's; commits the planned mutation, as the pending transaction if there was one, or leaves records, versions and history alone |
| Registry.PersistentRegistry.Execute | crates/mutsuki-distributed-runtime/src/persistent_registry.rs:322-560 | the answer of every public call, from the state before it and the faults: the objection of its checks, no transaction opened, too few acknowledgements, a failed commit write, or a commit; a commit has exactly the call's effects on the records, carries the required number of proofs from distinct replicas that hold the transaction, and leaves no compaction due |
| Progress.EnoughExactly | crates/mutsuki-distributed-runtime/src/persistent_registry.rs:789-833 | asking in order, skipping who has a proof and stopping early finds enough proofs exactly when enough distinct names would give one |
| Progress.AcknowledgesExactly | crates/mutsuki-distributed-runtime/src/persistent_registry.rs:146-174 | in every reachable state a replica acknowledges the current transaction unless it is down or its write fails; no conflict ever stands in the way |
| Progress.DraftExactly | crates/mutsuki-distributed-runtime/src/persistent_registry.rs:740-770 | a draft is the one genuine transaction for its mutation; without one the call meets the record's own error or the size and counter limits |
| Progress.SettlesExactly | crates/mutsuki-distributed-runtime/src/persistent_registry.rs:674-718 | a prepared transaction commits exactly when enough distinct replicas are up and hold or can write it and the commit write lands; the error says which was missing |
| Progress.NothingFails | crates/mutsuki-distributed-runtime/src/persistent_registry.rs:647-718 | when every write lands and every replica is up, every call without an objection commits, provided its transaction fits and no other is pending |
| Registry.OpenRegistry | crates/mutsuki-distributed-runtime/src/persistent_registry.rs:284-320 | opening on whatever a crash left is the crash step of the model; it fails exactly for invalid options, empty or duplicate names, or a log that looks legacy |
| ControlSafety.QuorumsMeet | crates/mutsuki-distributed-runtime/src/ha_control.rs:166-168 | two majorities of the same nodes share a node |
| ControlSafety.WinnerIsNewest | crates/mutsuki-distributed-runtime/src/ha_control.rs:170-212 | whoever wins an election holds the newest committed entry |
| ControlSafety.NextKeeps | crates/mutsuki-distributed-runtime/src/ha_control.rs:170-261 | every step keeps the invariant of histories, logs, terms, votes and leaders |
| ControlSafety.EveryRunSafe | crates/mutsuki-distributed-runtime/src/ha_control.rs:122-261 | in every run in which leaders' own disks work: each index and epoch is committed once, counting from one, terms never decrease along the history, a quorum and the leader hold the newest entry, the leader's term is the highest, and nodes of one term voted for one candidate |
| ControlSafety.LeaderMustPersist | crates/mutsuki-distributed-runtime/src/ha_control.rs:600-627 | after a successful proposal the leader holds the newest entry exactly when its own write succeeded; otherwise the entry it would propose next has the same index |
| ControlSafety.IndexCommittedTwice | crates/mutsuki-distributed-runtime/src/ha_control.rs:586-627 | of two successful proposals in a row, the second commits the index of the first again exactly when the leader could not write the first to its own log |
| ControlExample.IndexTwiceReached | crates/mutsuki-distributed-runtime/src/ha_control.rs:586-627 | a run of three nodes, one election and two proposals after which two entries are committed at index 1 |
| ControlEntries.TakeoverExactly | crates/mutsuki-distributed-runtime/src/ha_control.rs:170-261 | after an election and the recovery of the nodes in the winner's reach, an entry is on a quorum of logs exactly when the winner's log held it, committed or not |
| ControlEntries.CommittedStays | crates/mutsuki-distributed-runtime/src/ha_control.rs:170-261 | in every disciplined run each committed entry stays on a quorum of logs |
| ControlExample.CommittedEntryLost | crates/mutsuki-distributed-runtime/src/ha_control.rs:183-261 | without the discipline that fails: a run of eight steps after which a committed entry is in no node's log, for any three node names |
| ControlSafety.PrefixesExactly | crates/mutsuki-distributed-runtime/src/ha_control.rs:600-616 | a write keeps every log a prefix of the history exactly when every node that persisted it held the whole history before |
| ControlSafety.LeaderComplete | crates/mutsuki-distributed-runtime/src/ha_control.rs:170-212 | where logs are prefixes, every leader holds the whole history |
| ControlSafety.DisciplinedRunComplete | crates/mutsuki-distributed-runtime/src/ha_control.rs:170-261 | in every run whose writes reach only nodes in step with the leader, all logs are prefixes of the history and every elected leader holds all of it |
| ControlSafety.RecoverAllInStep | crates/mutsuki-distributed-runtime/src/ha_control.rs:241-261 | recovering nodes one by one gives each the leader's log and keeps leader, reachability and the other logs |
| ControlSafety.CaughtUpInStep | crates/mutsuki-distributed-runtime/src/ha_control.rs:241-261 | once all reachable nodes were recovered, the next write is disciplined whichever disks fail |
| ControlSafety.MaxEpochIs | crates/mutsuki-distributed-runtime/src/ha_control.rs:144-149 | the highest epoch found in any log on reopening is the length of the history |
| ControlLeases.WritesExactly | crates/mutsuki-distributed-runtime/src/ha_control.rs:310-341 | in every run a node may write exactly while it leads with a reachable quorum and some lease covers the tick; that lease is never another leader's nor of an earlier term |
| ControlLeases.ElectionRevokes | crates/mutsuki-distributed-runtime/src/ha_control.rs:188-212 | a held election ends every write permission until a lease is renewed |
| ControlGrants.GrantRoundTrip | crates/mutsuki-distributed-runtime/src/ha_control.rs:413-437 | a grant survives its textual record: parsing the logged record returns it |
| ControlGrants.RebuildMeans | crates/mutsuki-distributed-runtime/src/ha_control.rs:939-977 | rebuilding succeeds exactly when every grant record is readable, and yields each task's latest grant |
| ControlGrants.GrantsAlwaysAgree | crates/mutsuki-distributed-runtime/src/ha_control.rs:382-437 | in every disciplined run where only issuing writes grant records, the live grants are what the history says and what reopening from any of the longest logs rebuilds |
| ControlGrants.HonouredExactly | crates/mutsuki-distributed-runtime/src/ha_control.rs:440-452 | a result is honoured exactly while its grant is in time and is the latest one the history holds for its task |
| ControlGrants.IssueSupersedes | crates/mutsuki-distributed-runtime/src/ha_control.rs:400-411 | a fresh grant has a later epoch than every grant of its task issued until then |
| ControlGrants.FencedForever | crates/mutsuki-distributed-runtime/src/ha_control.rs:440-452 | once superseded, a grant is rejected in every later state of a disciplined run, reopened ones included |
| ControlGrants.RebuildsExactly | crates/mutsuki-distributed-runtime/src/ha_control.rs:939-977 | in every safe state, reading a node's log rebuilds the live grants exactly when that log holds the newest grant entry of every task |
| ControlGrants.ReopenKeepsGrantsExactly | crates/mutsuki-distributed-runtime/src/ha_control.rs:122-164 | a reopening keeps the live grants exactly under that condition on the log it reads |
| ControlExample.FencedGrantReturns | crates/mutsuki-distributed-runtime/src/ha_control.rs:939-977 | without the discipline fencing fails: nine steps, the last a reopening, after which a superseded grant is honoured again and the later one is fenced, for any three node names and whichever log is read |
| ControlPlane.HighestTerm | crates/mutsuki-distributed-runtime/src/ha_control.rs:175-181 | the loop finds the highest term of any node |
| ControlPlane.Longest | crates/mutsuki-distributed-runtime/src/ha_control.rs:942-944 | the loop finds the node that `max_by_key` picks: the greatest last index, and of those the last name in key order |
| ControlPlane.HighestEpoch | crates/mutsuki-distributed-runtime/src/ha_control.rs:144-149 | the nested loops find the highest epoch of any entry |
| ControlPlane.Rebuild | crates/mutsuki-distributed-runtime/src/ha_control.rs:945-977 | the loop computes the rebuilt grants or stops at the first unreadable record |
| ControlPlane.ReferenceCftModel.Elect | crates/mutsuki-distributed-runtime/src/ha_control.rs:170-212 | is the election step of the model, votes recorded node by node |
| ControlPlane.ReferenceCftModel.SetAlive | crates/mutsuki-distributed-runtime/src/ha_control.rs:214-222 | is the liveness step; losing the leader ends leadership and lease |
| ControlPlane.ReferenceCftModel.Isolate | crates/mutsuki-distributed-runtime/src/ha_control.rs:224-239 | is the isolation step, link by link, whose effect on reachability the next rows state |
| ControlLinks.IsolateConnects | crates/mutsuki-distributed-runtime/src/ha_control.rs:224-239 | after isolating or healing a node, two nodes are linked exactly when they are the same, or one is that node and it was healed, or neither is and they were linked before |
| ControlLinks.IsolatedAlone | crates/mutsuki-distributed-runtime/src/ha_control.rs:224-239 | an isolated live node reaches itself alone, and every other node reaches what it did before without it |
| ControlLinks.HealedReaches | crates/mutsuki-distributed-runtime/src/ha_control.rs:224-239 | a healed node reaches every live node and every other node reaches it again |
| ControlLinks.AlonePowerless | crates/mutsuki-distributed-runtime/src/ha_control.rs:170-438 | a node cut off from the rest of two or more can neither propose, renew, write, grant nor win an election |
| ControlLinks.IsolatedNeverLeads | crates/mutsuki-distributed-runtime/src/ha_control.rs:170-261 | an isolated node never leads in any run until a link is healed or the cluster reopened |
| ControlLinks.LinksExactly | crates/mutsuki-distributed-runtime/src/ha_control.rs:224-239 | in every run without a reopening two nodes are linked as the last isolation or healing of either says; healing one node therefore links it with nodes that are still isolated |
| ControlLinks.AliveReaches | crates/mutsuki-distributed-runtime/src/ha_control.rs:214-222 | a node that dies leaves everyone's reach, one that returns joins that of the nodes linked with it |
| ControlLinks.ReopenReaches | crates/mutsuki-distributed-runtime/src/ha_control.rs:122-164 | after a reopening all nodes live and reach each other, nobody leads and no lease is held |
| ControlLinks.EveryLeaderFull | crates/mutsuki-distributed-runtime/src/ha_control.rs:170-261 | in every run the leader is a live full node: witnesses vote and never lead |
| ControlLinks.AdmissibleTolerates | crates/mutsuki-distributed-runtime/src/ha_control.rs:122-168 | an admissible cluster that loses any one node keeps a majority with a full node in it, and the majority is the least safe one |
| ControlLinks.Electable | crates/mutsuki-distributed-runtime/src/ha_control.rs:170-212 | a live full node that reaches a majority, none of it with a longer log, wins, with the next term, the leader role and every reachable vote |
| ControlLinks.FullMajorityElects | crates/mutsuki-distributed-runtime/src/ha_control.rs:170-212 | a linked majority of full nodes always has an electable one |
| ControlLinks.PairSurvivesExactly | crates/mutsuki-distributed-runtime/src/ha_control.rs:170-212 | with one full node and the witness left of three, a leader can be elected exactly when the witness is not ahead |
| ControlLinks.StalledStays | crates/mutsuki-distributed-runtime/src/ha_control.rs:170-261 | a cluster whose live majority has no electable node stays exactly as it is, whoever stands for election, until a node or a link comes back |
| ControlLinks.WitnessStalls | crates/mutsuki-distributed-runtime/src/ha_control.rs:170-212 | a reachable such state: two full nodes and a witness, one committed write that missed a full node, and the loss of the other |
| ControlAnswers.AuthorizesExactly | crates/mutsuki-distributed-runtime/src/ha_control.rs:310-341 | reading and local work are always allowed; every write exactly for the leader with a quorum and a lease of its own term that covers the tick |
| ControlAnswers.RenewedWrites | crates/mutsuki-distributed-runtime/src/ha_control.rs:343-360 | a renewed lease lets its leader write exactly from its tick to its saturating end |
| ControlAnswers.ProposesExactly | crates/mutsuki-distributed-runtime/src/ha_control.rs:568-628 | a proposal is committed exactly for the leader with a quorum, a record of at most 65536 bytes and a quorum of working disks, and then stands at the end of exactly those logs; each refusal changes nothing |
| ControlAnswers.IssuesExactly | crates/mutsuki-distributed-runtime/src/ha_control.rs:382-438 | a grant is issued exactly by a leased leader with its quorum, for an attempt and a duration above zero, when its record is committed |
| ControlAnswers.IssuedHonoured | crates/mutsuki-distributed-runtime/src/ha_control.rs:400-452 | a grant as issued names its task, attempt, worker and term, is honoured exactly for its duration and lets exactly its worker go on |
| ControlAnswers.ContinuesExactly | crates/mutsuki-distributed-runtime/src/ha_control.rs:512-525 | work continues exactly for the worker of a grant that is in time and the latest of its task |
| ControlAnswers.DeathEnds | crates/mutsuki-distributed-runtime/src/ha_control.rs:214-222 | the death of the leader ends leadership and lease, and no other change of liveness touches them |
| ControlAnswers.GrantIdsDistinct | crates/mutsuki-distributed-runtime/src/ha_control.rs:428-436 | no two grants of different tasks or epochs share a record id, whatever colons a task's name holds |
| ControlAnswers.RegistryIdsDistinct | crates/mutsuki-distributed-runtime/src/ha_control.rs:715-735 | no two registry transactions with different ids share a record id, and their records are of the global-task kind |
| ControlAnswers.PlusParses | crates/mutsuki-distributed-runtime/src/ha_control.rs:979-987 | a number reads back from its decimal text, with or without a plus sign |
| ControlAnswers.OnlyDigitsParse | crates/mutsuki-distributed-runtime/src/ha_control.rs:979-987 | text without a digit or with any other character is no number |
| ControlAnswers.ForwardsExactly | crates/mutsuki-distributed-runtime/src/ha_control.rs:366-380 | a node forwards a record exactly when it lives and is linked with a leased leader that has its quorum and commits the record |
| ControlAnswers.CommitKeepsGrants | crates/mutsuki-distributed-runtime/src/ha_control.rs:696-745 | carrying a registry transaction leaves every grant alone, live and rebuilt |
| ControlAnswers.RestoresExactly | crates/mutsuki-distributed-runtime/src/persistent_registry.rs:1096-1111 | a control log restores exactly when every transaction that it carries has the id of its own text and fits a frame |
| ControlPlane.ReferenceCftModel.Recover | crates/mutsuki-distributed-runtime/src/ha_control.rs:241-261 | is the recovery step, with an error exactly for an unknown node or an unknown reachable leader |
| ControlPlane.ReferenceCftModel.RenewLease | crates/mutsuki-distributed-runtime/src/ha_control.rs:343-360 | is the renewal step; refused without a quorum or for an empty duration |
| ControlPlane.ReferenceCftModel.Replicate | crates/mutsuki-distributed-runtime/src/ha_control.rs:600-616 | leaves the entry on exactly the targets whose disk accepted it |
| ControlPlane.ReferenceCftModel.Withdraw | crates/mutsuki-distributed-runtime/src/ha_control.rs:617-624 | restores every log when too few nodes persisted the entry |
| ControlPlane.ReferenceCftModel.Propose | crates/mutsuki-distributed-runtime/src/ha_control.rs:568-628 | is the write step: commits with the next index and epoch on a quorum, or changes nothing |
| ControlPlane.ReferenceCftModel.Issue | crates/mutsuki-distributed-runtime/src/ha_control.rs:382-438 | is the grant step: authorization, proposal, then the live map |
| ControlPlane.ReferenceCftModel.Reopen | crates/mutsuki-distributed-runtime/src/ha_control.rs:122-164 | is the reopen step from the log that the code picks; fails exactly for an inadmissible configuration or an unreadable log |
| ControlBridge.CftRegistryReplica.Forward | crates/mutsuki-distributed-runtime/src/ha_control.rs:366-380 | is the forwarding step: a live connected ingress, the leader's lease, then a write |
| ControlBridge.CftRegistryReplica.Commit | crates/mutsuki-distributed-runtime/src/ha_control.rs:696-745 | is the commit step over the control log, with a wrapping tick |
| ControlBridge.CommitExactly | crates/mutsuki-distributed-runtime/src/ha_control.rs:696-745 | when the ingress carries the first k transactions: up to k a commit only compares ids and writes nothing; past k a success adds the transaction to what the history carries, which keeps the numbering exactly for the next index |
| ControlBridge.OthersCarry | crates/mutsuki-distributed-runtime/src/ha_control.rs:568-628 | no other step changes which registry transactions the history carries |
| ControlBridge.RestoreFile | crates/mutsuki-distributed-runtime/src/ha_control.rs:661-688 | the loop writes the restored log or stops at the first bad record |
| ControlBridge.RestoreExactly | crates/mutsuki-distributed-runtime/src/persistent_registry.rs:1096-1111 | a log that carries transactions restores to exactly their prepare and commit frames, in that order |
| ControlBridge.RepeatRefused | crates/mutsuki-distributed-runtime/src/ha_control.rs:661-688 | a log that carries a transaction a second time restores to bytes that recovery refuses |
| ControlBridge.RestoredRegistry | crates/mutsuki-distributed-runtime/src/ha_control.rs:661-688 | in a disciplined run every node's log restores to a registry of the first carried transactions, and the leader's or any longest log to the whole registry |
| ControlLagging.CommittedThroughLagging | crates/mutsuki-distributed-runtime/src/ha_control.rs:696-745 | a run that commits one transaction through the leader and again through a node whose disk had failed: both succeed, the history carries it twice, and the registry log restored from the leader is refused |
| ControlJoint.CftAnswers | crates/mutsuki-distributed-runtime/src/ha_control.rs:696-745 | a commit through a recovered node answers, and stores, exactly as a file replica with the same contents would |
| ControlJoint.EveryJointRun | crates/mutsuki-distributed-runtime/src/ha_control.rs:691-745 | in every orderly run of registry and control plane together, crashes of the registry included, the control log carries exactly what its place among the replicas has acknowledged |
| ControlJoint.JointRestores | crates/mutsuki-distributed-runtime/src/ha_control.rs:661-688 | after every such run the leader's log and any longest log restore to the registry's own first transactions, which open to their image exactly when none was skipped and the bytes do not look legacy |
| ContentTheorems.EveryRunWhole | crates/mutsuki-distributed-runtime/src/content_store.rs:163-338 | however uploads, writes, completions and removals interleave, every committed content keeps all its chunk files and hashes to its digest |
| ContentTheorems.ReadExactly | crates/mutsuki-distributed-runtime/src/content_store.rs:301-320 | a content reads exactly when its id is the committed one of its digest, and then has the named hash and size |
| ContentTheorems.RunReads | crates/mutsuki-distributed-runtime/src/content_store.rs:301-338 | no run without the removal of its own digest changes what a committed content reads |
| ContentTheorems.RemovalExactly | crates/mutsuki-distributed-runtime/src/content_store.rs:322-338 | removing one content leaves every other one readable as before, shared chunks included, and that one unreadable |
| ContentTheorems.JoinPieces | crates/mutsuki-distributed-runtime/src/content_store.rs:137-161 | the pieces of a content concatenate to it |
| ContentTheorems.BuiltValid | crates/mutsuki-distributed-runtime/src/content_store.rs:353-376 | a manifest that is built passes validation |
| ContentTheorems.CompleteExactly | crates/mutsuki-distributed-runtime/src/content_store.rs:218-251 | an upload completes exactly when every piece has its file, and what it commits reads back as the bytes |
| ContentTheorems.AnyOrderCompletes | crates/mutsuki-distributed-runtime/src/content_store.rs:193-251 | chunks written in any order, repeated, interleaved with other uploads and with wrong bytes, complete to the announced content, unless the hash collides on the bytes involved |
| ContentTheorems.PutThenRead | crates/mutsuki-distributed-runtime/src/content_store.rs:253-287 | a put succeeds, stores each new chunk once and counts it and its bytes (the chunk files grow by exactly the bytes reported), and reads back as the bytes exactly when no other format of the same bytes was committed before; otherwise the returned id is unreadable |
| ContentTheorems.TwoFormats | crates/mutsuki-distributed-runtime/src/content_store.rs:253-287 | one byte put under two formats into an empty store: the second put succeeds, changes nothing and returns an id that cannot be read |
| ContentRemoval.FreesExactly | crates/mutsuki-distributed-runtime/src/content_store.rs:322-338 | after the removal of a committed content a chunk file exists exactly when it existed before and another committed content lists it, with the same bytes; uploads stay |
| ContentRemoval.MissingAfterRemoval | crates/mutsuki-distributed-runtime/src/content_store.rs:322-351 | after its removal, an upload of the same content misses exactly the chunks that no other committed content shares |
| ContentRemoval.UploadAfterRemoval | crates/mutsuki-distributed-runtime/src/content_store.rs:322-338 | a removal also takes chunks from uploads in progress: an upload with all its chunks stored still completes exactly when other committed contents list every one of them |
| ContentRemoval.PutThenRemove | crates/mutsuki-distributed-runtime/src/content_store.rs:253-338 | removing what was just put gives back the store as it was, if it held no stray chunk files |
| ContentRemoval.PutThenRemoveEmpty | crates/mutsuki-distributed-runtime/src/content_store.rs:253-338 | a store without files is without files again |
| ContentRemoval.BuildsExactly | crates/mutsuki-distributed-runtime/src/content_store.rs:137-161 | a manifest is built exactly for contents within the chunk limit; chunk i describes the bytes from i times the chunk size on |
| ContentRemoval.ValidatesExactly | crates/mutsuki-distributed-runtime/src/content_store.rs:353-376 | a manifest is valid exactly when it names a SHA-256 content as large as its chunks, which are numbered in order, not empty, within the chunk size and few enough |
| ContentRemoval.DigestExactly | crates/mutsuki-distributed-runtime/src/content_store.rs:470-475 | a digest is 64 hexadecimal digits of either case |
| ContentRemoval.ReportsExactly | crates/mutsuki-distributed-runtime/src/content_store.rs:340-351 | the chunks reported missing are exactly those without a file, unless a file has another size or hash |
| ContentRemoval.TakesExactly | crates/mutsuki-distributed-runtime/src/content_store.rs:193-216 | a chunk is taken exactly when its upload is announced and it has the size and hash of its place, and is stored once |
| ContentRemoval.BeginsExactly | crates/mutsuki-distributed-runtime/src/content_store.rs:163-177 | an upload of committed content is answered from its files; any other valid one is announced, with nothing missing exactly when every chunk has its file |
| ContentRemoval.ReadsVerified | crates/mutsuki-distributed-runtime/src/content_store.rs:301-320 | whatever has happened to the files, content reads exactly when it is committed under this id, every chunk file matches and the whole has the digest |
| Content.MissingNone | crates/mutsuki-distributed-runtime/src/content_store.rs:340-351 | nothing is missing exactly when every chunk has a matching file |
| ContentStores.ContentStore.Build | crates/mutsuki-distributed-runtime/src/content_store.rs:137-161 | the loop computes the manifest of the pieces |
| ContentStores.ContentStore.MissingChunks | crates/mutsuki-distributed-runtime/src/content_store.rs:340-351 | the loop lists the chunks without a file and stops at a mismatch |
| ContentStores.ContentStore.BeginUpload | crates/mutsuki-distributed-runtime/src/content_store.rs:163-177 | is the begin step |
| ContentStores.ContentStore.Write | crates/mutsuki-distributed-runtime/src/content_store.rs:193-216 | is the write step |
| ContentStores.ContentStore.CompleteUpload | crates/mutsuki-distributed-runtime/src/content_store.rs:218-251 | is the completion step, hashing the files in order |
| ContentStores.ContentStore.Put | crates/mutsuki-distributed-runtime/src/content_store.rs:253-287 | is the put of the model, piece by piece |
| ContentStores.ContentStore.Read | crates/mutsuki-distributed-runtime/src/content_store.rs:301-320 | the loop reads and verifies chunk by chunk |
| ContentStores.ContentStore.RemoveContent | crates/mutsuki-distributed-runtime/src/content_store.rs:322-338 | is the removal step, file by file, whose effect on the chunk files `ContentRemoval.FreesExactly` states |
| Audit.OpenLog | crates/mutsuki-distributed-runtime/src/trust_audit.rs:20-60 | the line loop opens to exactly the events of the opening function, or to its error |
| Audit.PersistentAuditLog.Append | crates/mutsuki-distributed-runtime/src/trust_audit.rs:63-120 | is the append step, including bytes that a failed write leaves behind |
| AuditRuns.OpensExactly | crates/mutsuki-distributed-runtime/src/trust_audit.rs:20-120 | after every run of appends with any number of landed bytes, ticks and reopens: the health of the file, tracked from how many bytes each write landed, decides: it opens to exactly the events in memory if and only if intact or joined, is refused if and only if ruined, and otherwise opens to one event more |
| AuditRuns.CleanIntact | crates/mutsuki-distributed-runtime/src/trust_audit.rs:63-120 | runs in which failed writes leave nothing behind keep the file intact |
| AuditRuns.FailedAppend | crates/mutsuki-distributed-runtime/src/trust_audit.rs:108-117 | after a failed append to an intact log the file opens to the log if nothing landed, is refused if part of the text landed, and opens to one event more from the whole text on |
| AuditEntries.AppendsExactly | crates/mutsuki-distributed-runtime/src/trust_audit.rs:63-120 | an append succeeds exactly when its metadata is loggable, the log has fewer than 64 segments of events, the line fits the tick and the write lands; the event then says exactly what was given |
| AuditEntries.ChecksExactly | crates/mutsuki-distributed-runtime/src/trust_audit.rs:262-289 | metadata passes exactly when it is few and short and no key, in lower case, is or ends in a sensitive word |
| AuditEntries.CaseIgnored | crates/mutsuki-distributed-runtime/src/trust_audit.rs:276 | the case of a key does not hide it |
| AuditEntries.CleanRunRecords | crates/mutsuki-distributed-runtime/src/trust_audit.rs:63-120 | in every run without stray bytes, reopenings included, the log says exactly what was acknowledged, in order |
| AuditEntries.AcknowledgedLoggable | crates/mutsuki-distributed-runtime/src/trust_audit.rs:262-289 | nothing sensitive, long or numerous is ever acknowledged |
| AuditEntries.TickBudgetHolds | crates/mutsuki-distributed-runtime/src/trust_audit.rs:101-124 | in every run no more bytes are acknowledged in a tick than budgeted, wherever the budget is below the type's maximum |
| AuditEntries.BlankLinesSkipped | crates/mutsuki-distributed-runtime/src/trust_audit.rs:20-60 | lines of white space are skipped wherever they stand in the file |
| AuditEntries.ReturnsStripped | crates/mutsuki-distributed-runtime/src/trust_audit.rs:20-60 | a line may end in a carriage return and a newline |
| AuditEntries.ZeroBudgetRefused | crates/mutsuki-distributed-runtime/src/trust_audit.rs:20-60 | a budget of zero in any respect is refused before the file is read |
| AuditEntries.FollowsExactly | crates/mutsuki-distributed-runtime/src/trust_audit.rs:201-205 | two segments of one log follow each other exactly when the second has the next id, starts after the first and carries its root |
| Audit.SameHeadSameLog | crates/mutsuki-distributed-runtime/src/trust_audit.rs:236-260 | two valid logs with the same head hash are identical, unless the hash collides on one of their texts |
| Audit.SegmentIs | crates/mutsuki-distributed-runtime/src/trust_audit.rs:126-152 | a segment covers exactly the next events from its start, up to the segment limit |
| Audit.SegmentsPartition | crates/mutsuki-distributed-runtime/src/trust_audit.rs:201-205 | consecutive segments built at last+1 with the previous root are consistent with each other and divide the log's events among them |
| Audit.LogPartition | crates/mutsuki-distributed-runtime/src/trust_audit.rs:126-152 | for every valid log, the segments from the first on cover all of its events |
| Audit.SegmentProves | crates/mutsuki-distributed-runtime/src/trust_audit.rs:154-199 | every event of a segment has a proof that verifies against the segment's root |
| Merkle.ComputeRoot | crates/mutsuki-distributed-runtime/src/trust_audit.rs:292-301 | the loop computes the root of the level-by-level tree |
| Merkle.Prove | crates/mutsuki-distributed-runtime/src/trust_audit.rs:154-184 | the loop collects the siblings of a leaf's ancestors |
| Merkle.GeneratedVerifies | crates/mutsuki-distributed-runtime/src/trust_audit.rs:154-199 | every generated proof has the tree's height, spells its own position by its sides, and verifies |
| Merkle.VerifiedIsLeaf | crates/mutsuki-distributed-runtime/src/trust_audit.rs:186-199 | any proof of the tree's height that folds to the root proves the leaf at the position its sides spell, unless the hash collides between a pair of the tree and one of the proof |
| Merkle.VerifiedIsLeafHashed | crates/mutsuki-distributed-runtime/src/trust_audit.rs:316-318 | the same for the code's own pair hash with its colon, over colon-free leaves and digests and arbitrary proofs, unless the digest itself collides on two of the texts hashed |
| Merkle.IndexUnchecked | crates/mutsuki-distributed-runtime/src/trust_audit.rs:186-199 | the stated leaf index is never read: a valid proof verifies under every other index |
| Merkle.HeightUnchecked | crates/mutsuki-distributed-runtime/src/trust_audit.rs:186-199 | without the tree's height, inner nodes pass as leaves |
| Capabilities.ContainsExactly | crates/mutsuki-distributed-contracts/src/scheduler.rs:86-88 | a mask contains another exactly when it has all of its bits |
| Capabilities.DropLowest | crates/mutsuki-distributed-runtime/src/scheduler.rs:1092-1101 | clearing with v & (v - 1) drops exactly the lowest set bit |
| Capabilities.SetBits | crates/mutsuki-distributed-runtime/src/scheduler.rs:1092-1101 | lists each set bit once, in ascending order, and terminates |
| Capabilities.CapabilityIndex.Upsert | crates/mutsuki-distributed-runtime/src/scheduler.rs:190-227 | keeps the postings exact, replaces the node's snapshot, and refuses invalid or stale ones without change |
| Capabilities.CapabilityIndex.Remove | crates/mutsuki-distributed-runtime/src/scheduler.rs:229-248 | keeps the postings exact and forgets just that node |
| Capabilities.CapabilityIndex.CandidateIdsFor | crates/mutsuki-distributed-runtime/src/scheduler.rs:250-282 | the indexed lookup equals the plain filter of all nodes by capability bits and plugin generation |
| Capabilities.CandidatesExactly | crates/mutsuki-distributed-runtime/src/scheduler.rs:250-282 | a candidate has every required bit and offers the plugin generation that is asked for |
| Admission.LocalAdmissionController.Reserved | crates/mutsuki-distributed-runtime/src/scheduler.rs:683-695 | the saturating fold over the reservations is their exact sum, capped |
| Admission.LocalAdmissionController.Request | crates/mutsuki-distributed-runtime/src/scheduler.rs:606-660 | is the admission step of the model with all its refusals in order |
| Admission.OpenController | crates/mutsuki-distributed-runtime/src/scheduler.rs:577-599 | a controller is refused exactly for a version or total of zero, a reserve beyond its total, or a pressure limit above a hundred |
| Admission.EveryRunFits | crates/mutsuki-distributed-runtime/src/scheduler.rs:606-668 | in every run, reused ids and expiry included, each resource stays within its total and remote work within the total minus the reserve, wherever that limit is below the type's maximum |
| Admission.LocalGuarantee | crates/mutsuki-distributed-runtime/src/scheduler.rs:606-660 | a current, unexpired local request is always accepted while local use plus the request stays within the reserve, whatever the remote load |
| Admission.AdmitsExactly | crates/mutsuki-distributed-runtime/src/scheduler.rs:606-660 | every answer exactly, for requests of either origin: accepted when current and unexpired, under no remote pressure, and every resource has room beside the unexpired reservations, in exact sums although the code saturates |
| Admission.ReleaseFrees | crates/mutsuki-distributed-runtime/src/scheduler.rs:662-668 | a release gives back exactly what the reservation held |
| Admission.EveryRunPressure | crates/mutsuki-distributed-runtime/src/scheduler.rs:601-604 | in every run the pressure is the last one reported, capped at a hundred |
| Admission.TotalBindsExactly | crates/mutsuki-distributed-runtime/src/scheduler.rs:640-656 | a resource fits its total in every run exactly when that total is below the type's maximum: at the maximum the saturating comparison accepts anything |
| Profiles.LatencyBucket | crates/mutsuki-distributed-runtime/src/scheduler.rs:1103-1114 | the halving loop computes the bucket function |
| Profiles.BucketMeans | crates/mutsuki-distributed-runtime/src/scheduler.rs:1103-1118 | a latency is in (2^(b-1), 2^b] for every inner bucket b |
| Profiles.BoundedProfile.Record | crates/mutsuki-distributed-runtime/src/scheduler.rs:60-71 | below saturation the histogram counts the observations exactly |
| Profiles.BoundedProfile.Quantile | crates/mutsuki-distributed-runtime/src/scheduler.rs:73-87 | the loop returns the bound of the first bucket that reaches the rank |
| Profiles.QuantileBounds | crates/mutsuki-distributed-runtime/src/scheduler.rs:73-87 | while the rank asked for is exact, a quantile q is the bound of the true order statistic's bucket: q/2 < x <= q in every inner bucket |
| Profiles.RankExists | crates/mutsuki-distributed-runtime/src/scheduler.rs:73-87 | such an order statistic exists for every rank |
| Profiles.QuantilesOrdered | crates/mutsuki-distributed-runtime/src/scheduler.rs:89-96 | p50 <= p95 <= p99 for every histogram, saturated or not |
| Profiles.TargetExactly | crates/mutsuki-distributed-runtime/src/scheduler.rs:74-79 | the rank asked for is the exact one if and only if samples times numerator is at most the type's maximum rounded up to a multiple of the denominator |
| Profiles.SaturatedExample | crates/mutsuki-distributed-runtime/src/scheduler.rs:73-87 | a hundred million samples, half of them in the first bucket, report that bucket's bound as p99 |

## Left out

- Append rollback (persistent_registry.rs line 1543), the persists of `elect`, `recover` and `open`, and the rollback persist of `propose` are taken to succeed; a registry is reopened with the options it was written with.
- A crash keeps some prefix that includes the synced bytes; reordering inside a file, real fsync, rename and directory semantics are not modelled, nor are lost unsynced chunk files of the content store.
- Offsets inside corruption errors, `last_commit_report`, attempt counters and statistics of the registry.
- UTF-8 validity of payloads and audit lines: text is a sequence of byte-sized characters, and metadata lengths count characters.
- ControlJoint.JointRestores: the control log takes one of the registry's replica places, and the number of proofs a call needs is stated in `Registry` for file replicas only.
- Control plane: executed-but-uncommitted results and `reconcile`, `availability`, `FailureDetector`, leader preference; node files hold the last persisted snapshot.
- Content store: external corruption of files other than what reading verifies, `missing_upload_bytes`, `DataTransferQueue`.
- Audit: `trace_task`, `trace_attempt`, `trace_node`.
- AuditRuns.OpensExactly: takes the capacity of the log to be below the last sequence number, which no log in memory reaches.
- Scheduler: `PlacementScheduler` scoring, telemetry, moving averages, memory peaks and failure ratios of profiles, `remote_load_action`; capability masks are unbounded numbers rather than 128 bits wide, and latencies are real numbers.
- `process.rs`, the control client, host adapters, localization, the trust plane and reputation, `recovery.rs`, `resource_catalog.rs` and the in-memory `Coordinator`: the catalog appears only as answers passed to a call.

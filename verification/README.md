# furrow: verified model

furrow is a content-addressed snapshot store. Objects are appended to a pack of hashed records; a catalog of rows
and checkpoints tells where they are but is only advisory; each workspace has a hash-chained reference log; a
collector marks what is still wanted and compacts the pack; planners, archives, bundles and remote frames work on
whole trees. Almost everywhere a cheap structure that may be lost, stale or cut by a crash must agree with a simple
one that is authoritative. This project models those places and proves the agreement.

Check it with `dafny verify dfyconfig.toml` (Dafny 4.11).

## How it is organised

| files | what they hold | main results |
|---|---|---|
| `Bytes`, `Pack`, `Recovery`, `RecoveryTwice`, `IndexCheck`, `Store` | record format, scan, recovery, the check of the index, and the pack as an object whose methods change it | recovery keeps the longest valid prefix and never a durable byte less; exactly when a second one changes something; what a check that only counts finds |
| `Refs`, `RefLog` | reference frames, the log file with its index | lookups through a damaged index equal a full scan, with the exact exception |
| `Durability`, `StoreRuns`, `CrashRecovery`, `StoreTheorems`, `GroupCommits`, `OlderCommits`, `AnyCommit`, `ForgottenRow`, `OutlivedCommit` | the store as a state machine with group commits, process crashes, power losses and index checks | what is durably published survives every run, readable and in order, also when a power loss brings back a catalog commit of an earlier session, unless that makes recovery trust a wrong checkpoint; exactly when the store opens again, which rows it then has, and what can be read |
| `Model`, `Marking`, `Roots`, `Compaction`, `StoreHealth` | the collector | marks are the least fixpoint; a crash after any step of a compaction loses nothing marked |
| `Paths`, `Merge`, `MergeTrees`, `MerklePlan` | both three-way planners | soundness, symmetry, settling; the exact condition under which the planners agree |
| `Globs`, `Claims` | glob matching and path claims | the matcher is the declarative relation; no path is ever claimed by two holders |
| `Retention`, `Thinning` | retained sequences and the thinning plan | counts and listings are exact; when a thinned snapshot returns |
| `Chunker` | content-defined splitting | boundaries do not depend on reads or refills |
| `BundleFormat`, `Bundle` | the transport format | a bundle is accepted if and only if it is the closure of its snapshot |
| `FileCache` | the catalog's retained rows | memory and table agree over batches, rollbacks and foreign commits |
| `ArchiveScan`, `ArchiveCapture`, `ArchiveRestore`, `ArchiveManifest`, `ArchiveRemainder` | exact capture and restore | a restored tree scans like the captured one; deletions, and only remainders, are recognised |
| `RemoteFrames` | packed frames and pointers | framing inverts, and keys read as the last value written |

The store is modelled for two kinds of power loss at once (`Durability.Env.anyCommit`): one that brings back a catalog
commit made since the store was opened or its index rebuilt, after which every read succeeds at the first attempt, and
one that may bring back any commit ever made, after which a read may need the one retry the code makes. The theorems
about steps and runs hold for both, under one condition on the second: the returning commit must not make recovery trust
a checkpoint that is wrong about the file (`StoreTheorems.Trusts`). Without that condition it is still exact what can
be read (`AnyCommit.AnyLossReadsIff`), and references stay (`AnyCommit.FramesAfterAnyLoss`).

Hashing is a parameter, a function from bytes to 32-byte digests. It is nowhere assumed to be free of collisions in
general; a theorem that needs it says of which values at hand no two may collide. The JSON codec of reference records
is a parameter with `decode(encode(x)) == x`.

## Where the code does less than it promises

Each of these is stated as the code behaves, with a concrete input and, where there is a promise to save, the exact
condition under which it holds.

- A newest-first lookup of references is meant to survive any index, because the index can be rebuilt. It returns an
  error instead when the last index entry belongs to the file, lies inside it, and points at bytes that do not read
  as a frame (`RefLog.StaleIndexWitness`); in all other states the answer is right (`RefLog.RefLogFile.Recent`).
- A group commit samples the length of each log file, and before the first group commit nothing trims a torn log on
  opening. Over a log that ends in a torn frame the frontier then vouches for bytes no repair can keep, and the store
  does not open again (`GroupCommits.TornLogStopsOpening`). The condition is exact for a group commit
  (`GroupCommits.GroupCommitReopensIff`), for each opening (`StoreTheorems.StepSucceedsIff`) and for every state
  (`GroupCommits.OpensIff`); while group commits sample clean logs, opening never fails
  (`StoreTheorems.StepKeepsInv`).
- A second recovery is meant to change nothing. When the first trusts a checkpoint and writes a new one that is not
  trusted again - because it lies past the frontier, or its last object has an earlier row or record
  (`RecoveryTwice.SecondTrustsIff`) - the second reads the pack from its start and may give rows to records of aborted
  batches, or move a row to an earlier record (`RecoveryTwice.AbortedRecordReturns`,
  `RecoveryTwice.SecondRecoveryIff`).
- A catalog commit is not flushed, so a power loss may bring back one from before a process crash, and a durable
  object then has no row (`ForgottenRow.OlderCommitForgets`, a run from an empty store). Which objects keep one, and
  which closures read without a retry, is exact (`OlderCommits.RowReturnsIff`, `OlderCommits.ClosureReturnsIff`). All
  others read back through the retry, because the check cannot miss them (`IndexCheck.AgreesIff`,
  `OlderCommits.OlderCommitHeals`).
- The retry is one to a session, and a read that fails inside a batch uses it up without a repair; an object without a
  row then stays unreadable in that session unless the index is verified by hand (`OlderCommits.RetryIff`, `Store.ActivePack.HealIndex`).
- A commit may come back after the tail of the pack it describes was lost, cut and rewritten. If records of the same
  lengths took the place of the lost ones, recovery trusts it although it is wrong, the check passes, and an object
  below a durably published reference cannot be read (`OutlivedCommit.OutlivedCommitCosts`, a run from an empty store
  with two power losses). It takes the very last record of the lost tail, written again at its old place
  (`AnyCommit.ReplacedCommitIsUntrusted`); over any other record the commit is not trusted, and all the file holds reads
  back (`AnyCommit.ReplacedTailIsRead`). So the promise that published references stay readable holds over every run in which recovery
  trusts no wrong checkpoint (`StoreTheorems.DurablyPublishedForever`). No commit that is right about the pack does that
  (`AnyCommit.StandingCommitIsTrusted`), nor one whose checkpoint lies past the end of the file
  (`AnyCommit.CutCommitIsUntrusted`). When any commit at all comes back, an object can be read exactly if the first
  attempt succeeds or the check finds the index wrong (`AnyCommit.AnyReadIff`, `AnyCommit.AnyLossReadsIff`). The
  references themselves stay (`AnyCommit.FramesAfterAnyLoss`), and a deep verification makes all they reach readable
  again (`AnyCommit.DeepVerifyKeepsDurable`).
- The Merkle planner is meant to compute the flat planner's result. It differs when both sides removed a non-empty
  directory, and when a changed path sorts between a directory and its contents, because only one following key is
  inspected (`MerklePlan.BothRemovedDiffers`, `MerklePlan.OverlookedDiffers`, `MerklePlan.PlanTrees`). For the first
  kind there is one exception that the condition spells out: if such a path shadows the directory on both sides, the
  two faults cancel.
- A snapshot that was thinned out of a plan may be kept again by a later plan (`Thinning.ThinnedSnapshotReturns`,
  `Thinning.ReturnsIff`).
- A read snapshot of the catalog does not refresh the rows in memory, so a lookup inside it may return a row the
  snapshot does not hold (`FileCache.StaleInSnapshot`, `FileCache.SnapshotLookupsIff`). No caller in the repository
  does this: the only use of a read snapshot, the test whether a pack is settled (`furrow-core/src/store.rs:1313-1333`),
  looks no file up.
- A plain remote value that begins with the pointer magic is taken for a pointer (`RemoteFrames.MagicDoesNotRead`,
  `RemoteFrames.PlainValueReads`).

## Model

| member | source | states |
|---|---|---|
| `Pack.ParseEncoded` | furrow-core/src/store.rs:420-501 | A record appended anywhere parses there as the object it was written for, whatever bytes stand before and after it. |
| `Pack.ParsedIsEncoded` | furrow-core/src/store.rs:1400-1478 | The converse: bytes that parse as a complete record are exactly the record of one object, filed under that object's own identifier. |
| `Pack.CutRecordIsTorn` | furrow-core/src/store.rs:1400-1478 | An append interrupted at any byte leaves a torn tail, never something recovery reports as corruption. |
| `Pack.ScanIsLongest` | furrow-core/src/store.rs:1400-1484 | The scan finds the longest run of records: any list of records the pack begins with is a prefix of what the scan lists. |
| `Pack.ScanIsEncoding` | furrow-core/src/store.rs:1400-1484 | What the scan covers is byte for byte the records it lists, so nothing else is kept by recovery. |
| `Pack.DomainSeparates` | furrow-core/src/model.rs:28-36 | What is hashed for an identifier tells the kind and the bytes: no kind's tag with some bytes after it is another's with others. |
| `Pack.RecordIs` | furrow-core/src/store.rs:461-475 | The record format byte by byte, as readers of old packs rely on it. |
| `Pack.TagIs` | furrow-core/src/model.rs:28-36 | The tags hashed before an object's bytes. |
| `Recovery.RecoveryKeepsLongestPrefix` | furrow-core/src/store.rs:1335-1502 | Recovery succeeds if and only if no durable byte lies past the record prefix (without a frontier: only a torn tail may follow); then the file is exactly the longest record prefix. |
| `Recovery.RecoveryRows` | furrow-core/src/store.rs:1372-1484 | Whatever the catalog says: rows inside the trusted prefix stay as they were, every other row comes from a record of the scan, and every scanned record has a row. |
| `Recovery.RecoveryRowsSound` | furrow-core/src/store.rs:1372-1484 | After recovery every row of the pack names a complete record of the kept prefix with its own identifier, kind, place and length. |
| `Recovery.RecoveryCheckpoint` | furrow-core/src/store.rs:1480-1502 | The new checkpoint counts every record of the kept prefix, with or without a row, and no other pack's checkpoint changes. |
| `Recovery.FullCheckpointCounts` | furrow-core/src/store.rs:1504-1555 | A checkpoint written by recovery stays right for the cut file, so that the next recovery may start from it. |
| `Recovery.TrustedIff` | furrow-core/src/store.rs:1504-1555 | Exactly when recovery starts from a checkpoint that counts objects: it lies in the durable prefix, no row of the pack ends past it, and the file holds the header and the end mark that the row of its last object describes. |
| `Recovery.ReplacedTailIsUntrusted` | furrow-core/src/store.rs:1537-1555 | A checkpoint is not trusted when another record than its last stands where that one began. |
| `RecoveryTwice.SecondRecoveryIff` | furrow-core/src/store.rs:1335-1502 | A second recovery changes nothing if and only if the first trusted no checkpoint, or the frontier reaches the end of the records and the last one scanned is new, or up to the trusted checkpoint the first record of every identifier is the one its row names; file and checkpoints never change. |
| `RecoveryTwice.SecondTrustsIff` | furrow-core/src/store.rs:1504-1555 | The checkpoint a recovery writes after trusting one is trusted the next time if and only if the frontier reaches the end of the records and the last record scanned is the first of its identifier, without a row before. |
| `RecoveryTwice.AbortedRecordReturns` | furrow-core/src/store.rs:1362-1376 | A pack, catalog and frontier whose second recovery adds a row: the first writes a checkpoint past the frontier, so the second reads from the start and finds the record of an aborted batch. |
| `IndexCheck.AgreesIff` | furrow-core/src/store.rs:373-393 | The quick check only counts rows, and yet it passes if and only if each record of the counted prefix is the one its identifier's row names: one object without a row, or one second copy, makes it fail. |
| `IndexCheck.MissingRowHeals` | furrow-core/src/store.rs:407-411 | An object of the counted prefix without a row is returned all the same: the failed read finds the index short, has it rebuilt, and the second attempt reads the record. |
| `IndexCheck.ResetFinds` | furrow-core/src/store.rs:394-397 | Rebuilding the index over a pack of whole records succeeds, leaves the pack alone, and gives every recorded object a row that names a record of it. |
| `IndexCheck.StrayRowIsRepaired` | furrow-core/src/store.rs:373-397 | A row that the checkpoint cuts in two, and any row without a checkpoint, makes the check rebuild the index; every row of the pack then names a record. |
| `IndexCheck.CheckLeavesOthers` | furrow-core/src/store.rs:394-397 | Neither check nor rebuild touches rows and checkpoints of other packs. |
| `OlderCommits.RunKeepsNamed` | furrow-core/src/catalog.rs:86-94 | Commits of earlier sessions stay right about the pack through every run without a power loss, process crashes included. |
| `Recovery.SettledNeedsNoRecovery` | furrow-core/src/store.rs:1313-1333 | Whenever a pack is called settled, the locked recovery that is skipped would have changed nothing. |
| `Recovery.LostRowsForgetCaches` | furrow-core/src/store.rs:1350-1375 | If recovery drops the row of an object the capture caches may rely on, it also makes them start anew. |
| `Recovery.NamedReads` | furrow-core/src/store.rs:584-598 | A row that names a record reads back bytes that hash to the identifier asked for, of the kind asked for. |
| `Recovery.ReadIsStored` | furrow-core/src/store.rs:572-598 | Whatever is read lies where the row says, is of the kind asked for, and hashes under that kind's tag to the identifier. |
| `Store.ActivePack.RecoverPack` | furrow-core/src/store.rs:1335-1502 | The recovery loop, with its cut and its row and checkpoint updates, computes the specified recovery, or fails and leaves pack and catalog alone. |
| `Store.ActivePack.ReadRecordsFrom` | furrow-core/src/store.rs:1376-1484 | The loop over offset, count and last object stops exactly where the scan of the pack ends, having met exactly its records. |
| `Store.ActivePack.TruncatePackTail` | furrow-core/src/store.rs:1557-1580 | The tail is cut, with the rows beyond the cut, if and only if no durable byte goes with it. |
| `Store.ActivePack.PutBytesLocked` | furrow-core/src/store.rs:420-501 | Storing an object appends one record and one row, or changes nothing when its row exists; an error leaves the store as it was. |
| `Store.ActivePack.AdvanceCheckpoint` | furrow-core/src/store.rs:1255-1269 | The checkpoint moves over the appended run only where the run continues it. |
| `Store.ActivePack.VerifyIndex` | furrow-core/src/store.rs:373-405 | Checks the index and, if the check fails or a deep pass is asked for, resets and recovers it; it reports whether the check failed, and an error leaves pack and catalog as they were. |
| `Store.ActivePack.HealIndex` | furrow-core/src/store.rs:407-411 | Repairs at most once a session and only while no batch is open; an attempt inside a batch uses the chance up. |
| `Store.ActivePack.ReadBytes` | furrow-core/src/store.rs:572-598 | Returns what the specified read with one retry returns; the retry is used up exactly by a first attempt that fails, and pack and catalog change only if the check found the index short. |
| `Store.PutThenRead` | furrow-core/src/store.rs:413-501 | Whatever was put can be read under its kind, also when its row existed, when another process changed the file, and when the same bytes are stored under another kind; no hash inputs at hand may collide. |
| `Store.PutKeepsRight` | furrow-core/src/store.rs:425-437 | A put leaves rows that name records and, if it wrote, a file of whole records: it never appends behind bytes it has not checked. |
| `OlderCommits.RowReturnsIff` | furrow-core/src/store.rs:1362-1484 | Whichever commit a crash brings back, right or wrong about the pack: an object has a row on opening if and only if its row lies in the prefix of the checkpoint that is trusted, or it has a record past that checkpoint. |
| `OlderCommits.ClosureReturnsIff` | furrow-core/src/store.rs:572-598 | The closure of an object reads back on opening without the retry if and only if each of its objects keeps a row in that sense; unless an older commit makes recovery trust a wrong checkpoint. |
| `OlderCommits.OlderCommitHeals` | furrow-core/src/store.rs:407-411 | After any crash, unless an older commit makes recovery trust a wrong checkpoint: everything reachable from an object in the synced part of the pack reads back as it was given, through the one retry, which the check always grants. |
| `OlderCommits.RetryIff` | furrow-core/src/store.rs:407-411 | Outside a batch an object that can be located reads back if and only if it has a row or the session's retry is not used up. |
| `OlderCommits.OneRetryIsEnough` | furrow-core/src/store.rs:373-411 | Once the index has been checked, everything a reader may look for has a row, so that a session never needs a second retry. |
| `ForgottenRow.OlderCommitForgets` | furrow-core/src/catalog.rs:86-94 | A run from an empty store to a durably published reference below which an object has no row: a batch is aborted, a process crash has the pack rescanned, a snapshot is built on the object and group-committed, and a power loss brings back the catalog from before the rescan. The first attempt to read the object fails and the retry returns it. |
| `OlderCommits.OutlivedCatalogMisleads` | furrow-core/src/store.rs:1504-1555 | A catalog that is trusted although it is wrong: if the tail it describes was lost, cut and replaced by records of the same lengths, the check passes, and an object that the frontier covers cannot be read. |
| `OutlivedCommit.OutlivedCommitCosts` | furrow-core/src/catalog.rs:86-94 | A run from an empty store to a durably published reference, and from there, by a power loss that brings back such a catalog, to a store that opens, keeps the reference, and cannot read an object below it even with the retry; a deep verification then makes all of it readable. |
| `AnyCommit.AnyReadIff` | furrow-core/src/store.rs:572-598 | The exact condition over a whole pack, whatever its catalog says: a recorded object can be read if and only if the first attempt succeeds or the check finds the index wrong. |
| `AnyCommit.AnyLossReadsIff` | furrow-core/src/store.rs:373-411 | After a power loss that brings back any commit at all: an object of the synced part is still recorded, and all that it reaches can be read if and only if every first attempt succeeds or the check finds the index wrong. |
| `AnyCommit.FramesAfterAnyLoss` | furrow-core/src/refs.rs:320-358 | Durably published references stay where they are, in order and on disk, whatever commit a power loss brings back. |
| `AnyCommit.DeepVerifyRestores` | furrow-core/src/store.rs:373-405 | A deep verification makes a store whose catalog is wrong sound again: every recorded object has a right row. |
| `AnyCommit.DeepVerifyKeepsDurable` | furrow-core/src/store.rs:373-405 | No durably published reference is lost for good: after a power loss that brings back any commit, and a deep verification, it is durably published and all that it reaches reads back as it was given. |
| `AnyCommit.StandingCommitIsTrusted` | furrow-core/src/store.rs:1504-1555 | A commit that is right about the written pack never makes recovery trust a wrong checkpoint, whatever a power loss leaves of the pack. |
| `AnyCommit.CutCommitIsUntrusted` | furrow-core/src/store.rs:1504-1555 | Nor does a commit whose checkpoint lies past the end of the file, so that it can do harm only after the pack has grown again. |
| `AnyCommit.ReplacedCommitIsUntrusted` | furrow-core/src/store.rs:1537-1555 | Nor does a commit over whose last record another was written: it can mislead only if its last record is there again. |
| `AnyCommit.ReplacedTailIsRead` | furrow-core/src/store.rs:1362-1484 | After a power loss that brings back such a commit everything the file holds has a row and reads back at the first attempt. |
| `StoreTheorems.FreshStoreOk` | furrow-core/src/store.rs:306-365 | An empty store satisfies the store invariant, so everything below applies to every store from its creation on. |
| `StoreTheorems.StepSucceedsIff` | furrow-core/src/store.rs:1055-1076 | When the store opens again, whichever commit comes back: exactly if the pack recovers and the complete frames of every log that is left reach the length the frontier vouches for; the pack does recover unless an older commit makes recovery trust a wrong checkpoint, and every other step succeeds. |
| `StoreTheorems.StepKeepsInv` | furrow-core/src/store.rs:139-222 | Every step - put, commit, rollback, publish, lookup, index check, each stage of a group commit, process crash, power loss and reopening - succeeds and keeps the invariant, provided a group commit that samples references finds no log with a torn frame. A power loss may bring back any commit ever made, unless it makes recovery trust a wrong checkpoint. |
| `StoreTheorems.RunKeepsInv` | furrow-core/src/store.rs:306-365 | Every state reached from a sound store by steps in any order, with group commits that sampled clean logs, is sound, so that opening cannot fail from it; for either kind of power loss, as long as recovery trusts no wrong checkpoint. |
| `StoreTheorems.StepKeepsBase` | furrow-core/src/store.rs:306-365 | Whatever a group commit sampled, every step that succeeds leaves pack, catalogs, older commits and logs sound, unless an older commit makes recovery trust a wrong checkpoint. |
| `StoreTheorems.DurablyPublishedForever` | furrow-core/src/store.rs:139-222 | Over every run, with crashes and power losses at any point and whatever was sampled: references once on disk with what they need are never removed, reordered or changed, and all that their snapshots reach reads back as the bytes put, as long as no older commit makes recovery trust a wrong checkpoint. Where older commits may come back, references count as published once every frontier covers them, and a read may take its one retry. |
| `StoreTheorems.StepKeepsDurable` | furrow-core/src/store.rs:139-222 | No step that succeeds, and no crash the store opens after, loses or moves a durably published reference, unless an older commit makes recovery trust a wrong checkpoint. |
| `StoreTheorems.CheckedKeepsInv` | furrow-core/src/store.rs:373-411 | Checking the index, and rebuilding it, costs no object and no reference, also beside a group commit. |
| `StoreTheorems.FrontierIsDurable` | furrow-core/src/store.rs:150-222 | Exactly the references at or below the visible frontier are covered by it, and they are durably published: at once, or, where any older commit may come back, when the frontier file is on disk and no other is under way. |
| `StoreTheorems.EverythingIsDurable` | furrow-core/src/store.rs:1028-1045 | Once everything written has reached the disk, every reference is durably published; where any older commit may come back, those that every frontier covers. |
| `GroupCommits.OpensIff` | furrow-core/src/store.rs:1055-1076 | In every reachable state: the store opens whatever crash comes next, unless an older commit makes recovery trust a wrong checkpoint, if and only if in every log the complete frames, as written and as on disk for good, reach what the frontier files vouch for. |
| `GroupCommits.GroupCommitReopensIff` | furrow-core/src/store.rs:150-189 | After a group commit the store opens whatever crash follows, unless an older commit makes recovery trust a wrong checkpoint, if and only if no log ended in a torn frame when it was sampled. |
| `GroupCommits.TornLogStopsOpening` | furrow-core/src/store.rs:1055-1058 | A run from an empty store that ends with a store that does not open: publish, a crash that tears the next frame, open, group commit, a crash that tears nothing. |
| `GroupCommits.GroupCommitCovers` | furrow-core/src/store.rs:139-222 | A group commit can complete from every sound state, and then every reference that existed when it began is durably published, in every log; over clean logs the store is sound again. |
| `GroupCommits.FirstReferenceIsDurable` | furrow-core/src/store.rs:972-1001 | From an empty store, putting, committing, publishing and group-committing a first snapshot leads to a durably published reference. |
| `StoreTheorems.ProcessCrashLosesNothing` | furrow-core/src/refs.rs:320-358 | A process crash of a sound store, in the middle of any append, loses no reference at all, and every reference stays fully readable. |
| `StoreRuns.SampledRefsAreBacked` | furrow-core/src/store.rs:150-189 | Why references are sampled before packs: the pack high water taken afterwards covers the record of every snapshot named by the sampled references. |
| `StoreRuns.PutKeepsInv` | furrow-core/src/store.rs:413-501 | Storing an object whose children have rows keeps the invariant: what a crash can cut off is never a child of what it leaves. |
| `StoreRuns.BatchKeepsInv` | furrow-core/src/store.rs:937-951 | Commit and rollback keep the invariant although a rolled back batch leaves its records in the pack without rows. |
| `StoreRuns.AdvanceKeepsInv` | furrow-core/src/store.rs:238-269 | The checkpoint advanced over an append run counts all records up to it, also those of rolled back batches. |
| `StoreRuns.PublishKeepsInv` | furrow-core/src/store.rs:972-1001 | A reference appended after its catalog commit trims whatever a crash left torn, continues the hash chain and names a stored snapshot. |
| `CrashRecovery.CrashKeepsInv` | furrow-core/src/store.rs:1055-1076 | Opening succeeds and gives a sound store again whenever the frontier ends at frame boundaries; without a frontier logs are left exactly as the crash left them. |
| `CrashRecovery.ReopensIff` | furrow-core/src/store.rs:1055-1076 | Opening succeeds exactly if every log's complete frames reach what the frontier vouches for; the pack never stands in the way. |
| `CrashRecovery.RepairKeeps` | furrow-core/src/refs.rs:320-358 | Where reference repair succeeds it keeps a prefix of the log with every frame that was on disk and begins before the durable length or names a snapshot still there, and every frame it keeps does one or the other. |
| `CrashRecovery.LogAfterCrash` | furrow-core/src/refs.rs:320-358 | Opening keeps a prefix of each log that includes all durable frames: with a frontier the repaired log, without one all frames and whatever is torn behind them. |
| `CrashRecovery.KeptArePresent` | furrow-core/src/refs.rs:320-358 | Under a frontier that ends at frame boundaries every kept frame names a snapshot a reader finds in the recovered pack, with a row unless the frontiers cover the frame. |
| `Durability.ReferencesAreReadable` | furrow-core/src/store.rs:1055-1076 | In every sound state the whole closure of every reference of every log reads back with its original bytes. |
| `Durability.PackReopens` | furrow-core/src/store.rs:1335-1502 | After a crash recovery succeeds, keeps every durable byte and leaves a clean prefix of what had been written. |
| `Durability.RecoveredIsClosed` | furrow-core/src/store.rs:1335-1502 | Children precede parents: whatever a recovered row's object refers to has a recovered row as well, for every commit of the session. |
| `Durability.RecordedIsLocated` | furrow-core/src/store.rs:1335-1502 | Under any commit with which recovery does not trust a wrong checkpoint: every recorded object is found after recovery, by a row or as a counted record below the last row, which the retry restores. |
| `Refs.FrameReadsBack` | furrow-core/src/refs.rs:599-636 | A frame written anywhere in a log reads back there, whatever surrounds it. |
| `Refs.FrameIs` | furrow-core/src/refs.rs:286-295 | The frame format byte by byte. |
| `Refs.FrameTells` | furrow-core/src/refs.rs:286-300 | Each complete record of a log is, byte for byte, a frame with the right checksum, the next number, and the hash of the frame before it, and starts where that one ends. |
| `Refs.ChainAppend` | furrow-core/src/refs.rs:248-304 | Appending the next record extends the chain by exactly that frame. |
| `Refs.ChainOfCut` | furrow-core/src/refs.rs:567-597 | A log cut between two frames holds exactly the frames before the cut. |
| `Refs.UnambiguousIff` | furrow-core/src/refs.rs:599-636 | In a log whose payloads hold no zero byte, no bytes inside it read as a frame of their own if and only if none do from within a frame's forty-byte prefix. |
| `RefLog.RefLogFile.ReadRecords` | furrow-core/src/refs.rs:567-597 | Reading finds every chained record, says whether a torn frame follows, and fails exactly when something other than a torn frame does. |
| `RefLog.RefLogFile.Append` | furrow-core/src/refs.rs:248-304 | A new reference becomes the next record of the chain and the head is not repeated; it fails exactly over a stale index or a record that is too large, and then the records stay. |
| `RefLog.RefLogFile.Recent` | furrow-core/src/refs.rs:181-235 | For a log with a possibly torn tail and any index - missing, torn, behind, damaged inside - the answer is the newest records of a full scan, newest first. It errs if and only if the index is stale in one described way. |
| `RefLog.RefLogFile.ReadRecentIndexed` | furrow-core/src/refs.rs:200-235 | Frames reached through an index of which only the last entry is known to be right are the newest frames of the log, or an error. |
| `RefLog.LinkedIsSuffix` | furrow-core/src/refs.rs:200-235 | Frames read from anywhere that link by their hashes and end with the last frame are the last frames, in order and without gaps. |
| `RefLog.RefLogFile.RecordsAtSequences` | furrow-core/src/refs.rs:145-177 | Whatever is returned is the right record for each sequence, and the call succeeds exactly if the index is not stale and finds every sequence: all where it is rebuilt, otherwise those whose own slot is right and those that follow a last slot in its right place. |
| `RefLog.RefLogFile.EnsureIndex` | furrow-core/src/refs.rs:380-428 | Fails exactly on a stale index; otherwise the log keeps all records, the last index entry is right, and an exact index stays exact. |
| `RefLog.RefLogFile.RebuildIndex` | furrow-core/src/refs.rs:430-437 | Rebuilding succeeds exactly on an intact log and lists every frame. |
| `RefLog.StaleIndexWitness` | furrow-core/src/refs.rs:380-428 | The promise that any index may be rebuilt fails: an intact one-record log and an entry off by one byte make the lookup err. |
| `RefLog.RefLogFile.Repair` | furrow-core/src/refs.rs:320-358 | Repair cuts the log where the specification says, refuses to cut durable bytes, reports whether it cut, and leaves an exact index. |
| `RefLog.RepairsIff` | furrow-core/src/refs.rs:320-358 | Repair succeeds if and only if complete frames reach the durable length, whatever snapshots are present. |
| `RefLog.SampledLengthReopensIff` | furrow-core/src/store.rs:150-189 | A frontier that samples the raw length of a log reopens if and only if complete frames fill the log: over a torn frame no repair can satisfy it. |
| `Marking.MarkDatabase.Traverse` | furrow-core/src/gc.rs:280-340 | Draining the worklist ends, although growing masks queue rows again, and gives the least marks that grant the roots and all they ask for; it succeeds whenever what is reachable is readable. |
| `Marking.TurnAdvances` | furrow-core/src/gc.rs:105-133 | Each turn meets a new object, or gains a class bit, or leaves one fewer pending row. |
| `Marking.MarkDatabase.EnqueueChildren` | furrow-core/src/gc.rs:280-340 | Traversing one object of any kind upserts exactly the links it has under its mask. |
| `Marking.MarkDatabase.Enqueue` | furrow-core/src/gc.rs:94-103 | The upsert unites masks, queues a row again only if a bit is new, and reports whether anything changed. |
| `Marking.LinksMonotone` | furrow-core/src/gc.rs:280-340 | A larger mask never asks for less: the fact that makes re-queuing order irrelevant. |
| `Marking.KeptChunks` | furrow-core/src/gc.rs:280-340 | A chunk is marked if and only if some root wants it: by a walk of trees and a file of a class in that root's mask. |
| `Marking.KeptObjects` | furrow-core/src/gc.rs:280-330 | Which stored objects other than chunks are marked, by what names them: a snapshot that is a root; a tree, a file, a backup or extended attributes that a root's snapshot or a tree below it names, whatever the class. |
| `Marking.KeptAttributes` | furrow-core/src/gc.rs:304-308 | Extended attributes are marked if and only if an entry of a tree that some root reaches has them. |
| `Marking.BelowIsMarked` | furrow-core/src/gc.rs:280-330 | Every page, directory, file, backup and set of extended attributes named below a root is marked under any marks that grant the root. |
| `Marking.WantedChunkIsMarked` | furrow-core/src/gc.rs:280-340 | What one root wants is kept, however little other roots want of the same trees and blobs. |
| `Marking.ExactRootKeepsEveryChunk` | furrow-core/src/gc.rs:216-278 | Below an exact root every chunk of every file is marked. |
| `Marking.ByteMaskKeeps` | furrow-core/src/gc.rs:342-361 | Which classes a snapshot of a given age keeps, including the saturating age arithmetic. |
| `Marking.ByteMaskFades` | furrow-core/src/gc.rs:342-361 | An older snapshot, or a later collection, never keeps more; an exact root never fades. |
| `Roots.MarkReachable` | furrow-core/src/gc.rs:164-278 | Marking from all workspaces gives the least set that grants the roots of every workspace. |
| `Roots.EnqueueRoots` | furrow-core/src/gc.rs:216-278 | The roots are exactly the retained timeline entries of each workspace with the mask of their age, plus heads and pins. |
| `Roots.HeadAndPinsAreExact` | furrow-core/src/gc.rs:216-278 | The head and every pinned record of a workspace are exact roots whatever their age. |
| `Roots.RestoreAndIncomingAreExact` | furrow-core/src/gc.rs:248-275 | Both snapshots of an unfinished restore and the one a sync brings in are roots that keep all bytes. |
| `Roots.RootIsNamed` | furrow-core/src/gc.rs:216-278 | Nothing else is a root: each is a retained record with the mask of its age and standing, one side of a restore, or an incoming snapshot. |
| `Compaction.StoreFiles.Compact` | furrow-core/src/gc.rs:379-458 | Whichever durable step a crash makes the last one, the store stays healthy for every marked object; a completed run leaves exactly the marked objects, unchanged, in one pack with a valid checkpoint and of the projected length; an unreadable object changes nothing. |
| `Compaction.HealthyReopens` | furrow-core/src/gc.rs:379-458 | A healthy store opens with its catalog or with the catalog deleted, reads every wanted object back, and is healthy again. |
| `Compaction.StoreFiles.WritePack` | furrow-core/src/gc.rs:379-421 | The temporary pack holds exactly the objects asked for, in order, with rows that name their records; it fails exactly if one cannot be read. |
| `Compaction.StoreFiles.ActivatePack` | furrow-core/src/store.rs:1202-1229 | Until CURRENT is renamed nothing changes; afterwards the frontier is the old one or covers every pack up to its rows. |
| `Compaction.StoreFiles.SyncFrontier` | furrow-core/src/store.rs:150-222 | A group commit refuses a pack that is shorter than its rows and otherwise records the high water of every pack. |
| `Compaction.StoreFiles.RemoveOthers` | furrow-core/src/gc.rs:447-458 | Only other packs go, each whole; a completed pass leaves the new pack alone. |
| `Compaction.NewPackIsSound` | furrow-core/src/store.rs:1504-1555 | The new pack's checkpoint is one checkpoint validation accepts and recovery may rely on. |
| `Compaction.ProjectionIsExact` | furrow-core/src/gc.rs:363-377 | The dry run's projection is the exact length of the pack that a compaction writes. |
| `Compaction.BeforeSwap` | furrow-core/src/catalog.rs:527-572 | Both before and after the catalog swap, while the old pack is still current, every wanted object can be read with and without the catalog. |
| `Compaction.AfterActivation` | furrow-core/src/store.rs:1202-1229 | Renaming CURRENT, and then the new frontier, keeps the store healthy. |
| `Compaction.AfterRemoval` | furrow-core/src/gc.rs:443-458 | Deleting old packs in any order keeps it healthy. |
| `StoreHealth.SoundIsHealthy` | furrow-core/src/gc.rs:379-458 | Every sound store is healthy for all it stores, so compaction may start from it whatever is marked. |
| `StoreHealth.FirstReferenceIsHealthy` | furrow-core/src/gc.rs:379-458 | Such a store is reached from an empty one, with a snapshot to keep. |
| `Merge.Plan` | furrow-core/src/merge.rs:57-137 | The two passes compute the plan: changes exactly where only the other side changed, conflicts exactly where the sides diverge or a directory was lost under a change, none below a conflict. |
| `Merge.PlanIsUnique` | furrow-core/src/merge.rs:57-137 | These conditions leave exactly one plan. |
| `Merge.EquivalentMeans` | furrow-core/src/merge.rs:392-410 | What the planner takes for the same: two entries that differ in their time stamps at most, or two directories that may differ in their Merkle identity as well. |
| `Merge.MergedEntry` | furrow-core/src/merge.rs:57-137 | Outside conflicts every path follows the side that changed it, in name, kind, mode, size, link target, attributes, class and, for anything but a directory, content; at and below conflicts it stays ours. |
| `Merge.ReportedAs` | furrow-core/src/merge.rs:412-430 | Exactly which paths are reported, and as what: by which sides have an entry, of what kind, and whether a directory was lost on one side while the other changed something below it. |
| `Merge.MergeIsTree` | furrow-core/src/merge.rs:57-137 | A merge without conflicts of well-formed trees is a well-formed tree: every parent is still a directory. |
| `Merge.MergeIsSymmetric` | furrow-core/src/merge.rs:57-137 | Swapping the sides gives the same conflicts and, outside them, the same tree up to equivalence. |
| `Merge.MergeSettles` | furrow-core/src/merge.rs:57-137 | Planning again with the result in our place yields no change and no conflict. |
| `MergeTrees.CollectDelta` | furrow-core/src/merge.rs:252-329 | The descent that skips equal subtrees yields exactly the paths at which the flattened trees are not equivalent, with both entries. |
| `MergeTrees.CollectSubtree` | furrow-core/src/merge.rs:331-363 | An added or removed subtree is recorded path by path, completely. |
| `MergeTrees.CollectReplaced` | furrow-core/src/merge.rs:252-329 | A visited pair that is not two directories yields the differences at the entry and all those below it. |
| `MergeTrees.PairStep` | furrow-core/src/tree.rs:168-234 | Walking two directories in name order, each visited pair adds exactly its own differences. |
| `MerklePlan.DeltaHasDescendant` | furrow-core/src/merge.rs:376-381 | The lookup of one following key finds the next key and says whether it lies below the directory. |
| `MerklePlan.NextIsDescendantIff` | furrow-core/src/merge.rs:376-381 | That shortcut is right exactly when no changed path sorts between the directory and its contents. |
| `MerklePlan.DeltaPass` | furrow-core/src/merge.rs:153-189 | The pass over changed paths alone takes the same changes and finds the same direct conflicts as a pass over all paths. |
| `MerklePlan.DeltasDecide` | furrow-core/src/merge.rs:153-189 | At each path the two deltas determine what the three whole trees determine. |
| `MerklePlan.LostPass` | furrow-core/src/merge.rs:191-234 | The second pass reports exactly the directories one side lost while the other side's delta shows something below them. |
| `MerklePlan.LostInMeans` | furrow-core/src/merge.rs:191-234 | What that report means in terms of the three whole trees. |
| `MerklePlan.PlanTrees` | furrow-core/src/merge.rs:142-244 | The Merkle planner on trees computes the plan of the flattened maps if and only if no non-empty base directory was removed by both sides (with its removals visible to the shortcut) and no lost directory is overlooked. |
| `MerklePlan.MerkleAgreesIff` | furrow-core/src/merge.rs:142-244 | The same for any two plans: they are equal if and only if that condition holds. |
| `MerklePlan.BothRemovedDiffers` | furrow-core/src/merge.rs:202-230 | Concrete well-formed Merkle trees, one directory with one file and two empty sides, on which the two planners give different plans. |
| `MerklePlan.OverlookedDiffers` | furrow-core/src/merge.rs:376-381 | Concrete well-formed Merkle trees on which the planners differ because the shortcut meets a name between a directory and its contents. |
| `MerklePlan.FlatIsTree` | furrow-core/src/tree.rs:101-110 | A flattened well-formed Merkle tree is a tree of paths. |
| `Globs.MatchesPath` | furrow-core/src/claims.rs:264-269 | The memoised matcher accepts a path if and only if the path can be cut into pieces, one for each token of the pattern. |
| `Globs.GlobMatch` | furrow-core/src/claims.rs:271-333 | The memo never leads the matcher astray or out of bounds: the result equals the one without a memo. |
| `Globs.GlobIsSplit` | furrow-core/src/claims.rs:271-333 | The recursive matcher agrees with the declarative meaning of the pattern at every position, including unclosed classes. |
| `Globs.WildcardsMean` | furrow-core/src/claims.rs:271-333 | What `*`, `**` and `?` match. |
| `Globs.NegatedClassMeans` | furrow-core/src/claims.rs:335-355 | `[^x]` and `[!x]` match one byte of a component other than `x`. |
| `Globs.ClassMeans` | furrow-core/src/claims.rs:335-355 | `[x]` and `[a-b]` match one listed byte, never a slash. |
| `Globs.OpenBracketMeans` | furrow-core/src/claims.rs:335-355 | A bracket that is never closed or closes nothing stands for itself. |
| `Globs.ClassifyByte` | furrow-core/src/claims.rs:335-355 | The loop over a bracket class decides membership and the end of the class as specified. |
| `Globs.ScanIsListed` | furrow-core/src/claims.rs:335-355 | Scanning a class left to right computes membership in its listed bytes and ranges. |
| `Claims.LiteralMatchesItself` | furrow-core/src/claims.rs:271-333 | A pattern without wildcards matches itself and nothing else. |
| `Claims.GlobKeepsPrefix` | furrow-core/src/claims.rs:357-370 | Whatever a pattern matches begins with the pattern's literal components. |
| `Claims.SharedPathOverlaps` | furrow-core/src/claims.rs:248-260 | Any two patterns that share a matching path are reported as possibly overlapping. |
| `Claims.OverlapIff` | furrow-core/src/claims.rs:248-260 | The overlap test refuses nothing else: two patterns pass it exactly if they are different paths without wildcards, or part at a component up to which neither has a wildcard. |
| `Claims.WildcardIff` | furrow-core/src/claims.rs:364-366 | The bytes taken for wildcards are exactly those that need not stand for themselves in a pattern. |
| `Claims.ValidPatternIff` | furrow-core/src/claims.rs:228-246 | What may be claimed, told by the text: no control character, and between slashes always something other than one or two dots. |
| `Claims.ControlIff` | furrow-core/src/claims.rs:228-246 | Looking for control characters in the bytes of a UTF-8 text finds exactly the control characters of the text. |
| `Claims.RequestIff` | furrow-core/src/claims.rs:41-60 | Who may claim and for how long, in numbers. |
| `Claims.Registry.Claim` | furrow-core/src/claims.rs:41-107 | A claim is granted, returned as already held, refused as invalid, or refused over an existing claim of another holder that is named; it is granted whenever every other holder's claim parts from it, and expired claims never count. |
| `Claims.Registry.Active` | furrow-core/src/claims.rs:109-126 | Lists exactly the claims that have not expired, and forgets the others. |
| `Claims.Registry.Release` | furrow-core/src/claims.rs:128-159 | Releases exactly the selected claims of the owner, and fails if there are none or the owner is invalid. |
| `Claims.Registry.ReleaseWorkspace` | furrow-core/src/claims.rs:185-196 | Removes exactly the claims of a workspace and counts them. |
| `Claims.StepKeepsExclusive` | furrow-core/src/claims.rs:41-196 | No operation makes two holders hold possibly overlapping patterns. |
| `Claims.RunKeepsExclusive` | furrow-core/src/claims.rs:41-196 | The same for every sequence of operations from an empty registry. |
| `Claims.NoSharedPath` | furrow-core/src/claims.rs:248-269 | In every reachable registry no path is matched by claims of two different holders. |
| `Claims.ClaimProtects` | furrow-core/src/claims.rs:41-196 | From its grant until its time is over or its holder lets it go, whatever anyone does meanwhile, no other holder is granted a pattern that shares a path with it. |
| `Retention.RetainedCount` | furrow-core/src/retention.rs:87-105 | The count is the number of sequences kept by range, pin or newness, although ranges and pins overlap. |
| `Retention.RecentSequences` | furrow-core/src/retention.rs:121-155 | The listing is strictly decreasing and is exactly the largest kept sequences, as many as exist up to the limit. |
| `Retention.FillHeap` | furrow-core/src/retention.rs:125-136 | The heap covers exactly the kept sequences. |
| `Retention.Pop` | furrow-core/src/retention.rs:138-155 | The largest interval is taken and nothing else is lost or added. |
| `Thinning.PlanState` | furrow-core/src/retention.rs:269-320 | The planned ranges denote exactly the sequences the policy keeps, in as few ranges as possible. |
| `Thinning.SortIntoBuckets` | furrow-core/src/retention.rs:269-311 | Each bucket ends with its newest record, and the exempt records and the head are set aside. |
| `Thinning.CompressSequences` | furrow-core/src/retention.rs:322-337 | The ranges cover exactly the given sequences, ordered and with gaps between them. |
| `Thinning.PlannedIsValid` | furrow-core/src/retention.rs:444-464 | A planned state whose pins name records of the log passes the validation applied on reading. |
| `Thinning.DroppedIsRepresented` | furrow-core/src/retention.rs:282-311 | Every thinned record is represented by a kept record of its own bucket that is newer. |
| `Thinning.PolicyIs` | furrow-core/src/retention.rs:269-311 | The policy in seconds: everything for a day, then the newest of each hour for a week, of each day for ninety days, and of each week; the newest record and pinned ones always stay. |
| `Thinning.OneStays` | furrow-core/src/retention.rs:269-311 | Of two records in the same slot only one stays, unless one is pinned or the newest of all. |
| `Thinning.ReturnsIff` | furrow-core/src/retention.rs:269-311 | A thinned record returns at a later evaluation if and only if every newer record of its later time slot has by then left its tier's age range or is pinned. |
| `Thinning.ThinnedSnapshotReturns` | furrow-core/src/retention.rs:269-311 | A concrete log on which a thinned snapshot returns: once thinned is not always thinned. |
| `Thinning.StaysThinned` | furrow-core/src/retention.rs:269-320 | A record stays thinned whenever all members of its bucket share its later tier, because hours divide days and days divide weeks. |
| `Chunker.ChunkStream.NextChunk` | furrow-core/src/chunker.rs:30-78 | The next chunk is the first chunk of the remaining bytes by a pure function of them, however the reader splits its reads and whenever the buffer is refilled. |
| `Chunker.ChunkStream.AllChunks` | furrow-core/src/chunker.rs:30-78 | Draining the stream gives the chunks of the whole remaining input. |
| `Chunker.ChunkStream.TakeRun` | furrow-core/src/chunker.rs:49-70 | Scanning within one buffer stops exactly at the first boundary of the input. |
| `Chunker.ChunksRebuild` | furrow-core/src/chunker.rs:30-78 | The chunks join to the input, none is empty or larger than the maximum, and only the last may be smaller than the minimum. |
| `Chunker.ChunkEndsIff` | furrow-core/src/chunker.rs:36-70 | Where a chunk ends: at the first length from the minimum on whose hash is a multiple of twice the average, or of half of it from the average on, else at the maximum or the end of the input. |
| `Chunker.RollIs` | furrow-core/src/chunker.rs:55-57 | How the hash goes on: every byte turns it by one bit and adds its own number. |
| `Chunker.RaritiesAre` | furrow-core/src/chunker.rs:38-39 | The two divisors in that condition are twice the average chunk and half of it. |
| `Chunker.AppendKeepsChunks` | furrow-core/src/chunker.rs:30-78 | Appending to an input changes none of its chunks except the last: why a grown file shares its chunks. |
| `BundleFormat.BundleReadsBack` | furrow-core/src/bundle.rs:14-35 | A written bundle reads back as its snapshot and its objects. |
| `BundleFormat.BundleIsWritten` | furrow-core/src/bundle.rs:37-133 | Whatever reads as a bundle is byte for byte the bundle written for what it says: nothing may trail or hide. |
| `BundleFormat.BundleIs` | furrow-core/src/bundle.rs:14-35 | The transport format byte by byte. |
| `Bundle.AcceptsIff` | furrow-core/src/bundle.rs:135-204 | The lock-step worklist accepts a run of objects if and only if it lists each object the snapshot reaches exactly once, after something that mentions it. |
| `Bundle.ForEachReachable` | furrow-core/src/bundle.rs:135-167 | Visits the closure of a snapshot exactly once, discovery first, and succeeds if and only if the whole closure is readable. |
| `Bundle.Export` | furrow-core/src/bundle.rs:14-35 | Exports exactly when the closure is complete, and the bundle lists exactly the closure. |
| `Bundle.ImportRecords` | furrow-core/src/bundle.rs:37-125 | Accepts exactly the acceptable streams; what it filed up to an error is a beginning of the recorded objects. |
| `Bundle.Import` | furrow-core/src/bundle.rs:37-133 | Accepts exactly the bundles that list what their snapshot reaches, adds exactly those objects, leaves the snapshot's whole closure present, and never changes an object the store had. |
| `Bundle.ExportThenImport` | furrow-core/src/bundle.rs:14-133 | What one store exports every store that agrees with it imports, and the snapshot arrives with its closure. |
| `FileCache.Catalog.CachedFile` | furrow-core/src/catalog.rs:241-283 | A lookup returns the row the connection's view of the table holds; inside a read snapshot, where memory is not refreshed, the row memory holds for a workspace that is in memory. |
| `FileCache.Catalog.CacheFile` | furrow-core/src/catalog.rs:316-355 | Leaves the table as if the row had been written, also when the identical write is skipped: a lookup of the row returns it, and every other lookup what it did before. |
| `FileCache.Catalog.RefreshFileCache` | furrow-core/src/catalog.rs:291-302 | Memory is dropped exactly when another connection committed since. |
| `FileCache.Catalog.EndBatch` | furrow-core/src/catalog.rs:383-407 | Only the outermost batch commits; after an error or a failed commit table and memory are coherent again. |
| `FileCache.SnapshotLookupsIff` | furrow-core/src/catalog.rs:370-378 | Inside a read snapshot all lookups in a workspace give the snapshot's rows if and only if the workspace is not in memory or is held as the snapshot has it. |
| `FileCache.StaleInSnapshot` | furrow-core/src/catalog.rs:370-378 | A run of the catalog's operations in which a read snapshot is handed a row it does not hold. |
| `ArchiveScan.Scan` | furrow-core/src/archive.rs:235-253 | The scan lists every path once, in path order, each with its metadata and the first name of its file. |
| `ArchiveScan.Walk` | furrow-core/src/archive.rs:254-355 | The depth-first walk adds exactly the subtree, and the link table always names the first path met of each file. |
| `ArchiveScan.ScansAgree` | furrow-core/src/archive.rs:235-253 | A workspace has exactly one scan. |
| `ArchiveScan.EntryTells` | furrow-core/src/archive.rs:254-355 | What an entry says of its path: kind, metadata, size, link count, link target, the digests of its chunks in order, and the first listed name of its file. |
| `ArchiveCapture.Capture` | furrow-core/src/archive.rs:448-503 | A capture is the scan, with all content stored; it is refused only over a file with a name outside or over a digest that is taken by something else. |
| `ArchiveCapture.GroupCheckIsExact` | furrow-core/src/archive.rs:448-503 | The comparison of group sizes with link counts passes if and only if no file has a name outside the workspace. |
| `ArchiveCapture.GroupsAreFiles` | furrow-core/src/archive.rs:448-503 | Two captured paths are in one hard-link group if and only if they are names of one file. |
| `ArchiveCapture.AddChunk` | furrow-core/src/archive.rs:184-205 | A chunk is accepted if and only if its digest is free or already stands for the same bytes. |
| `ArchiveRestore.CapturedIsValid` | furrow-core/src/archive.rs:370-398 | Everything a scan lists has the structure a restore asks for: the root first, parents and link targets earlier, no path twice. |
| `ArchiveManifest.ValidateManifest` | furrow-core/src/archive.rs:358-426 | The one pass over a manifest, with its table of paths and its running sums, accepts exactly the valid ones: structure, path lengths, metadata, and the limits on entries, references, attributes and logical size. |
| `ArchiveManifest.LimitsAre` | furrow-core/src/archive.rs:358-446 | The limits a manifest keeps to, in numbers, with paths measured as they are written. |
| `ArchiveManifest.ScannedIsValidIff` | furrow-core/src/archive.rs:358-426 | A scanned workspace can fail the checks only by its limits and metadata, never by its structure. |
| `ArchiveManifest.CaptureManifest` | furrow-core/src/archive.rs:448-503 | A stored capture has passed the checks of a restore and keeps to the byte budget; it fails only over a name elsewhere, a digest that is taken, a limit or the budget, and then no chunk stays behind. |
| `ArchiveRestore.Restore` | furrow-core/src/archive.rs:611-763 | Restoring a captured manifest rebuilds the workspace it was captured from - paths, contents, link targets, modes, times, attributes, link counts and which names share a file - so the final comparison never fails. |
| `ArchiveRestore.RebuiltScansAlike` | furrow-core/src/archive.rs:668-719 | Once all metadata is set, the rebuilt tree has the same scan, with hard-link groups, link counts and directory times. |
| `ArchiveRestore.RebuiltIsSame` | furrow-core/src/archive.rs:668-719 | A mirror of the source with all metadata set is the same workspace but for the numbers of its files. |
| `ArchiveRestore.CreateEntry` | furrow-core/src/archive.rs:624-667 | Creating entries in order keeps a growing mirror of the source, with the same names sharing files. |
| `ArchiveRestore.SetModesAndTimes` | furrow-core/src/archive.rs:689-712 | The last pass sets every mode and time and disturbs none that was set, directories and shared files included. |
| `ArchiveRestore.ReadContent` | furrow-core/src/archive.rs:206-234 | Stored chunks read back as the content of the file. |
| `ArchiveRestore.CaptureThenRestore` | furrow-core/src/archive.rs:448-763 | Any workspace a capture accepts is rebuilt as it was, and both scan alike. |
| `ArchiveRemainder.VerifyRemainder` | furrow-core/src/archive.rs:766-827 | Accepts a tree if and only if it holds only captured, unchanged entries, hard-linked among the survivors as captured, with no links outside. |
| `ArchiveRemainder.CheckRemainder` | furrow-core/src/archive.rs:766-827 | The mapping between old and new groups, kept both ways in one pass, decides whether the two partitions agree. |
| `ArchiveRemainder.DeletionIsRemainder` | furrow-core/src/archive.rs:766-827 | Every tree obtained by deleting entries, each costing its file one link, from a workspace without outside links is accepted. |
| `ArchiveRemainder.OwnerAccessMeans` | furrow-core/src/archive.rs:789 | The one other mode a kept directory may have: the captured one with read, write and search for its owner. |
| `RemoteFrames.DecodeWriteFrame` | furrow-core/src/remote.rs:933-969 | The cursor loop accepts exactly the well-formed frames and finds each value's place. |
| `RemoteFrames.FrameReadsBack` | furrow-core/src/remote.rs:396-417 | A frame of valid values decodes exactly when it holds no more than a batch, and then to those values. |
| `RemoteFrames.FrameIsWritten` | furrow-core/src/remote.rs:933-969 | Whatever decodes is byte for byte the frame of the values found; nothing may trail. |
| `RemoteFrames.FrameIs` | furrow-core/src/remote.rs:396-417 | The formats of a frame and of a pointer byte by byte. |
| `RemoteFrames.ListedKeyReads` | furrow-core/src/remote.rs:980-1050 | After a packed frame is stored, each listed key reads as the last value framed for it. |
| `RemoteFrames.OtherKeyReads` | furrow-core/src/remote.rs:980-1050 | Every other key reads as before, also where it points into an earlier frame. |
| `RemoteFrames.FramesAreOutOfReach` | furrow-core/src/remote.rs:804-825 | No valid key names a stored frame, so later writes cannot disturb one. |
| `RemoteFrames.KeysAreShort` | furrow-core/src/remote.rs:804-878 | Every valid key fits the length limit of a frame entry. |
| `RemoteFrames.ObjectKeyIff` | furrow-core/src/remote.rs:786-825 | The valid keys below `objects/` are exactly the sharded hexadecimal identifiers. |
| `RemoteFrames.RefKeysIff` | furrow-core/src/remote.rs:804-842 | The head and lease keys of a reference are valid if and only if its name is. |
| `RemoteFrames.RefKeysApart` | furrow-core/src/remote.rs:827-842 | No two references share a head or a lease key, and no head key is a lease key. |
| `RemoteFrames.ValidRefIff` | furrow-core/src/remote.rs:855-879 | Names of references, told by the text: at most 80 letters, digits, dots, dashes, underscores and slashes, and between slashes always something other than one or two dots. |
| `RemoteFrames.AllowedIff` | furrow-core/src/remote.rs:794-802 | How much may be stored under a key, in bytes. |
| `RemoteFrames.WritePackedFrame` | furrow-core/src/remote.rs:980-1015 | The payload is stored once under its hash, a pointer stands under every listed key, and nothing else changes. |
| `RemoteFrames.PlainValueReads` | furrow-core/src/remote.rs:1017-1050 | A value written plainly reads back if and only if it does not begin with the pointer magic, or is a pointer to the place in a stored frame where it lies itself. |
| `RemoteFrames.ReadsWithinLimit` | furrow-core/src/remote.rs:1017-1050 | A read never returns more than its limit, whether plain or through a pointer. |
| `RemoteFrames.MagicDoesNotRead` | furrow-core/src/remote.rs:1017-1050 | One value that does not read back: the magic alone. |

## Left out

Deliberately weaker than the source's full behaviour:

- StoreTheorems.DurablyPublishedForever: no power loss of the run may bring back a commit of an earlier session that makes recovery trust a wrong checkpoint (`StoreTheorems.RunTrusts`); `OutlivedCommit.OutlivedCommitCosts` is a run where one does, and the promise fails. One pack is active throughout (compaction is proved separately) and one process writes at a time. A power loss before the first frontier file exists is not modelled, although a reference published without deferral has pack and log flushed by then (`furrow-core/src/store.rs:972-990`, `furrow-core/src/refs.rs:296-298`). What follows the synced bytes of a file may be anything except a complete record or chained frame that was never written. A read that takes the retry is the first to fail in its session, outside a batch (`OlderCommits.RetryIff` says what happens otherwise).
- StoreTheorems.StepKeepsInv: under the same condition on the commit a power loss brings back (`StoreTheorems.Trusts`), and on what may follow the synced bytes of a file.
- StoreTheorems.StepKeepsBase: under the same two conditions.
- StoreTheorems.RunKeepsInv: under the same two conditions, for each power loss of the run.
- StoreTheorems.StepKeepsDurable: under the same two conditions.
- OlderCommits.ClosureReturnsIff: under the same two conditions.
- OlderCommits.OlderCommitHeals: under the same two conditions.
- GroupCommits.OpensIff: "whatever crash" is any crash under the same two conditions.
- GroupCommits.GroupCommitReopensIff: likewise.
- Durability.RecordedIsLocated: the condition is `Durability.Reliable`, that what recovery trusts is right.
- AnyCommit.AnyLossReadsIff: any commit may come back, but the checkpoint recovery then trusts must end where a record of the file ends (`AnyCommit.TrustsBoundary`); a payload that holds a copy of a record header could make it end elsewhere. What reads back is known to have the identifier and kind asked for.
- AnyCommit.FramesAfterAnyLoss: where the store opens again (`StoreTheorems.StepSucceedsIff`).
- AnyCommit.DeepVerifyKeepsDurable: under the condition of `AnyLossReadsIff`.
- RefLog.RefLogFile.Recent: no two frames of the log share a hash, and no bytes inside the log read as a frame that is not one of its frames; an index entry that led into such bytes would be followed. `Refs.UnambiguousIff` says what the second comes to for records written as text.
- RefLog.RefLogFile.ReadRecentIndexed: under the same two conditions.
- RefLog.RefLogFile.RecordsAtSequences: no bytes inside the log read as a frame that is not one of its frames.
- Compaction.StoreFiles.Compact: a process crash only; the catalog either survives or is missing. A catalog rolled back to before the swap after the old packs are gone is not repaired by the source either. Rows are inserted as one set, not in slices of 1024, and counters do not saturate at 64 bits.
- Marking.MarkDatabase.Traverse: the next pending row is any one, where the source takes the smallest identifier; no object may refer to itself, which a hash rules out.
- MerklePlan.PlanTrees: trees are values whose identities distinguish the subtrees being compared; paging of large directories is abstracted.
- Claims.Registry.Claim: which of several conflicting claims is named is left open.
- Bundle.Import: no recorded object may share an identifier with a different object the store has.
- FileCache.Catalog.CacheFile: not called inside a read snapshot, whose closure only reads.
- ArchiveRestore.Restore: the manifest is one a capture made from a workspace; other manifests are only checked.
- Chunker.ChunkStream.NextChunk: a reader that fails is not modelled.

Not modelled:

- Locks, waiting, deadlines, maintenance guards and the platform variants of syncing: each locked section is one step, and what is known to be on disk is an explicit length.
- Budgets and statistics, workspace registration and the timeline tables.
- The file that counts capture generations: only whether the caches are forgotten is kept.
- Hashing in blocks while scanning: a record's hash is taken at once.
- The retention log's own frames, and pinning and unpinning: only states and plans are modelled.
- Restoring claims from a backup, and the order in which claims are listed.
- Classification of file contents: classes are data.
- Archive compression, ownership, the table of stored snapshots and the hexadecimal form of digests, platform metadata beyond modes, times, links and attributes, and markers that hide system files; storing chunks is a pass of its own before the listing.
- Remote transports, leases, conflicts between names of references and directories, encryption.
- Fork copying, the dirty-path radar, ignore rules, the command line, the user interfaces and the daemon.

# TartineFS, verified

A Dafny model of the storage core of TartineFS: the pool of disks that keeps replicated, append-only
files and converts them to writable ones, the replicated metadata log behind it, the placement that
chooses disks, and the framing, checksums and encodings all of it rests on.

The modules form one stack.

- `NegLog2`, `NegLog2Exact`, `Placement`, `PlacementLaws`, `PlacementMatching`, `PlacementOrder`,
  `PoolPlacement`, `PoolPlaced`: weighted rendezvous placement, from the fixed-point logarithm and when it is exact to
  stability under joining and leaving disks and to exactly when as many slots are filled as possible.
- `Crc32c`, `Bytes`, `Framing`, `Logs`: checksums, the two framed logs and their recovery scans.
- `Unicode`, `Codec`, `CodecIo`, `CodecLayout`, `CodecCanon`: the encoding of metadata operations, as a
  format, as the code that writes and reads it, by offsets, and that nothing else decodes.
- `Store`, `Replication`, `MetaStore`, `Directory`: the tables as a fold of the log, the commit
  protocol as a state machine, the store that joins them, and the directory listing.
- `PoolModel`, `PoolInvariant`, `PoolRefinement`, `PoolHistory`, `PoolEffects`: the pool as a value, its
  steps, its refinement of a plain map from inodes to bytes, and what each call does to the tables.
- `PoolLog`, `PoolReplication`, `PoolReopen`, `PoolOpen`: the pool together with its log, its metadata
  group and its reopening.
- `PoolExtents`: reopening over raw extents, exactly when it is safe and what is lost when it is not.
- `PoolLife`: any sequence of calls and restarts.
- `WalTear`, `PoolCrash`: a commit cut short anywhere, and crash atomicity of calls.
- `PoolLimits`, `PoolRejection`: the other exact places where the code does less than it says.
- `Region`, `PoolConfig`, `Pool`: the imperative pool, proved to take steps of the model.
- `RedundancySpec`, `Ioctl`: the text and wire forms of a redundancy scheme.

A disk is a growable byte image; a write may fail and then leaves anything in its own range. Every
operation of the pool is specified as a step that allows every such failure, and the theorems
quantify over all steps and all runs. A run is any sequence of calls; a trace records what each call
went through (placement, replicas written, metadata operations with their log entries and outcomes).

Limits that the theorems carry because the code has them: log entries stay inside the WAL region
(the code does not check), rewritten files stay below 2^32 bytes, schemes have at least one slot.
The hypotheses are met: `PoolOpen.Format` establishes every invariant, replication and the zeros behind the
log included, `PoolConfig.ConfigPlacesApart` the placement condition, and the methods of `Pool.Pool` take
the steps. What happens outside the limits is stated by the lemmas of `PoolLimits`, `PoolRejection`
(operations logged and then rejected), `WalTear` (entries cut short) and `PoolExtents` (reopening over raw
extents, where it is safe if and only if valid records reach the end of all live data).

Where code and comments disagree the model follows the code. The comment at
crates/tartine-kcore/src/placement.rs:85-87 calls the logarithm exact to the last bit; it is not
for every word (`NegLog2.LastBitCanBeWrong`). The bound that always holds is `NegLog2.NegLog2Bound`, and
`NegLog2Exact.NegLog2ExactIff` says for which words the comment is right. The layout comment at
crates/tartine-meta/src/pool.rs:14-18 puts the WAL after a superblock; the store writes it at offset 0, and so
does the model.

## Model

| member | source | states |
|---|---|---|
| `PoolRefinement.StepRefines` | crates/tartine-meta/src/pool.rs:388-572 | every call, whatever its outcome and wherever it failed, keeps the invariant and does to the map of inode to bytes exactly what the call means: append concatenates; after a random write byte i is the datum in the written range, the old byte elsewhere and zero where there was none; conversion and policy or directory changes are the identity, failures change nothing, all other files are unchanged |
| `PoolRefinement.RunRefines` | crates/tartine-meta/src/pool.rs:328-572 | over every run without reopen the readable files go through a run of the plain file map, and at every moment a read answers with byte off + i of that map for every i of the requested range, clipped at the end of the file |
| `PoolRefinement.ReadIsSlice` | crates/tartine-meta/src/pool.rs:431-437 | under the invariant a read succeeds exactly on existing files; its length is 0 from the end of the file on, else the smaller of the length asked for and what is left, and its byte i is byte off + i of the file |
| `PoolModel.SliceIsRange` | crates/tartine-meta/src/pool.rs:434-436 | the clipped range, byte by byte |
| `PoolModel.SpliceWrites` | crates/tartine-meta/src/pool.rs:529-533 | what a random write leaves at every byte: data in the range, old bytes before and behind it, zeros in a gap |
| `PoolModel.WrittenOnce` | crates/tartine-meta/src/pool.rs:529-533 | that determines the new content |
| `PoolModel.ExtentsReadIff` | crates/tartine-meta/src/pool.rs:456-466 | a file is readable exactly when each of its extents is and lies inside it |
| `PoolModel.LastExtentShows` | crates/tartine-meta/src/pool.rs:456-466 | a byte is that of the last extent over it |
| `PoolModel.HolesAreZero` | crates/tartine-meta/src/pool.rs:456-466 | and zero where no extent lies |
| `PoolRefinement.RunInv` | crates/tartine-meta/src/pool.rs:328-572 | the pool invariant (shape, stored data, size accounting, directories, counter) holds in every reachable state |
| `PoolRefinement.AppendDone` | crates/tartine-meta/src/pool.rs:388-424 | a successful append extends exactly that file by the payload |
| `PoolRefinement.AppendFailed` | crates/tartine-meta/src/pool.rs:388-424 | an append that fails in placement, on any replica or in the commit changes no file |
| `PoolRefinement.RewriteFailed` | crates/tartine-meta/src/pool.rs:540-572 | a rewrite that fails at any point changes no file |
| `PoolRefinement.RewriteStored` | crates/tartine-meta/src/pool.rs:550-571 | after a successful rewrite every byte is stored on each placed disk at the offset recorded for it, and nothing stored earlier was lost |
| `PoolRefinement.CreateRefines` | crates/tartine-meta/src/pool.rs:328-356 | creation yields a fresh empty file, or nothing, or (link failed) an unlinked empty file |
| `PoolInvariant.WriteKeeps` | crates/tartine-meta/src/pool.rs:403-412 | writing replicas at the bump cursors, successful or torn, preserves every byte below every cursor |
| `PoolInvariant.MetaKeeps` | crates/tartine-meta/src/store.rs:173-187 | a log entry that ends before the data region, even past the WAL capacity, preserves every data byte of every disk |
| `PoolInvariant.RecordKept` | crates/tartine-meta/src/pool.rs:439-487 | a record in order stays in order and keeps its content as long as the bytes below the cursors are kept; the content is as long as the recorded size |
| `PoolInvariant.OneExtentReads` | crates/tartine-meta/src/pool.rs:456-466 | one extent at offset 0 reads as its bytes, zero-filled to the recorded size |
| `PoolHistory.RunRegions` | crates/tartine-meta/src/pool.rs:401-423 | in every reachable state, failed and partial writes included: live copies lie below their disk's cursor, no two overlap, and the copies of a chunk or extent are on distinct disks with identical bytes and the recorded checksum |
| `PoolHistory.StepDisjoint` | crates/tartine-meta/src/pool.rs:550-571 | each call keeps all live regions of all files pairwise disjoint |
| `PoolHistory.RunAppendOnly` | crates/tartine-meta/src/pool.rs:384-424 | in every run modes only move forward and, until a file is Writable, each earlier content is a prefix of each later one |
| `PoolHistory.FailureIsAtomic` | crates/tartine-meta/src/pool.rs:504-572 | a call that returns an error leaves every existing file readable and unchanged |
| `PoolHistory.StepChange` | crates/tartine-meta/src/pool.rs:388-572 | every call moves no data, appends one chunk on fresh space or rewrites one file on fresh space, and nothing else |
| `PoolEffects.StepEffect` | crates/tartine-meta/src/pool.rs:328-572 | the tables after every successful call, field by field: the new record and entry of a creation, the removed entry, the new policy, the mode, the chunk with its number, length, checksum, disks and offsets, the extents; every other record, entry and field as it was |
| `PoolEffects.InodeOp` | crates/tartine-meta/src/store.rs:215-272 | the same for each operation on one inode |
| `PoolEffects.PolicyGoverns` | crates/tartine-meta/src/pool.rs:366-424 | a policy is in force from the moment it is set until the next one, over every run, and every append in between is on the disks that this scheme places for the file and the chunk number |
| `PoolEffects.StepKeepsPolicy` | crates/tartine-meta/src/pool.rs:328-572 | no call but a successful policy change of the file itself changes its policy, and none its owner, group, mode bits or time |
| `PoolEffects.StepAnswer` | crates/tartine-meta/src/pool.rs:328-572 | when no device fails, the answer of every call follows from the tables and the placement alone: which error, or success |
| `PoolEffects.FailureAnswer` | crates/tartine-meta/src/pool.rs:403-424 | and when one fails the error says where: a replica or the commit |
| `PoolEffects.AppendDescribes` | crates/tartine-meta/src/pool.rs:401-412 | where each replica of an appended chunk is recorded, a scan finds a valid record with the file, the chunk number and the payload |
| `PoolLimits.WriteExactIff` | crates/tartine-meta/src/pool.rs:523-538 | a successful random write leaves, byte by byte, what it means if and only if the new content is shorter than 2^32 bytes (the recorded length is 32 bits wide) |
| `PoolLimits.ConvertExactIff` | crates/tartine-meta/src/pool.rs:504-514 | a successful conversion keeps the content if and only if everything past its length modulo 2^32 is zero, in particular for every file below 2^32 bytes |
| `PoolLimits.RewriteTruncates` | crates/tartine-meta/src/pool.rs:566-571 | what a rewritten file reads as for every length, including lengths that wrap |
| `PoolLimits.RewriteMeans` | crates/tartine-meta/src/pool.rs:540-572 | after a successful rewrite of any length the file map differs in that file only, which is what a 32-bit length keeps of the new bytes: all of them below 2^32 |
| `PoolLimits.OverrunKeepsIff` | crates/tartine-meta/src/store.rs:173-187 | the code does not look where a log entry ends: a committed entry keeps the data of the primary if and only if every data byte it covers already equals it |
| `PoolLimits.OverrunReads` | crates/tartine-meta/src/store.rs:173-187 | data whose first replica lies under an entry reads as bytes of the entry |
| `PoolLimits.OverrunFile` | crates/tartine-meta/src/store.rs:173-187 | and so does a whole file that is one such extent |
| `PoolLimits.NoSlotsPlaced` | crates/tartine-meta/src/pool.rs:376-382 | a scheme without slots is accepted by placement and placed on no disk |
| `PoolLimits.NoSlotsUnreadable` | crates/tartine-meta/src/pool.rs:474-487 | after a successful append under such a scheme every read of the file fails |
| `PoolLog.RunReopens` | crates/tartine-meta/src/store.rs:126-157 | at every moment of every run whose operations were accepted, scanning, decoding and replaying the primary gives the live inode and directory tables, a counter no greater than the live one and above every inode, and well-formed metadata |
| `PoolLog.StepLog` | crates/tartine-meta/src/store.rs:173-190 | each accepted call extends the log on the primary by what it did, or leaves it when the commit failed, and the live tables stay the fold of the log |
| `PoolLog.PrefixMetaOk` | crates/tartine-meta/src/store.rs:192-286 | every prefix of a log issued by the pool folds into metadata where Writable holds exactly for extents, chunk i has sequence number i, sizes are the sum of chunk lengths or the extents' end, and every directory entry names an existing inode |
| `PoolLog.PrefixModes` | crates/tartine-kcore/src/write_path.rs:71-93 | between any two prefixes of the log no inode disappears and no mode moves back |
| `PoolLog.IssuedKeepsMeta` | crates/tartine-meta/src/store.rs:192-286 | one operation as the pool issues it keeps the metadata well formed |
| `PoolLog.StepPhases` | crates/tartine-meta/src/pool.rs:328-572 | every call is a data phase outside the WAL followed by the pool's own metadata operations, each issued on the tables before it |
| `PoolRejection.RejectionExact` | crates/tartine-meta/src/pool.rs:490-493 | when no commit fails, a call fails in its metadata if and only if it starts the conversion of a file that is missing or not append-only, or sets the policy of a missing file |
| `PoolRejection.RejectionPoisons` | crates/tartine-meta/src/store.rs:178-189 | an operation that is rejected after it was logged leaves a log that cannot be replayed |
| `PoolRejection.NeverReopens` | crates/tartine-meta/src/store.rs:151-189 | once a call has logged a rejected operation, no later moment of the run, whatever is called in between, leaves a pool that opens |
| `PoolRejection.PoisonIsForever` | crates/tartine-meta/src/store.rs:151-154 | a log that holds a rejected operation is refused whatever is appended after it |
| `PoolLog.UnacknowledgedAppears` | crates/tartine-meta/src/lib.rs:65-70 | a commit that fails on the primary after its entry landed: the store refuses it, yet a reopen has it, with exactly the tables it leads to |
| `PoolLog.StepZero` | crates/tartine-meta/src/store.rs:173-187 | as long as no commit fails on the primary, only zeros follow the log |
| `PoolLog.ZeroIsClean` | crates/tartine-meta/src/wal.rs:54-97 | zeros after the log are a clean end for recovery |
| `PoolLog.QuietRunReopens` | crates/tartine-meta/src/store.rs:126-190 | in every run whose operations were accepted and whose commits did not fail on the primary, reopening at any moment gives the live tables, with no condition on the image |
| `WalTear.TearOutcome` | crates/tartine-meta/src/lib.rs:65-70 | every tear of a commit over zeros, by the number of bytes that reached the primary: one that does not pass as a valid entry is dropped, one that passes is replayed as what the payload shown decodes to, and the open is refused when that does not decode or is not accepted. In particular fewer than four bytes are dropped, exactly the magic makes the pool refuse to open, and an entry that lost nothing but zeros is there |
| `WalTear.FailedCommitOutcome` | crates/tartine-meta/src/store.rs:173-187 | the same for a metadata operation of a pool whose commit failed on the primary |
| `WalTear.TornEndsIff` | crates/tartine-meta/src/wal.rs:54-97 | a torn entry ends the recovered log if and only if it does not pass: its magic incomplete, or the checksum word shown not that of the payload shown |
| `WalTear.CutInPayloadPassesIff` | crates/tartine-meta/src/wal.rs:72-88 | cut inside the payload: passes if and only if zeroing the missing bytes keeps the checksum; always when only zeros are missing, never when at most four bytes are missing and one is not zero |
| `WalTear.ZeroLengthPasses` | crates/tartine-meta/src/wal.rs:60-88 | cut before any non-zero byte of the length word: passes, as an empty entry |
| `WalTear.DroppedTear` | crates/tartine-meta/src/store.rs:145-154 | a tear that does not pass: reopening replays the log as it was and resumes at its end |
| `WalTear.RefusedTear` | crates/tartine-meta/src/store.rs:145-154 | a tear that passes as an empty entry: no open succeeds |
| `WalTear.PassedTear` | crates/tartine-meta/src/store.rs:145-154 | a tear that passes: reopening is replaying the log and then the operation the payload shown decodes to |
| `PoolCrash.CrashIsAtomic` | crates/tartine-meta/src/pool.rs:358-572 | any call but creation, conversions and random writes included, in any pool that satisfies the invariant, is interrupted after any number of its writes, its log entry missing, invalid or complete on the primary: reopening succeeds with the tables and files from before the call, or with those its success means; the reopened pool satisfies the invariant if and only if valid records reach the end of all live data |
| `PoolCrash.TornCallIsAtomic` | crates/tartine-meta/src/pool.rs:358-572 | the same by the byte: the entry is cut after byte n over zeros and does not pass for another valid one, or lost only zeros |
| `PoolCrash.CallReopens` | crates/tartine-meta/src/pool.rs:328-572 | after any call, creation included, with any outcome, a pool with no valid entry behind its log reopens with the tables and files the call left, which are what the call means |
| `PoolCrash.CreationCrash` | crates/tartine-meta/src/pool.rs:328-356 | an interrupted creation: after reopening nothing has happened, or there is one new empty file and no directory has changed, or the creation is complete |
| `PoolCrash.LandedLinkReopens` | crates/tartine-meta/src/pool.rs:328-356 | a creation interrupted after its link landed: the reopened pool has the new file under its name |
| `PoolCrash.LandedInodeReopens` | crates/tartine-meta/src/pool.rs:328-356 | a creation interrupted after only its inode landed: the reopened pool has one new empty file and unchanged directories |
| `PoolCrash.InodeOnlyUnnamed` | crates/tartine-meta/src/pool.rs:328-356 | a file left that way is named by no directory |
| `PoolCrash.LandedIsCommitted` | crates/tartine-meta/src/lib.rs:65-82 | a commit reported as failed whose entry landed leaves the images that a commit which lost its backup would have left |
| `PoolCrash.ReopenReplicatedIff` | crates/tartine-meta/src/pool.rs:289-303 | fencing is not remembered: the reopened group is replicated if and only if the backup it names agrees with the primary on every byte below the WAL cursor |
| `PoolReopen.ReopenKeeps` | crates/tartine-meta/src/pool.rs:246-303 | with data regions that hold only framed records and no further valid entry behind the log, opening succeeds, every resumed cursor is at or beyond every live record, and all files read as before |
| `PoolLife.LifeRefines` | crates/tartine-meta/src/pool.rs:246-572 | over any interleaving of calls, conversions and random writes included, and restarts that find the log ended and the live data covered by valid records: calls mean what they say, a restart changes no file, and a read is the slice of its file |
| `PoolLife.LifeAppendOnly` | crates/tartine-meta/src/pool.rs:246-424 | appended content survives any number of restarts and later calls as a prefix until the file is Writable |
| `PoolReopen.StepFramed` | crates/tartine-meta/src/pool.rs:401-412 | calls that write no extent, failed and partial appends included, leave every data region a sequence of framed records |
| `PoolReopen.ScanIsFrames` | crates/tartine-core/src/segment.rs:157-208 | the region up to the resume point is exactly the frames of the records a scan returns |
| `PoolLife.MildLifeRefines` | crates/tartine-meta/src/pool.rs:246-572 | the same, where each of the two conditions on restarts is dropped in lives that make it true: no commit fails on the primary, no call writes a raw extent |
| `PoolLife.MildIsLife` | crates/tartine-meta/src/pool.rs:246-303 | such a life is a life: each restart in it finds what it needs |
| `PoolLife.QuietRestart` | crates/tartine-meta/src/pool.rs:246-303 | restarting a pool whose commits did not fail always succeeds and resumes the log where it ended |
| `PoolExtents.ReopenSafeIff` | crates/tartine-meta/src/pool.rs:246-303 | reopening succeeds and reads every file as before; the pool it yields satisfies the invariant if and only if on every disk valid records, one after the other from the start of the data region, reach the end of all live data |
| `PoolExtents.ReopenReads` | crates/tartine-meta/src/pool.rs:246-303 | reopening by itself changes no file, whatever the data regions hold |
| `PoolExtents.ResumesAtIff` | crates/tartine-core/src/segment.rs:157-208 | behind framed records the scan resumes at their end if and only if what follows is not a valid record |
| `PoolExtents.ResumesBeyondIff` | crates/tartine-core/src/segment.rs:157-208 | a scan resumes at or beyond a point if and only if valid records reach that point |
| `PoolExtents.ForeignByteEnds` | crates/tartine-core/src/segment.rs:166-187 | in particular an extent whose first byte is not the magic's ends the scan at its start |
| `PoolExtents.FramedIsCovered` | crates/tartine-meta/src/pool.rs:401-412 | regions that hold only framed records meet the condition |
| `PoolExtents.ConversionResumesIff` | crates/tartine-meta/src/pool.rs:540-572 | converting a file in a pool of framed regions puts its extent behind the records of each placed disk; a scan resumes at the extent's first byte if and only if the extent does not begin with a valid record |
| `PoolExtents.ExtentOverwritten` | crates/tartine-meta/src/pool.rs:401-412 | the loss: after reopening, a successful append on the disk of an extent that starts at the resumed cursor makes that file read as the appended frame laid over its old bytes; unchanged if and only if it was a prefix of that frame |
| `PoolExtents.ConvertReopenAppend` | crates/tartine-meta/src/pool.rs:246-572 | the loss on a run of three successful steps: convert a file, reopen, append on its first disk; unless the content began with a valid record the file reads as the appended frame laid over it |
| `PoolOpen.Format` | crates/tartine-meta/src/pool.rs:155-228 | a formatted pool satisfies every invariant of the model, with a replicated metadata group and zeros behind its log, and holds one file, the empty root, with the root's own attributes; its map describes every disk by number and class; no disks is refused |
| `PoolOpen.Open` | crates/tartine-meta/src/pool.rs:246-303 | opens exactly when there is a disk, every disk file can be opened and the first disk's log is accepted, and then is the reopened state over a map that describes every disk by number and class |
| `PoolOpen.ScanDisks` | crates/tartine-meta/src/pool.rs:263-288 | fails exactly when a disk file cannot be opened; otherwise every cursor is the resume point of the scan of its own disk |
| `PoolOpen.RootCreated` | crates/tartine-meta/src/pool.rs:206-221 | creating the root on blank disks establishes all invariants, replication included, and exactly the root record; its log entry fits |
| `PoolOpen.BlankReplicated` | crates/tartine-meta/src/pool.rs:198-204 | the metadata group of blank disks is replicated, with an empty log |
| `PoolOpen.BlankLife` | crates/tartine-meta/src/pool.rs:166-204 | blank disks under empty tables satisfy all invariants |
| `Pool.Pool.Append` | crates/tartine-meta/src/pool.rs:388-424 | takes one append step of the specification: mode checks, placement of (inode, chunk number), replica by replica, then the metadata operation; only the named objects change |
| `Pool.Pool.AppendOnDisks` | crates/tartine-meta/src/pool.rs:401-423 | the data and metadata phases of an append, for any placement of distinct disks |
| `Pool.Pool.Rewrite` | crates/tartine-meta/src/pool.rs:540-572 | takes one rewrite step: nothing written for empty content, else one extent on every placed disk, then the metadata operation |
| `Pool.Pool.FinishConvert` | crates/tartine-meta/src/pool.rs:504-514 | takes one conversion step |
| `Pool.Pool.Write` | crates/tartine-meta/src/pool.rs:523-538 | takes one random-write step with the zero-extending splice |
| `Pool.Pool.Read` | crates/tartine-meta/src/pool.rs:431-437 | returns the range of the content that was asked for, byte by byte |
| `Pool.Pool.CreateFile` | crates/tartine-meta/src/pool.rs:328-356 | takes one creation step: number, inode, link, each logged in turn |
| `Pool.Pool.UnlinkName` | crates/tartine-meta/src/pool.rs:358-364 | passes one unlink through the log |
| `Pool.Pool.SetRedundancy` | crates/tartine-meta/src/pool.rs:366-374 | passes one policy change through the log |
| `Pool.Pool.BeginConversion` | crates/tartine-meta/src/pool.rs:490-493 | passes one conversion start through the log, unchecked |
| `Pool.Pool.Place` | crates/tartine-meta/src/pool.rs:376-382 | names the unique placement of the scheme, distinct pool disks, or nothing when a slot is unplaced |
| `Pool.Pool.ApplyMeta` | crates/tartine-meta/src/store.rs:173-190 | on the pool's disks an operation changes only WAL bytes at the cursor of the metadata group, fences a failing backup, and writes the operation's own encoding |
| `Region.Region.AppendReplicas` | crates/tartine-meta/src/pool.rs:402-412 | disks are written in order at their cursors; the first failure ends the loop, tears at most its own disk past its cursor, and leaves the rest untouched; recorded offsets are the cursors before the write |
| `Region.Region.WriteExtent` | crates/tartine-meta/src/pool.rs:554-564 | the same for raw extents |
| `Region.Region.ReadFullContent` | crates/tartine-meta/src/pool.rs:439-468 | reads chunks in order or extents over zeros, failing where the specification does |
| `Region.Region.ReadFirst` | crates/tartine-meta/src/pool.rs:474-487 | reads behind the first replica only |
| `Region.InTurnWrote` | crates/tartine-meta/src/pool.rs:403-412 | writing distinct disks in turn has the closed form the specification uses |
| `PoolConfig.ConfigPlacesApart` | crates/tartine-meta/src/pool.rs:376-382 | every scheme with a slot is placed on a non-empty list of distinct pool disks |
| `PoolConfig.PlaceIsApart` | crates/tartine-meta/src/pool.rs:376-382 | a complete placement names one distinct active data disk per slot, up to sixteen |
| `PoolConfig.PlaceIsUnique` | crates/tartine-meta/src/pool.rs:376-382 | the placement does not depend on how the pool map was iterated |
| `PoolPlaced.PlacedOnIff` | crates/tartine-core/src/placement.rs:122-156 | a list is the placement of the slots if and only if slot by slot it names the first, in the order of weight over distance, of the disks that serve the slot and no earlier slot took, and nothing exactly when there is none; said of pool disks, their class, role, state and weight, without scores or codes |
| `PoolPlaced.PlaceIff` | crates/tartine-meta/src/pool.rs:376-382 | the same for the list of disks a scheme and key are placed on |
| `PoolPlaced.PlaceServes` | crates/tartine-meta/src/pool.rs:376-382 | each placed disk is an active data disk, of the class its slot asks for or the very disk it is pinned to |
| `PoolPlaced.UnplaceableIff` | crates/tartine-meta/src/pool.rs:376-382 | a scheme is refused if and only if it is erasure coded or one of its first sixteen slots finds every disk that would serve it taken by earlier slots |
| `PoolPlaced.AcceptsIff` | crates/tartine-core/src/placement.rs:87-116 | a slot's code accepts the candidate of a disk exactly when the disk serves the slot |
| `PoolConfig.Collect` | crates/tartine-meta/src/pool.rs:378-381 | all slots or nothing |
| `PoolReplication.PoolCrashSafe` | crates/tartine-meta/src/lib.rs:59-98 | for every run of the pool: what was logged by time m is at every later time n recovered in order from the primary and from the backup then in the group, the two agree on every byte below the WAL cursor, and every fenced backup matches the primary below the cursor it was fenced at |
| `PoolReplication.MetaReplicates` | crates/tartine-meta/src/store.rs:173-187 | every metadata operation is one commit of the protocol; the log grows by its payload unless the primary failed, and the epoch rises exactly when the backup is fenced |
| `Replication.NextKeepsInv` | crates/tartine-meta/src/lib.rs:65-98 | every single step (primary write, torn write, backup write, fence, acknowledge, promote, data write) keeps the invariant; the epoch rises by one on membership changes only |
| `Replication.CommittedIsNeverLost` | crates/tartine-meta/src/lib.rs:65-82 | in every run of steps, whatever was committed by time i is recovered at every later time from each disk then in the group |
| `Replication.MembersRecover` | crates/tartine-meta/src/lib.rs:65-82 | both members recover everything committed and agree below the cursor |
| `Replication.EpochSeparatesGroups` | crates/tartine-meta/src/lib.rs:84-98 | the epoch strictly rises across every membership change |
| `Replication.FencedStaysPrefix` | crates/tartine-meta/src/lib.rs:84-92 | a fenced backup matches the primary below the cursor it was fenced at, forever |
| `Replication.RunKeepsInv` | crates/tartine-meta/src/lib.rs:65-98 | along a run the log only grows and the epoch counts membership changes |
| `Replication.CommitIsRun` | crates/tartine-meta/src/lib.rs:65-82 | every outcome of a commit is a run of single steps |
| `MetaStore.MetaReplicator.Commit` | crates/tartine-meta/src/lib.rs:65-82 | success only when every member is durable; a primary failure never touches the backup; damage stays in the entry's own range |
| `MetaStore.MetaReplicator.FenceBackup` | crates/tartine-meta/src/lib.rs:84-92 | no backup, next epoch |
| `MetaStore.MetaReplicator.PromoteNewBackup` | crates/tartine-meta/src/lib.rs:94-98 | the new member joins under the next epoch, whichever disk it is; the group stays well formed if and only if it is not the primary |
| `MetaStore.MetaStore.LogEntry` | crates/tartine-meta/src/store.rs:173-187 | a failing backup is fenced and the entry still counts; a failing primary leaves cursor, group and backup alone |
| `MetaStore.MetaStore.FrameOp` | crates/tartine-meta/src/store.rs:173-178 | the entry is the framed encoding of the operation |
| `MetaStore.MetaStore.ApplyFramed` | crates/tartine-meta/src/store.rs:173-190 | visible only after durable: tables change exactly as the fold says, or not at all when rejected or not committed |
| `MetaStore.MetaStore.ApplyLocally` | crates/tartine-meta/src/store.rs:192-286 | the in-place update is the fold function, all or nothing |
| `MetaStore.MetaStore.UpdateRecord` | crates/tartine-meta/src/store.rs:215-272 | the read-modify-write of one record is the fold's |
| `MetaStore.MetaStore.AllocInode` | crates/tartine-meta/src/store.rs:163-167 | hands out the counter and advances it |
| `MetaStore.OpenStore` | crates/tartine-meta/src/store.rs:126-157 | opens exactly when the scanned log decodes and every entry is accepted in turn; then holds the replayed tables and resumes at the scan's end |
| `Store.ReopenIsReplay` | crates/tartine-meta/src/store.rs:126-157 | with no further entry after the log, opening it is replaying it: same outcome, same tables, same resume point |
| `Store.ReopenAgrees` | crates/tartine-meta/src/store.rs:126-190 | a reopened store has the live inode and directory tables |
| `Store.RecoveredLogIsPrefix` | crates/tartine-meta/src/store.rs:145-154 | whatever bytes follow the log, its operations are the first recovered |
| `Store.OverflowIsLost` | crates/tartine-meta/src/store.rs:173-187 | an acknowledged operation whose entry reaches past the WAL capacity is gone after reopening: writing does not look at the capacity, recovery does |
| `Store.AgreesAfterApply` | crates/tartine-meta/src/store.rs:173-190 | an accepted operation keeps live tables equal to the fold of the extended log |
| `Store.ApplySameView` | crates/tartine-meta/src/store.rs:192-286 | the inode counter plays no part in accepting an operation or in its effect |
| `Store.RejectedOpPoisonsLog` | crates/tartine-meta/src/store.rs:178-189 | create, begin, begin again: a log that cannot be replayed |
| `Store.RejectionIsForever` | crates/tartine-meta/src/store.rs:151-154 | no extension of a log with a rejected operation can be replayed |
| `Store.OneWayModes` | crates/tartine-kcore/src/write_path.rs:71-93 | the only accepted transitions are AppendOnly to Converting and Converting to Writable, and which error code the others get |
| `Store.ExtentsEndIsMax` | crates/tartine-meta/src/store.rs:258-272 | the recorded size is the end of the extent that reaches furthest |
| `Directory.Readdir` | crates/tartine-meta/src/store.rs:308-324 | fails exactly when a name of the directory is not well-formed UTF-8; otherwise lists exactly the entries of that directory, each with what a lookup finds, in strictly ascending name order |
| `Directory.PrefixIsContiguous` | crates/tartine-meta/src/store.rs:314-318 | after the first key from the prefix on that does not start with it, none does |
| `Directory.DirKeyInjective` | crates/tartine-meta/src/store.rs:40-44 | a key belongs to one parent and one name |
| `Directory.LinkIsLocal` | crates/tartine-meta/src/store.rs:205-214 | linking and unlinking change the lookup of one name in one directory and of nothing else |
| `Framing.ScanKeepsAppended` | crates/tartine-core/src/segment.rs:157-208 | complete frames followed by any bytes are a prefix of what a scan returns, and it resumes at or beyond their end (both logs) |
| `Framing.ScanExact` | crates/tartine-meta/src/wal.rs:54-97 | with a clean end the scan returns exactly the frames and resumes exactly at their end (both logs) |
| `Framing.ScanExactIff` | crates/tartine-meta/src/wal.rs:54-97 | the scan returns exactly the frames, and resumes exactly behind them, if and only if the bytes behind them are not a valid record (both logs) |
| `Framing.TruncatedFrameIsClean` | crates/tartine-core/src/segment.rs:166-187 | a trailing frame cut short by the end of the image is dropped exactly |
| `Framing.ZeroTailIsClean` | crates/tartine-meta/src/wal.rs:60-69 | unwritten space is a clean end |
| `Framing.TornMagicIsClean` | crates/tartine-meta/src/wal.rs:63-69 | a tear inside the magic over zeros is dropped exactly |
| `Framing.TornAfterMagicIsAccepted` | crates/tartine-meta/src/wal.rs:67-88 | a tear right after the magic over zeros is taken for a valid empty entry |
| `Framing.DamageReported` | crates/tartine-core/src/segment.rs:157-208 | damage to at most four consecutive payload bytes is reported as corruption at that record, after all earlier records were returned |
| `Framing.HeaderRoundTrip` | crates/tartine-core/src/segment.rs:122-135 | headers decode to what was encoded |
| `Framing.FrameLayout` | crates/tartine-core/src/segment.rs:122-135 | the fields of a record by offset: magic, inode, chunk number, checksum, length, payload |
| `Framing.EntryLayout` | crates/tartine-meta/src/wal.rs:29-37 | the fields of a WAL entry by offset: magic, length, checksum, payload |
| `Bytes.LeAt` | crates/tartine-meta/src/codec.rs:39-50 | byte i of a word has weight 256^i |
| `Logs.ScanWal` | crates/tartine-meta/src/wal.rs:54-97 | the loop returns what the recursive scan defines |
| `Logs.ScanSegment` | crates/tartine-core/src/segment.rs:157-208 | the loop returns what the recursive scan defines |
| `Logs.BuildFrame` | crates/tartine-meta/src/wal.rs:29-37 | builds the frame of the payload with its checksum |
| `Logs.EncodeRecord` | crates/tartine-core/src/segment.rs:122-135 | fills the frame of the record |
| `Logs.SegmentWriter.Append` | crates/tartine-core/src/segment.rs:106-115 | refused without a trace when full; a failed write damages only space past the cursor; success advances by the frame |
| `Crc32c.ComputeChecksum` | crates/tartine-core/src/crc32c.rs:30-36 | the table-driven loop equals the bit-serial checksum (section 13.1 of RFC 7143) on every byte string |
| `Crc32c.BuildTable` | crates/tartine-core/src/crc32c.rs:12-26 | entry i is i after eight bit steps |
| `Crc32c.ByteStepIsBits` | crates/tartine-core/src/crc32c.rs:30-36 | one table lookup is eight bit steps |
| `Crc32c.BurstDetected` | crates/tartine-core/src/crc32c.rs:30-36 | every burst of at most 32 bits at any alignment changes the checksum |
| `Crc32c.FourByteDamageDetected` | crates/tartine-core/src/crc32c.rs:30-36 | equal-length strings that differ only within four consecutive bytes never share a checksum |
| `Crc32c.EmptyChecksum` | crates/tartine-core/src/crc32c.rs:30-36 | the checksum of the empty string is 0 |
| `Crc32c.PolyIsCastagnoli` | crates/tartine-core/src/crc32c.rs:10-10 | the polynomial has exactly the terms of the Castagnoli generator |
| `Codec.OpReads` | crates/tartine-meta/src/codec.rs:423-533 | decoding the encoding of any operation followed by any bytes gives the operation and consumes exactly the encoding |
| `Codec.PoolMapReads` | crates/tartine-meta/src/codec.rs:379-397 | a pool map decodes to itself whatever order it was iterated in |
| `Codec.InodeReads` | crates/tartine-meta/src/codec.rs:293-325 | inode records round-trip, including nested chunk and extent lists |
| `Codec.SchemeReads` | crates/tartine-meta/src/codec.rs:162-193 | redundancy schemes round-trip |
| `Codec.LocatorReads` | crates/tartine-meta/src/codec.rs:261-291 | data locators round-trip |
| `Codec.GroupReads` | crates/tartine-meta/src/codec.rs:399-421 | metadata groups round-trip |
| `Codec.LinkReads` | crates/tartine-meta/src/codec.rs:112-114 | a link decodes to itself if and only if its name is well-formed UTF-8, and makes the decoder panic otherwise |
| `Codec.EmptyPayloadPanics` | crates/tartine-meta/src/codec.rs:78-81 | the empty payload of a torn header makes the decoder panic; `WalTear.RefusedTear` draws the consequence |
| `CodecCanon.DecodedIsEncoded` | crates/tartine-meta/src/codec.rs:487-533 | the converse: bytes that decode to an operation are the encoding of that operation followed by what was left over, for every operation but a pool map or group change |
| `CodecCanon.GroupSpelled` | crates/tartine-meta/src/codec.rs:407-421 | for a metadata group too, if and only if the flag of its backup is 0 or 1 |
| `CodecCanon.TagIsExact` | crates/tartine-meta/src/codec.rs:487-533 | a first byte above 9 or of another operation decodes to nothing |
| `CodecLayout.OpTag` | crates/tartine-meta/src/codec.rs:423-485 | the first byte of each operation |
| `CodecLayout.DirectoryLayout` | crates/tartine-meta/src/codec.rs:430-444 | the offsets of links and unlinks |
| `CodecLayout.InodeOpLayout` | crates/tartine-meta/src/codec.rs:445-484 | the offsets of operations on an inode |
| `CodecLayout.ReplicaListLayout` | crates/tartine-meta/src/codec.rs:211-222 | a count, then 24 bytes a replica |
| `CodecLayout.ReplicaLayout` | crates/tartine-meta/src/codec.rs:211-217 | disk and offset |
| `CodecLayout.ChunkLayout` | crates/tartine-meta/src/codec.rs:223-228 | number, replicas, length, checksum by offset |
| `CodecLayout.ExtentLayout` | crates/tartine-meta/src/codec.rs:242-247 | place, length, replicas, checksum by offset |
| `CodecLayout.SlotLayout` | crates/tartine-meta/src/codec.rs:140-152 | the bytes of each kind of slot |
| `CodecLayout.SchemeLayout` | crates/tartine-meta/src/codec.rs:162-180 | kind, count and slots, or kind and shard counts |
| `CodecLayout.LocatorLayout` | crates/tartine-meta/src/codec.rs:261-278 | kind, count, chunks or extents |
| `CodecLayout.InodeLayout` | crates/tartine-meta/src/codec.rs:293-303 | every field of an inode record by offset |
| `CodecLayout.MemberLayout` | crates/tartine-meta/src/codec.rs:327-361 | every field of a disk entry by offset |
| `CodecLayout.PoolMapLayout` | crates/tartine-meta/src/codec.rs:379-386 | epoch, count, members |
| `CodecLayout.GroupLayout` | crates/tartine-meta/src/codec.rs:399-406 | primary, flag, backup, epoch |
| `Unicode.Utf8Iff` | crates/tartine-meta/src/codec.rs:112-114 | bytes are accepted as a string if and only if they are the encodings of Unicode scalar values one after the other |
| `CodecIo.EncodeOp` | crates/tartine-meta/src/codec.rs:423-485 | the growing encoder writes the format, for the order in which it iterated the pool map |
| `CodecIo.DecodeOp` | crates/tartine-meta/src/codec.rs:487-533 | the advancing decoder reads the format and panics exactly where it has no reading, a name that is not UTF-8 included |
| `NegLog2.NegLog2Bound` | crates/tartine-kcore/src/placement.rs:83-115 | with L = 64*2^16 - neg_log2_q16(h): 2^L <= (h+1)^(2^16) < 2^(L+2), and no underflow |
| `NegLog2.RoundsRange` | crates/tartine-kcore/src/placement.rs:95-113 | the mantissa stays in [2^32, 2^33) through every round |
| `NegLog2.LastBitCanBeWrong` | crates/tartine-kcore/src/placement.rs:85-87 | the result is not exact to the last bit: a word whose true value is a Q16 unit away |
| `NegLog2.LosesABit` | crates/tartine-kcore/src/placement.rs:85-87 | the whole family of words on which the first fractional bit is lost |
| `NegLog2Exact.NegLog2ExactIff` | crates/tartine-kcore/src/placement.rs:83-115 | the value is exact to the last bit if and only if h is the greatest word or each of the sixteen rounds takes the branch that exact arithmetic takes; in particular whenever the final mantissa is not among the 262142 topmost; otherwise it is off by exactly one unit |
| `NegLog2Exact.ExactIff` | crates/tartine-kcore/src/placement.rs:88-115 | the logarithm of x is exact to the last bit if and only if every round reaches 2 exactly when the true power does |
| `NegLog2Exact.ExactWhen` | crates/tartine-kcore/src/placement.rs:95-113 | exact for every word whose final mantissa is below 2(2^32 - 131071) |
| `NegLog2Exact.OpenMantissas` | crates/tartine-kcore/src/placement.rs:95-113 | only the topmost 262142 of the 2^32 final mantissas remain |
| `NegLog2Exact.PowerOfTwoExact` | crates/tartine-kcore/src/placement.rs:88-115 | powers of two are exact without remainder |
| `NegLog2.NegLog2Mono` | crates/tartine-kcore/src/placement.rs:88-115 | never increases with the hash |
| `NegLog2.NegLog2Q16` | crates/tartine-kcore/src/placement.rs:88-115 | the loop computes the specified value without overflow |
| `NegLog2.FractionBits` | crates/tartine-kcore/src/placement.rs:101-113 | the square-and-shift loop with all intermediates in range |
| `Placement.ScoreMono` | crates/tartine-kcore/src/placement.rs:122-125 | the score never falls when hash or weight rises |
| `Placement.PrefersIff` | crates/tartine-kcore/src/placement.rs:122-160 | which disk is preferred, without naming a score: the one whose weight over distance (one more than -log2 of its hash) is above the other's by some whole number, else the larger hash, else the larger id |
| `Placement.WeightedComparison` | crates/tartine-kcore/src/placement.rs:122-125 | a preferred disk has at least the other's weight for its distance, up to one unit of the quotient |
| `Placement.EqualWeights` | crates/tartine-kcore/src/placement.rs:128-160 | among disks of equal weight the larger hash of the 128-bit id wins, then the larger id |
| `Placement.HrwSelectOne` | crates/tartine-kcore/src/placement.rs:169-192 | the highest-ranked eligible candidate, first index on a tie, or none exactly when none is eligible |
| `Placement.HrwSelect` | crates/tartine-kcore/src/placement.rs:202-218 | a strictly greedy selection that stops early only when no active candidate is left |
| `Placement.PlaceRedundancy` | crates/tartine-kcore/src/placement.rs:253-298 | slot by slot the best candidate no earlier slot took; UNPLACED exactly when there is none |
| `PlacementLaws.JoinIsStable` | crates/tartine-kcore/src/placement.rs:253-298 | adding one disk: only it can be new, at most one disk is dropped, no filled slot becomes unplaced, and unused it changes nothing |
| `PlacementLaws.LeaveIsStable` | crates/tartine-kcore/src/placement.rs:253-298 | removing one disk: all others stay and at most one is pulled in |
| `PlacementLaws.RaisedWeightStaysPlaced` | crates/tartine-kcore/src/placement.rs:253-298 | raising a placed disk's weight keeps it placed, for any mix of slots |
| `PlacementLaws.LoweredWeightChangesNothing` | crates/tartine-kcore/src/placement.rs:253-298 | lowering an unplaced disk's weight changes nothing |
| `PlacementLaws.OrderIndependent` | crates/tartine-kcore/src/placement.rs:253-298 | the order of candidates does not matter |
| `PlacementLaws.PlacementIsGreedy` | crates/tartine-kcore/src/placement.rs:253-298 | the index loops compute greedy placement over the set of disks |
| `PlacementLaws.GreedyUnique` | crates/tartine-kcore/src/placement.rs:253-298 | greedy placement is unique |
| `PlacementLaws.GreedyDistinct` | crates/tartine-kcore/src/placement.rs:253-298 | no disk is placed twice |
| `PlacementLaws.UniformIsTopRanked` | crates/tartine-kcore/src/placement.rs:202-218 | all-any slots: strictly decreasing rank, ahead of every active disk left out |
| `PlacementLaws.UniformCount` | crates/tartine-kcore/src/placement.rs:202-218 | as many are selected as there are active disks, up to the slots |
| `PlacementLaws.SelectionIsTop` | crates/tartine-kcore/src/placement.rs:202-218 | a selection has exactly min(wanted, active) disks, in strictly decreasing rank, each ahead of every active disk not selected |
| `PlacementLaws.UniformMatchesSelect` | crates/tartine-kcore/src/placement.rs:253-298 | place_redundancy on all-any slots is hrw_select followed only by UNPLACED |
| `PlacementLaws.GreedyMissesMatching` | crates/tartine-kcore/src/placement.rs:253-298 | slots any, ssd over one SSD and one HDD: the second slot stays unplaced if and only if the SSD outranks the HDD |
| `PlacementMatching.GreedyIsMaximum` | crates/tartine-kcore/src/placement.rs:253-298 | for any pool and any number of slots in nested order (a slot that shares a disk with an earlier one accepts all that the earlier one does, pins that repeat an earlier pin aside) the placement fills as many slots as any assignment of distinct accepted disks can |
| `PlacementMatching.SpecificFirstIsNested` | crates/tartine-kcore/src/placement.rs:253-298 | pinned slots, then slots with a class, then unconstrained ones, repeated pins anywhere, are in nested order |
| `PlacementMatching.SpecificFirstIsMaximum` | crates/tartine-kcore/src/placement.rs:253-298 | in that order the placement fills as many slots as possible on every pool and under every ranking |
| `PlacementOrder.OrderIsNeeded` | crates/tartine-kcore/src/placement.rs:253-298 | the converse: for every slot list not in that order and every ranking there is a pool of distinct disks with small numbers or pinned ids, on which the placement fills fewer slots than some assignment |
| `PlacementMatching.GreedyIsAssignment` | crates/tartine-kcore/src/placement.rs:253-298 | the placement is itself such an assignment, so the maximum is attained |
| `PoolPlacement.PlaceOnPool` | crates/tartine-core/src/placement.rs:122-156 | None exactly for erasure coding, else the greedy placement over the eligible disks of the unordered pool map |
| `PoolPlacement.PlacedOnDistinct` | crates/tartine-core/src/placement.rs:122-156 | placed ids are distinct eligible active disks |
| `PoolPlacement.PlacedOnUnique` | crates/tartine-core/src/placement.rs:122-156 | the iteration order of the pool map cannot show |
| `PoolPlacement.HiLo` | crates/tartine-core/src/placement.rs:34-36 | splitting a 128-bit id is undone by joining |
| `PoolPlacement.FromHiLo` | crates/tartine-core/src/placement.rs:39-41 | joining two words is undone by splitting |
| `RedundancySpec.ParseFormat` | crates/tartine-core/src/redundancy_spec.rs:87-155 | parsing what was printed gives the scheme back if and only if it has 1 to 16 slots or is erasure coded; the refusals are named |
| `RedundancySpec.ParsedIsPrintable` | crates/tartine-core/src/redundancy_spec.rs:87-145 | whatever parses prints canonically and parses to itself, except the empty scheme |
| `RedundancySpec.CountIsSugar` | crates/tartine-core/src/redundancy_spec.rs:109-119 | a bare count n is n unconstrained slots up to 16 (0 included), and is refused above |
| `RedundancySpec.SplitJoin` | crates/tartine-core/src/redundancy_spec.rs:121-124 | splitting is the inverse of joining |
| `RedundancySpec.SpacesIgnored` | crates/tartine-core/src/redundancy_spec.rs:87-124 | spaces around the text and around each term change nothing |
| `RedundancySpec.DashIgnored` | crates/tartine-core/src/redundancy_spec.rs:60-65 | a dash anywhere in a disk id changes nothing |
| `RedundancySpec.SlotNames` | crates/tartine-core/src/redundancy_spec.rs:67-82 | the four names, and the error for anything that is neither a name nor a disk |
| `Ioctl.Encode` | crates/tartine-fuse/src/ioctl.rs:97-129 | fills the 400-byte buffer in place with the wire form |
| `Ioctl.Decode` | crates/tartine-fuse/src/ioctl.rs:135-170 | the loop computes what the buffer stands for |
| `Ioctl.WireRoundTrip` | crates/tartine-fuse/src/ioctl.rs:97-170 | decode(encode(s)) = s if and only if s has at most 16 slots or is erasure coded |
| `Ioctl.WireReads` | crates/tartine-fuse/src/ioctl.rs:97-170 | what comes back for every scheme: the first sixteen slots, or the pair |
| `Ioctl.WireLayout` | crates/tartine-fuse/src/ioctl.rs:97-129 | the fields of the buffer by offset |
| `Ioctl.UnwireIff` | crates/tartine-fuse/src/ioctl.rs:135-170 | exactly which buffers are accepted and what each stands for |
| `Ioctl.ControlPath` | crates/tartine-fuse/src/ioctl.rs:94-170 | parse, encode, decode, format yields a canonical text for the same scheme |
| `Disk.Disk.WriteAt` | crates/tartine-core/src/disk.rs:69-82 | a failed write changes at most its own range |
| `Disk.Disk.ReadAt` | crates/tartine-core/src/disk.rs:69-82 | a read succeeds exactly when its whole range is present |

## Left out

- Redb: the two tables are maps with atomic transactions; the directory table is ordered by bytes.
- System calls of `FileDisk`: read errors other than a range that is not there are not modelled.
- Hash quality and capacity-proportional selection: the hash of (disk id, key) is an arbitrary function.
- Floating point: disk weights enter as bit patterns and as an arbitrary conversion to thousandths.
- Timestamps: the clock is a parameter of creation and formatting.
- `targets` in crates/tartine-core/src/placement.rs: the same loops with a count instead of slots.
- `tartine_classify_write` and `tartine_truncate_allowed`: the front ends ask them, the pool does not.
- `TartineState` and the other ioctl numbers: constants and one fixed layout.
- FUSE callbacks, the kernel module, the daemon and the command line tool.
- Erasure coding, scrubbing, rebalancing, mount quorum: reserved or planned, without code.
- Persistence of fencing: a reopened group starts again at epoch 0 with both members, so the run theorems
  on replication are about one open pool; `PoolCrash.ReopenReplicatedIff` says when they carry over.
- Read-only access to the metadata store by `get_inode` and `disk_count`: field reads.
- Arbitrary torn bytes behind the log that happen to be a valid entry: the reopening theorems exclude them
  by a condition on the image; `WalTear` covers every entry cut short over zeros and
  `PoolLog.UnacknowledgedAppears` the complete one over anything.
- PoolOpen.Open: takes the disk files as objects whose ids are their positions, or null for a file that
  cannot be opened.
- Pool.Pool.Place: a placed disk is always in the disks table, so the error for a missing one cannot occur.
- Ioctl.Wire: erasure-coded counts are bytes, as in the source's types.

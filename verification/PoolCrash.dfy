/** Crashes in the middle of a call, conversions and random writes included: after reopening, every file
    is as before the call or as the call means it to be. And what reopening does to the metadata group. */
module PoolCrash {
  import opened Proto
  import opened Arith
  import opened Bytes
  import opened Framing
  import opened Store
  import opened PoolModel
  import opened PoolInvariant
  import opened PoolRefinement
  import opened PoolLog
  import opened PoolEffects
  import opened PoolReopen
  import opened PoolExtents
  import opened WalTear
  import opened PoolReplication
  import Codec
  import MetaStore
  import R = Replication

  // ---- a commit that landed is a commit with a fenced backup ----

  /** The commit was reported as failed, but its entry is on the primary. */
  ghost predicate Landed(s: State, m: Issued, s': State)
  {
    && MetaStep(s, m, s') && m.result.CommitFailed? && ApplyOp(s.tables, m.op).Some?
    && s'.images[s.group.primary] == Patch(s.images[s.group.primary], s.walCursor, m.entry)
  }

  /** The state a successful commit that loses its backup would have left, with the same images. */
  ghost function Finished(s: State, m: Issued, s': State): State
    requires ApplyOp(s.tables, m.op).Some?
  {
    s'.(group := if s.group.backup.Some? then MetaStore.FencedGroup(s.group) else s.group,
        walCursor := s.walCursor + |m.entry|, tables := ApplyOp(s.tables, m.op).value)
  }

  function Acknowledged(m: Issued): Issued
  {
    m.(result := MetaStore.Done)
  }

  lemma SameImage(image: seq<byte>, off: nat, len: nat)
    ensures SameOutside(image, image, off, len)
  {
  }

  lemma LandedIsCommitted(s: State, m: Issued, s': State)
    requires Landed(s, m, s')
    ensures MetaStep(s, Acknowledged(m), Finished(s, m, s'))
  {
    if s.group.backup.Some? && s.group.backup.value in s.images {
      SameImage(s.images[s.group.backup.value], s.walCursor, |m.entry|);
    }
  }

  function AcknowledgedTrace(t: Trace): Trace
    requires |t.metas| == 1
  {
    t.(metas := [Acknowledged(t.metas[0])])
  }

  /** The state in which a call issues its metadata operation: after its data phase, if it has one. */
  ghost predicate CommitsFrom(s: State, call: Call, t: Trace, before: State)
  {
    match call
    case AppendTo(_, _) => before == t.mid
    case FinishConversion(inode) =>
      inode in s.tables.inodes && before == if s.tables.inodes[inode].size == 0 then s else t.mid
    case WriteAt(inode, off, data) =>
      && inode in s.tables.inodes
      && before == if Max(s.tables.inodes[inode].size, off + |data|) == 0 then s else t.mid
    case Create(_, _, _, _, _, _, _) => false
    case _ => before == s
  }

  lemma AppendCompleted(cfg: Config, s: State, inode: InodeId, payload: seq<byte>, t: Trace, s': State)
    requires AppendStep(cfg, s, inode, payload, t, Err(Meta), s') && |t.metas| == 1 && Landed(t.mid, t.metas[0], s')
    ensures AppendStep(cfg, s, inode, payload, AcknowledgedTrace(t), Ok, Finished(t.mid, t.metas[0], s'))
  {
    LandedIsCommitted(t.mid, t.metas[0], s');
  }

  lemma RewriteCompleted(cfg: Config, s: State, inode: InodeId, convert: bool, content: seq<byte>, t: Trace, s': State,
                         before: State)
    requires inode in s.tables.inodes && RewriteStep(cfg, s, inode, convert, content, t, Err(Meta), s')
             && |t.metas| == 1
    requires before == (if content == [] then s else t.mid) && Landed(before, t.metas[0], s')
    ensures RewriteStep(cfg, s, inode, convert, content, AcknowledgedTrace(t), Ok, Finished(before, t.metas[0], s'))
  {
    LandedIsCommitted(before, t.metas[0], s');
  }

  lemma MetaOnlyCompleted(s: State, op: MetaOp, t: Trace, s': State)
    requires MetaOnlyStep(s, op, t, Err(Meta), s') && Landed(s, t.metas[0], s')
    ensures MetaOnlyStep(s, op, AcknowledgedTrace(t), Ok, Finished(s, t.metas[0], s'))
  {
    LandedIsCommitted(s, t.metas[0], s');
  }

  lemma ConvertCompleted(cfg: Config, s: State, inode: InodeId, t: Trace, s': State, before: State)
    requires Inv(s) && ConvertStep(cfg, s, inode, t, Err(Meta), s') && |t.metas| == 1
    requires CommitsFrom(s, FinishConversion(inode), t, before) && Landed(before, t.metas[0], s')
    ensures ConvertStep(cfg, s, inode, AcknowledgedTrace(t), Ok, Finished(before, t.metas[0], s'))
  {
    var rec := s.tables.inodes[inode];
    assert RecordOk(s, inode, rec);
    RecordReadable(s, inode, rec);
    RewriteCompleted(cfg, s, inode, true, Content(s.images, rec).value, t, s', before);
  }

  lemma WriteCompleted(cfg: Config, s: State, inode: InodeId, off: nat, data: seq<byte>, t: Trace, s': State,
                       before: State)
    requires Inv(s) && WriteStep(cfg, s, inode, off, data, t, Err(Meta), s') && |t.metas| == 1
    requires CommitsFrom(s, WriteAt(inode, off, data), t, before) && Landed(before, t.metas[0], s')
    ensures WriteStep(cfg, s, inode, off, data, AcknowledgedTrace(t), Ok, Finished(before, t.metas[0], s'))
  {
    var rec := s.tables.inodes[inode];
    assert RecordOk(s, inode, rec);
    RecordReadable(s, inode, rec);
    SpliceLength(Content(s.images, rec).value, off, data);
    RewriteCompleted(cfg, s, inode, false, Splice(Content(s.images, rec).value, off, data), t, s', before);
  }

  /** A call whose commit landed is, but for the acknowledgement, a successful call. */
  lemma StepCompleted(cfg: Config, s: State, call: Call, t: Trace, s': State, before: State)
    requires Inv(s) && Step(cfg, s, call, t, Err(Meta), s') && |t.metas| == 1
    requires CommitsFrom(s, call, t, before) && Landed(before, t.metas[0], s')
    ensures Step(cfg, s, call, AcknowledgedTrace(t), Ok, Finished(before, t.metas[0], s'))
  {
    match call
    case Remove(parent, name) => MetaOnlyCompleted(s, Unlink(parent, name), t, s');
    case SetPolicy(inode, scheme) => MetaOnlyCompleted(s, SetRedundancyScheme(inode, scheme), t, s');
    case StartConversion(inode) => MetaOnlyCompleted(s, BeginConvert(inode), t, s');
    case AppendTo(inode, payload) => AppendCompleted(cfg, s, inode, payload, t, s');
    case FinishConversion(inode) => ConvertCompleted(cfg, s, inode, t, s', before);
    case WriteAt(inode, off, data) => WriteCompleted(cfg, s, inode, off, data, t, s', before);
  }

  // ---- reopening after a crash ----

  /** A pool in order, with its log. */
  ghost predicate InOrder(s: State, ls: Log)
  {
    Inv(s) && GoodLog(s, ls)
  }

  /** Reopening yields the tables and the files of `done`, in a pool that is in order if and only if valid
      records reach the end of all live data. */
  ghost predicate ReopensTo(images: map<DiskId, seq<byte>>, group: MetaGroup, done: State)
  {
    && group.primary in images && Reopened(images, group).Some?
    && var v := Reopened(images, group).value;
       SameView(done.tables, v.tables) && FilesOf(v) == FilesOf(done) && (Inv(v) <==> AllCovered(done))
  }

  lemma OrderlyReopens(s: State, ls: Log, group: MetaGroup)
    requires InOrder(s, ls) && GroupIn(group, s) && LogEndsAt(s, s.walCursor)
    ensures ReopensTo(s.images, group, s)
  {
    ReopenYields(s, ls, group);
    ReopenSafeIff(s, ls, group);
  }

  lemma StepInOrder(cfg: Config, s: State, call: Call, t: Trace, r: Result, s': State, ls: Log) returns (ls': Log)
    requires PlacesApart(cfg) && InOrder(s, ls) && Step(cfg, s, call, t, r, s') && WalFits(s, t) && CallFits(s, call)
    requires Accepted(t)
    ensures InOrder(s', ls') && Means(FilesOf(s), call, r, FilesOf(s'))
  {
    StepRefines(cfg, s, call, t, r, s');
    ls' := StepLog(cfg, s, call, t, r, s', ls);
  }

  /** Any call, creation included, that ends in any way: if what is behind the log is no valid entry, the
      pool reopens as the call left it. */
  lemma CallReopens(cfg: Config, s: State, call: Call, t: Trace, r: Result, s': State, ls: Log, group: MetaGroup)
    requires PlacesApart(cfg) && InOrder(s, ls) && Step(cfg, s, call, t, r, s') && WalFits(s, t) && CallFits(s, call)
    requires Accepted(t) && GroupIn(group, s') && LogEndsAt(s', s'.walCursor)
    ensures ReopensTo(s'.images, group, s') && Means(FilesOf(s), call, r, FilesOf(s'))
  {
    var ls' := StepInOrder(cfg, s, call, t, r, s', ls);
    OrderlyReopens(s', ls', group);
  }

  /** No valid entry follows that of `m`, which was written from `before`. */
  ghost predicate EndsAfter(s: State, before: State, m: Issued)
  {
    LogEndsAt(s, before.walCursor + |m.entry|)
  }

  /** The same disks, and a log that ends behind the entry of `m`. */
  ghost predicate SameDisks(s: State, done: State, before: State, m: Issued)
  {
    && done.images == s.images && done.group.primary == s.group.primary
    && done.walCursor == before.walCursor + |m.entry|
  }

  lemma FinishedDisks(s: State, m: Issued, s': State, done: State)
    requires Landed(s, m, s') && done == Finished(s, m, s')
    ensures SameDisks(s', done, s, m)
  {
  }

  /** Reopening sees only the images, so it cannot tell a landed commit from a finished one. */
  lemma FinishedReopens(s: State, done: State, before: State, m: Issued, ls: Log, group: MetaGroup)
    requires SameDisks(s, done, before, m) && InOrder(done, ls) && GroupIn(group, s) && EndsAfter(s, before, m)
    ensures ReopensTo(s.images, group, done)
  {
    FinishedEnds(s, done, before, m, group);
    OrderlyReopens(done, ls, group);
  }

  lemma FinishedEnds(s: State, done: State, before: State, m: Issued, group: MetaGroup)
    requires SameDisks(s, done, before, m) && GroupIn(group, s) && EndsAfter(s, before, m)
    ensures GroupIn(group, done) && LogEndsAt(done, done.walCursor) && done.images == s.images
  {
  }

  lemma AcknowledgedFits(s: State, t: Trace)
    requires |t.metas| == 1 && WalFits(s, t) && WireFits(t.metas[0])
    ensures WalFits(s, AcknowledgedTrace(t)) && Accepted(AcknowledgedTrace(t))
  {
  }

  lemma LandedInOrder(cfg: Config, s: State, call: Call, t: Trace, s': State, before: State, done: State, ls: Log)
    returns (ls': Log)
    requires PlacesApart(cfg) && InOrder(s, ls) && Step(cfg, s, call, t, Err(Meta), s') && WalFits(s, t)
    requires CallFits(s, call) && |t.metas| == 1 && WireFits(t.metas[0])
    requires CommitsFrom(s, call, t, before) && Landed(before, t.metas[0], s')
    requires done == Finished(before, t.metas[0], s')
    ensures InOrder(done, ls') && Means(FilesOf(s), call, Ok, FilesOf(done))
  {
    StepCompleted(cfg, s, call, t, s', before);
    AcknowledgedFits(s, t);
    ls' := StepInOrder(cfg, s, call, AcknowledgedTrace(t), Ok, done, ls);
  }

  /** Up to its commit a call has only written data. */
  ghost predicate OnlyWrote(s: State, before: State)
  {
    DataOnly(s, before) && before.tables == s.tables
  }

  lemma AppendBefore(cfg: Config, s: State, inode: InodeId, payload: seq<byte>, t: Trace, s': State)
    requires Shape(s) && AppendStep(cfg, s, inode, payload, t, Err(Meta), s')
    ensures OnlyWrote(s, t.mid)
  {
    WriteDataOnly(s, t.ids.value, Frame(Segment, ChunkRecord(inode, |s.tables.inodes[inode].data.chunks|, payload)),
                  t.written, t.mid);
  }

  lemma RewriteBefore(cfg: Config, s: State, inode: InodeId, convert: bool, content: seq<byte>, t: Trace, s': State,
                      before: State)
    requires Shape(s) && inode in s.tables.inodes && RewriteStep(cfg, s, inode, convert, content, t, Err(Meta), s')
    requires before == if content == [] then s else t.mid
    ensures OnlyWrote(s, before)
  {
    if content != [] {
      WriteDataOnly(s, t.ids.value, content, t.written, t.mid);
    }
  }

  lemma ConvertBefore(cfg: Config, s: State, inode: InodeId, t: Trace, s': State, before: State)
    requires Inv(s) && ConvertStep(cfg, s, inode, t, Err(Meta), s')
    requires CommitsFrom(s, FinishConversion(inode), t, before)
    ensures OnlyWrote(s, before)
  {
    var rec := s.tables.inodes[inode];
    assert RecordOk(s, inode, rec);
    RecordReadable(s, inode, rec);
    RewriteBefore(cfg, s, inode, true, Content(s.images, rec).value, t, s', before);
  }

  lemma WriteBefore(cfg: Config, s: State, inode: InodeId, off: nat, data: seq<byte>, t: Trace, s': State,
                    before: State)
    requires Inv(s) && WriteStep(cfg, s, inode, off, data, t, Err(Meta), s')
    requires CommitsFrom(s, WriteAt(inode, off, data), t, before)
    ensures OnlyWrote(s, before)
  {
    var rec := s.tables.inodes[inode];
    assert RecordOk(s, inode, rec);
    RecordReadable(s, inode, rec);
    SpliceLength(Content(s.images, rec).value, off, data);
    RewriteBefore(cfg, s, inode, false, Splice(Content(s.images, rec).value, off, data), t, s', before);
  }

  lemma BeforeCommit(cfg: Config, s: State, call: Call, t: Trace, s': State, before: State)
    requires Inv(s) && Step(cfg, s, call, t, Err(Meta), s') && CommitsFrom(s, call, t, before)
    ensures OnlyWrote(s, before)
  {
    match call
    case AppendTo(inode, payload) => AppendBefore(cfg, s, inode, payload, t, s');
    case FinishConversion(inode) => ConvertBefore(cfg, s, inode, t, s', before);
    case WriteAt(inode, off, data) => WriteBefore(cfg, s, inode, off, data, t, s', before);
    case _ =>
  }

  /** Nothing happened. */
  ghost predicate Untouched(s: State, done: State)
  {
    SameView(s.tables, done.tables) && FilesOf(done) == FilesOf(s)
  }

  /** The call happened: its operation is in the tables and the files are as its success means. */
  ghost predicate Happened(s: State, call: Call, op: MetaOp, done: State)
  {
    ApplyOp(s.tables, op) == Some(done.tables) && Means(FilesOf(s), call, Ok, FilesOf(done))
  }

  lemma FailedReopens(cfg: Config, s: State, call: Call, t: Trace, r: Result, s': State, ls: Log, group: MetaGroup)
    requires PlacesApart(cfg) && InOrder(s, ls) && Step(cfg, s, call, t, r, s') && WalFits(s, t) && CallFits(s, call)
    requires Accepted(t) && r.Err? && !call.Create? && GroupIn(group, s')
    requires LogEndsAt(s', s'.walCursor)
    ensures ReopensTo(s'.images, group, s') && Untouched(s, s')
  {
    CallReopens(cfg, s, call, t, r, s', ls, group);
    FailedTables(cfg, s, call, t, r, s');
  }

  lemma LandedHappened(cfg: Config, s: State, call: Call, t: Trace, s': State, before: State, done: State, ls: Log)
    returns (ls': Log)
    requires PlacesApart(cfg) && InOrder(s, ls) && Step(cfg, s, call, t, Err(Meta), s') && WalFits(s, t)
    requires CallFits(s, call) && |t.metas| == 1 && WireFits(t.metas[0])
    requires CommitsFrom(s, call, t, before) && Landed(before, t.metas[0], s')
    requires done == Finished(before, t.metas[0], s')
    ensures InOrder(done, ls') && Happened(s, call, t.metas[0].op, done)
    ensures SameDisks(s', done, before, t.metas[0])
  {
    ls' := LandedInOrder(cfg, s, call, t, s', before, done, ls);
    BeforeCommit(cfg, s, call, t, s', before);
    FinishedDisks(before, t.metas[0], s', done);
  }

  /** The entry landed: the reopened pool has the call's effect. */
  lemma LandedReopens(cfg: Config, s: State, call: Call, t: Trace, s': State, before: State, ls: Log, group: MetaGroup)
    returns (done: State)
    requires PlacesApart(cfg) && InOrder(s, ls) && Step(cfg, s, call, t, Err(Meta), s') && WalFits(s, t)
    requires CallFits(s, call) && |t.metas| == 1 && WireFits(t.metas[0])
    requires CommitsFrom(s, call, t, before) && Landed(before, t.metas[0], s') && GroupIn(group, s')
    requires EndsAfter(s', before, t.metas[0])
    ensures ReopensTo(s'.images, group, done) && Happened(s, call, t.metas[0].op, done)
  {
    done := Finished(before, t.metas[0], s');
    var ls' := LandedHappened(cfg, s, call, t, s', before, done, ls);
    FinishedReopens(s', done, before, t.metas[0], ls', group);
  }

  /** Of the entry nothing, something that is not a valid entry, or all of it reached the primary. */
  ghost predicate CutCleanly(s: State, call: Call, t: Trace, r: Result, s': State, before: State)
  {
    || LogEndsAt(s', s'.walCursor)
    || (&& r == Err(Meta) && |t.metas| == 1 && CommitsFrom(s, call, t, before) && Landed(before, t.metas[0], s')
        && EndsAfter(s', before, t.metas[0]))
  }

  /** A call is interrupted: any number of its replicas are written, the last one perhaps torn, and its
      log entry is cut cleanly. Reopening succeeds with the tables and the files from before the call, or
      with those that its success means. */
  lemma CrashIsAtomic(cfg: Config, s: State, call: Call, t: Trace, r: Result, s': State, before: State, ls: Log,
                      group: MetaGroup)
    returns (done: State)
    requires PlacesApart(cfg) && InOrder(s, ls) && Step(cfg, s, call, t, r, s') && WalFits(s, t) && CallFits(s, call)
    requires Accepted(t) && r.Err? && !call.Create? && GroupIn(group, s') && CutCleanly(s, call, t, r, s', before)
    ensures ReopensTo(s'.images, group, done)
    ensures Untouched(s, done) || (|t.metas| == 1 && Happened(s, call, t.metas[0].op, done))
  {
    if LogEndsAt(s', s'.walCursor) {
      FailedReopens(cfg, s, call, t, r, s', ls, group);
      done := s';
    } else {
      done := LandedReopens(cfg, s, call, t, s', before, ls, group);
    }
  }

  // ---- creation: two commits ----

  function NewRecord(s: State, call: Call): InodeRecord
    requires call.Create?
  {
    NewFile(s.tables.nextInode, call.scheme, call.uid, call.gid, call.unixMode, call.now)
  }

  /** The new inode is there, empty, and no directory has changed. */
  ghost predicate InodeOnly(s: State, rec: InodeRecord, done: State)
  {
    && rec.inode !in s.tables.inodes && done.tables.inodes == s.tables.inodes[rec.inode := rec]
    && done.tables.dirs == s.tables.dirs && FilesOf(done) == FilesOf(s)[rec.inode := []]
  }

  /** The new inode is there, empty, under its name. */
  ghost predicate InodeLinked(s: State, rec: InodeRecord, parent: InodeId, name: seq<byte>, done: State)
  {
    && rec.inode !in s.tables.inodes && done.tables.inodes == s.tables.inodes[rec.inode := rec]
    && done.tables.dirs == s.tables.dirs[DirKey(parent, name) := rec.inode]
    && FilesOf(done) == FilesOf(s)[rec.inode := []]
  }

  /** An inode without its link is named by no directory. */
  lemma InodeOnlyUnnamed(s: State, rec: InodeRecord, done: State)
    requires Inv(s) && InodeOnly(s, rec, done)
    ensures forall k :: k in done.tables.dirs ==> done.tables.dirs[k] != rec.inode
  {
  }

  ghost predicate CreationOutcome(s: State, call: Call, done: State)
    requires call.Create?
  {
    || Untouched(s, done)
    || InodeOnly(s, NewRecord(s, call), done)
    || InodeLinked(s, NewRecord(s, call), call.parent, call.name, done)
  }

  lemma NewInodeUnused(s: State)
    requires Inv(s)
    ensures s.tables.nextInode !in s.tables.inodes && s.tables.nextInode !in FilesOf(s)
  {
  }

  lemma InodeInFiles(s: State, i: InodeId)
    requires i in s.tables.inodes && s.tables.inodes[i].data == ChunkLog([])
    ensures i in FilesOf(s)
  {
  }

  lemma FailedCreateTables(s: State, parent: InodeId, name: seq<byte>, rec: InodeRecord, t: Trace, s': State)
    requires CreateStep(s, parent, name, rec, t, Err(Meta), s') && Accepted(t)
    ensures |t.metas| == 1 ==> SameView(s.tables, s'.tables)
    ensures |t.metas| != 1 ==>
              s'.tables.inodes == s.tables.inodes[rec.inode := rec] && s'.tables.dirs == s.tables.dirs
  {
  }

  /** What a creation that fails has left, by how far it came. */
  lemma FailedCreation(s: State, parent: InodeId, name: seq<byte>, rec: InodeRecord, t: Trace, s': State)
    requires Inv(s) && CreateStep(s, parent, name, rec, t, Err(Meta), s') && WalFits(s, t) && Accepted(t)
    requires rec.mode.AppendOnly? && rec.size == 0 && rec.data == ChunkLog([]) && SchemeOk(rec.redundancy)
    ensures if |t.metas| == 1 then Untouched(s, s') else InodeOnly(s, rec, s')
  {
    CreateRefines(s, parent, name, rec, t, Err(Meta), s');
    FailedCreateTables(s, parent, name, rec, t, s');
    NewInodeUnused(s);
    if |t.metas| != 1 {
      InodeInFiles(s', rec.inode);
    }
  }

  // the link landed

  function LinkedTrace(t: Trace): Trace
    requires |t.metas| == 2
  {
    t.(metas := [t.metas[0], Acknowledged(t.metas[1])])
  }

  lemma LinkCompleted(s: State, parent: InodeId, name: seq<byte>, rec: InodeRecord, t: Trace, s': State, done: State)
    requires CreateStep(s, parent, name, rec, t, Err(Meta), s') && |t.metas| == 2 && Landed(t.mid, t.metas[1], s')
    requires done == Finished(t.mid, t.metas[1], s')
    ensures CreateStep(s, parent, name, rec, LinkedTrace(t), OkInode(rec.inode), done)
    ensures done.tables.inodes == s.tables.inodes[rec.inode := rec]
    ensures done.tables.dirs == s.tables.dirs[DirKey(parent, name) := rec.inode]
  {
    LandedIsCommitted(t.mid, t.metas[1], s');
  }

  lemma LinkedFits(s: State, t: Trace)
    requires |t.metas| == 2 && WalFits(s, t) && WireFits(t.metas[0]) && WireFits(t.metas[1])
    requires t.metas[0].result.Done?
    ensures WalFits(s, LinkedTrace(t)) && Accepted(LinkedTrace(t))
  {
  }

  lemma LinkInOrder(cfg: Config, s: State, call: Call, t: Trace, s': State, done: State, ls: Log) returns (ls': Log)
    requires PlacesApart(cfg) && InOrder(s, ls) && call.Create? && Step(cfg, s, call, t, Err(Meta), s')
    requires WalFits(s, t) && CallFits(s, call) && |t.metas| == 2 && WireFits(t.metas[0]) && WireFits(t.metas[1])
    requires Landed(t.mid, t.metas[1], s') && done == Finished(t.mid, t.metas[1], s')
    ensures InOrder(done, ls') && InodeLinked(s, NewRecord(s, call), call.parent, call.name, done)
    ensures SameDisks(s', done, t.mid, t.metas[1])
  {
    FinishedDisks(t.mid, t.metas[1], s', done);
    LinkCompleted(s, call.parent, call.name, NewRecord(s, call), t, s', done);
    LinkedFits(s, t);
    NewInodeUnused(s);
    ls' := StepInOrder(cfg, s, call, LinkedTrace(t), OkInode(s.tables.nextInode), done, ls);
  }

  /** The link landed: the reopened pool has the new file, linked. */
  lemma LandedLinkReopens(cfg: Config, s: State, call: Call, t: Trace, s': State, ls: Log, group: MetaGroup)
    returns (done: State)
    requires PlacesApart(cfg) && InOrder(s, ls) && call.Create? && Step(cfg, s, call, t, Err(Meta), s')
    requires WalFits(s, t) && CallFits(s, call) && |t.metas| == 2 && WireFits(t.metas[0]) && WireFits(t.metas[1])
    requires Landed(t.mid, t.metas[1], s') && GroupIn(group, s')
    requires EndsAfter(s', t.mid, t.metas[1])
    ensures ReopensTo(s'.images, group, done)
    ensures InodeLinked(s, NewRecord(s, call), call.parent, call.name, done)
  {
    done := Finished(t.mid, t.metas[1], s');
    var ls' := LinkInOrder(cfg, s, call, t, s', done, ls);
    FinishedReopens(s', done, t.mid, t.metas[1], ls', group);
  }

  // only the inode landed

  lemma AllocatedInOrder(s: State, ls: Log)
    requires InOrder(s, ls)
    ensures InOrder(Allocated(s), ls) && FilesOf(Allocated(s)) == FilesOf(s)
  {
    KeptRefl(s);
    SameRecords(s, Allocated(s));
    DataKeepsLog(s, ls, Allocated(s));
  }

  lemma CreateInOrder(s: State, m: Issued, s': State, ls: Log) returns (ls': Log)
    requires InOrder(s, ls) && MetaStep(s, m, s') && s.walCursor + |m.entry| <= WAL_CAPACITY && WireFits(m)
    requires m.op.CreateInode? && m.result.Done? && m.op.rec.inode !in s.tables.inodes
    requires var rec := m.op.rec;
             rec.mode.AppendOnly? && rec.size == 0 && rec.data == ChunkLog([]) && SchemeOk(rec.redundancy)
    ensures InOrder(s', ls') && InodeOnly(s, m.op.rec, s')
  {
    InodeCreated(s, m, s');
    ls' := MetaGoodLog(s, ls, m, s');
  }

  lemma InodeInOrder(s: State, m: Issued, s': State, done: State, ls: Log) returns (ls': Log)
    requires InOrder(s, ls) && Landed(Allocated(s), m, s') && done == Finished(Allocated(s), m, s') && WireFits(m)
    requires s.walCursor + |m.entry| <= WAL_CAPACITY && m.op.CreateInode? && m.op.rec.inode == s.tables.nextInode
    requires var rec := m.op.rec;
             rec.mode.AppendOnly? && rec.size == 0 && rec.data == ChunkLog([]) && SchemeOk(rec.redundancy)
    ensures InOrder(done, ls') && InodeOnly(s, m.op.rec, done) && SameDisks(s', done, Allocated(s), m)
  {
    FinishedDisks(Allocated(s), m, s', done);
    AllocatedInOrder(s, ls);
    NewInodeUnused(s);
    LandedIsCommitted(Allocated(s), m, s');
    ls' := CreateInOrder(Allocated(s), Acknowledged(m), done, ls);
  }

  /** Only the inode landed: the reopened pool has a new empty file that no directory names. */
  lemma LandedInodeReopens(s: State, m: Issued, s': State, ls: Log, group: MetaGroup)
    returns (done: State)
    requires InOrder(s, ls) && Landed(Allocated(s), m, s') && WireFits(m) && GroupIn(group, s')
    requires s.walCursor + |m.entry| <= WAL_CAPACITY && m.op.CreateInode? && m.op.rec.inode == s.tables.nextInode
    requires var rec := m.op.rec;
             rec.mode.AppendOnly? && rec.size == 0 && rec.data == ChunkLog([]) && SchemeOk(rec.redundancy)
    requires EndsAfter(s', Allocated(s), m)
    ensures ReopensTo(s'.images, group, done) && InodeOnly(s, m.op.rec, done)
  {
    done := Finished(Allocated(s), m, s');
    var ls' := InodeInOrder(s, m, s', done, ls);
    FinishedReopens(s', done, Allocated(s), m, ls', group);
  }

  /** Of the entry the creation failed on nothing, something that is not a valid entry, or all of it
      reached the primary. */
  ghost predicate CreationCut(s: State, t: Trace, s': State)
  {
    LogEndsAt(s', s'.walCursor) || InodeLanded(s, t, s') || LinkLanded(t, s')
  }

  ghost predicate InodeLanded(s: State, t: Trace, s': State)
  {
    |t.metas| == 1 && Landed(Allocated(s), t.metas[0], s') && EndsAfter(s', Allocated(s), t.metas[0])
  }

  ghost predicate LinkLanded(t: Trace, s': State)
  {
    |t.metas| == 2 && Landed(t.mid, t.metas[1], s') && EndsAfter(s', t.mid, t.metas[1])
  }

  lemma FailedCreationReopens(cfg: Config, s: State, call: Call, t: Trace, s': State, ls: Log, group: MetaGroup)
    requires PlacesApart(cfg) && InOrder(s, ls) && call.Create? && Step(cfg, s, call, t, Err(Meta), s') && WalFits(s, t)
    requires CallFits(s, call) && Accepted(t) && GroupIn(group, s') && LogEndsAt(s', s'.walCursor)
    ensures ReopensTo(s'.images, group, s') && CreationOutcome(s, call, s')
  {
    CallReopens(cfg, s, call, t, Err(Meta), s', ls, group);
    FailedCreation(s, call.parent, call.name, NewRecord(s, call), t, s');
  }

  lemma InodeCrash(cfg: Config, s: State, call: Call, t: Trace, s': State, ls: Log, group: MetaGroup)
    returns (done: State)
    requires InOrder(s, ls) && call.Create? && Step(cfg, s, call, t, Err(Meta), s') && WalFits(s, t)
    requires CallFits(s, call) && Accepted(t) && GroupIn(group, s') && InodeLanded(s, t, s')
    ensures ReopensTo(s'.images, group, done) && CreationOutcome(s, call, done)
  {
    done := LandedInodeReopens(s, t.metas[0], s', ls, group);
  }

  lemma LinkCrash(cfg: Config, s: State, call: Call, t: Trace, s': State, ls: Log, group: MetaGroup)
    returns (done: State)
    requires PlacesApart(cfg) && InOrder(s, ls) && call.Create? && Step(cfg, s, call, t, Err(Meta), s') && WalFits(s, t)
    requires CallFits(s, call) && Accepted(t) && GroupIn(group, s') && LinkLanded(t, s')
    ensures ReopensTo(s'.images, group, done) && CreationOutcome(s, call, done)
  {
    done := LandedLinkReopens(cfg, s, call, t, s', ls, group);
  }

  /** An interrupted creation: after reopening nothing has happened, or there is one new empty file that no
      directory names, or the creation is complete. */
  lemma CreationCrash(cfg: Config, s: State, call: Call, t: Trace, s': State, ls: Log, group: MetaGroup)
    returns (done: State)
    requires PlacesApart(cfg) && InOrder(s, ls) && call.Create? && Step(cfg, s, call, t, Err(Meta), s') && WalFits(s, t)
    requires CallFits(s, call) && Accepted(t) && GroupIn(group, s') && CreationCut(s, t, s')
    ensures ReopensTo(s'.images, group, done) && CreationOutcome(s, call, done)
  {
    if LogEndsAt(s', s'.walCursor) {
      FailedCreationReopens(cfg, s, call, t, s', ls, group);
      done := s';
    } else if InodeLanded(s, t, s') {
      done := InodeCrash(cfg, s, call, t, s', ls, group);
    } else {
      done := LinkCrash(cfg, s, call, t, s', ls, group);
    }
  }

  // ---- a commit torn over zeros ----

  /** Of the entry of `m` exactly the first `n` bytes reached the primary. */
  ghost predicate TornAfter(before: State, m: Issued, s': State, n: nat)
  {
    && MetaStep(before, m, s') && m.result.CommitFailed? && n <= |m.entry|
    && s'.images[before.group.primary] == Patch(before.images[before.group.primary], before.walCursor, m.entry[..n])
  }

  lemma TornGroup(before: State, m: Issued, s': State, n: nat)
    requires TornAfter(before, m, s', n)
    ensures s'.group == before.group && s'.walCursor == before.walCursor
    ensures before.group.primary in before.images && before.group.primary in s'.images
  {
  }

  lemma TornEnds(before: State, m: Issued, s': State, n: nat)
    requires Shape(before) && ZeroPastLog(before) && TornAfter(before, m, s', n) && WireFits(m)
    requires before.walCursor + |m.entry| <= WAL_CAPACITY
    ensures 12 <= |m.entry| && (!Passes(m.entry, n) ==> LogEndsAt(s', s'.walCursor))
  {
    var l := LoggedAs(m);
    var payload, c := Codec.PutOp(l.op, l.order), before.walCursor;
    TornHolds(before.images[before.group.primary], c, m.entry, n);
    TornEndsIff(s'.images[s'.group.primary], c, payload, n);
  }

  lemma ZerosLostLands(before: State, m: Issued, s': State, n: nat)
    requires Shape(before) && ZeroPastLog(before) && TornAfter(before, m, s', n) && OnlyZerosLost(m.entry, n)
    requires before.walCursor + |m.entry| <= WAL_CAPACITY && ApplyOp(before.tables, m.op).Some?
    ensures Landed(before, m, s') && EndsAfter(s', before, m)
  {
    TornGroup(before, m, s', n);
    var p, end := before.group.primary, before.walCursor + |m.entry|;
    LostEnds(before, m, n, before.images[p], s'.images[p], end);
  }

  lemma LostEnds(before: State, m: Issued, n: nat, image: seq<byte>, image': seq<byte>, end: nat)
    requires ZeroPastLog(before) && image == before.images[before.group.primary] && WAL_CAPACITY <= |image|
    requires n <= |m.entry| && image' == Patch(image, before.walCursor, m.entry[..n]) && OnlyZerosLost(m.entry, n)
    requires end == before.walCursor + |m.entry| <= WAL_CAPACITY
    ensures image' == Patch(image, before.walCursor, m.entry) && Ends(Wal, image', 0, end)
  {
    ZerosLostEnds(image, before.walCursor, m.entry, n, image', end);
  }

  /** A tear that does not pass for a valid entry, or that lost only zeros, is a clean cut. */
  lemma TornIsCutCleanly(cfg: Config, s: State, call: Call, t: Trace, s': State, before: State, n: nat)
    requires Inv(s) && ZeroPastLog(s) && Step(cfg, s, call, t, Err(Meta), s') && |t.metas| == 1 && WalFits(s, t)
    requires CommitsFrom(s, call, t, before) && TornAfter(before, t.metas[0], s', n) && WireFits(t.metas[0])
    requires ApplyOp(s.tables, t.metas[0].op).Some? && 12 <= |t.metas[0].entry|
    requires !Passes(t.metas[0].entry, n) || OnlyZerosLost(t.metas[0].entry, n)
    ensures CutCleanly(s, call, t, Err(Meta), s', before)
  {
    BeforeCommit(cfg, s, call, t, s', before);
    DataKeepsZero(s, before);
    if !Passes(t.metas[0].entry, n) {
      TornEnds(before, t.metas[0], s', n);
    } else {
      ZerosLostLands(before, t.metas[0], s', n);
    }
  }

  /** Crash atomicity by the byte: the commit of a call reached the primary up to byte `n`. Unless the cut
      entry passes for another valid one, reopening has all of the call or nothing. */
  lemma TornCallIsAtomic(cfg: Config, s: State, call: Call, t: Trace, s': State, before: State, n: nat, ls: Log,
                         group: MetaGroup)
    returns (done: State)
    requires PlacesApart(cfg) && InOrder(s, ls) && ZeroPastLog(s) && Step(cfg, s, call, t, Err(Meta), s')
    requires WalFits(s, t) && CallFits(s, call) && Accepted(t) && |t.metas| == 1 && GroupIn(group, s')
    requires CommitsFrom(s, call, t, before) && TornAfter(before, t.metas[0], s', n)
    requires ApplyOp(s.tables, t.metas[0].op).Some? && 12 <= |t.metas[0].entry|
    requires !Passes(t.metas[0].entry, n) || OnlyZerosLost(t.metas[0].entry, n)
    ensures ReopensTo(s'.images, group, done)
    ensures Untouched(s, done) || Happened(s, call, t.metas[0].op, done)
  {
    TornIsCutCleanly(cfg, s, call, t, s', before, n);
    done := CrashIsAtomic(cfg, s, call, t, Err(Meta), s', before, ls, group);
  }

  // ---- the metadata group after reopening ----

  lemma HoldsIff(a: seq<byte>, b: seq<byte>, buf: seq<byte>)
    requires Holds(a, 0, buf)
    ensures Holds(b, 0, buf) <==> R.SameUpTo(b, a, |buf|)
  {
    assert a[0..|buf|] == a[..|buf|];
    if |buf| <= |b| {
      assert b[0..|buf|] == b[..|buf|];
    }
  }

  /** Fencing is not remembered: the reopened group names its backup again. It is a replicated group if
      and only if that backup agrees with the primary on every byte below the WAL cursor. */
  lemma ReopenReplicatedIff(s: State, log: Payloads, fenced: seq<R.Fenced>, group: MetaGroup, s': State)
    requires PoolReplication.Replicated(s, log, fenced) && GroupIn(group, s) && Reopened(s.images, group) == Some(s')
    requires Shape(s') && s'.walCursor == s.walCursor
    ensures PoolReplication.Replicated(s', log, [])
            <==> (group.backup.Some? ==>
                    R.SameUpTo(s.images[group.backup.value], s.images[group.primary], s.walCursor))
  {
    if group.backup.Some? {
      HoldsIff(s.images[group.primary], s.images[group.backup.value], R.LogBytes(log));
    }
  }
}

/** The metadata log of a running pool: the live tables always agree with the log on the primary, a
    reopened store gets them back, and every prefix of the log describes well-formed metadata. */
module PoolLog {
  import opened Proto
  import opened Bytes
  import opened Crc32c
  import opened Framing
  import opened Codec
  import opened Store
  import opened PoolModel
  import opened PoolInvariant
  import opened PoolRefinement
  import MetaStore

  // ---- a call as a data phase followed by metadata operations ----

  /** The WAL region of an image is unchanged. */
  predicate WalSame(image: seq<byte>, image': seq<byte>)
  {
    SEG <= |image| && SEG <= |image'| && image'[..SEG] == image[..SEG]
  }

  /** Only data regions, data cursors and the inode counter changed. */
  ghost predicate DataOnly(s: State, s': State)
  {
    && s'.group == s.group && s'.walCursor == s.walCursor
    && SameView(s.tables, s'.tables) && s.tables.nextInode <= s'.tables.nextInode
    && Shape(s') && s'.images.Keys == s.images.Keys
    && forall id :: id in s.images ==> WalSame(s.images[id], s'.images[id])
  }

  lemma WriteDataOnly(s: State, ids: seq<DiskId>, bytes: seq<byte>, k: nat, s': State)
    requires Shape(s) && WroteReplicas(s, ids, bytes, k, s')
    ensures DataOnly(s, s')
  {
    WriteKeeps(s, ids, bytes, k, s');
    forall id | id in s.images
      ensures WalSame(s.images[id], s'.images[id])
    {
      WriteKeepsWal(s, ids, bytes, k, s', id);
    }
  }

  lemma WriteKeepsWal(s: State, ids: seq<DiskId>, bytes: seq<byte>, k: nat, s': State, id: DiskId)
    requires Shape(s) && WroteReplicas(s, ids, bytes, k, s') && id in s.images
    ensures WalSame(s.images[id], s'.images[id])
  {
    assert SEG + s.cursors[id] <= |s.images[id]|;
    if id in ids[..k] {
      PatchSameOutside(s.images[id], SEG + s.cursors[id], bytes);
      WalUntouched(s.images[id], s'.images[id], SEG + s.cursors[id], |bytes|);
    } else if k < |ids| && id == ids[k] {
      WalUntouched(s.images[id], s'.images[id], SEG + s.cursors[id], |bytes|);
    }
  }

  lemma WalUntouched(image: seq<byte>, image': seq<byte>, off: nat, len: nat)
    requires SEG <= |image| && SEG <= off && SameOutside(image, image', off, len)
    ensures WalSame(image, image')
  {
  }

  /** The states a call goes through: its data phase, then one metadata operation after another. */
  ghost predicate Phases(s: State, states: seq<State>, ms: seq<Issued>, s': State)
  {
    && |states| == |ms| + 1 && DataOnly(s, states[0]) && states[|ms|] == s'
    && forall i :: 0 <= i < |ms| ==> MetaStep(states[i], ms[i], states[i + 1])
  }

  lemma OnePhase(s: State, mid: State, m: Issued, s': State)
    requires DataOnly(s, mid) && MetaStep(mid, m, s')
    ensures Phases(s, [mid, s'], [m], s')
  {
  }

  // ---- the log on the primary ----

  /** The log is on the primary up to the WAL cursor and the live tables are its fold. */
  ghost predicate LogInv(s: State, ls: Log)
  {
    && s.group.primary in s.images && LogOn(s.images[s.group.primary], ls)
    && s.walCursor == LogLen(ls) <= WAL_CAPACITY
    && LogFits(ls) && Agrees(s.tables, ls)
  }

  lemma WalSameHolds(image: seq<byte>, image': seq<byte>, buf: seq<byte>)
    requires WalSame(image, image') && Holds(image, 0, buf) && |buf| <= SEG
    ensures Holds(image', 0, buf)
  {
    assert image'[0..|buf|] == image'[..SEG][..|buf|] == image[..SEG][..|buf|] == image[0..|buf|];
  }

  lemma DataKeepsLog(s: State, ls: Log, s': State)
    requires LogInv(s, ls) && DataOnly(s, s')
    ensures LogInv(s', ls)
  {
    WalSameHolds(s.images[s.group.primary], s'.images[s.group.primary], Frames(Wal, Entries(ls)));
  }

  /** A logged operation whose fields fit the wire format. */
  ghost predicate WireFits(m: Issued)
  {
    OpFits(m.op) && MetaStore.EntryFor(m.op, m.entry)
  }

  lemma HoldsAppended(image: seq<byte>, fs: seq<byte>, e: seq<byte>)
    requires Holds(image, 0, fs) && e != []
    ensures Holds(Patch(image, |fs|, e), 0, fs + e)
  {
    PatchSameOutside(image, |fs|, e);
    HoldsOutside(image, Patch(image, |fs|, e), |fs|, |e|, 0, fs);
    HoldsJoin(Patch(image, |fs|, e), 0, fs, e);
  }

  lemma LogExtended(image: seq<byte>, ls: Log, l: Logged)
    requires LogOn(image, ls) && OrderOk(l)
    ensures LogLen(Extend(ls, l)) == LogLen(ls) + |WalBytes(l.op, l.order)|
    ensures LogOn(Patch(image, LogLen(ls), WalBytes(l.op, l.order)), Extend(ls, l))
  {
    FramesExtended(ls, l);
    HoldsAppended(image, Frames(Wal, Entries(ls)), WalBytes(l.op, l.order));
  }

  lemma SnocFits(ls: Log, l: Logged)
    requires LogFits(ls) && LoggedFits(l)
    ensures OrderOk(l) && LogFits(Extend(ls, l))
  {
  }

  /** A failed commit leaves the log as it was. */
  lemma FailedCommitLog(s: State, ls: Log, m: Issued, s': State)
    requires LogInv(s, ls) && MetaStep(s, m, s') && m.result.CommitFailed?
    ensures LogInv(s', ls)
  {
    var p := s.group.primary;
    HoldsOutside(s.images[p], s'.images[p], s.walCursor, |m.entry|, 0, Frames(Wal, Entries(ls)));
  }

  /** The operation as it stands in the log. */
  lemma LoggedAs(m: Issued) returns (l: Logged)
    requires WireFits(m) && |m.entry| <= WAL_CAPACITY
    ensures LoggedFits(l) && OrderOk(l) && l.op == m.op && m.entry == WalBytes(l.op, l.order)
  {
    var order :| MetaStore.EncodesAs(m.op, order, m.entry);
    l := Logged(m.op, order);
  }

  /** A committed and accepted operation extends the log by itself. */
  lemma AppliedLog(s: State, ls: Log, l: Logged, entry: seq<byte>, s': State)
    requires LogInv(s, ls) && LoggedFits(l) && OrderOk(l) && entry == WalBytes(l.op, l.order)
    requires s'.group.primary == s.group.primary && s.group.primary in s'.images
    requires s'.images[s.group.primary] == Patch(s.images[s.group.primary], s.walCursor, entry)
    requires s'.walCursor == s.walCursor + |entry| <= WAL_CAPACITY
    requires ApplyOp(s.tables, l.op) == Some(s'.tables)
    ensures LogInv(s', Extend(ls, l))
  {
    SnocFits(ls, l);
    LogExtended(s.images[s.group.primary], ls, l);
    AgreesAfterApply(s.tables, ls, l);
  }

  /** The log after a metadata operation that was not rejected. */
  lemma MetaLog(s: State, ls: Log, m: Issued, s': State) returns (ls': Log)
    requires LogInv(s, ls) && MetaStep(s, m, s') && WireFits(m) && !m.result.InvalidOp?
    requires s.walCursor + |m.entry| <= WAL_CAPACITY
    ensures LogInv(s', ls')
    ensures m.result.CommitFailed? ==> ls' == ls
    ensures m.result.Done? ==> |ls'| == |ls| + 1 && ls'[..|ls|] == ls && ls'[|ls|].op == m.op
  {
    if m.result.CommitFailed? {
      FailedCommitLog(s, ls, m, s');
      ls' := ls;
    } else {
      ls' := DoneLog(s, ls, m, s');
    }
  }

  lemma MetaDone(s: State, m: Issued, s': State)
    requires MetaStep(s, m, s') && !m.result.CommitFailed?
    ensures s'.group.primary == s.group.primary && s.group.primary in s.images && s.group.primary in s'.images
    ensures s'.images[s.group.primary] == Patch(s.images[s.group.primary], s.walCursor, m.entry)
    ensures s'.walCursor == s.walCursor + |m.entry|
    ensures m.result.Done? ==> ApplyOp(s.tables, m.op) == Some(s'.tables)
    ensures m.result.InvalidOp? ==> ApplyOp(s.tables, m.op).None?
  {
  }

  lemma DoneLog(s: State, ls: Log, m: Issued, s': State) returns (ls': Log)
    requires LogInv(s, ls) && MetaStep(s, m, s') && WireFits(m) && m.result.Done?
    requires s.walCursor + |m.entry| <= WAL_CAPACITY
    ensures LogInv(s', ls') && |ls'| == |ls| + 1 && ls'[..|ls|] == ls && ls'[|ls|].op == m.op
  {
    var l := LoggedAs(m);
    MetaDone(s, m, s');
    AppliedLog(s, ls, l, m.entry, s');
    ls' := Extend(ls, l);
  }

  // ---- what the pool logs ----

  /** Operations as the pool issues them, given the tables before: fresh empty files, links to existing
      inodes, chunks in sequence, and conversions that record the whole file. */
  ghost predicate PoolIssued(t: Tables, op: MetaOp)
  {
    match op
    case CreateInode(rec) =>
      && rec.inode !in t.inodes && rec.size == 0
      && ((rec.mode.AppendOnly? && rec.data == ChunkLog([])) || (rec.mode.Writable? && rec.data == Extents([])))
    case Link(_, _, child) => child in t.inodes
    case AppendChunk(inode, chunk) =>
      inode in t.inodes && t.inodes[inode].data.ChunkLog? && chunk.chunkSeq == |t.inodes[inode].data.chunks|
    case CompleteConvert(inode, extents) => inode in t.inodes && t.inodes[inode].size == ExtentsEnd(extents)
    case PoolMapChange(_) => false
    case MetaGroupChange(_) => false
    case _ => true
  }

  /** The metadata is well formed: Writable exactly when the data is extents, chunk i has sequence
      number i, the size is the sum of chunk lengths or the end of the last extent, every directory
      entry names an existing inode, and the counter is above every inode. */
  ghost predicate MetaOk(t: Tables)
  {
    && (forall i :: i in t.inodes ==> RecordShape(i, t.inodes[i]))
    && DirsOk(t) && CounterAbove(t)
  }

  /** Modes never move back and inodes never disappear. */
  ghost predicate ModesForward(t: Tables, t': Tables)
  {
    forall i :: i in t.inodes ==> i in t'.inodes && ModeCode(t.inodes[i].mode) <= ModeCode(t'.inodes[i].mode)
  }

  lemma RecordShapeKept(i: InodeId, rec: InodeRecord, t: Tables, op: MetaOp)
    requires RecordShape(i, rec) && OnInode(op) && op.inode == i && i in t.inodes && t.inodes[i] == rec
    requires PoolIssued(t, op) && ApplyToInode(rec, op).Some?
    ensures RecordShape(i, ApplyToInode(rec, op).value)
    ensures ModeCode(rec.mode) <= ModeCode(ApplyToInode(rec, op).value.mode)
  {
    OneWayModes(rec.mode);
    if op.AppendChunk? {
      var cs := rec.data.chunks + [op.chunk];
      assert cs[..|cs| - 1] == rec.data.chunks;
    }
  }

  /** Every operation of the pool keeps the metadata well formed. */
  lemma IssuedKeepsMeta(t: Tables, op: MetaOp)
    requires MetaOk(t) && PoolIssued(t, op) && ApplyOp(t, op).Some?
    ensures MetaOk(ApplyOp(t, op).value) && ModesForward(t, ApplyOp(t, op).value)
  {
    var t' := ApplyOp(t, op).value;
    if OnInode(op) {
      assert WellFiled(t);
      Applied(t, op, t');
      RecordShapeKept(op.inode, t.inodes[op.inode], t, op);
    }
  }

  ghost predicate PrefixReplays(ls: seq<Logged>, k: nat)
    requires k < |ls|
  {
    Replay(EMPTY, Ops(ls[..k])).Some? && PoolIssued(Replay(EMPTY, Ops(ls[..k])).value, ls[k].op)
  }

  /** Every entry of the log was issued by the pool on the tables folded before it. */
  ghost predicate IssuedLog(ls: seq<Logged>)
  {
    forall k: nat :: k < |ls| ==> PrefixReplays(ls, k)
  }

  lemma {:induction false} PrefixReplay(ls: seq<Logged>, k: nat)
    requires k <= |ls| && Replay(EMPTY, Ops(ls)).Some?
    ensures Replay(EMPTY, Ops(ls[..k])).Some?
    ensures k < |ls| ==> Replay(EMPTY, Ops(ls[..k + 1])) == ApplyOp(Replay(EMPTY, Ops(ls[..k])).value, ls[k].op)
    decreases |ls| - k
  {
    if k == |ls| {
      assert ls[..k] == ls;
    } else {
      PrefixReplay(ls, k + 1);
      assert Ops(ls[..k + 1]) == Ops(ls[..k]) + [ls[k].op];
      ReplaySnoc(EMPTY, Ops(ls[..k]), ls[k].op);
    }
  }

  /** Every prefix of a log issued by the pool folds into well-formed metadata, and along the log
      modes never move back. */
  lemma {:induction false} PrefixMetaOk(ls: seq<Logged>, k: nat)
    requires IssuedLog(ls) && Replay(EMPTY, Ops(ls)).Some? && k <= |ls|
    ensures Replay(EMPTY, Ops(ls[..k])).Some? && MetaOk(Replay(EMPTY, Ops(ls[..k])).value)
    ensures 0 < k ==> Replay(EMPTY, Ops(ls[..k - 1])).Some?
                      && ModesForward(Replay(EMPTY, Ops(ls[..k - 1])).value, Replay(EMPTY, Ops(ls[..k])).value)
  {
    PrefixReplay(ls, k);
    if k == 0 {
      assert Ops(ls[..0]) == [];
    } else {
      PrefixMetaOk(ls, k - 1);
      PrefixReplay(ls, k - 1);
      assert PrefixReplays(ls, k - 1);
      IssuedKeepsMeta(Replay(EMPTY, Ops(ls[..k - 1])).value, ls[k - 1].op);
    }
  }

  lemma ForwardTrans(a: Tables, b: Tables, c: Tables)
    requires ModesForward(a, b) && ModesForward(b, c)
    ensures ModesForward(a, c)
  {
  }

  /** The tables after the first `i` entries. */
  ghost predicate FoldsTo(ls: seq<Logged>, i: nat, t: Tables)
  {
    i <= |ls| && Replay(EMPTY, Ops(ls[..i])) == Some(t)
  }

  lemma FoldNext(ls: seq<Logged>, i: nat, next: nat, t: Tables) returns (t': Tables)
    requires IssuedLog(ls) && Replay(EMPTY, Ops(ls)).Some? && next == i + 1 <= |ls| && FoldsTo(ls, i, t)
    ensures FoldsTo(ls, next, t') && ModesForward(t, t')
  {
    PrefixMetaOk(ls, i + 1);
    t' := Replay(EMPTY, Ops(ls[..i + 1])).value;
  }

  /** Between any two prefixes modes only move forward. */
  lemma {:induction false} PrefixModes(ls: seq<Logged>, j: nat, k: nat, t: Tables) returns (t': Tables)
    requires IssuedLog(ls) && Replay(EMPTY, Ops(ls)).Some? && j <= k <= |ls| && FoldsTo(ls, j, t)
    ensures FoldsTo(ls, k, t') && ModesForward(t, t')
    decreases k
  {
    if j == k {
      t' := t;
    } else {
      var before := k - 1;
      var mid := PrefixModes(ls, j, before, t);
      t' := FoldNext(ls, before, k, mid);
      ForwardTrans(t, mid, t');
    }
  }

  // ---- a call issues only the pool's own operations ----

  /** Each operation was issued on the tables before it and fits the WAL. */
  ghost predicate Issues(s: State, states: seq<State>, ms: seq<Issued>, s': State)
  {
    && Phases(s, states, ms, s')
    && forall i :: 0 <= i < |ms| ==>
        PoolIssued(states[i].tables, ms[i].op)
        && states[i].walCursor + |ms[i].entry| <= WAL_CAPACITY
  }

  lemma SameViewIssued(t: Tables, t': Tables, op: MetaOp)
    requires SameView(t, t') && PoolIssued(t, op)
    ensures PoolIssued(t', op)
  {
  }

  lemma OneIssue(s: State, mid: State, m: Issued, s': State)
    requires DataOnly(s, mid) && MetaStep(mid, m, s') && PoolIssued(s.tables, m.op)
             && s.walCursor + |m.entry| <= WAL_CAPACITY
    ensures Issues(s, [mid, s'], [m], s')
  {
    OnePhase(s, mid, m, s');
    SameViewIssued(s.tables, mid.tables, m.op);
  }

  lemma AppendPhases(cfg: Config, s: State, inode: InodeId, payload: seq<byte>, t: Trace, r: Result, s': State)
    returns (states: seq<State>, ms: seq<Issued>)
    requires Inv(s) && AppendStep(cfg, s, inode, payload, t, r, s') && WalFits(s, t)
    ensures Issues(s, states, ms, s') && ms <= t.metas
  {
    states, ms := [s'], [];
    if inode in s.tables.inodes && !s.tables.inodes[inode].mode.Writable? && s.tables.inodes[inode].data.ChunkLog?
        && t.ids.Some? {
      var frame := Frame(Segment, ChunkRecord(inode, |s.tables.inodes[inode].data.chunks|, payload));
      WriteDataOnly(s, t.ids.value, frame, t.written, t.mid);
      if t.written == |t.ids.value| {
        states, ms := [t.mid, s'], [t.metas[0]];
        OneIssue(s, t.mid, t.metas[0], s');
      }
    }
  }

  /** Recording the whole content as one extent is what the pool issues. */
  lemma RewriteIssued(t: Tables, inode: InodeId, convert: bool, content: seq<byte>, xs: seq<Extent>)
    requires inode in t.inodes && |content| < U32 && (convert ==> t.inodes[inode].size == |content|)
    requires if content == [] then xs == [] else |xs| == 1 && xs[0].fileOffset == 0 && xs[0].len == |content| % U32
    ensures PoolIssued(t, ExtentsOp(convert, inode, xs))
  {
    WordMod(|content|);
    if content != [] {
      assert xs[1..] == [] && ExtentsEnd([]) == 0;
    }
  }

  lemma RewritePhases(cfg: Config, s: State, inode: InodeId, convert: bool, content: seq<byte>, t: Trace, r: Result,
                      s': State)
    returns (states: seq<State>, ms: seq<Issued>)
    requires Inv(s) && inode in s.tables.inodes && RewriteStep(cfg, s, inode, convert, content, t, r, s')
             && WalFits(s, t)
    requires |content| < U32 && (convert ==> s.tables.inodes[inode].size == |content|)
    ensures Issues(s, states, ms, s') && ms <= t.metas
  {
    if content == [] {
      states, ms := [s, s'], [t.metas[0]];
      RewriteIssued(s.tables, inode, convert, content, []);
      OneIssue(s, s, t.metas[0], s');
    } else {
      states, ms := ExtentPhases(cfg, s, inode, convert, content, t, r, s');
    }
  }

  lemma ExtentPhases(cfg: Config, s: State, inode: InodeId, convert: bool, content: seq<byte>, t: Trace, r: Result,
                     s': State)
    returns (states: seq<State>, ms: seq<Issued>)
    requires Inv(s) && inode in s.tables.inodes && RewriteStep(cfg, s, inode, convert, content, t, r, s')
             && WalFits(s, t)
    requires 0 < |content| < U32 && (convert ==> s.tables.inodes[inode].size == |content|)
    ensures Issues(s, states, ms, s') && ms <= t.metas
  {
    states, ms := [s'], [];
    if t.ids.Some? {
      var ids := t.ids.value;
      WriteDataOnly(s, ids, content, t.written, t.mid);
      if t.written == |ids| {
        states, ms := [t.mid, s'], [t.metas[0]];
        RewriteIssued(s.tables, inode, convert, content,
                      [Extent(0, |content| % U32, ReplicasAt(s, ids), Checksum(content))]);
        OneIssue(s, t.mid, t.metas[0], s');
      }
    }
  }

  lemma CreatePhases(s: State, parent: InodeId, name: seq<byte>, rec: InodeRecord, t: Trace, r: Result, s': State)
    returns (states: seq<State>, ms: seq<Issued>)
    requires Inv(s) && CreateStep(s, parent, name, rec, t, r, s') && WalFits(s, t)
    requires rec.mode.AppendOnly? && rec.size == 0 && rec.data == ChunkLog([])
    ensures Issues(s, states, ms, s') && ms <= t.metas
  {
    var a := Allocated(s);
    assert DataOnly(s, a) && PoolIssued(a.tables, CreateInode(rec));
    if t.metas[0].result.Done? {
      states, ms := [a, t.mid, s'], [t.metas[0], t.metas[1]];
      TwoIssues(s, a, t.metas[0], t.mid, t.metas[1], s');
    } else {
      states, ms := [a, s'], [t.metas[0]];
      OneIssue(s, a, t.metas[0], s');
    }
  }

  lemma TwoIssues(s: State, a: State, m: Issued, mid: State, m': Issued, s': State)
    requires DataOnly(s, a) && MetaStep(a, m, mid) && MetaStep(mid, m', s')
    requires PoolIssued(a.tables, m.op) && a.walCursor + |m.entry| <= WAL_CAPACITY
    requires PoolIssued(mid.tables, m'.op) && mid.walCursor + |m'.entry| <= WAL_CAPACITY
    ensures Issues(s, [a, mid, s'], [m, m'], s')
  {
  }

  lemma ConvertPhases(cfg: Config, s: State, inode: InodeId, t: Trace, r: Result, s': State)
    returns (states: seq<State>, ms: seq<Issued>)
    requires Inv(s) && ConvertStep(cfg, s, inode, t, r, s') && WalFits(s, t) && CallFits(s, FinishConversion(inode))
    ensures Issues(s, states, ms, s') && ms <= t.metas
  {
    states, ms := [s'], [];
    if inode in s.tables.inodes && s.tables.inodes[inode].mode.Converting? {
      assert RecordOk(s, inode, s.tables.inodes[inode]);
      RecordReadable(s, inode, s.tables.inodes[inode]);
      states, ms := RewritePhases(cfg, s, inode, true, Content(s.images, s.tables.inodes[inode]).value, t, r, s');
    }
  }

  lemma WritePhases(cfg: Config, s: State, inode: InodeId, off: nat, data: seq<byte>, t: Trace, r: Result, s': State)
    returns (states: seq<State>, ms: seq<Issued>)
    requires Inv(s) && WriteStep(cfg, s, inode, off, data, t, r, s') && WalFits(s, t)
             && CallFits(s, WriteAt(inode, off, data))
    ensures Issues(s, states, ms, s') && ms <= t.metas
  {
    states, ms := [s'], [];
    if inode in s.tables.inodes && s.tables.inodes[inode].mode.Writable? {
      assert RecordOk(s, inode, s.tables.inodes[inode]);
      RecordReadable(s, inode, s.tables.inodes[inode]);
      var content := Content(s.images, s.tables.inodes[inode]).value;
      SpliceLength(content, off, data);
      states, ms := RewritePhases(cfg, s, inode, false, Splice(content, off, data), t, r, s');
    }
  }

  lemma MetaOnlyPhases(s: State, op: MetaOp, t: Trace, r: Result, s': State)
    returns (states: seq<State>, ms: seq<Issued>)
    requires Inv(s) && MetaOnlyStep(s, op, t, r, s') && WalFits(s, t) && PoolIssued(s.tables, op)
    ensures Issues(s, states, ms, s') && ms <= t.metas
  {
    states, ms := [s, s'], t.metas;
    OneIssue(s, s, t.metas[0], s');
  }

  lemma StepPhases(cfg: Config, s: State, call: Call, t: Trace, r: Result, s': State)
    returns (states: seq<State>, ms: seq<Issued>)
    requires Inv(s) && Step(cfg, s, call, t, r, s') && WalFits(s, t) && CallFits(s, call)
    ensures Issues(s, states, ms, s') && ms <= t.metas
  {
    states, ms := [s'], [];
    match call
    case Create(parent, name, scheme, uid, gid, unixMode, now) =>
      states, ms := CreatePhases(s, parent, name, NewFile(s.tables.nextInode, scheme, uid, gid, unixMode, now), t, r,
                                 s');
    case Remove(parent, name) => states, ms := MetaOnlyPhases(s, Unlink(parent, name), t, r, s');
    case SetPolicy(inode, scheme) => states, ms := MetaOnlyPhases(s, SetRedundancyScheme(inode, scheme), t, r, s');
    case StartConversion(inode) => states, ms := MetaOnlyPhases(s, BeginConvert(inode), t, r, s');
    case AppendTo(inode, payload) => states, ms := AppendPhases(cfg, s, inode, payload, t, r, s');
    case FinishConversion(inode) => states, ms := ConvertPhases(cfg, s, inode, t, r, s');
    case WriteAt(inode, off, data) => states, ms := WritePhases(cfg, s, inode, off, data, t, r, s');
  }

  // ---- the log of a run ----

  /** The log on the primary, all of it issued by the pool. */
  ghost predicate GoodLog(s: State, ls: Log)
  {
    LogInv(s, ls) && IssuedLog(ls)
  }

  /** All operations of a call fit the wire format and none was rejected. */
  ghost predicate Accepted(t: Trace)
  {
    forall m :: m in t.metas ==> WireFits(m) && !m.result.InvalidOp?
  }

  lemma SnocIssued(ls: seq<Logged>, ls': seq<Logged>)
    requires IssuedLog(ls) && |ls'| == |ls| + 1 && ls'[..|ls|] == ls
    requires Replay(EMPTY, Ops(ls)).Some? && PoolIssued(Replay(EMPTY, Ops(ls)).value, ls'[|ls|].op)
    ensures IssuedLog(ls')
  {
    forall k: nat | k < |ls'|
      ensures PrefixReplays(ls', k)
    {
      if k < |ls| {
        assert PrefixReplays(ls, k);
        assert ls'[..k] == ls[..k] && ls'[k] == ls[k];
      }
    }
  }

  lemma MetaGoodLog(s: State, ls: Log, m: Issued, s': State) returns (ls': Log)
    requires GoodLog(s, ls) && MetaStep(s, m, s') && WireFits(m) && !m.result.InvalidOp?
    requires s.walCursor + |m.entry| <= WAL_CAPACITY && PoolIssued(s.tables, m.op)
    ensures GoodLog(s', ls') && ls <= ls'
  {
    ls' := MetaLog(s, ls, m, s');
    if m.result.Done? {
      SameViewIssued(s.tables, Replay(EMPTY, Ops(ls)).value, m.op);
      SnocIssued(ls, ls');
    }
  }

  lemma {:induction false} PhasesLog(states: seq<State>, ms: seq<Issued>, ls: Log, n: nat) returns (ls': Log)
    requires |states| == |ms| + 1 && n <= |ms| && GoodLog(states[0], ls)
    requires forall i :: 0 <= i < |ms| ==> MetaStep(states[i], ms[i], states[i + 1])
    requires forall i :: 0 <= i < |ms| ==>
             PoolIssued(states[i].tables, ms[i].op)
             && states[i].walCursor + |ms[i].entry| <= WAL_CAPACITY
    requires forall m :: m in ms ==> WireFits(m) && !m.result.InvalidOp?
    ensures GoodLog(states[n], ls') && ls <= ls'
  {
    ls' := ls;
    if n > 0 {
      var before := PhasesLog(states, ms, ls, n - 1);
      ls' := MetaGoodLog(states[n - 1], before, ms[n - 1], states[n]);
    }
  }

  /** Every call whose operations are accepted extends the log by what it did, or leaves it. */
  lemma StepLog(cfg: Config, s: State, call: Call, t: Trace, r: Result, s': State, ls: Log) returns (ls': Log)
    requires Inv(s) && Step(cfg, s, call, t, r, s') && WalFits(s, t) && CallFits(s, call) && Accepted(t)
    requires GoodLog(s, ls)
    ensures GoodLog(s', ls') && ls <= ls'
  {
    var states, ms := StepPhases(cfg, s, call, t, r, s');
    DataKeepsLog(s, ls, states[0]);
    ls' := PhasesLog(states, ms, ls, |ms|);
  }

  ghost predicate AllAccepted(events: seq<Event>)
  {
    forall i :: 0 <= i < |events| ==> Accepted(events[i].trace)
  }

  lemma RunLogStep(cfg: Config, states: seq<State>, events: seq<Event>, ls: Log, n: nat, next: nat)
    returns (ls': Log)
    requires PlacesApart(cfg) && Run(cfg, states, events) && Inv(states[0]) && AllAccepted(events)
    requires next == n + 1 < |states| && GoodLog(states[n], ls)
    ensures GoodLog(states[next], ls') && ls <= ls'
  {
    RunInv(cfg, states, events, n);
    assert RunsAt(cfg, states, events, n);
    var e := events[n];
    ls' := StepLog(cfg, states[n], e.call, e.trace, e.result, states[next], ls);
  }

  lemma {:induction false} RunLog(cfg: Config, states: seq<State>, events: seq<Event>, ls: Log, n: nat)
    returns (ls': Log)
    requires PlacesApart(cfg) && Run(cfg, states, events) && Inv(states[0]) && AllAccepted(events) && n < |states|
    requires GoodLog(states[0], ls)
    ensures GoodLog(states[n], ls') && ls <= ls'
  {
    ls' := ls;
    if n > 0 {
      var before := RunLog(cfg, states, events, ls, n - 1);
      ls' := RunLogStep(cfg, states, events, before, n - 1, n);
    }
  }

  /** Log and view agree at every moment of every run whose operations were accepted: opening the
      primary again yields the live inode and directory tables, with a counter that is no greater than
      the live one and above every inode; and those tables are well-formed metadata. */
  lemma RunReopens(cfg: Config, states: seq<State>, events: seq<Event>, ls: Log, n: nat)
    requires PlacesApart(cfg) && Run(cfg, states, events) && Inv(states[0]) && AllAccepted(events) && n < |states|
    requires GoodLog(states[0], ls)
    requires states[n].group.primary in states[n].images
    requires Ends(Wal, states[n].images[states[n].group.primary], 0, states[n].walCursor)
    ensures var t := Reopen(states[n].images[states[n].group.primary]);
            t.Some? && SameView(t.value, states[n].tables) && t.value.nextInode <= states[n].tables.nextInode
                && MetaOk(t.value)
  {
    var log := RunLog(cfg, states, events, ls, n);
    var image := states[n].images[states[n].group.primary];
    ReopenAgrees(states[n].tables, log, image);
    ReopenIsReplay(image, log);
    PrefixMetaOk(log, |log|);
    assert log[..|log|] == log;
  }

  // ---- a commit whose acknowledgement was lost ----

  lemma ReopenExtended(image: seq<byte>, ls: Log, l: Logged, end: nat)
    requires OrderOk(l) && LogFits(Extend(ls, l)) && LogOn(image, Extend(ls, l))
             && LogLen(Extend(ls, l)) == end <= WAL_CAPACITY
    requires Ends(Wal, image, 0, end) && Replay(EMPTY, Ops(ls)).Some?
    ensures Reopen(image) == ApplyOp(Replay(EMPTY, Ops(ls)).value, l.op)
  {
    ReopenIsReplay(image, Extend(ls, l));
    ReplayExtended(ls, l);
  }

  lemma ReplayExtended(ls: Log, l: Logged)
    requires OrderOk(l) && Replay(EMPTY, Ops(ls)).Some?
    ensures Replay(EMPTY, Ops(Extend(ls, l))) == ApplyOp(Replay(EMPTY, Ops(ls)).value, l.op)
  {
    assert Ops(Extend(ls, l)) == Ops(ls) + [l.op];
    ReplaySnoc(EMPTY, Ops(ls), l.op);
  }

  lemma LandedLog(image: seq<byte>, ls: Log, l: Logged, entry: seq<byte>, image': seq<byte>, end: nat)
    requires LogFits(ls) && LoggedFits(l) && OrderOk(l) && LogOn(image, ls)
    requires entry == WalBytes(l.op, l.order) && image' == Patch(image, LogLen(ls), entry)
    requires end == LogLen(ls) + |entry|
    ensures LogFits(Extend(ls, l)) && LogOn(image', Extend(ls, l)) && LogLen(Extend(ls, l)) == end
  {
    SnocFits(ls, l);
    LogExtended(image, ls, l);
  }

  lemma LandedEntry(image: seq<byte>, ls: Log, l: Logged, entry: seq<byte>, image': seq<byte>, end: nat)
    requires LogFits(ls) && LoggedFits(l) && OrderOk(l) && LogOn(image, ls) && Replay(EMPTY, Ops(ls)).Some?
    requires entry == WalBytes(l.op, l.order) && image' == Patch(image, LogLen(ls), entry)
    requires end == LogLen(ls) + |entry| <= WAL_CAPACITY && Ends(Wal, image', 0, end)
    ensures Reopen(image') == ApplyOp(Replay(EMPTY, Ops(ls)).value, l.op)
  {
    LandedLog(image, ls, l, entry, image', end);
    ReopenExtended(image', ls, l, end);
  }

  /** Reopening gives the live tables as the operation would have changed them. */
  ghost predicate ReopensAs(image: seq<byte>, live: Tables, op: MetaOp)
  {
    var t := Reopen(image);
    && (t.Some? <==> ApplyOp(live, op).Some?)
    && (t.Some? ==> SameView(t.value, ApplyOp(live, op).value))
  }

  /** When a commit fails on the primary after its entry has landed, the caller sees an error and the
      live tables do not change, but a reopened store has the operation: it opens exactly when the
      operation is acceptable, with the tables the operation leads to. */
  lemma UnacknowledgedAppears(image: seq<byte>, ls: Log, l: Logged, entry: seq<byte>, image': seq<byte>, end: nat,
                              live: Tables)
    requires LogFits(ls) && LoggedFits(l) && OrderOk(l) && LogOn(image, ls) && Agrees(live, ls)
    requires entry == WalBytes(l.op, l.order) && image' == Patch(image, LogLen(ls), entry)
    requires end == LogLen(ls) + |entry| <= WAL_CAPACITY && Ends(Wal, image', 0, end)
    ensures ReopensAs(image', live, l.op)
  {
    LandedEntry(image, ls, l, entry, image', end);
    ApplySameView(Replay(EMPTY, Ops(ls)).value, live, l.op);
  }

  // ---- without failed commits the log ends cleanly ----

  /** The WAL region past the cursor is still zero. */
  ghost predicate ZeroPastLog(s: State)
  {
    && s.group.primary in s.images
    && forall i :: s.walCursor <= i < WAL_CAPACITY && i < |s.images[s.group.primary]| ==>
        s.images[s.group.primary][i] == 0
  }

  ghost predicate NoFailedCommit(t: Trace)
  {
    forall m :: m in t.metas ==> !m.result.CommitFailed?
  }

  lemma DataKeepsZero(s: State, s': State)
    requires ZeroPastLog(s) && DataOnly(s, s')
    ensures ZeroPastLog(s')
  {
    var a, b := s.images[s.group.primary], s'.images[s.group.primary];
    forall i | s.walCursor <= i < WAL_CAPACITY
      ensures b[i] == 0
    {
      assert b[..SEG][i] == a[..SEG][i];
    }
  }

  lemma MetaKeepsZero(s: State, m: Issued, s': State)
    requires ZeroPastLog(s) && MetaStep(s, m, s') && !m.result.CommitFailed?
    ensures ZeroPastLog(s')
  {
  }

  lemma PhasesZero(states: seq<State>, ms: seq<Issued>)
    requires |states| == |ms| + 1 && ZeroPastLog(states[0])
    requires forall i :: 0 <= i < |ms| ==> MetaStep(states[i], ms[i], states[i + 1])
    requires forall m :: m in ms ==> !m.result.CommitFailed?
    ensures ZeroPastLog(states[|ms|])
  {
    var n := 0;
    while n < |ms|
      invariant 0 <= n <= |ms| && ZeroPastLog(states[n])
    {
      MetaKeepsZero(states[n], ms[n], states[n + 1]);
      n := n + 1;
    }
  }

  /** As long as no commit fails on the primary, the log is followed by zeros, which is a clean end. */
  lemma StepZero(cfg: Config, s: State, call: Call, t: Trace, r: Result, s': State)
    requires Inv(s) && Step(cfg, s, call, t, r, s') && WalFits(s, t) && CallFits(s, call) && NoFailedCommit(t)
    requires ZeroPastLog(s)
    ensures ZeroPastLog(s')
  {
    var states, ms := StepPhases(cfg, s, call, t, r, s');
    DataKeepsZero(s, states[0]);
    PhasesZero(states, ms);
  }

  lemma ZeroIsClean(s: State)
    requires ZeroPastLog(s) && s.walCursor <= WAL_CAPACITY
    ensures CleanEnd(Wal, s.images[s.group.primary], 0, s.walCursor)
  {
    if s.walCursor < WAL_CAPACITY {
      ZeroTailIsClean(Wal, s.images[s.group.primary], 0, s.walCursor);
    }
  }

  /** No commit of the run failed on the primary. */
  ghost predicate NoneFailed(events: seq<Event>)
  {
    forall i :: 0 <= i < |events| ==> NoFailedCommit(events[i].trace)
  }

  lemma RunZeroStep(cfg: Config, states: seq<State>, events: seq<Event>, n: nat)
    requires PlacesApart(cfg) && Run(cfg, states, events) && Inv(states[0]) && NoneFailed(events) && n < |events|
    requires ZeroPastLog(states[n])
    ensures ZeroPastLog(states[n + 1])
  {
    RunInv(cfg, states, events, n);
    assert RunsAt(cfg, states, events, n);
    var e := events[n];
    StepZero(cfg, states[n], e.call, e.trace, e.result, states[n + 1]);
  }

  lemma RunZero(cfg: Config, states: seq<State>, events: seq<Event>, n: nat)
    requires PlacesApart(cfg) && Run(cfg, states, events) && Inv(states[0]) && NoneFailed(events) && n < |states|
    requires ZeroPastLog(states[0])
    ensures ZeroPastLog(states[n])
  {
    var i := 0;
    while i < n
      invariant 0 <= i <= n && ZeroPastLog(states[i])
    {
      RunZeroStep(cfg, states, events, i);
      i := i + 1;
    }
  }

  /** Log and view agree without any condition on the image, in every run whose operations were
      accepted and whose commits did not fail on the primary. */
  lemma QuietRunReopens(cfg: Config, states: seq<State>, events: seq<Event>, ls: Log, n: nat)
    requires PlacesApart(cfg) && Run(cfg, states, events) && Inv(states[0]) && n < |states|
    requires AllAccepted(events) && NoneFailed(events) && GoodLog(states[0], ls) && ZeroPastLog(states[0])
    ensures states[n].group.primary in states[n].images
    ensures var t := Reopen(states[n].images[states[n].group.primary]);
            t.Some? && SameView(t.value, states[n].tables) && t.value.nextInode <= states[n].tables.nextInode
                && MetaOk(t.value)
  {
    RunInv(cfg, states, events, n);
    RunZero(cfg, states, events, n);
    ZeroIsClean(states[n]);
    RunReopens(cfg, states, events, ls, n);
  }
}

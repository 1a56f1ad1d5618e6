/** The materialised metadata view: how an operation changes the tables, replay of a log, and the
    agreement between a live store and a store reopened from its write-ahead log. */
module Store {
  import opened Proto
  import opened Arith
  import opened Bytes
  import opened Framing
  import opened Codec

  // ---- mode transitions ----

  const MODE_APPEND_ONLY: int := 0
  const MODE_CONVERTING: int := 1
  const MODE_WRITABLE: int := 2
  const ERR_ALREADY_WRITABLE: int := -4
  const ERR_ALREADY_CONVERTING: int := -5
  const ERR_BAD_MODE: int := -6

  function BeginConvertCode(mode: int): int
  {
    if mode == MODE_APPEND_ONLY then MODE_CONVERTING
    else if mode == MODE_WRITABLE then ERR_ALREADY_WRITABLE
    else if mode == MODE_CONVERTING then ERR_ALREADY_CONVERTING
    else ERR_BAD_MODE
  }

  function CompleteConvertCode(mode: int): int
  {
    if mode == MODE_CONVERTING then MODE_WRITABLE else ERR_BAD_MODE
  }

  function ModeCode(m: InodeMode): int
  {
    match m case AppendOnly => 0 case Converting => 1 case Writable => 2
  }

  function ModeFromCode(c: int): (m: InodeMode)
    requires 0 <= c <= 2
    ensures ModeCode(m) == c
  {
    if c == 0 then AppendOnly else if c == 1 then Converting else Writable
  }

  /** The lifecycle is one way: the only accepted transitions are AppendOnly to Converting and
      Converting to Writable. */
  lemma OneWayModes(m: InodeMode)
    ensures BeginConvertCode(ModeCode(m)) >= 0 <==> m == AppendOnly
    ensures CompleteConvertCode(ModeCode(m)) >= 0 <==> m == Converting
    ensures BeginConvertCode(ModeCode(m)) >= 0 ==> BeginConvertCode(ModeCode(m)) == ModeCode(m) + 1
    ensures CompleteConvertCode(ModeCode(m)) >= 0 ==> CompleteConvertCode(ModeCode(m)) == ModeCode(m) + 1
    ensures BeginConvertCode(ModeCode(m)) == -4 <==> m == Writable
    ensures BeginConvertCode(ModeCode(m)) == -5 <==> m == Converting
    ensures CompleteConvertCode(ModeCode(m)) == -6 <==> m != Converting
  {
  }

  // ---- the tables ----

  datatype Tables = Tables(inodes: map<InodeId, InodeRecord>, dirs: map<seq<byte>, InodeId>, nextInode: nat)

  const EMPTY: Tables := Tables(map[], map[], 1)

  /** Directory key: the parent's eight little-endian bytes, then the name. */
  function DirKey(parent: InodeId, name: seq<byte>): seq<byte>
  {
    Le(parent, 8) + name
  }

  function ExtentsEnd(xs: seq<Extent>): nat
  {
    if xs == [] then 0 else Max(xs[0].fileOffset + xs[0].len, ExtentsEnd(xs[1..]))
  }

  /** The end of the extent that reaches furthest, 0 without extents. */
  lemma {:induction false} ExtentsEndIsMax(xs: seq<Extent>)
    ensures forall x :: x in xs ==> x.fileOffset + x.len <= ExtentsEnd(xs)
    ensures xs == [] ==> ExtentsEnd(xs) == 0
    ensures xs != [] ==> exists x :: x in xs && x.fileOffset + x.len == ExtentsEnd(xs)
  {
    if xs != [] {
      ExtentsEndIsMax(xs[1..]);
      assert xs == [xs[0]] + xs[1..];
      if |xs| > 1 && ExtentsEnd(xs) == ExtentsEnd(xs[1..]) {
        var x :| x in xs[1..] && x.fileOffset + x.len == ExtentsEnd(xs[1..]);
        assert x in xs;
      } else {
        assert xs[0] in xs;
      }
    }
  }

  /** The record of an inode after an operation on it; None when the operation is rejected. */
  function ApplyToInode(r: InodeRecord, op: MetaOp): Option<InodeRecord>
  {
    match op
    case AppendChunk(_, chunk) =>
      if r.data.ChunkLog? then Some(r.(data := ChunkLog(r.data.chunks + [chunk]), size := r.size + chunk.len)) else None
    case BeginConvert(_) =>
      var code := BeginConvertCode(ModeCode(r.mode));
      if code < 0 then None else Some(r.(mode := ModeFromCode(code)))
    case CompleteConvert(_, extents) =>
      var code := CompleteConvertCode(ModeCode(r.mode));
      if code < 0 then None else Some(r.(mode := ModeFromCode(code), data := Extents(extents)))
    case SetRedundancyScheme(_, scheme) => Some(r.(redundancy := scheme))
    case UpdateExtents(_, extents) =>
      if r.mode.Writable? then Some(r.(size := ExtentsEnd(extents), data := Extents(extents))) else None
    case _ => Some(r)
  }

  predicate OnInode(op: MetaOp)
  {
    op.AppendChunk? || op.BeginConvert? || op.CompleteConvert? || op.SetRedundancyScheme? || op.UpdateExtents?
  }

  /** `apply_locally`, one transaction: the new tables, or None when the operation is rejected. */
  function ApplyOp(t: Tables, op: MetaOp): Option<Tables>
  {
    match op
    case CreateInode(rec) =>
      Some(t.(inodes := t.inodes[rec.inode := rec], nextInode := Max(t.nextInode, rec.inode + 1)))
    case Link(parent, name, child) => Some(t.(dirs := t.dirs[DirKey(parent, name) := child]))
    case Unlink(parent, name) => Some(t.(dirs := t.dirs - {DirKey(parent, name)}))
    case PoolMapChange(_) => Some(t)
    case MetaGroupChange(_) => Some(t)
    case _ =>
      if op.inode !in t.inodes then None
      else
        var r := ApplyToInode(t.inodes[op.inode], op);
        if r.None? then None else Some(t.(inodes := t.inodes[r.value.inode := r.value]))
  }

  /** Folding a log into the tables; None at the first rejected operation. */
  function Replay(t: Tables, ops: seq<MetaOp>): Option<Tables>
  {
    if ops == [] then Some(t)
    else
      var before := Replay(t, ops[..|ops| - 1]);
      if before.None? then None else ApplyOp(before.value, ops[|ops| - 1])
  }

  lemma ReplaySnoc(t: Tables, ops: seq<MetaOp>, op: MetaOp)
    ensures Replay(t, ops + [op]) == if Replay(t, ops).None? then None else ApplyOp(Replay(t, ops).value, op)
  {
    assert (ops + [op])[..|ops|] == ops;
  }

  /** Same inodes and directory entries. */
  predicate SameView(a: Tables, b: Tables)
  {
    a.inodes == b.inodes && a.dirs == b.dirs
  }

  /** The inode counter plays no part in accepting an operation or in what it does to the tables. */
  lemma ApplySameView(a: Tables, b: Tables, op: MetaOp)
    requires SameView(a, b) && a.nextInode <= b.nextInode
    ensures ApplyOp(a, op).Some? <==> ApplyOp(b, op).Some?
    ensures ApplyOp(a, op).Some? ==>
              SameView(ApplyOp(a, op).value, ApplyOp(b, op).value)
              && ApplyOp(a, op).value.nextInode <= ApplyOp(b, op).value.nextInode
  {
  }

  // ---- reopening from the log ----

  /** An operation as it was logged, with the order in which a pool map was iterated. */
  datatype Logged = Logged(op: MetaOp, order: seq<DiskId>)

  ghost predicate LoggedFits(l: Logged)
  {
    && OpFits(l.op)
    && (l.op.PoolMapChange? ==> Iterates(l.op.pool.disks, l.order))
    && |PutOp(l.op, l.order)| < U32
  }

  /** Well-formedness of the encoding alone: the iteration order names disks of the map. */
  ghost predicate OrderOk(l: Logged)
  {
    l.op.PoolMapChange? ==> forall id :: id in l.order ==> id in l.op.pool.disks
  }

  type Log = ls: seq<Logged> | forall l :: l in ls ==> OrderOk(l)

  /** The log with one more operation. */
  ghost function Extend(ls: Log, l: Logged): (ls': Log)
    requires OrderOk(l)
    ensures ls' == ls + [l]
  {
    assert forall x :: x in ls + [l] ==> x in ls || x == l;
    ls + [l]
  }

  ghost function LoggedRecord(l: Logged): Record
    requires OrderOk(l)
  {
    WalRecord(PutOp(l.op, l.order))
  }

  /** The bytes a logged operation occupies in the WAL. */
  ghost function WalBytes(op: MetaOp, order: seq<DiskId>): seq<byte>
    requires OrderOk(Logged(op, order))
  {
    Frame(Wal, LoggedRecord(Logged(op, order)))
  }

  ghost function Entries(ls: Log): (rs: seq<Record>)
    ensures |rs| == |ls| && forall i :: 0 <= i < |ls| ==> rs[i] == LoggedRecord(ls[i])
  {
    seq(|ls|, i requires 0 <= i < |ls| => LoggedRecord(ls[i]))
  }

  ghost function Ops(ls: seq<Logged>): (ops: seq<MetaOp>)
    ensures |ops| == |ls| && forall i :: 0 <= i < |ls| ==> ops[i] == ls[i].op
  {
    seq(|ls|, i requires 0 <= i < |ls| => ls[i].op)
  }

  ghost predicate LogFits(ls: Log)
  {
    forall l :: l in ls ==> LoggedFits(l)
  }

  /** The log is on the image, from offset 0. */
  ghost predicate LogOn(image: seq<byte>, ls: Log)
  {
    Holds(image, 0, Frames(Wal, Entries(ls)))
  }

  ghost function LogLen(ls: Log): nat
  {
    |Frames(Wal, Entries(ls))|
  }

  function Decode(payload: seq<byte>): Option<MetaOp>
  {
    match GetOp(payload) case Panic => None case Got(op, _) => Some(op)
  }

  /** Decoding every recovered entry; None if one makes the decoder panic. */
  function DecodeAll(rs: seq<Record>): Option<seq<MetaOp>>
  {
    if rs == [] then Some([])
    else
      var front := DecodeAll(rs[..|rs| - 1]);
      var last := Decode(rs[|rs| - 1].payload);
      if front.None? || last.None? then None else Some(front.value + [last.value])
  }

  /** `MetaStore::open`: scan, decode, replay. None when decoding panics or an entry is rejected. */
  function Reopen(image: seq<byte>): Option<Tables>
  {
    var ops := DecodeAll(Scan(Wal, image, 0, 0).records);
    if ops.None? then None else Replay(EMPTY, ops.value)
  }

  lemma EntrySound(l: Logged)
    requires LoggedFits(l)
    ensures OrderOk(l) && Sound(Wal, LoggedRecord(l)) && Decode(LoggedRecord(l).payload) == Some(l.op)
  {
    var bytes := PutOp(l.op, l.order);
    OpReads(l.op, l.order, []);
    assert bytes + [] == bytes;
  }

  lemma EntriesSound(ls: Log)
    requires LogFits(ls)
    ensures AllSound(Wal, Entries(ls))
  {
    forall r | r in Entries(ls)
      ensures Sound(Wal, r)
    {
      var i :| 0 <= i < |ls| && Entries(ls)[i] == r;
      assert ls[i] in ls;
      EntrySound(ls[i]);
    }
  }

  lemma DecodeSnoc(rs: seq<Record>, r: Record, ops: seq<MetaOp>, op: MetaOp)
    requires DecodeAll(rs) == Some(ops) && Decode(r.payload) == Some(op)
    ensures DecodeAll(rs + [r]) == Some(ops + [op])
  {
    assert (rs + [r])[..|rs|] == rs;
  }

  lemma EntriesSnoc(ls: Log, l: Logged)
    requires OrderOk(l)
    ensures Entries(ls + [l]) == Entries(ls) + [LoggedRecord(l)]
    ensures Ops(ls + [l]) == Ops(ls) + [l.op]
  {
  }

  lemma {:induction false} DecodeEntries(ls: Log)
    requires LogFits(ls)
    ensures DecodeAll(Entries(ls)) == Some(Ops(ls))
  {
    if ls == [] {
      assert Ops(ls) == [];
    } else {
      var n := |ls| - 1;
      var front, l := ls[..n], ls[n];
      assert ls == front + [l];
      DecodeEntries(front);
      assert l in ls;
      EntrySound(l);
      DecodeNext(front, l);
    }
  }

  lemma DecodeNext(ls: Log, l: Logged)
    requires DecodeAll(Entries(ls)) == Some(Ops(ls)) && LoggedFits(l) && OrderOk(l)
    ensures DecodeAll(Entries(ls + [l])) == Some(Ops(ls + [l]))
  {
    EntrySound(l);
    EntriesSnoc(ls, l);
    DecodeSnoc(Entries(ls), LoggedRecord(l), Ops(ls), l.op);
  }

  /** With no further entry after the log, opening it is replaying it: it succeeds exactly when every logged
      operation was acceptable in turn, and then yields exactly the replayed tables. */
  lemma ReopenIsReplay(image: seq<byte>, ls: Log)
    requires LogFits(ls) && LogOn(image, ls) && LogLen(ls) <= WAL_CAPACITY
    requires Ends(Wal, image, 0, LogLen(ls))
    ensures Reopen(image) == Replay(EMPTY, Ops(ls))
    ensures Scan(Wal, image, 0, 0).resumeAt == LogLen(ls)
  {
    EntriesSound(ls);
    ScanExactIff(Wal, image, 0, Entries(ls));
    DecodeEntries(ls);
  }

  /** Whatever bytes follow the log, its operations are the first ones recovered. */
  lemma RecoveredLogIsPrefix(image: seq<byte>, ls: Log)
    requires LogFits(ls) && LogOn(image, ls) && LogLen(ls) <= WAL_CAPACITY
    ensures Entries(ls) <= Scan(Wal, image, 0, 0).records
    ensures DecodeAll(Scan(Wal, image, 0, 0).records[..|ls|]) == Some(Ops(ls))
    ensures LogLen(ls) <= Scan(Wal, image, 0, 0).resumeAt
  {
    EntriesSound(ls);
    ScanKeepsAppended(Wal, image, 0, Entries(ls));
    DecodeEntries(ls);
    assert Scan(Wal, image, 0, 0).records[..|ls|] == Entries(ls);
  }

  lemma FramesExtended(ls: Log, l: Logged)
    requires OrderOk(l)
    ensures Frames(Wal, Entries(Extend(ls, l))) == Frames(Wal, Entries(ls)) + WalBytes(l.op, l.order)
  {
    EntriesSnoc(ls, l);
    FramesSnoc(Wal, Entries(ls), LoggedRecord(l));
  }

  lemma LastEntry(image: seq<byte>, ls: Log, l: Logged)
    requires OrderOk(l) && LogOn(image, Extend(ls, l))
    ensures LogOn(image, ls) && Holds(image, LogLen(ls), WalBytes(l.op, l.order))
    ensures LogLen(Extend(ls, l)) == LogLen(ls) + |WalBytes(l.op, l.order)|
  {
    FramesExtended(ls, l);
    HeldParts(image, Frames(Wal, Entries(Extend(ls, l))), Frames(Wal, Entries(ls)), WalBytes(l.op, l.order));
  }

  lemma HeldParts(image: seq<byte>, all: seq<byte>, a: seq<byte>, b: seq<byte>)
    requires Holds(image, 0, all) && all == a + b
    ensures Holds(image, 0, a) && Holds(image, |a|, b) && |all| == |a| + |b|
  {
    HoldsSplit(image, 0, a, b);
  }

  /** Writing is not limited by the capacity of the WAL, recovery is: an acknowledged operation whose
      entry reaches past the capacity is lost on reopening. */
  lemma OverflowIsLost(image: seq<byte>, ls: Log, l: Logged)
    requires LogFits(ls) && LoggedFits(l) && OrderOk(l) && LogOn(image, Extend(ls, l))
    requires LogLen(ls) <= WAL_CAPACITY < LogLen(Extend(ls, l))
    ensures Reopen(image) == Replay(EMPTY, Ops(ls))
  {
    LastEntry(image, ls, l);
    EntrySound(l);
    OverflowEnds(image, LogLen(ls), LoggedRecord(l));
    ReopenIsReplay(image, ls);
  }

  lemma OverflowEnds(image: seq<byte>, at: nat, r: Record)
    requires Holds(image, at, Frame(Wal, r)) && Sound(Wal, r) && at <= WAL_CAPACITY < at + |Frame(Wal, r)|
    ensures Ends(Wal, image, 0, at)
  {
    HoldsSplit(image, at, EncodeHeader(Wal, HeaderOf(r)), r.payload);
    OverCapacity(Wal, image, 0, at, r);
  }

  // ---- the live store agrees with its log ----

  /** Every created inode is below the counter. */
  ghost predicate CounterAbove(t: Tables)
  {
    forall i :: i in t.inodes ==> i < t.nextInode
  }

  /** Records are filed under their own number. */
  ghost predicate WellFiled(t: Tables)
  {
    forall i :: i in t.inodes ==> t.inodes[i].inode == i
  }

  /** The live tables are the fold of the log, except that the live counter may be ahead. */
  ghost predicate Agrees(live: Tables, ls: seq<Logged>)
  {
    && WellFiled(live)
    && Replay(EMPTY, Ops(ls)).Some?
    && var t := Replay(EMPTY, Ops(ls)).value;
       SameView(t, live) && t.nextInode <= live.nextInode && CounterAbove(t)
  }

  lemma ApplyKeepsCounter(t: Tables, op: MetaOp)
    requires CounterAbove(t) && WellFiled(t) && ApplyOp(t, op).Some?
    ensures CounterAbove(ApplyOp(t, op).value) && WellFiled(ApplyOp(t, op).value)
  {
  }

  /** An accepted operation keeps the agreement with the extended log. */
  lemma AgreesAfterApply(live: Tables, ls: seq<Logged>, l: Logged)
    requires Agrees(live, ls) && ApplyOp(live, l.op).Some?
    ensures Agrees(ApplyOp(live, l.op).value, ls + [l])
  {
    var t := Replay(EMPTY, Ops(ls)).value;
    assert Ops(ls + [l]) == Ops(ls) + [l.op];
    ReplaySnoc(EMPTY, Ops(ls), l.op);
    ApplySameView(t, live, l.op);
    ApplyKeepsCounter(t, l.op);
  }

  /** Reopening gives the live inode and directory tables, with a counter no greater than the live
      one and above every created inode. */
  lemma ReopenAgrees(live: Tables, ls: Log, image: seq<byte>)
    requires Agrees(live, ls)
    requires LogFits(ls) && LogOn(image, ls) && LogLen(ls) <= WAL_CAPACITY
    requires Ends(Wal, image, 0, LogLen(ls))
    ensures Reopen(image).Some?
    ensures var t := Reopen(image).value;
            SameView(t, live) && t.nextInode <= live.nextInode && CounterAbove(t)
  {
    ReopenIsReplay(image, ls);
  }

  /** The commit happens before the local check, so a rejected operation stays in the log: creating a
      file and starting its conversion twice leaves a log that no reopen accepts. */
  lemma RejectedOpPoisonsLog(rec: InodeRecord)
    requires rec.mode.AppendOnly?
    ensures Replay(EMPTY, [CreateInode(rec), BeginConvert(rec.inode)]).Some?
    ensures Replay(EMPTY, [CreateInode(rec), BeginConvert(rec.inode), BeginConvert(rec.inode)]).None?
  {
    var a, b := CreateInode(rec), BeginConvert(rec.inode);
    ReplaySnoc(EMPTY, [], a);
    ReplaySnoc(EMPTY, [a], b);
    ReplaySnoc(EMPTY, [a, b], b);
    assert [] + [a] == [a] && [a] + [b] == [a, b] && [a, b] + [b] == [a, b, b];
  }

  /** Once a log contains a rejected operation, no extension of it can be replayed. */
  lemma {:induction false} RejectionIsForever(ops: seq<MetaOp>, more: seq<MetaOp>)
    requires Replay(EMPTY, ops).None?
    ensures Replay(EMPTY, ops + more).None?
  {
    if more == [] {
      assert ops + more == ops;
    } else {
      var n := |more| - 1;
      RejectionIsForever(ops, more[..n]);
      assert ops + more == (ops + more[..n]) + [more[n]];
      ReplaySnoc(EMPTY, ops + more[..n], more[n]);
    }
  }
}

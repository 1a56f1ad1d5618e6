/** The pool refines a plain map from inodes to bytes: every call, successful or failed at any point,
    keeps the invariant and does to the readable files exactly what it means. */
module PoolRefinement {
  import opened Proto
  import opened Arith
  import opened Bytes
  import opened Crc32c
  import opened Framing
  import opened Store
  import opened PoolModel
  import opened PoolInvariant

  // ---- limits ----

  /** Every entry the call logs stays inside the WAL region. */
  ghost predicate WalFits(s: State, t: Trace)
  {
    && (|t.metas| >= 1 ==> s.walCursor + |t.metas[0].entry| <= WAL_CAPACITY)
    && (|t.metas| >= 2 ==> t.mid.walCursor + |t.metas[1].entry| <= WAL_CAPACITY)
  }

  /** Schemes have at least one slot and rewritten files stay below 2^32 bytes. */
  ghost predicate CallFits(s: State, call: Call)
  {
    match call
    case Create(_, _, scheme, _, _, _, _) => SchemeOk(scheme)
    case SetPolicy(_, scheme) => SchemeOk(scheme)
    case FinishConversion(inode) => inode in s.tables.inodes ==> s.tables.inodes[inode].size < U32
    case WriteAt(inode, off, data) =>
      inode in s.tables.inodes ==> Max(s.tables.inodes[inode].size, off + |data|) < U32
    case _ => true
  }

  // ---- framing ----

  /** Nothing but disk space and bookkeeping changed: all files stay as they were. */
  lemma SameRecords(s: State, s': State)
    requires Inv(s) && Kept(s, s') && Shape(s') && s'.walCursor <= WAL_CAPACITY
    requires s'.tables.inodes == s.tables.inodes && DirsOk(s'.tables) && s.tables.nextInode <= s'.tables.nextInode
    ensures Inv(s') && FilesOf(s') == FilesOf(s)
  {
    forall i | i in s.tables.inodes
      ensures RecordOk(s', i, s.tables.inodes[i])
      ensures Content(s'.images, s.tables.inodes[i]) == Content(s.images, s.tables.inodes[i])
    {
      RecordKept(s, s', i, s.tables.inodes[i]);
    }
  }

  lemma OneRecordInv(s: State, s': State, i: InodeId, rec: InodeRecord)
    requires Inv(s) && Kept(s, s') && Shape(s') && s'.walCursor <= WAL_CAPACITY
    requires s'.tables.inodes == s.tables.inodes[i := rec] && s'.tables.dirs == s.tables.dirs
    requires CounterAbove(s'.tables) && RecordOk(s', i, rec)
    ensures Inv(s')
  {
    forall j | j in s'.tables.inodes
      ensures RecordOk(s', j, s'.tables.inodes[j])
    {
      if j != i {
        RecordKept(s, s', j, s.tables.inodes[j]);
      }
    }
  }

  lemma OtherFile(s: State, s': State, j: InodeId)
    requires Inv(s) && Kept(s, s') && j in s.tables.inodes && j in s'.tables.inodes
    requires s'.tables.inodes[j] == s.tables.inodes[j]
    ensures j in FilesOf(s) && j in FilesOf(s') && FilesOf(s')[j] == FilesOf(s)[j]
  {
    RecordKept(s, s', j, s.tables.inodes[j]);
  }

  /** One record was replaced or added: every other file stays as it was. */
  lemma OneRecord(s: State, s': State, i: InodeId, rec: InodeRecord)
    requires Inv(s) && Kept(s, s') && Shape(s') && s'.walCursor <= WAL_CAPACITY
    requires s'.tables.inodes == s.tables.inodes[i := rec] && s'.tables.dirs == s.tables.dirs
    requires CounterAbove(s'.tables)
    requires RecordOk(s', i, rec)
    ensures Inv(s') && Content(s'.images, rec).Some?
    ensures FilesOf(s') == FilesOf(s)[i := Content(s'.images, rec).value]
  {
    OneRecordInv(s, s', i, rec);
    RecordReadable(s', i, rec);
    AllReadable(s);
    AllReadable(s');
    var f' := FilesOf(s)[i := Content(s'.images, rec).value];
    assert FilesOf(s').Keys == f'.Keys;
    forall j | j in f'
      ensures FilesOf(s')[j] == f'[j]
    {
      if j != i {
        OtherFile(s, s', j);
      }
    }
  }

  /** What an accepted operation on an inode does to the tables. */
  lemma Applied(t: Tables, op: MetaOp, t': Tables)
    requires OnInode(op) && ApplyOp(t, op) == Some(t') && WellFiled(t)
    ensures op.inode in t.inodes && ApplyToInode(t.inodes[op.inode], op).Some?
    ensures t' == t.(inodes := t.inodes[op.inode := ApplyToInode(t.inodes[op.inode], op).value])
  {
  }

  lemma InvFiled(s: State)
    requires Inv(s)
    ensures WellFiled(s.tables)
  {
    forall i | i in s.tables.inodes
      ensures s.tables.inodes[i].inode == i
    {
      assert RecordOk(s, i, s.tables.inodes[i]);
    }
  }

  /** A metadata operation that was not applied leaves all files as they were. */
  lemma FailedMeta(s: State, m: Issued, s': State)
    requires Inv(s) && MetaStep(s, m, s') && s.walCursor + |m.entry| <= WAL_CAPACITY && !m.result.Done?
    ensures Inv(s') && FilesOf(s') == FilesOf(s)
  {
    MetaKeeps(s, m, s');
    SameRecords(s, s');
  }

  // ---- metadata-only calls ----

  lemma RemoveRefines(s: State, m: Issued, s': State)
    requires Inv(s) && MetaStep(s, m, s') && s.walCursor + |m.entry| <= WAL_CAPACITY && m.op.Unlink?
    ensures Inv(s') && FilesOf(s') == FilesOf(s)
  {
    MetaKeeps(s, m, s');
    SameRecords(s, s');
  }

  /** Starting a conversion or changing the policy keeps a record in order, with its content. */
  lemma PolicyRecord(s: State, i: InodeId, rec: InodeRecord, op: MetaOp)
    requires RecordOk(s, i, rec) && ApplyToInode(rec, op).Some?
    requires op.BeginConvert? || (op.SetRedundancyScheme? && SchemeOk(op.scheme))
    ensures var rec' := ApplyToInode(rec, op).value;
            RecordOk(s, i, rec') && Content(s.images, rec') == Content(s.images, rec)
  {
    OneWayModes(rec.mode);
  }

  lemma PolicyRefines(s: State, m: Issued, s': State)
    requires Inv(s) && MetaStep(s, m, s') && s.walCursor + |m.entry| <= WAL_CAPACITY
    requires m.op.BeginConvert? || (m.op.SetRedundancyScheme? && SchemeOk(m.op.scheme))
    ensures Inv(s') && FilesOf(s') == FilesOf(s)
  {
    if !m.result.Done? {
      FailedMeta(s, m, s');
    } else {
      MetaKeeps(s, m, s');
      InvFiled(s);
      Applied(s.tables, m.op, s'.tables);
      PolicyDone(s, m.op, s');
    }
  }

  lemma PolicyDone(s: State, op: MetaOp, s': State)
    requires Inv(s) && Kept(s, s') && Shape(s') && s'.walCursor <= WAL_CAPACITY
    requires op.BeginConvert? || (op.SetRedundancyScheme? && SchemeOk(op.scheme))
    requires op.inode in s.tables.inodes && ApplyToInode(s.tables.inodes[op.inode], op).Some?
    requires s'.tables == s.tables.(inodes := s.tables.inodes[op.inode := ApplyToInode(s.tables.inodes[op.inode],
             op).value])
    ensures Inv(s') && FilesOf(s') == FilesOf(s)
  {
    var i := op.inode;
    var rec := s.tables.inodes[i];
    assert RecordOk(s, i, rec);
    PolicyRecord(s, i, rec, op);
    var rec' := ApplyToInode(rec, op).value;
    RecordReadable(s, i, rec);
    RecordKept(s, s', i, rec');
    OneRecord(s, s', i, rec');
    assert FilesOf(s)[i] == Content(s.images, rec).value;
  }

  // ---- creating ----

  /** A fresh inode appears as an empty file. */
  lemma InodeCreated(s: State, m: Issued, s': State)
    requires Inv(s) && MetaStep(s, m, s') && s.walCursor + |m.entry| <= WAL_CAPACITY
    requires m.op.CreateInode? && m.result.Done? && m.op.rec.inode !in s.tables.inodes
    requires var rec := m.op.rec;
             rec.mode.AppendOnly? && rec.size == 0 && rec.data == ChunkLog([]) && SchemeOk(rec.redundancy)
    ensures Inv(s') && FilesOf(s') == FilesOf(s)[m.op.rec.inode := []]
    ensures m.op.rec.inode in s'.tables.inodes && m.op.rec.inode !in FilesOf(s)
  {
    var rec := m.op.rec;
    MetaKeeps(s, m, s');
    assert RecordOk(s', rec.inode, rec);
    OneRecord(s, s', rec.inode, rec);
  }

  lemma Linked(s: State, m: Issued, s': State)
    requires Inv(s) && MetaStep(s, m, s') && s.walCursor + |m.entry| <= WAL_CAPACITY
    requires m.op.Link? && m.op.child in s.tables.inodes
    ensures Inv(s') && FilesOf(s') == FilesOf(s)
  {
    MetaKeeps(s, m, s');
    SameRecords(s, s');
  }

  lemma CreateRefines(s: State, parent: InodeId, name: seq<byte>, rec: InodeRecord, t: Trace, r: Result, s': State)
    requires Inv(s) && CreateStep(s, parent, name, rec, t, r, s') && WalFits(s, t)
    requires rec.mode.AppendOnly? && rec.size == 0 && rec.data == ChunkLog([]) && SchemeOk(rec.redundancy)
    ensures Inv(s')
    ensures r.OkInode? ==> r.inode !in FilesOf(s) && FilesOf(s') == FilesOf(s)[r.inode := []]
    ensures !r.OkInode? ==>
            FilesOf(s') == FilesOf(s)
            || (rec.inode !in FilesOf(s) && FilesOf(s') == FilesOf(s)[rec.inode := []])
  {
    var a := Allocated(s);
    KeptRefl(s);
    SameRecords(s, a);
    assert a.walCursor == s.walCursor;
    if !t.metas[0].result.Done? {
      FailedMeta(a, t.metas[0], s');
    } else {
      InodeCreated(a, t.metas[0], t.mid);
      Linked(t.mid, t.metas[1], s');
    }
  }

  // ---- placement of new data ----

  lemma FreshReplica(s: State, ids: seq<DiskId>, header: seq<byte>, payload: seq<byte>, mid: State, i: nat)
    requires Shape(s) && WroteReplicas(s, ids, header + payload, |ids|, mid)
    requires i < |ids| && ids[i] in s.cursors
    ensures ReplicaHolds(mid, Replica(ids[i], s.cursors[ids[i]]), |header|, payload)
  {
    var id := ids[i];
    var at := s.cursors[id];
    assert id in mid.cursors && mid.cursors[id] == at + |header + payload|
           && Holds(mid.images[id], SEG + at, header + payload) by {
      WrittenHolds(s, ids, header + payload, |ids|, mid, i);
    }
    HoldsSplit(mid.images[id], SEG + at, header, payload);
  }

  /** Freshly written replicas are stored: distinct disks, below the new cursors, identical bytes. */
  lemma FreshStored(s: State, ids: seq<DiskId>, header: seq<byte>, payload: seq<byte>, mid: State)
    requires Shape(s) && WroteReplicas(s, ids, header + payload, |ids|, mid)
    requires ids != [] && (forall i, j :: 0 <= i < j < |ids| ==> ids[i] != ids[j])
    requires forall id :: id in ids ==> id in s.cursors
    ensures StoredAs(mid, ReplicasAt(s, ids), |header|, payload)
  {
    var rs := ReplicasAt(s, ids);
    forall i | 0 <= i < |rs|
      ensures ReplicaHolds(mid, rs[i], |header|, payload)
    {
      FreshReplica(s, ids, header, payload, mid, i);
    }
  }

  /** The data phase of a successful append or rewrite: the payload is stored and nothing is lost. */
  lemma DataPhase(cfg: Config, s: State, scheme: RedundancyScheme, key: nat, ids: seq<DiskId>,
                  header: seq<byte>, payload: seq<byte>, mid: State)
    requires Shape(s) && PlacesApart(cfg) && SchemeOk(scheme) && cfg.place(scheme, key) == Some(ids)
    requires forall id :: id in ids ==> id in s.cursors
    requires WroteReplicas(s, ids, header + payload, |ids|, mid)
    ensures ids != [] && Shape(mid) && Kept(s, mid)
    ensures StoredAs(mid, ReplicasAt(s, ids), |header|, payload)
  {
    assert ApartIn(cfg.disks, ids);
    WriteKeeps(s, ids, header + payload, |ids|, mid);
    FreshStored(s, ids, header, payload, mid);
  }

  /** The metadata phase after it loses nothing either. */
  lemma MetaPhase(s: State, mid: State, m: Issued, s': State, rs: seq<Replica>, header: nat, payload: seq<byte>)
    requires Shape(s) && Kept(s, mid) && Shape(mid) && StoredAs(mid, rs, header, payload)
    requires MetaStep(mid, m, s') && mid.walCursor + |m.entry| <= WAL_CAPACITY
    ensures Kept(s, s') && Shape(s') && s'.walCursor <= WAL_CAPACITY
    ensures StoredAs(s', rs, header, payload)
    ensures m.result.Done? ==> ApplyOp(mid.tables, m.op) == Some(s'.tables)
  {
    MetaKeeps(mid, m, s');
    StoredAsKept(mid, s', rs, header, payload);
    KeptTrans(s, mid, s');
  }

  lemma StoredFromAs(s: State, rs: seq<Replica>, header: nat, payload: seq<byte>)
    requires StoredAs(s, rs, header, payload)
    ensures Stored(s, rs, header, |payload|, Checksum(payload))
  {
    StoredReads(s, rs, header, payload);
  }

  // ---- appending ----

  /** The record after an append is in order and reads as the old content followed by the payload. */
  lemma AppendedRecord(s: State, s': State, i: InodeId, rec: InodeRecord, rs: seq<Replica>, payload: seq<byte>)
    requires RecordOk(s, i, rec) && Kept(s, s') && rec.data.ChunkLog?
    requires StoredAs(s', rs, RECORD_HEADER, payload)
    ensures var c := ChunkPointer(|rec.data.chunks|, rs, |payload|, Checksum(payload));
            var rec' := rec.(data := ChunkLog(rec.data.chunks + [c]), size := rec.size + c.len);
            RecordOk(s', i, rec') && Content(s.images, rec).Some?
            && Content(s'.images, rec') == Some(Content(s.images, rec).value + payload)
  {
    var cs := rec.data.chunks;
    var c := ChunkPointer(|cs|, rs, |payload|, Checksum(payload));
    var cs' := cs + [c];
    StoredFromAs(s', rs, RECORD_HEADER, payload);
    RecordKept(s, s', i, rec);
    assert cs'[..|cs|] == cs;
    forall k | 0 <= k < |cs'|
      ensures Stored(s', cs'[k].replicas, RECORD_HEADER, cs'[k].len, cs'[k].checksum)
    {
      if k < |cs| { assert cs'[k] == cs[k]; }
    }
    StoredReads(s', rs, RECORD_HEADER, payload);
  }

  /** What a successful append went through. */
  ghost predicate Appended(cfg: Config, s: State, inode: InodeId, payload: seq<byte>, ids: seq<DiskId>, mid: State,
                           m: Issued, s': State)
  {
    && inode in s.tables.inodes && s.tables.inodes[inode].data.ChunkLog?
    && var rec := s.tables.inodes[inode];
       var record := ChunkRecord(inode, |rec.data.chunks|, payload);
       && cfg.place(rec.redundancy, cfg.key(inode, |rec.data.chunks|)) == Some(ids)
       && (forall id :: id in ids ==> id in s.cursors && s.cursors[id] + RECORD_HEADER + |payload| <= SEGMENT_SIZE)
       && WroteReplicas(s, ids, EncodeHeader(Segment, HeaderOf(record)) + payload, |ids|, mid)
       && m.op == AppendChunk(inode, ChunkPointer(|rec.data.chunks|, ReplicasAt(s, ids), |payload| % U32,
                                                  Checksum(payload)))
       && m.result.Done? && MetaStep(mid, m, s')
  }

  lemma AppendFacts(cfg: Config, s: State, inode: InodeId, payload: seq<byte>, t: Trace, s': State)
    requires AppendStep(cfg, s, inode, payload, t, Ok, s')
    ensures t.ids.Some? && |t.metas| == 1
    ensures Appended(cfg, s, inode, payload, t.ids.value, t.mid, t.metas[0], s')
  {
    var ids := t.ids.value;
    assert ids[..t.written] == ids;
  }

  /** After a successful append the payload is stored and nothing else was lost. */
  lemma AppendStored(cfg: Config, s: State, inode: InodeId, payload: seq<byte>, ids: seq<DiskId>, mid: State, m: Issued,
                     s': State)
    requires Inv(s) && PlacesApart(cfg)
    requires Appended(cfg, s, inode, payload, ids, mid, m, s') && s.walCursor + |m.entry| <= WAL_CAPACITY
    ensures |payload| < U32
    ensures ApplyOp(s.tables, m.op) == Some(s'.tables)
    ensures Kept(s, s') && Shape(s') && s'.walCursor <= WAL_CAPACITY
    ensures StoredAs(s', ReplicasAt(s, ids), RECORD_HEADER, payload)
  {
    var rec := s.tables.inodes[inode];
    var record := ChunkRecord(inode, |rec.data.chunks|, payload);
    assert RecordOk(s, inode, rec);
    DataPhase(cfg, s, rec.redundancy, cfg.key(inode, |rec.data.chunks|), ids, EncodeHeader(Segment, HeaderOf(record)),
              payload, mid);
    assert ids[0] in ids;
    MetaPhase(s, mid, m, s', ReplicasAt(s, ids), RECORD_HEADER, payload);
  }

  /** Recording a stored chunk appends its payload to the file. */
  lemma ChunkRecorded(s: State, inode: InodeId, rs: seq<Replica>, payload: seq<byte>, s': State)
    requires Inv(s) && Kept(s, s') && Shape(s') && s'.walCursor <= WAL_CAPACITY
    requires inode in s.tables.inodes && s.tables.inodes[inode].data.ChunkLog?
    requires var c := ChunkPointer(|s.tables.inodes[inode].data.chunks|, rs, |payload|, Checksum(payload));
             ApplyOp(s.tables, AppendChunk(inode, c)) == Some(s'.tables)
    requires StoredAs(s', rs, RECORD_HEADER, payload)
    ensures Inv(s')
    ensures inode in FilesOf(s) && FilesOf(s') == FilesOf(s)[inode := FilesOf(s)[inode] + payload]
  {
    var rec := s.tables.inodes[inode];
    var c := ChunkPointer(|rec.data.chunks|, rs, |payload|, Checksum(payload));
    assert RecordOk(s, inode, rec);
    InvFiled(s);
    Applied(s.tables, AppendChunk(inode, c), s'.tables);
    AppendedRecord(s, s', inode, rec, rs, payload);
    OneRecord(s, s', inode, ApplyToInode(rec, AppendChunk(inode, c)).value);
  }

  lemma AppendDone(cfg: Config, s: State, inode: InodeId, payload: seq<byte>, t: Trace, s': State)
    requires Inv(s) && PlacesApart(cfg)
    requires AppendStep(cfg, s, inode, payload, t, Ok, s') && WalFits(s, t)
    ensures Inv(s')
    ensures inode in FilesOf(s) && FilesOf(s') == FilesOf(s)[inode := FilesOf(s)[inode] + payload]
  {
    AppendFacts(cfg, s, inode, payload, t, s');
    AppendedRefines(cfg, s, inode, payload, t.ids.value, t.mid, t.metas[0], s');
  }

  lemma AppendedRefines(cfg: Config, s: State, inode: InodeId, payload: seq<byte>, ids: seq<DiskId>, mid: State,
                        m: Issued, s': State)
    requires Inv(s) && PlacesApart(cfg)
    requires Appended(cfg, s, inode, payload, ids, mid, m, s') && s.walCursor + |m.entry| <= WAL_CAPACITY
    ensures Inv(s')
    ensures inode in FilesOf(s) && FilesOf(s') == FilesOf(s)[inode := FilesOf(s)[inode] + payload]
  {
    AppendStored(cfg, s, inode, payload, ids, mid, m, s');
    WordMod(|payload|);
    ChunkRecorded(s, inode, ReplicasAt(s, ids), payload, s');
  }

  /** An append that fails, at whatever point, changes no file. */
  lemma AppendFailed(cfg: Config, s: State, inode: InodeId, payload: seq<byte>, t: Trace, r: Result, s': State)
    requires Inv(s)
    requires AppendStep(cfg, s, inode, payload, t, r, s') && WalFits(s, t) && !r.Ok?
    ensures Inv(s') && FilesOf(s') == FilesOf(s)
  {
    if inode in s.tables.inodes {
      var rec := s.tables.inodes[inode];
      if !rec.mode.Writable? && rec.data.ChunkLog? && t.ids.Some? {
        var ids := t.ids.value;
        WriteKeeps(s, ids, Frame(Segment, ChunkRecord(inode, |rec.data.chunks|, payload)), t.written, t.mid);
        SameRecords(s, t.mid);
        if t.written == |ids| {
          FailedMeta(t.mid, t.metas[0], s');
        }
      }
    }
  }

  // ---- rewriting as one extent ----

  /** The record after a rewrite is in order and reads as the new content. */
  lemma RewrittenRecord(s': State, i: InodeId, rec: InodeRecord, xs: seq<Extent>, content: seq<byte>)
    requires rec.inode == i && rec.mode.Writable? && rec.data == Extents(xs) && rec.size == |content|
             && SchemeOk(rec.redundancy)
    requires if content == [] then xs == []
             else |xs| == 1 && xs[0].fileOffset == 0 && xs[0].len == |content| && xs[0].checksum == Checksum(content)
                  && StoredAs(s', xs[0].replicas, 0, content)
    ensures RecordOk(s', i, rec) && Content(s'.images, rec) == Some(content)
  {
    if content != [] {
      assert xs == [xs[0]] && xs[1..] == [];
      StoredFromAs(s', xs[0].replicas, 0, content);
      StoredReads(s', xs[0].replicas, 0, content);
      OneExtentReads(s'.images, rec.size, xs[0], content);
      assert content + Zeros(0) == content;
    }
  }

  /** After a successful rewrite the content is stored (all of it, even where the recorded length wraps). */
  lemma RewriteStored(cfg: Config, s: State, inode: InodeId, convert: bool, content: seq<byte>, t: Trace, s': State)
    requires Inv(s) && PlacesApart(cfg) && inode in s.tables.inodes
    requires RewriteStep(cfg, s, inode, convert, content, t, Ok, s') && WalFits(s, t)
    ensures |t.metas| == 1 && ApplyOp(s.tables, t.metas[0].op) == Some(s'.tables)
    ensures Kept(s, s') && Shape(s') && s'.walCursor <= WAL_CAPACITY
    ensures content == [] ==> t.metas[0].op == ExtentsOp(convert, inode, [])
    ensures content != [] ==>
              t.ids.Some? && (forall id :: id in t.ids.value ==> id in s.cursors)
              && t.metas[0].op == ExtentsOp(convert, inode,
                                            [Extent(0, |content| % U32, ReplicasAt(s, t.ids.value), Checksum(content))])
              && StoredAs(s', ReplicasAt(s, t.ids.value), 0, content)
  {
    if content == [] {
      MetaKeeps(s, t.metas[0], s');
    } else {
      var rec, ids := s.tables.inodes[inode], t.ids.value;
      assert RecordOk(s, inode, rec);
      assert [] + content == content;
      DataPhase(cfg, s, rec.redundancy, cfg.key(inode, 0xffff_ffff_ffff_ffff), ids, [], content, t.mid);
      MetaPhase(s, t.mid, t.metas[0], s', ReplicasAt(s, ids), 0, content);
    }
  }

  lemma RewrittenSize(rec: InodeRecord, convert: bool, inode: InodeId, xs: seq<Extent>, content: seq<byte>)
    requires |content| < U32 && (convert ==> rec.size == |content|)
    requires if content == [] then xs == [] else |xs| == 1 && xs[0].fileOffset == 0 && xs[0].len == |content|
    requires ApplyToInode(rec, ExtentsOp(convert, inode, xs)).Some?
    ensures var rec' := ApplyToInode(rec, ExtentsOp(convert, inode, xs)).value;
            rec' == rec.(mode := Writable, size := |content|, data := Extents(xs))
  {
    OneWayModes(rec.mode);
    assert ExtentsEnd(xs) == |content| by {
      if content != [] {
        assert xs[1..] == [] && ExtentsEnd([]) == 0;
      }
    }
    var rec' := ApplyToInode(rec, ExtentsOp(convert, inode, xs)).value;
    assert rec'.mode == Writable && rec'.size == |content| && rec'.data == Extents(xs);
  }

  /** Recording a stored extent makes it the file's content. */
  lemma ExtentRecorded(s: State, inode: InodeId, convert: bool, xs: seq<Extent>, content: seq<byte>, s': State)
    requires Inv(s) && Kept(s, s') && Shape(s') && s'.walCursor <= WAL_CAPACITY
    requires inode in s.tables.inodes && |content| < U32 && (convert ==> s.tables.inodes[inode].size == |content|)
    requires ApplyOp(s.tables, ExtentsOp(convert, inode, xs)) == Some(s'.tables)
    requires if content == [] then xs == []
             else |xs| == 1 && xs[0].fileOffset == 0 && xs[0].len == |content| && xs[0].checksum == Checksum(content)
                  && StoredAs(s', xs[0].replicas, 0, content)
    ensures Inv(s') && FilesOf(s') == FilesOf(s)[inode := content]
  {
    var rec := s.tables.inodes[inode];
    assert RecordOk(s, inode, rec);
    InvFiled(s);
    Applied(s.tables, ExtentsOp(convert, inode, xs), s'.tables);
    RewrittenSize(rec, convert, inode, xs, content);
    var rec' := rec.(mode := Writable, size := |content|, data := Extents(xs));
    RewrittenRecord(s', inode, rec', xs, content);
    OneRecord(s, s', inode, rec');
  }

  lemma WordMod(n: nat)
    requires n < U32
    ensures n % U32 == n
  {
  }

  lemma RewriteDone(cfg: Config, s: State, inode: InodeId, convert: bool, content: seq<byte>, t: Trace, s': State)
    requires Inv(s) && PlacesApart(cfg) && inode in s.tables.inodes
    requires RewriteStep(cfg, s, inode, convert, content, t, Ok, s') && WalFits(s, t)
    requires |content| < U32
    requires convert ==> s.tables.inodes[inode].size == |content|
    ensures Inv(s') && FilesOf(s') == FilesOf(s)[inode := content]
  {
    RewriteStored(cfg, s, inode, convert, content, t, s');
    WordMod(|content|);
    var xs := if content == [] then [] else [Extent(0, |content|, ReplicasAt(s, t.ids.value), Checksum(content))];
    assert t.metas[0].op == ExtentsOp(convert, inode, xs);
    ExtentRecorded(s, inode, convert, xs, content, s');
  }

  /** A rewrite that fails, at whatever point, changes no file. */
  lemma RewriteFailed(cfg: Config, s: State, inode: InodeId, convert: bool, content: seq<byte>, t: Trace, r: Result,
                      s': State)
    requires Inv(s) && inode in s.tables.inodes
    requires RewriteStep(cfg, s, inode, convert, content, t, r, s') && WalFits(s, t) && !r.Ok?
    ensures Inv(s') && FilesOf(s') == FilesOf(s)
  {
    if content == [] {
      FailedMeta(s, t.metas[0], s');
    } else if t.ids.Some? {
      WriteKeeps(s, t.ids.value, content, t.written, t.mid);
      SameRecords(s, t.mid);
      if t.written == |t.ids.value| {
        FailedMeta(t.mid, t.metas[0], s');
      }
    }
  }

  lemma ConvertRefines(cfg: Config, s: State, inode: InodeId, t: Trace, r: Result, s': State)
    requires Inv(s) && PlacesApart(cfg)
    requires ConvertStep(cfg, s, inode, t, r, s') && WalFits(s, t)
    requires inode in s.tables.inodes ==> s.tables.inodes[inode].size < U32
    ensures Inv(s') && FilesOf(s') == FilesOf(s)
  {
    if inode in s.tables.inodes && s.tables.inodes[inode].mode.Converting? {
      var rec := s.tables.inodes[inode];
      assert RecordOk(s, inode, rec);
      RecordReadable(s, inode, rec);
      var content := Content(s.images, rec).value;
      if r.Ok? {
        RewriteDone(cfg, s, inode, true, content, t, s');
        assert FilesOf(s)[inode] == content;
      } else {
        RewriteFailed(cfg, s, inode, true, content, t, r, s');
      }
    }
  }

  lemma SpliceLength(content: seq<byte>, off: nat, data: seq<byte>)
    ensures |Splice(content, off, data)| == Max(|content|, off + |data|)
  {
  }

  lemma WriteRefines(cfg: Config, s: State, inode: InodeId, off: nat, data: seq<byte>, t: Trace, r: Result, s': State)
    requires Inv(s) && PlacesApart(cfg)
    requires WriteStep(cfg, s, inode, off, data, t, r, s') && WalFits(s, t)
    requires inode in s.tables.inodes ==> Max(s.tables.inodes[inode].size, off + |data|) < U32
    ensures Inv(s') && Means(FilesOf(s), WriteAt(inode, off, data), r, FilesOf(s'))
  {
    if inode in s.tables.inodes && s.tables.inodes[inode].mode.Writable? {
      var rec := s.tables.inodes[inode];
      assert RecordOk(s, inode, rec);
      RecordReadable(s, inode, rec);
      var content := Content(s.images, rec).value;
      SpliceLength(content, off, data);
      if r.Ok? {
        RewriteDone(cfg, s, inode, false, Splice(content, off, data), t, s');
        SpliceWrites(content, off, data);
        assert FilesOf(s)[inode] == content;
      } else {
        RewriteFailed(cfg, s, inode, false, Splice(content, off, data), t, r, s');
      }
    }
  }

  // ---- every call ----

  /** One call, whatever its outcome, keeps the invariant and does to the files what it means. */
  lemma StepRefines(cfg: Config, s: State, call: Call, t: Trace, r: Result, s': State)
    requires Inv(s) && PlacesApart(cfg)
    requires Step(cfg, s, call, t, r, s') && WalFits(s, t) && CallFits(s, call)
    ensures Inv(s') && Means(FilesOf(s), call, r, FilesOf(s'))
  {
    match call
    case Create(parent, name, scheme, uid, gid, unixMode, now) =>
      CreateRefines(s, parent, name, NewFile(s.tables.nextInode, scheme, uid, gid, unixMode, now), t, r, s');
    case Remove(parent, name) => RemoveRefines(s, t.metas[0], s');
    case SetPolicy(inode, scheme) => PolicyRefines(s, t.metas[0], s');
    case StartConversion(inode) => PolicyRefines(s, t.metas[0], s');
    case AppendTo(inode, payload) =>
      if r.Ok? {
        AppendDone(cfg, s, inode, payload, t, s');
      } else {
        AppendFailed(cfg, s, inode, payload, t, r, s');
      }
    case FinishConversion(inode) => ConvertRefines(cfg, s, inode, t, r, s');
    case WriteAt(inode, off, data) => WriteRefines(cfg, s, inode, off, data, t, r, s');
  }

  /** Reading returns exactly the requested slice of the file. */
  lemma ReadIsSlice(s: State, inode: InodeId, off: nat, len: nat)
    requires Inv(s)
    ensures ReadFile(s, inode, off, len)
            == if inode in FilesOf(s) then Some(Slice(FilesOf(s)[inode], off, len)) else None
    ensures Answers(FilesOf(s), inode, off, len, ReadFile(s, inode, off, len))
  {
    AllReadable(s);
    if inode in FilesOf(s) {
      SliceIsRange(FilesOf(s)[inode], off, len);
    }
  }

  // ---- whole runs ----

  datatype Event = Event(call: Call, trace: Trace, result: Result)

  ghost predicate Run(cfg: Config, states: seq<State>, events: seq<Event>)
  {
    && |states| == |events| + 1
    && forall i :: 0 <= i < |events| ==> RunsAt(cfg, states, events, i)
  }

  ghost predicate RunsAt(cfg: Config, states: seq<State>, events: seq<Event>, i: nat)
    requires i < |events| && |states| == |events| + 1
  {
    && Step(cfg, states[i], events[i].call, events[i].trace, events[i].result, states[i + 1])
    && WalFits(states[i], events[i].trace) && CallFits(states[i], events[i].call)
  }

  lemma {:induction false} RunInv(cfg: Config, states: seq<State>, events: seq<Event>, n: nat)
    requires PlacesApart(cfg) && Run(cfg, states, events) && Inv(states[0]) && n < |states|
    ensures Inv(states[n])
  {
    if n > 0 {
      RunInv(cfg, states, events, n - 1);
      var e := events[n - 1];
      assert RunsAt(cfg, states, events, n - 1);
      StepRefines(cfg, states[n - 1], e.call, e.trace, e.result, states[n]);
    }
  }

  /** The refinement over every run: the files of the pool go through a run of the plain file map,
      and at every moment a read returns the slice of the file at that moment. */
  lemma RunRefines(cfg: Config, states: seq<State>, events: seq<Event>, n: nat)
    requires PlacesApart(cfg) && Run(cfg, states, events) && Inv(states[0]) && n < |states|
    ensures n < |events| ==> Means(FilesOf(states[n]), events[n].call, events[n].result, FilesOf(states[n + 1]))
    ensures forall inode: InodeId, off: nat, len: nat {:trigger ReadFile(states[n], inode, off, len)} ::
              Answers(FilesOf(states[n]), inode, off, len, ReadFile(states[n], inode, off, len))
  {
    RunInv(cfg, states, events, n);
    if n < |events| {
      var e := events[n];
      assert RunsAt(cfg, states, events, n);
      StepRefines(cfg, states[n], e.call, e.trace, e.result, states[n + 1]);
    }
    forall inode: InodeId, off: nat, len: nat
      ensures Answers(FilesOf(states[n]), inode, off, len, ReadFile(states[n], inode, off, len))
    {
      ReadIsSlice(states[n], inode, off, len);
    }
  }
}

/** Reopening a pool: data cursors come from a scan of each data region, tables from replaying the log.
    Safe, and later calls with it, as long as the data regions hold only framed records. */
module PoolReopen {
  import opened Proto
  import opened Bytes
  import opened Crc32c
  import opened Framing
  import opened Store
  import opened PoolModel
  import opened PoolInvariant
  import opened PoolRefinement
  import opened PoolLog
  import History = PoolHistory

  // ---- what a scan returns is what is there ----

  lemma WalHeaderBytes(b: seq<byte>)
    requires |b| == 12 && b[..4] == Le(WAL_MAGIC, 4)
    ensures var h := Header(0, 0, FromLe(b[8..12]), FromLe(b[4..8]));
            EncodeHeader(Wal, h) == b && h.len < U32 && h.checksum < U32
  {
    PowOf256();
    LeOfFromLe(b[4..8]);
    LeOfFromLe(b[8..12]);
    assert b == b[..4] + b[4..8] + b[8..12];
  }

  lemma SegmentHeaderBytes(b: seq<byte>)
    requires |b| == 28 && b[..4] == Le(RECORD_MAGIC, 4)
    ensures var h := Header(FromLe(b[4..12]), FromLe(b[12..20]), FromLe(b[20..24]), FromLe(b[24..28]));
            EncodeHeader(Segment, h) == b && h.len < U32 && h.checksum < U32 && h.inode < U64 && h.chunkSeq < U64
  {
    PowOf256();
    LeOfFromLe(b[4..12]);
    LeOfFromLe(b[12..20]);
    LeOfFromLe(b[20..24]);
    LeOfFromLe(b[24..28]);
    SegmentJoined(b);
  }

  lemma SegmentJoined(b: seq<byte>)
    requires |b| == 28
    ensures b == b[..4] + b[4..12] + b[12..20] + b[20..24] + b[24..28]
  {
  }

  lemma HeaderBytes(f: Format, b: seq<byte>)
    requires |b| == HeaderLen(f) && DecodeHeader(f, b).Some?
    ensures var h := DecodeHeader(f, b).value;
            EncodeHeader(f, h) == b && h.len < U32 && h.checksum < U32
            && if f.Wal? then h.inode == 0 && h.chunkSeq == 0 else h.inode < U64 && h.chunkSeq < U64
  {
    if f.Wal? {
      WalHeaderBytes(b);
    } else {
      SegmentHeaderBytes(b);
    }
  }

  /** A record that is found is a sound record, and its frame is there. */
  lemma FoundIsThere(f: Format, image: seq<byte>, base: nat, cursor: nat, r: Record)
    requires Look(f, image, base, cursor) == Entry(r)
    ensures Sound(f, r) && Holds(image, base + cursor, Frame(f, r)) && cursor + |Frame(f, r)| <= Capacity(f)
  {
    var at, hl := base + cursor, HeaderLen(f);
    var b := image[at..at + hl];
    HeaderBytes(f, b);
    assert HeaderOf(r) == DecodeHeader(f, b).value;
    HoldsJoin(image, at, b, r.payload);
  }

  /** The region from `cursor` to the resume point is exactly the frames of the returned records. */
  ghost predicate ReturnsFrames(f: Format, image: seq<byte>, base: nat, cursor: nat, s: ScanResult)
  {
    && AllSound(f, s.records) && Holds(image, base + cursor, Frames(f, s.records))
    && s.resumeAt == cursor + |Frames(f, s.records)|
    && (cursor <= Capacity(f) ==> s.resumeAt <= Capacity(f))
  }

  lemma ReturnsOneMore(f: Format, image: seq<byte>, base: nat, cursor: nat, r: Record, rest: ScanResult)
    requires Sound(f, r) && Holds(image, base + cursor, Frame(f, r)) && cursor + |Frame(f, r)| <= Capacity(f)
    requires ReturnsFrames(f, image, base, cursor + |Frame(f, r)|, rest)
    ensures ReturnsFrames(f, image, base, cursor, Prepend([r], rest))
  {
    var fr, fs := Frame(f, r), Frames(f, rest.records);
    ConsFrames(f, r, rest.records);
    HoldsJoin(image, base + cursor, fr, fs);
    assert Prepend([r], rest).records == [r] + rest.records;
    assert |fr + fs| == |fr| + |fs|;
  }

  lemma ReturnsNothing(f: Format, image: seq<byte>, base: nat, cursor: nat, s: ScanResult)
    requires base + cursor <= |image| && s.records == [] && s.resumeAt == cursor
    ensures ReturnsFrames(f, image, base, cursor, s)
  {
  }

  lemma {:induction false} ScanIsFrames(f: Format, image: seq<byte>, base: nat, cursor: nat)
    requires base + cursor <= |image|
    ensures ReturnsFrames(f, image, base, cursor, Scan(f, image, base, cursor))
    decreases Capacity(f) - cursor
  {
    if Look(f, image, base, cursor).Entry? {
      var r := Look(f, image, base, cursor).record;
      var next := NextFrame(f, image, base, cursor, r);
      ScanIsFrames(f, image, base, next);
      FoundIsThere(f, image, base, cursor, r);
      ReturnsOneMore(f, image, base, cursor, r, Scan(f, image, base, next));
    } else {
      StopsHere(f, image, base, cursor);
    }
  }

  lemma NextFrame(f: Format, image: seq<byte>, base: nat, cursor: nat, r: Record) returns (next: nat)
    requires Look(f, image, base, cursor) == Entry(r)
    ensures next == cursor + |Frame(f, r)| && cursor < next <= Capacity(f) && base + next <= |image|
    ensures Scan(f, image, base, cursor) == Prepend([r], Scan(f, image, base, next))
  {
    LookAdvances(f, image, base, cursor);
    ScanStep(f, image, base, cursor, r);
    next := cursor + |Frame(f, r)|;
  }

  lemma StopsHere(f: Format, image: seq<byte>, base: nat, cursor: nat)
    requires base + cursor <= |image| && !Look(f, image, base, cursor).Entry?
    ensures ReturnsFrames(f, image, base, cursor, Scan(f, image, base, cursor))
  {
    ScanStops(f, image, base, cursor);
    ReturnsNothing(f, image, base, cursor, Scan(f, image, base, cursor));
  }

  lemma ConsFrames(f: Format, r: Record, rs: seq<Record>)
    requires Sound(f, r) && AllSound(f, rs)
    ensures Frames(f, [r] + rs) == Frame(f, r) + Frames(f, rs) && AllSound(f, [r] + rs)
  {
    assert ([r] + rs)[1..] == rs;
  }

  // ---- data regions that hold only framed records ----

  ghost predicate FramedBy(image: seq<byte>, cursor: nat, rs: seq<Record>)
  {
    && AllSound(Segment, rs) && |Frames(Segment, rs)| == cursor <= SEGMENT_SIZE
    && Holds(image, SEG, Frames(Segment, rs))
  }

  ghost predicate FramedDisk(image: seq<byte>, cursor: nat)
  {
    exists rs :: FramedBy(image, cursor, rs)
  }

  ghost predicate Framed(s: State)
  {
    s.images.Keys == s.cursors.Keys && forall id :: id in s.cursors ==> FramedDisk(s.images[id], s.cursors[id])
  }

  lemma FramedKept(image: seq<byte>, cursor: nat, image': seq<byte>)
    requires FramedDisk(image, cursor) && KeptOn(image, cursor, image', cursor)
    ensures FramedDisk(image', cursor)
  {
    var rs :| FramedBy(image, cursor, rs);
    KeptOnHolds(image, cursor, image', cursor, SEG, Frames(Segment, rs));
    assert FramedBy(image', cursor, rs);
  }

  lemma FramedAppended(image: seq<byte>, cursor: nat, r: Record, image': seq<byte>, cursor': nat)
    requires FramedDisk(image, cursor) && Sound(Segment, r) && cursor + |Frame(Segment, r)| <= SEGMENT_SIZE
    requires image' == Patch(image, SEG + cursor, Frame(Segment, r)) && cursor' == cursor + |Frame(Segment, r)|
    ensures FramedDisk(image', cursor')
  {
    var rs :| FramedBy(image, cursor, rs);
    FramedSnoc(image, cursor, rs, r);
    assert FramedBy(image', cursor', rs + [r]);
  }

  lemma FramedSnoc(image: seq<byte>, cursor: nat, rs: seq<Record>, r: Record)
    requires FramedBy(image, cursor, rs) && Sound(Segment, r) && cursor + |Frame(Segment, r)| <= SEGMENT_SIZE
    ensures FramedBy(Patch(image, SEG + cursor, Frame(Segment, r)), cursor + |Frame(Segment, r)|, rs + [r])
  {
    FramesSnoc(Segment, rs, r);
    SoundSnoc(rs, r);
    AppendedHolds(image, cursor, Frames(Segment, rs), Frame(Segment, r));
  }

  lemma AppendedHolds(image: seq<byte>, cursor: nat, fs: seq<byte>, e: seq<byte>)
    requires Holds(image, SEG, fs) && |fs| == cursor && e != []
    ensures Holds(Patch(image, SEG + cursor, e), SEG, fs + e)
  {
    var image' := Patch(image, SEG + cursor, e);
    PatchSameOutside(image, SEG + cursor, e);
    HoldsOutside(image, image', SEG + cursor, |e|, SEG, fs);
    HoldsJoin(image', SEG, fs, e);
  }

  lemma SoundSnoc(rs: seq<Record>, r: Record)
    requires AllSound(Segment, rs) && Sound(Segment, r)
    ensures AllSound(Segment, rs + [r])
  {
  }

  lemma WriteFramedDisk(s: State, ids: seq<DiskId>, r: Record, k: nat, s': State, id: DiskId)
    requires WroteReplicas(s, ids, Frame(Segment, r), k, s') && id in s.cursors && id in s.images
    requires KeptOn(s.images[id], s.cursors[id], s'.images[id], s'.cursors[id])
             && FramedDisk(s.images[id], s.cursors[id])
    requires r.checksum == Checksum(r.payload) && r.inode < U64 && r.chunkSeq < U64
    requires id in ids[..k] ==> s.cursors[id] + |Frame(Segment, r)| <= SEGMENT_SIZE
    ensures FramedDisk(s'.images[id], s'.cursors[id])
  {
    if id in ids[..k] {
      FramedAppended(s.images[id], s.cursors[id], r, s'.images[id], s'.cursors[id]);
    } else {
      FramedKept(s.images[id], s.cursors[id], s'.images[id]);
    }
  }

  /** Replicas of a chunk, complete or cut short, leave the regions framed. */
  lemma WriteFramed(s: State, ids: seq<DiskId>, r: Record, k: nat, s': State)
    requires Shape(s) && Framed(s) && WroteReplicas(s, ids, Frame(Segment, r), k, s')
    requires r.checksum == Checksum(r.payload) && r.inode < U64 && r.chunkSeq < U64
    requires forall id :: id in ids[..k] && id in s.cursors ==> s.cursors[id] + |Frame(Segment, r)| <= SEGMENT_SIZE
    ensures Framed(s')
  {
    WriteKeeps(s, ids, Frame(Segment, r), k, s');
    forall id | id in s'.cursors
      ensures FramedDisk(s'.images[id], s'.cursors[id])
    {
      WriteFramedDisk(s, ids, r, k, s', id);
    }
  }

  lemma MetaFramed(s: State, m: Issued, s': State)
    requires Shape(s) && Framed(s) && MetaStep(s, m, s') && s.walCursor + |m.entry| <= WAL_CAPACITY
    ensures Framed(s')
  {
    MetaKeeps(s, m, s');
    forall id | id in s'.cursors
      ensures FramedDisk(s'.images[id], s'.cursors[id])
    {
      assert FramedDisk(s.images[id], s.cursors[id]);
      assert KeptOn(s.images[id], s.cursors[id], s'.images[id], s'.cursors[id]);
      FramedKept(s.images[id], s.cursors[id], s'.images[id]);
    }
  }

  /** The call writes no raw extent, and what it appends has a number that fits its header. */
  ghost predicate FramedCall(s: State, call: Call)
  {
    match call
    case AppendTo(inode, _) =>
      inode in s.tables.inodes && s.tables.inodes[inode].data.ChunkLog? ==>
          inode < U64
          && |s.tables.inodes[inode].data.chunks| < U64
    case FinishConversion(inode) =>
      inode in s.tables.inodes && s.tables.inodes[inode].mode.Converting? ==> s.tables.inodes[inode].size == 0
    case WriteAt(inode, off, data) =>
      inode in s.tables.inodes && s.tables.inodes[inode].mode.Writable? ==>
          s.tables.inodes[inode].size == 0
          && off + |data| == 0
    case _ => true
  }

  lemma AppendFramed(cfg: Config, s: State, inode: InodeId, payload: seq<byte>, t: Trace, r: Result, s': State)
    requires Shape(s) && Framed(s) && AppendStep(cfg, s, inode, payload, t, r, s') && WalFits(s, t)
    requires FramedCall(s, AppendTo(inode, payload))
    ensures Framed(s')
  {
    if inode in s.tables.inodes && !s.tables.inodes[inode].mode.Writable? && s.tables.inodes[inode].data.ChunkLog?
        && t.ids.Some? {
      var record := ChunkRecord(inode, |s.tables.inodes[inode].data.chunks|, payload);
      WriteKeeps(s, t.ids.value, Frame(Segment, record), t.written, t.mid);
      WriteFramed(s, t.ids.value, record, t.written, t.mid);
      if t.written == |t.ids.value| {
        MetaFramed(t.mid, t.metas[0], s');
      }
    }
  }

  lemma CreateFramed(s: State, parent: InodeId, name: seq<byte>, rec: InodeRecord, t: Trace, r: Result, s': State)
    requires Shape(s) && Framed(s) && CreateStep(s, parent, name, rec, t, r, s') && WalFits(s, t)
    ensures Framed(s')
  {
    var a := Allocated(s);
    MetaFramed(a, t.metas[0], t.mid);
    if t.metas[0].result.Done? {
      MetaKeeps(a, t.metas[0], t.mid);
      MetaFramed(t.mid, t.metas[1], s');
    }
  }

  lemma EmptySplice(content: seq<byte>, off: nat, data: seq<byte>)
    requires content == [] && off + |data| == 0
    ensures Splice(content, off, data) == []
  {
  }

  /** Calls that write no extent keep all data regions framed, whatever fails. */
  lemma StepFramed(cfg: Config, s: State, call: Call, t: Trace, r: Result, s': State)
    requires Inv(s) && Framed(s) && Step(cfg, s, call, t, r, s') && WalFits(s, t) && FramedCall(s, call)
    ensures Framed(s')
  {
    match call
    case Create(parent, name, scheme, uid, gid, unixMode, now) =>
      CreateFramed(s, parent, name, NewFile(s.tables.nextInode, scheme, uid, gid, unixMode, now), t, r, s');
    case Remove(_, _) => MetaFramed(s, t.metas[0], s');
    case SetPolicy(_, _) => MetaFramed(s, t.metas[0], s');
    case StartConversion(_) => MetaFramed(s, t.metas[0], s');
    case AppendTo(inode, payload) => AppendFramed(cfg, s, inode, payload, t, r, s');
    case FinishConversion(inode) =>
      if inode in s.tables.inodes && s.tables.inodes[inode].mode.Converting? {
        assert RecordOk(s, inode, s.tables.inodes[inode]);
        RecordReadable(s, inode, s.tables.inodes[inode]);
        MetaFramed(s, t.metas[0], s');
      }
    case WriteAt(inode, off, data) =>
      if inode in s.tables.inodes && s.tables.inodes[inode].mode.Writable? {
        assert RecordOk(s, inode, s.tables.inodes[inode]);
        RecordReadable(s, inode, s.tables.inodes[inode]);
        EmptySplice(Content(s.images, s.tables.inodes[inode]).value, off, data);
        MetaFramed(s, t.metas[0], s');
      }
  }

  // ---- reopening ----

  ghost function ResumedCursors(images: map<DiskId, seq<byte>>): map<DiskId, nat>
  {
    map id | id in images :: Scan(Segment, images[id], SEG, 0).resumeAt
  }

  /** `Pool::open`: None when the log is refused. The group starts over at epoch 0 with both members. */
  ghost function Reopened(images: map<DiskId, seq<byte>>, group: MetaGroup): Option<State>
    requires group.primary in images
  {
    var tables := Reopen(images[group.primary]);
    if tables.None? then None
    else Some(State(images, ResumedCursors(images), group, Scan(Wal, images[group.primary], 0, 0).resumeAt,
                    tables.value))
  }

  ghost predicate GroupIn(group: MetaGroup, s: State)
  {
    && group.primary == s.group.primary && s.group.primary in s.images
    && (group.backup.Some? ==> group.backup.value in s.images && group.backup.value != group.primary)
  }

  /** No valid entry begins at `end` in the WAL of the primary. */
  ghost predicate LogEndsAt(s: State, end: nat)
  {
    s.group.primary in s.images && Ends(Wal, s.images[s.group.primary], 0, end)
  }

  /** Each resumed cursor is at or beyond the end of everything appended, and the region is framed. */
  lemma ResumeFramed(image: seq<byte>, cursor: nat)
    requires SEG + cursor <= |image| && FramedDisk(image, cursor)
    ensures var c := Scan(Segment, image, SEG, 0).resumeAt;
            cursor <= c && SEG + c <= |image| && FramedDisk(image, c)
  {
    var rs :| FramedBy(image, cursor, rs);
    ScanKeepsAppended(Segment, image, SEG, rs);
    ScanIsFrames(Segment, image, SEG, 0);
    assert FramedBy(image, Scan(Segment, image, SEG, 0).resumeAt, Scan(Segment, image, SEG, 0).records);
  }

  lemma ReopenedShape(s: State, group: MetaGroup, s': State)
    requires Shape(s) && Framed(s) && GroupIn(group, s) && Reopened(s.images, group) == Some(s')
    ensures Shape(s') && Kept(s, s') && Framed(s')
  {
    forall id | id in s.cursors
      ensures s.cursors[id] <= s'.cursors[id] && SEG + s'.cursors[id] <= |s.images[id]|
              && FramedDisk(s.images[id], s'.cursors[id])
    {
      ResumeFramed(s.images[id], s.cursors[id]);
    }
  }

  lemma ReopenedLog(s: State, ls: Log, group: MetaGroup)
    requires Shape(s) && GoodLog(s, ls) && GroupIn(group, s)
    requires LogEndsAt(s, s.walCursor)
    ensures Reopened(s.images, group).Some?
    ensures var s' := Reopened(s.images, group).value;
            GoodLog(s', ls) && SameView(s.tables, s'.tables) && s'.walCursor == s.walCursor && CounterAbove(s'.tables)
  {
    var image := s.images[s.group.primary];
    ReopenIsReplay(image, ls);
    ReopenAgrees(s.tables, ls, image);
  }

  lemma SameViewInv(s: State, s': State)
    requires Inv(s) && Kept(s, s') && Shape(s') && s'.walCursor <= WAL_CAPACITY
    requires SameView(s.tables, s'.tables) && CounterAbove(s'.tables)
    ensures Inv(s') && FilesOf(s') == FilesOf(s)
  {
    forall i | i in s.tables.inodes
      ensures RecordOk(s', i, s.tables.inodes[i])
      ensures Content(s'.images, s.tables.inodes[i]) == Content(s.images, s.tables.inodes[i])
    {
      RecordKept(s, s', i, s.tables.inodes[i]);
    }
  }

  /** Safe reopen: with framed data regions and no further valid entry behind the log, opening succeeds, every resumed
      cursor is at or beyond every live record, and all files read as before. */
  lemma ReopenKeeps(s: State, ls: Log, group: MetaGroup)
    requires Inv(s) && Framed(s) && GoodLog(s, ls) && GroupIn(group, s)
    requires LogEndsAt(s, s.walCursor)
    ensures Reopened(s.images, group).Some?
    ensures var s' := Reopened(s.images, group).value;
            Inv(s') && Framed(s') && GoodLog(s', ls) && Kept(s, s') && FilesOf(s') == FilesOf(s)
  {
    ReopenedLog(s, ls, group);
    ReopenedShape(s, group, Reopened(s.images, group).value);
    SameViewInv(s, Reopened(s.images, group).value);
  }

  lemma SameViewDisjoint(s: State, s': State)
    requires SameView(s.tables, s'.tables) && History.Disjoint(s)
    ensures History.Disjoint(s')
  {
    forall p, q | History.Live(s', p) && History.Live(s', q) && p != q
      ensures History.Apart(History.RegionOf(s', p), History.RegionOf(s', q))
    {
      assert History.Live(s, p) && History.Live(s, q);
    }
  }
}

/** Reopening a pool whose data regions hold raw extents: exactly when it is safe, and what the next
    append does to a file when it is not. */
module PoolExtents {
  import opened Proto
  import opened Bytes
  import opened Crc32c
  import opened Framing
  import opened Store
  import opened PoolModel
  import opened PoolInvariant
  import opened PoolRefinement
  import opened PoolLog
  import opened PoolReopen
  import History = PoolHistory

  // ---- where a scan resumes ----

  /** Behind framed records the scan resumes at their end if and only if what follows is no record. */
  lemma ResumesAtIff(image: seq<byte>, cursor: nat, rs: seq<Record>)
    requires FramedBy(image, cursor, rs)
    ensures Ends(Segment, image, SEG, cursor) <==> Scan(Segment, image, SEG, 0).resumeAt == cursor
    ensures cursor <= Scan(Segment, image, SEG, 0).resumeAt
  {
    assert SEG + 0 == SEG;
    ScanSkipsTo(Segment, image, SEG, 0, rs, cursor);
    ScanResumeBounds(Segment, image, SEG, cursor);
    if Ends(Segment, image, SEG, cursor) {
      ScanHere(Segment, image, SEG, cursor);
    } else {
      var r := Look(Segment, image, SEG, cursor).record;
      var next := NextFrame(Segment, image, SEG, cursor, r);
      ScanResumeBounds(Segment, image, SEG, next);
    }
  }

  /** Any first byte other than the magic's ends the scan. */
  lemma ForeignByteEnds(image: seq<byte>, cursor: nat)
    requires SEG + cursor < |image| && image[SEG + cursor] != RECORD_MAGIC % 256
    ensures Ends(Segment, image, SEG, cursor)
  {
    var at := SEG + cursor;
    assert Le(RECORD_MAGIC, 4)[0] == RECORD_MAGIC % 256;
    if at + 28 <= |image| {
      var b := image[at..at + 28];
      assert b[..4][0] == image[at];
    }
  }

  ghost predicate Covers(image: seq<byte>, end: nat, rs: seq<Record>)
  {
    && AllSound(Segment, rs) && Holds(image, SEG, Frames(Segment, rs))
    && end <= |Frames(Segment, rs)| <= SEGMENT_SIZE
  }

  /** Valid records, one after the other from the start of the region, reach `end`. */
  ghost predicate Covered(image: seq<byte>, end: nat)
  {
    exists rs :: Covers(image, end, rs)
  }

  /** A resumed cursor is at or beyond `end` if and only if valid records reach it. */
  lemma ResumesBeyondIff(image: seq<byte>, end: nat)
    requires SEG <= |image|
    ensures end <= Scan(Segment, image, SEG, 0).resumeAt <==> Covered(image, end)
  {
    var scan := Scan(Segment, image, SEG, 0);
    ScanIsFrames(Segment, image, SEG, 0);
    if end <= scan.resumeAt {
      assert Covers(image, end, scan.records);
    }
    if Covered(image, end) {
      var rs :| Covers(image, end, rs);
      ScanKeepsAppended(Segment, image, SEG, rs);
    }
  }

  // ---- reopening is safe exactly when the records reach all live data ----

  ghost predicate RegionCovered(images: map<DiskId, seq<byte>>, g: History.Region)
  {
    g.disk in images && Covered(images[g.disk], g.start + g.len)
  }

  ghost predicate PlaceCovered(s: State, p: History.Place)
    requires History.Live(s, p)
  {
    RegionCovered(s.images, History.RegionOf(s, p))
  }

  ghost predicate AllCovered(s: State)
  {
    forall p :: History.Live(s, p) ==> PlaceCovered(s, p)
  }

  /** The reopened state has the old images, the old tables and the resumed cursors. */
  ghost predicate ReopenedAs(s: State, s': State)
  {
    && s'.images == s.images && SameView(s.tables, s'.tables) && CounterAbove(s'.tables)
    && s'.cursors == ResumedCursors(s.images) && s'.walCursor <= WAL_CAPACITY && Shape(s')
  }

  lemma ResumedShape(s: State, group: MetaGroup, s': State)
    requires Shape(s) && GroupIn(group, s) && Reopened(s.images, group) == Some(s')
    ensures Shape(s')
  {
    forall id | id in s.images
      ensures SEG + s'.cursors[id] <= |s'.images[id]|
    {
      ScanResumeBounds(Segment, s.images[id], SEG, 0);
    }
  }

  lemma ReopenYields(s: State, ls: Log, group: MetaGroup)
    requires Inv(s) && GoodLog(s, ls) && GroupIn(group, s)
    requires LogEndsAt(s, s.walCursor)
    ensures Reopened(s.images, group).Some? && ReopenedAs(s, Reopened(s.images, group).value)
  {
    ReopenedLog(s, ls, group);
    ResumedShape(s, group, Reopened(s.images, group).value);
  }

  /** Reopening by itself changes no file, whatever the data regions hold. */
  lemma ReopenReads(s: State, s': State)
    requires ReopenedAs(s, s')
    ensures FilesOf(s') == FilesOf(s)
  {
  }

  /** Valid records reach the end of every replica. */
  ghost predicate ReplicasCovered(s: State, rs: seq<Replica>, len: nat)
  {
    forall r :: r in rs ==> r.disk in s.images && Covered(s.images[r.disk], r.offset + len)
  }

  lemma ReplicaResumed(s: State, s': State, r: Replica, header: nat, payload: seq<byte>, end: nat)
    requires Shape(s) && ReopenedAs(s, s') && ReplicaHolds(s, r, header, payload)
    requires Covered(s.images[r.disk], r.offset + end) && end == header + |payload|
    ensures ReplicaHolds(s', r, header, payload)
  {
    ResumesBeyondIff(s.images[r.disk], r.offset + end);
  }

  lemma StoredAsResumed(s: State, s': State, rs: seq<Replica>, header: nat, p: seq<byte>, end: nat)
    requires Shape(s) && ReopenedAs(s, s') && StoredAs(s, rs, header, p)
    requires ReplicasCovered(s, rs, end) && end == header + |p|
    ensures StoredAs(s', rs, header, p)
  {
    forall k | 0 <= k < |rs|
      ensures ReplicaHolds(s', rs[k], header, p)
    {
      assert rs[k] in rs && ReplicaHolds(s, rs[k], header, p);
      ReplicaResumed(s, s', rs[k], header, p, end);
    }
  }

  /** The replicas of one chunk or extent are stored again when valid records reach them. */
  lemma StoredResumed(s: State, s': State, rs: seq<Replica>, header: nat, len: nat, checksum: nat, end: nat)
    requires Shape(s) && ReopenedAs(s, s') && Stored(s, rs, header, len, checksum)
    requires ReplicasCovered(s, rs, end) && end == header + len
    ensures Stored(s', rs, header, len, checksum)
  {
    var p := StoredParts(s, rs, header, len, checksum);
    StoredAsResumed(s, s', rs, header, p, end);
    StoredFromAs(s', rs, header, p);
  }

  lemma StoredParts(s: State, rs: seq<Replica>, header: nat, len: nat, checksum: nat) returns (p: seq<byte>)
    requires Stored(s, rs, header, len, checksum)
    ensures StoredAs(s, rs, header, p) && |p| == len && Checksum(p) == checksum
  {
    p := ReadReplicated(s.images, rs, header, len).value;
  }

  lemma ReplicaCovered(s: State, i: InodeId, d: DataLocator, index: nat, k: nat)
    requires AllCovered(s) && i in s.tables.inodes && d == s.tables.inodes[i].data
    requires k < |History.ReplicasOf(d, index)|
    ensures var r := History.ReplicasOf(d, index)[k];
            r.disk in s.images && Covered(s.images[r.disk], r.offset + History.LengthOf(d, index))
  {
    var p := History.Place(i, index, k);
    assert History.Live(s, p) && PlaceCovered(s, p);
  }

  lemma ReplicasResumed(s: State, i: InodeId, d: DataLocator, index: nat)
    requires AllCovered(s) && i in s.tables.inodes && d == s.tables.inodes[i].data
    ensures ReplicasCovered(s, History.ReplicasOf(d, index), History.LengthOf(d, index))
  {
    var rs := History.ReplicasOf(d, index);
    forall r | r in rs
      ensures r.disk in s.images && Covered(s.images[r.disk], r.offset + History.LengthOf(d, index))
    {
      var k :| 0 <= k < |rs| && rs[k] == r;
      ReplicaCovered(s, i, d, index, k);
    }
  }

  lemma ChunksResumed(s: State, s': State, i: InodeId)
    requires Shape(s) && ReopenedAs(s, s') && AllCovered(s) && i in s.tables.inodes
    requires s.tables.inodes[i].data.ChunkLog? && ChunksOk(s, s.tables.inodes[i].data.chunks)
    ensures ChunksOk(s', s.tables.inodes[i].data.chunks)
  {
    var cs := s.tables.inodes[i].data.chunks;
    forall j | 0 <= j < |cs|
      ensures Stored(s', cs[j].replicas, RECORD_HEADER, cs[j].len, cs[j].checksum)
    {
      ChunkResumed(s, s', i, s.tables.inodes[i].data, j);
    }
  }

  lemma ChunkResumed(s: State, s': State, i: InodeId, d: DataLocator, j: nat)
    requires Shape(s) && ReopenedAs(s, s') && AllCovered(s) && i in s.tables.inodes && d == s.tables.inodes[i].data
    requires d.ChunkLog? && ChunksOk(s, d.chunks) && j < |d.chunks|
    ensures Stored(s', d.chunks[j].replicas, RECORD_HEADER, d.chunks[j].len, d.chunks[j].checksum)
  {
    var c := d.chunks[j];
    ReplicasResumed(s, i, d, j);
    assert History.ReplicasOf(d, j) == c.replicas;
    StoredResumed(s, s', c.replicas, RECORD_HEADER, c.len, c.checksum, History.LengthOf(d, j));
  }

  lemma ExtentsResumed(s: State, s': State, i: InodeId)
    requires Shape(s) && ReopenedAs(s, s') && AllCovered(s) && i in s.tables.inodes
    requires s.tables.inodes[i].data.Extents? && ExtentsOk(s, s.tables.inodes[i].size, s.tables.inodes[i].data.extents)
    ensures ExtentsOk(s', s.tables.inodes[i].size, s.tables.inodes[i].data.extents)
  {
    var xs := s.tables.inodes[i].data.extents;
    if xs != [] {
      ReplicasResumed(s, i, s.tables.inodes[i].data, 0);
      ExtentResumed(s, s', xs[0]);
    }
  }

  lemma ExtentResumed(s: State, s': State, x: Extent)
    requires Shape(s) && ReopenedAs(s, s') && Stored(s, x.replicas, 0, x.len, x.checksum)
    requires ReplicasCovered(s, x.replicas, x.len)
    ensures Stored(s', x.replicas, 0, x.len, x.checksum)
  {
    StoredResumed(s, s', x.replicas, 0, x.len, x.checksum, x.len);
  }

  lemma RecordResumed(s: State, s': State, i: InodeId)
    requires Inv(s) && ReopenedAs(s, s') && AllCovered(s) && i in s.tables.inodes
    ensures RecordOk(s', i, s.tables.inodes[i])
  {
    assert RecordOk(s, i, s.tables.inodes[i]);
    match s.tables.inodes[i].data
    case ChunkLog(_) => ChunksResumed(s, s', i);
    case Extents(_) => ExtentsResumed(s, s', i);
  }

  lemma CoveredInv(s: State, s': State)
    requires Inv(s) && ReopenedAs(s, s') && AllCovered(s)
    ensures Inv(s')
  {
    forall i | i in s'.tables.inodes
      ensures RecordOk(s', i, s'.tables.inodes[i])
    {
      RecordResumed(s, s', i);
    }
  }

  /** A region lies below the cursor of its disk. */
  ghost predicate Below(cursors: map<DiskId, nat>, g: History.Region)
  {
    g.disk in cursors && g.start + g.len <= cursors[g.disk]
  }

  lemma LiveBelow(s: State, p: History.Place)
    requires Inv(s) && History.Live(s, p)
    ensures Below(s.cursors, History.RegionOf(s, p))
  {
    History.LiveBelowCursor(s, p);
  }

  lemma BelowCovered(s: State, p: History.Place)
    requires Shape(s) && History.Live(s, p) && Below(ResumedCursors(s.images), History.RegionOf(s, p))
    ensures PlaceCovered(s, p)
  {
    ResumedRegion(s.images, History.RegionOf(s, p));
  }

  lemma ResumedRegion(images: map<DiskId, seq<byte>>, g: History.Region)
    requires Below(ResumedCursors(images), g) && SEG <= |images[g.disk]|
    ensures RegionCovered(images, g)
  {
    ResumedAt(images, g.disk);
    ResumesBeyondIff(images[g.disk], g.start + g.len);
  }

  lemma ResumedAt(images: map<DiskId, seq<byte>>, id: DiskId)
    requires id in images
    ensures ResumedCursors(images)[id] == Scan(Segment, images[id], SEG, 0).resumeAt
  {
  }

  lemma SamePlace(s: State, s': State, p: History.Place)
    requires SameView(s.tables, s'.tables) && History.Live(s, p)
    ensures History.Live(s', p) && History.RegionOf(s', p) == History.RegionOf(s, p)
  {
  }

  lemma InvCoversPlace(s: State, s': State, p: History.Place)
    requires Shape(s) && ReopenedAs(s, s') && Inv(s') && History.Live(s, p)
    ensures PlaceCovered(s, p)
  {
    SamePlace(s, s', p);
    LiveBelow(s', p);
    BelowCovered(s, p);
  }

  lemma InvCovered(s: State, s': State)
    requires Shape(s) && ReopenedAs(s, s') && Inv(s')
    ensures AllCovered(s)
  {
    forall p | History.Live(s, p)
      ensures PlaceCovered(s, p)
    {
      InvCoversPlace(s, s', p);
    }
  }

  /** Reopening succeeds and reads every file as before. The pool it yields is in order, so that no
      later call can lose anything, if and only if on every disk valid records reach the end of all
      live data. */
  lemma ReopenSafeIff(s: State, ls: Log, group: MetaGroup)
    requires Inv(s) && GoodLog(s, ls) && GroupIn(group, s)
    requires LogEndsAt(s, s.walCursor)
    ensures Reopened(s.images, group).Some?
    ensures var s' := Reopened(s.images, group).value;
            FilesOf(s') == FilesOf(s) && (Inv(s') <==> AllCovered(s))
  {
    ReopenYields(s, ls, group);
    var s' := Reopened(s.images, group).value;
    ReopenReads(s, s');
    if AllCovered(s) {
      CoveredInv(s, s');
    }
    if Inv(s') {
      InvCovered(s, s');
    }
  }

  lemma FramedCovers(image: seq<byte>, cursor: nat, end: nat)
    requires FramedDisk(image, cursor) && end <= cursor
    ensures Covered(image, end)
  {
    var rs :| FramedBy(image, cursor, rs);
    assert Covers(image, end, rs);
  }

  lemma FramedRegion(s: State, g: History.Region)
    requires Framed(s) && Below(s.cursors, g)
    ensures RegionCovered(s.images, g)
  {
    FramedCovers(s.images[g.disk], s.cursors[g.disk], g.start + g.len);
  }

  lemma FramedPlace(s: State, p: History.Place)
    requires Inv(s) && Framed(s) && History.Live(s, p)
    ensures PlaceCovered(s, p)
  {
    LiveBelow(s, p);
    FramedRegion(s, History.RegionOf(s, p));
  }

  /** Regions that hold only framed records meet the condition. */
  lemma FramedIsCovered(s: State)
    requires Inv(s) && Framed(s)
    ensures AllCovered(s)
  {
    forall p | History.Live(s, p)
      ensures PlaceCovered(s, p)
    {
      FramedPlace(s, p);
    }
  }

  // ---- a conversion puts an extent where a scan resumes ----

  lemma ConvertedStored(cfg: Config, s: State, inode: InodeId, t: Trace, s': State)
    requires Inv(s) && PlacesApart(cfg) && ConvertStep(cfg, s, inode, t, Ok, s') && WalFits(s, t)
    requires inode in s.tables.inodes && s.tables.inodes[inode].size > 0
    ensures t.ids.Some? && (forall id :: id in t.ids.value ==> id in s.cursors)
    ensures Kept(s, s') && Shape(s')
    ensures inode in s'.tables.inodes && s'.tables.inodes[inode].data.Extents?
            && |s'.tables.inodes[inode].data.extents| == 1
    ensures s'.tables.inodes[inode].data.extents[0].replicas == ReplicasAt(s, t.ids.value)
  {
    var rec := s.tables.inodes[inode];
    assert RecordOk(s, inode, rec);
    RecordReadable(s, inode, rec);
    RewriteStored(cfg, s, inode, true, Content(s.images, rec).value, t, s');
    InvFiled(s);
    Applied(s.tables, t.metas[0].op, s'.tables);
  }

  /** Converting a file in a pool of framed regions puts its extent on each placed disk right behind the
      records, and there a scan resumes, at the extent's first byte, if and only if the extent does not
      begin with a valid record. */
  lemma ConversionResumesIff(cfg: Config, s: State, inode: InodeId, t: Trace, s': State, k: nat)
    requires Inv(s) && Framed(s) && PlacesApart(cfg) && ConvertStep(cfg, s, inode, t, Ok, s') && WalFits(s, t)
    requires inode in s.tables.inodes && s.tables.inodes[inode].size > 0
    requires t.ids.Some? && k < |t.ids.value|
    ensures inode in s'.tables.inodes && s'.tables.inodes[inode].data.Extents?
    ensures |s'.tables.inodes[inode].data.extents| == 1
    ensures var x := s'.tables.inodes[inode].data.extents[0];
            && k < |x.replicas| && x.replicas[k].disk == t.ids.value[k] && x.replicas[k].disk in s'.images
            && var image := s'.images[x.replicas[k].disk];
               Scan(Segment, image, SEG, 0).resumeAt == x.replicas[k].offset
               <==> Ends(Segment, image, SEG, x.replicas[k].offset)
  {
    ConvertedStored(cfg, s, inode, t, s');
    var id := t.ids.value[k];
    assert id in t.ids.value;
    var c := s.cursors[id];
    assert KeptOn(s.images[id], c, s'.images[id], s'.cursors[id]);
    FramedBelow(s.images[id], c, s'.images[id], s'.cursors[id]);
    var rs :| FramedBy(s'.images[id], c, rs);
    ResumesAtIff(s'.images[id], c, rs);
  }

  lemma FramedBelow(image: seq<byte>, cursor: nat, image': seq<byte>, cursor': nat)
    requires FramedDisk(image, cursor) && KeptOn(image, cursor, image', cursor')
    ensures FramedDisk(image', cursor)
  {
    FramedKept(image, cursor, image');
  }

  // ---- and the next append overwrites it ----

  /** The bytes of a file after `over` was written at its first byte. */
  function Overlaid(content: seq<byte>, over: seq<byte>): (r: seq<byte>)
    ensures |r| == |content|
  {
    if |content| <= |over| then over[..|content|] else over + content[|over|..]
  }

  lemma OverlaidSameIff(content: seq<byte>, over: seq<byte>)
    ensures Overlaid(content, over) == content <==> content <= over || over <= content
  {
    if |content| <= |over| {
      assert over[..|content|] == content <==> content <= over;
    } else {
      assert content == content[..|over|] + content[|over|..];
    }
  }

  lemma PatchOverlays(image: seq<byte>, at: nat, content: seq<byte>, over: seq<byte>)
    requires Holds(image, at, content) && over != []
    ensures Holds(Patch(image, at, over), at, Overlaid(content, over))
  {
    var image' := Patch(image, at, over);
    var r := Overlaid(content, over);
    forall i | 0 <= i < |content|
      ensures image'[at + i] == r[i]
    {
      if i < |over| {
        assert image'[at..at + |over|][i] == over[i];
      } else {
        assert image[at..at + |content|][i] == content[i];
      }
    }
    assert image'[at..at + |content|] == r;
  }

  /** A scan never resumes at a valid record. */
  lemma {:induction false} ResumeEnds(f: Format, image: seq<byte>, base: nat, cursor: nat)
    ensures Ends(f, image, base, Scan(f, image, base, cursor).resumeAt)
    decreases Capacity(f) - cursor
  {
    if Look(f, image, base, cursor).Entry? {
      var r := Look(f, image, base, cursor).record;
      var next := NextFrame(f, image, base, cursor, r);
      ResumeEnds(f, image, base, next);
    } else {
      ScanHere(f, image, base, cursor);
    }
  }

  /** So what lies at the resume point does not begin with the frame of any record that fits. */
  lemma NoFrameAtResume(image: seq<byte>, cursor: nat, r: Record, content: seq<byte>)
    requires Scan(Segment, image, SEG, 0).resumeAt == cursor && Holds(image, SEG + cursor, content)
    requires Sound(Segment, r) && cursor + |Frame(Segment, r)| <= SEGMENT_SIZE
    ensures !(Frame(Segment, r) <= content)
  {
    ResumeEnds(Segment, image, SEG, 0);
    if Frame(Segment, r) <= content {
      PrefixHolds(image, SEG + cursor, Frame(Segment, r), content);
      LookFinds(Segment, image, SEG, cursor, r);
    }
  }

  lemma PrefixHolds(image: seq<byte>, at: nat, a: seq<byte>, b: seq<byte>)
    requires Holds(image, at, b) && a <= b
    ensures Holds(image, at, a)
  {
    assert a + b[|a|..] == b;
    HoldsSplit(image, at, a, b[|a|..]);
  }

  /** A log entry inside the WAL leaves every byte of the data regions. */
  lemma MetaKeepsHeld(s: State, m: Issued, s': State, id: DiskId, at: nat, buf: seq<byte>)
    requires MetaStep(s, m, s') && s.walCursor + |m.entry| <= WAL_CAPACITY
    requires id in s.images && SEG <= at && Holds(s.images[id], at, buf)
    ensures Holds(s'.images[id], at, buf)
  {
    PatchSameOutside(s.images[id], s.walCursor, m.entry);
    if s'.images[id] != s.images[id] {
      HoldsOutside(s.images[id], s'.images[id], s.walCursor, |m.entry|, at, buf);
    }
  }

  /** A file of one extent: its bytes lie where the first replica says. */
  ghost predicate ExtentFile(images: map<DiskId, seq<byte>>, rec: InodeRecord, content: seq<byte>)
  {
    && rec.data.Extents? && |rec.data.extents| == 1
    && var x := rec.data.extents[0];
       && x.fileOffset == 0 && x.len == rec.size == |content| && x.replicas != [] && x.replicas[0].disk in images
       && Holds(images[x.replicas[0].disk], SEG + x.replicas[0].offset, content)
  }

  lemma ExtentFileReads(images: map<DiskId, seq<byte>>, rec: InodeRecord, content: seq<byte>)
    requires ExtentFile(images, rec, content)
    ensures Content(images, rec) == Some(content)
  {
    var x := rec.data.extents[0];
    assert rec.data.extents == [x];
    assert ReadReplicated(images, x.replicas, 0, x.len) == Some(content);
    OneExtentReads(images, rec.size, x, content);
    assert content + Zeros(0) == content;
  }

  lemma LiveExtentFile(s: State, i: InodeId)
    requires Inv(s) && i in s.tables.inodes && s.tables.inodes[i].data.Extents? && s.tables.inodes[i].data.extents != []
    ensures i in FilesOf(s) && ExtentFile(s.images, s.tables.inodes[i], FilesOf(s)[i])
  {
    var rec := s.tables.inodes[i];
    assert RecordOk(s, i, rec);
    var x := rec.data.extents[0];
    var p := StoredParts(s, x.replicas, 0, x.len, x.checksum);
    assert ReplicaHolds(s, x.replicas[0], 0, p);
    ExtentFileReads(s.images, rec, p);
  }

  /** The frame that an append writes. */
  function AppendedFrame(t: Tables, inode: InodeId, payload: seq<byte>): seq<byte>
    requires inode in t.inodes && t.inodes[inode].data.ChunkLog?
  {
    Frame(Segment, ChunkRecord(inode, |t.inodes[inode].data.chunks|, payload))
  }

  lemma WrittenPatch(s: State, ids: seq<DiskId>, bytes: seq<byte>, mid: State, id: DiskId)
    requires WroteReplicas(s, ids, bytes, |ids|, mid) && id in ids && id in s.images && id in s.cursors
    ensures id in mid.images && mid.images[id] == Patch(s.images[id], SEG + s.cursors[id], bytes)
    ensures mid.walCursor == s.walCursor
  {
    assert ids[..|ids|] == ids;
  }

  /** The bytes at a placed disk's cursor after the append. */
  lemma AppendOverBytes(cfg: Config, s: State, inode: InodeId, payload: seq<byte>, ids: seq<DiskId>, mid: State,
                        m: Issued,
                        s': State, id: DiskId, content: seq<byte>)
    requires Appended(cfg, s, inode, payload, ids, mid, m, s') && s.walCursor + |m.entry| <= WAL_CAPACITY
    requires id in ids && id in s.images && Holds(s.images[id], SEG + s.cursors[id], content)
    ensures id in s'.images
    ensures Holds(s'.images[id], SEG + s.cursors[id], Overlaid(content, AppendedFrame(s.tables, inode, payload)))
  {
    var frame := AppendedFrame(s.tables, inode, payload);
    var at := SEG + s.cursors[id];
    WrittenPatch(s, ids, frame, mid, id);
    PatchOverlays(s.images[id], at, content, frame);
    MetaKeepsHeld(mid, m, s', id, at, Overlaid(content, frame));
  }

  /** Files other than the one appended to keep their record. */
  lemma AppendOtherRecord(cfg: Config, s: State, inode: InodeId, payload: seq<byte>, ids: seq<DiskId>, mid: State,
                          m: Issued,
                          s': State, i: InodeId)
    requires WellFiled(s.tables) && Appended(cfg, s, inode, payload, ids, mid, m, s') && i in s.tables.inodes
             && i != inode
    ensures i in s'.tables.inodes && s'.tables.inodes[i] == s.tables.inodes[i]
  {
    Applied(s.tables, m.op, s'.tables);
  }

  lemma OtherBytes(images: map<DiskId, seq<byte>>, images': map<DiskId, seq<byte>>, rec: InodeRecord,
                   content: seq<byte>, content': seq<byte>)
    requires ExtentFile(images, rec, content) && |content'| == |content|
    requires var r := rec.data.extents[0].replicas[0];
             r.disk in images' && Holds(images'[r.disk], SEG + r.offset, content')
    ensures ExtentFile(images', rec, content')
  {
  }

  lemma ExtentHeld(images: map<DiskId, seq<byte>>, rec: InodeRecord, content: seq<byte>)
    requires ExtentFile(images, rec, content)
    ensures var r := rec.data.extents[0].replicas[0];
            r.disk in images && Holds(images[r.disk], SEG + r.offset, content)
  {
  }

  /** Overlaying spoils the content unless it is a prefix of what is laid over it, and always when it is
      at least as long. */
  ghost predicate Spoils(content: seq<byte>, over: seq<byte>)
  {
    && (Overlaid(content, over) == content <==> content <= over)
    && (|over| <= |content| ==> Overlaid(content, over) != content)
  }

  lemma SurvivesIff(image: seq<byte>, cursor: nat, record: Record, content: seq<byte>)
    requires Scan(Segment, image, SEG, 0).resumeAt == cursor && Holds(image, SEG + cursor, content)
    requires Sound(Segment, record) && cursor + |Frame(Segment, record)| <= SEGMENT_SIZE
    ensures Spoils(content, Frame(Segment, record))
  {
    NoFrameAtResume(image, cursor, record, content);
    OverlaidSameIff(content, Frame(Segment, record));
  }

  /** The append fits where it was placed, and its record is sound. */
  lemma AppendFitsAt(cfg: Config, s: State, inode: InodeId, payload: seq<byte>, ids: seq<DiskId>, mid: State, m: Issued,
                     s': State, id: DiskId)
    requires Appended(cfg, s, inode, payload, ids, mid, m, s') && id in ids
    requires inode < U64 && |s.tables.inodes[inode].data.chunks| < U64
    ensures s.cursors[id] + |AppendedFrame(s.tables, inode, payload)| <= SEGMENT_SIZE
    ensures Sound(Segment, ChunkRecord(inode, |s.tables.inodes[inode].data.chunks|, payload))
  {
  }

  lemma AppendSpoils(cfg: Config, s: State, inode: InodeId, payload: seq<byte>, ids: seq<DiskId>, mid: State, m: Issued,
                     s': State, id: DiskId, at: nat, content: seq<byte>)
    requires Appended(cfg, s, inode, payload, ids, mid, m, s') && id in ids && id in s.images && s.cursors[id] == at
    requires inode < U64 && |s.tables.inodes[inode].data.chunks| < U64
    requires s.cursors == ResumedCursors(s.images) && Holds(s.images[id], SEG + at, content)
    ensures Spoils(content, AppendedFrame(s.tables, inode, payload))
  {
    ResumedAt(s.images, id);
    AppendFitsAt(cfg, s, inode, payload, ids, mid, m, s', id);
    SurvivesIff(s.images[id], at, ChunkRecord(inode, |s.tables.inodes[inode].data.chunks|, payload), content);
  }

  /** What the append leaves of a file whose extent starts at the cursor of its first replica's disk. */
  lemma AppendOverFile(cfg: Config, s: State, inode: InodeId, payload: seq<byte>, ids: seq<DiskId>, mid: State,
                       m: Issued,
                       s': State, rec: InodeRecord, content: seq<byte>)
    requires Appended(cfg, s, inode, payload, ids, mid, m, s') && s.walCursor + |m.entry| <= WAL_CAPACITY
    requires ExtentFile(s.images, rec, content)
    requires var r := rec.data.extents[0].replicas[0]; r.disk in ids && s.cursors[r.disk] == r.offset
    ensures ExtentFile(s'.images, rec, Overlaid(content, AppendedFrame(s.tables, inode, payload)))
  {
    var r := rec.data.extents[0].replicas[0];
    ExtentHeld(s.images, rec, content);
    AppendOverBytes(cfg, s, inode, payload, ids, mid, m, s', r.disk, content);
    OtherBytes(s.images, s'.images, rec, content, Overlaid(content, AppendedFrame(s.tables, inode, payload)));
  }

  lemma AppendSpoilsFile(cfg: Config, s: State, inode: InodeId, payload: seq<byte>, ids: seq<DiskId>, mid: State,
                         m: Issued,
                         s': State, rec: InodeRecord, content: seq<byte>)
    requires Appended(cfg, s, inode, payload, ids, mid, m, s') && s.cursors == ResumedCursors(s.images)
    requires inode < U64 && |s.tables.inodes[inode].data.chunks| < U64 && ExtentFile(s.images, rec, content)
    requires var r := rec.data.extents[0].replicas[0]; r.disk in ids && s.cursors[r.disk] == r.offset
    ensures Spoils(content, AppendedFrame(s.tables, inode, payload))
  {
    var r := rec.data.extents[0].replicas[0];
    ExtentHeld(s.images, rec, content);
    AppendSpoils(cfg, s, inode, payload, ids, mid, m, s', r.disk, r.offset, content);
  }

  /** On the disk of its first replica, the extent of file `i` starts at the cursor, and the append goes
      to that disk. */
  ghost predicate AppendsAtExtent(s: State, i: InodeId, ids: seq<DiskId>)
  {
    && i in s.tables.inodes && s.tables.inodes[i].data.Extents? && s.tables.inodes[i].data.extents != []
    && s.tables.inodes[i].data.extents[0].replicas != []
    && var r := s.tables.inodes[i].data.extents[0].replicas[0];
       r.disk in ids && r.disk in s.cursors && s.cursors[r.disk] == r.offset
  }

  lemma AppendedOverExtent(cfg: Config, s: State, s1: State, inode: InodeId, payload: seq<byte>, ids: seq<DiskId>,
                           mid: State,
                           m: Issued, s2: State, i: InodeId)
    requires Inv(s) && ReopenedAs(s, s1) && Appended(cfg, s1, inode, payload, ids, mid, m, s2)
    requires s1.walCursor + |m.entry| <= WAL_CAPACITY && AppendsAtExtent(s1, i, ids)
    requires inode < U64 && |s1.tables.inodes[inode].data.chunks| < U64
    ensures i in FilesOf(s) && i in FilesOf(s2)
    ensures FilesOf(s2)[i] == Overlaid(FilesOf(s)[i], AppendedFrame(s1.tables, inode, payload))
    ensures Spoils(FilesOf(s)[i], AppendedFrame(s1.tables, inode, payload))
  {
    var rec := s1.tables.inodes[i];
    LiveExtentFile(s, i);
    InvFiled(s);
    var content := FilesOf(s)[i];
    AppendOverFile(cfg, s1, inode, payload, ids, mid, m, s2, rec, content);
    AppendSpoilsFile(cfg, s1, inode, payload, ids, mid, m, s2, rec, content);
    AppendOtherRecord(cfg, s1, inode, payload, ids, mid, m, s2, i);
    ExtentFileReads(s2.images, rec, Overlaid(content, AppendedFrame(s1.tables, inode, payload)));
  }

  /** The loss. A file's extent starts, on its first replica's disk, where reopening put the cursor, and
      an append succeeds on that disk: the file now reads as the appended frame laid over its old
      bytes. It is unchanged if and only if it was a prefix of that frame, and every file at least as
      long as the frame is damaged. */
  lemma ExtentOverwritten(cfg: Config, s: State, s1: State, inode: InodeId, payload: seq<byte>, t: Trace, s2: State,
                          i: InodeId)
    requires Inv(s) && ReopenedAs(s, s1) && AppendStep(cfg, s1, inode, payload, t, Ok, s2) && WalFits(s1, t)
    requires t.ids.Some? && AppendsAtExtent(s1, i, t.ids.value)
    requires inode < U64 && inode in s1.tables.inodes && s1.tables.inodes[inode].data.ChunkLog?
    requires |s1.tables.inodes[inode].data.chunks| < U64
    ensures i in FilesOf(s) && i in FilesOf(s2)
    ensures FilesOf(s2)[i] == Overlaid(FilesOf(s)[i], AppendedFrame(s1.tables, inode, payload))
    ensures Spoils(FilesOf(s)[i], AppendedFrame(s1.tables, inode, payload))
  {
    AppendFacts(cfg, s1, inode, payload, t, s2);
    AppendedOverExtent(cfg, s, s1, inode, payload, t.ids.value, t.mid, t.metas[0], s2, i);
  }

  // ---- the whole run: convert, reopen, append ----

  lemma ConvertedReopens(cfg: Config, s: State, i: InodeId, t: Trace, s1: State, ls: Log, group: MetaGroup, s2: State)
    requires Inv(s) && GoodLog(s, ls) && PlacesApart(cfg) && ConvertStep(cfg, s, i, t, Ok, s1) && WalFits(s, t)
    requires CallFits(s, FinishConversion(i)) && Accepted(t)
    requires GroupIn(group, s1) && LogEndsAt(s1, s1.walCursor) && Reopened(s1.images, group) == Some(s2)
    ensures Inv(s1) && FilesOf(s1) == FilesOf(s) && ReopenedAs(s1, s2)
  {
    StepRefines(cfg, s, FinishConversion(i), t, Ok, s1);
    var ls' := StepLog(cfg, s, FinishConversion(i), t, Ok, s1, ls);
    ReopenYields(s1, ls', group);
  }

  /** The new extent begins at the resumed cursor of its first disk. */
  lemma ResumesAtExtent(cfg: Config, s: State, i: InodeId, t: Trace, s1: State, s2: State, ids: seq<DiskId>)
    requires Inv(s) && Framed(s) && PlacesApart(cfg) && ConvertStep(cfg, s, i, t, Ok, s1) && WalFits(s, t)
    requires i in s.tables.inodes && s.tables.inodes[i].size > 0 && ReopenedAs(s1, s2)
    requires BeginsNoRecord(s, t, s1) && t.ids.value[0] in ids
    ensures AppendsAtExtent(s2, i, ids)
  {
    ConvertedStored(cfg, s, i, t, s1);
    ConversionResumesIff(cfg, s, i, t, s1, 0);
    ResumedAt(s1.images, t.ids.value[0]);
  }

  /** The bytes that a conversion put on its first disk do not begin with a valid record. */
  ghost predicate BeginsNoRecord(s: State, t: Trace, s1: State)
  {
    && t.ids.Some? && t.ids.value != [] && t.ids.value[0] in s.cursors && t.ids.value[0] in s1.images
    && Ends(Segment, s1.images[t.ids.value[0]], SEG, s.cursors[t.ids.value[0]])
  }

  /** A run of three steps that loses data without any failure: a file is converted, the pool is reopened,
      and an append to another file is placed on the converted file's first disk. Unless the content
      began with a valid record, the file afterwards reads as the appended frame laid over it. */
  lemma ConvertReopenAppend(cfg: Config, s: State, i: InodeId, t: Trace, s1: State, ls: Log, group: MetaGroup,
                            s2: State, inode: InodeId, payload: seq<byte>, t': Trace, s3: State)
    requires Inv(s) && Framed(s) && GoodLog(s, ls) && PlacesApart(cfg)
    requires ConvertStep(cfg, s, i, t, Ok, s1) && WalFits(s, t) && CallFits(s, FinishConversion(i)) && Accepted(t)
    requires i in s.tables.inodes && s.tables.inodes[i].size > 0 && BeginsNoRecord(s, t, s1)
    requires GroupIn(group, s1) && LogEndsAt(s1, s1.walCursor) && Reopened(s1.images, group) == Some(s2)
    requires AppendStep(cfg, s2, inode, payload, t', Ok, s3) && WalFits(s2, t')
    requires t'.ids.Some? && t.ids.value[0] in t'.ids.value
    requires inode < U64 && inode in s2.tables.inodes && s2.tables.inodes[inode].data.ChunkLog?
    requires |s2.tables.inodes[inode].data.chunks| < U64
    ensures i in FilesOf(s) && i in FilesOf(s3)
    ensures FilesOf(s3)[i] == Overlaid(FilesOf(s)[i], AppendedFrame(s2.tables, inode, payload))
    ensures Spoils(FilesOf(s)[i], AppendedFrame(s2.tables, inode, payload))
  {
    ConvertedReopens(cfg, s, i, t, s1, ls, group, s2);
    ResumesAtExtent(cfg, s, i, t, s1, s2, t'.ids.value);
    ExtentOverwritten(cfg, s1, s2, inode, payload, t', s3, i);
  }
}

/** The invariant of a pool: where live data lies on the disks and what the records say about it,
    and that every write leaves all live data in place. */
module PoolInvariant {
  import opened Proto
  import opened Bytes
  import opened Crc32c
  import opened Framing
  import opened Store
  import opened PoolModel

  // ---- shape ----

  /** Every disk has an image reaching past its data cursor; the metadata group names two different disks. */
  ghost predicate Shape(s: State)
  {
    && s.images.Keys == s.cursors.Keys
    && (forall id :: id in s.cursors ==> SEG + s.cursors[id] <= |s.images[id]|)
    && s.group.primary in s.images
    && (s.group.backup.Some? ==> s.group.backup.value in s.images && s.group.backup.value != s.group.primary)
  }

  predicate KeptOn(image: seq<byte>, cursor: nat, image': seq<byte>, cursor': nat)
  {
    && cursor <= cursor' && SEG + cursor <= |image| && SEG + cursor' <= |image'|
    && image'[SEG..SEG + cursor] == image[SEG..SEG + cursor]
  }

  /** On every disk the data below the cursor is still there and the cursor has not moved back. */
  ghost predicate Kept(s: State, s': State)
  {
    && s'.images.Keys == s.images.Keys && s'.cursors.Keys == s.cursors.Keys
    && forall id :: id in s.cursors && id in s.images ==>
        KeptOn(s.images[id], s.cursors[id], s'.images[id], s'.cursors[id])
  }

  lemma KeptOnHolds(image: seq<byte>, cursor: nat, image': seq<byte>, cursor': nat, at: nat, buf: seq<byte>)
    requires KeptOn(image, cursor, image', cursor')
    requires SEG <= at && at + |buf| <= SEG + cursor
    ensures Holds(image', at, buf) <==> Holds(image, at, buf)
    ensures image'[at..at + |buf|] == image[at..at + |buf|]
  {
    SubRange(image, SEG, SEG + cursor, at, at + |buf|);
    SubRange(image', SEG, SEG + cursor, at, at + |buf|);
  }

  lemma SubRange(s: seq<byte>, lo: nat, hi: nat, a: nat, b: nat)
    requires lo <= a <= b <= hi <= |s|
    ensures s[lo..hi][a - lo..b - lo] == s[a..b]
  {
    var x, y := s[lo..hi][a - lo..b - lo], s[a..b];
    assert |x| == |y| && forall i :: 0 <= i < |x| ==> x[i] == y[i];
  }

  lemma KeptTrans(a: State, b: State, c: State)
    requires Kept(a, b) && Kept(b, c) && a.images.Keys == a.cursors.Keys
    ensures Kept(a, c)
  {
    forall id | id in a.cursors && id in a.images
      ensures KeptOn(a.images[id], a.cursors[id], c.images[id], c.cursors[id])
    {
      assert KeptOn(a.images[id], a.cursors[id], b.images[id], b.cursors[id]);
      assert KeptOn(b.images[id], b.cursors[id], c.images[id], c.cursors[id]);
      var k := a.cursors[id];
      assert c.images[id][SEG..SEG + k] == c.images[id][SEG..SEG + b.cursors[id]][..k];
      assert b.images[id][SEG..SEG + k] == b.images[id][SEG..SEG + b.cursors[id]][..k];
    }
  }

  lemma KeptRefl(s: State)
    requires Shape(s)
    ensures Kept(s, s)
  {
  }

  lemma KeptOnWrite(image: seq<byte>, cursor: nat, image': seq<byte>, off: nat, len: nat)
    requires SameOutside(image, image', off, len)
    requires SEG + cursor <= |image| && (off + len <= SEG || SEG + cursor <= off)
    ensures KeptOn(image, cursor, image', cursor)
  {
    assert forall i :: SEG <= i < SEG + cursor ==> image'[i] == image[i];
  }

  /** Appending replicas, successful or not, keeps all data below the cursors. */
  lemma WriteKeeps(s: State, ids: seq<DiskId>, bytes: seq<byte>, k: nat, s': State)
    requires Shape(s) && WroteReplicas(s, ids, bytes, k, s')
    ensures Shape(s') && Kept(s, s')
  {
    forall id | id in s.cursors
      ensures KeptOn(s.images[id], s.cursors[id], s'.images[id], s'.cursors[id])
    {
      var c := s.cursors[id];
      PatchSameOutside(s.images[id], SEG + c, bytes);
      if id in ids[..k] {
        KeptOnWrite(s.images[id], c, s'.images[id], SEG + c, |bytes|);
      } else if k < |ids| && id == ids[k] {
        KeptOnWrite(s.images[id], c, s'.images[id], SEG + c, |bytes|);
      }
    }
  }

  /** A written replica holds its bytes at its recorded place. */
  lemma WrittenHolds(s: State, ids: seq<DiskId>, bytes: seq<byte>, k: nat, s': State, i: nat)
    requires Shape(s) && WroteReplicas(s, ids, bytes, k, s') && i < k && ids[i] in s.cursors
    ensures s'.cursors[ids[i]] == s.cursors[ids[i]] + |bytes|
    ensures Holds(s'.images[ids[i]], SEG + s.cursors[ids[i]], bytes)
  {
    assert ids[i] in ids[..k] by { assert ids[..k][i] == ids[i]; }
  }

  /** A metadata operation whose entry ends before the data region keeps all data, even where it leaves
      the WAL region. */
  lemma MetaKeeps(s: State, m: Issued, s': State)
    requires Shape(s) && MetaStep(s, m, s') && s.walCursor + |m.entry| <= SEG
    ensures Shape(s') && Kept(s, s') && s'.cursors == s.cursors
    ensures s.walCursor + |m.entry| <= WAL_CAPACITY ==> s'.walCursor <= WAL_CAPACITY
  {
    var e := m.entry;
    forall id | id in s.cursors
      ensures KeptOn(s.images[id], s.cursors[id], s'.images[id], s'.cursors[id])
    {
      PatchSameOutside(s.images[id], s.walCursor, e);
      if s'.images[id] != s.images[id] {
        KeptOnWrite(s.images[id], s.cursors[id], s'.images[id], s.walCursor, |e|);
      }
    }
  }

  // ---- records ----

  /** All replicas are on different disks and hold the payload below the disk's cursor. */
  ghost predicate StoredAs(s: State, rs: seq<Replica>, header: nat, payload: seq<byte>)
  {
    && rs != []
    && (forall i, j :: 0 <= i < j < |rs| ==> rs[i].disk != rs[j].disk)
    && (forall i :: 0 <= i < |rs| ==> ReplicaHolds(s, rs[i], header, payload))
  }

  ghost predicate ReplicaHolds(s: State, r: Replica, header: nat, payload: seq<byte>)
  {
    && r.disk in s.cursors && r.disk in s.images
    && r.offset + header + |payload| <= s.cursors[r.disk]
    && Holds(s.images[r.disk], SEG + r.offset + header, payload)
  }

  /** The replicas all hold `len` identical bytes whose checksum is the recorded one. */
  ghost predicate Stored(s: State, rs: seq<Replica>, header: nat, len: nat, checksum: nat)
  {
    var p := ReadReplicated(s.images, rs, header, len);
    p.Some? && StoredAs(s, rs, header, p.value) && Checksum(p.value) == checksum
  }

  function SumLen(cs: seq<ChunkPointer>): nat
  {
    if cs == [] then 0 else SumLen(cs[..|cs| - 1]) + cs[|cs| - 1].len
  }

  ghost predicate ChunksOk(s: State, cs: seq<ChunkPointer>)
  {
    forall k :: 0 <= k < |cs| ==> Stored(s, cs[k].replicas, RECORD_HEADER, cs[k].len, cs[k].checksum)
  }

  ghost predicate ExtentsOk(s: State, size: nat, xs: seq<Extent>)
  {
    if xs == [] then size == 0
    else |xs| == 1 && xs[0].fileOffset == 0 && 0 < xs[0].len == size
         && Stored(s, xs[0].replicas, 0, xs[0].len, xs[0].checksum)
  }

  /** What the tables alone say about one inode: lifecycle, sequence numbers, size accounting. */
  ghost predicate RecordShape(i: InodeId, rec: InodeRecord)
  {
    && rec.inode == i
    && (rec.mode.Writable? <==> rec.data.Extents?)
    && (rec.data.ChunkLog? ==> rec.size == SumLen(rec.data.chunks))
    && (rec.data.ChunkLog? ==> forall k :: 0 <= k < |rec.data.chunks| ==> rec.data.chunks[k].chunkSeq == k)
    && (rec.data.Extents? ==> rec.size == ExtentsEnd(rec.data.extents))
  }

  ghost predicate RecordOk(s: State, i: InodeId, rec: InodeRecord)
  {
    && RecordShape(i, rec) && SchemeOk(rec.redundancy)
    && match rec.data
       case ChunkLog(cs) => ChunksOk(s, cs)
       case Extents(xs) => ExtentsOk(s, rec.size, xs)
  }

  /** The invariant: shape, every record in order, every directory entry names an existing inode,
      and the inode counter is above every inode. */
  ghost predicate Inv(s: State)
  {
    && Shape(s) && s.walCursor <= WAL_CAPACITY
    && (forall i :: i in s.tables.inodes ==> RecordOk(s, i, s.tables.inodes[i]))
    && DirsOk(s.tables) && CounterAbove(s.tables)
  }

  ghost predicate DirsOk(t: Tables)
  {
    forall k :: k in t.dirs ==> t.dirs[k] in t.inodes
  }

  // ---- live data survives ----

  lemma ReplicaKept(s: State, s': State, r: Replica, header: nat, payload: seq<byte>)
    requires Kept(s, s') && ReplicaHolds(s, r, header, payload)
    ensures ReplicaHolds(s', r, header, payload)
  {
    assert KeptOn(s.images[r.disk], s.cursors[r.disk], s'.images[r.disk], s'.cursors[r.disk]);
    KeptOnHolds(s.images[r.disk], s.cursors[r.disk], s'.images[r.disk], s'.cursors[r.disk], SEG + r.offset + header,
                payload);
  }

  lemma StoredAsKept(s: State, s': State, rs: seq<Replica>, header: nat, payload: seq<byte>)
    requires Kept(s, s') && StoredAs(s, rs, header, payload)
    ensures StoredAs(s', rs, header, payload)
  {
    forall i | 0 <= i < |rs|
      ensures ReplicaHolds(s', rs[i], header, payload)
    {
      ReplicaKept(s, s', rs[i], header, payload);
    }
  }

  /** Reading the first replica of stored bytes returns them. */
  lemma StoredReads(s: State, rs: seq<Replica>, header: nat, payload: seq<byte>)
    requires StoredAs(s, rs, header, payload)
    ensures ReadReplicated(s.images, rs, header, |payload|) == Some(payload)
  {
    assert ReplicaHolds(s, rs[0], header, payload);
  }

  lemma StoredKept(s: State, s': State, rs: seq<Replica>, header: nat, len: nat, checksum: nat)
    requires Kept(s, s') && Stored(s, rs, header, len, checksum)
    ensures Stored(s', rs, header, len, checksum)
    ensures ReadReplicated(s'.images, rs, header, len) == ReadReplicated(s.images, rs, header, len)
  {
    var p := ReadReplicated(s.images, rs, header, len).value;
    StoredAsKept(s, s', rs, header, p);
    StoredReads(s', rs, header, p);
  }

  lemma ChunksFront(s: State, cs: seq<ChunkPointer>, n: nat)
    requires ChunksOk(s, cs) && n <= |cs|
    ensures ChunksOk(s, cs[..n])
  {
    forall k | 0 <= k < n
      ensures Stored(s, cs[..n][k].replicas, RECORD_HEADER, cs[..n][k].len, cs[..n][k].checksum)
    {
      assert cs[..n][k] == cs[k];
    }
  }

  lemma {:induction false} ChunksReadable(s: State, s': State, cs: seq<ChunkPointer>)
    requires Kept(s, s') && ChunksOk(s, cs)
    ensures ReadChunks(s'.images, cs) == ReadChunks(s.images, cs)
    ensures ReadChunks(s.images, cs).Some? && |ReadChunks(s.images, cs).value| == SumLen(cs)
  {
    if cs != [] {
      var n := |cs| - 1;
      ChunksFront(s, cs, n);
      ChunksReadable(s, s', cs[..n]);
      StoredKept(s, s', cs[n].replicas, RECORD_HEADER, cs[n].len, cs[n].checksum);
    }
  }

  lemma ChunksKept(s: State, s': State, cs: seq<ChunkPointer>)
    requires Kept(s, s') && ChunksOk(s, cs)
    ensures ChunksOk(s', cs)
  {
    forall k | 0 <= k < |cs|
      ensures Stored(s', cs[k].replicas, RECORD_HEADER, cs[k].len, cs[k].checksum)
    {
      StoredKept(s, s', cs[k].replicas, RECORD_HEADER, cs[k].len, cs[k].checksum);
    }
  }

  /** One extent covering the file reads as its bytes. */
  lemma OneExtentReads(images: map<DiskId, seq<byte>>, size: nat, x: Extent, bytes: seq<byte>)
    requires x.fileOffset == 0 && ReadReplicated(images, x.replicas, 0, x.len) == Some(bytes) && |bytes| <= size
    ensures ReadExtents(images, size, [x]) == Some(bytes + Zeros(size - |bytes|))
  {
    assert [x][..0] == [];
    assert ReadExtents(images, size, []) == Some(Zeros(size));
    var z := Zeros(size);
    assert z[..0] + bytes + z[|bytes|..] == bytes + Zeros(size - |bytes|);
  }

  lemma ExtentsKept(s: State, s': State, size: nat, xs: seq<Extent>)
    requires Kept(s, s') && ExtentsOk(s, size, xs)
    ensures ExtentsOk(s', size, xs) && ReadExtents(s'.images, size, xs) == ReadExtents(s.images, size, xs)
    ensures ReadExtents(s.images, size, xs).Some? && |ReadExtents(s.images, size, xs).value| == size
  {
    if xs != [] {
      var x := xs[0];
      assert xs == [x];
      StoredKept(s, s', x.replicas, 0, x.len, x.checksum);
      var p := ReadReplicated(s.images, x.replicas, 0, x.len).value;
      OneExtentReads(s.images, size, x, p);
      OneExtentReads(s'.images, size, x, p);
    }
  }

  /** A record in order stays in order and keeps its content, which is as long as its size says. */
  lemma RecordKept(s: State, s': State, i: InodeId, rec: InodeRecord)
    requires Kept(s, s') && RecordOk(s, i, rec)
    ensures RecordOk(s', i, rec) && Content(s'.images, rec) == Content(s.images, rec)
    ensures Content(s.images, rec).Some? && |Content(s.images, rec).value| == rec.size
  {
    match rec.data
    case ChunkLog(cs) =>
      ChunksKept(s, s', cs);
      ChunksReadable(s, s', cs);
    case Extents(xs) => ExtentsKept(s, s', rec.size, xs);
  }

  lemma RecordReadable(s: State, i: InodeId, rec: InodeRecord)
    requires Shape(s) && RecordOk(s, i, rec)
    ensures Content(s.images, rec).Some? && |Content(s.images, rec).value| == rec.size
  {
    KeptRefl(s);
    RecordKept(s, s, i, rec);
  }

  /** Under the invariant every inode is readable. */
  lemma AllReadable(s: State)
    requires Inv(s)
    ensures FilesOf(s).Keys == s.tables.inodes.Keys
  {
    forall i | i in s.tables.inodes
      ensures Content(s.images, s.tables.inodes[i]).Some?
    {
      RecordReadable(s, i, s.tables.inodes[i]);
    }
  }
}

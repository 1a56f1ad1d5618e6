/** The pool as a value: disk images, data cursors, metadata group and tables; what each operation
    may do to it, step by step and failure by failure; and the abstract file map it stands for. */
module PoolModel {
  import opened Proto
  import opened Arith
  import opened Bytes
  import opened Crc32c
  import opened Framing
  import opened Store
  import MetaStore

  /** Start of every disk's data region, past the superblock reserve and the WAL. */
  const SEG: nat := 4096 + WAL_CAPACITY
  const RECORD_HEADER: nat := 28

  datatype State = State(
    images: map<DiskId, seq<byte>>, cursors: map<DiskId, nat>,
    group: MetaGroup, walCursor: nat, tables: Tables)

  /** What does not change while a pool is open: its disks, the placement key of (inode, sequence
      number), and the disks that a scheme and key are placed on (None when they cannot be placed). */
  datatype Config = Config(disks: set<DiskId>, key: (nat, nat) -> nat,
                           place: (RedundancyScheme, nat) -> Option<seq<DiskId>>)

  predicate SchemeOk(x: RedundancyScheme)
  {
    x.Replicated? ==> x.slots != []
  }

  /** Placing a scheme with at least one slot yields a non-empty list of distinct pool disks. */
  ghost predicate PlacesApart(cfg: Config)
  {
    forall x, key :: SchemeOk(x) && cfg.place(x, key).Some? ==> ApartIn(cfg.disks, cfg.place(x, key).value)
  }

  ghost predicate ApartIn(disks: set<DiskId>, ids: seq<DiskId>)
  {
    && ids != []
    && (forall i, j :: 0 <= i < j < |ids| ==> ids[i] != ids[j])
    && (forall id :: id in ids ==> id in disks)
  }

  datatype Error = Io | Meta | Unplaceable | NotFound | WrongMode
  datatype Result = Ok | OkInode(inode: InodeId) | Err(error: Error)

  // ---- reading ----

  function ReadReplicated(images: map<DiskId, seq<byte>>, rs: seq<Replica>, header: nat, len: nat): Option<seq<byte>>
  {
    if rs == [] || rs[0].disk !in images then None
    else
      var at := SEG + rs[0].offset + header;
      var image := images[rs[0].disk];
      if at + len <= |image| then Some(image[at..at + len]) else None
  }

  /** Chunks in order, concatenated. */
  function ReadChunks(images: map<DiskId, seq<byte>>, cs: seq<ChunkPointer>): Option<seq<byte>>
  {
    if cs == [] then Some([])
    else
      var n := |cs| - 1;
      var front := ReadChunks(images, cs[..n]);
      var last := ReadReplicated(images, cs[n].replicas, RECORD_HEADER, cs[n].len);
      if front.None? || last.None? then None else Some(front.value + last.value)
  }

  /** Extents laid over a zero-filled buffer; None where the copy would run past the buffer. */
  function ReadExtents(images: map<DiskId, seq<byte>>, size: nat, xs: seq<Extent>): Option<seq<byte>>
  {
    if xs == [] then Some(Zeros(size))
    else
      var n := |xs| - 1;
      var under := ReadExtents(images, size, xs[..n]);
      var bytes := ReadReplicated(images, xs[n].replicas, 0, xs[n].len);
      if under.None? || bytes.None? || xs[n].fileOffset + |bytes.value| > |under.value| then None
      else Some(under.value[..xs[n].fileOffset] + bytes.value + under.value[xs[n].fileOffset + |bytes.value|..])
  }

  /** The extent lies over byte `i` of the file. */
  predicate LiesOver(x: Extent, i: nat)
  {
    x.fileOffset <= i < x.fileOffset + x.len
  }

  /** All extents are readable and lie inside the file. */
  predicate ExtentsReadable(images: map<DiskId, seq<byte>>, size: nat, xs: seq<Extent>)
  {
    forall k :: 0 <= k < |xs| ==>
      ReadReplicated(images, xs[k].replicas, 0, xs[k].len).Some? && xs[k].fileOffset + xs[k].len <= size
  }

  /** A file is readable exactly when all its extents are. */
  lemma {:induction false} ExtentsReadIff(images: map<DiskId, seq<byte>>, size: nat, xs: seq<Extent>)
    ensures ReadExtents(images, size, xs).Some? <==> ExtentsReadable(images, size, xs)
    ensures ReadExtents(images, size, xs).Some? ==> |ReadExtents(images, size, xs).value| == size
  {
    if xs != [] {
      var n := |xs| - 1;
      ExtentsReadIff(images, size, xs[..n]);
      assert forall k :: 0 <= k < n ==> xs[..n][k] == xs[k];
    }
  }

  /** Then byte `i` is that of extent `k` if that is the last one over it. */
  lemma {:induction false} LastExtentShows(images: map<DiskId, seq<byte>>, size: nat, xs: seq<Extent>, i: nat, k: nat)
    requires ReadExtents(images, size, xs).Some? && k < |xs| && LiesOver(xs[k], i)
    requires forall l :: k < l < |xs| ==> !LiesOver(xs[l], i)
    ensures i < size == |ReadExtents(images, size, xs).value|
    ensures ReadReplicated(images, xs[k].replicas, 0, xs[k].len).Some?
    ensures ReadExtents(images, size, xs).value[i]
            == ReadReplicated(images, xs[k].replicas, 0, xs[k].len).value[i - xs[k].fileOffset]
  {
    var n := |xs| - 1;
    ExtentsReadIff(images, size, xs);
    if k < n {
      LastExtentShows(images, size, xs[..n], i, k);
    }
  }

  /** And zero if none is. */
  lemma {:induction false} HolesAreZero(images: map<DiskId, seq<byte>>, size: nat, xs: seq<Extent>, i: nat)
    requires ReadExtents(images, size, xs).Some? && i < size && forall k :: 0 <= k < |xs| ==> !LiesOver(xs[k], i)
    ensures |ReadExtents(images, size, xs).value| == size && ReadExtents(images, size, xs).value[i] == 0
  {
    ExtentsReadIff(images, size, xs);
    if xs != [] {
      var n := |xs| - 1;
      assert !LiesOver(xs[n], i);
      HolesAreZero(images, size, xs[..n], i);
    }
  }

  function Content(images: map<DiskId, seq<byte>>, rec: InodeRecord): Option<seq<byte>>
  {
    match rec.data
    case ChunkLog(cs) => ReadChunks(images, cs)
    case Extents(xs) => ReadExtents(images, rec.size, xs)
  }

  /** Bytes [off, off + len) of a file, clipped to its end. */
  function Slice(content: seq<byte>, off: nat, len: nat): seq<byte>
  {
    var start := Min(off, |content|);
    content[start..Min(start + len, |content|)]
  }

  /** `b` is the range of `f` that starts at `off`, `len` bytes of it or what there is, byte by byte. */
  predicate IsRange(f: seq<byte>, off: nat, len: nat, b: seq<byte>)
  {
    && |b| == (if off >= |f| then 0 else Min(len, |f| - off))
    && forall i :: 0 <= i < |b| ==> b[i] == f[off + i]
  }

  lemma SliceIsRange(f: seq<byte>, off: nat, len: nat)
    ensures IsRange(f, off, len, Slice(f, off, len))
  {
  }

  /** Overwriting at `off`, with zeros between the old end and `off`. */
  function Splice(content: seq<byte>, off: nat, data: seq<byte>): seq<byte>
  {
    var end := off + |data|;
    var grown := if |content| < end then content + Zeros(end - |content|) else content;
    grown[..off] + data + grown[end..]
  }

  /** What byte `i` of a file is after a write: the data in its range, the old byte elsewhere, zero where
      there was none. */
  function WrittenByte(f: seq<byte>, off: nat, data: seq<byte>, i: nat): byte
  {
    if off <= i < off + |data| then data[i - off] else if i < |f| then f[i] else 0
  }

  predicate IsWritten(f: seq<byte>, off: nat, data: seq<byte>, f': seq<byte>)
  {
    && |f'| == Max(|f|, off + |data|)
    && forall i :: 0 <= i < |f'| ==> f'[i] == WrittenByte(f, off, data, i)
  }

  lemma SpliceWrites(f: seq<byte>, off: nat, data: seq<byte>)
    ensures IsWritten(f, off, data, Splice(f, off, data))
  {
  }

  /** A write leaves one content only. */
  lemma WrittenOnce(f: seq<byte>, off: nat, data: seq<byte>, a: seq<byte>, b: seq<byte>)
    requires IsWritten(f, off, data, a) && IsWritten(f, off, data, b)
    ensures a == b
  {
    assert forall i :: 0 <= i < |a| ==> a[i] == b[i];
  }

  /** `Pool::read`. */
  function ReadFile(s: State, inode: InodeId, off: nat, len: nat): Option<seq<byte>>
  {
    if inode !in s.tables.inodes then None
    else
      var c := Content(s.images, s.tables.inodes[inode]);
      if c.None? then None else Some(Slice(c.value, off, len))
  }

  // ---- writing ----

  /** Appending `bytes` at the cursors of `ids`, disk by disk, stopping at the first failure: the first
      `k` disks hold the bytes and have advanced, disk `k` may be torn past its cursor, the rest are untouched. */
  ghost predicate WroteReplicas(s: State, ids: seq<DiskId>, bytes: seq<byte>, k: nat, s': State)
  {
    && k <= |ids|
    && s' == s.(images := s'.images, cursors := s'.cursors)
    && s'.images.Keys == s.images.Keys && s'.cursors.Keys == s.cursors.Keys
    && forall id :: id in s.images && id in s.cursors ==>
         (if id in ids[..k] then
            s'.images[id] == Patch(s.images[id], SEG + s.cursors[id], bytes)
                && s'.cursors[id] == s.cursors[id] + |bytes|
          else if k < |ids| && id == ids[k] then
            SameOutside(s.images[id], s'.images[id], SEG + s.cursors[id], |bytes|) && s'.cursors[id] == s.cursors[id]
          else s'.images[id] == s.images[id] && s'.cursors[id] == s.cursors[id])
  }

  /** The replica list recorded for such a write: every disk with its cursor before the write. */
  ghost function ReplicasAt(s: State, ids: seq<DiskId>): (rs: seq<Replica>)
    requires forall id :: id in ids ==> id in s.cursors
    ensures |rs| == |ids| && forall i :: 0 <= i < |ids| ==> rs[i] == Replica(ids[i], s.cursors[ids[i]])
  {
    seq(|ids|, i requires 0 <= i < |ids| => Replica(ids[i], s.cursors[ids[i]]))
  }

  /** One metadata operation as it was issued and answered, with the WAL entry written for it. */
  datatype Issued = Issued(op: MetaOp, entry: seq<byte>, result: MetaStore.ApplyResult)

  /** The WAL entries written are the encodings of the operations issued. */
  ghost predicate AllGenuine(ms: seq<Issued>)
  {
    forall m :: m in ms ==> MetaStore.EntryFor(m.op, m.entry)
  }

  /** Only the images of the metadata group change, inside the WAL entry's own range. */
  ghost predicate MetaStep(s: State, m: Issued, s': State)
  {
    && s'.cursors == s.cursors && s'.images.Keys == s.images.Keys
    && s.group.primary in s.images
    && (forall id :: id in s.images && id != s.group.primary && Some(id) != s.group.backup ==>
        s'.images[id] == s.images[id])
    && var e, p := m.entry, s.group.primary;
       if m.result.CommitFailed? then
         && SameOutside(s.images[p], s'.images[p], s.walCursor, |e|)
         && s' == s.(images := s'.images)
         && forall id :: id in s.images && id != p ==> s'.images[id] == s.images[id]
       else
         && s'.images[p] == Patch(s.images[p], s.walCursor, e)
         && s'.walCursor == s.walCursor + |e|
         && (s'.group == s.group || (s.group.backup.Some? && s'.group == MetaStore.FencedGroup(s.group)))
         && (s.group.backup.Some? && s.group.backup.value in s.images ==>
               SameOutside(s.images[s.group.backup.value], s'.images[s.group.backup.value], s.walCursor, |e|)
               && (s'.group == s.group ==>
                     s'.images[s.group.backup.value] == Patch(s.images[s.group.backup.value], s.walCursor, e)))
         && (if m.result.Done? then ApplyOp(s.tables, m.op) == Some(s'.tables)
             else ApplyOp(s.tables, m.op).None? && s'.tables == s.tables)
  }

  function MetaResult(r: MetaStore.ApplyResult): Result
  {
    if r.Done? then Ok else Err(Meta)
  }

  // ---- the operations ----

  /** What an operation went through: the placement, how many replicas were written, the state after
      the data phase and the metadata operations issued after it. */
  datatype Trace = Trace(ids: Option<seq<DiskId>>, written: nat, mid: State, metas: seq<Issued>)

  function ChunkRecord(inode: InodeId, chunkSeq: nat, payload: seq<byte>): Record
  {
    Record(inode, chunkSeq, Checksum(payload), payload)
  }

  ghost predicate AppendStep(cfg: Config, s: State, inode: InodeId, payload: seq<byte>, t: Trace, r: Result, s': State)
  {
    if inode !in s.tables.inodes then r == Err(NotFound) && s' == s
    else
      var rec := s.tables.inodes[inode];
      if rec.mode.Writable? || rec.data.Extents? then r == Err(WrongMode) && s' == s
      else
        var chunkSeq := |rec.data.chunks|;
        && t.ids == cfg.place(rec.redundancy, cfg.key(inode, chunkSeq))
        && if t.ids.None? then r == Err(Unplaceable) && s' == s
           else
             var ids := t.ids.value;
             var frame := Frame(Segment, ChunkRecord(inode, chunkSeq, payload));
             && (forall id :: id in ids ==> id in s.cursors)
             && WroteReplicas(s, ids, frame, t.written, t.mid)
             && (forall id :: id in ids[..t.written] ==> s.cursors[id] + |frame| <= SEGMENT_SIZE)
             && if t.written < |ids| then r == Err(Io) && s' == t.mid
                else
                  && |t.metas| == 1
                  && t.metas[0].op == AppendChunk(inode, ChunkPointer(chunkSeq, ReplicasAt(s, ids), |payload| % U32,
                                                                      Checksum(payload)))
                  && MetaStep(t.mid, t.metas[0], s') && r == MetaResult(t.metas[0].result)
  }

  /** The operation that records a rewritten file: the end of a conversion or a random write. */
  function ExtentsOp(convert: bool, inode: InodeId, xs: seq<Extent>): MetaOp
  {
    if convert then CompleteConvert(inode, xs) else UpdateExtents(inode, xs)
  }

  /** Rewriting a file as one extent holding `content`, then recording it. */
  ghost predicate RewriteStep(cfg: Config, s: State, inode: InodeId, convert: bool, content: seq<byte>,
                              t: Trace, r: Result, s': State)
    requires inode in s.tables.inodes
  {
    if content == [] then
      && |t.metas| == 1 && t.metas[0].op == ExtentsOp(convert, inode, [])
      && MetaStep(s, t.metas[0], s') && r == MetaResult(t.metas[0].result)
    else
      && t.ids == cfg.place(s.tables.inodes[inode].redundancy, cfg.key(inode, 0xffff_ffff_ffff_ffff))
      && if t.ids.None? then r == Err(Unplaceable) && s' == s
         else
           var ids := t.ids.value;
           && (forall id :: id in ids ==> id in s.cursors)
           && WroteReplicas(s, ids, content, t.written, t.mid)
           && if t.written < |ids| then r == Err(Io) && s' == t.mid
              else
                && |t.metas| == 1
                && t.metas[0].op == ExtentsOp(convert, inode,
                                              [Extent(0, |content| % U32, ReplicasAt(s, ids), Checksum(content))])
                && MetaStep(t.mid, t.metas[0], s') && r == MetaResult(t.metas[0].result)
  }

  ghost predicate ConvertStep(cfg: Config, s: State, inode: InodeId, t: Trace, r: Result, s': State)
  {
    if inode !in s.tables.inodes then r == Err(NotFound) && s' == s
    else
      var rec := s.tables.inodes[inode];
      if !rec.mode.Converting? then r == Err(WrongMode) && s' == s
      else
        var c := Content(s.images, rec);
        if c.None? then r.Err? && s' == s
        else RewriteStep(cfg, s, inode, true, c.value, t, r, s')
  }

  ghost predicate WriteStep(cfg: Config, s: State, inode: InodeId, off: nat, data: seq<byte>, t: Trace, r: Result,
                            s': State)
  {
    if inode !in s.tables.inodes then r == Err(NotFound) && s' == s
    else
      var rec := s.tables.inodes[inode];
      if !rec.mode.Writable? then r == Err(WrongMode) && s' == s
      else
        var c := Content(s.images, rec);
        if c.None? then r.Err? && s' == s
        else RewriteStep(cfg, s, inode, false, Splice(c.value, off, data), t, r, s')
  }

  /** Operations that only touch metadata: one metadata operation, passed through. */
  ghost predicate MetaOnlyStep(s: State, op: MetaOp, t: Trace, r: Result, s': State)
  {
    |t.metas| == 1 && t.metas[0].op == op && MetaStep(s, t.metas[0], s') && r == MetaResult(t.metas[0].result)
  }

  function NewFile(inode: InodeId, scheme: RedundancyScheme, uid: nat, gid: nat, unixMode: nat, now: nat): InodeRecord
  {
    InodeRecord(inode, AppendOnly, 0, scheme, ChunkLog([]), uid, gid, unixMode, now)
  }

  /** Taking an inode number. */
  function Allocated(s: State): State
  {
    s.(tables := s.tables.(nextInode := s.tables.nextInode + 1))
  }

  /** Creating a file: take a number, create the inode, link it; each logged in turn. */
  ghost predicate CreateStep(s: State, parent: InodeId, name: seq<byte>, rec: InodeRecord, t: Trace, r: Result,
                             s': State)
  {
    && rec.inode == s.tables.nextInode
    && |t.metas| >= 1 && t.metas[0].op == CreateInode(rec)
    && MetaStep(Allocated(s), t.metas[0], t.mid)
    && if !t.metas[0].result.Done? then |t.metas| == 1 && r == Err(Meta) && s' == t.mid
       else
         && |t.metas| == 2 && t.metas[1].op == Link(parent, name, rec.inode)
         && MetaStep(t.mid, t.metas[1], s')
         && r == if t.metas[1].result.Done? then OkInode(rec.inode) else Err(Meta)
  }

  /** The calls a client makes. */
  datatype Call =
    | Create(parent: InodeId, name: seq<byte>, scheme: RedundancyScheme, uid: nat, gid: nat, unixMode: nat, now: nat)
    | Remove(parent: InodeId, name: seq<byte>)
    | SetPolicy(inode: InodeId, scheme: RedundancyScheme)
    | AppendTo(inode: InodeId, payload: seq<byte>)
    | StartConversion(inode: InodeId)
    | FinishConversion(inode: InodeId)
    | WriteAt(inode: InodeId, off: nat, data: seq<byte>)

  ghost predicate Step(cfg: Config, s: State, call: Call, t: Trace, r: Result, s': State)
  {
    match call
    case Create(parent, name, scheme, uid, gid, unixMode, now) =>
      CreateStep(s, parent, name, NewFile(s.tables.nextInode, scheme, uid, gid, unixMode, now), t, r, s')
    case Remove(parent, name) => MetaOnlyStep(s, Unlink(parent, name), t, r, s')
    case SetPolicy(inode, scheme) => MetaOnlyStep(s, SetRedundancyScheme(inode, scheme), t, r, s')
    case AppendTo(inode, payload) => AppendStep(cfg, s, inode, payload, t, r, s')
    case StartConversion(inode) => MetaOnlyStep(s, BeginConvert(inode), t, r, s')
    case FinishConversion(inode) => ConvertStep(cfg, s, inode, t, r, s')
    case WriteAt(inode, off, data) => WriteStep(cfg, s, inode, off, data, t, r, s')
  }

  // ---- the abstract pool ----

  type Files = map<InodeId, seq<byte>>

  /** Inode to content, for every readable file. */
  ghost function FilesOf(s: State): Files
  {
    map i | i in s.tables.inodes && Content(s.images, s.tables.inodes[i]).Some? ::
      Content(s.images, s.tables.inodes[i]).value
  }

  /** What a read answers: the range of the file, nothing where there is no such file. */
  ghost predicate Answers(f: Files, inode: InodeId, off: nat, len: nat, r: Option<seq<byte>>)
  {
    && (r.Some? <==> inode in f)
    && (r.Some? ==> IsRange(f[inode], off, len, r.value))
  }

  /** What a call means on plain files: append concatenates, a random write overwrites, conversion and
      directory or policy changes do nothing, and a failed call does nothing (a failed creation may
      leave an unlinked empty file behind). */
  ghost predicate Means(f: Files, call: Call, r: Result, f': Files)
  {
    match call
    case Create(_, _, _, _, _, _, _) =>
      if r.OkInode? then r.inode !in f && f' == f[r.inode := []]
      else f' == f || exists i: InodeId :: i !in f && f' == f[i := []]
    case AppendTo(inode, payload) =>
      if r.Ok? then inode in f && f' == f[inode := f[inode] + payload] else f' == f
    case WriteAt(inode, off, data) =>
      if r.Ok? then
        inode in f && inode in f' && f' == f[inode := f'[inode]] && IsWritten(f[inode], off, data, f'[inode])
      else f' == f
    case _ => f' == f
  }
}

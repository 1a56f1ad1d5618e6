/** Where the pool stops meaning what it says, and exactly where: recorded lengths are 32 bits wide, a
    scheme without slots is accepted, and the log runs on into the data region. */
module PoolLimits {
  import opened Proto
  import opened Arith
  import opened Bytes
  import opened Crc32c
  import opened Store
  import opened PoolModel
  import opened PoolInvariant
  import opened PoolRefinement
  import opened PoolConfig
  import opened Placement
  import opened PoolPlacement

  // ---- 32-bit lengths ----

  /** What a 32-bit length field keeps of a file. */
  function Cut(content: seq<byte>): (c: seq<byte>)
    ensures c <= content && |c| == |content| % U32
  {
    content[..|content| % U32]
  }

  /** The same, zero-filled to the full length. */
  function Blanked(content: seq<byte>): (c: seq<byte>)
    ensures |c| == |content|
  {
    Cut(content) + Zeros(|content| - |Cut(content)|)
  }

  lemma CutExactIff(content: seq<byte>)
    ensures Cut(content) == content <==> |content| < U32
  {
    if |content| < U32 {
      WordMod(|content|);
    }
  }

  lemma BlankedExactIff(content: seq<byte>)
    ensures Blanked(content) == content <==> forall i :: |content| % U32 <= i < |content| ==> content[i] == 0
    ensures |content| < U32 ==> Blanked(content) == content
  {
    var k, c := |content| % U32, Blanked(content);
    assert forall i :: k <= i < |content| ==> c[i] == 0;
    if |content| < U32 {
      WordMod(|content|);
    }
  }

  /** Reading fewer bytes than are stored returns the first of them. */
  lemma ShorterRead(s: State, rs: seq<Replica>, content: seq<byte>, n: nat)
    requires StoredAs(s, rs, 0, content) && n <= |content|
    ensures ReadReplicated(s.images, rs, 0, n) == Some(content[..n])
  {
    assert ReplicaHolds(s, rs[0], 0, content);
    var at := SEG + rs[0].offset;
    var image := s.images[rs[0].disk];
    assert image[at..at + n] == image[at..at + |content|][..n];
  }

  /** The extents recorded for a content. */
  ghost predicate Records(s': State, xs: seq<Extent>, content: seq<byte>)
  {
    if content == [] then xs == []
    else |xs| == 1 && xs[0].fileOffset == 0 && xs[0].len == |content| % U32 && StoredAs(s', xs[0].replicas, 0, content)
  }

  /** What a rewritten file reads as: the stored bytes cut to the recorded length, zero-filled to the
      recorded size. */
  lemma RewrittenReads(s': State, rec: InodeRecord, content: seq<byte>, xs: seq<Extent>)
    requires rec.data == Extents(xs) && Records(s', xs, content) && |Cut(content)| <= rec.size
    ensures Content(s'.images, rec) == Some(Cut(content) + Zeros(rec.size - |Cut(content)|))
  {
    if content == [] {
      assert Cut(content) == [];
      assert [] + Zeros(rec.size) == Zeros(rec.size);
    } else {
      assert xs == [xs[0]];
      ShorterRead(s', xs[0].replicas, content, |Cut(content)|);
      OneExtentReads(s'.images, rec.size, xs[0], Cut(content));
    }
  }

  lemma RecordsEnd(s': State, xs: seq<Extent>, content: seq<byte>)
    requires Records(s', xs, content)
    ensures ExtentsEnd(xs) == |Cut(content)|
  {
    if content != [] {
      assert xs[1..] == [] && ExtentsEnd([]) == 0;
    }
  }

  /** The record after a successful rewrite. */
  lemma RewriteRecord(cfg: Config, s: State, inode: InodeId, convert: bool, content: seq<byte>, t: Trace, s': State)
    returns (xs: seq<Extent>)
    requires Inv(s) && PlacesApart(cfg) && inode in s.tables.inodes
    requires RewriteStep(cfg, s, inode, convert, content, t, Ok, s') && WalFits(s, t)
    ensures Records(s', xs, content) && inode in s'.tables.inodes && s'.tables.inodes[inode].data == Extents(xs)
    ensures s'.tables.inodes[inode].size == if convert then s.tables.inodes[inode].size else ExtentsEnd(xs)
  {
    RewriteStored(cfg, s, inode, convert, content, t, s');
    InvFiled(s);
    xs := if content == [] then [] else [Extent(0, |content| % U32, ReplicasAt(s, t.ids.value), Checksum(content))];
    ExtentsApplied(s.tables, inode, convert, xs, s'.tables);
  }

  lemma ExtentsApplied(t: Tables, inode: InodeId, convert: bool, xs: seq<Extent>, t': Tables)
    requires WellFiled(t) && inode in t.inodes && ApplyOp(t, ExtentsOp(convert, inode, xs)) == Some(t')
    ensures inode in t'.inodes && t'.inodes[inode].data == Extents(xs)
    ensures t'.inodes[inode].size == if convert then t.inodes[inode].size else ExtentsEnd(xs)
  {
    Applied(t, ExtentsOp(convert, inode, xs), t');
  }

  /** After any successful rewrite the file is what a 32-bit length keeps of the content. */
  lemma RewriteTruncates(cfg: Config, s: State, inode: InodeId, convert: bool, content: seq<byte>, t: Trace, s': State)
    requires Inv(s) && PlacesApart(cfg) && inode in s.tables.inodes
    requires RewriteStep(cfg, s, inode, convert, content, t, Ok, s') && WalFits(s, t)
    requires convert ==> s.tables.inodes[inode].size == |content|
    ensures inode in s'.tables.inodes
    ensures Content(s'.images, s'.tables.inodes[inode]) == Some(if convert then Blanked(content) else Cut(content))
  {
    var xs := RewriteRecord(cfg, s, inode, convert, content, t, s');
    TruncatedReads(s', s'.tables.inodes[inode], convert, content, xs);
  }

  /** All files but `i` read as before. */
  ghost predicate OthersRead(s: State, s': State, i: InodeId)
  {
    && s'.tables.inodes.Keys == s.tables.inodes.Keys
    && forall j :: j in s.tables.inodes && j != i ==> SameContent(s, s', j)
  }

  ghost predicate SameContent(s: State, s': State, j: InodeId)
  {
    && j in s.tables.inodes && j in s'.tables.inodes
    && Content(s'.images, s'.tables.inodes[j]) == Content(s.images, s.tables.inodes[j])
  }

  lemma OthersKept(s: State, s': State, i: InodeId, rec: InodeRecord)
    requires Inv(s) && Kept(s, s') && i in s.tables.inodes && s'.tables.inodes == s.tables.inodes[i := rec]
    ensures OthersRead(s, s', i)
  {
    forall j | j in s.tables.inodes && j != i
      ensures SameContent(s, s', j)
    {
      OtherFile(s, s', j);
    }
  }

  lemma FilesUpdated(s: State, s': State, i: InodeId, c: seq<byte>)
    requires OthersRead(s, s', i) && i in s'.tables.inodes && Content(s'.images, s'.tables.inodes[i]) == Some(c)
    ensures FilesOf(s') == FilesOf(s)[i := c]
  {
    var f, f' := FilesOf(s)[i := c], FilesOf(s');
    forall j
      ensures j in f <==> j in f'
      ensures j in f ==> f[j] == f'[j]
    {
      if j in s.tables.inodes && j != i {
        assert SameContent(s, s', j);
      }
    }
  }

  lemma RewriteOthers(cfg: Config, s: State, inode: InodeId, convert: bool, content: seq<byte>, t: Trace, s': State)
    requires Inv(s) && PlacesApart(cfg) && inode in s.tables.inodes
    requires RewriteStep(cfg, s, inode, convert, content, t, Ok, s') && WalFits(s, t)
    ensures OthersRead(s, s', inode)
  {
    RewriteStored(cfg, s, inode, convert, content, t, s');
    InvFiled(s);
    Applied(s.tables, t.metas[0].op, s'.tables);
    OthersKept(s, s', inode, s'.tables.inodes[inode]);
  }

  /** A successful rewrite, of any length: that file is what a 32-bit length keeps of the content, and all
      others are as they were. */
  lemma RewriteMeans(cfg: Config, s: State, inode: InodeId, convert: bool, content: seq<byte>, t: Trace, s': State)
    requires Inv(s) && PlacesApart(cfg) && inode in s.tables.inodes
    requires RewriteStep(cfg, s, inode, convert, content, t, Ok, s') && WalFits(s, t)
    requires convert ==> s.tables.inodes[inode].size == |content|
    ensures FilesOf(s') == FilesOf(s)[inode := if convert then Blanked(content) else Cut(content)]
    ensures |content| < U32 ==> Blanked(content) == Cut(content) == content
  {
    RewriteTruncates(cfg, s, inode, convert, content, t, s');
    RewriteOthers(cfg, s, inode, convert, content, t, s');
    FilesUpdated(s, s', inode, if convert then Blanked(content) else Cut(content));
    ShortIsWhole(content);
  }

  lemma ShortIsWhole(content: seq<byte>)
    ensures |content| < U32 ==> Blanked(content) == Cut(content) == content
  {
    BlankedExactIff(content);
    if |content| < U32 {
      WordMod(|content|);
    }
  }

  lemma TruncatedReads(s': State, rec: InodeRecord, convert: bool, content: seq<byte>, xs: seq<Extent>)
    requires rec.data == Extents(xs) && Records(s', xs, content)
    requires rec.size == if convert then |content| else ExtentsEnd(xs)
    ensures Content(s'.images, rec) == Some(if convert then Blanked(content) else Cut(content))
  {
    RecordsEnd(s', xs, content);
    RewrittenReads(s', rec, content, xs);
    assert Cut(content) + Zeros(0) == Cut(content);
  }

  /** A successful write means what it says exactly when the new content is shorter than 2^32 bytes. */
  lemma WriteExactIff(cfg: Config, s: State, inode: InodeId, off: nat, data: seq<byte>, t: Trace, s': State)
    requires Inv(s) && PlacesApart(cfg) && WriteStep(cfg, s, inode, off, data, t, Ok, s') && WalFits(s, t)
    ensures inode in s.tables.inodes && inode in s'.tables.inodes && Content(s.images, s.tables.inodes[inode]).Some?
    ensures var c := Content(s.images, s.tables.inodes[inode]).value;
            && Content(s'.images, s'.tables.inodes[inode]).Some?
            && (IsWritten(c, off, data, Content(s'.images, s'.tables.inodes[inode]).value)
                <==> Max(s.tables.inodes[inode].size, off + |data|) < U32)
  {
    var rec := s.tables.inodes[inode];
    assert RecordOk(s, inode, rec);
    RecordReadable(s, inode, rec);
    var c := Content(s.images, rec).value;
    SpliceLength(c, off, data);
    SpliceWrites(c, off, data);
    RewriteTruncates(cfg, s, inode, false, Splice(c, off, data), t, s');
    CutExactIff(Splice(c, off, data));
  }

  /** A successful conversion is the identity exactly when everything past the file's length modulo
      2^32 is zero, in particular for every file shorter than 2^32 bytes. */
  lemma ConvertExactIff(cfg: Config, s: State, inode: InodeId, t: Trace, s': State)
    requires Inv(s) && PlacesApart(cfg) && ConvertStep(cfg, s, inode, t, Ok, s') && WalFits(s, t)
    ensures inode in s.tables.inodes && inode in s'.tables.inodes && Content(s.images, s.tables.inodes[inode]).Some?
    ensures var c := Content(s.images, s.tables.inodes[inode]).value;
            Content(s'.images, s'.tables.inodes[inode]) == Some(c) <==> forall i :: |c| % U32 <= i < |c| ==> c[i] == 0
    ensures s.tables.inodes[inode].size < U32 ==>
            Content(s'.images, s'.tables.inodes[inode]) == Content(s.images, s.tables.inodes[inode])
  {
    var rec := s.tables.inodes[inode];
    assert RecordOk(s, inode, rec);
    RecordReadable(s, inode, rec);
    var c := Content(s.images, rec).value;
    RewriteTruncates(cfg, s, inode, true, c, t, s');
    BlankedExactIff(c);
  }

  // ---- schemes without slots ----

  /** A scheme without slots is placed, on no disk. */
  lemma NoSlotsPlaced(hash: Hash, disks: map<DiskId, DiskEntry>, milli: Milli, key: nat)
    ensures PlaceOf(hash, disks, milli, Replicated([]), key) == Some([])
  {
    var r := Ranking(hash, key);
    var none: seq<Option<DiskId>> := [];
    assert Specs([])[..0] == [];
    assert IsPlacedAs(r, disks, HoldsData, milli, [], none, []);
    assert PlacedOn(r, disks, HoldsData, milli, [], none);
    PlaceIsUnique(hash, disks, milli, Replicated([]), key, none);
  }

  lemma LastChunkUnreadable(images: map<DiskId, seq<byte>>, cs: seq<ChunkPointer>, c: ChunkPointer)
    requires c.replicas == []
    ensures ReadChunks(images, cs + [c]).None?
  {
    assert (cs + [c])[..|cs|] == cs;
  }

  /** The append succeeds, and from then on the file cannot be read. */
  lemma NoSlotsUnreadable(cfg: Config, s: State, inode: InodeId, payload: seq<byte>, t: Trace, s': State, off: nat,
                          len: nat)
    requires AppendStep(cfg, s, inode, payload, t, Ok, s') && WellFiled(s.tables)
    requires s.tables.inodes[inode].redundancy == Replicated([])
    requires cfg.place(Replicated([]), cfg.key(inode, |s.tables.inodes[inode].data.chunks|)) == Some([])
    ensures ReadFile(s', inode, off, len).None?
  {
    AppendFacts(cfg, s, inode, payload, t, s');
    var rec := s.tables.inodes[inode];
    var c := t.metas[0].op.chunk;
    Applied(t.mid.tables, t.metas[0].op, s'.tables);
    LastChunkUnreadable(s'.images, rec.data.chunks, c);
  }

  // ---- a log that runs into the data region ----

  /** Every data byte below the cursor that the entry covers already equals the entry's. */
  ghost predicate Coincides(image: seq<byte>, cursor: nat, at: nat, entry: seq<byte>)
    requires SEG + cursor <= |image|
  {
    forall i :: SEG <= i < SEG + cursor && at <= i < at + |entry| ==> image[i] == entry[i - at]
  }

  lemma PatchKeepsIff(image: seq<byte>, cursor: nat, at: nat, entry: seq<byte>)
    requires SEG + cursor <= |image|
    ensures KeptOn(image, cursor, Patch(image, at, entry), cursor) <==> Coincides(image, cursor, at, entry)
  {
    var image' := Patch(image, at, entry);
    forall i | SEG <= i < SEG + cursor
      ensures image'[i] == if at <= i < at + |entry| then entry[i - at] else image[i]
    {
      if at <= i < at + |entry| {
        assert image'[at..at + |entry|][i - at] == entry[i - at];
      }
    }
    if KeptOn(image, cursor, image', cursor) {
      forall i | SEG <= i < SEG + cursor
        ensures image'[i] == image[i]
      {
        assert image'[SEG..SEG + cursor][i - SEG] == image[SEG..SEG + cursor][i - SEG];
      }
    }
    if Coincides(image, cursor, at, entry) {
      assert image'[SEG..SEG + cursor] == image[SEG..SEG + cursor];
    }
  }

  /** The code does not look where a log entry ends. A committed entry keeps the data of the primary if and
      only if the data it runs over happens to equal it; `MetaKeeps` is the case where it runs over none. */
  lemma OverrunKeepsIff(s: State, m: Issued, s': State)
    requires Shape(s) && MetaStep(s, m, s') && !m.result.CommitFailed?
    ensures var p := s.group.primary;
            KeptOn(s.images[p], s.cursors[p], s'.images[p], s'.cursors[p])
            <==> Coincides(s.images[p], s.cursors[p], s.walCursor, m.entry)
  {
    var p := s.group.primary;
    PatchKeepsIff(s.images[p], s.cursors[p], s.walCursor, m.entry);
  }

  /** Data whose first replica lies under the entry now reads as bytes of the entry. */
  lemma OverrunReads(s: State, m: Issued, s': State, rs: seq<Replica>, header: nat, len: nat)
    requires MetaStep(s, m, s') && !m.result.CommitFailed? && rs != [] && rs[0].disk == s.group.primary
    requires m.entry != []
    requires s.walCursor <= SEG + rs[0].offset + header
    requires SEG + rs[0].offset + header + len <= s.walCursor + |m.entry|
    ensures var at := SEG + rs[0].offset + header - s.walCursor;
            ReadReplicated(s'.images, rs, header, len) == Some(m.entry[at..at + len])
  {
    var image', from := s'.images[s.group.primary], SEG + rs[0].offset + header;
    SubRange(image', s.walCursor, s.walCursor + |m.entry|, from, from + len);
  }

  /** So does a whole file that is one such extent. */
  lemma OverrunFile(s: State, m: Issued, s': State, i: InodeId, rec: InodeRecord)
    requires MetaStep(s, m, s') && !m.result.CommitFailed? && RecordOk(s, i, rec)
    requires rec.data.Extents? && rec.data.extents != []
    requires var r := rec.data.extents[0].replicas[0];
             && r.disk == s.group.primary && s.walCursor <= SEG + r.offset
             && SEG + r.offset + rec.size <= s.walCursor + |m.entry|
    ensures var at := SEG + rec.data.extents[0].replicas[0].offset - s.walCursor;
            Content(s'.images, rec) == Some(m.entry[at..at + rec.size])
  {
    var x := rec.data.extents[0];
    OverrunReads(s, m, s', x.replicas, 0, x.len);
    var at := SEG + x.replicas[0].offset - s.walCursor;
    var bytes := m.entry[at..at + rec.size];
    OneExtentReads(s'.images, rec.size, x, bytes);
    assert rec.data.extents == [x] && bytes + Zeros(0) == bytes;
  }
}

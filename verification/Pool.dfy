/** The pool itself: the disks table and the metadata store, updated call by call. Every method is
    proved to take one step of the pool's specification. */
module Pool {
  import opened Proto
  import opened Arith
  import opened Bytes
  import opened Crc32c
  import opened Framing
  import opened Store
  import opened PoolModel
  import opened PoolConfig
  import opened Placement
  import opened PoolPlacement
  import R = Region
  import M = MetaStore

  lemma OneGenuine(m: Issued)
    requires M.EntryFor(m.op, m.entry)
    ensures AllGenuine([m])
  {
  }

  lemma MoreGenuine(ms: seq<Issued>, m: Issued)
    requires AllGenuine(ms) && M.EntryFor(m.op, m.entry)
    ensures AllGenuine(ms + [m])
  {
  }

  lemma CreateStopped(s: State, parent: InodeId, name: seq<byte>, rec: InodeRecord, t: Trace)
    requires rec.inode == s.tables.nextInode && |t.metas| == 1 && t.metas[0].op == CreateInode(rec)
             && !t.metas[0].result.Done?
    requires MetaStep(Allocated(s), t.metas[0], t.mid)
    ensures CreateStep(s, parent, name, rec, t, Err(Meta), t.mid)
  {
  }

  /** The first half of a creation: number taken, inode logged and applied. */
  ghost predicate InodeLogged(s: State, rec: InodeRecord, t: Trace)
  {
    && rec.inode == s.tables.nextInode && |t.metas| == 1 && t.metas[0].op == CreateInode(rec) && t.metas[0].result.Done?
    && MetaStep(Allocated(s), t.metas[0], t.mid)
  }

  lemma CreateLinked(s: State, parent: InodeId, name: seq<byte>, rec: InodeRecord, t: Trace, m: Issued, s': State)
    requires InodeLogged(s, rec, t) && m.op == Link(parent, name, rec.inode) && MetaStep(t.mid, m, s')
    ensures CreateStep(s, parent, name, rec, t.(metas := t.metas + [m]),
                       if m.result.Done? then OkInode(rec.inode) else Err(Meta), s')
  {
    var t' := t.(metas := t.metas + [m]);
    assert t'.metas[0] == t.metas[0] && t'.metas[1] == m;
  }

  // ---- a metadata operation as a step of the specification ----

  ghost predicate OthersSame(s: State, s': State)
  {
    && s'.cursors == s.cursors && s'.images.Keys == s.images.Keys && s.group.primary in s.images
    && forall id :: id in s.images && id != s.group.primary && Some(id) != s.group.backup ==>
        s'.images[id] == s.images[id]
  }

  /** A failed commit: only the primary, past the WAL cursor, may have changed. */
  ghost predicate NotLogged(s: State, entry: seq<byte>, s': State)
    requires OthersSame(s, s')
  {
    && s' == s.(images := s'.images)
    && SameOutside(s.images[s.group.primary], s'.images[s.group.primary], s.walCursor, |entry|)
    && (s.group.backup.Some? && s.group.backup.value in s.images && s.group.backup.value != s.group.primary ==>
          s'.images[s.group.backup.value] == s.images[s.group.backup.value])
  }

  /** A successful commit: the entry is on the primary, and on the backup unless it was fenced. */
  ghost predicate WasLogged(s: State, entry: seq<byte>, s': State)
    requires OthersSame(s, s')
  {
    && s'.images[s.group.primary] == Patch(s.images[s.group.primary], s.walCursor, entry)
    && s'.walCursor == s.walCursor + |entry|
    && (s'.group == s.group || (s.group.backup.Some? && s'.group == M.FencedGroup(s.group)))
    && (s.group.backup.Some? && s.group.backup.value in s.images ==>
          SameOutside(s.images[s.group.backup.value], s'.images[s.group.backup.value], s.walCursor, |entry|)
          && (s'.group == s.group ==>
                s'.images[s.group.backup.value] == Patch(s.images[s.group.backup.value], s.walCursor, entry)))
  }

  ghost predicate WasApplied(t: Tables, m: Issued, t': Tables)
  {
    if m.result.Done? then ApplyOp(t, m.op) == Some(t') else ApplyOp(t, m.op).None? && t' == t
  }

  lemma CommitFailedStep(s: State, m: Issued, s': State)
    requires OthersSame(s, s') && m.result.CommitFailed? && NotLogged(s, m.entry, s')
    ensures MetaStep(s, m, s')
  {
  }

  lemma LoggedStep(s: State, m: Issued, s': State)
    requires OthersSame(s, s') && !m.result.CommitFailed? && WasLogged(s, m.entry, s')
             && WasApplied(s.tables, m, s'.tables)
    ensures MetaStep(s, m, s')
  {
  }

  // ---- the data phase as a step of the specification ----

  lemma Recorded(s: State, ids: seq<DiskId>, rs: seq<Replica>)
    requires R.RecordedAt(s.cursors, ids, rs) && |rs| == |ids| && forall id :: id in ids ==> id in s.cursors
    ensures rs == ReplicasAt(s, ids)
  {
  }

  lemma Fitted(s: State, ids: seq<DiskId>, len: nat, k: nat)
    requires R.FitsAt(s.cursors, ids, len, k) && forall id :: id in ids ==> id in s.cursors
    ensures forall id :: id in ids[..k] ==> s.cursors[id] + len <= SEGMENT_SIZE
  {
    forall id | id in ids[..k]
      ensures s.cursors[id] + len <= SEGMENT_SIZE
    {
      var j :| 0 <= j < k && ids[..k][j] == id;
      assert ids[j] == id;
    }
  }

  /** What an append knows when its data phase is over. */
  ghost predicate DataWritten(cfg: Config, s: State, inode: InodeId, payload: seq<byte>, t: Trace)
  {
    && inode in s.tables.inodes
    && var rec := s.tables.inodes[inode];
       && !rec.mode.Writable? && rec.data.ChunkLog?
       && var frame := Frame(Segment, ChunkRecord(inode, |rec.data.chunks|, payload));
          && t.ids == cfg.place(rec.redundancy, cfg.key(inode, |rec.data.chunks|)) && t.ids.Some?
          && R.DistinctIn(t.ids.value, s)
          && R.WroteInTurn(s, t.ids.value, frame, t.written, t.mid)
          && R.FitsAt(s.cursors, t.ids.value, |frame|, t.written)
  }

  lemma AppendStopped(cfg: Config, s: State, inode: InodeId, payload: seq<byte>, t: Trace)
    requires DataWritten(cfg, s, inode, payload, t) && t.written < |t.ids.value|
    ensures AppendStep(cfg, s, inode, payload, t, Err(Io), t.mid)
  {
    var frame := Frame(Segment, ChunkRecord(inode, |s.tables.inodes[inode].data.chunks|, payload));
    R.InTurnWrote(s, t.ids.value, frame, t.written, t.mid);
    Fitted(s, t.ids.value, |frame|, t.written);
  }

  lemma AppendRecorded(cfg: Config, s: State, inode: InodeId, payload: seq<byte>, t: Trace, rs: seq<Replica>, s': State)
    requires DataWritten(cfg, s, inode, payload, t) && t.written == |t.ids.value|
    requires R.RecordedAt(s.cursors, t.ids.value, rs) && |rs| == |t.ids.value|
    requires |t.metas| == 1 && MetaStep(t.mid, t.metas[0], s')
    requires t.metas[0].op == AppendChunk(inode, ChunkPointer(|s.tables.inodes[inode].data.chunks|, rs, |payload| % U32,
                                                              Checksum(payload)))
    ensures AppendStep(cfg, s, inode, payload, t, MetaResult(t.metas[0].result), s')
  {
    var frame := Frame(Segment, ChunkRecord(inode, |s.tables.inodes[inode].data.chunks|, payload));
    R.InTurnWrote(s, t.ids.value, frame, t.written, t.mid);
    Fitted(s, t.ids.value, |frame|, t.written);
    Recorded(s, t.ids.value, rs);
  }

  ghost predicate ContentWritten(cfg: Config, s: State, inode: InodeId, content: seq<byte>, t: Trace)
  {
    && inode in s.tables.inodes && content != []
    && t.ids == cfg.place(s.tables.inodes[inode].redundancy, cfg.key(inode, 0xffff_ffff_ffff_ffff)) && t.ids.Some?
    && R.DistinctIn(t.ids.value, s)
    && R.WroteInTurn(s, t.ids.value, content, t.written, t.mid)
  }

  lemma RewriteStopped(cfg: Config, s: State, inode: InodeId, convert: bool, content: seq<byte>, t: Trace)
    requires ContentWritten(cfg, s, inode, content, t) && t.written < |t.ids.value|
    ensures RewriteStep(cfg, s, inode, convert, content, t, Err(Io), t.mid)
  {
    R.InTurnWrote(s, t.ids.value, content, t.written, t.mid);
  }

  lemma RewriteRecorded(cfg: Config, s: State, inode: InodeId, convert: bool, content: seq<byte>, t: Trace,
                        rs: seq<Replica>, s': State)
    requires ContentWritten(cfg, s, inode, content, t) && t.written == |t.ids.value|
    requires R.RecordedAt(s.cursors, t.ids.value, rs) && |rs| == |t.ids.value|
    requires |t.metas| == 1 && MetaStep(t.mid, t.metas[0], s')
    requires t.metas[0].op == ExtentsOp(convert, inode, [Extent(0, |content| % U32, rs, Checksum(content))])
    ensures RewriteStep(cfg, s, inode, convert, content, t, MetaResult(t.metas[0].result), s')
  {
    R.InTurnWrote(s, t.ids.value, content, t.written, t.mid);
    Recorded(s, t.ids.value, rs);
  }

  class Pool {
    const poolMap: PoolMap
    const region: R.Region
    const meta: M.MetaStore
    const hash: Hash
    const placementKey: Key
    const milli: Milli

    constructor (poolMap: PoolMap, region: R.Region, meta: M.MetaStore, hash: Hash, placementKey: Key, milli: Milli)
      ensures this.poolMap == poolMap && this.region == region && this.meta == meta
      ensures this.hash == hash && this.placementKey == placementKey && this.milli == milli
    {
      this.poolMap := poolMap;
      this.region := region;
      this.meta := meta;
      this.hash := hash;
      this.placementKey := placementKey;
      this.milli := milli;
    }

    /** The members of the metadata group are pool disks. */
    ghost predicate GroupOnDisks()
      reads meta, meta.replicator
    {
      && meta.replicator.Valid()
      && var g := meta.replicator.group;
         && g.primary in region.disks && region.disks[g.primary] == meta.replicator.primary
         && (g.backup.Some? ==>
             g.backup.value in region.disks
             && region.disks[g.backup.value] == meta.replicator.backup)
    }

    ghost predicate Valid()
      reads region, meta, meta.replicator
    {
      && poolMap.disks.Keys == region.disks.Keys && IdsFit(poolMap.disks)
      && region.Valid() && GroupOnDisks()
    }

    /** The metadata half of the pool's value. */
    ghost function Rest(): State
      reads meta, meta.replicator
    {
      State(map[], map[], meta.replicator.group, meta.walCursor, meta.View())
    }

    /** The pool as a value. */
    ghost function Now(): State
      reads region, region.disks.Values, meta, meta.replicator
    {
      region.In(Rest())
    }

    ghost function Cfg(): Config
    {
      ConfigOf(hash, placementKey, poolMap.disks, milli)
    }

    // ---- metadata ----

    /** The store's own step, seen on the disks of the pool. */
    method ApplyToStore(op: MetaOp, entry: seq<byte>) returns (r: M.ApplyResult)
      requires region.Valid() && GroupOnDisks()
      modifies meta, meta.replicator, region.disks.Values
      ensures GroupOnDisks()
      ensures OthersSame(old(Now()), Now())
      ensures if r.CommitFailed? then NotLogged(old(Now()), entry, Now())
              else WasLogged(old(Now()), entry, Now())
                   && WasApplied(old(meta.View()), Issued(op, entry, r), meta.View())
    {
      ghost var s, p, b := Now(), meta.replicator.primary, meta.replicator.backup;
      assert s.images[s.group.primary] == p.image && p.id == s.group.primary;
      assert b != null ==> s.images[s.group.backup.value] == b.image && Some(b.id) == s.group.backup;
      r := meta.ApplyFramed(op, entry);
      forall id | id in s.images && id != s.group.primary && Some(id) != s.group.backup
        ensures Now().images[id] == s.images[id]
      {
        assert region.disks[id].id == id;
        assert region.disks[id] != p && region.disks[id] != b;
      }
      assert Now().images[s.group.primary] == p.image;
      assert b != null ==> Now().images[s.group.backup.value] == b.image;
    }

    /** One metadata operation through the store. */
    method ApplyMeta(op: MetaOp) returns (r: M.ApplyResult, ghost m: Issued)
      requires region.Valid() && GroupOnDisks()
      modifies meta, meta.replicator, region.disks.Values
      ensures GroupOnDisks()
      ensures m.op == op && m.result == r && M.EntryFor(m.op, m.entry)
      ensures MetaStep(old(Now()), m, Now())
    {
      ghost var s := Now();
      var entry := meta.FrameOp(op);
      r := ApplyToStore(op, entry);
      m := Issued(op, entry, r);
      if r.CommitFailed? {
        CommitFailedStep(s, m, Now());
      } else {
        LoggedStep(s, m, Now());
      }
    }

    method SetRedundancy(inode: InodeId, scheme: RedundancyScheme) returns (r: Result, ghost t: Trace)
      requires Valid()
      modifies meta, meta.replicator, region.disks.Values
      ensures Valid() && AllGenuine(t.metas)
      ensures MetaOnlyStep(old(Now()), SetRedundancyScheme(inode, scheme), t, r, Now())
    {
      var a;
      ghost var m;
      a, m := ApplyMeta(SetRedundancyScheme(inode, scheme));
      t := Trace(None, 0, Now(), [m]);
      OneGenuine(m);
      r := MetaResult(a);
    }

    /** `Pool::unlink`. */
    method UnlinkName(parent: InodeId, name: seq<byte>) returns (r: Result, ghost t: Trace)
      requires Valid()
      modifies meta, meta.replicator, region.disks.Values
      ensures Valid() && AllGenuine(t.metas)
      ensures MetaOnlyStep(old(Now()), Unlink(parent, name), t, r, Now())
    {
      var a;
      ghost var m;
      a, m := ApplyMeta(Unlink(parent, name));
      t := Trace(None, 0, Now(), [m]);
      OneGenuine(m);
      r := MetaResult(a);
    }

    /** `Pool::begin_convert`: no check of the mode before the operation is logged. */
    method BeginConversion(inode: InodeId) returns (r: Result, ghost t: Trace)
      requires Valid()
      modifies meta, meta.replicator, region.disks.Values
      ensures Valid() && AllGenuine(t.metas)
      ensures MetaOnlyStep(old(Now()), BeginConvert(inode), t, r, Now())
    {
      var a;
      ghost var m;
      a, m := ApplyMeta(BeginConvert(inode));
      t := Trace(None, 0, Now(), [m]);
      OneGenuine(m);
      r := MetaResult(a);
    }

    method CreateFile(parent: InodeId, name: seq<byte>, scheme: RedundancyScheme, uid: nat, gid: nat, unixMode: nat,
                      now: nat)
      returns (r: Result, ghost t: Trace)
      requires Valid()
      modifies meta, meta.replicator, region.disks.Values
      ensures Valid() && AllGenuine(t.metas)
      ensures CreateStep(old(Now()), parent, name, NewFile(old(meta.nextInode), scheme, uid, gid, unixMode, now), t, r,
                         Now())
    {
      var inode := meta.AllocInode();
      var rec := InodeRecord(inode, AppendOnly, 0, scheme, ChunkLog([]), uid, gid, unixMode, now);
      assert Now() == Allocated(old(Now()));
      r, t := CreateAndLink(parent, name, rec, old(Now()));
    }

    /** The two logged halves of `Pool::create_file`. */
    method CreateAndLink(parent: InodeId, name: seq<byte>, rec: InodeRecord, ghost s: State)
      returns (r: Result, ghost t: Trace)
      requires region.Valid() && GroupOnDisks() && Now() == Allocated(s) && rec.inode == s.tables.nextInode
      modifies meta, meta.replicator, region.disks.Values
      ensures GroupOnDisks() && AllGenuine(t.metas)
      ensures CreateStep(s, parent, name, rec, t, r, Now())
    {
      var a;
      ghost var m;
      a, m := ApplyMeta(CreateInode(rec));
      t := Trace(None, 0, Now(), [m]);
      OneGenuine(m);
      if !a.Done? {
        CreateStopped(s, parent, name, rec, t);
        return Err(Meta), t;
      }
      r, t := LinkCreated(parent, name, rec, s, t);
    }

    method LinkCreated(parent: InodeId, name: seq<byte>, rec: InodeRecord, ghost s: State, ghost t0: Trace)
      returns (r: Result, ghost t: Trace)
      requires region.Valid() && GroupOnDisks() && t0.mid == Now() && AllGenuine(t0.metas) && InodeLogged(s, rec, t0)
      modifies meta, meta.replicator, region.disks.Values
      ensures GroupOnDisks() && AllGenuine(t.metas)
      ensures CreateStep(s, parent, name, rec, t, r, Now())
    {
      var a;
      ghost var m;
      a, m := ApplyMeta(Link(parent, name, rec.inode));
      t := t0.(metas := t0.metas + [m]);
      MoreGenuine(t0.metas, m);
      CreateLinked(s, parent, name, rec, t0, m, Now());
      r := if a.Done? then OkInode(rec.inode) else Err(Meta);
    }

    // ---- placement ----

    /** The disks for a scheme and key, or None when some slot finds no disk. */
    method Place(scheme: RedundancyScheme, key: nat) returns (ids: Option<seq<DiskId>>)
      requires Valid()
      ensures ids == Cfg().place(scheme, key)
      ensures ids.Some? ==> R.DistinctIn(ids.value, Now())
    {
      var placed := PlaceOnPool(Ranking(hash, key), poolMap.disks, scheme, HoldsData, milli);
      if placed.None? {
        return None;
      }
      PlaceIsUnique(hash, poolMap.disks, milli, scheme, key, placed.value);
      ids := Collect(placed.value);
      if ids.Some? {
        PlaceIsApart(hash, poolMap.disks, milli, scheme, key);
      }
    }

    // ---- the operations on data ----

    /** `Pool::append`. */
    method Append(inode: InodeId, payload: seq<byte>) returns (r: Result, ghost t: Trace)
      requires Valid()
      modifies region`cursors, meta, meta.replicator, region.disks.Values
      ensures Valid() && AllGenuine(t.metas)
      ensures AppendStep(Cfg(), old(Now()), inode, payload, t, r, Now())
    {
      ghost var s := Now();
      t := Trace(None, 0, s, []);
      if inode !in meta.inodes {
        return Err(NotFound), t;
      }
      var rec := meta.inodes[inode];
      if rec.mode.Writable? || rec.data.Extents? {
        return Err(WrongMode), t;
      }
      var chunkSeq := |rec.data.chunks|;
      var ids := Place(rec.redundancy, placementKey(inode, chunkSeq));
      t := t.(ids := ids);
      if ids.None? {
        return Err(Unplaceable), t;
      }
      r, t := AppendOnDisks(inode, chunkSeq, payload, ids.value, Cfg());
    }

    /** The rest of `Pool::append`, once the disks are known. */
    method AppendOnDisks(inode: InodeId, chunkSeq: nat, payload: seq<byte>, ids: seq<DiskId>, ghost cfg: Config)
      returns (r: Result, ghost t: Trace)
      requires region.Valid() && GroupOnDisks() && R.DistinctIn(ids, Now())
      requires inode in meta.inodes && !meta.inodes[inode].mode.Writable? && meta.inodes[inode].data.ChunkLog?
      requires chunkSeq == |meta.inodes[inode].data.chunks|
      requires cfg.place(meta.inodes[inode].redundancy, cfg.key(inode, chunkSeq)) == Some(ids)
      modifies region`cursors, meta, meta.replicator, region.disks.Values
      ensures region.Valid() && GroupOnDisks() && AllGenuine(t.metas)
      ensures AppendStep(cfg, old(Now()), inode, payload, t, r, Now())
    {
      ghost var s := Now();
      var checksum := ComputeChecksum(payload);
      var record := Record(inode, chunkSeq, checksum, payload);
      R.DistinctReady(s, ids, Frame(Segment, record));
      var replicas;
      ghost var k;
      replicas, k := region.AppendReplicas(ids, record, Frame(Segment, record), Rest());
      t := Trace(Some(ids), k, Now(), []);
      assert DataWritten(cfg, s, inode, payload, t);
      if replicas.None? {
        AppendStopped(cfg, s, inode, payload, t);
        return Err(Io), t;
      }
      var a;
      ghost var m;
      a, m := ApplyMeta(AppendChunk(inode, ChunkPointer(chunkSeq, replicas.value, |payload| % U32, checksum)));
      t := t.(metas := [m]);
      r := MetaResult(a);
      OneGenuine(m);
      AppendRecorded(cfg, s, inode, payload, t, replicas.value, Now());
    }

    /** `Pool::read`. */
    method Read(inode: InodeId, off: nat, len: nat) returns (r: Option<seq<byte>>)
      requires Valid()
      ensures r == ReadFile(Now(), inode, off, len)
      ensures r.Some? ==> IsRange(Content(Now().images, Now().tables.inodes[inode]).value, off, len, r.value)
    {
      if inode !in meta.inodes {
        return None;
      }
      var content := region.ReadFullContent(meta.inodes[inode]);
      if content.None? {
        return None;
      }
      var start := Min(off, |content.value|);
      var end := Min(start + len, |content.value|);
      r := Some(content.value[start..end]);
    }

    /** Places and writes the whole content as one extent, then records it. */
    method Rewrite(inode: InodeId, convert: bool, content: seq<byte>) returns (r: Result, ghost t: Trace)
      requires Valid() && inode in meta.inodes
      modifies region`cursors, meta, meta.replicator, region.disks.Values
      ensures Valid() && AllGenuine(t.metas)
      ensures RewriteStep(Cfg(), old(Now()), inode, convert, content, t, r, Now())
    {
      ghost var s := Now();
      t := Trace(None, 0, s, []);
      if content == [] {
        var a;
        ghost var m;
        a, m := ApplyMeta(ExtentsOp(convert, inode, []));
        t := t.(metas := [m]);
        OneGenuine(m);
        return MetaResult(a), t;
      }
      var ids := Place(meta.inodes[inode].redundancy, placementKey(inode, 0xffff_ffff_ffff_ffff));
      t := t.(ids := ids);
      if ids.None? {
        return Err(Unplaceable), t;
      }
      r, t := RewriteOnDisks(inode, convert, content, ids.value, Cfg());
    }

    /** The rest of a rewrite, once the disks are known. */
    method RewriteOnDisks(inode: InodeId, convert: bool, content: seq<byte>, ids: seq<DiskId>, ghost cfg: Config)
      returns (r: Result, ghost t: Trace)
      requires region.Valid() && GroupOnDisks() && R.DistinctIn(ids, Now()) && content != []
      requires inode in meta.inodes
      requires cfg.place(meta.inodes[inode].redundancy, cfg.key(inode, 0xffff_ffff_ffff_ffff)) == Some(ids)
      modifies region`cursors, meta, meta.replicator, region.disks.Values
      ensures region.Valid() && GroupOnDisks() && AllGenuine(t.metas)
      ensures RewriteStep(cfg, old(Now()), inode, convert, content, t, r, Now())
    {
      ghost var s := Now();
      var checksum := ComputeChecksum(content);
      R.DistinctReady(s, ids, content);
      var replicas;
      ghost var k;
      replicas, k := region.WriteExtent(ids, content, Rest());
      t := Trace(Some(ids), k, Now(), []);
      assert ContentWritten(cfg, s, inode, content, t);
      if replicas.None? {
        RewriteStopped(cfg, s, inode, convert, content, t);
        return Err(Io), t;
      }
      var a;
      ghost var m;
      a, m := ApplyMeta(ExtentsOp(convert, inode, [Extent(0, |content| % U32, replicas.value, checksum)]));
      t := t.(metas := [m]);
      r := MetaResult(a);
      OneGenuine(m);
      RewriteRecorded(cfg, s, inode, convert, content, t, replicas.value, Now());
    }

    /** `Pool::complete_convert`. */
    method FinishConvert(inode: InodeId) returns (r: Result, ghost t: Trace)
      requires Valid()
      modifies region`cursors, meta, meta.replicator, region.disks.Values
      ensures Valid() && AllGenuine(t.metas)
      ensures ConvertStep(Cfg(), old(Now()), inode, t, r, Now())
    {
      t := Trace(None, 0, Now(), []);
      if inode !in meta.inodes {
        return Err(NotFound), t;
      }
      var rec := meta.inodes[inode];
      if !rec.mode.Converting? {
        return Err(WrongMode), t;
      }
      var content := region.ReadFullContent(rec);
      if content.None? {
        return Err(Io), t;
      }
      r, t := Rewrite(inode, true, content.value);
    }

    /** `Pool::write`. */
    method Write(inode: InodeId, off: nat, data: seq<byte>) returns (r: Result, ghost t: Trace)
      requires Valid()
      modifies region`cursors, meta, meta.replicator, region.disks.Values
      ensures Valid() && AllGenuine(t.metas)
      ensures WriteStep(Cfg(), old(Now()), inode, off, data, t, r, Now())
    {
      t := Trace(None, 0, Now(), []);
      if inode !in meta.inodes {
        return Err(NotFound), t;
      }
      var rec := meta.inodes[inode];
      if !rec.mode.Writable? {
        return Err(WrongMode), t;
      }
      var read := region.ReadFullContent(rec);
      if read.None? {
        return Err(Io), t;
      }
      var content := read.value;
      var end := off + |data|;
      if |content| < end {
        content := content + Zeros(end - |content|);
      }
      content := content[..off] + data + content[end..];
      assert content == Splice(read.value, off, data);
      r, t := Rewrite(inode, false, content);
    }
  }
}

/** Consequences of the pool invariant over whole runs: live regions never overlap, modes only move
    forward, and a file that is not yet Writable only ever grows at its end. */
module PoolHistory {
  import opened Proto
  import opened Crc32c
  import opened Store
  import opened PoolModel
  import opened PoolInvariant
  import opened PoolRefinement

  // ---- how a call changes the records ----

  datatype Change =
    | NoData
    | Grew(inode: InodeId, chunk: ChunkPointer, ids: seq<DiskId>)
    | Rewrote(inode: InodeId, xs: seq<Extent>, ids: seq<DiskId>)

  ghost predicate FreshReplicas(s: State, rs: seq<Replica>, ids: seq<DiskId>)
  {
    && (forall id :: id in ids ==> id in s.cursors)
    && (forall i, j :: 0 <= i < j < |ids| ==> ids[i] != ids[j])
    && rs == ReplicasAt(s, ids)
  }

  /** Existing files keep their data and their modes do not move back; new files are empty. */
  ghost predicate SameData(t: Tables, t': Tables)
  {
    && (forall i :: i in t.inodes ==>
          i in t'.inodes && t'.inodes[i].data == t.inodes[i].data
              && ModeCode(t.inodes[i].mode) <= ModeCode(t'.inodes[i].mode))
    && (forall i :: i in t'.inodes && i !in t.inodes ==> t'.inodes[i].data == ChunkLog([]))
  }

  ghost predicate Changed(s: State, s': State, c: Change)
  {
    var t, t' := s.tables, s'.tables;
    match c
    case NoData => SameData(t, t')
    case Grew(i, chunk, ids) =>
      && i in t.inodes && t.inodes[i].data.ChunkLog? && FreshReplicas(s, chunk.replicas, ids)
      && t'.inodes == t.inodes[i := t.inodes[i].(data := ChunkLog(t.inodes[i].data.chunks + [chunk]),
                                                 size := t.inodes[i].size + chunk.len)]
    case Rewrote(i, xs, ids) =>
      && i in t.inodes && |xs| <= 1 && (|xs| == 1 ==> FreshReplicas(s, xs[0].replicas, ids))
      && i in t'.inodes && t'.inodes[i].mode.Writable? && t'.inodes[i].data == Extents(xs)
      && t'.inodes == t.inodes[i := t'.inodes[i]]
  }

  lemma SameDataTrans(a: Tables, b: Tables, c: Tables)
    requires SameData(a, b) && SameData(b, c)
    ensures SameData(a, c)
  {
  }

  /** A metadata operation that moves no data. */
  lemma MetaSameData(s: State, m: Issued, s': State)
    requires MetaStep(s, m, s') && WellFiled(s.tables)
    requires m.result.Done? ==> m.op.Link? || m.op.Unlink? || m.op.BeginConvert? || m.op.SetRedundancyScheme?
                                || (m.op.CreateInode? && m.op.rec.inode !in s.tables.inodes
                                    && m.op.rec.data == ChunkLog([]))
    ensures SameData(s.tables, s'.tables)
  {
    if m.result.Done? && OnInode(m.op) {
      Applied(s.tables, m.op, s'.tables);
      OneWayModes(s.tables.inodes[m.op.inode].mode);
    }
  }

  lemma CreateChange(s: State, parent: InodeId, name: seq<byte>, rec: InodeRecord, t: Trace, r: Result, s': State)
    requires Inv(s) && CreateStep(s, parent, name, rec, t, r, s') && rec.data == ChunkLog([])
    ensures SameData(s.tables, s'.tables)
  {
    var a := Allocated(s);
    InvFiled(s);
    MetaSameData(a, t.metas[0], t.mid);
    if t.metas[0].result.Done? {
      assert WellFiled(t.mid.tables);
      MetaSameData(t.mid, t.metas[1], s');
      SameDataTrans(a.tables, t.mid.tables, s'.tables);
    }
  }

  lemma AppendChange(cfg: Config, s: State, inode: InodeId, payload: seq<byte>, t: Trace, r: Result, s': State)
    returns (c: Change)
    requires Inv(s) && PlacesApart(cfg) && AppendStep(cfg, s, inode, payload, t, r, s')
    ensures Changed(s, s', c) && !c.Rewrote? && (c.Grew? ==> c.inode == inode)
  {
    if r.Ok? {
      AppendFacts(cfg, s, inode, payload, t, s');
      c := AppendedChange(cfg, s, inode, payload, t.ids.value, t.mid, t.metas[0], s');
    } else {
      c := NoData;
    }
  }

  lemma AppendedChange(cfg: Config, s: State, inode: InodeId, payload: seq<byte>, ids: seq<DiskId>, mid: State,
                       m: Issued, s': State)
    returns (c: Change)
    requires Inv(s) && PlacesApart(cfg) && Appended(cfg, s, inode, payload, ids, mid, m, s')
    ensures Changed(s, s', c) && c.Grew? && c.inode == inode
  {
    var rec := s.tables.inodes[inode];
    assert RecordOk(s, inode, rec);
    assert ApartIn(cfg.disks, ids);
    ChunkChange(s, s', inode, m.op.chunk, ids);
    c := Grew(inode, m.op.chunk, ids);
  }

  lemma ChunkChange(s: State, s': State, inode: InodeId, chunk: ChunkPointer, ids: seq<DiskId>)
    requires Inv(s) && inode in s.tables.inodes && s.tables.inodes[inode].data.ChunkLog?
    requires ApplyOp(s.tables, AppendChunk(inode, chunk)) == Some(s'.tables) && FreshReplicas(s, chunk.replicas, ids)
    ensures Changed(s, s', Grew(inode, chunk, ids))
  {
    InvFiled(s);
    Applied(s.tables, AppendChunk(inode, chunk), s'.tables);
  }

  lemma ExtentsChange(s: State, s': State, inode: InodeId, convert: bool, xs: seq<Extent>, ids: seq<DiskId>)
    requires Inv(s) && inode in s.tables.inodes
    requires ApplyOp(s.tables, ExtentsOp(convert, inode, xs)) == Some(s'.tables)
    requires |xs| <= 1 && (|xs| == 1 ==> FreshReplicas(s, xs[0].replicas, ids))
    ensures Changed(s, s', Rewrote(inode, xs, ids))
  {
    InvFiled(s);
    Applied(s.tables, ExtentsOp(convert, inode, xs), s'.tables);
    OneWayModes(s.tables.inodes[inode].mode);
  }

  lemma RewriteChange(cfg: Config, s: State, inode: InodeId, convert: bool, content: seq<byte>, t: Trace, r: Result,
                      s': State)
    returns (c: Change)
    requires Inv(s) && PlacesApart(cfg) && inode in s.tables.inodes
    requires RewriteStep(cfg, s, inode, convert, content, t, r, s') && WalFits(s, t)
    ensures Changed(s, s', c) && !c.Grew? && (c.Rewrote? ==> c.inode == inode)
  {
    if !r.Ok? {
      c := NoData;
    } else {
      RewriteStored(cfg, s, inode, convert, content, t, s');
      if content == [] {
        c := Rewrote(inode, [], []);
        ExtentsChange(s, s', inode, convert, [], []);
      } else {
        var ids := t.ids.value;
        var x := Extent(0, |content| % U32, ReplicasAt(s, ids), Checksum(content));
        RewriteDistinct(cfg, s, inode, convert, content, t, s');
        c := Rewrote(inode, [x], ids);
        ExtentsChange(s, s', inode, convert, [x], ids);
      }
    }
  }

  lemma RewriteDistinct(cfg: Config, s: State, inode: InodeId, convert: bool, content: seq<byte>, t: Trace, s': State)
    requires Inv(s) && PlacesApart(cfg) && inode in s.tables.inodes && content != []
    requires RewriteStep(cfg, s, inode, convert, content, t, Ok, s')
    ensures t.ids.Some? && forall i, j :: 0 <= i < j < |t.ids.value| ==> t.ids.value[i] != t.ids.value[j]
  {
    assert RecordOk(s, inode, s.tables.inodes[inode]);
    assert ApartIn(cfg.disks, t.ids.value);
  }

  /** Every call is one of: no data moved, one chunk appended, one file rewritten. */
  lemma StepChange(cfg: Config, s: State, call: Call, t: Trace, r: Result, s': State) returns (c: Change)
    requires Inv(s) && PlacesApart(cfg) && Step(cfg, s, call, t, r, s') && WalFits(s, t)
    ensures Changed(s, s', c)
    ensures c.Grew? ==> call.AppendTo? && call.inode == c.inode
    ensures c.Rewrote? ==> s.tables.inodes[c.inode].mode != AppendOnly
  {
    c := NoData;
    InvFiled(s);
    match call
    case Create(parent, name, scheme, uid, gid, unixMode, now) =>
      CreateChange(s, parent, name, NewFile(s.tables.nextInode, scheme, uid, gid, unixMode, now), t, r, s');
    case Remove(parent, name) => MetaSameData(s, t.metas[0], s');
    case SetPolicy(inode, scheme) => MetaSameData(s, t.metas[0], s');
    case StartConversion(inode) => MetaSameData(s, t.metas[0], s');
    case AppendTo(inode, payload) => c := AppendChange(cfg, s, inode, payload, t, r, s');
    case FinishConversion(inode) =>
      if inode in s.tables.inodes && s.tables.inodes[inode].mode.Converting? {
        assert RecordOk(s, inode, s.tables.inodes[inode]);
        RecordReadable(s, inode, s.tables.inodes[inode]);
        c := RewriteChange(cfg, s, inode, true, Content(s.images, s.tables.inodes[inode]).value, t, r, s');
      }
    case WriteAt(inode, off, data) =>
      if inode in s.tables.inodes && s.tables.inodes[inode].mode.Writable? {
        assert RecordOk(s, inode, s.tables.inodes[inode]);
        RecordReadable(s, inode, s.tables.inodes[inode]);
        c := RewriteChange(cfg, s, inode, false, Splice(Content(s.images, s.tables.inodes[inode]).value, off, data), t,
                           r, s');
      }
  }

  // ---- live regions ----

  /** One stored copy: replica `replica` of chunk or extent `index` of a file. */
  datatype Place = Place(inode: InodeId, index: nat, replica: nat)

  /** The bytes it occupies in a disk's data region, header included. */
  datatype Region = Region(disk: DiskId, start: nat, len: nat)

  function ReplicasOf(d: DataLocator, k: nat): seq<Replica>
  {
    match d
    case ChunkLog(cs) => if k < |cs| then cs[k].replicas else []
    case Extents(xs) => if k < |xs| then xs[k].replicas else []
  }

  function LengthOf(d: DataLocator, k: nat): nat
  {
    match d
    case ChunkLog(cs) => if k < |cs| then RECORD_HEADER + cs[k].len else 0
    case Extents(xs) => if k < |xs| then xs[k].len else 0
  }

  ghost predicate Live(s: State, p: Place)
  {
    p.inode in s.tables.inodes && p.replica < |ReplicasOf(s.tables.inodes[p.inode].data, p.index)|
  }

  ghost function RegionOf(s: State, p: Place): Region
    requires Live(s, p)
  {
    var d := s.tables.inodes[p.inode].data;
    var r := ReplicasOf(d, p.index)[p.replica];
    Region(r.disk, r.offset, LengthOf(d, p.index))
  }

  predicate Apart(a: Region, b: Region)
  {
    a.disk != b.disk || a.start + a.len <= b.start || b.start + b.len <= a.start
  }

  /** No two live copies share a byte of any disk. */
  ghost predicate Disjoint(s: State)
  {
    forall p, q :: Live(s, p) && Live(s, q) && p != q ==> Apart(RegionOf(s, p), RegionOf(s, q))
  }

  /** Live copies lie below the data cursor of their disk. */
  lemma LiveBelowCursor(s: State, p: Place)
    requires Inv(s) && Live(s, p)
    ensures RegionOf(s, p).disk in s.cursors
    ensures RegionOf(s, p).start + RegionOf(s, p).len <= s.cursors[RegionOf(s, p).disk]
  {
    var rec := s.tables.inodes[p.inode];
    assert RecordOk(s, p.inode, rec);
    match rec.data
    case ChunkLog(cs) =>
      var c := cs[p.index];
      assert Stored(s, c.replicas, RECORD_HEADER, c.len, c.checksum);
      assert ReplicaHolds(s, c.replicas[p.replica], RECORD_HEADER,
                          ReadReplicated(s.images, c.replicas, RECORD_HEADER, c.len).value);
    case Extents(xs) =>
      var x := xs[p.index];
      assert Stored(s, x.replicas, 0, x.len, x.checksum);
      assert ReplicaHolds(s, x.replicas[p.replica], 0, ReadReplicated(s.images, x.replicas, 0, x.len).value);
  }

  /** A live copy after the step is an old one in its old place, or a new one at an old cursor. */
  ghost predicate OldOrNew(s: State, s': State, inode: InodeId, index: nat, p: Place)
    requires Live(s', p)
  {
    || (Live(s, p) && RegionOf(s', p) == RegionOf(s, p))
    || (p.inode == inode && p.index == index && RegionOf(s', p).disk in s.cursors
        && RegionOf(s', p).start >= s.cursors[RegionOf(s', p).disk])
  }

  lemma DisjointExtends(s: State, s': State, inode: InodeId, index: nat)
    requires Inv(s) && Disjoint(s)
    requires forall p :: Live(s', p) ==> OldOrNew(s, s', inode, index, p)
    requires forall p, q ::
               Live(s', p) && Live(s', q) && p != q && p.inode == q.inode == inode && p.index == q.index == index
               ==> RegionOf(s', p).disk != RegionOf(s', q).disk
    ensures Disjoint(s')
  {
    forall p, q | Live(s', p) && Live(s', q) && p != q
      ensures Apart(RegionOf(s', p), RegionOf(s', q))
    {
      assert OldOrNew(s, s', inode, index, p) && OldOrNew(s, s', inode, index, q);
      if Live(s, p) && RegionOf(s', p) == RegionOf(s, p) {
        LiveBelowCursor(s, p);
      }
      if Live(s, q) && RegionOf(s', q) == RegionOf(s, q) {
        LiveBelowCursor(s, q);
      }
    }
  }

  lemma FreshDistinct(s: State, rs: seq<Replica>, ids: seq<DiskId>, i: nat, j: nat)
    requires FreshReplicas(s, rs, ids) && i < |rs| && j < |rs| && i != j
    ensures rs[i].disk != rs[j].disk
  {
    assert rs[i].disk == ids[i] && rs[j].disk == ids[j];
  }

  lemma GrewDisjoint(s: State, s': State, c: Change)
    requires Inv(s) && Disjoint(s) && c.Grew? && Changed(s, s', c)
    ensures Disjoint(s')
  {
    var cs := s.tables.inodes[c.inode].data.chunks;
    var k := |cs|;
    forall p | Live(s', p)
      ensures OldOrNew(s, s', c.inode, k, p)
    {
      if p.inode == c.inode {
        var d' := s'.tables.inodes[c.inode].data;
        assert d'.chunks == cs + [c.chunk];
        if p.index < k { assert d'.chunks[p.index] == cs[p.index]; }
      }
    }
    forall p, q | Live(s', p) && Live(s', q) && p != q && p.inode == q.inode == c.inode && p.index == q.index == k
      ensures RegionOf(s', p).disk != RegionOf(s', q).disk
    {
      FreshDistinct(s, c.chunk.replicas, c.ids, p.replica, q.replica);
    }
    DisjointExtends(s, s', c.inode, k);
  }

  lemma RewroteDisjoint(s: State, s': State, c: Change)
    requires Inv(s) && Disjoint(s) && c.Rewrote? && Changed(s, s', c)
    ensures Disjoint(s')
  {
    forall p | Live(s', p)
      ensures OldOrNew(s, s', c.inode, 0, p)
    {
      if p.inode == c.inode {
        assert s'.tables.inodes[c.inode].data == Extents(c.xs);
      }
    }
    forall p, q | Live(s', p) && Live(s', q) && p != q && p.inode == q.inode == c.inode && p.index == q.index == 0
      ensures RegionOf(s', p).disk != RegionOf(s', q).disk
    {
      FreshDistinct(s, c.xs[0].replicas, c.ids, p.replica, q.replica);
    }
    DisjointExtends(s, s', c.inode, 0);
  }

  lemma NoDataDisjoint(s: State, s': State)
    requires Inv(s) && Disjoint(s) && SameData(s.tables, s'.tables)
    ensures Disjoint(s')
  {
    forall p, q | Live(s', p) && Live(s', q) && p != q
      ensures Apart(RegionOf(s', p), RegionOf(s', q))
    {
      assert Live(s, p) && Live(s, q);
      assert RegionOf(s, p) == RegionOf(s', p) && RegionOf(s, q) == RegionOf(s', q);
    }
  }

  lemma StepDisjoint(cfg: Config, s: State, call: Call, t: Trace, r: Result, s': State)
    requires Inv(s) && Disjoint(s) && PlacesApart(cfg) && Step(cfg, s, call, t, r, s') && WalFits(s, t)
    ensures Disjoint(s')
  {
    var c := StepChange(cfg, s, call, t, r, s');
    match c
    case NoData => NoDataDisjoint(s, s');
    case Grew(_, _, _) => GrewDisjoint(s, s', c);
    case Rewrote(_, _, _) => RewroteDisjoint(s, s', c);
  }

  lemma DisjointAt(cfg: Config, states: seq<State>, events: seq<Event>, n: nat, next: nat)
    requires PlacesApart(cfg) && Run(cfg, states, events) && next == n + 1 < |states|
    requires Inv(states[n]) && Disjoint(states[n])
    ensures Inv(states[next]) && Disjoint(states[next])
  {
    assert RunsAt(cfg, states, events, n);
    var e := events[n];
    StepDisjoint(cfg, states[n], e.call, e.trace, e.result, states[next]);
    StepRefines(cfg, states[n], e.call, e.trace, e.result, states[next]);
  }

  lemma {:induction false} RunDisjoint(cfg: Config, states: seq<State>, events: seq<Event>, n: nat)
    requires PlacesApart(cfg) && Run(cfg, states, events) && Inv(states[0]) && Disjoint(states[0]) && n < |states|
    ensures Inv(states[n]) && Disjoint(states[n])
  {
    if n > 0 {
      var before := n - 1;
      RunDisjoint(cfg, states, events, before);
      DisjointAt(cfg, states, events, before, n);
    }
  }

  /** All copies of one chunk or extent. */
  ghost predicate CopiesAgree(s: State, p: Place)
    requires Live(s, p)
  {
    var d := s.tables.inodes[p.inode].data;
    var header := if d.ChunkLog? then RECORD_HEADER else 0;
    var len := LengthOf(d, p.index) - header;
    0 <= len && Stored(s, ReplicasOf(d, p.index), header, len,
                       if d.ChunkLog? then d.chunks[p.index].checksum else d.extents[p.index].checksum)
  }

  lemma LiveAgrees(s: State, p: Place)
    requires Inv(s) && Live(s, p)
    ensures CopiesAgree(s, p)
  {
    var rec := s.tables.inodes[p.inode];
    assert RecordOk(s, p.inode, rec);
    match rec.data
    case ChunkLog(cs) => ChunkAgrees(s, cs, p.index);
    case Extents(_) =>
  }

  lemma ChunkAgrees(s: State, cs: seq<ChunkPointer>, k: nat)
    requires ChunksOk(s, cs) && k < |cs|
    ensures Stored(s, cs[k].replicas, RECORD_HEADER, cs[k].len, cs[k].checksum)
  {
  }

  /** In every run, failed and partial writes included: live copies are below their disk's cursor, no
      two of them overlap, and the copies of a chunk or extent are on distinct disks and hold identical
      bytes with the recorded checksum. */
  lemma RunRegions(cfg: Config, states: seq<State>, events: seq<Event>, n: nat, p: Place, q: Place)
    requires PlacesApart(cfg) && Run(cfg, states, events) && Inv(states[0]) && Disjoint(states[0]) && n < |states|
    requires Live(states[n], p) && Live(states[n], q)
    ensures p != q ==> Apart(RegionOf(states[n], p), RegionOf(states[n], q))
    ensures RegionOf(states[n], p).disk in states[n].cursors
    ensures RegionOf(states[n], p).start + RegionOf(states[n], p).len <= states[n].cursors[RegionOf(states[n], p).disk]
    ensures CopiesAgree(states[n], p)
  {
    RunDisjoint(cfg, states, events, n);
    LiveBelowCursor(states[n], p);
    LiveAgrees(states[n], p);
  }

  // ---- append-only history ----

  /** Modes never move back and files never disappear. */
  lemma StepModes(cfg: Config, s: State, call: Call, t: Trace, r: Result, s': State, i: InodeId)
    requires Inv(s) && PlacesApart(cfg) && Step(cfg, s, call, t, r, s') && WalFits(s, t)
    requires i in s.tables.inodes
    ensures i in s'.tables.inodes && ModeCode(s.tables.inodes[i].mode) <= ModeCode(s'.tables.inodes[i].mode)
  {
    var c := StepChange(cfg, s, call, t, r, s');
  }

  lemma MeansAppendOnly(f: Files, call: Call, r: Result, f': Files, i: InodeId)
    requires Means(f, call, r, f') && i in f && !(call.WriteAt? && r.Ok? && call.inode == i)
    ensures i in f' && f[i] <= f'[i]
  {
  }

  lemma WriteNeedsWritable(cfg: Config, s: State, inode: InodeId, off: nat, data: seq<byte>, t: Trace, s': State)
    requires WriteStep(cfg, s, inode, off, data, t, Ok, s')
    ensures inode in s.tables.inodes && s.tables.inodes[inode].mode.Writable?
  {
  }

  /** Until a file is Writable, a call can only add to its end. */
  lemma StepAppendOnly(cfg: Config, s: State, call: Call, t: Trace, r: Result, s': State, i: InodeId)
    requires Inv(s) && PlacesApart(cfg) && Step(cfg, s, call, t, r, s') && WalFits(s, t) && CallFits(s, call)
    requires i in s.tables.inodes && !s.tables.inodes[i].mode.Writable?
    ensures i in FilesOf(s) && i in FilesOf(s') && FilesOf(s)[i] <= FilesOf(s')[i]
  {
    StepRefines(cfg, s, call, t, r, s');
    AllReadable(s);
    if call.WriteAt? && r.Ok? {
      WriteNeedsWritable(cfg, s, call.inode, call.off, call.data, t, s');
    }
    MeansAppendOnly(FilesOf(s), call, r, FilesOf(s'), i);
  }

  ghost predicate GrowsTo(s: State, s': State, i: InodeId)
  {
    && i in s.tables.inodes && i in s'.tables.inodes
    && ModeCode(s.tables.inodes[i].mode) <= ModeCode(s'.tables.inodes[i].mode)
    && (!s'.tables.inodes[i].mode.Writable? ==>
          i in FilesOf(s) && i in FilesOf(s') && FilesOf(s)[i] <= FilesOf(s')[i])
  }

  lemma GrowsTrans(a: State, b: State, c: State, i: InodeId)
    requires GrowsTo(a, b, i) && GrowsTo(b, c, i)
    ensures GrowsTo(a, c, i)
  {
  }

  lemma GrowsRefl(s: State, i: InodeId)
    requires Inv(s) && i in s.tables.inodes
    ensures GrowsTo(s, s, i)
  {
    AllReadable(s);
  }

  lemma StepGrows(cfg: Config, s: State, call: Call, t: Trace, r: Result, s': State, i: InodeId)
    requires PlacesApart(cfg) && Inv(s) && Step(cfg, s, call, t, r, s') && WalFits(s, t) && CallFits(s, call)
    requires i in s.tables.inodes
    ensures GrowsTo(s, s', i)
  {
    StepModes(cfg, s, call, t, r, s', i);
    if !s'.tables.inodes[i].mode.Writable? {
      StepAppendOnly(cfg, s, call, t, r, s', i);
    }
  }

  /** The file has grown between two moments of a run. */
  ghost predicate GrewBetween(states: seq<State>, m: nat, n: nat, i: InodeId)
  {
    m < |states| && n < |states| && GrowsTo(states[m], states[n], i)
  }

  lemma GrewLonger(states: seq<State>, m: nat, k: nat, n: nat, i: InodeId)
    requires GrewBetween(states, m, k, i) && GrewBetween(states, k, n, i)
    ensures GrewBetween(states, m, n, i)
  {
    GrowsTrans(states[m], states[k], states[n], i);
  }

  lemma RunGrowsAt(cfg: Config, states: seq<State>, events: seq<Event>, n: nat, next: nat, i: InodeId)
    requires PlacesApart(cfg) && Run(cfg, states, events) && Inv(states[0]) && next == n + 1 < |states|
    requires i in states[n].tables.inodes
    ensures GrewBetween(states, n, next, i)
  {
    RunInv(cfg, states, events, n);
    assert RunsAt(cfg, states, events, n);
    var e := events[n];
    StepGrows(cfg, states[n], e.call, e.trace, e.result, states[next], i);
  }

  lemma {:induction false} RunGrows(cfg: Config, states: seq<State>, events: seq<Event>, m: nat, n: nat, i: InodeId)
    requires PlacesApart(cfg) && Run(cfg, states, events) && Inv(states[0]) && m <= n < |states|
    requires i in states[m].tables.inodes
    ensures GrewBetween(states, m, n, i)
    decreases n
  {
    if m == n {
      RunInv(cfg, states, events, m);
      GrowsRefl(states[m], i);
    } else {
      var before := n - 1;
      RunGrows(cfg, states, events, m, before, i);
      RunGrowsAt(cfg, states, events, before, n, i);
      GrewLonger(states, m, before, n, i);
    }
  }

  /** In every run modes only move forward, and each earlier content of a file that is not yet Writable
      is a prefix of each later one. */
  lemma RunAppendOnly(cfg: Config, states: seq<State>, events: seq<Event>, m: nat, n: nat, i: InodeId)
    requires PlacesApart(cfg) && Run(cfg, states, events) && Inv(states[0]) && m <= n < |states|
    requires i in states[m].tables.inodes
    ensures GrowsTo(states[m], states[n], i)
  {
    RunGrows(cfg, states, events, m, n, i);
  }

  /** A call that fails leaves every existing file readable and unchanged, wherever it failed. */
  lemma FailureIsAtomic(cfg: Config, s: State, call: Call, t: Trace, r: Result, s': State, i: InodeId)
    requires Inv(s) && PlacesApart(cfg) && Step(cfg, s, call, t, r, s') && WalFits(s, t) && CallFits(s, call)
    requires r.Err? && i in s.tables.inodes
    ensures i in FilesOf(s) && i in FilesOf(s') && FilesOf(s')[i] == FilesOf(s)[i]
  {
    StepRefines(cfg, s, call, t, r, s');
    AllReadable(s);
  }
}

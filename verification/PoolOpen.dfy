/** Formatting a new pool and opening an existing one. */
module PoolOpen {
  import opened Proto
  import opened Arith
  import opened Bytes
  import opened Framing
  import opened Codec
  import opened Store
  import opened PoolModel
  import opened PoolInvariant
  import opened PoolRefinement
  import opened PoolLog
  import opened PoolReopen
  import opened PoolLife
  import opened PoolConfig
  import opened Placement
  import opened PoolPlacement
  import History = PoolHistory
  import PoolReplication
  import Text = RedundancySpec
  import Replication
  import Logs
  import D = Disk
  import M = MetaStore
  import R = Region
  import P = Pool

  const DISK_CAPACITY: nat := SEG + SEGMENT_SIZE
  const ROOT_INODE: nat := 1
  /** Directory bit and rwxr-xr-x. */
  const ROOT_UNIX_MODE: nat := 16877
  /** Bit pattern of the double 1.0. */
  const UNIT_WEIGHT: nat := 0x3ff0_0000_0000_0000

  /** The root directory: Writable from the start, no data, two replicas where there are two disks. */
  function RootRecord(disks: nat, now: nat): InodeRecord
  {
    InodeRecord(ROOT_INODE, Writable, 0, Replicated(Text.AnySlots(Min(2, disks))), Extents([]), 0, 0, ROOT_UNIX_MODE,
                now)
  }

  function GroupFor(disks: nat): (g: MetaGroup)
    ensures g.primary == 1 && g.epoch == 0 && (g.backup.Some? <==> disks > 1) && g.backup in {None, Some(2)}
  {
    MetaGroup(1, if disks >= 2 then Some(2) else None, 0)
  }

  function EntryOf(i: nat, cls: DiskClass): DiskEntry
  {
    DiskEntry(DiskRoles(true, i < 2), Active, cls, UNIT_WEIGHT, 0, DISK_CAPACITY)
  }

  // ---- a freshly formatted pool ----

  ghost predicate Blank(s: State)
  {
    && s.images.Keys == s.cursors.Keys && s.group.primary in s.images
    && (s.group.backup.Some? ==> s.group.backup.value in s.images && s.group.backup.value != s.group.primary)
    && (forall id :: id in s.images ==> s.images[id] == Zeros(DISK_CAPACITY) && s.cursors[id] == 0)
    && s.walCursor == 0 && s.tables == EMPTY
  }

  lemma NothingFramed(image: seq<byte>)
    requires SEG <= |image|
    ensures FramedDisk(image, 0)
  {
    assert FramedBy(image, 0, []);
  }

  lemma NothingLogged(s: State)
    requires s.group.primary in s.images && s.walCursor == 0 && s.tables == EMPTY
    ensures GoodLog(s, [])
  {
    assert Entries([]) == [] && Ops([]) == [];
  }

  /** Blank disks under empty tables satisfy every invariant. */
  lemma BlankLife(s: State)
    requires Blank(s)
    ensures LifeInv(s) && Framed(s) && ZeroPastLog(s)
  {
    NothingLogged(s);
    forall id | id in s.cursors
      ensures FramedDisk(s.images[id], s.cursors[id])
    {
      NothingFramed(s.images[id]);
    }
    assert HasLog(s) by {
      var none: Log := [];
      assert GoodLog(s, none);
    }
  }

  /** And the metadata group starts out replicated, with an empty log. */
  lemma BlankReplicated(s: State)
    requires Blank(s)
    ensures PoolReplication.Replicated(s, [], [])
  {
    assert Replication.Records([]) == [];
  }

  lemma BlankReopens(image: seq<byte>)
    requires image == Zeros(DISK_CAPACITY)
    ensures Reopen(image) == Some(EMPTY) && Scan(Wal, image, 0, 0).resumeAt == 0
  {
    assert Entries([]) == [] && Ops([]) == [];
    ZeroTailIsClean(Wal, image, 0, 0);
    ReopenIsReplay(image, []);
  }

  lemma {:induction false} SlotsSize(n: nat)
    ensures |PutAll(PutSlot, Text.AnySlots(n))| == n
  {
    if n > 0 {
      assert Text.AnySlots(n)[1..] == Text.AnySlots(n - 1);
      SlotsSize(n - 1);
    }
  }

  /** The root's log entry is small. */
  lemma RootEntrySize(disks: nat, now: nat, entry: seq<byte>)
    requires M.EntryFor(CreateInode(RootRecord(disks, now)), entry)
    ensures |entry| <= WAL_CAPACITY
  {
    var op := CreateInode(RootRecord(disks, now));
    var order :| M.EncodesAs(op, order, entry);
    SlotsSize(Min(2, disks));
    assert |PutScheme(op.rec.redundancy)| <= 7;
    assert |PutLocator(op.rec.data)| == 5;
    assert |PutInode(op.rec)| <= 60;
    assert |PutOp(op, order)| <= 61;
  }

  lemma RootFits(disks: nat, now: nat)
    requires now < U64
    ensures OpFits(CreateInode(RootRecord(disks, now)))
  {
  }

  lemma RootRecorded(s: State, rec: InodeRecord, s': State)
    requires Inv(s) && Kept(s, s') && Shape(s') && s'.walCursor <= WAL_CAPACITY && s.tables == EMPTY
    requires s'.tables == Tables(map[rec.inode := rec], map[], 2)
    requires rec.inode == ROOT_INODE && rec.mode.Writable? && rec.size == 0 && rec.data == Extents([])
             && SchemeOk(rec.redundancy)
    ensures Inv(s') && FilesOf(s') == map[ROOT_INODE := []]
  {
    assert RecordOk(s', rec.inode, rec);
    assert s'.tables.inodes == s.tables.inodes[rec.inode := rec];
    OneRecord(s, s', rec.inode, rec);
  }

  lemma RootDisjoint(s': State, rec: InodeRecord)
    requires s'.tables == Tables(map[rec.inode := rec], map[], 2) && rec.data == Extents([])
    ensures History.Disjoint(s')
  {
  }

  /** The tables hold one inode, the root: a Writable directory without data, two unconstrained replicas where
      there are two disks, owner 0, rwxr-xr-x. */
  ghost predicate RootOnly(t: Tables, disks: nat, now: nat)
  {
    && t.inodes.Keys == {1} && t.dirs == map[] && t.nextInode == 2
    && var rec := t.inodes[1];
       && rec.inode == 1 && rec.mode.Writable? && rec.size == 0 && rec.data == Extents([]) && rec.mtime == now
       && rec.uid == 0 && rec.gid == 0 && rec.unixMode == 0x4000 + 7 * 64 + 5 * 8 + 5
       && rec.redundancy.Replicated? && |rec.redundancy.slots| == (if disks >= 2 then 2 else disks)
       && forall x :: x in rec.redundancy.slots ==> x == AnyOfClass(None)
  }

  /** Every invariant of this model holds, and the one file is the empty root directory. */
  ghost predicate IsFormatted(s: State, disks: nat, now: nat)
  {
    && LifeInv(s) && Framed(s) && ZeroPastLog(s) && PoolReplication.IsReplicated(s)
    && FilesOf(s) == map[ROOT_INODE := []] && RootOnly(s.tables, disks, now)
  }

  /** The root directory is the first log entry of a formatted pool. */
  lemma RootCreated(s: State, disks: nat, now: nat, m: Issued, s': State)
    requires Blank(s) && now < U64 && 0 < disks
    requires m.op == CreateInode(RootRecord(disks, now)) && m.result.Done? && M.EntryFor(m.op, m.entry)
             && MetaStep(s, m, s')
    ensures IsFormatted(s', disks, now) && s'.group.primary == s.group.primary
  {
    RootTables(s, disks, now, m, s');
    var rec := RootRecord(disks, now);
    BlankLife(s);
    RootEntrySize(disks, now, m.entry);
    RootFits(disks, now);
    MetaKeeps(s, m, s');
    MetaFramed(s, m, s');
    MetaKeepsZero(s, m, s');
    RootRecorded(s, rec, s');
    RootDisjoint(s', rec);
    NothingLogged(s);
    var ls := MetaGoodLog(s, [], m, s');
    assert GoodLog(s', ls);
    RootReplicated(s, m, s');
  }

  lemma RootTables(s: State, disks: nat, now: nat, m: Issued, s': State)
    requires Blank(s) && m.op == CreateInode(RootRecord(disks, now)) && m.result.Done? && MetaStep(s, m, s')
    ensures RootOnly(s'.tables, disks, now) && s'.group.primary == s.group.primary
  {
  }

  lemma RootReplicated(s: State, m: Issued, s': State)
    requires Blank(s) && M.EntryFor(m.op, m.entry) && MetaStep(s, m, s') && |m.entry| <= WAL_CAPACITY
    ensures PoolReplication.IsReplicated(s')
  {
    BlankReplicated(s);
    var log, fenced := PoolReplication.MetaReplicates(s, [], [], m, s');
    assert PoolReplication.Replicated(s', log, fenced);
  }

  // ---- the disks table of both ----

  /** The tables built for the first `n` disks: ids from 1, each disk under its own id. */
  ghost predicate Built(n: nat, disks: map<DiskId, D.Disk>, entries: map<DiskId, DiskEntry>, cursors: map<DiskId, nat>)
  {
    && disks.Keys == entries.Keys == cursors.Keys && |entries| == n
    && (forall id :: id in disks <==> 1 <= id <= n)
    && (forall id :: id in disks ==> disks[id].id == id)
  }

  /** Disk number `id` of a pool: holds data, the first two also metadata; active, of unit weight, empty. */
  predicate DescribedAs(e: DiskEntry, id: DiskId, cls: DiskClass)
  {
    && e.roles.data && (e.roles.metadata <==> id <= 2) && e.state.Active? && e.cls == cls
    && e.weight == 0x3ff0_0000_0000_0000 && e.usedBytes == 0 && e.capacityBytes == SEG + SEGMENT_SIZE
  }

  /** The first `n` disks are described by their class, in order. */
  ghost predicate Described(classes: seq<DiskClass>, n: nat, entries: map<DiskId, DiskEntry>)
  {
    forall id: DiskId {:trigger DescribedAt(classes, n, entries, id)} :: DescribedAt(classes, n, entries, id)
  }

  ghost predicate DescribedAt(classes: seq<DiskClass>, n: nat, entries: map<DiskId, DiskEntry>, id: DiskId)
  {
    id in entries ==> 1 <= id <= n <= |classes| && DescribedAs(entries[id], id, classes[id - 1])
  }

  lemma DescribedNext(classes: seq<DiskClass>, n: nat, entries: map<DiskId, DiskEntry>)
    requires n < |classes| && Described(classes, n, entries)
    ensures Described(classes, n + 1, entries[n + 1 := EntryOf(n, classes[n])])
  {
    var next, entries' := n + 1, entries[n + 1 := EntryOf(n, classes[n])];
    forall id: DiskId
      ensures DescribedAt(classes, next, entries', id)
    {
      assert DescribedAt(classes, n, entries, id);
    }
  }

  /** The pool places by a map of disks of these classes and by these functions. */
  ghost predicate SetUp(pool: P.Pool, classes: seq<DiskClass>, hash: Hash, placementKey: Key, milli: Milli)
  {
    && Described(classes, |classes|, pool.poolMap.disks) && pool.poolMap.epoch == 0
    && pool.hash == hash && pool.placementKey == placementKey && pool.milli == milli
  }

  /** The disks of a pool of `n`, under the ids 1 to n. */
  ghost predicate BuiltRegion(n: nat, region: R.Region, entries: map<DiskId, DiskEntry>)
    reads region
  {
    Built(n, region.disks, entries, region.cursors)
  }

  /** The first `n` files are filed under their positions, counted from 1. */
  ghost predicate FiledTo(files: seq<D.Disk?>, n: nat, disks: map<DiskId, D.Disk>)
  {
    |disks| == n <= |files| && forall k :: 0 <= k < n ==> FiledAt(files[k], k + 1, disks)
  }

  ghost predicate FiledAt(file: D.Disk?, id: DiskId, disks: map<DiskId, D.Disk>)
  {
    id in disks && disks[id] == file
  }

  ghost predicate Filed(files: seq<D.Disk?>, disks: map<DiskId, D.Disk>)
  {
    FiledTo(files, |files|, disks)
  }

  lemma FiledNext(files: seq<D.Disk?>, n: nat, disks: map<DiskId, D.Disk>)
    requires n < |files| && files[n] != null && FiledTo(files, n, disks) && n + 1 !in disks
    ensures FiledTo(files, n + 1, disks[n + 1 := files[n]])
  {
    var disks' := disks[n + 1 := files[n]];
    assert disks'.Keys == disks.Keys + {n + 1} && |disks'.Keys| == |disks'| && |disks.Keys| == |disks|;
    forall k | 0 <= k < n + 1
      ensures FiledAt(files[k], k + 1, disks')
    {
      if k < n {
        assert FiledAt(files[k], k + 1, disks);
      }
    }
  }

  lemma BuiltFits(n: nat, disks: map<DiskId, D.Disk>, entries: map<DiskId, DiskEntry>, cursors: map<DiskId, nat>)
    requires Built(n, disks, entries, cursors) && n < UNPLACED
    ensures IdsFit(entries)
  {
  }

  lemma BuiltNext(n: nat, disks: map<DiskId, D.Disk>, entries: map<DiskId, DiskEntry>, cursors: map<DiskId, nat>,
                  disk: D.Disk, entry: DiskEntry, cursor: nat)
    requires Built(n, disks, entries, cursors) && disk.id == n + 1
    ensures Built(n + 1, disks[n + 1 := disk], entries[n + 1 := entry], cursors[n + 1 := cursor])
  {
  }

  ghost predicate ResumesAt(image: seq<byte>, cursor: nat)
  {
    Scan(Segment, image, SEG, 0).resumeAt == cursor
  }

  lemma AllResume(images: map<DiskId, seq<byte>>, cursors: map<DiskId, nat>)
    requires images.Keys == cursors.Keys && forall id :: id in images ==> ResumesAt(images[id], cursors[id])
    ensures cursors == ResumedCursors(images)
  {
  }

  /** Creates the disk files of a new pool. */
  method BlankDisks(classes: seq<DiskClass>) returns (region: R.Region, entries: map<DiskId, DiskEntry>)
    ensures fresh(region) && BuiltRegion(|classes|, region, entries) && Described(classes, |classes|, entries)
    ensures forall id :: id in region.disks ==>
            fresh(region.disks[id])
            && region.disks[id].image == Zeros(DISK_CAPACITY)
    ensures forall id :: id in region.cursors ==> region.cursors[id] == 0
  {
    var disks: map<DiskId, D.Disk> := map[];
    var cursors: map<DiskId, nat> := map[];
    entries := map[];
    var i := 0;
    while i < |classes|
      invariant 0 <= i <= |classes| && Built(i, disks, entries, cursors) && Described(classes, i, entries)
      invariant forall id :: id in disks ==> fresh(disks[id]) && disks[id].image == Zeros(DISK_CAPACITY)
      invariant forall id :: id in cursors ==> cursors[id] == 0
    {
      var disk := new D.Disk(i + 1, DISK_CAPACITY);
      BuiltNext(i, disks, entries, cursors, disk, EntryOf(i, classes[i]), 0);
      DescribedNext(classes, i, entries);
      disks := disks[i + 1 := disk];
      entries := entries[i + 1 := EntryOf(i, classes[i])];
      cursors := cursors[i + 1 := 0];
      i := i + 1;
    }
    region := new R.Region(disks, cursors);
  }

  /** The files that could be opened have their position, counted from 1, as their id. */
  ghost predicate Numbered(files: seq<D.Disk?>)
  {
    forall i :: 0 <= i < |files| && files[i] != null ==> files[i].id == i + 1
  }

  ghost predicate OpenedTo(files: seq<D.Disk?>, n: nat)
  {
    forall i :: 0 <= i < n && i < |files| ==> files[i] != null
  }

  ghost predicate AllOpened(files: seq<D.Disk?>)
  {
    OpenedTo(files, |files|)
  }

  /** Opens the disk files of an existing pool and scans each data region; the first file that cannot be
      opened ends it. */
  method ScanDisks(files: seq<D.Disk?>, classes: seq<DiskClass>)
    returns (region: R.Region?, entries: map<DiskId, DiskEntry>)
    requires |files| == |classes| && Numbered(files)
    ensures region != null <==> AllOpened(files)
    ensures region != null ==> fresh(region) && BuiltRegion(|files|, region, entries) && Filed(files, region.disks)
    ensures region != null ==> region.cursors == ResumedCursors(region.Images())
    ensures region != null ==> Described(classes, |classes|, entries)
  {
    var disks: map<DiskId, D.Disk> := map[];
    var cursors: map<DiskId, nat> := map[];
    entries := map[];
    var i := 0;
    while i < |files|
      invariant 0 <= i <= |files| && Built(i, disks, entries, cursors) && Described(classes, i, entries)
      invariant OpenedTo(files, i) && FiledTo(files, i, disks)
      invariant forall id :: id in disks ==> ResumesAt(disks[id].image, cursors[id])
    {
      if files[i] == null {
        return null, entries;
      }
      var scan := Logs.ScanSegment(files[i], SEG);
      FiledNext(files, i, disks);
      BuiltNext(i, disks, entries, cursors, files[i], EntryOf(i, classes[i]), scan.resumeAt);
      DescribedNext(classes, i, entries);
      assert ResumesAt(files[i].image, scan.resumeAt);
      disks := disks[i + 1 := files[i]];
      entries := entries[i + 1 := EntryOf(i, classes[i])];
      cursors := cursors[i + 1 := scan.resumeAt];
      i := i + 1;
    }
    var table := new R.Region(disks, cursors);
    AllResume(table.Images(), cursors);
    region := table;
  }

  /** A pool over these disks whose metadata store is opened from the first of them. */
  method Assemble(n: nat, region: R.Region, entries: map<DiskId, DiskEntry>, ghost classes: seq<DiskClass>, hash: Hash,
                  placementKey: Key, milli: Milli)
    returns (pool: P.Pool?)
    requires 0 < n < UNPLACED && BuiltRegion(n, region, entries) && Described(classes, |classes|, entries)
    ensures pool != null <==> Reopen(region.disks[1].image).Some?
    ensures pool != null ==>
            fresh(pool) && pool.region == region && fresh(pool.meta) && fresh(pool.meta.replicator)
            && pool.Valid()
    ensures pool != null ==> pool.Rest() == State(map[], map[], GroupFor(n),
                                                  Scan(Wal, region.disks[1].image, 0, 0).resumeAt,
                                                  Reopen(region.disks[1].image).value)
    ensures pool != null ==> SetUp(pool, classes, hash, placementKey, milli)
  {
    var backup: D.Disk? := if n >= 2 then region.disks[2] else null;
    BuiltFits(n, region.disks, entries, region.cursors);
    var meta := M.OpenStore(GroupFor(n), region.disks[1], backup);
    if meta == null {
      return null;
    }
    pool := new P.Pool(PoolMap(0, entries), region, meta, hash, placementKey, milli);
  }

  /** A pool over new disk files, with nothing in it yet. */
  method BlankPool(classes: seq<DiskClass>, hash: Hash, placementKey: Key, milli: Milli) returns (pool: P.Pool)
    requires 0 < |classes| < UNPLACED
    ensures fresh(pool) && pool.Valid() && Blank(pool.Now()) && SetUp(pool, classes, hash, placementKey, milli)
    ensures fresh(pool.region) && fresh(pool.meta) && fresh(pool.meta.replicator)
    ensures forall d :: d in pool.region.disks.Values ==> fresh(d)
  {
    var region, entries := BlankDisks(classes);
    BlankReopens(region.disks[1].image);
    pool := Assemble(|classes|, region, entries, classes, hash, placementKey, milli);
  }

  /** `Pool::format_with_classes`: a fresh pool satisfies every invariant of this model and holds one
      file, the empty root directory. Fails without disks or when the first commit fails. */
  method Format(classes: seq<DiskClass>, now: nat, hash: Hash, placementKey: Key, milli: Milli) returns (pool: P.Pool?)
    requires |classes| < UNPLACED && now < U64
    ensures classes == [] ==> pool == null
    ensures pool != null ==> fresh(pool) && pool.Valid() && IsFormatted(pool.Now(), |classes|, now)
    ensures pool != null ==> SetUp(pool, classes, hash, placementKey, milli)
  {
    if classes == [] {
      return null;
    }
    var p := BlankPool(classes, hash, placementKey, milli);
    ghost var s := p.Now();
    var a;
    ghost var m;
    a, m := p.ApplyMeta(CreateInode(RootRecord(|classes|, now)));
    if !a.Done? {
      return null;
    }
    RootCreated(s, |classes|, now, m, p.Now());
    pool := p;
  }

  /** `Pool::open_with_classes`: scan every data region, replay the log of the first disk. Opens exactly
      when there is a disk, every disk file can be opened and the first disk's log is accepted, and then
      is the reopened state. A null file is one that cannot be opened. */
  method Open(files: seq<D.Disk?>, classes: seq<DiskClass>, hash: Hash, placementKey: Key, milli: Milli)
    returns (pool: P.Pool?)
    requires |files| == |classes| < UNPLACED && Numbered(files)
    ensures pool != null <==> files != [] && AllOpened(files) && Reopen(files[0].image).Some?
    ensures pool != null ==> fresh(pool) && pool.Valid() && Filed(files, pool.region.disks)
    ensures pool != null ==>
            1 in pool.region.disks
            && Reopened(pool.region.Images(), GroupFor(|files|)) == Some(pool.Now())
    ensures pool != null ==> SetUp(pool, classes, hash, placementKey, milli)
  {
    if files == [] {
      return null;
    }
    var region, entries := ScanDisks(files, classes);
    if region == null {
      return null;
    }
    pool := Assemble(|files|, region, entries, classes, hash, placementKey, milli);
  }
}

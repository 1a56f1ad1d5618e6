/** The encoding of metadata operations by offsets: which byte of an entry means what. */
module CodecLayout {
  import opened Proto
  import opened Arith
  import opened Bytes
  import opened Codec

  /** The bytes of `b` at `at` are the little-endian word `n` of `k` bytes. */
  predicate WordAt(b: seq<byte>, at: nat, k: nat, n: nat)
  {
    at + k <= |b| && FromLe(b[at..at + k]) == n
  }

  /** The bytes of `b` at `at` are `p`. */
  predicate PartAt(b: seq<byte>, at: nat, p: seq<byte>)
  {
    at + |p| <= |b| && b[at..at + |p|] == p
  }

  lemma IsWord(b: seq<byte>, at: nat, k: nat, n: nat)
    requires PartAt(b, at, Le(n, k)) && n < Pow(256, k)
    ensures WordAt(b, at, k, n)
  {
    FromLeOfLe(n, k);
  }

  lemma TwoParts(a: seq<byte>, b: seq<byte>)
    ensures PartAt(a + b, 0, a) && PartAt(a + b, |a|, b)
  {
  }

  lemma ThreeParts(a: seq<byte>, b: seq<byte>, c: seq<byte>)
    ensures var s := a + b + c;
            PartAt(s, 0, a) && PartAt(s, |a|, b) && PartAt(s, |a| + |b|, c)
  {
  }

  lemma FourParts(a: seq<byte>, b: seq<byte>, c: seq<byte>, d: seq<byte>)
    ensures var s := a + b + c + d;
            PartAt(s, 0, a) && PartAt(s, |a|, b) && PartAt(s, |a| + |b|, c) && PartAt(s, |a| + |b| + |c|, d)
  {
  }

  // ---- operations ----

  /** The first byte says which operation it is. */
  lemma OpTag(op: MetaOp, order: seq<DiskId>)
    requires op.PoolMapChange? ==> forall id :: id in order ==> id in op.pool.disks
    ensures var e := PutOp(op, order);
            && e != [] && e[1..] == PutBody(op, order)
            && e[0] == match op
                       case CreateInode(_) => 0 case Link(_, _, _) => 1 case Unlink(_, _) => 2
                       case AppendChunk(_, _) => 3 case BeginConvert(_) => 4 case CompleteConvert(_, _) => 5
                       case SetRedundancyScheme(_, _) => 6 case PoolMapChange(_) => 7
                       case MetaGroupChange(_) => 8 case UpdateExtents(_, _) => 9
  {
  }

  /** Parent, length of the name, name; for a link also the child. */
  lemma DirectoryLayout(parent: nat, name: seq<byte>, child: nat)
    requires parent < U64 && |name| < U32 && child < U64
    ensures var (l, u) := (PutBody(Link(parent, name, child), []), PutBody(Unlink(parent, name), []));
            && |l| == 20 + |name| && WordAt(l, 0, 8, parent) && WordAt(l, 8, 4, |name|) && PartAt(l, 12, name)
            && WordAt(l, 12 + |name|, 8, child)
            && |u| == 12 + |name| && WordAt(u, 0, 8, parent) && WordAt(u, 8, 4, |name|) && PartAt(u, 12, name)
  {
    PowOf256();
    var u := Le(parent, 8) + Le(|name|, 4) + name;
    ThreeParts(Le(parent, 8), Le(|name|, 4), name);
    FourParts(Le(parent, 8), Le(|name|, 4), name, Le(child, 8));
    assert PutBody(Unlink(parent, name), []) == u && PutBody(Link(parent, name, child), []) == u + Le(child, 8);
    IsWord(u, 0, 8, parent);
    IsWord(u, 8, 4, |name|);
    IsWord(u + Le(child, 8), 0, 8, parent);
    IsWord(u + Le(child, 8), 8, 4, |name|);
    IsWord(u + Le(child, 8), 12 + |name|, 8, child);
  }

  /** Operations on an inode begin with its number. */
  lemma InodeOpLayout(op: MetaOp)
    requires op.AppendChunk? || op.BeginConvert? || op.CompleteConvert? || op.SetRedundancyScheme? || op.UpdateExtents?
    requires op.inode < U64
    ensures var b := PutBody(op, []);
            && WordAt(b, 0, 8, op.inode)
            && b[8..] == match op
                         case AppendChunk(_, c) => PutChunk(c)
                         case CompleteConvert(_, xs) => PutList(PutExtent, xs)
                         case SetRedundancyScheme(_, x) => PutScheme(x)
                         case UpdateExtents(_, xs) => PutList(PutExtent, xs)
                         case _ => []
  {
    PowOf256();
    var b := PutBody(op, []);
    assert b[..8] == Le(op.inode, 8) && b[0..8] == b[..8];
    IsWord(b, 0, 8, op.inode);
  }

  // ---- replicas, chunks, extents ----

  /** Disk, then offset: 24 bytes. */
  lemma ReplicaLayout(r: Replica)
    requires ReplicaFits(r)
    ensures |PutReplica(r)| == 24 && WordAt(PutReplica(r), 0, 16, r.disk) && WordAt(PutReplica(r), 16, 8, r.offset)
  {
    PowOf256();
    TwoParts(Le(r.disk, 16), Le(r.offset, 8));
    IsWord(PutReplica(r), 0, 16, r.disk);
    IsWord(PutReplica(r), 16, 8, r.offset);
  }

  lemma {:induction false} ReplicasAt(rs: seq<Replica>, k: nat)
    requires k <= |rs|
    ensures |PutAll(PutReplica, rs)| == 24 * |rs|
    ensures k < |rs| ==> PartAt(PutAll(PutReplica, rs), 24 * k, PutReplica(rs[k]))
  {
    if rs != [] {
      var first, rest := PutReplica(rs[0]), PutAll(PutReplica, rs[1..]);
      TwoParts(first, rest);
      if k > 0 {
        ReplicasAt(rs[1..], k - 1);
        if k < |rs| {
          assert (first + rest)[24 * k..24 * k + 24] == rest[24 * (k - 1)..24 * (k - 1) + 24];
        }
      } else {
        ReplicasAt(rs[1..], 0);
      }
    }
  }

  /** A count, then the replicas, 24 bytes each. */
  lemma ReplicaListLayout(rs: seq<Replica>, k: nat)
    requires |rs| < U32 && k <= |rs|
    ensures var b := PutList(PutReplica, rs);
            && |b| == 4 + 24 * |rs| && WordAt(b, 0, 4, |rs|)
            && (k < |rs| ==> PartAt(b, 4 + 24 * k, PutReplica(rs[k])))
  {
    PowOf256();
    var all := PutAll(PutReplica, rs);
    ReplicasAt(rs, k);
    TwoParts(Le(|rs|, 4), all);
    IsWord(PutList(PutReplica, rs), 0, 4, |rs|);
    if k < |rs| {
      assert (Le(|rs|, 4) + all)[4 + 24 * k..4 + 24 * k + 24] == all[24 * k..24 * k + 24];
    }
  }

  /** Number, replicas, length, checksum. */
  lemma ChunkLayout(c: ChunkPointer)
    requires ChunkFits(c)
    ensures var (b, n) := (PutChunk(c), 4 + 24 * |c.replicas|);
            && |b| == 16 + n && WordAt(b, 0, 8, c.chunkSeq) && PartAt(b, 8, PutList(PutReplica, c.replicas))
            && WordAt(b, 8 + n, 4, c.len) && WordAt(b, 12 + n, 4, c.checksum)
  {
    PowOf256();
    var b, n := PutChunk(c), 4 + 24 * |c.replicas|;
    ReplicaListLayout(c.replicas, 0);
    FourParts(Le(c.chunkSeq, 8), PutList(PutReplica, c.replicas), Le(c.len, 4), Le(c.checksum, 4));
    IsWord(b, 0, 8, c.chunkSeq);
    IsWord(b, 8 + n, 4, c.len);
    IsWord(b, 12 + n, 4, c.checksum);
  }

  /** Place in the file, length, replicas, checksum. */
  lemma ExtentLayout(x: Extent)
    requires ExtentFits(x)
    ensures var (b, n) := (PutExtent(x), 4 + 24 * |x.replicas|);
            && |b| == 16 + n && WordAt(b, 0, 8, x.fileOffset) && WordAt(b, 8, 4, x.len)
            && PartAt(b, 12, PutList(PutReplica, x.replicas)) && WordAt(b, 12 + n, 4, x.checksum)
  {
    PowOf256();
    var b, n := PutExtent(x), 4 + 24 * |x.replicas|;
    ReplicaListLayout(x.replicas, 0);
    FourParts(Le(x.fileOffset, 8), Le(x.len, 4), PutList(PutReplica, x.replicas), Le(x.checksum, 4));
    IsWord(b, 0, 8, x.fileOffset);
    IsWord(b, 8, 4, x.len);
    IsWord(b, 12 + n, 4, x.checksum);
  }

  // ---- schemes and inodes ----

  /** Any slot is one zero byte, a class slot a one and the class, a pinned slot a two and the disk. */
  lemma SlotLayout(slot: ReplicaSlot)
    requires SlotFits(slot)
    ensures var b := PutSlot(slot);
            match slot
            case AnyOfClass(None) => b == [0]
            case AnyOfClass(Some(c)) => b == [1, match c case Hdd => 0 case Ssd => 1 case Nvme => 2]
            case Pinned(id) => |b| == 17 && b[0] == 2 && WordAt(b, 1, 16, id)
  {
    if slot.Pinned? {
      PowOf256();
      TwoParts([2], Le(slot.id, 16));
      IsWord(PutSlot(slot), 1, 16, slot.id);
    }
  }

  lemma SchemeLayout(x: RedundancyScheme)
    requires SchemeFits(x)
    ensures var b := PutScheme(x);
            match x
            case Replicated(slots) => b != [] && b[0] == 0 && WordAt(b, 1, 4, |slots|)
                && b[5..] == PutAll(PutSlot, slots)
            case ErasureCoded(k, m) => b == [1, k, m]
  {
    match x
    case Replicated(slots) => KindAndCount(0, |slots|, PutAll(PutSlot, slots));
    case ErasureCoded(k, m) =>
      assert Le(k, 1) == [k] && Le(m, 1) == [m];
  }

  /** A byte for the kind, a count, the chunks or extents. */
  lemma LocatorLayout(d: DataLocator)
    requires if d.ChunkLog? then |d.chunks| < U32 else |d.extents| < U32
    ensures var b := PutLocator(d);
            && b != [] && b[0] == (if d.ChunkLog? then 0 else 1)
            && WordAt(b, 1, 4, if d.ChunkLog? then |d.chunks| else |d.extents|)
            && b[5..] == if d.ChunkLog? then PutAll(PutChunk, d.chunks) else PutAll(PutExtent, d.extents)
  {
    match d
    case ChunkLog(cs) =>
      KindAndCount(0, |cs|, PutAll(PutChunk, cs));
    case Extents(xs) =>
      KindAndCount(1, |xs|, PutAll(PutExtent, xs));
  }

  /** Number, mode, size in front; owner, group, mode bits and time at the end; policy and data between. */
  lemma InodeLayout(r: InodeRecord)
    requires InodeFits(r)
    ensures var (b, p, d) := (PutInode(r), PutScheme(r.redundancy), PutLocator(r.data));
            && |b| == 37 + |p| + |d| && HeadAt(b, r) && PartAt(b, 17, p) && PartAt(b, 17 + |p|, d)
            && AttrsAt(b, 17 + |p| + |d|, r)
  {
    var b, p, d := PutInode(r), PutScheme(r.redundancy), PutLocator(r.data);
    var head, at := Le(r.inode, 8) + PutMode(r.mode) + Le(r.size, 8), 17 + |p| + |d|;
    InodeParts(head, p, d, PutAttrs(r), at);
    HeadLayout(b, r, head);
    AttrsLayout(b, at, r);
  }

  lemma InodeParts(head: seq<byte>, p: seq<byte>, d: seq<byte>, tail: seq<byte>, at: nat)
    requires |head| == 17 && |tail| == 20 && at == 17 + |p| + |d|
    ensures var b := head + p + d + tail;
            |b| == at + 20 && PartAt(b, 0, head) && PartAt(b, 17, p) && PartAt(b, 17 + |p|, d) && PartAt(b, at, tail)
  {
    FourParts(head, p, d, tail);
  }

  predicate HeadAt(b: seq<byte>, r: InodeRecord)
  {
    && WordAt(b, 0, 8, r.inode) && WordAt(b, 9, 8, r.size)
    && b[8] == (match r.mode case AppendOnly => 0 case Converting => 1 case Writable => 2)
  }

  predicate AttrsAt(b: seq<byte>, at: nat, r: InodeRecord)
  {
    && WordAt(b, at, 4, r.uid) && WordAt(b, at + 4, 4, r.gid) && WordAt(b, at + 8, 4, r.unixMode)
    && WordAt(b, at + 12, 8, r.mtime)
  }

  lemma HeadLayout(b: seq<byte>, r: InodeRecord, head: seq<byte>)
    requires head == Le(r.inode, 8) + PutMode(r.mode) + Le(r.size, 8) && PartAt(b, 0, head)
    requires r.inode < U64 && r.size < U64
    ensures HeadAt(b, r)
  {
    PowOf256();
    ThreeParts(Le(r.inode, 8), PutMode(r.mode), Le(r.size, 8));
    Within(b, head, 0, 0, Le(r.inode, 8));
    Within(b, head, 0, 8, PutMode(r.mode));
    Within(b, head, 0, 9, Le(r.size, 8));
    IsWord(b, 0, 8, r.inode);
    IsWord(b, 9, 8, r.size);
    assert b[8..9][0] == b[8];
  }

  lemma AttrsLayout(b: seq<byte>, at: nat, r: InodeRecord)
    requires PartAt(b, at, PutAttrs(r)) && r.uid < U32 && r.gid < U32 && r.unixMode < U32 && r.mtime < U64
    ensures AttrsAt(b, at, r)
  {
    PowOf256();
    FourParts(Le(r.uid, 4), Le(r.gid, 4), Le(r.unixMode, 4), Le(r.mtime, 8));
    Within(b, PutAttrs(r), at, 0, Le(r.uid, 4));
    Within(b, PutAttrs(r), at, 4, Le(r.gid, 4));
    Within(b, PutAttrs(r), at, 8, Le(r.unixMode, 4));
    Within(b, PutAttrs(r), at, 12, Le(r.mtime, 8));
    IsWord(b, at, 4, r.uid);
    IsWord(b, at + 4, 4, r.gid);
    IsWord(b, at + 8, 4, r.unixMode);
    IsWord(b, at + 12, 8, r.mtime);
  }

  /** A part of a part. */
  lemma Within(b: seq<byte>, p: seq<byte>, at: nat, i: nat, q: seq<byte>)
    requires PartAt(b, at, p) && PartAt(p, i, q)
    ensures PartAt(b, at + i, q)
  {
    forall j | 0 <= j < |q|
      ensures b[at + i + j] == q[j]
    {
      assert b[at..at + |p|][i + j] == p[i + j] && p[i..i + |q|][j] == q[j];
    }
    assert b[at + i..at + i + |q|] == q;
  }

  // ---- the pool map and the metadata group ----

  /** Id, roles, state, class, weight, bytes used, capacity: 43 bytes. */
  lemma MemberLayout(m: Member)
    requires MemberFits(m)
    ensures var (b, e) := (PutMember(m), m.entry);
            && |b| == 43 && WordAt(b, 0, 16, m.id)
            && b[16] == (if e.roles.data then 1 else 0) + (if e.roles.metadata then 2 else 0)
            && b[17] == (match e.state case Active => 0 case Draining => 1 case Dead => 2)
            && b[18] == (match e.cls case Hdd => 0 case Ssd => 1 case Nvme => 2)
            && WordAt(b, 19, 8, e.weight) && WordAt(b, 27, 8, e.usedBytes) && WordAt(b, 35, 8, e.capacityBytes)
  {
    PowOf256();
    var b, e := PutMember(m), m.entry;
    var codes := PutRoles(e.roles) + PutState(e.state) + PutClass(e.cls);
    var words := Le(e.weight, 8) + Le(e.usedBytes, 8) + Le(e.capacityBytes, 8);
    MemberParts(m, codes, words);
    IsWord(b, 0, 16, m.id);
    assert b[16..19][0] == b[16] && b[16..19][1] == b[17] && b[16..19][2] == b[18];
    IsWord(b, 19, 8, e.weight);
    IsWord(b, 27, 8, e.usedBytes);
    IsWord(b, 35, 8, e.capacityBytes);
  }

  lemma MemberParts(m: Member, codes: seq<byte>, words: seq<byte>)
    requires var e := m.entry;
             && codes == PutRoles(e.roles) + PutState(e.state) + PutClass(e.cls)
             && words == Le(e.weight, 8) + Le(e.usedBytes, 8) + Le(e.capacityBytes, 8)
    ensures var (b, e) := (PutMember(m), m.entry);
            && |codes| == 3 && |b| == 43 && PartAt(b, 0, Le(m.id, 16)) && PartAt(b, 16, codes)
            && PartAt(b, 19, Le(e.weight, 8)) && PartAt(b, 27, Le(e.usedBytes, 8))
            && PartAt(b, 35, Le(e.capacityBytes, 8))
  {
    var b, e := PutMember(m), m.entry;
    Regroup(Le(m.id, 16), PutRoles(e.roles), PutState(e.state), PutClass(e.cls), Le(e.weight, 8), Le(e.usedBytes, 8),
            Le(e.capacityBytes, 8));
    ThreeParts(Le(m.id, 16), codes, words);
    ThreeParts(Le(e.weight, 8), Le(e.usedBytes, 8), Le(e.capacityBytes, 8));
    Within(b, words, 19, 0, Le(e.weight, 8));
    Within(b, words, 19, 8, Le(e.usedBytes, 8));
    Within(b, words, 19, 16, Le(e.capacityBytes, 8));
  }

  lemma Regroup(a: seq<byte>, b: seq<byte>, c: seq<byte>, d: seq<byte>, e: seq<byte>, f: seq<byte>, g: seq<byte>)
    ensures a + b + c + d + e + f + g == a + (b + c + d) + (e + f + g)
  {
    var abc := a + b + c + d;
    assert abc == a + (b + c + d);
    assert abc + e + f + g == abc + (e + f + g);
  }

  /** Epoch, count, then the members in the order they were iterated. */
  lemma PoolMapLayout(pm: PoolMap, order: seq<DiskId>)
    requires pm.epoch < U64 && |order| < U32 && forall id :: id in order ==> id in pm.disks
    ensures var b := PutPoolMap(pm, order);
            && WordAt(b, 0, 8, pm.epoch) && WordAt(b, 8, 4, |order|)
            && b[12..] == PutAll(PutMember, Members(pm.disks, order))
  {
    PowOf256();
    var ms := Members(pm.disks, order);
    Cat(Le(pm.epoch, 8), Le(|ms|, 4), PutAll(PutMember, ms));
    TwoWords(pm.epoch, |ms|, PutAll(PutMember, ms));
  }

  lemma TwoWords(epoch: nat, n: nat, rest: seq<byte>)
    requires epoch < U64 && n < U32
    ensures var b := Le(epoch, 8) + Le(n, 4) + rest;
            WordAt(b, 0, 8, epoch) && WordAt(b, 8, 4, n) && b[12..] == rest
  {
    PowOf256();
    var b := Le(epoch, 8) + Le(n, 4) + rest;
    ThreeParts(Le(epoch, 8), Le(n, 4), rest);
    IsWord(b, 0, 8, epoch);
    IsWord(b, 8, 4, n);
  }

  /** A kind, a count, and the rest. */
  lemma KindAndCount(kind: byte, n: nat, rest: seq<byte>)
    requires n < U32
    ensures var b := [kind] + (Le(n, 4) + rest);
            b[0] == kind && WordAt(b, 1, 4, n) && b[5..] == rest
  {
    PowOf256();
    var b := [kind] + Le(n, 4) + rest;
    Cat([kind], Le(n, 4), rest);
    ThreeParts([kind], Le(n, 4), rest);
    IsWord(b, 1, 4, n);
  }

  /** Primary, whether there is a backup, the backup, epoch. */
  lemma GroupLayout(g: MetaGroup)
    requires GroupFits(g)
    ensures var (b, n) := (PutGroup(g), if g.backup.Some? then 33 else 17);
            && |b| == n + 8 && WordAt(b, 0, 16, g.primary) && b[16] == (if g.backup.Some? then 1 else 0)
            && (g.backup.Some? ==> WordAt(b, 17, 16, g.backup.value)) && WordAt(b, n, 8, g.epoch)
  {
    PowOf256();
    if g.backup.Some? {
      BackupLayout(g.primary, g.backup.value, g.epoch);
      Cat(Le(g.primary, 16), [1], Le(g.backup.value, 16));
    } else {
      AloneLayout(g.primary, g.epoch);
    }
  }

  lemma AloneLayout(primary: nat, epoch: nat)
    requires primary < U128 && epoch < U64
    ensures var b := Le(primary, 16) + [0] + Le(epoch, 8);
            |b| == 25 && WordAt(b, 0, 16, primary) && b[16] == 0 && WordAt(b, 17, 8, epoch)
  {
    PowOf256();
    var b := Le(primary, 16) + [0] + Le(epoch, 8);
    ThreeParts(Le(primary, 16), [0], Le(epoch, 8));
    IsWord(b, 0, 16, primary);
    IsWord(b, 17, 8, epoch);
    assert b[16..17][0] == b[16];
  }

  lemma BackupLayout(primary: nat, backup: nat, epoch: nat)
    requires primary < U128 && backup < U128 && epoch < U64
    ensures var b := Le(primary, 16) + [1] + Le(backup, 16) + Le(epoch, 8);
            && |b| == 41 && WordAt(b, 0, 16, primary) && b[16] == 1 && WordAt(b, 17, 16, backup)
            && WordAt(b, 33, 8, epoch)
  {
    PowOf256();
    var b := Le(primary, 16) + [1] + Le(backup, 16) + Le(epoch, 8);
    FourParts(Le(primary, 16), [1], Le(backup, 16), Le(epoch, 8));
    IsWord(b, 0, 16, primary);
    IsWord(b, 17, 16, backup);
    IsWord(b, 33, 8, epoch);
    assert b[16..17][0] == b[16];
  }
}

/** The encoder that grows a byte vector and the decoder that advances a position, method by
    method against the format in `Codec`. A panic of the decoder is the result None. */
module CodecIo {
  import opened Proto
  import opened Bytes
  import opened Unicode
  import opened Codec

  lemma {:induction false} PutAllSnoc<T(!new)>(put: T -> seq<byte>, xs: seq<T>, x: T)
    ensures PutAll(put, xs + [x]) == PutAll(put, xs) + put(x)
  {
    if xs == [] {
      assert xs + [x] == [x] && [x][1..] == [];
      assert PutAll(put, [x]) == put(x) + [];
    } else {
      assert (xs + [x])[1..] == xs[1..] + [x];
      PutAllSnoc(put, xs[1..], x);
      assert put(xs[0]) + (PutAll(put, xs[1..]) + put(x)) == PutAll(put, xs) + put(x);
    }
  }

  lemma Cat3(a: seq<byte>, b: seq<byte>, c: seq<byte>, d: seq<byte>)
    ensures ((a + b) + c) + d == a + ((b + c) + d)
  {
  }

  lemma Cat4(a: seq<byte>, b: seq<byte>, c: seq<byte>, d: seq<byte>, e: seq<byte>)
    ensures (((a + b) + c) + d) + e == a + (((b + c) + d) + e)
  {
  }

  class Encoder {
    var out: seq<byte>

    constructor ()
      ensures out == []
    {
      out := [];
    }

    method U8(v: nat)
      modifies this
      ensures out == old(out) + Le(v, 1)
    {
      out := out + [v % 256];
    }

    method Word(v: nat, k: nat)
      modifies this
      ensures out == old(out) + Le(v, k)
    {
      out := out + Le(v, k);
    }

    method Bytes(b: seq<byte>)
      modifies this
      ensures out == old(out) + PutBytes(b)
    {
      Word(|b|, 4);
      out := out + b;
    }

    method Class(c: DiskClass)
      modifies this
      ensures out == old(out) + PutClass(c)
    {
      U8(match c case Hdd => 0 case Ssd => 1 case Nvme => 2);
    }

    method Mode(m: InodeMode)
      modifies this
      ensures out == old(out) + PutMode(m)
    {
      U8(match m case AppendOnly => 0 case Converting => 1 case Writable => 2);
    }

    method State(s: DiskState)
      modifies this
      ensures out == old(out) + PutState(s)
    {
      U8(match s case Active => 0 case Draining => 1 case Dead => 2);
    }

    method Slot(slot: ReplicaSlot)
      modifies this
      ensures out == old(out) + PutSlot(slot)
    {
      ghost var o := out;
      match slot
      case AnyOfClass(None) => U8(0);
      case AnyOfClass(Some(c)) =>
        U8(1);
        Class(c);
        Cat(o, [1], PutClass(c));
      case Pinned(id) =>
        U8(2);
        Word(id, 16);
        Cat(o, [2], Le(id, 16));
    }

    method Slots(slots: seq<ReplicaSlot>)
      modifies this
      ensures out == old(out) + PutList(PutSlot, slots)
    {
      Word(|slots|, 4);
      ghost var start := out;
      for i := 0 to |slots|
        invariant out == start + PutAll(PutSlot, slots[..i])
      {
        Slot(slots[i]);
        assert slots[..i + 1] == slots[..i] + [slots[i]];
        PutAllSnoc(PutSlot, slots[..i], slots[i]);
      }
      assert slots[..|slots|] == slots;
    }

    method Scheme(s: RedundancyScheme)
      modifies this
      ensures out == old(out) + PutScheme(s)
    {
      ghost var o := out;
      match s
      case Replicated(slots) =>
        U8(0);
        Slots(slots);
        Cat(o, [0], PutList(PutSlot, slots));
      case ErasureCoded(k, m) =>
        U8(1);
        U8(k);
        Cat(o, [1], Le(k, 1));
        U8(m);
        Cat(o, [1] + Le(k, 1), Le(m, 1));
    }

    method ReplicaEntry(r: Replica)
      modifies this
      ensures out == old(out) + PutReplica(r)
    {
      ghost var o := out;
      Word(r.disk, 16);
      Word(r.offset, 8);
      Cat(o, Le(r.disk, 16), Le(r.offset, 8));
    }

    method Replicas(rs: seq<Replica>)
      modifies this
      ensures out == old(out) + PutList(PutReplica, rs)
    {
      ghost var o := out;
      Word(|rs|, 4);
      ghost var start := out;
      assert rs[..0] == [];
      for i := 0 to |rs|
        invariant out == start + PutAll(PutReplica, rs[..i])
      {
        ReplicaEntry(rs[i]);
        assert rs[..i + 1] == rs[..i] + [rs[i]];
        PutAllSnoc(PutReplica, rs[..i], rs[i]);
        Cat(start, PutAll(PutReplica, rs[..i]), PutReplica(rs[i]));
      }
      assert rs[..|rs|] == rs;
      Cat(o, Le(|rs|, 4), PutAll(PutReplica, rs));
    }

    method Chunk(c: ChunkPointer)
      modifies this
      ensures out == old(out) + PutChunk(c)
    {
      ghost var o := out;
      Word(c.chunkSeq, 8);
      Replicas(c.replicas);
      Word(c.len, 4);
      Word(c.checksum, 4);
      Cat4(o, Le(c.chunkSeq, 8), PutList(PutReplica, c.replicas), Le(c.len, 4), Le(c.checksum, 4));
    }

    method ExtentEntry(x: Extent)
      modifies this
      ensures out == old(out) + PutExtent(x)
    {
      ghost var o := out;
      Word(x.fileOffset, 8);
      Word(x.len, 4);
      Replicas(x.replicas);
      Word(x.checksum, 4);
      Cat4(o, Le(x.fileOffset, 8), Le(x.len, 4), PutList(PutReplica, x.replicas), Le(x.checksum, 4));
    }

    method ExtentList(xs: seq<Extent>)
      modifies this
      ensures out == old(out) + PutList(PutExtent, xs)
    {
      ghost var o := out;
      Word(|xs|, 4);
      ghost var start := out;
      assert xs[..0] == [];
      for i := 0 to |xs|
        invariant out == start + PutAll(PutExtent, xs[..i])
      {
        ExtentEntry(xs[i]);
        assert xs[..i + 1] == xs[..i] + [xs[i]];
        PutAllSnoc(PutExtent, xs[..i], xs[i]);
        Cat(start, PutAll(PutExtent, xs[..i]), PutExtent(xs[i]));
      }
      assert xs[..|xs|] == xs;
      Cat(o, Le(|xs|, 4), PutAll(PutExtent, xs));
    }

    method ChunkList(cs: seq<ChunkPointer>)
      modifies this
      ensures out == old(out) + PutList(PutChunk, cs)
    {
      ghost var o := out;
      Word(|cs|, 4);
      ghost var start := out;
      assert cs[..0] == [];
      for i := 0 to |cs|
        invariant out == start + PutAll(PutChunk, cs[..i])
      {
        Chunk(cs[i]);
        assert cs[..i + 1] == cs[..i] + [cs[i]];
        PutAllSnoc(PutChunk, cs[..i], cs[i]);
        Cat(start, PutAll(PutChunk, cs[..i]), PutChunk(cs[i]));
      }
      assert cs[..|cs|] == cs;
      Cat(o, Le(|cs|, 4), PutAll(PutChunk, cs));
    }

    method Locator(d: DataLocator)
      modifies this
      ensures out == old(out) + PutLocator(d)
    {
      ghost var o := out;
      match d
      case ChunkLog(cs) =>
        U8(0);
        ChunkList(cs);
        Cat(o, [0], PutList(PutChunk, cs));
      case Extents(xs) =>
        U8(1);
        ExtentList(xs);
        Cat(o, [1], PutList(PutExtent, xs));
    }

    method Attrs(r: InodeRecord)
      modifies this
      ensures out == old(out) + PutAttrs(r)
    {
      ghost var o := out;
      Word(r.uid, 4);
      ghost var p := Le(r.uid, 4);
      Word(r.gid, 4);
      Cat(o, p, Le(r.gid, 4));
      p := p + Le(r.gid, 4);
      Word(r.unixMode, 4);
      Cat(o, p, Le(r.unixMode, 4));
      p := p + Le(r.unixMode, 4);
      Word(r.mtime, 8);
      Cat(o, p, Le(r.mtime, 8));
    }

    method Inode(r: InodeRecord)
      modifies this
      ensures out == old(out) + PutInode(r)
    {
      ghost var o := out;
      Word(r.inode, 8);
      ghost var p := Le(r.inode, 8);
      Mode(r.mode);
      Cat(o, p, PutMode(r.mode));
      p := p + PutMode(r.mode);
      Word(r.size, 8);
      Cat(o, p, Le(r.size, 8));
      p := p + Le(r.size, 8);
      Scheme(r.redundancy);
      Cat(o, p, PutScheme(r.redundancy));
      p := p + PutScheme(r.redundancy);
      Locator(r.data);
      Cat(o, p, PutLocator(r.data));
      p := p + PutLocator(r.data);
      Attrs(r);
      Cat(o, p, PutAttrs(r));
    }

    method Roles(r: DiskRoles)
      modifies this
      ensures out == old(out) + PutRoles(r)
    {
      U8((if r.data then 1 else 0) + (if r.metadata then 2 else 0));
    }

    method Entry(m: Member)
      modifies this
      ensures out == old(out) + PutMember(m)
    {
      ghost var o := out;
      Word(m.id, 16);
      ghost var p := Le(m.id, 16);
      Roles(m.entry.roles);
      Cat(o, p, PutRoles(m.entry.roles));
      p := p + PutRoles(m.entry.roles);
      State(m.entry.state);
      Cat(o, p, PutState(m.entry.state));
      p := p + PutState(m.entry.state);
      Class(m.entry.cls);
      Cat(o, p, PutClass(m.entry.cls));
      p := p + PutClass(m.entry.cls);
      Word(m.entry.weight, 8);
      Cat(o, p, Le(m.entry.weight, 8));
      p := p + Le(m.entry.weight, 8);
      Word(m.entry.usedBytes, 8);
      Cat(o, p, Le(m.entry.usedBytes, 8));
      p := p + Le(m.entry.usedBytes, 8);
      Word(m.entry.capacityBytes, 8);
      Cat(o, p, Le(m.entry.capacityBytes, 8));
    }

    /** The table is iterated in an arbitrary order, which the result names. */
    method MemberList(disks: map<DiskId, DiskEntry>) returns (ghost order: seq<DiskId>)
      modifies this
      ensures Iterates(disks, order)
      ensures out == old(out) + PutAll(PutMember, Members(disks, order))
    {
      ghost var start := out;
      order := [];
      var rest := disks.Keys;
      while rest != {}
        invariant rest <= disks.Keys
        invariant forall id :: id in order <==> id in disks && id !in rest
        invariant forall i, j :: 0 <= i < j < |order| ==> order[i] != order[j]
        invariant out == start + PutAll(PutMember, Members(disks, order))
        decreases |rest|
      {
        var id :| id in rest;
        rest := rest - {id};
        ghost var ms, m := Members(disks, order), Member(id, disks[id]);
        Entry(Member(id, disks[id]));
        Cat(start, PutAll(PutMember, ms), PutMember(m));
        PutAllSnoc(PutMember, ms, m);
        order := order + [id];
        assert Members(disks, order) == ms + [m];
      }
    }

    method Pool(pm: PoolMap) returns (ghost order: seq<DiskId>)
      modifies this
      ensures Iterates(pm.disks, order)
      ensures out == old(out) + PutPoolMap(pm, order)
    {
      ghost var o := out;
      Word(pm.epoch, 8);
      Word(|pm.disks|, 4);
      order := MemberList(pm.disks);
      OrderLength(pm.disks, order);
      ghost var ms := Members(pm.disks, order);
      Cat(o + Le(pm.epoch, 8), Le(|ms|, 4), PutAll(PutMember, ms));
      Cat(o, Le(pm.epoch, 8), PutList(PutMember, ms));
    }

    method Backup(b: Option<DiskId>)
      modifies this
      ensures out == old(out) + (if b.Some? then [1] + Le(b.value, 16) else [0])
    {
      ghost var o := out;
      U8(if b.Some? then 1 else 0);
      if b.Some? {
        Word(b.value, 16);
        assert Le(1, 1) == [1];
        Cat(o, [1], Le(b.value, 16));
      }
    }

    method Group(g: MetaGroup)
      modifies this
      ensures out == old(out) + PutGroup(g)
    {
      ghost var o := out;
      Word(g.primary, 16);
      Backup(g.backup);
      Word(g.epoch, 8);
      Cat3(o, Le(g.primary, 16), if g.backup.Some? then [1] + Le(g.backup.value, 16) else [0], Le(g.epoch, 8));
    }
  }

  /** The operations that start with an inode number. */
  method EncodeInodeOp(e: Encoder, op: MetaOp)
    requires op.AppendChunk? || op.BeginConvert? || op.CompleteConvert? || op.SetRedundancyScheme? || op.UpdateExtents?
    modifies e
    ensures e.out == old(e.out) + PutBody(op, [])
  {
    ghost var o := e.out;
    e.Word(op.inode, 8);
    match op {
      case AppendChunk(inode, chunk) =>
        e.Chunk(chunk);
        Cat(o, Le(inode, 8), PutChunk(chunk));
      case CompleteConvert(inode, extents) =>
        e.ExtentList(extents);
        Cat(o, Le(inode, 8), PutList(PutExtent, extents));
      case SetRedundancyScheme(inode, scheme) =>
        e.Scheme(scheme);
        Cat(o, Le(inode, 8), PutScheme(scheme));
      case UpdateExtents(inode, extents) =>
        e.ExtentList(extents);
        Cat(o, Le(inode, 8), PutList(PutExtent, extents));
      case _ =>
    }
  }

  method EncodeDirectoryOp(e: Encoder, op: MetaOp)
    requires op.Link? || op.Unlink?
    modifies e
    ensures e.out == old(e.out) + PutBody(op, [])
  {
    ghost var o := e.out;
    e.Word(op.parent, 8);
    e.Bytes(op.name);
    Cat(o, Le(op.parent, 8), PutBytes(op.name));
    if op.Link? {
      e.Word(op.child, 8);
      Cat(o, Le(op.parent, 8) + PutBytes(op.name), Le(op.child, 8));
    }
  }

  /** `encode_op`. */
  method EncodeOp(op: MetaOp) returns (bytes: seq<byte>, ghost order: seq<DiskId>)
    ensures op.PoolMapChange? ==> Iterates(op.pool.disks, order)
    ensures bytes == PutOp(op, order)
  {
    order := [];
    var e := new Encoder();
    e.U8(Tag(op));
    assert e.out == [Tag(op)];
    match op {
      case CreateInode(rec) => e.Inode(rec);
      case PoolMapChange(pm) => order := e.Pool(pm);
      case MetaGroupChange(g) => e.Group(g);
      case Link(_, _, _) => EncodeDirectoryOp(e, op);
      case Unlink(_, _) => EncodeDirectoryOp(e, op);
      case _ => EncodeInodeOp(e, op);
    }
    bytes := e.out;
  }

  // ---- decoding ----

  /** A decoder call returned what the format says: a value and the remaining bytes, or a panic. */
  ghost predicate Agrees<T>(r: Option<T>, spec: Read<T>, rest: seq<byte>)
  {
    match spec
    case Panic => r.None?
    case Got(v, t) => r == Some(v) && rest == t
  }

  /** Values already read in front of a list that is still being read. */
  function After<T>(xs: seq<T>, more: Read<seq<T>>): Read<seq<T>>
  {
    match more
    case Panic => Panic
    case Got(ys, rest) => Got(xs + ys, rest)
  }

  lemma GetAllStep<T>(get: seq<byte> -> Read<T>, n: nat, s: seq<byte>, xs: seq<T>)
    requires n > 0
    ensures get(s).Panic? ==> After(xs, GetAll(get, n, s)).Panic?
    ensures get(s).Got? ==> After(xs, GetAll(get, n, s)) == After(xs + [get(s).value], GetAll(get, n - 1, get(s).rest))
  {
    if get(s).Got? && GetAll(get, n - 1, get(s).rest).Got? {
      var ys := GetAll(get, n - 1, get(s).rest).value;
      assert xs + ([get(s).value] + ys) == (xs + [get(s).value]) + ys;
    }
  }

  lemma AfterNothing<T>(more: Read<seq<T>>)
    ensures After([], more) == more
  {
    if more.Got? {
      assert [] + more.value == more.value;
    }
  }

  lemma AfterAll<T>(get: seq<byte> -> Read<T>, s: seq<byte>, xs: seq<T>)
    ensures After(xs, GetAll(get, 0, s)) == Got(xs, s)
  {
    assert xs + [] == xs;
  }

  class Decoder {
    const buf: seq<byte>
    var pos: nat

    constructor (buf: seq<byte>)
      ensures this.buf == buf && pos == 0 && Valid() && Rest() == buf
    {
      this.buf := buf;
      pos := 0;
    }

    predicate Valid()
      reads this
    {
      pos <= |buf|
    }

    function Rest(): seq<byte>
      requires Valid()
      reads this
    {
      buf[pos..]
    }

    method U8() returns (r: Option<byte>)
      requires Valid()
      modifies this`pos
      ensures Valid() && Agrees(r, GetU8(old(Rest())), Rest())
    {
      if pos >= |buf| {
        return None;
      }
      r := Some(buf[pos]);
      pos := pos + 1;
    }

    method Word(k: nat) returns (r: Option<nat>)
      requires Valid()
      modifies this`pos
      ensures Valid() && Agrees(r, GetWord(old(Rest()), k), Rest())
    {
      if pos + k > |buf| {
        return None;
      }
      assert Rest()[..k] == buf[pos..pos + k];
      r := Some(FromLe(buf[pos..pos + k]));
      pos := pos + k;
    }

    method Bytes() returns (r: Option<seq<byte>>)
      requires Valid()
      modifies this`pos
      ensures Valid() && Agrees(r, GetBytes(old(Rest())), Rest())
    {
      var len :- Word(4);
      if pos + len > |buf| {
        return None;
      }
      assert Rest()[..len] == buf[pos..pos + len];
      r := Some(buf[pos..pos + len]);
      pos := pos + len;
    }

    method Text() returns (r: Option<seq<byte>>)
      requires Valid()
      modifies this`pos
      ensures Valid() && Agrees(r, GetText(old(Rest())), Rest())
    {
      var b :- Bytes();
      if !Utf8(b) {
        return None;
      }
      r := Some(b);
    }

    method Class() returns (r: Option<DiskClass>)
      requires Valid()
      modifies this`pos
      ensures Valid() && Agrees(r, GetClass(old(Rest())), Rest())
    {
      var t :- U8();
      r := if t == 0 then Some(Hdd) else if t == 1 then Some(Ssd) else if t == 2 then Some(Nvme) else None;
    }

    method Mode() returns (r: Option<InodeMode>)
      requires Valid()
      modifies this`pos
      ensures Valid() && Agrees(r, GetMode(old(Rest())), Rest())
    {
      var t :- U8();
      r := if t == 0 then Some(AppendOnly) else if t == 1 then Some(Converting)
           else if t == 2 then Some(Writable) else None;
    }

    method State() returns (r: Option<DiskState>)
      requires Valid()
      modifies this`pos
      ensures Valid() && Agrees(r, GetState(old(Rest())), Rest())
    {
      var t :- U8();
      r := if t == 0 then Some(Active) else if t == 1 then Some(Draining) else if t == 2 then Some(Dead) else None;
    }

    method Slot() returns (r: Option<ReplicaSlot>)
      requires Valid()
      modifies this`pos
      ensures Valid() && Agrees(r, GetSlot(old(Rest())), Rest())
    {
      var t :- U8();
      if t == 0 {
        r := Some(AnyOfClass(None));
      } else if t == 1 {
        var c :- Class();
        r := Some(AnyOfClass(Some(c)));
      } else if t == 2 {
        var id :- Word(16);
        r := Some(Pinned(id));
      } else {
        r := None;
      }
    }

    method SlotsN(n: nat) returns (r: Option<seq<ReplicaSlot>>)
      requires Valid()
      modifies this`pos
      ensures Valid() && Agrees(r, GetAll(GetSlot, n, old(Rest())), Rest())
    {
      ghost var whole := GetAll(GetSlot, n, Rest());
      var slots := [];
      AfterNothing(whole);
      for i := 0 to n
        invariant Valid()
        invariant After(slots, GetAll(GetSlot, n - i, Rest())) == whole
      {
        ghost var s := Rest();
        GetAllStep(GetSlot, n - i, s, slots);
        var x :- Slot();
        slots := slots + [x];
      }
      AfterAll(GetSlot, Rest(), slots);
      r := Some(slots);
    }

    method Slots() returns (r: Option<seq<ReplicaSlot>>)
      requires Valid()
      modifies this`pos
      ensures Valid() && Agrees(r, GetList(GetSlot, old(Rest())), Rest())
    {
      var n :- Word(4);
      r := SlotsN(n);
    }

    method Scheme() returns (r: Option<RedundancyScheme>)
      requires Valid()
      modifies this`pos
      ensures Valid() && Agrees(r, GetScheme(old(Rest())), Rest())
    {
      var t :- U8();
      if t == 0 {
        var slots :- Slots();
        r := Some(Replicated(slots));
      } else if t == 1 {
        var k :- U8();
        var m :- U8();
        r := Some(ErasureCoded(k, m));
      } else {
        r := None;
      }
    }

    method ReplicaEntry() returns (r: Option<Replica>)
      requires Valid()
      modifies this`pos
      ensures Valid() && Agrees(r, GetReplica(old(Rest())), Rest())
    {
      var id :- Word(16);
      var off :- Word(8);
      r := Some(Replica(id, off));
    }

    method ReplicasN(n: nat) returns (r: Option<seq<Replica>>)
      requires Valid()
      modifies this`pos
      ensures Valid() && Agrees(r, GetAll(GetReplica, n, old(Rest())), Rest())
    {
      ghost var whole := GetAll(GetReplica, n, Rest());
      var rs := [];
      AfterNothing(whole);
      for i := 0 to n
        invariant Valid()
        invariant After(rs, GetAll(GetReplica, n - i, Rest())) == whole
      {
        ghost var s := Rest();
        GetAllStep(GetReplica, n - i, s, rs);
        var x :- ReplicaEntry();
        rs := rs + [x];
      }
      AfterAll(GetReplica, Rest(), rs);
      r := Some(rs);
    }

    method Replicas() returns (r: Option<seq<Replica>>)
      requires Valid()
      modifies this`pos
      ensures Valid() && Agrees(r, GetList(GetReplica, old(Rest())), Rest())
    {
      var n :- Word(4);
      r := ReplicasN(n);
    }

    method Chunk() returns (r: Option<ChunkPointer>)
      requires Valid()
      modifies this`pos
      ensures Valid() && Agrees(r, GetChunk(old(Rest())), Rest())
    {
      var q :- Word(8);
      var rs :- Replicas();
      var len :- Word(4);
      var sum :- Word(4);
      r := Some(ChunkPointer(q, rs, len, sum));
    }

    method ExtentEntry() returns (r: Option<Extent>)
      requires Valid()
      modifies this`pos
      ensures Valid() && Agrees(r, GetExtent(old(Rest())), Rest())
    {
      var off :- Word(8);
      var len :- Word(4);
      var rs :- Replicas();
      var sum :- Word(4);
      r := Some(Extent(off, len, rs, sum));
    }

    method ExtentListN(n: nat) returns (r: Option<seq<Extent>>)
      requires Valid()
      modifies this`pos
      ensures Valid() && Agrees(r, GetAll(GetExtent, n, old(Rest())), Rest())
    {
      ghost var whole := GetAll(GetExtent, n, Rest());
      var xs := [];
      AfterNothing(whole);
      for i := 0 to n
        invariant Valid()
        invariant After(xs, GetAll(GetExtent, n - i, Rest())) == whole
      {
        ghost var s := Rest();
        GetAllStep(GetExtent, n - i, s, xs);
        var x :- ExtentEntry();
        xs := xs + [x];
      }
      AfterAll(GetExtent, Rest(), xs);
      r := Some(xs);
    }

    method ExtentList() returns (r: Option<seq<Extent>>)
      requires Valid()
      modifies this`pos
      ensures Valid() && Agrees(r, GetList(GetExtent, old(Rest())), Rest())
    {
      var n :- Word(4);
      r := ExtentListN(n);
    }

    method ChunkListN(n: nat) returns (r: Option<seq<ChunkPointer>>)
      requires Valid()
      modifies this`pos
      ensures Valid() && Agrees(r, GetAll(GetChunk, n, old(Rest())), Rest())
    {
      ghost var whole := GetAll(GetChunk, n, Rest());
      var cs := [];
      AfterNothing(whole);
      for i := 0 to n
        invariant Valid()
        invariant After(cs, GetAll(GetChunk, n - i, Rest())) == whole
      {
        ghost var s := Rest();
        GetAllStep(GetChunk, n - i, s, cs);
        var x :- Chunk();
        cs := cs + [x];
      }
      AfterAll(GetChunk, Rest(), cs);
      r := Some(cs);
    }

    method ChunkList() returns (r: Option<seq<ChunkPointer>>)
      requires Valid()
      modifies this`pos
      ensures Valid() && Agrees(r, GetList(GetChunk, old(Rest())), Rest())
    {
      var n :- Word(4);
      r := ChunkListN(n);
    }

    method Locator() returns (r: Option<DataLocator>)
      requires Valid()
      modifies this`pos
      ensures Valid() && Agrees(r, GetLocator(old(Rest())), Rest())
    {
      var t :- U8();
      if t == 0 {
        var cs :- ChunkList();
        r := Some(ChunkLog(cs));
      } else if t == 1 {
        var xs :- ExtentList();
        r := Some(Extents(xs));
      } else {
        r := None;
      }
    }

    method Inode() returns (r: Option<InodeRecord>)
      requires Valid()
      modifies this`pos
      ensures Valid() && Agrees(r, GetInode(old(Rest())), Rest())
    {
      var inode :- Word(8);
      var mode :- Mode();
      var size :- Word(8);
      var scheme :- Scheme();
      var data :- Locator();
      r := Attrs(InodeRecord(inode, mode, size, scheme, data, 0, 0, 0, 0));
    }

    method Attrs(rec: InodeRecord) returns (r: Option<InodeRecord>)
      requires Valid()
      modifies this`pos
      ensures Valid() && Agrees(r, GetAttrs(rec, old(Rest())), Rest())
    {
      var uid :- Word(4);
      var gid :- Word(4);
      var unixMode :- Word(4);
      var mtime :- Word(8);
      r := Some(rec.(uid := uid, gid := gid, unixMode := unixMode, mtime := mtime));
    }

    method Entry() returns (r: Option<Member>)
      requires Valid()
      modifies this`pos
      ensures Valid() && Agrees(r, GetMember(old(Rest())), Rest())
    {
      var id :- Word(16);
      var b :- U8();
      var state :- State();
      var cls :- Class();
      var w :- Word(8);
      var used :- Word(8);
      var cap :- Word(8);
      r := Some(Member(id, DiskEntry(DiskRoles(b % 2 == 1, (b / 2) % 2 == 1), state, cls, w, used, cap)));
    }

    /** Inserts `n` entries into a fresh table. */
    method MemberTable(n: nat) returns (r: Option<map<DiskId, DiskEntry>>, ghost ms: seq<Member>)
      requires Valid()
      modifies this`pos
      ensures Valid() && Agrees(if r.Some? then Some(ms) else None, GetAll(GetMember, n, old(Rest())), Rest())
      ensures r.Some? ==> r.value == Insert(ms)
    {
      ghost var whole := GetAll(GetMember, n, Rest());
      ms := [];
      var disks: map<DiskId, DiskEntry> := map[];
      AfterNothing(whole);
      for i := 0 to n
        invariant Valid()
        invariant After(ms, GetAll(GetMember, n - i, Rest())) == whole
        invariant disks == Insert(ms)
      {
        ghost var s := Rest();
        GetAllStep(GetMember, n - i, s, ms);
        var m := Entry();
        if m.None? {
          return None, ms;
        }
        assert (ms + [m.value])[..|ms|] == ms;
        ms := ms + [m.value];
        disks := disks[m.value.id := m.value.entry];
      }
      AfterAll(GetMember, Rest(), ms);
      r := Some(disks);
    }

    method Pool() returns (r: Option<PoolMap>)
      requires Valid()
      modifies this`pos
      ensures Valid() && Agrees(r, GetPoolMap(old(Rest())), Rest())
    {
      var epoch :- Word(8);
      var n :- Word(4);
      var disks, ms := MemberTable(n);
      if disks.None? {
        return None;
      }
      r := Some(PoolMap(epoch, disks.value));
    }

    method Group() returns (r: Option<MetaGroup>)
      requires Valid()
      modifies this`pos
      ensures Valid() && Agrees(r, GetGroup(old(Rest())), Rest())
    {
      var primary :- Word(16);
      var has :- U8();
      var backup: Option<DiskId> := None;
      if has != 0 {
        var b :- Word(16);
        backup := Some(b);
      }
      var epoch :- Word(8);
      r := Some(MetaGroup(primary, backup, epoch));
    }

    method InodeOp(t: byte) returns (r: Option<MetaOp>)
      requires Valid()
      modifies this`pos
      ensures Valid() && Agrees(r, GetInodeOp(t, old(Rest())), Rest())
    {
      var inode :- Word(8);
      if t == 3 {
        var c :- Chunk();
        r := Some(AppendChunk(inode, c));
      } else if t == 4 {
        r := Some(BeginConvert(inode));
      } else if t == 5 {
        var xs :- ExtentList();
        r := Some(CompleteConvert(inode, xs));
      } else if t == 6 {
        var x :- Scheme();
        r := Some(SetRedundancyScheme(inode, x));
      } else {
        var xs :- ExtentList();
        r := Some(UpdateExtents(inode, xs));
      }
    }

    method DirectoryOp(t: byte) returns (r: Option<MetaOp>)
      requires Valid() && 1 <= t <= 2
      modifies this`pos
      ensures Valid() && Agrees(r, if t == 1 then GetLink(old(Rest())) else GetUnlink(old(Rest())), Rest())
    {
      var parent :- Word(8);
      var name :- Text();
      if t == 1 {
        var child :- Word(8);
        r := Some(Link(parent, name, child));
      } else {
        r := Some(Unlink(parent, name));
      }
    }
  }

  /** `decode_op`. */
  method DecodeOp(bytes: seq<byte>) returns (op: Option<MetaOp>)
    ensures op == match GetOp(bytes) case Panic => None case Got(v, _) => Some(v)
  {
    var d := new Decoder(bytes);
    var t :- d.U8();
    if t == 0 {
      var rec :- d.Inode();
      op := Some(CreateInode(rec));
    } else if t == 1 || t == 2 {
      op := d.DirectoryOp(t);
    } else if t == 7 {
      var pm :- d.Pool();
      op := Some(PoolMapChange(pm));
    } else if t == 8 {
      var g :- d.Group();
      op := Some(MetaGroupChange(g));
    } else if t <= 9 {
      op := d.InodeOp(t);
    } else {
      op := None;
    }
  }
}

/** The binary format of metadata operations: what the encoders write, what the decoders accept,
    and that decoding undoes encoding whatever bytes follow. */
module Codec {
  import opened Proto
  import opened Arith
  import opened Bytes
  import opened Unicode

  /** Outcome of reading a value off the front of a byte string; the decoder panics on malformed input. */
  datatype Read<+T> = Panic | Got(value: T, rest: seq<byte>) {
    predicate IsFailure() { Panic? }
    function PropagateFailure<U>(): Read<U> requires Panic? { Panic }
    function Extract(): (T, seq<byte>) requires Got? { (value, rest) }
  }

  // ---- primitives ----

  function GetU8(s: seq<byte>): Read<byte>
  {
    if |s| < 1 then Panic else Got(s[0], s[1..])
  }

  function GetWord(s: seq<byte>, k: nat): Read<nat>
  {
    if |s| < k then Panic else Got(FromLe(s[..k]), s[k..])
  }

  function PutBytes(b: seq<byte>): seq<byte>
  {
    Le(|b|, 4) + b
  }

  function GetBytes(s: seq<byte>): Read<seq<byte>>
  {
    var (n, s) :- GetWord(s, 4);
    if |s| < n then Panic else Got(s[..n], s[n..])
  }

  /** A string is its bytes; bytes that are not text make the decoder panic. */
  function GetText(s: seq<byte>): Read<seq<byte>>
  {
    var (b, s) :- GetBytes(s);
    if Utf8(b) then Got(b, s) else Panic
  }

  function PutAll<T(!new)>(put: T -> seq<byte>, xs: seq<T>): seq<byte>
  {
    if xs == [] then [] else put(xs[0]) + PutAll(put, xs[1..])
  }

  function GetAll<T>(get: seq<byte> -> Read<T>, n: nat, s: seq<byte>): Read<seq<T>>
  {
    if n == 0 then Got([], s)
    else
      var (x, s) :- get(s);
      var (xs, s) :- GetAll(get, n - 1, s);
      Got([x] + xs, s)
  }

  function PutList<T(!new)>(put: T -> seq<byte>, xs: seq<T>): seq<byte>
  {
    Le(|xs|, 4) + PutAll(put, xs)
  }

  function GetList<T>(get: seq<byte> -> Read<T>, s: seq<byte>): Read<seq<T>>
  {
    var (n, s) :- GetWord(s, 4);
    GetAll(get, n, s)
  }

  lemma WordReads(n: nat, k: nat, rest: seq<byte>)
    requires n < Pow(256, k)
    ensures GetWord(Le(n, k) + rest, k) == Got(n, rest)
  {
    var s := Le(n, k) + rest;
    assert s[..k] == Le(n, k) && s[k..] == rest;
    FromLeOfLe(n, k);
  }

  lemma U8Reads(b: byte, rest: seq<byte>)
    ensures GetU8([b] + rest) == Got(b, rest)
  {
    assert ([b] + rest)[1..] == rest;
  }

  lemma BytesRead(b: seq<byte>, rest: seq<byte>)
    requires |b| < U32
    ensures GetBytes(PutBytes(b) + rest) == Got(b, rest)
  {
    PowOf256();
    assert PutBytes(b) + rest == Le(|b|, 4) + (b + rest);
    WordReads(|b|, 4, b + rest);
    assert (b + rest)[..|b|] == b && (b + rest)[|b|..] == rest;
  }

  /** `get` reads back `put(x)` in front of anything, for every element. */
  ghost predicate Inverse<T(!new)>(put: T -> seq<byte>, get: seq<byte> -> Read<T>, xs: seq<T>)
  {
    forall x, rest: seq<byte> :: x in xs ==> get(put(x) + rest) == Got(x, rest)
  }

  lemma {:induction false} AllRead<T(!new)>(put: T -> seq<byte>, get: seq<byte> -> Read<T>, xs: seq<T>, rest: seq<byte>)
    requires Inverse(put, get, xs)
    ensures GetAll(get, |xs|, PutAll(put, xs) + rest) == Got(xs, rest)
  {
    if xs == [] {
      assert PutAll(put, xs) + rest == rest;
    } else {
      var tail := PutAll(put, xs[1..]) + rest;
      assert PutAll(put, xs) + rest == put(xs[0]) + tail;
      assert xs[0] in xs;
      AllRead(put, get, xs[1..], rest);
      assert [xs[0]] + xs[1..] == xs;
    }
  }

  lemma ListReads<T(!new)>(put: T -> seq<byte>, get: seq<byte> -> Read<T>, xs: seq<T>, rest: seq<byte>)
    requires |xs| < U32 && Inverse(put, get, xs)
    ensures GetList(get, PutList(put, xs) + rest) == Got(xs, rest)
  {
    PowOf256();
    var tail := PutAll(put, xs) + rest;
    assert PutList(put, xs) + rest == Le(|xs|, 4) + tail;
    WordReads(|xs|, 4, tail);
    AllRead(put, get, xs, rest);
  }

  // ---- enumerations ----

  function PutClass(c: DiskClass): seq<byte>
  {
    match c case Hdd => [0] case Ssd => [1] case Nvme => [2]
  }

  function GetClass(s: seq<byte>): Read<DiskClass>
  {
    var (t, s) :- GetU8(s);
    if t == 0 then Got(Hdd, s) else if t == 1 then Got(Ssd, s) else if t == 2 then Got(Nvme, s) else Panic
  }

  function PutMode(m: InodeMode): seq<byte>
  {
    match m case AppendOnly => [0] case Converting => [1] case Writable => [2]
  }

  function GetMode(s: seq<byte>): Read<InodeMode>
  {
    var (t, s) :- GetU8(s);
    if t == 0 then Got(AppendOnly, s) else if t == 1 then Got(Converting, s)
    else if t == 2 then Got(Writable, s) else Panic
  }

  function PutState(m: DiskState): seq<byte>
  {
    match m case Active => [0] case Draining => [1] case Dead => [2]
  }

  function GetState(s: seq<byte>): Read<DiskState>
  {
    var (t, s) :- GetU8(s);
    if t == 0 then Got(Active, s) else if t == 1 then Got(Draining, s) else if t == 2 then Got(Dead, s) else Panic
  }

  /** Two bits: data role in bit 0, metadata role in bit 1. */
  function PutRoles(r: DiskRoles): seq<byte>
  {
    [(if r.data then 1 else 0) + (if r.metadata then 2 else 0)]
  }

  function GetRoles(s: seq<byte>): Read<DiskRoles>
  {
    var (b, s) :- GetU8(s);
    Got(DiskRoles(b % 2 == 1, (b / 2) % 2 == 1), s)
  }

  lemma EnumsRead(c: DiskClass, m: InodeMode, t: DiskState, r: DiskRoles, rest: seq<byte>)
    ensures GetClass(PutClass(c) + rest) == Got(c, rest)
    ensures GetMode(PutMode(m) + rest) == Got(m, rest)
    ensures GetState(PutState(t) + rest) == Got(t, rest)
    ensures GetRoles(PutRoles(r) + rest) == Got(r, rest)
  {
    U8Reads(PutClass(c)[0], rest);
    U8Reads(PutMode(m)[0], rest);
    U8Reads(PutState(t)[0], rest);
    U8Reads(PutRoles(r)[0], rest);
  }

  // ---- redundancy schemes ----

  function PutSlot(slot: ReplicaSlot): seq<byte>
  {
    match slot
    case AnyOfClass(None) => [0]
    case AnyOfClass(Some(c)) => [1] + PutClass(c)
    case Pinned(id) => [2] + Le(id, 16)
  }

  function GetSlot(s: seq<byte>): Read<ReplicaSlot>
  {
    var (t, s) :- GetU8(s);
    if t == 0 then Got(AnyOfClass(None), s)
    else if t == 1 then
      var (c, s) :- GetClass(s);
      Got(AnyOfClass(Some(c)), s)
    else if t == 2 then
      var (id, s) :- GetWord(s, 16);
      Got(Pinned(id), s)
    else Panic
  }

  lemma SlotReads(slot: ReplicaSlot, rest: seq<byte>)
    requires SlotFits(slot)
    ensures GetSlot(PutSlot(slot) + rest) == Got(slot, rest)
  {
    match slot
    case AnyOfClass(None) => U8Reads(0, rest);
    case AnyOfClass(Some(c)) =>
      assert PutSlot(slot) + rest == [1] + (PutClass(c) + rest);
      U8Reads(1, PutClass(c) + rest);
      EnumsRead(c, AppendOnly, Active, DiskRoles(true, true), rest);
    case Pinned(id) =>
      assert PutSlot(slot) + rest == [2] + (Le(id, 16) + rest);
      U8Reads(2, Le(id, 16) + rest);
      PowOf256();
      WordReads(id, 16, rest);
  }

  function PutScheme(x: RedundancyScheme): seq<byte>
  {
    match x
    case Replicated(slots) => [0] + PutList(PutSlot, slots)
    case ErasureCoded(k, m) => [1] + Le(k, 1) + Le(m, 1)
  }

  function GetScheme(s: seq<byte>): Read<RedundancyScheme>
  {
    var (t, s) :- GetU8(s);
    if t == 0 then
      var (slots, s) :- GetList(GetSlot, s);
      Got(Replicated(slots), s)
    else if t == 1 then
      var (k, s) :- GetU8(s);
      var (m, s) :- GetU8(s);
      Got(ErasureCoded(k, m), s)
    else Panic
  }

  ghost predicate SchemeFits(x: RedundancyScheme)
  {
    match x
    case Replicated(slots) => |slots| < U32 && forall slot :: slot in slots ==> SlotFits(slot)
    case ErasureCoded(k, m) => k < U8 && m < U8
  }

  lemma SchemeReads(x: RedundancyScheme, rest: seq<byte>)
    requires SchemeFits(x)
    ensures GetScheme(PutScheme(x) + rest) == Got(x, rest)
  {
    match x
    case Replicated(slots) =>
      var tail := PutList(PutSlot, slots) + rest;
      assert PutScheme(x) + rest == [0] + tail;
      U8Reads(0, tail);
      forall slot, r: seq<byte> | slot in slots ensures GetSlot(PutSlot(slot) + r) == Got(slot, r) {
        SlotReads(slot, r);
      }
      ListReads(PutSlot, GetSlot, slots, rest);
    case ErasureCoded(k, m) =>
      assert PutScheme(x) + rest == [1] + ([k] + ([m] + rest));
      U8Reads(1, [k] + ([m] + rest));
      U8Reads(k, [m] + rest);
      U8Reads(m, rest);
  }

  // ---- data locators ----

  function PutReplica(r: Replica): seq<byte>
  {
    Le(r.disk, 16) + Le(r.offset, 8)
  }

  function GetReplica(s: seq<byte>): Read<Replica>
  {
    var (id, s) :- GetWord(s, 16);
    var (off, s) :- GetWord(s, 8);
    Got(Replica(id, off), s)
  }

  predicate ReplicaFits(r: Replica)
  {
    r.disk < U128 && r.offset < U64
  }

  ghost predicate ReplicasFit(rs: seq<Replica>)
  {
    |rs| < U32 && forall r :: r in rs ==> ReplicaFits(r)
  }

  lemma ReplicaReads(r: Replica, rest: seq<byte>)
    requires ReplicaFits(r)
    ensures GetReplica(PutReplica(r) + rest) == Got(r, rest)
  {
    PowOf256();
    assert PutReplica(r) + rest == Le(r.disk, 16) + (Le(r.offset, 8) + rest);
    WordReads(r.disk, 16, Le(r.offset, 8) + rest);
    WordReads(r.offset, 8, rest);
  }

  lemma ReplicasRead(rs: seq<Replica>, rest: seq<byte>)
    requires ReplicasFit(rs)
    ensures GetList(GetReplica, PutList(PutReplica, rs) + rest) == Got(rs, rest)
  {
    forall r, t: seq<byte> | r in rs ensures GetReplica(PutReplica(r) + t) == Got(r, t) { ReplicaReads(r, t); }
    ListReads(PutReplica, GetReplica, rs, rest);
  }

  function PutChunk(c: ChunkPointer): seq<byte>
  {
    Le(c.chunkSeq, 8) + PutList(PutReplica, c.replicas) + Le(c.len, 4) + Le(c.checksum, 4)
  }

  function GetChunk(s: seq<byte>): Read<ChunkPointer>
  {
    var (q, s) :- GetWord(s, 8);
    var (rs, s) :- GetList(GetReplica, s);
    var (len, s) :- GetWord(s, 4);
    var (sum, s) :- GetWord(s, 4);
    Got(ChunkPointer(q, rs, len, sum), s)
  }

  ghost predicate ChunkFits(c: ChunkPointer)
  {
    c.chunkSeq < U64 && ReplicasFit(c.replicas) && c.len < U32 && c.checksum < U32
  }

  lemma ChunkReads(c: ChunkPointer, rest: seq<byte>)
    requires ChunkFits(c)
    ensures GetChunk(PutChunk(c) + rest) == Got(c, rest)
  {
    PowOf256();
    var s3 := Le(c.checksum, 4) + rest;
    var s2 := Le(c.len, 4) + s3;
    var s1 := PutList(PutReplica, c.replicas) + s2;
    assert PutChunk(c) + rest == Le(c.chunkSeq, 8) + s1;
    WordReads(c.chunkSeq, 8, s1);
    ReplicasRead(c.replicas, s2);
    WordReads(c.len, 4, s3);
    WordReads(c.checksum, 4, rest);
  }

  function PutExtent(x: Extent): seq<byte>
  {
    Le(x.fileOffset, 8) + Le(x.len, 4) + PutList(PutReplica, x.replicas) + Le(x.checksum, 4)
  }

  function GetExtent(s: seq<byte>): Read<Extent>
  {
    var (off, s) :- GetWord(s, 8);
    var (len, s) :- GetWord(s, 4);
    var (rs, s) :- GetList(GetReplica, s);
    var (sum, s) :- GetWord(s, 4);
    Got(Extent(off, len, rs, sum), s)
  }

  ghost predicate ExtentFits(x: Extent)
  {
    x.fileOffset < U64 && x.len < U32 && ReplicasFit(x.replicas) && x.checksum < U32
  }

  ghost predicate ExtentsFit(xs: seq<Extent>)
  {
    |xs| < U32 && forall x :: x in xs ==> ExtentFits(x)
  }

  lemma ExtentReads(x: Extent, rest: seq<byte>)
    requires ExtentFits(x)
    ensures GetExtent(PutExtent(x) + rest) == Got(x, rest)
  {
    PowOf256();
    var s3 := Le(x.checksum, 4) + rest;
    var s2 := PutList(PutReplica, x.replicas) + s3;
    var s1 := Le(x.len, 4) + s2;
    assert PutExtent(x) + rest == Le(x.fileOffset, 8) + s1;
    WordReads(x.fileOffset, 8, s1);
    WordReads(x.len, 4, s2);
    ReplicasRead(x.replicas, s3);
    WordReads(x.checksum, 4, rest);
  }

  lemma ExtentsRead(xs: seq<Extent>, rest: seq<byte>)
    requires ExtentsFit(xs)
    ensures GetList(GetExtent, PutList(PutExtent, xs) + rest) == Got(xs, rest)
  {
    forall x, t: seq<byte> | x in xs ensures GetExtent(PutExtent(x) + t) == Got(x, t) { ExtentReads(x, t); }
    ListReads(PutExtent, GetExtent, xs, rest);
  }

  function PutLocator(d: DataLocator): seq<byte>
  {
    match d
    case ChunkLog(cs) => [0] + PutList(PutChunk, cs)
    case Extents(xs) => [1] + PutList(PutExtent, xs)
  }

  function GetLocator(s: seq<byte>): Read<DataLocator>
  {
    var (t, s) :- GetU8(s);
    if t == 0 then
      var (cs, s) :- GetList(GetChunk, s);
      Got(ChunkLog(cs), s)
    else if t == 1 then
      var (xs, s) :- GetList(GetExtent, s);
      Got(Extents(xs), s)
    else Panic
  }

  ghost predicate LocatorFits(d: DataLocator)
  {
    match d
    case ChunkLog(cs) => |cs| < U32 && forall c :: c in cs ==> ChunkFits(c)
    case Extents(xs) => ExtentsFit(xs)
  }

  lemma LocatorReads(d: DataLocator, rest: seq<byte>)
    requires LocatorFits(d)
    ensures GetLocator(PutLocator(d) + rest) == Got(d, rest)
  {
    match d
    case ChunkLog(cs) =>
      var tail := PutList(PutChunk, cs) + rest;
      assert PutLocator(d) + rest == [0] + tail;
      U8Reads(0, tail);
      forall c, t: seq<byte> | c in cs ensures GetChunk(PutChunk(c) + t) == Got(c, t) { ChunkReads(c, t); }
      ListReads(PutChunk, GetChunk, cs, rest);
    case Extents(xs) =>
      var tail := PutList(PutExtent, xs) + rest;
      assert PutLocator(d) + rest == [1] + tail;
      U8Reads(1, tail);
      ExtentsRead(xs, rest);
  }

  // ---- inode records ----

  function PutAttrs(r: InodeRecord): seq<byte>
  {
    Le(r.uid, 4) + Le(r.gid, 4) + Le(r.unixMode, 4) + Le(r.mtime, 8)
  }

  function PutInode(r: InodeRecord): seq<byte>
  {
    Le(r.inode, 8) + PutMode(r.mode) + Le(r.size, 8) + PutScheme(r.redundancy) + PutLocator(r.data) + PutAttrs(r)
  }

  function GetAttrs(r: InodeRecord, s: seq<byte>): Read<InodeRecord>
  {
    var (uid, s) :- GetWord(s, 4);
    var (gid, s) :- GetWord(s, 4);
    var (unixMode, s) :- GetWord(s, 4);
    var (mtime, s) :- GetWord(s, 8);
    Got(r.(uid := uid, gid := gid, unixMode := unixMode, mtime := mtime), s)
  }

  function GetInode(s: seq<byte>): Read<InodeRecord>
  {
    var (inode, s) :- GetWord(s, 8);
    var (mode, s) :- GetMode(s);
    var (size, s) :- GetWord(s, 8);
    var (scheme, s) :- GetScheme(s);
    var (data, s) :- GetLocator(s);
    GetAttrs(InodeRecord(inode, mode, size, scheme, data, 0, 0, 0, 0), s)
  }

  ghost predicate InodeFits(r: InodeRecord)
  {
    && r.inode < U64 && r.size < U64 && SchemeFits(r.redundancy) && LocatorFits(r.data)
    && r.uid < U32 && r.gid < U32 && r.unixMode < U32 && r.mtime < U64
  }

  lemma AttrsRead(r: InodeRecord, r0: InodeRecord, rest: seq<byte>)
    requires r.uid < U32 && r.gid < U32 && r.unixMode < U32 && r.mtime < U64
    requires r0 == r.(uid := 0, gid := 0, unixMode := 0, mtime := 0)
    ensures GetAttrs(r0, PutAttrs(r) + rest) == Got(r, rest)
  {
    PowOf256();
    var s3 := Le(r.mtime, 8) + rest;
    var s2 := Le(r.unixMode, 4) + s3;
    var s1 := Le(r.gid, 4) + s2;
    assert PutAttrs(r) + rest == Le(r.uid, 4) + s1;
    WordReads(r.uid, 4, s1);
    WordReads(r.gid, 4, s2);
    WordReads(r.unixMode, 4, s3);
    WordReads(r.mtime, 8, rest);
  }

  lemma Concat6(a: seq<byte>, b: seq<byte>, c: seq<byte>, d: seq<byte>, e: seq<byte>, f: seq<byte>, g: seq<byte>)
    ensures a + b + c + d + e + f + g == a + (b + (c + (d + (e + (f + g)))))
  {
    assert a + b + c + d + e + f + g == a + b + c + d + e + (f + g);
    assert a + b + c + d + e + (f + g) == a + b + c + d + (e + (f + g));
    var t := e + (f + g);
    assert a + b + c + d + t == a + (b + (c + (d + t)));
  }

  lemma InodeReads(r: InodeRecord, rest: seq<byte>)
    requires InodeFits(r)
    ensures GetInode(PutInode(r) + rest) == Got(r, rest)
  {
    PowOf256();
    var s5 := PutAttrs(r) + rest;
    var s4 := PutLocator(r.data) + s5;
    var s3 := PutScheme(r.redundancy) + s4;
    var s2 := Le(r.size, 8) + s3;
    var s1 := PutMode(r.mode) + s2;
    Concat6(Le(r.inode, 8), PutMode(r.mode), Le(r.size, 8), PutScheme(r.redundancy), PutLocator(r.data), PutAttrs(r),
            rest);
    WordReads(r.inode, 8, s1);
    EnumsRead(Hdd, r.mode, Active, DiskRoles(true, true), s2);
    WordReads(r.size, 8, s3);
    SchemeReads(r.redundancy, s4);
    LocatorReads(r.data, s5);
    AttrsRead(r, InodeRecord(r.inode, r.mode, r.size, r.redundancy, r.data, 0, 0, 0, 0), rest);
  }

  // ---- pool map and metadata group ----

  datatype Member = Member(id: DiskId, entry: DiskEntry)

  function PutMember(m: Member): seq<byte>
  {
    Le(m.id, 16) + PutRoles(m.entry.roles) + PutState(m.entry.state) + PutClass(m.entry.cls)
    + Le(m.entry.weight, 8) + Le(m.entry.usedBytes, 8) + Le(m.entry.capacityBytes, 8)
  }

  function GetMember(s: seq<byte>): Read<Member>
  {
    var (id, s) :- GetWord(s, 16);
    var (roles, s) :- GetRoles(s);
    var (state, s) :- GetState(s);
    var (cls, s) :- GetClass(s);
    var (w, s) :- GetWord(s, 8);
    var (used, s) :- GetWord(s, 8);
    var (cap, s) :- GetWord(s, 8);
    Got(Member(id, DiskEntry(roles, state, cls, w, used, cap)), s)
  }

  predicate MemberFits(m: Member)
  {
    m.id < U128 && m.entry.weight < U64 && m.entry.usedBytes < U64 && m.entry.capacityBytes < U64
  }

  lemma MemberReads(m: Member, rest: seq<byte>)
    requires MemberFits(m)
    ensures GetMember(PutMember(m) + rest) == Got(m, rest)
  {
    PowOf256();
    var e := m.entry;
    var s6 := Le(e.capacityBytes, 8) + rest;
    var s5 := Le(e.usedBytes, 8) + s6;
    var s4 := Le(e.weight, 8) + s5;
    var s3 := PutClass(e.cls) + s4;
    var s2 := PutState(e.state) + s3;
    var s1 := PutRoles(e.roles) + s2;
    assert PutMember(m) + rest == Le(m.id, 16) + s1;
    WordReads(m.id, 16, s1);
    EnumsRead(e.cls, AppendOnly, e.state, e.roles, s2);
    EnumsRead(e.cls, AppendOnly, e.state, e.roles, s3);
    EnumsRead(e.cls, AppendOnly, e.state, e.roles, s4);
    WordReads(e.weight, 8, s5);
    WordReads(e.usedBytes, 8, s6);
    WordReads(e.capacityBytes, 8, rest);
  }

  /** The table iterated in the order `order`. */
  function Members(disks: map<DiskId, DiskEntry>, order: seq<DiskId>): (ms: seq<Member>)
    requires forall id :: id in order ==> id in disks
    ensures |ms| == |order| && forall i :: 0 <= i < |order| ==> ms[i] == Member(order[i], disks[order[i]])
  {
    seq(|order|, i requires 0 <= i < |order| => Member(order[i], disks[order[i]]))
  }

  /** `order` is one way of iterating over the table. */
  ghost predicate Iterates(disks: map<DiskId, DiskEntry>, order: seq<DiskId>)
  {
    && (forall i, j :: 0 <= i < j < |order| ==> order[i] != order[j])
    && (forall id :: id in order <==> id in disks)
  }

  function Insert(ms: seq<Member>): map<DiskId, DiskEntry>
  {
    if ms == [] then map[]
    else Insert(ms[..|ms| - 1])[ms[|ms| - 1].id := ms[|ms| - 1].entry]
  }

  lemma {:induction false} InsertRebuilds(disks: map<DiskId, DiskEntry>, order: seq<DiskId>)
    requires forall id :: id in order ==> id in disks
    ensures forall id :: id in Insert(Members(disks, order)) <==> id in order
    ensures forall id :: id in order ==> Insert(Members(disks, order))[id] == disks[id]
  {
    if order != [] {
      var n := |order| - 1;
      var front := order[..n];
      assert order == front + [order[n]];
      assert Members(disks, order)[..n] == Members(disks, front);
      InsertRebuilds(disks, front);
    }
  }

  function PutPoolMap(pm: PoolMap, order: seq<DiskId>): seq<byte>
    requires forall id :: id in order ==> id in pm.disks
  {
    Le(pm.epoch, 8) + PutList(PutMember, Members(pm.disks, order))
  }

  function GetPoolMap(s: seq<byte>): Read<PoolMap>
  {
    var (epoch, s) :- GetWord(s, 8);
    var (ms, s) :- GetList(GetMember, s);
    Got(PoolMap(epoch, Insert(ms)), s)
  }

  ghost predicate PoolMapFits(pm: PoolMap)
  {
    && pm.epoch < U64 && |pm.disks| < U32
    && forall id :: id in pm.disks ==> MemberFits(Member(id, pm.disks[id]))
  }

  ghost function IdSet(order: seq<DiskId>): set<DiskId>
  {
    set id | id in order
  }

  lemma OrderLength(disks: map<DiskId, DiskEntry>, order: seq<DiskId>)
    requires Iterates(disks, order)
    ensures |order| == |disks|
  {
    assert IdSet(order) == disks.Keys;
    NoDupCardinality(order);
  }

  lemma {:induction false} NoDupCardinality(order: seq<DiskId>)
    requires forall i, j :: 0 <= i < j < |order| ==> order[i] != order[j]
    ensures |IdSet(order)| == |order|
  {
    if order != [] {
      var n := |order| - 1;
      var front := order[..n];
      NoDupCardinality(front);
      assert order[n] !in front;
      assert order == front + [order[n]];
      assert IdSet(order) == IdSet(front) + {order[n]};
    }
  }

  /** Any iteration order of the table decodes to the same pool map. */
  lemma PoolMapReads(pm: PoolMap, order: seq<DiskId>, rest: seq<byte>)
    requires PoolMapFits(pm) && Iterates(pm.disks, order)
    ensures GetPoolMap(PutPoolMap(pm, order) + rest) == Got(pm, rest)
  {
    PowOf256();
    var ms := Members(pm.disks, order);
    var tail := PutList(PutMember, ms) + rest;
    assert PutPoolMap(pm, order) + rest == Le(pm.epoch, 8) + tail;
    WordReads(pm.epoch, 8, tail);
    OrderLength(pm.disks, order);
    forall m, t: seq<byte> | m in ms ensures GetMember(PutMember(m) + t) == Got(m, t) {
      var i :| 0 <= i < |ms| && ms[i] == m;
      assert order[i] in order;
      MemberReads(m, t);
    }
    ListReads(PutMember, GetMember, ms, rest);
    InsertRebuilds(pm.disks, order);
    assert Insert(ms) == pm.disks;
  }

  function PutGroup(g: MetaGroup): seq<byte>
  {
    Le(g.primary, 16) + (if g.backup.Some? then [1] + Le(g.backup.value, 16) else [0]) + Le(g.epoch, 8)
  }

  function GetGroup(s: seq<byte>): Read<MetaGroup>
  {
    var (p, s) :- GetWord(s, 16);
    var (has, s) :- GetU8(s);
    if has != 0 then
      var (b, s) :- GetWord(s, 16);
      var (e, s) :- GetWord(s, 8);
      Got(MetaGroup(p, Some(b), e), s)
    else
      var (e, s) :- GetWord(s, 8);
      Got(MetaGroup(p, None, e), s)
  }

  predicate GroupFits(g: MetaGroup)
  {
    g.primary < U128 && (g.backup.Some? ==> g.backup.value < U128) && g.epoch < U64
  }

  lemma GroupReads(g: MetaGroup, rest: seq<byte>)
    requires GroupFits(g)
    ensures GetGroup(PutGroup(g) + rest) == Got(g, rest)
  {
    PowOf256();
    var s2 := Le(g.epoch, 8) + rest;
    WordReads(g.epoch, 8, rest);
    if g.backup.Some? {
      var s1 := Le(g.backup.value, 16) + s2;
      assert PutGroup(g) + rest == Le(g.primary, 16) + ([1] + s1);
      WordReads(g.primary, 16, [1] + s1);
      U8Reads(1, s1);
      WordReads(g.backup.value, 16, s2);
    } else {
      assert PutGroup(g) + rest == Le(g.primary, 16) + ([0] + s2);
      WordReads(g.primary, 16, [0] + s2);
      U8Reads(0, s2);
    }
  }

  // ---- operations ----

  function Tag(op: MetaOp): byte
  {
    match op
    case CreateInode(_) => 0
    case Link(_, _, _) => 1
    case Unlink(_, _) => 2
    case AppendChunk(_, _) => 3
    case BeginConvert(_) => 4
    case CompleteConvert(_, _) => 5
    case SetRedundancyScheme(_, _) => 6
    case PoolMapChange(_) => 7
    case MetaGroupChange(_) => 8
    case UpdateExtents(_, _) => 9
  }

  /** `order` is the iteration order of the pool map, when the operation carries one. */
  function PutBody(op: MetaOp, order: seq<DiskId>): seq<byte>
    requires op.PoolMapChange? ==> forall id :: id in order ==> id in op.pool.disks
  {
    match op
    case CreateInode(rec) => PutInode(rec)
    case Link(parent, name, child) => Le(parent, 8) + PutBytes(name) + Le(child, 8)
    case Unlink(parent, name) => Le(parent, 8) + PutBytes(name)
    case AppendChunk(inode, chunk) => Le(inode, 8) + PutChunk(chunk)
    case BeginConvert(inode) => Le(inode, 8)
    case CompleteConvert(inode, extents) => Le(inode, 8) + PutList(PutExtent, extents)
    case SetRedundancyScheme(inode, scheme) => Le(inode, 8) + PutScheme(scheme)
    case PoolMapChange(pm) => PutPoolMap(pm, order)
    case MetaGroupChange(g) => PutGroup(g)
    case UpdateExtents(inode, extents) => Le(inode, 8) + PutList(PutExtent, extents)
  }

  function PutOp(op: MetaOp, order: seq<DiskId>): seq<byte>
    requires op.PoolMapChange? ==> forall id :: id in order ==> id in op.pool.disks
  {
    [Tag(op)] + PutBody(op, order)
  }

  function GetLink(s: seq<byte>): Read<MetaOp>
  {
    var (p, s) :- GetWord(s, 8);
    var (name, s) :- GetText(s);
    var (c, s) :- GetWord(s, 8);
    Got(Link(p, name, c), s)
  }

  function GetUnlink(s: seq<byte>): Read<MetaOp>
  {
    var (p, s) :- GetWord(s, 8);
    var (name, s) :- GetText(s);
    Got(Unlink(p, name), s)
  }

  function GetInodeOp(t: byte, s: seq<byte>): Read<MetaOp>
  {
    var (i, s) :- GetWord(s, 8);
    if t == 3 then
      var (c, s) :- GetChunk(s);
      Got(AppendChunk(i, c), s)
    else if t == 4 then Got(BeginConvert(i), s)
    else if t == 5 then
      var (xs, s) :- GetList(GetExtent, s);
      Got(CompleteConvert(i, xs), s)
    else if t == 6 then
      var (x, s) :- GetScheme(s);
      Got(SetRedundancyScheme(i, x), s)
    else
      var (xs, s) :- GetList(GetExtent, s);
      Got(UpdateExtents(i, xs), s)
  }

  function GetBody(t: byte, s: seq<byte>): Read<MetaOp>
  {
    if t == 0 then
      var (r, s) :- GetInode(s);
      Got(CreateInode(r), s)
    else if t == 1 then GetLink(s)
    else if t == 2 then GetUnlink(s)
    else if t == 7 then
      var (pm, s) :- GetPoolMap(s);
      Got(PoolMapChange(pm), s)
    else if t == 8 then
      var (g, s) :- GetGroup(s);
      Got(MetaGroupChange(g), s)
    else if t <= 9 then GetInodeOp(t, s)
    else Panic
  }

  function GetOp(s: seq<byte>): Read<MetaOp>
  {
    var (t, s) :- GetU8(s);
    GetBody(t, s)
  }

  /** Names are text. */
  predicate NameFits(name: seq<byte>)
  {
    |name| < U32 && Utf8(name)
  }

  /** Every field fits its width on the wire and every list its length word. */
  ghost predicate OpFits(op: MetaOp)
  {
    match op
    case CreateInode(rec) => InodeFits(rec)
    case Link(parent, name, child) => parent < U64 && NameFits(name) && child < U64
    case Unlink(parent, name) => parent < U64 && NameFits(name)
    case AppendChunk(inode, chunk) => inode < U64 && ChunkFits(chunk)
    case BeginConvert(inode) => inode < U64
    case CompleteConvert(inode, extents) => inode < U64 && ExtentsFit(extents)
    case SetRedundancyScheme(inode, scheme) => inode < U64 && SchemeFits(scheme)
    case PoolMapChange(pm) => PoolMapFits(pm)
    case MetaGroupChange(g) => GroupFits(g)
    case UpdateExtents(inode, extents) => inode < U64 && ExtentsFit(extents)
  }

  lemma LinkReads(parent: nat, name: seq<byte>, child: nat, rest: seq<byte>)
    requires parent < U64 && |name| < U32 && child < U64
    ensures GetLink(Le(parent, 8) + PutBytes(name) + Le(child, 8) + rest)
            == if Utf8(name) then Got(Link(parent, name, child), rest) else Panic
  {
    var s2 := Le(child, 8) + rest;
    Cat(Le(parent, 8) + PutBytes(name), Le(child, 8), rest);
    InodeFirst(parent, PutBytes(name), s2);
    BytesRead(name, s2);
    PowOf256();
    WordReads(child, 8, rest);
  }

  lemma UnlinkReads(parent: nat, name: seq<byte>, rest: seq<byte>)
    requires parent < U64 && |name| < U32
    ensures GetUnlink(Le(parent, 8) + PutBytes(name) + rest)
            == if Utf8(name) then Got(Unlink(parent, name), rest) else Panic
  {
    PowOf256();
    assert Le(parent, 8) + PutBytes(name) + rest == Le(parent, 8) + (PutBytes(name) + rest);
    WordReads(parent, 8, PutBytes(name) + rest);
    BytesRead(name, rest);
  }

  /** The leading inode number of the remaining operations. */
  lemma InodeFirst(inode: nat, body: seq<byte>, rest: seq<byte>)
    requires inode < U64
    ensures Le(inode, 8) + body + rest == Le(inode, 8) + (body + rest)
    ensures GetWord(Le(inode, 8) + (body + rest), 8) == Got(inode, body + rest)
  {
    PowOf256();
    WordReads(inode, 8, body + rest);
  }

  lemma AppendReads(inode: nat, chunk: ChunkPointer, rest: seq<byte>)
    requires inode < U64 && ChunkFits(chunk)
    ensures GetInodeOp(3, Le(inode, 8) + PutChunk(chunk) + rest) == Got(AppendChunk(inode, chunk), rest)
  {
    InodeFirst(inode, PutChunk(chunk), rest);
    ChunkReads(chunk, rest);
  }

  lemma BeginReads(inode: nat, rest: seq<byte>)
    requires inode < U64
    ensures GetInodeOp(4, Le(inode, 8) + rest) == Got(BeginConvert(inode), rest)
  {
    PowOf256();
    WordReads(inode, 8, rest);
  }

  lemma ExtentsOpReads(inode: nat, xs: seq<Extent>, rest: seq<byte>)
    requires inode < U64 && ExtentsFit(xs)
    ensures GetInodeOp(5, Le(inode, 8) + PutList(PutExtent, xs) + rest) == Got(CompleteConvert(inode, xs), rest)
    ensures GetInodeOp(9, Le(inode, 8) + PutList(PutExtent, xs) + rest) == Got(UpdateExtents(inode, xs), rest)
  {
    InodeFirst(inode, PutList(PutExtent, xs), rest);
    ExtentsRead(xs, rest);
  }

  lemma SetSchemeReads(inode: nat, x: RedundancyScheme, rest: seq<byte>)
    requires inode < U64 && SchemeFits(x)
    ensures GetInodeOp(6, Le(inode, 8) + PutScheme(x) + rest) == Got(SetRedundancyScheme(inode, x), rest)
  {
    InodeFirst(inode, PutScheme(x), rest);
    SchemeReads(x, rest);
  }

  lemma BodyReads(op: MetaOp, order: seq<DiskId>, rest: seq<byte>)
    requires OpFits(op)
    requires op.PoolMapChange? ==> Iterates(op.pool.disks, order)
    ensures GetBody(Tag(op), PutBody(op, order) + rest) == Got(op, rest)
  {
    match op
    case CreateInode(rec) => InodeReads(rec, rest);
    case Link(parent, name, child) => LinkReads(parent, name, child, rest);
    case Unlink(parent, name) => UnlinkReads(parent, name, rest);
    case AppendChunk(inode, chunk) => AppendReads(inode, chunk, rest);
    case BeginConvert(inode) => BeginReads(inode, rest);
    case CompleteConvert(inode, xs) => ExtentsOpReads(inode, xs, rest);
    case UpdateExtents(inode, xs) => ExtentsOpReads(inode, xs, rest);
    case SetRedundancyScheme(inode, x) => SetSchemeReads(inode, x, rest);
    case PoolMapChange(pm) => PoolMapReads(pm, order, rest);
    case MetaGroupChange(g) => GroupReads(g, rest);
  }

  /** Decoding the encoding of an operation, followed by anything, gives the operation back and
      consumes exactly the encoding; a pool map may be iterated in any order. */
  lemma OpReads(op: MetaOp, order: seq<DiskId>, rest: seq<byte>)
    requires OpFits(op)
    requires op.PoolMapChange? ==> Iterates(op.pool.disks, order)
    ensures GetOp(PutOp(op, order) + rest) == Got(op, rest)
  {
    var body := PutBody(op, order) + rest;
    assert PutOp(op, order) + rest == [Tag(op)] + body;
    U8Reads(Tag(op), body);
    BodyReads(op, order, rest);
  }

  /** The empty payload that a torn WAL header can produce makes the decoder panic. */
  lemma EmptyPayloadPanics()
    ensures GetOp([]).Panic?
  {
  }
}

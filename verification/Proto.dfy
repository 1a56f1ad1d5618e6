/** The vocabulary shared by every layer. Integers are unbounded here; the widths of the wire
    format are applied where values are encoded. Strings are their UTF-8 bytes. */
module Proto {

  datatype Option<+T> = None | Some(value: T) {
    predicate IsFailure() { None? }
    function PropagateFailure<U>(): Option<U> requires None? { None }
    function Extract(): T requires Some? { value }
  }

  type byte = x: int | 0 <= x < 256

  /** 128-bit identifiers, carried as their value. */
  type DiskId = nat
  type InodeId = nat

  datatype DiskRoles = DiskRoles(data: bool, metadata: bool)
  datatype DiskState = Active | Draining | Dead
  datatype DiskClass = Hdd | Ssd | Nvme

  /** `weight` is the bit pattern of an IEEE double. */
  datatype DiskEntry = DiskEntry(
    roles: DiskRoles, state: DiskState, cls: DiskClass,
    weight: nat, usedBytes: nat, capacityBytes: nat)

  datatype PoolMap = PoolMap(epoch: nat, disks: map<DiskId, DiskEntry>)
  datatype MetaGroup = MetaGroup(primary: DiskId, backup: Option<DiskId>, epoch: nat)

  datatype InodeMode = AppendOnly | Converting | Writable

  /** One copy of a chunk or extent: the disk and the offset inside that disk's data region. */
  datatype Replica = Replica(disk: DiskId, offset: nat)

  datatype ChunkPointer = ChunkPointer(chunkSeq: nat, replicas: seq<Replica>, len: nat, checksum: nat)
  datatype Extent = Extent(fileOffset: nat, len: nat, replicas: seq<Replica>, checksum: nat)
  datatype DataLocator = ChunkLog(chunks: seq<ChunkPointer>) | Extents(extents: seq<Extent>)

  datatype ReplicaSlot = AnyOfClass(required: Option<DiskClass>) | Pinned(id: DiskId)
  datatype RedundancyScheme =
    | Replicated(slots: seq<ReplicaSlot>)
    | ErasureCoded(dataShards: nat, parityShards: nat)

  datatype InodeRecord = InodeRecord(
    inode: InodeId, mode: InodeMode, size: nat, redundancy: RedundancyScheme, data: DataLocator,
    uid: nat, gid: nat, unixMode: nat, mtime: nat)

  datatype MetaOp =
    | CreateInode(rec: InodeRecord)
    | Link(parent: InodeId, name: seq<byte>, child: InodeId)
    | Unlink(parent: InodeId, name: seq<byte>)
    | AppendChunk(inode: InodeId, chunk: ChunkPointer)
    | BeginConvert(inode: InodeId)
    | CompleteConvert(inode: InodeId, extents: seq<Extent>)
    | UpdateExtents(inode: InodeId, extents: seq<Extent>)
    | SetRedundancyScheme(inode: InodeId, scheme: RedundancyScheme)
    | PoolMapChange(pool: PoolMap)
    | MetaGroupChange(group: MetaGroup)

  /** A pinned id fits its 128 bits. */
  predicate SlotFits(slot: ReplicaSlot)
  {
    slot.Pinned? ==> slot.id < U128
  }

  const U8: nat := 0x100
  const U32: nat := 0x1_0000_0000
  const U64: nat := 0x1_0000_0000_0000_0000
  const U128: nat := 0x1_0000_0000_0000_0000_0000_0000_0000_0000
}

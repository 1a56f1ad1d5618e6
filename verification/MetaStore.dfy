/** The metadata store as the pool uses it: the replicator with its two disks, the WAL cursor and
    the materialised tables, each updated in place. */
module MetaStore {
  import opened Proto
  import opened Bytes
  import opened Framing
  import opened Codec
  import opened Store
  import opened Replication
  import Logs
  import CodecIo
  import D = Disk

  /** The group after its backup has been fenced out. */
  function FencedGroup(g: MetaGroup): MetaGroup
  {
    g.(backup := None, epoch := g.epoch + 1)
  }

  class MetaReplicator {
    var group: MetaGroup
    const primary: D.Disk
    var backup: D.Disk?

    constructor (group: MetaGroup, primary: D.Disk, backup: D.Disk?)
      requires backup != primary && (backup != null <==> group.backup.Some?)
      ensures this.group == group && this.primary == primary && this.backup == backup && Valid()
    {
      this.group := group;
      this.primary := primary;
      this.backup := backup;
    }

    /** The two members are different disks and the group names a backup exactly when there is one. */
    predicate Valid()
      reads this
    {
      backup != primary && (backup != null <==> group.backup.Some?)
    }

    /** Writes the primary, then the backup if there is one; success only when both are durable. */
    method Commit(e: seq<byte>, off: nat) returns (r: Outcome)
      requires Valid()
      modifies primary, backup
      ensures r.PrimaryUnavailable? ==> SameOutside(old(primary.image), primary.image, off, |e|)
      ensures r.PrimaryUnavailable? && backup != null ==> backup.image == old(backup.image)
      ensures !r.PrimaryUnavailable? ==> primary.image == Patch(old(primary.image), off, e)
      ensures r.Committed? && backup != null ==> backup.image == Patch(old(backup.image), off, e)
      ensures r.BackupUnavailable? ==> backup != null && SameOutside(old(backup.image), backup.image, off, |e|)
    {
      var ok := primary.WriteAt(off, e);
      if ok {
        ok := primary.Sync();
      }
      if !ok {
        return PrimaryUnavailable;
      }
      if backup != null {
        ok := backup.WriteAt(off, e);
        if ok {
          ok := backup.Sync();
        }
        if !ok {
          return BackupUnavailable;
        }
      }
      r := Committed;
    }

    method FenceBackup()
      modifies this
      ensures group == FencedGroup(old(group)) && backup == null
    {
      group := group.(backup := None);
      group := group.(epoch := group.epoch + 1);
      backup := null;
    }

    /** Takes any disk; the members stay different exactly when it is not the primary itself. */
    method PromoteNewBackup(id: DiskId, disk: D.Disk)
      modifies this
      ensures backup == disk && (Valid() <==> disk != primary)
      ensures group == old(group).(backup := Some(id), epoch := old(group.epoch) + 1)
    {
      group := group.(backup := Some(id));
      group := group.(epoch := group.epoch + 1);
      backup := disk;
    }
  }

  /** The bytes are the framed encoding of the operation, for some iteration order of its pool map. */
  ghost predicate EntryFor(op: MetaOp, entry: seq<byte>)
  {
    exists order :: EncodesAs(op, order, entry)
  }

  ghost predicate EncodesAs(op: MetaOp, order: seq<DiskId>, entry: seq<byte>)
  {
    && (op.PoolMapChange? ==> Iterates(op.pool.disks, order))
    && OrderOk(Logged(op, order)) && entry == WalBytes(op, order)
  }

  datatype ApplyResult = Done | CommitFailed | InvalidOp

  class MetaStore {
    const replicator: MetaReplicator
    var walCursor: nat
    var inodes: map<InodeId, InodeRecord>
    var dirs: map<seq<byte>, InodeId>
    var nextInode: nat

    constructor (replicator: MetaReplicator, walCursor: nat)
      ensures this.replicator == replicator && this.walCursor == walCursor && View() == EMPTY
    {
      this.replicator := replicator;
      this.walCursor := walCursor;
      inodes := map[];
      dirs := map[];
      nextInode := 1;
    }

    function View(): Tables
      reads this
    {
      Tables(inodes, dirs, nextInode)
    }

    method AllocInode() returns (id: InodeId)
      modifies this`nextInode
      ensures id == old(nextInode) && nextInode == old(nextInode) + 1
    {
      id := nextInode;
      nextInode := nextInode + 1;
    }

    /** One transaction on the tables: all of the operation's effect, or none when it is rejected. */
    method ApplyLocally(op: MetaOp) returns (ok: bool)
      modifies this`inodes, this`dirs, this`nextInode
      ensures ok ==> ApplyOp(old(View()), op) == Some(View())
      ensures !ok ==> ApplyOp(old(View()), op).None? && View() == old(View())
    {
      match op {
        case CreateInode(rec) =>
          if nextInode < rec.inode + 1 {
            nextInode := rec.inode + 1;
          }
          inodes := inodes[rec.inode := rec];
        case Link(parent, name, child) =>
          dirs := dirs[DirKey(parent, name) := child];
        case Unlink(parent, name) =>
          dirs := dirs - {DirKey(parent, name)};
        case PoolMapChange(_) =>
        case MetaGroupChange(_) =>
        case _ =>
          if op.inode !in inodes {
            return false;
          }
          var rec := UpdateRecord(inodes[op.inode], op);
          if rec.None? {
            return false;
          }
          inodes := inodes[rec.value.inode := rec.value];
      }
      ok := true;
    }

    /** The read-modify-write of one record. */
    method UpdateRecord(r: InodeRecord, op: MetaOp) returns (out: Option<InodeRecord>)
      requires OnInode(op)
      ensures out == ApplyToInode(r, op)
    {
      var rec := r;
      match op {
        case AppendChunk(_, chunk) =>
          if rec.data.Extents? {
            return None;
          }
          rec := rec.(data := ChunkLog(rec.data.chunks + [chunk]));
          rec := rec.(size := rec.size + chunk.len);
        case BeginConvert(_) =>
          var mode := BeginConvertCode(ModeCode(rec.mode));
          if mode < 0 {
            return None;
          }
          rec := rec.(mode := ModeFromCode(mode));
        case CompleteConvert(_, extents) =>
          var mode := CompleteConvertCode(ModeCode(rec.mode));
          if mode < 0 {
            return None;
          }
          rec := rec.(mode := ModeFromCode(mode));
          rec := rec.(data := Extents(extents));
        case SetRedundancyScheme(_, scheme) =>
          rec := rec.(redundancy := scheme);
        case UpdateExtents(_, extents) =>
          if !rec.mode.Writable? {
            return None;
          }
          rec := rec.(size := ExtentsEnd(extents));
          rec := rec.(data := Extents(extents));
      }
      out := Some(rec);
    }

    /** Commits a WAL entry at the cursor. On success it is on the primary and on the backup that
        remains in the group; a failing backup is fenced out with damage confined to the entry's own
        bytes. On failure only the primary's bytes past the cursor may have changed. */
    method LogEntry(entry: seq<byte>) returns (ok: bool)
      requires replicator.Valid()
      modifies this`walCursor, replicator, replicator.primary, replicator.backup
      ensures replicator.Valid()
      ensures !ok ==> walCursor == old(walCursor)
      ensures !ok ==> replicator.group == old(replicator.group) && replicator.backup == old(replicator.backup)
      ensures !ok ==> SameOutside(old(replicator.primary.image), replicator.primary.image, walCursor, |entry|)
      ensures !ok && replicator.backup != null ==> replicator.backup.image == old(replicator.backup.image)
      ensures ok ==> walCursor == old(walCursor) + |entry|
      ensures ok ==> replicator.primary.image == Patch(old(replicator.primary.image), old(walCursor), entry)
      ensures ok ==> (replicator.group == old(replicator.group) && replicator.backup == old(replicator.backup))
                     || (old(replicator.backup) != null && replicator.group == FencedGroup(old(replicator.group))
                         && replicator.backup == null)
      ensures ok && old(replicator.backup) != null ==>
                SameOutside(old(replicator.backup.image), old(replicator.backup).image, old(walCursor), |entry|)
      ensures ok && replicator.backup != null ==>
                replicator.backup.image == Patch(old(replicator.backup.image), old(walCursor), entry)
    {
      if replicator.backup != null {
        PatchSameOutside(replicator.backup.image, walCursor, entry);
      }
      var c := replicator.Commit(entry, walCursor);
      if c.PrimaryUnavailable? {
        return false;
      }
      if c.BackupUnavailable? {
        replicator.FenceBackup();
      }
      walCursor := walCursor + |entry|;
      ok := true;
    }

    /** The first half of `MetaStore::apply`: encode and frame. */
    method FrameOp(op: MetaOp) returns (entry: seq<byte>)
      ensures EntryFor(op, entry)
    {
      var payload;
      ghost var order;
      payload, order := CodecIo.EncodeOp(op);
      entry := Logs.BuildFrame(payload);
      assert EncodesAs(op, order, entry);
    }

    /** The second half of `MetaStore::apply`: log the entry, then fold the operation into the tables.
        An operation is never visible before it is durable, and one that is rejected has already been
        logged. */
    method ApplyFramed(op: MetaOp, entry: seq<byte>) returns (r: ApplyResult)
      requires replicator.Valid()
      modifies this, replicator, replicator.primary, replicator.backup
      ensures replicator.Valid()
      ensures r == CommitFailed ==> View() == old(View()) && walCursor == old(walCursor)
      ensures r == CommitFailed ==>
              replicator.group == old(replicator.group)
              && replicator.backup == old(replicator.backup)
      ensures r == CommitFailed ==>
              SameOutside(old(replicator.primary.image), replicator.primary.image, walCursor, |entry|)
      ensures r == CommitFailed && replicator.backup != null ==> replicator.backup.image == old(replicator.backup.image)
      ensures r != CommitFailed ==> walCursor == old(walCursor) + |entry|
      ensures r != CommitFailed ==>
              replicator.primary.image == Patch(old(replicator.primary.image), old(walCursor), entry)
      ensures r != CommitFailed ==>
                (replicator.group == old(replicator.group) && replicator.backup == old(replicator.backup))
                || (old(replicator.backup) != null && replicator.group == FencedGroup(old(replicator.group))
                    && replicator.backup == null)
      ensures r != CommitFailed && old(replicator.backup) != null ==>
                SameOutside(old(replicator.backup.image), old(replicator.backup).image, old(walCursor), |entry|)
      ensures r != CommitFailed && replicator.backup != null ==>
                replicator.backup.image == Patch(old(replicator.backup.image), old(walCursor), entry)
      ensures r == Done ==> ApplyOp(old(View()), op) == Some(View())
      ensures r == InvalidOp ==> ApplyOp(old(View()), op).None? && View() == old(View())
    {
      var logged := LogEntry(entry);
      if !logged {
        return CommitFailed;
      }
      var ok := ApplyLocally(op);
      r := if ok then Done else InvalidOp;
    }

    /** One entry of the log at open time: decode it and apply it. */
    method ReplayEntry(payload: seq<byte>) returns (op: Option<MetaOp>)
      modifies this`inodes, this`dirs, this`nextInode
      ensures op.Some? ==> Decode(payload) == op && ApplyOp(old(View()), op.value) == Some(View())
      ensures op.None? ==> Decode(payload).None? || ApplyOp(old(View()), Decode(payload).value).None?
    {
      op := CodecIo.DecodeOp(payload);
      if op.Some? {
        var ok := ApplyLocally(op.value);
        if !ok {
          op := None;
        }
      }
    }
  }

  lemma {:induction false} DecodeStops(rs: seq<Record>, i: nat)
    requires i < |rs| && Decode(rs[i].payload).None?
    ensures DecodeAll(rs).None?
    decreases |rs|
  {
    if i < |rs| - 1 {
      DecodeStops(rs[..|rs| - 1], i);
    }
  }

  lemma {:induction false} DecodePrefix(rs: seq<Record>, i: nat)
    requires i <= |rs| && DecodeAll(rs).Some?
    ensures DecodeAll(rs[..i]).Some? && DecodeAll(rs[..i]).value <= DecodeAll(rs).value
    decreases |rs| - i
  {
    if i < |rs| {
      DecodePrefix(rs, i + 1);
      assert rs[..i + 1][..i] == rs[..i];
    } else {
      assert rs[..i] == rs;
    }
  }

  /** `MetaStore::open`: succeeds exactly when the scanned log decodes and replays, and then holds the
      replayed tables and resumes the log where the scan stopped. */
  method OpenStore(group: MetaGroup, primary: D.Disk, backup: D.Disk?) returns (store: MetaStore?)
    requires backup != primary && (backup != null <==> group.backup.Some?)
    ensures store != null <==> Reopen(primary.image).Some?
    ensures store != null ==> fresh(store) && fresh(store.replicator) && store.replicator.Valid()
    ensures store != null ==> store.View() == Reopen(primary.image).value
    ensures store != null ==> store.walCursor == Scan(Wal, primary.image, 0, 0).resumeAt
    ensures store != null ==>
            store.replicator.group == group && store.replicator.primary == primary
            && store.replicator.backup == backup
  {
    var entries, resumeAt, _ := Logs.ScanWal(primary, 0);
    ghost var rs := Scan(Wal, primary.image, 0, 0).records;
    var rep := new MetaReplicator(group, primary, backup);
    store := new MetaStore(rep, resumeAt);
    ghost var ops: seq<MetaOp> := [];
    var i := 0;
    while i < |entries|
      invariant 0 <= i <= |entries|
      invariant store != null && fresh(store) && fresh(rep) && store.replicator == rep && rep.Valid()
      invariant rep.group == group && rep.primary == primary && rep.backup == backup && store.walCursor == resumeAt
      invariant DecodeAll(rs[..i]) == Some(ops)
      invariant Replay(EMPTY, ops) == Some(store.View())
    {
      ReplayStep(rs, i, ops, store.View());
      var op := store.ReplayEntry(entries[i]);
      if op.None? {
        return null;
      }
      ops := ops + [op.value];
      i := i + 1;
    }
    assert rs[..|entries|] == rs;
  }

  /** Replaying one more entry: it extends the replayed prefix, or the whole log is refused. */
  lemma ReplayStep(rs: seq<Record>, i: nat, ops: seq<MetaOp>, t: Tables)
    requires i < |rs| && DecodeAll(rs[..i]) == Some(ops) && Replay(EMPTY, ops) == Some(t)
    ensures var op := Decode(rs[i].payload);
            if op.None? then DecodeAll(rs).None?
            else DecodeAll(rs[..i + 1]) == Some(ops + [op.value])
                 && Replay(EMPTY, ops + [op.value]) == ApplyOp(t, op.value)
                 && (ApplyOp(t, op.value).None? && DecodeAll(rs).Some? ==> Replay(EMPTY, DecodeAll(rs).value).None?)
  {
    var op := Decode(rs[i].payload);
    if op.None? {
      DecodeStops(rs, i);
    } else {
      assert rs[..i + 1] == rs[..i] + [rs[i]];
      DecodeSnoc(rs[..i], rs[i], ops, op.value);
      ReplaySnoc(EMPTY, ops, op.value);
      if ApplyOp(t, op.value).None? {
        ReplayFails(rs, i + 1, ops + [op.value]);
      }
    }
  }

  lemma ReplayFails(rs: seq<Record>, i: nat, ops: seq<MetaOp>)
    requires i <= |rs| && DecodeAll(rs[..i]) == Some(ops) && Replay(EMPTY, ops).None?
    ensures DecodeAll(rs).Some? ==> Replay(EMPTY, DecodeAll(rs).value).None?
  {
    if DecodeAll(rs).Some? {
      DecodePrefix(rs, i);
      var all := DecodeAll(rs).value;
      RejectionIsForever(ops, all[|ops|..]);
      assert ops + all[|ops|..] == all;
    }
  }
}

/** The disks table of a pool: every disk with the bump cursor of its data region, and the loops that
    write replicas to them and read files back from them. */
module Region {
  import opened Proto
  import opened Bytes
  import opened Framing
  import opened PoolModel
  import Logs
  import D = Disk

  // ---- writing replicas one disk after another ----

  /** One disk has the bytes at its cursor and has advanced past them. */
  ghost function Advanced(s: State, id: DiskId, bytes: seq<byte>): State
  {
    if id in s.images && id in s.cursors then
      s.(images := s.images[id := Patch(s.images[id], SEG + s.cursors[id], bytes)],
         cursors := s.cursors[id := s.cursors[id] + |bytes|])
    else s
  }

  /** The first `k` disks are written, one after the other. */
  ghost function AdvancedAll(s: State, ids: seq<DiskId>, bytes: seq<byte>, k: nat): State
    requires k <= |ids|
  {
    if k == 0 then s else Advanced(AdvancedAll(s, ids, bytes, k - 1), ids[k - 1], bytes)
  }

  /** One disk may be torn past its cursor. */
  ghost predicate Torn(s: State, id: DiskId, len: nat, s': State)
  {
    && id in s.images && id in s.cursors && id in s'.images && s' == s.(images := s.images[id := s'.images[id]])
    && SameOutside(s.images[id], s'.images[id], SEG + s.cursors[id], len)
  }

  /** Disks are written in order; the first failure ends the loop and may tear its disk. */
  ghost predicate WroteInTurn(s: State, ids: seq<DiskId>, bytes: seq<byte>, k: nat, s': State)
  {
    && k <= |ids|
    && if k == |ids| then s' == AdvancedAll(s, ids, bytes, k)
       else Torn(AdvancedAll(s, ids, bytes, k), ids[k], |bytes|, s')
  }

  ghost predicate DistinctIn(ids: seq<DiskId>, s: State)
  {
    && (forall i, j :: 0 <= i < j < |ids| ==> ids[i] != ids[j])
    && (forall id :: id in ids ==> id in s.images && id in s.cursors)
  }

  lemma NotYet(ids: seq<DiskId>, k: nat)
    requires k < |ids| && forall i, j :: 0 <= i < j < |ids| ==> ids[i] != ids[j]
    ensures ids[k] !in ids[..k] && ids[k] in ids
    ensures forall id :: id in ids[..k + 1] <==> id in ids[..k] || id == ids[k]
  {
    assert ids[..k + 1] == ids[..k] + [ids[k]];
  }

  /** The first `k` disks are written at the cursors they had at the start, all others untouched. */
  ghost predicate WroteFirst(s: State, ids: seq<DiskId>, bytes: seq<byte>, k: nat, s': State)
  {
    && k <= |ids|
    && s' == s.(images := s'.images, cursors := s'.cursors)
    && s'.images.Keys == s.images.Keys && s'.cursors.Keys == s.cursors.Keys
    && forall id :: id in s.images && id in s.cursors ==> WroteOn(s, ids, bytes, k, s', id)
  }

  ghost predicate WroteOn(s: State, ids: seq<DiskId>, bytes: seq<byte>, k: nat, s': State, id: DiskId)
    requires k <= |ids|
  {
    && id in s.images && id in s.cursors && id in s'.images && id in s'.cursors
    && if id in ids[..k] then
         s'.images[id] == Patch(s.images[id], SEG + s.cursors[id], bytes) && s'.cursors[id] == s.cursors[id] + |bytes|
       else s'.images[id] == s.images[id] && s'.cursors[id] == s.cursors[id]
  }

  lemma WroteNone(s: State, ids: seq<DiskId>, bytes: seq<byte>)
    ensures WroteFirst(s, ids, bytes, 0, s)
  {
  }

  lemma WroteNext(s: State, ids: seq<DiskId>, bytes: seq<byte>, k: nat, s1: State)
    requires WroteFirst(s, ids, bytes, k, s1) && k < |ids| && DistinctIn(ids, s)
    ensures ids[k] in s1.images && ids[k] in s1.cursors && s1.cursors[ids[k]] == s.cursors[ids[k]]
    ensures WroteFirst(s, ids, bytes, k + 1, Advanced(s1, ids[k], bytes))
  {
    NotYet(ids, k);
    assert WroteOn(s, ids, bytes, k, s1, ids[k]);
    forall id | id in s.images && id in s.cursors
      ensures WroteOn(s, ids, bytes, k + 1, Advanced(s1, ids[k], bytes), id)
    {
      assert WroteOn(s, ids, bytes, k, s1, id);
    }
  }

  lemma WroteTorn(s: State, ids: seq<DiskId>, bytes: seq<byte>, k: nat, s1: State, s2: State)
    requires WroteFirst(s, ids, bytes, k, s1) && k < |ids| && DistinctIn(ids, s) && Torn(s1, ids[k], |bytes|, s2)
    ensures WroteReplicas(s, ids, bytes, k, s2)
  {
    NotYet(ids, k);
    assert forall id :: id in s.images && id in s.cursors ==> WroteOn(s, ids, bytes, k, s1, id);
  }

  lemma WroteAll(s: State, ids: seq<DiskId>, bytes: seq<byte>, s': State)
    requires WroteFirst(s, ids, bytes, |ids|, s')
    ensures WroteReplicas(s, ids, bytes, |ids|, s')
  {
    assert forall id :: id in s.images && id in s.cursors ==> WroteOn(s, ids, bytes, |ids|, s', id);
  }

  /** Writing in turn has a closed form. */
  ghost predicate Closed(s: State, ids: seq<DiskId>, bytes: seq<byte>, k: nat)
  {
    k <= |ids| && WroteFirst(s, ids, bytes, k, AdvancedAll(s, ids, bytes, k))
  }

  lemma ClosedNext(s: State, ids: seq<DiskId>, bytes: seq<byte>, k: nat)
    requires Closed(s, ids, bytes, k) && k < |ids| && DistinctIn(ids, s)
    ensures Closed(s, ids, bytes, k + 1)
  {
    WroteNext(s, ids, bytes, k, AdvancedAll(s, ids, bytes, k));
  }

  lemma AdvancedClosed(s: State, ids: seq<DiskId>, bytes: seq<byte>, k: nat)
    requires k <= |ids| && DistinctIn(ids, s)
    ensures Closed(s, ids, bytes, k)
  {
    var i := 0;
    WroteNone(s, ids, bytes);
    while i < k
      invariant 0 <= i <= k && Closed(s, ids, bytes, i)
    {
      ClosedNext(s, ids, bytes, i);
      i := i + 1;
    }
  }

  /** When its turn comes, a disk still has the cursor it had at the start. */
  ghost predicate NextUntouched(s: State, ids: seq<DiskId>, bytes: seq<byte>, k: nat)
    requires k < |ids|
  {
    var s' := AdvancedAll(s, ids, bytes, k);
    ids[k] in s'.images && ids[k] in s'.cursors && ids[k] in s.cursors && s'.cursors[ids[k]] == s.cursors[ids[k]]
  }

  ghost predicate Ready(s: State, ids: seq<DiskId>, bytes: seq<byte>)
  {
    forall k: nat :: k < |ids| ==> NextUntouched(s, ids, bytes, k)
  }

  /** The replicas recorded for the first `i` disks: each with its cursor at the start. */
  ghost predicate RecordedAt(cursors: map<DiskId, nat>, ids: seq<DiskId>, rs: seq<Replica>)
  {
    |rs| <= |ids| && forall j :: 0 <= j < |rs| ==> ids[j] in cursors && rs[j] == Replica(ids[j], cursors[ids[j]])
  }

  lemma RecordNext(cursors: map<DiskId, nat>, ids: seq<DiskId>, rs: seq<Replica>, at: nat)
    requires RecordedAt(cursors, ids, rs) && |rs| < |ids| && ids[|rs|] in cursors && at == cursors[ids[|rs|]]
    ensures RecordedAt(cursors, ids, rs + [Replica(ids[|rs|], at)])
  {
  }

  lemma StoppedAt(s: State, ids: seq<DiskId>, bytes: seq<byte>, k: nat, s': State)
    requires k < |ids| && Torn(AdvancedAll(s, ids, bytes, k), ids[k], |bytes|, s')
    ensures WroteInTurn(s, ids, bytes, k, s')
  {
  }

  ghost predicate FitsAt(cursors: map<DiskId, nat>, ids: seq<DiskId>, len: nat, k: nat)
  {
    k <= |ids| && forall j :: 0 <= j < k ==> ids[j] in cursors && cursors[ids[j]] + len <= SEGMENT_SIZE
  }

  lemma FitNext(cursors: map<DiskId, nat>, ids: seq<DiskId>, len: nat, k: nat)
    requires FitsAt(cursors, ids, len, k) && k < |ids| && ids[k] in cursors && cursors[ids[k]] + len <= SEGMENT_SIZE
    ensures FitsAt(cursors, ids, len, k + 1)
  {
  }

  lemma DistinctReady(s: State, ids: seq<DiskId>, bytes: seq<byte>)
    requires DistinctIn(ids, s)
    ensures Ready(s, ids, bytes)
  {
    forall k: nat | k < |ids|
      ensures NextUntouched(s, ids, bytes, k)
    {
      AdvancedClosed(s, ids, bytes, k);
      WroteNext(s, ids, bytes, k, AdvancedAll(s, ids, bytes, k));
    }
  }

  lemma DiskAdvanced(s: State, s': State, id: DiskId, image: seq<byte>, bytes: seq<byte>)
    requires id in s.images && id in s.cursors && s' == s.(images := s.images[id := image], cursors := s'.cursors)
    requires image == Patch(s.images[id], SEG + s.cursors[id], bytes)
             && s'.cursors == s.cursors[id := s.cursors[id] + |bytes|]
    ensures s' == Advanced(s, id, bytes)
  {
  }

  lemma DiskTorn(s: State, s': State, id: DiskId, image: seq<byte>, len: nat)
    requires id in s.images && id in s.cursors && s' == s.(images := s.images[id := image])
    requires SameOutside(s.images[id], image, SEG + s.cursors[id], len)
    ensures Torn(s, id, len, s')
  {
    assert s'.images[id] == image;
  }

  /** Writing in turn has the closed form that the pool's specification uses. */
  lemma InTurnWrote(s: State, ids: seq<DiskId>, bytes: seq<byte>, k: nat, s': State)
    requires DistinctIn(ids, s) && WroteInTurn(s, ids, bytes, k, s')
    ensures WroteReplicas(s, ids, bytes, k, s')
  {
    AdvancedClosed(s, ids, bytes, k);
    if k < |ids| {
      WroteTorn(s, ids, bytes, k, AdvancedAll(s, ids, bytes, k), s');
    } else {
      WroteAll(s, ids, bytes, s');
    }
  }

  // ---- reading in order ----

  lemma {:induction false} ReadChunksStops(images: map<DiskId, seq<byte>>, cs: seq<ChunkPointer>, n: nat)
    requires n <= |cs| && ReadChunks(images, cs[..n]).None?
    ensures ReadChunks(images, cs).None?
    decreases |cs| - n
  {
    if n == |cs| {
      assert cs[..n] == cs;
    } else {
      assert cs[..n + 1][..n] == cs[..n];
      ReadChunksStops(images, cs, n + 1);
    }
  }

  lemma {:induction false} ReadExtentsStops(images: map<DiskId, seq<byte>>, size: nat, xs: seq<Extent>, n: nat)
    requires n <= |xs| && ReadExtents(images, size, xs[..n]).None?
    ensures ReadExtents(images, size, xs).None?
    decreases |xs| - n
  {
    if n == |xs| {
      assert xs[..n] == xs;
    } else {
      assert xs[..n + 1][..n] == xs[..n];
      ReadExtentsStops(images, size, xs, n + 1);
    }
  }

  class Region {
    const disks: map<DiskId, D.Disk>
    var cursors: map<DiskId, nat>

    constructor (disks: map<DiskId, D.Disk>, cursors: map<DiskId, nat>)
      ensures this.disks == disks && this.cursors == cursors
    {
      this.disks := disks;
      this.cursors := cursors;
    }

    /** Every disk has a cursor and is filed under its own id. */
    ghost predicate Valid()
      reads this
    {
      cursors.Keys == disks.Keys && forall i :: i in disks ==> disks[i].id == i
    }

    ghost function Images(): map<DiskId, seq<byte>>
      reads disks.Values
    {
      map id | id in disks :: disks[id].image
    }

    /** The pool state with these disks and cursors. */
    ghost function In(s: State): State
      reads this, disks.Values
    {
      s.(images := Images(), cursors := cursors)
    }

    // ---- appending ----

    twostate lemma OnlyDisk(id: DiskId)
      requires id in disks && forall i :: i in disks ==> disks[i].id == i
      requires unchanged(set d | d in disks.Values && d != disks[id])
      ensures Images() == old(Images())[id := disks[id].image]
    {
      forall i | i in disks
        ensures Images()[i] == old(Images())[id := disks[id].image][i]
      {
        if i != id {
          assert disks[i] in (set d | d in disks.Values && d != disks[id]);
        }
      }
    }

    /** Appends the record to one disk and syncs it; only then does the disk's cursor move. */
    method AppendOn(id: DiskId, record: Record) returns (ok: bool)
      requires Valid() && id in disks
      modifies this`cursors, disks[id]
      ensures ok ==> disks[id].image == Patch(old(disks[id].image), SEG + old(cursors)[id], Frame(Segment, record))
      ensures ok ==> cursors == old(cursors)[id := old(cursors)[id] + |Frame(Segment, record)|]
      ensures ok ==> old(cursors)[id] + |Frame(Segment, record)| <= SEGMENT_SIZE
      ensures !ok ==>
              cursors == old(cursors)
              && SameOutside(old(disks[id].image), disks[id].image, SEG + cursors[id], |Frame(Segment, record)|)
    {
      PatchSameOutside(disks[id].image, SEG + cursors[id], Frame(Segment, record));
      var writer := new Logs.SegmentWriter.Resume(disks[id], SEG, cursors[id]);
      var at := writer.Append(record);
      if at.None? {
        return false;
      }
      ok := disks[id].Sync();
      if ok {
        cursors := cursors[id := writer.cursor];
      }
    }

    /** One turn of the replica loop of an append. */
    method AppendTurn(id: DiskId, record: Record, ghost frame: seq<byte>, ghost rest: State) returns (ok: bool)
      requires Valid() && id in disks && frame == Frame(Segment, record)
      modifies this`cursors, disks[id]
      ensures Valid()
      ensures ok ==> In(rest) == Advanced(old(In(rest)), id, frame)
      ensures ok ==> old(cursors)[id] + |frame| <= SEGMENT_SIZE
      ensures !ok ==> Torn(old(In(rest)), id, |frame|, In(rest))
    {
      ghost var s := In(rest);
      ok := AppendOn(id, record);
      OnlyDisk(id);
      ghost var image, s' := disks[id].image, In(rest);
      assert s' == s.(images := s.images[id := image], cursors := cursors);
      if ok {
        DiskAdvanced(s, s', id, image, frame);
      } else {
        DiskTorn(s, s', id, image, |frame|);
      }
    }

    /** The replica loop of an append. */
    method AppendReplicas(ids: seq<DiskId>, record: Record, ghost frame: seq<byte>, ghost rest: State)
      returns (replicas: Option<seq<Replica>>, ghost k: nat)
      requires Valid() && frame == Frame(Segment, record) && Ready(In(rest), ids, frame)
      modifies this`cursors, disks.Values
      ensures Valid()
      ensures WroteInTurn(old(In(rest)), ids, frame, k, In(rest))
      ensures FitsAt(old(cursors), ids, |frame|, k)
      ensures replicas.Some? <==> k == |ids|
      ensures replicas.Some? ==> |replicas.value| == |ids| && RecordedAt(old(cursors), ids, replicas.value)
    {
      ghost var s := In(rest);
      var rs: seq<Replica> := [];
      var i := 0;
      while i < |ids|
        invariant 0 <= i <= |ids| && Valid()
        invariant In(rest) == AdvancedAll(s, ids, frame, i)
        invariant |rs| == i && RecordedAt(s.cursors, ids, rs) && FitsAt(s.cursors, ids, |frame|, i)
      {
        assert NextUntouched(s, ids, frame, i);
        var writtenAt := cursors[ids[i]];
        var ok := AppendTurn(ids[i], record, frame, rest);
        if !ok {
          StoppedAt(s, ids, frame, i, In(rest));
          return None, i;
        }
        RecordNext(s.cursors, ids, rs, writtenAt);
        FitNext(s.cursors, ids, |frame|, i);
        rs := rs + [Replica(ids[i], writtenAt)];
        i := i + 1;
      }
      k := |ids|;
      replicas := Some(rs);
    }

    // ---- reading ----

    /** The bytes behind the first replica; no other replica is tried. */
    method ReadFirst(replicas: seq<Replica>, header: nat, len: nat) returns (r: Option<seq<byte>>)
      requires Valid()
      ensures r == ReadReplicated(Images(), replicas, header, len)
    {
      if replicas == [] || replicas[0].disk !in disks {
        return None;
      }
      r := disks[replicas[0].disk].ReadAt(SEG + replicas[0].offset + header, len);
    }

    method ReadFullContent(rec: InodeRecord) returns (r: Option<seq<byte>>)
      requires Valid()
      ensures r == Content(Images(), rec)
    {
      match rec.data {
        case ChunkLog(chunks) => r := ReadChunkLog(chunks);
        case Extents(extents) => r := ReadExtentMap(rec.size, extents);
      }
    }

    method ReadChunkLog(chunks: seq<ChunkPointer>) returns (r: Option<seq<byte>>)
      requires Valid()
      ensures r == ReadChunks(Images(), chunks)
    {
      ghost var images := Images();
      var out := [];
      var i := 0;
      while i < |chunks|
        invariant 0 <= i <= |chunks|
        invariant ReadChunks(images, chunks[..i]) == Some(out)
      {
        assert chunks[..i + 1][..i] == chunks[..i];
        var bytes := ReadFirst(chunks[i].replicas, RECORD_HEADER, chunks[i].len);
        if bytes.None? {
          ReadChunksStops(images, chunks, i + 1);
          return None;
        }
        out := out + bytes.value;
        i := i + 1;
      }
      assert chunks[..i] == chunks;
      r := Some(out);
    }

    method ReadExtentMap(size: nat, extents: seq<Extent>) returns (r: Option<seq<byte>>)
      requires Valid()
      ensures r == ReadExtents(Images(), size, extents)
    {
      ghost var images := Images();
      var out := Zeros(size);
      var i := 0;
      while i < |extents|
        invariant 0 <= i <= |extents|
        invariant ReadExtents(images, size, extents[..i]) == Some(out)
      {
        assert extents[..i + 1][..i] == extents[..i];
        var bytes := ReadFirst(extents[i].replicas, 0, extents[i].len);
        var start := extents[i].fileOffset;
        if bytes.None? || start + |bytes.value| > |out| {
          ReadExtentsStops(images, size, extents, i + 1);
          return None;
        }
        out := out[..start] + bytes.value + out[start + |bytes.value|..];
        i := i + 1;
      }
      assert extents[..i] == extents;
      r := Some(out);
    }

    // ---- raw extents ----

    /** Writes raw bytes at one disk's cursor and syncs; only then does the cursor move. */
    method WriteRawOn(id: DiskId, bytes: seq<byte>) returns (ok: bool)
      requires Valid() && id in disks
      modifies this`cursors, disks[id]
      ensures ok ==> disks[id].image == Patch(old(disks[id].image), SEG + old(cursors)[id], bytes)
      ensures ok ==> cursors == old(cursors)[id := old(cursors)[id] + |bytes|]
      ensures !ok ==>
              cursors == old(cursors)
              && SameOutside(old(disks[id].image), disks[id].image, SEG + cursors[id], |bytes|)
    {
      PatchSameOutside(disks[id].image, SEG + cursors[id], bytes);
      ok := disks[id].WriteAt(SEG + cursors[id], bytes);
      if ok {
        ok := disks[id].Sync();
      }
      if ok {
        cursors := cursors[id := cursors[id] + |bytes|];
      }
    }

    /** One turn of the replica loop of `write_whole_file_extent`. */
    method WriteTurn(id: DiskId, bytes: seq<byte>, ghost rest: State) returns (ok: bool)
      requires Valid() && id in disks
      modifies this`cursors, disks[id]
      ensures Valid()
      ensures ok ==> In(rest) == Advanced(old(In(rest)), id, bytes)
      ensures !ok ==> Torn(old(In(rest)), id, |bytes|, In(rest))
    {
      ghost var s := In(rest);
      ok := WriteRawOn(id, bytes);
      OnlyDisk(id);
      if ok {
        DiskAdvanced(s, In(rest), id, disks[id].image, bytes);
      } else {
        DiskTorn(s, In(rest), id, disks[id].image, |bytes|);
      }
    }

    /** The replica loop of `write_whole_file_extent`. */
    method WriteExtent(ids: seq<DiskId>, content: seq<byte>, ghost rest: State)
      returns (replicas: Option<seq<Replica>>, ghost k: nat)
      requires Valid() && Ready(In(rest), ids, content)
      modifies this`cursors, disks.Values
      ensures Valid()
      ensures WroteInTurn(old(In(rest)), ids, content, k, In(rest))
      ensures replicas.Some? <==> k == |ids|
      ensures replicas.Some? ==> |replicas.value| == |ids| && RecordedAt(old(cursors), ids, replicas.value)
    {
      ghost var s := In(rest);
      var rs: seq<Replica> := [];
      var i := 0;
      while i < |ids|
        invariant 0 <= i <= |ids| && Valid()
        invariant In(rest) == AdvancedAll(s, ids, content, i)
        invariant |rs| == i && RecordedAt(s.cursors, ids, rs)
      {
        assert NextUntouched(s, ids, content, i);
        var writtenAt := cursors[ids[i]];
        var ok := WriteTurn(ids[i], content, rest);
        if !ok {
          StoppedAt(s, ids, content, i, In(rest));
          return None, i;
        }
        RecordNext(s.cursors, ids, rs, writtenAt);
        rs := rs + [Replica(ids[i], writtenAt)];
        i := i + 1;
      }
      k := |ids|;
      replicas := Some(rs);
    }
  }
}

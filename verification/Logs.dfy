/** The code that writes and recovers the two logs. */
module Logs {
  import opened Proto
  import opened Bytes
  import opened Crc32c
  import opened Framing
  import D = Disk

  function Payloads(rs: seq<Record>): (ps: seq<seq<byte>>)
    ensures |ps| == |rs| && forall i :: 0 <= i < |rs| ==> ps[i] == rs[i].payload
  {
    seq(|rs|, i requires 0 <= i < |rs| => rs[i].payload)
  }

  // ---- the metadata WAL ----

  method BuildFrame(payload: seq<byte>) returns (out: seq<byte>)
    ensures out == Frame(Wal, WalRecord(payload))
  {
    var checksum := ComputeChecksum(payload);
    out := Le(WAL_MAGIC, 4);
    out := out + Le(|payload|, 4);
    out := out + Le(checksum, 4);
    out := out + payload;
  }

  /** One iteration of `wal::scan`: what lies at the cursor. */
  method LookWal(disk: D.Disk, base: nat, cursor: nat) returns (found: Found)
    ensures found == Look(Wal, disk.image, base, cursor)
  {
    if cursor + 12 > WAL_CAPACITY {
      return Nothing;
    }
    var header := disk.ReadAt(base + cursor, 12);
    if header.None? {
      return Nothing;
    }
    var h := header.value;
    if h[..4] != Le(WAL_MAGIC, 4) {
      return Nothing;
    }
    var len := FromLe(h[4..8]);
    var checksum := FromLe(h[8..12]);
    if cursor + 12 + len > WAL_CAPACITY {
      return Nothing;
    }
    var payload := disk.ReadAt(base + cursor + 12, len);
    if payload.None? {
      return Nothing;
    }
    var actual := ComputeChecksum(payload.value);
    if actual != checksum {
      return Damaged;
    }
    found := Entry(Record(0, 0, checksum, payload.value));
  }

  /** `wal::scan`: decodes entries until the first position that holds none. */
  method ScanWal(disk: D.Disk, base: nat)
    returns (entries: seq<seq<byte>>, resumeAt: nat, corruptionAt: Option<nat>)
    ensures var s := Scan(Wal, disk.image, base, 0);
            entries == Payloads(s.records) && resumeAt == s.resumeAt && corruptionAt == s.corruptionAt
  {
    resumeAt := 0;
    entries := [];
    corruptionAt := None;
    ghost var image := disk.image;
    ghost var whole := Scan(Wal, image, base, 0);
    ghost var seen: seq<Record> := [];
    PrependNothing(whole);
    var found := LookWal(disk, base, 0);
    while found.Entry?
      invariant found == Look(Wal, image, base, resumeAt)
      invariant entries == Payloads(seen)
      invariant whole == Prepend(seen, Scan(Wal, image, base, resumeAt))
      decreases WAL_CAPACITY - resumeAt
    {
      var r := found.record;
      LookAdvances(Wal, image, base, resumeAt);
      ScanStep(Wal, image, base, resumeAt, r);
      PrependSnoc(seen, r, Scan(Wal, image, base, resumeAt + |Frame(Wal, r)|));
      seen := seen + [r];
      entries := entries + [r.payload];
      resumeAt := resumeAt + 12 + |r.payload|;
      found := LookWal(disk, base, resumeAt);
    }
    if found.Damaged? {
      corruptionAt := Some(resumeAt);
    }
    ScanStops(Wal, image, base, resumeAt);
    assert seen + [] == seen;
  }

  lemma PrependSnoc(seen: seq<Record>, r: Record, rest: ScanResult)
    ensures Prepend(seen, Prepend([r], rest)) == Prepend(seen + [r], rest)
  {
    assert seen + ([r] + rest.records) == (seen + [r]) + rest.records;
  }

  // ---- chunk-log segments ----

  method EncodeRecord(r: Record) returns (buf: seq<byte>)
    ensures buf == Frame(Segment, r)
  {
    buf := Le(RECORD_MAGIC, 4);
    buf := buf + Le(r.inode, 8);
    buf := buf + Le(r.chunkSeq, 8);
    buf := buf + Le(r.checksum, 4);
    buf := buf + Le(|r.payload|, 4);
    buf := buf + r.payload;
  }

  /** The write cursor of one open segment. */
  class SegmentWriter {
    const disk: D.Disk
    const base: nat
    var cursor: nat

    constructor Resume(disk: D.Disk, base: nat, resumeAt: nat)
      ensures this.disk == disk && this.base == base && cursor == resumeAt
    {
      this.disk := disk;
      this.base := base;
      cursor := resumeAt;
    }

    function Remaining(): nat
      reads this
    {
      if cursor <= SEGMENT_SIZE then SEGMENT_SIZE - cursor else 0
    }

    /** Appends one record: refused without a trace when it does not fit, a failed write damages
        only the space past the cursor, and success advances the cursor by the frame. */
    method Append(r: Record) returns (at: Option<nat>)
      modifies this`cursor, disk
      ensures at.Some? ==> |Frame(Segment, r)| <= old(Remaining())
      ensures at.Some? ==> at.value == base + old(cursor) && cursor == old(cursor) + |Frame(Segment, r)|
      ensures at.Some? ==> disk.image == Patch(old(disk.image), base + old(cursor), Frame(Segment, r))
      ensures at.None? ==> cursor == old(cursor)
      ensures at.None? ==> SameOutside(old(disk.image), disk.image, base + cursor, |Frame(Segment, r)|)
      ensures |Frame(Segment, r)| > old(Remaining()) ==> at.None? && disk.image == old(disk.image)
    {
      var encoded := EncodeRecord(r);
      if |encoded| > Remaining() {
        return None;
      }
      var offset := base + cursor;
      var ok := disk.WriteAt(offset, encoded);
      if !ok {
        return None;
      }
      cursor := cursor + |encoded|;
      at := Some(offset);
    }
  }

  /** One iteration of `segment::scan`. */
  method LookSegment(disk: D.Disk, base: nat, cursor: nat) returns (found: Found)
    ensures found == Look(Segment, disk.image, base, cursor)
  {
    if cursor + 28 > SEGMENT_SIZE {
      return Nothing;
    }
    var header := disk.ReadAt(base + cursor, 28);
    if header.None? {
      return Nothing;
    }
    var h := header.value;
    if h[..4] != Le(RECORD_MAGIC, 4) {
      return Nothing;
    }
    var inode := FromLe(h[4..12]);
    var chunkSeq := FromLe(h[12..20]);
    var checksum := FromLe(h[20..24]);
    var len := FromLe(h[24..28]);
    if cursor + 28 + len > SEGMENT_SIZE {
      return Nothing;
    }
    var payload := disk.ReadAt(base + cursor + 28, len);
    if payload.None? {
      return Nothing;
    }
    var actual := ComputeChecksum(payload.value);
    if actual != checksum {
      return Damaged;
    }
    found := Entry(Record(inode, chunkSeq, checksum, payload.value));
  }

  /** `segment::scan`. */
  method ScanSegment(disk: D.Disk, base: nat) returns (result: ScanResult)
    ensures result == Scan(Segment, disk.image, base, 0)
  {
    var cursor := 0;
    var records: seq<Record> := [];
    ghost var image := disk.image;
    ghost var whole := Scan(Segment, image, base, 0);
    PrependNothing(whole);
    var found := LookSegment(disk, base, 0);
    while found.Entry?
      invariant found == Look(Segment, image, base, cursor)
      invariant whole == Prepend(records, Scan(Segment, image, base, cursor))
      decreases SEGMENT_SIZE - cursor
    {
      var r := found.record;
      LookAdvances(Segment, image, base, cursor);
      ScanStep(Segment, image, base, cursor, r);
      PrependSnoc(records, r, Scan(Segment, image, base, cursor + |Frame(Segment, r)|));
      records := records + [r];
      cursor := cursor + 28 + |r.payload|;
      found := LookSegment(disk, base, cursor);
    }
    ScanStops(Segment, image, base, cursor);
    assert records + [] == records;
    result := ScanResult(records, cursor, if found.Damaged? then Some(cursor) else None);
  }
}

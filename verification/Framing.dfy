/** The two framed logs: chunk-log records in a disk's data region and entries of the metadata
    WAL. Both are magic, fixed header and payload, and both are recovered by the same kind of scan. */
module Framing {
  import opened Proto
  import opened Bytes
  import opened Crc32c

  datatype Format = Wal | Segment

  const WAL_MAGIC: nat := 0x5741_4c31
  const RECORD_MAGIC: nat := 0x5441_5243
  const WAL_CAPACITY: nat := 0x400_0000
  const SEGMENT_SIZE: nat := 0x1000_0000

  function Magic(f: Format): nat
  {
    if f.Wal? then WAL_MAGIC else RECORD_MAGIC
  }

  function HeaderLen(f: Format): nat
  {
    if f.Wal? then 12 else 28
  }

  function Capacity(f: Format): nat
  {
    if f.Wal? then WAL_CAPACITY else SEGMENT_SIZE
  }

  /** A WAL entry is a record without inode and sequence number. */
  datatype Record = Record(inode: nat, chunkSeq: nat, checksum: nat, payload: seq<byte>)

  /** Everything the header says about a record. */
  datatype Header = Header(inode: nat, chunkSeq: nat, checksum: nat, len: nat)

  function EncodeHeader(f: Format, h: Header): (b: seq<byte>)
    ensures |b| == HeaderLen(f)
  {
    match f
    case Wal => Le(WAL_MAGIC, 4) + Le(h.len, 4) + Le(h.checksum, 4)
    case Segment => Le(RECORD_MAGIC, 4) + Le(h.inode, 8) + Le(h.chunkSeq, 8) + Le(h.checksum, 4) + Le(h.len, 4)
  }

  function DecodeHeader(f: Format, b: seq<byte>): Option<Header>
    requires |b| == HeaderLen(f)
  {
    if b[..4] != Le(Magic(f), 4) then None
    else
      match f
      case Wal => Some(Header(0, 0, FromLe(b[8..12]), FromLe(b[4..8])))
      case Segment => Some(Header(FromLe(b[4..12]), FromLe(b[12..20]), FromLe(b[20..24]), FromLe(b[24..28])))
  }

  function HeaderOf(r: Record): Header
  {
    Header(r.inode, r.chunkSeq, r.checksum, |r.payload|)
  }

  function Frame(f: Format, r: Record): (b: seq<byte>)
    ensures |b| == HeaderLen(f) + |r.payload|
  {
    EncodeHeader(f, HeaderOf(r)) + r.payload
  }

  function Frames(f: Format, rs: seq<Record>): seq<byte>
  {
    if rs == [] then [] else Frame(f, rs[0]) + Frames(f, rs[1..])
  }

  /** Records the writers produce: the checksum is that of the payload and every field fits its width. */
  predicate Sound(f: Format, r: Record)
  {
    && r.checksum == Checksum(r.payload)
    && |r.payload| < U32
    && (if f.Wal? then r.inode == 0 && r.chunkSeq == 0 else r.inode < U64 && r.chunkSeq < U64)
  }

  ghost predicate AllSound(f: Format, rs: seq<Record>)
  {
    forall r :: r in rs ==> Sound(f, r)
  }

  function WalRecord(payload: seq<byte>): Record
  {
    Record(0, 0, Checksum(payload), payload)
  }

  // ---- the scan ----

  datatype ScanResult = ScanResult(records: seq<Record>, resumeAt: nat, corruptionAt: Option<nat>)

  datatype Found = Nothing | Damaged | Entry(record: Record)

  /** What lies at `cursor` in the region starting at `base`. */
  function Look(f: Format, image: seq<byte>, base: nat, cursor: nat): Found
  {
    var at, hl := base + cursor, HeaderLen(f);
    if cursor + hl > Capacity(f) || at + hl > |image| then Nothing
    else
      match DecodeHeader(f, image[at..at + hl])
      case None => Nothing
      case Some(h) =>
        if cursor + hl + h.len > Capacity(f) || at + hl + h.len > |image| then Nothing
        else
          var payload := image[at + hl..at + hl + h.len];
          if Checksum(payload) != h.checksum then Damaged
          else Entry(Record(h.inode, h.chunkSeq, h.checksum, payload))
  }

  lemma LookAdvances(f: Format, image: seq<byte>, base: nat, cursor: nat)
    requires Look(f, image, base, cursor).Entry?
    ensures cursor < cursor + HeaderLen(f) + |Look(f, image, base, cursor).record.payload| <= Capacity(f)
    ensures base + cursor + HeaderLen(f) + |Look(f, image, base, cursor).record.payload| <= |image|
  {
  }

  /** Scanning from `cursor` to the first position that holds no valid record. */
  function Scan(f: Format, image: seq<byte>, base: nat, cursor: nat): ScanResult
    decreases Capacity(f) - cursor
  {
    match Look(f, image, base, cursor)
    case Nothing => ScanResult([], cursor, None)
    case Damaged => ScanResult([], cursor, Some(cursor))
    case Entry(r) =>
      LookAdvances(f, image, base, cursor);
      var rest := Scan(f, image, base, cursor + HeaderLen(f) + |r.payload|);
      ScanResult([r] + rest.records, rest.resumeAt, rest.corruptionAt)
  }

  function Prepend(rs: seq<Record>, s: ScanResult): ScanResult
  {
    s.(records := rs + s.records)
  }

  lemma ScanStep(f: Format, image: seq<byte>, base: nat, cursor: nat, r: Record)
    requires Look(f, image, base, cursor) == Entry(r)
    ensures Scan(f, image, base, cursor) == Prepend([r], Scan(f, image, base, cursor + |Frame(f, r)|))
  {
    assert |Frame(f, r)| == HeaderLen(f) + |r.payload|;
    LookAdvances(f, image, base, cursor);
  }

  lemma ScanStops(f: Format, image: seq<byte>, base: nat, cursor: nat)
    ensures Look(f, image, base, cursor).Nothing? ==> Scan(f, image, base, cursor) == ScanResult([], cursor, None)
    ensures Look(f, image, base, cursor).Damaged? ==>
            Scan(f, image, base, cursor) == ScanResult([], cursor, Some(cursor))
  {
  }

  // ---- scanning what was appended ----

  lemma HeaderRoundTrip(f: Format, h: Header)
    requires h.checksum < U32 && h.len < U32
    requires if f.Wal? then h.inode == 0 && h.chunkSeq == 0 else h.inode < U64 && h.chunkSeq < U64
    ensures DecodeHeader(f, EncodeHeader(f, h)) == Some(h)
  {
    WordRoundTrip(h.len);
    WordRoundTrip(h.checksum);
    WordRoundTrip(h.inode);
    WordRoundTrip(h.chunkSeq);
    if f.Wal? {
      WalParts(Le(Magic(f), 4), Le(h.len, 4), Le(h.checksum, 4));
    } else {
      SegmentParts(Le(Magic(f), 4), Le(h.inode, 8), Le(h.chunkSeq, 8), Le(h.checksum, 4), Le(h.len, 4));
    }
  }

  lemma WalParts(a: seq<byte>, b: seq<byte>, c: seq<byte>)
    requires |a| == |b| == |c| == 4
    ensures var h := a + b + c;
            |h| == 12 && h[..4] == a && h[4..8] == b && h[8..12] == c
  {
  }

  lemma SegmentParts(a: seq<byte>, b: seq<byte>, c: seq<byte>, d: seq<byte>, e: seq<byte>)
    requires |a| == |d| == |e| == 4 && |b| == |c| == 8
    ensures var h := a + b + c + d + e;
            && |h| == 28 && h[..4] == a && h[4..12] == b && h[12..20] == c
            && h[20..24] == d && h[24..28] == e
  {
  }

  /** Where the fields of a chunk-log record and of a WAL entry lie on disk. */
  lemma FrameLayout(r: Record)
    requires Sound(Segment, r)
    ensures var b := Frame(Segment, r);
            && |b| == 28 + |r.payload| && b[..4] == [0x43, 0x52, 0x41, 0x54]
            && FromLe(b[4..12]) == r.inode && FromLe(b[12..20]) == r.chunkSeq
            && FromLe(b[20..24]) == Checksum(r.payload) && FromLe(b[24..28]) == |r.payload| && b[28..] == r.payload
  {
    var h := HeaderOf(r);
    HeaderRoundTrip(Segment, h);
    var b := EncodeHeader(Segment, h);
    SegmentParts(Le(RECORD_MAGIC, 4), Le(h.inode, 8), Le(h.chunkSeq, 8), Le(h.checksum, 4), Le(h.len, 4));
    FrameSlices(b, r.payload);
    MagicWords();
  }

  lemma EntryLayout(payload: seq<byte>)
    requires |payload| < U32
    ensures var b := Frame(Wal, WalRecord(payload));
            && |b| == 12 + |payload| && b[..4] == [0x31, 0x4c, 0x41, 0x57]
            && FromLe(b[4..8]) == |payload| && FromLe(b[8..12]) == Checksum(payload) && b[12..] == payload
  {
    var h := HeaderOf(WalRecord(payload));
    WordRoundTrip(h.len);
    WordRoundTrip(h.checksum);
    WalParts(Le(WAL_MAGIC, 4), Le(h.len, 4), Le(h.checksum, 4));
    var b := EncodeHeader(Wal, h);
    assert (b + payload)[..4] == b[..4] && (b + payload)[4..8] == b[4..8] && (b + payload)[8..12] == b[8..12];
    MagicWords();
  }

  lemma FrameSlices(h: seq<byte>, p: seq<byte>)
    requires |h| == 28
    ensures var b := h + p;
            && b[..4] == h[..4] && b[4..12] == h[4..12] && b[12..20] == h[12..20] && b[20..24] == h[20..24]
            && b[24..28] == h[24..28] && b[28..] == p
  {
  }

  lemma MagicWords()
    ensures Le(RECORD_MAGIC, 4) == [0x43, 0x52, 0x41, 0x54] && Le(WAL_MAGIC, 4) == [0x31, 0x4c, 0x41, 0x57]
  {
  }

  /** A complete header and its payload are seen, and judged by the checksum. */
  lemma LookSees(f: Format, image: seq<byte>, base: nat, cursor: nat, h: Header, payload: seq<byte>)
    requires DecodeHeader(f, EncodeHeader(f, h)) == Some(h) && |payload| == h.len
    requires Holds(image, base + cursor, EncodeHeader(f, h)) && Holds(image, base + cursor + HeaderLen(f), payload)
    requires cursor + HeaderLen(f) + h.len <= Capacity(f)
    ensures Look(f, image, base, cursor)
            == if Checksum(payload) != h.checksum then Damaged
               else Entry(Record(h.inode, h.chunkSeq, h.checksum, payload))
  {
    var at, hl := base + cursor, HeaderLen(f);
    assert image[at..at + hl] == EncodeHeader(f, h);
    assert image[at + hl..at + hl + h.len] == payload;
  }

  /** A complete frame within the capacity is found again. */
  lemma LookFinds(f: Format, image: seq<byte>, base: nat, cursor: nat, r: Record)
    requires Sound(f, r)
    requires Holds(image, base + cursor, Frame(f, r))
    requires cursor + |Frame(f, r)| <= Capacity(f)
    ensures Look(f, image, base, cursor) == Entry(r)
  {
    HoldsSplit(image, base + cursor, EncodeHeader(f, HeaderOf(r)), r.payload);
    HeaderRoundTrip(f, HeaderOf(r));
    LookSees(f, image, base, cursor, HeaderOf(r), r.payload);
  }

  /** A complete frame that reaches past the capacity is not seen. */
  lemma OverCapacity(f: Format, image: seq<byte>, base: nat, cursor: nat, r: Record)
    requires Sound(f, r) && Holds(image, base + cursor, EncodeHeader(f, HeaderOf(r)))
    requires cursor + |Frame(f, r)| > Capacity(f)
    ensures Look(f, image, base, cursor).Nothing?
  {
    HeaderRoundTrip(f, HeaderOf(r));
  }

  lemma HoldsSplit(image: seq<byte>, off: nat, a: seq<byte>, b: seq<byte>)
    requires Holds(image, off, a + b)
    ensures Holds(image, off, a) && Holds(image, off + |a|, b)
  {
    var ab := a + b;
    assert image[off..off + |a|] == ab[..|a|] == a;
    assert image[off + |a|..off + |a| + |b|] == ab[|a|..] == b;
  }

  /** Complete frames of sound records lie from `cursor` on, within the capacity. */
  ghost predicate Laid(f: Format, image: seq<byte>, base: nat, cursor: nat, rs: seq<Record>)
  {
    AllSound(f, rs) && Holds(image, base + cursor, Frames(f, rs)) && cursor + |Frames(f, rs)| <= Capacity(f)
  }

  lemma LaidTail(f: Format, image: seq<byte>, base: nat, cursor: nat, rs: seq<Record>) returns (next: nat)
    requires Laid(f, image, base, cursor, rs) && rs != []
    ensures Laid(f, image, base, next, rs[1..]) && next + |Frames(f, rs[1..])| == cursor + |Frames(f, rs)|
    ensures Scan(f, image, base, cursor) == Prepend([rs[0]], Scan(f, image, base, next))
  {
    SoundParts(f, rs);
    ScanFirst(f, image, base, cursor, rs[0], Frames(f, rs[1..]));
    next := cursor + |Frame(f, rs[0])|;
  }

  /** The scan has passed the first `i` frames and stands at `c`. */
  ghost predicate PassedTo(f: Format, image: seq<byte>, base: nat, cursor: nat, rs: seq<Record>, i: nat, c: nat)
  {
    && i <= |rs| && Laid(f, image, base, c, rs[i..]) && c + |Frames(f, rs[i..])| == cursor + |Frames(f, rs)|
    && Scan(f, image, base, cursor) == Prepend(rs[..i], Scan(f, image, base, c))
  }

  lemma PassOne(f: Format, image: seq<byte>, base: nat, cursor: nat, rs: seq<Record>, i: nat, c: nat)
    returns (next: nat)
    requires PassedTo(f, image, base, cursor, rs, i, c) && i < |rs|
    ensures PassedTo(f, image, base, cursor, rs, i + 1, next)
  {
    next := LaidTail(f, image, base, c, rs[i..]);
    assert rs[i..][1..] == rs[i + 1..] && rs[i..][0] == rs[i];
    PrependNext(rs, i, Scan(f, image, base, next));
  }

  lemma PrependNext(rs: seq<Record>, i: nat, s: ScanResult)
    requires i < |rs|
    ensures Prepend(rs[..i], Prepend([rs[i]], s)) == Prepend(rs[..i + 1], s)
  {
    assert rs[..i] + ([rs[i]] + s.records) == rs[..i + 1] + s.records;
  }

  lemma PassNone(f: Format, image: seq<byte>, base: nat, cursor: nat, rs: seq<Record>)
    requires Laid(f, image, base, cursor, rs)
    ensures PassedTo(f, image, base, cursor, rs, 0, cursor)
  {
    assert rs[0..] == rs && rs[..0] == [];
    PrependNothing(Scan(f, image, base, cursor));
  }

  /** Complete frames are returned in order, whatever follows them. */
  lemma ScanSkips(f: Format, image: seq<byte>, base: nat, cursor: nat, rs: seq<Record>)
    requires Laid(f, image, base, cursor, rs)
    ensures Scan(f, image, base, cursor) == Prepend(rs, Scan(f, image, base, cursor + |Frames(f, rs)|))
  {
    var i, c := 0, cursor;
    PassNone(f, image, base, cursor, rs);
    while i < |rs|
      invariant 0 <= i <= |rs| && PassedTo(f, image, base, cursor, rs, i, c)
    {
      c := PassOne(f, image, base, cursor, rs, i, c);
      i := i + 1;
    }
    assert rs[i..] == [] && rs[..i] == rs;
  }

  lemma ScanFirst(f: Format, image: seq<byte>, base: nat, cursor: nat, r: Record, rest: seq<byte>)
    requires Sound(f, r)
    requires Holds(image, base + cursor, Frame(f, r) + rest)
    requires cursor + |Frame(f, r)| <= Capacity(f)
    ensures Holds(image, base + (cursor + |Frame(f, r)|), rest)
    ensures Scan(f, image, base, cursor) == Prepend([r], Scan(f, image, base, cursor + |Frame(f, r)|))
  {
    HoldsSplit(image, base + cursor, Frame(f, r), rest);
    LookFinds(f, image, base, cursor, r);
    ScanStep(f, image, base, cursor, r);
  }

  lemma PrependNothing(s: ScanResult)
    ensures Prepend([], s) == s
  {
    assert [] + s.records == s.records;
  }

  lemma SoundParts(f: Format, rs: seq<Record>)
    requires AllSound(f, rs) && rs != []
    ensures Sound(f, rs[0]) && AllSound(f, rs[1..])
    ensures Frames(f, rs) == Frame(f, rs[0]) + Frames(f, rs[1..])
  {
  }

  lemma {:induction false} ScanResumeBounds(f: Format, image: seq<byte>, base: nat, cursor: nat)
    ensures Scan(f, image, base, cursor).resumeAt >= cursor
    ensures base + cursor <= |image| ==> base + Scan(f, image, base, cursor).resumeAt <= |image|
    decreases Capacity(f) - cursor
  {
    if Look(f, image, base, cursor).Entry? {
      LookAdvances(f, image, base, cursor);
      ScanResumeBounds(f, image, base, cursor + HeaderLen(f) + |Look(f, image, base, cursor).record.payload|);
    }
  }

  /** For any bytes after them, complete frames are a prefix of what the scan returns and the scan
      resumes at or beyond their end. */
  lemma ScanKeepsAppended(f: Format, image: seq<byte>, base: nat, rs: seq<Record>)
    requires AllSound(f, rs)
    requires Holds(image, base, Frames(f, rs)) && |Frames(f, rs)| <= Capacity(f)
    ensures rs <= Scan(f, image, base, 0).records
    ensures |Frames(f, rs)| <= Scan(f, image, base, 0).resumeAt
    ensures base + Scan(f, image, base, 0).resumeAt <= |image|
  {
    ScanSkips(f, image, base, 0, rs);
    ScanResumeBounds(f, image, base, |Frames(f, rs)|);
  }

  /** The position after the frames holds no valid record and no damage. */
  ghost predicate CleanEnd(f: Format, image: seq<byte>, base: nat, cursor: nat)
  {
    Look(f, image, base, cursor).Nothing?
  }

  /** With a clean end the scan is exact. */
  lemma ScanExact(f: Format, image: seq<byte>, base: nat, rs: seq<Record>)
    requires AllSound(f, rs)
    requires Holds(image, base, Frames(f, rs)) && |Frames(f, rs)| <= Capacity(f)
    requires CleanEnd(f, image, base, |Frames(f, rs)|)
    ensures Scan(f, image, base, 0) == ScanResult(rs, |Frames(f, rs)|, None)
  {
    ScanSkipsTo(f, image, base, 0, rs, |Frames(f, rs)|);
    ScanStops(f, image, base, |Frames(f, rs)|);
    assert rs + [] == rs;
  }

  /** No record follows: unwritten space, a cut-off record or a damaged one. */
  ghost predicate Ends(f: Format, image: seq<byte>, base: nat, cursor: nat)
  {
    !Look(f, image, base, cursor).Entry?
  }

  /** The scan returns exactly the frames, and resumes exactly behind them, if and only if the bytes
      behind them are not a valid record. */
  lemma ScanExactIff(f: Format, image: seq<byte>, base: nat, rs: seq<Record>)
    requires Laid(f, image, base, 0, rs)
    ensures Ends(f, image, base, |Frames(f, rs)|) <==> Scan(f, image, base, 0).records == rs
    ensures Ends(f, image, base, |Frames(f, rs)|) ==> Scan(f, image, base, 0).resumeAt == |Frames(f, rs)|
  {
    var end := |Frames(f, rs)|;
    ScanSkipsTo(f, image, base, 0, rs, end);
    ScanHere(f, image, base, end);
    PrependIsSame(rs, Scan(f, image, base, end));
  }

  lemma PrependIsSame(rs: seq<Record>, rest: ScanResult)
    ensures Prepend(rs, rest).records == rs <==> rest.records == []
  {
    assert (rs + rest.records)[|rs|..] == rest.records;
    if rest.records == [] {
      PrependToNothing(rs, rest);
    }
  }

  /** The same, with the end named. */
  lemma ScanSkipsTo(f: Format, image: seq<byte>, base: nat, cursor: nat, rs: seq<Record>, end: nat)
    requires Laid(f, image, base, cursor, rs) && end == cursor + |Frames(f, rs)|
    ensures Scan(f, image, base, cursor) == Prepend(rs, Scan(f, image, base, end))
  {
    ScanSkips(f, image, base, cursor, rs);
  }

  lemma ScanHere(f: Format, image: seq<byte>, base: nat, cursor: nat)
    ensures Ends(f, image, base, cursor) <==> Scan(f, image, base, cursor).records == []
    ensures Ends(f, image, base, cursor) ==> Scan(f, image, base, cursor).resumeAt == cursor
  {
  }

  lemma MagicIsNotZero(f: Format)
    ensures Le(Magic(f), 4)[0] != 0
  {
    assert WAL_MAGIC % 256 == 0x31 && RECORD_MAGIC % 256 == 0x43;
  }

  /** Unwritten space (a zero byte, or the end of the image) is a clean end. */
  lemma ZeroTailIsClean(f: Format, image: seq<byte>, base: nat, cursor: nat)
    requires base + cursor < |image| ==> image[base + cursor] == 0
    ensures CleanEnd(f, image, base, cursor)
  {
    MagicIsNotZero(f);
    var at, hl := base + cursor, HeaderLen(f);
    if at + hl <= |image| {
      var b := image[at..at + hl];
      assert b[..4][0] == image[at];
    }
  }

  /** An image that ends inside its last frame has a clean end before that frame: a truncated
      trailing frame is dropped exactly. */
  lemma TruncatedFrameIsClean(f: Format, image: seq<byte>, base: nat, cursor: nat, r: Record, t: nat)
    requires Sound(f, r) && t < |Frame(f, r)|
    requires Holds(image, base + cursor, Frame(f, r)[..t])
    requires |image| == base + cursor + t
    ensures CleanEnd(f, image, base, cursor)
  {
    if t >= HeaderLen(f) {
      HeaderRoundTrip(f, HeaderOf(r));
      CutFrameHeader(image, base + cursor, EncodeHeader(f, HeaderOf(r)), r.payload, t);
    }
  }

  lemma CutFrameHeader(image: seq<byte>, at: nat, header: seq<byte>, payload: seq<byte>, t: nat)
    requires |header| <= t <= |header + payload| && Holds(image, at, (header + payload)[..t])
    ensures at + |header| <= |image| && image[at..at + |header|] == header
  {
    var cut := (header + payload)[..t];
    assert image[at..at + |header|] == image[at..at + t][..|header|];
    assert cut[..|header|] == header;
  }

  /** A write torn before the magic is complete, over zero-filled space, is dropped exactly. */
  lemma TornMagicIsClean(f: Format, image: seq<byte>, base: nat, cursor: nat, t: nat)
    requires t < 4 && base + cursor + 4 <= |image|
    requires image[base + cursor + t] == 0
    ensures CleanEnd(f, image, base, cursor)
  {
    var at, hl := base + cursor, HeaderLen(f);
    MagicBytes(f);
    if at + hl <= |image| {
      var b := image[at..at + hl];
      assert b[..4][t] == image[at + t];
    }
  }

  lemma MagicBytes(f: Format)
    ensures forall i :: 0 <= i < 4 ==> Le(Magic(f), 4)[i] != 0
  {
    assert Le(WAL_MAGIC, 4) == [0x31, 0x4c, 0x41, 0x57];
    assert Le(RECORD_MAGIC, 4) == [0x43, 0x52, 0x41, 0x54];
  }

  /** But a write torn right after the magic is not: magic over zeros is a valid empty record. */
  lemma TornAfterMagicIsAccepted(f: Format, image: seq<byte>, base: nat, cursor: nat)
    requires cursor + HeaderLen(f) <= Capacity(f)
    requires Holds(image, base + cursor, Le(Magic(f), 4) + Zeros(HeaderLen(f) - 4))
    ensures Look(f, image, base, cursor) == Entry(Record(0, 0, 0, []))
  {
    var at, hl := base + cursor, HeaderLen(f);
    var b := Le(Magic(f), 4) + Zeros(hl - 4);
    assert image[at..at + hl] == b && b[..4] == Le(Magic(f), 4);
    ZerosAreZero(4);
    ZerosAreZero(8);
    if f.Wal? {
      assert b[4..8] == Zeros(4) && b[8..12] == Zeros(4);
    } else {
      assert b[4..12] == Zeros(8) && b[12..20] == Zeros(8) && b[20..24] == Zeros(4) && b[24..28] == Zeros(4);
    }
    EmptyChecksum();
    assert image[at + hl..at + hl + 0] == [];
  }

  lemma {:induction false} ZerosAreZero(n: nat)
    ensures FromLe(Zeros(n)) == 0
  {
    if n > 0 {
      assert Zeros(n)[1..] == Zeros(n - 1);
      ZerosAreZero(n - 1);
    }
  }

  /** Damage to at most four consecutive payload bytes of a record is reported as corruption at that
      record, after every earlier record has been returned. */
  lemma DamageReported(f: Format, image: seq<byte>, base: nat, rs: seq<Record>, r: Record,
                       p: seq<byte>, w: seq<byte>, w': seq<byte>, s: seq<byte>)
    requires AllSound(f, rs) && Sound(f, r)
    requires r.payload == p + w + s && |w| == |w'| <= 4 && w != w'
    requires Holds(image, base, Frames(f, rs) + EncodeHeader(f, HeaderOf(r)) + (p + w' + s))
    requires |Frames(f, rs)| + |Frame(f, r)| <= Capacity(f)
    ensures Scan(f, image, base, 0) == ScanResult(rs, |Frames(f, rs)|, Some(|Frames(f, rs)|))
  {
    var fs, hd, bad := Frames(f, rs), EncodeHeader(f, HeaderOf(r)), p + w' + s;
    HoldsSplit(image, base, fs + hd, bad);
    HoldsSplit(image, base, fs, hd);
    assert Checksum(bad) != Checksum(r.payload) by { FourByteDamageDetected(p, w, w', s); }
    assert Look(f, image, base, |fs|) == Damaged by { LookRejects(f, image, base, |fs|, r, bad); }
    ScanToDamage(f, image, base, rs);
  }

  lemma ScanToDamage(f: Format, image: seq<byte>, base: nat, rs: seq<Record>)
    requires AllSound(f, rs)
    requires Holds(image, base, Frames(f, rs)) && |Frames(f, rs)| <= Capacity(f)
    requires Look(f, image, base, |Frames(f, rs)|).Damaged?
    ensures Scan(f, image, base, 0) == ScanResult(rs, |Frames(f, rs)|, Some(|Frames(f, rs)|))
  {
    var end := |Frames(f, rs)|;
    ScanSkips(f, image, base, 0, rs);
    ScanStops(f, image, base, end);
    PrependToNothing(rs, ScanResult([], end, Some(end)));
  }

  lemma PrependToNothing(rs: seq<Record>, s: ScanResult)
    requires s.records == []
    ensures Prepend(rs, s) == s.(records := rs)
  {
    assert rs + [] == rs;
  }

  lemma LookRejects(f: Format, image: seq<byte>, base: nat, cursor: nat, r: Record, bad: seq<byte>)
    requires Sound(f, r) && |bad| == |r.payload| && Checksum(bad) != r.checksum
    requires Holds(image, base + cursor, EncodeHeader(f, HeaderOf(r)))
    requires Holds(image, base + cursor + HeaderLen(f), bad)
    requires cursor + |Frame(f, r)| <= Capacity(f)
    ensures Look(f, image, base, cursor) == Damaged
  {
    HeaderRoundTrip(f, HeaderOf(r));
    LookSees(f, image, base, cursor, HeaderOf(r), bad);
  }

  // ---- frames of an extended log ----

  lemma {:induction false} FramesSnoc(f: Format, rs: seq<Record>, r: Record)
    ensures Frames(f, rs + [r]) == Frames(f, rs) + Frame(f, r)
  {
    if rs == [] {
      assert rs + [r] == [r] && [r][1..] == [];
      assert Frames(f, [r]) == Frame(f, r) + [];
    } else {
      assert (rs + [r])[1..] == rs[1..] + [r];
      FramesSnoc(f, rs[1..], r);
      assert Frame(f, rs[0]) + (Frames(f, rs[1..]) + Frame(f, r)) == Frames(f, rs) + Frame(f, r);
    }
  }

  lemma HoldsJoin(image: seq<byte>, off: nat, a: seq<byte>, b: seq<byte>)
    requires Holds(image, off, a) && Holds(image, off + |a|, b)
    ensures Holds(image, off, a + b)
  {
    assert image[off..off + |a + b|] == image[off..off + |a|] + image[off + |a|..off + |a| + |b|];
  }
}

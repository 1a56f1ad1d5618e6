/** A commit cut short: what reopening makes of an entry of which only the first bytes were written
    over the zeros behind the log. */
module WalTear {
  import opened Proto
  import opened Bytes
  import opened Crc32c
  import opened Framing
  import opened Codec
  import opened Store
  import opened PoolModel
  import opened PoolLog
  import MetaStore

  // ---- what is left of the entry ----

  /** The first `t` bytes of an entry, over zeros. */
  function Torn(e: seq<byte>, t: nat): (b: seq<byte>)
    requires t <= |e|
    ensures |b| == |e| && b[..t] == e[..t] && forall i :: t <= i < |e| ==> b[i] == 0
  {
    e[..t] + Zeros(|e| - t)
  }

  /** The length word, the checksum word and the payload that a scan reads in it. */
  function TornLen(e: seq<byte>, t: nat): nat
    requires 12 <= |e| && t <= |e|
  {
    FromLe(Torn(e, t)[4..8])
  }

  function TornSum(e: seq<byte>, t: nat): nat
    requires 12 <= |e| && t <= |e|
  {
    FromLe(Torn(e, t)[8..12])
  }

  function TornPayload(e: seq<byte>, t: nat): seq<byte>
    requires 12 <= |e| && t <= |e|
  {
    if 12 + TornLen(e, t) <= |e| then Torn(e, t)[12..12 + TornLen(e, t)] else []
  }

  /** The torn entry passes for a valid one: its magic is complete and the checksum it shows fits the
      payload it shows. */
  predicate Passes(e: seq<byte>, t: nat)
    requires 12 <= |e| && t <= |e|
  {
    4 <= t && Checksum(TornPayload(e, t)) == TornSum(e, t)
  }

  /** Replacing bytes of a word by zeros never makes it larger. */
  lemma {:induction false} ZeroedIsLess(a: seq<byte>, b: seq<byte>)
    requires |a| == |b| && forall i :: 0 <= i < |a| ==> b[i] == a[i] || b[i] == 0
    ensures FromLe(b) <= FromLe(a)
  {
    if a != [] {
      ZeroedIsLess(a[1..], b[1..]);
    }
  }

  lemma TornLenFits(payload: seq<byte>, t: nat)
    requires |payload| < U32
    requires t <= |Frame(Wal, WalRecord(payload))|
    ensures TornLen(Frame(Wal, WalRecord(payload)), t) <= |payload|
  {
    var e := Frame(Wal, WalRecord(payload));
    var b := Torn(e, t);
    WordRoundTrip(|payload|);
    EntryParts(payload);
    assert forall i :: 0 <= i < 4 ==> b[4..8][i] == e[4..8][i] || b[4..8][i] == 0;
    ZeroedIsLess(e[4..8], b[4..8]);
  }

  // ---- what a scan sees ----

  /** The entry's bytes over the zeros behind the log. */
  lemma TornHolds(image: seq<byte>, c: nat, e: seq<byte>, t: nat)
    requires t <= |e| && c + |e| <= |image| && forall i :: c <= i < c + |e| ==> image[i] == 0
    ensures Holds(Patch(image, c, e[..t]), c, Torn(e, t))
  {
    var image', b := Patch(image, c, e[..t]), Torn(e, t);
    forall i | 0 <= i < |e|
      ensures image'[c + i] == b[i]
    {
      if i < t {
        assert image'[c..c + t][i] == e[..t][i];
      }
    }
    assert image'[c..c + |e|] == b;
  }

  lemma TornLook(image: seq<byte>, c: nat, e: seq<byte>, t: nat)
    requires 12 <= |e| && 4 <= t <= |e| && e[..4] == Le(WAL_MAGIC, 4) && 12 + TornLen(e, t) <= |e|
    requires Holds(image, c, Torn(e, t)) && c + |e| <= WAL_CAPACITY
    ensures Look(Wal, image, 0, c)
            == if Passes(e, t) then Entry(Record(0, 0, TornSum(e, t), TornPayload(e, t))) else Damaged
  {
    var b := Torn(e, t);
    assert b[..4] == e[..4] by { assert b[..t][..4] == e[..t][..4]; }
    var at := 0 + c;
    assert image[at..at + 12] == b[..12];
    assert b[..12][..4] == b[..4] && b[..12][4..8] == b[4..8] && b[..12][8..12] == b[8..12];
    assert image[at + 12..at + 12 + TornLen(e, t)] == b[12..12 + TornLen(e, t)];
  }

  /** A torn entry ends the log exactly when it does not pass. */
  lemma TornEndsIff(image: seq<byte>, c: nat, payload: seq<byte>, t: nat)
    requires |payload| < U32 && t <= |Frame(Wal, WalRecord(payload))|
    requires Holds(image, c, Torn(Frame(Wal, WalRecord(payload)), t))
    requires c + |Frame(Wal, WalRecord(payload))| <= WAL_CAPACITY
    ensures Ends(Wal, image, 0, c) <==> !Passes(Frame(Wal, WalRecord(payload)), t)
  {
    var e := Frame(Wal, WalRecord(payload));
    if t < 4 {
      assert image[0 + c + t] == Torn(e, t)[t] by { assert image[c..c + |e|][t] == Torn(e, t)[t]; }
      TornMagicIsClean(Wal, image, 0, c, t);
    } else {
      TornLenFits(payload, t);
      EntryParts(payload);
      TornLook(image, c, e, t);
    }
  }

  // ---- which tears pass ----

  /** Cut inside the length word, before any of its non-zero bytes: an empty entry, which passes. */
  lemma ZeroLengthPasses(payload: seq<byte>, t: nat)
    requires |payload| < U32 && 4 <= t <= 8 && forall i :: 4 <= i < t ==> Frame(Wal, WalRecord(payload))[i] == 0
    ensures var e := Frame(Wal, WalRecord(payload));
            Passes(e, t) && TornPayload(e, t) == []
  {
    var e := Frame(Wal, WalRecord(payload));
    var b := Torn(e, t);
    forall i | 4 <= i < 12
      ensures b[i] == 0
    {
      if i < t {
        assert b[..t][i] == e[..t][i];
      }
    }
    assert b[4..8] == Zeros(4) && b[8..12] == Zeros(4);
    ZerosAreZero(4);
    EmptyChecksum();
  }

  /** Cut right after the magic. */
  lemma CutAfterMagic(payload: seq<byte>)
    requires |payload| < U32
    ensures var e := Frame(Wal, WalRecord(payload));
            Passes(e, 4) && TornPayload(e, 4) == []
  {
    ZeroLengthPasses(payload, 4);
  }

  lemma EntryParts(payload: seq<byte>)
    ensures var e := Frame(Wal, WalRecord(payload));
            && e[..4] == Le(WAL_MAGIC, 4) && e[4..8] == Le(|payload|, 4)
            && e[8..12] == Le(Checksum(payload), 4) && e[12..] == payload
  {
    FourParts(Le(WAL_MAGIC, 4), Le(|payload|, 4), Le(Checksum(payload), 4), payload);
  }

  lemma FourParts(a: seq<byte>, b: seq<byte>, c: seq<byte>, d: seq<byte>)
    requires |a| == |b| == |c| == 4
    ensures var e := a + b + c + d;
            e[..4] == a && e[4..8] == b && e[8..12] == c && e[12..] == d
  {
  }

  lemma TornKeeps(e: seq<byte>, t: nat, i: nat, j: nat)
    requires i <= j <= t <= |e|
    ensures Torn(e, t)[i..j] == e[i..j]
  {
    assert Torn(e, t)[..t][i..j] == e[..t][i..j];
  }

  /** With the header complete, what is shown is the payload with its last bytes zeroed. */
  lemma CutInPayload(payload: seq<byte>, t: nat)
    requires |payload| < U32 && 12 <= t <= 12 + |payload|
    ensures var e := Frame(Wal, WalRecord(payload));
            && TornPayload(e, t) == payload[..t - 12] + Zeros(12 + |payload| - t)
            && TornSum(e, t) == Checksum(payload)
  {
    var e := Frame(Wal, WalRecord(payload));
    var b := Torn(e, t);
    WordRoundTrip(|payload|);
    WordRoundTrip(Checksum(payload));
    EntryParts(payload);
    TornKeeps(e, t, 4, 8);
    TornKeeps(e, t, 8, 12);
    TornKeeps(e, t, 12, t);
    assert e[12..t] == e[12..][..t - 12];
    assert b[12..12 + |payload|] == b[12..t] + b[t..];
    assert b[t..] == Zeros(12 + |payload| - t);
  }

  /** It passes if and only if the zeroing does not change the checksum: always when only zeros are
      missing, never when at most four bytes are missing and one of them is not zero. */
  lemma CutInPayloadPassesIff(payload: seq<byte>, t: nat)
    requires |payload| < U32 && 12 <= t <= 12 + |payload|
    ensures var e := Frame(Wal, WalRecord(payload));
            var shown := payload[..t - 12] + Zeros(12 + |payload| - t);
            && (Passes(e, t) <==> Checksum(shown) == Checksum(payload))
            && (shown == payload ==> Passes(e, t))
            && (12 + |payload| - t <= 4 && shown != payload ==> !Passes(e, t))
  {
    CutInPayload(payload, t);
    var kept, lost := payload[..t - 12], payload[t - 12..];
    assert payload == kept + lost;
    ZeroedTail(kept, lost, Zeros(12 + |payload| - t));
  }

  lemma ZeroedTail(kept: seq<byte>, lost: seq<byte>, zeros: seq<byte>)
    requires |lost| == |zeros|
    ensures |lost| <= 4 && kept + zeros != kept + lost ==> Checksum(kept + zeros) != Checksum(kept + lost)
  {
    if |lost| <= 4 && kept + zeros != kept + lost {
      assert kept + lost + [] == kept + lost && kept + zeros + [] == kept + zeros;
      FourByteDamageDetected(kept, lost, zeros, []);
    }
  }

  // ---- what reopening makes of it ----

  /** A torn entry that does not pass is dropped: the log is replayed as it was. */
  lemma DroppedTear(image: seq<byte>, ls: Log, payload: seq<byte>, t: nat)
    requires LogFits(ls) && LogOn(image, ls) && |payload| < U32 && t <= |Frame(Wal, WalRecord(payload))|
    requires LogLen(ls) + |Frame(Wal, WalRecord(payload))| <= WAL_CAPACITY
    requires Holds(image, LogLen(ls), Torn(Frame(Wal, WalRecord(payload)), t))
             && !Passes(Frame(Wal, WalRecord(payload)), t)
    ensures Reopen(image) == Replay(EMPTY, Ops(ls)) && Scan(Wal, image, 0, 0).resumeAt == LogLen(ls)
  {
    TornEndsIff(image, LogLen(ls), payload, t);
    ReopenIsReplay(image, ls);
  }

  /** What the scan returns when a record follows the log. */
  lemma NextRecord(image: seq<byte>, ls: Log, r: Record)
    requires LogFits(ls) && LogOn(image, ls) && LogLen(ls) <= WAL_CAPACITY
             && Look(Wal, image, 0, LogLen(ls)) == Entry(r)
    ensures |ls| < |Scan(Wal, image, 0, 0).records| && Scan(Wal, image, 0, 0).records[|ls|] == r
  {
    EntriesSound(ls);
    ScanSkipsTo(Wal, image, 0, 0, Entries(ls), LogLen(ls));
    ScanStep(Wal, image, 0, LogLen(ls), r);
  }

  /** A torn entry that passes as an empty one is fatal: the decoder panics on it. */
  lemma RefusedTear(image: seq<byte>, ls: Log, payload: seq<byte>, t: nat)
    requires LogFits(ls) && LogOn(image, ls) && |payload| < U32 && t <= |Frame(Wal, WalRecord(payload))|
    requires LogLen(ls) + |Frame(Wal, WalRecord(payload))| <= WAL_CAPACITY
    requires Holds(image, LogLen(ls), Torn(Frame(Wal, WalRecord(payload)), t))
    requires Passes(Frame(Wal, WalRecord(payload)), t) && TornPayload(Frame(Wal, WalRecord(payload)), t) == []
    ensures Reopen(image).None?
  {
    var e := Frame(Wal, WalRecord(payload));
    TornLenFits(payload, t);
    EntryParts(payload);
    TornLook(image, LogLen(ls), e, t);
    NextRecord(image, ls, Record(0, 0, TornSum(e, t), []));
    EmptyPayloadPanics();
    MetaStore.DecodeStops(Scan(Wal, image, 0, 0).records, |ls|);
  }

  /** Zeros behind the log, to the end of the WAL region. */
  ghost predicate ZerosBehind(image: seq<byte>, c: nat)
  {
    WAL_CAPACITY <= |image| && forall i :: c <= i < WAL_CAPACITY ==> image[i] == 0
  }

  lemma ZerosEnd(image: seq<byte>, c: nat)
    requires ZerosBehind(image, c) && c <= WAL_CAPACITY
    ensures Ends(Wal, image, 0, c)
  {
    if c < WAL_CAPACITY {
      ZeroTailIsClean(Wal, image, 0, c);
    }
  }

  lemma ZerosBehindEntry(image: seq<byte>, c: nat, e: seq<byte>)
    requires ZerosBehind(image, c) && c + |e| <= WAL_CAPACITY
    ensures ZerosBehind(Patch(image, c, e), c + |e|)
  {
  }

  lemma LandedEnds(image: seq<byte>, c: nat, e: seq<byte>, image': seq<byte>, end: nat)
    requires ZerosBehind(image, c) && c + |e| == end <= WAL_CAPACITY && image' == Patch(image, c, e)
    ensures Ends(Wal, image', 0, end)
  {
    ZerosBehindEntry(image, c, e);
    ZerosEnd(image', end);
  }

  lemma PatchKeepsLog(image: seq<byte>, ls: Log, bytes: seq<byte>)
    requires LogOn(image, ls)
    ensures LogOn(Patch(image, LogLen(ls), bytes), ls)
  {
    PatchSameOutside(image, LogLen(ls), bytes);
    HoldsOutside(image, Patch(image, LogLen(ls), bytes), LogLen(ls), |bytes|, 0, Frames(Wal, Entries(ls)));
  }

  /** The payload shown reaches at least to the cut, so only zeros follow it. */
  lemma ShownReaches(payload: seq<byte>, t: nat)
    requires |payload| < U32 && t <= |Frame(Wal, WalRecord(payload))|
    ensures t <= 12 + TornLen(Frame(Wal, WalRecord(payload)), t)
  {
    if 8 <= t {
      EntryParts(payload);
      WordRoundTrip(|payload|);
      TornKeeps(Frame(Wal, WalRecord(payload)), t, 4, 8);
    }
  }

  /** Replay with one more payload, which may not decode and whose operation may not be accepted. */
  function ReplayWith(before: Option<Tables>, payload: seq<byte>): Option<Tables>
  {
    if before.None? || Decode(payload).None? then None else ApplyOp(before.value, Decode(payload).value)
  }

  lemma ScanOneMore(image: seq<byte>, ls: Log, r: Record)
    requires LogFits(ls) && LogOn(image, ls) && LogLen(ls) <= WAL_CAPACITY
    requires Look(Wal, image, 0, LogLen(ls)) == Entry(r) && Ends(Wal, image, 0, LogLen(ls) + |Frame(Wal, r)|)
    ensures Scan(Wal, image, 0, 0).records == Entries(ls) + [r]
  {
    EntriesSound(ls);
    ScanSkipsTo(Wal, image, 0, 0, Entries(ls), LogLen(ls));
    ScanStep(Wal, image, 0, LogLen(ls), r);
    ScanHere(Wal, image, 0, LogLen(ls) + |Frame(Wal, r)|);
    assert [r] + [] == [r];
  }

  lemma DecodeLast(rs: seq<Record>, r: Record, ops: seq<MetaOp>)
    requires DecodeAll(rs) == Some(ops)
    ensures DecodeAll(rs + [r]) == if Decode(r.payload).None? then None else Some(ops + [Decode(r.payload).value])
  {
    assert (rs + [r])[..|rs|] == rs;
  }

  lemma ReopenOneMore(image: seq<byte>, ls: Log, r: Record)
    requires LogFits(ls) && Scan(Wal, image, 0, 0).records == Entries(ls) + [r]
    ensures Reopen(image) == ReplayWith(Replay(EMPTY, Ops(ls)), r.payload)
  {
    DecodeEntries(ls);
    DecodeLast(Entries(ls), r, Ops(ls));
    if Decode(r.payload).Some? {
      ReplaySnoc(EMPTY, Ops(ls), Decode(r.payload).value);
    }
  }

  /** What a scan finds in a torn entry that passes, and that nothing follows it. */
  lemma PassedLook(image: seq<byte>, c: nat, payload: seq<byte>, t: nat) returns (r: Record)
    requires |payload| < U32 && t <= |Frame(Wal, WalRecord(payload))|
    requires c + |Frame(Wal, WalRecord(payload))| <= WAL_CAPACITY && ZerosBehind(image, c + t)
    requires Holds(image, c, Torn(Frame(Wal, WalRecord(payload)), t)) && Passes(Frame(Wal, WalRecord(payload)), t)
    ensures r.payload == TornPayload(Frame(Wal, WalRecord(payload)), t)
    ensures Look(Wal, image, 0, c) == Entry(r) && Ends(Wal, image, 0, c + |Frame(Wal, r)|)
  {
    var e := Frame(Wal, WalRecord(payload));
    r := Record(0, 0, TornSum(e, t), TornPayload(e, t));
    TornLenFits(payload, t);
    EntryParts(payload);
    TornLook(image, c, e, t);
    ShownReaches(payload, t);
    ZerosEnd(image, c + |Frame(Wal, r)|);
  }

  /** A torn entry that passes counts: reopening replays the log and then whatever the payload shown
      decodes to, and fails when that does not decode or is not accepted. */
  lemma PassedTear(image: seq<byte>, ls: Log, payload: seq<byte>, t: nat)
    requires LogFits(ls) && LogOn(image, ls) && |payload| < U32 && t <= |Frame(Wal, WalRecord(payload))|
    requires LogLen(ls) + |Frame(Wal, WalRecord(payload))| <= WAL_CAPACITY && ZerosBehind(image, LogLen(ls) + t)
    requires Holds(image, LogLen(ls), Torn(Frame(Wal, WalRecord(payload)), t))
             && Passes(Frame(Wal, WalRecord(payload)), t)
    ensures Reopen(image)
            == ReplayWith(Replay(EMPTY, Ops(ls)), TornPayload(Frame(Wal, WalRecord(payload)), t))
  {
    var r := PassedLook(image, LogLen(ls), payload, t);
    ScanOneMore(image, ls, r);
    ReopenOneMore(image, ls, r);
  }

  /** The outcome of a commit cut after `t` bytes. */
  ghost predicate Classified(image': seq<byte>, ls: Log, e: seq<byte>, t: nat)
    requires 12 <= |e| && t <= |e|
  {
    var before := Replay(EMPTY, Ops(ls));
    Reopen(image') == if Passes(e, t) then ReplayWith(before, TornPayload(e, t)) else before
  }

  lemma TearIsClassified(image: seq<byte>, ls: Log, payload: seq<byte>, t: nat)
    requires LogFits(ls) && LogOn(image, ls) && |payload| < U32 && t <= |Frame(Wal, WalRecord(payload))|
    requires LogLen(ls) + |Frame(Wal, WalRecord(payload))| <= WAL_CAPACITY && ZerosBehind(image, LogLen(ls))
    ensures var e := Frame(Wal, WalRecord(payload));
            Classified(Patch(image, LogLen(ls), e[..t]), ls, e, t)
  {
    var e := Frame(Wal, WalRecord(payload));
    var image' := Patch(image, LogLen(ls), e[..t]);
    TornHolds(image, LogLen(ls), e, t);
    PatchKeepsLog(image, ls, e[..t]);
    if Passes(e, t) {
      ZerosBehindEntry(image, LogLen(ls), e[..t]);
      PassedTear(image', ls, payload, t);
    } else {
      DroppedTear(image', ls, payload, t);
    }
  }

  /** Nothing but zeros was cut off. */
  predicate OnlyZerosLost(e: seq<byte>, t: nat)
  {
    forall i :: t <= i < |e| ==> e[i] == 0
  }

  lemma ZerosLostSame(image: seq<byte>, c: nat, e: seq<byte>, t: nat)
    requires ZerosBehind(image, c) && t <= |e| && c + |e| <= WAL_CAPACITY && OnlyZerosLost(e, t)
    ensures Patch(image, c, e[..t]) == Patch(image, c, e)
  {
    var a, b := Patch(image, c, e[..t]), Patch(image, c, e);
    forall i | 0 <= i < |image|
      ensures a[i] == b[i]
    {
      if c <= i < c + t {
        assert e[..t][i - c] == e[i - c];
      }
    }
  }

  lemma ZerosLostEnds(image: seq<byte>, c: nat, e: seq<byte>, t: nat, image': seq<byte>, end: nat)
    requires ZerosBehind(image, c) && t <= |e| && c + |e| == end <= WAL_CAPACITY && OnlyZerosLost(e, t)
    requires image' == Patch(image, c, e[..t])
    ensures image' == Patch(image, c, e) && Ends(Wal, image', 0, end)
  {
    ZerosLostSame(image, c, e, t);
    LandedEnds(image, c, e, image', end);
  }

  /** Nothing was cut: the operation appears. */
  lemma LandedTear(image: seq<byte>, ls: Log, l: Logged, e: seq<byte>, live: Tables)
    requires LogFits(ls) && LogOn(image, ls) && Agrees(live, ls) && LoggedFits(l) && OrderOk(l)
    requires e == WalBytes(l.op, l.order) && LogLen(ls) + |e| <= WAL_CAPACITY && ZerosBehind(image, LogLen(ls))
    ensures ReopensAs(Patch(image, LogLen(ls), e), live, l.op)
  {
    var image', end := Patch(image, LogLen(ls), e), LogLen(ls) + |e|;
    LandedEnds(image, LogLen(ls), e, image', end);
    UnacknowledgedAppears(image, ls, l, e, image', end, live);
  }

  /** Every tear of a commit over zeros, by how many bytes reached the primary. In general: a tear that
      does not pass is dropped, and one that passes is replayed as what its payload shown decodes to. In
      particular fewer than four bytes are dropped, exactly the magic makes the pool refuse to open, and
      an entry that lost nothing but zeros is there. */
  lemma TearOutcome(image: seq<byte>, ls: Log, l: Logged, t: nat, live: Tables)
    requires LogFits(ls) && LogOn(image, ls) && Agrees(live, ls) && LoggedFits(l) && OrderOk(l)
    requires t <= |WalBytes(l.op, l.order)|
    requires LogLen(ls) + |WalBytes(l.op, l.order)| <= WAL_CAPACITY && ZerosBehind(image, LogLen(ls))
    ensures var e := WalBytes(l.op, l.order);
            var image' := Patch(image, LogLen(ls), e[..t]);
            && Classified(image', ls, e, t)
            && (t < 4 ==> Reopen(image') == Replay(EMPTY, Ops(ls)))
            && (t == 4 ==> Reopen(image').None?)
            && (OnlyZerosLost(e, t) ==> ReopensAs(image', live, l.op))
  {
    var payload := PutOp(l.op, l.order);
    var e := WalBytes(l.op, l.order);
    TearIsClassified(image, ls, payload, t);
    CutAfterMagic(payload);
    EmptyPayloadPanics();
    if OnlyZerosLost(e, t) {
      ZerosLostSame(image, LogLen(ls), e, t);
      LandedTear(image, ls, l, e, live);
    }
  }

  /** The same for a pool: a metadata operation whose commit failed after `t` bytes reached the primary. */
  lemma FailedCommitOutcome(s: State, ls: Log, m: Issued, s': State, t: nat)
    requires LogInv(s, ls) && ZeroPastLog(s) && MetaStep(s, m, s') && WireFits(m) && m.result.CommitFailed?
    requires s.walCursor + |m.entry| <= WAL_CAPACITY <= |s.images[s.group.primary]| && t <= |m.entry|
    requires s'.images[s.group.primary] == Patch(s.images[s.group.primary], s.walCursor, m.entry[..t])
    ensures 12 <= |m.entry| && Classified(s'.images[s.group.primary], ls, m.entry, t)
    ensures t < 4 ==> Reopen(s'.images[s.group.primary]) == Replay(EMPTY, Ops(ls))
    ensures t == 4 ==> Reopen(s'.images[s.group.primary]).None?
    ensures OnlyZerosLost(m.entry, t) ==> ReopensAs(s'.images[s.group.primary], s.tables, m.op)
  {
    var l := LoggedAs(m);
    TearOutcome(s.images[s.group.primary], ls, l, t, s.tables);
  }
}

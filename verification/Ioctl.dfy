/** The fixed 400-byte form of a redundancy scheme that the control ioctls carry. */
module Ioctl {
  import opened Proto
  import opened Arith
  import opened Bytes
  import opened PoolPlacement
  import Text = RedundancySpec

  const MAX_SLOTS: nat := Text.MAX_SLOTS
  const SLOT_SIZE: nat := 24
  const WIRE_SIZE: nat := 400
  const REPLICATED: nat := 0
  const ERASURE_CODED: nat := 1
  const ANY: nat := 0

  function ClassFromWire(v: nat): (c: Option<DiskClass>)
    ensures c.Some? ==> ClassCode(c.value) == v
    ensures c.None? <==> !(1 <= v <= 3)
  {
    match v
    case 1 => Some(Hdd)
    case 2 => Some(Ssd)
    case 3 => Some(Nvme)
    case _ => None
  }

  // ---- one slot ----

  datatype Fields = Fields(cls: byte, pinned: byte, hi: nat, lo: nat)

  function SlotFields(slot: ReplicaSlot): Fields
  {
    match slot
    case AnyOfClass(None) => Fields(ANY, 0, 0, 0)
    case AnyOfClass(Some(c)) => Fields(ClassCode(c), 0, 0, 0)
    case Pinned(id) => Fields(ANY, 1, HiLo(id).0, HiLo(id).1)
  }

  /** None where an unpinned slot names an unknown class. */
  function SlotOf(f: Fields): Option<ReplicaSlot>
  {
    if f.pinned != 0 then Some(Pinned(FromHiLo(f.hi, f.lo)))
    else if f.cls == ANY then Some(AnyOfClass(None))
    else
      match ClassFromWire(f.cls)
      case None => None
      case Some(c) => Some(AnyOfClass(Some(c)))
  }

  function FieldBytes(f: Fields): (b: seq<byte>)
    ensures |b| == SLOT_SIZE
  {
    [f.cls, f.pinned] + Zeros(6) + Le(f.hi, 8) + Le(f.lo, 8)
  }

  function FieldsAt(b: seq<byte>, base: nat): Fields
    requires base + SLOT_SIZE <= |b|
  {
    Fields(b[base], b[base + 1], FromLe(b[base + 8..base + 16]), FromLe(b[base + 16..base + 24]))
  }

  // ---- the whole buffer ----

  function Kept(slots: seq<ReplicaSlot>): (kept: seq<ReplicaSlot>)
    ensures kept <= slots && |kept| == Min(|slots|, MAX_SLOTS)
  {
    slots[..Min(|slots|, MAX_SLOTS)]
  }

  function SlotBytes(slots: seq<ReplicaSlot>): (b: seq<byte>)
    ensures |b| == SLOT_SIZE * |slots|
  {
    if slots == [] then [] else SlotBytes(slots[..|slots| - 1]) + FieldBytes(SlotFields(slots[|slots| - 1]))
  }

  function Head(kind: nat, n: nat, data: byte, parity: byte): (b: seq<byte>)
    ensures |b| == 16
  {
    Le(kind, 4) + Le(n, 4) + [data, parity] + Zeros(6)
  }

  /** What the buffer holds for a scheme: at most sixteen slots, the rest zero. */
  ghost function Wire(x: RedundancyScheme): (b: seq<byte>)
    requires x.ErasureCoded? ==> x.dataShards < U8 && x.parityShards < U8
    ensures |b| == WIRE_SIZE
  {
    match x
    case Replicated(slots) =>
      var kept := Kept(slots);
      Head(REPLICATED, |kept|, 0, 0) + SlotBytes(kept) + Zeros(WIRE_SIZE - 16 - SLOT_SIZE * |kept|)
    case ErasureCoded(k, m) => Head(ERASURE_CODED, 0, k, m) + Zeros(WIRE_SIZE - 16)
  }

  /** The first `n` slots of a buffer. */
  function SlotsFrom(b: seq<byte>, n: nat): Option<seq<ReplicaSlot>>
    requires 16 + SLOT_SIZE * n <= |b|
  {
    if n == 0 then Some([])
    else
      var front := SlotsFrom(b, n - 1);
      var last := SlotOf(FieldsAt(b, 16 + SLOT_SIZE * (n - 1)));
      if front.None? || last.None? then None else Some(front.value + [last.value])
  }

  /** What a buffer stands for; None when it is malformed. */
  function Unwire(b: seq<byte>): Option<RedundancyScheme>
  {
    if |b| != WIRE_SIZE then None
    else
      var kind := FromLe(b[0..4]);
      if kind == REPLICATED then
        var n := FromLe(b[4..8]);
        if n > MAX_SLOTS then None
        else
          match SlotsFrom(b, n)
          case None => None
          case Some(slots) => Some(Replicated(slots))
      else if kind == ERASURE_CODED then Some(ErasureCoded(b[8], b[9]))
      else None
  }

  // ---- encoding in place ----

  lemma {:induction false} SlotBytesSnoc(slots: seq<ReplicaSlot>, i: nat)
    requires i < |slots|
    ensures SlotBytes(slots[..i + 1]) == SlotBytes(slots[..i]) + FieldBytes(SlotFields(slots[i]))
  {
    assert slots[..i + 1][..i] == slots[..i];
  }

  /** A range of a buffer replaced by bytes of the same number. */
  function Overwrite(s: seq<byte>, at: nat, bytes: seq<byte>): (r: seq<byte>)
    requires at + |bytes| <= |s|
    ensures |r| == |s|
  {
    s[..at] + bytes + s[at + |bytes|..]
  }

  lemma OverwriteMiddle(a: seq<byte>, b: seq<byte>, c: seq<byte>, bytes: seq<byte>)
    requires |b| == |bytes|
    ensures Overwrite(a + b + c, |a|, bytes) == a + bytes + c
  {
    var s := a + b + c;
    assert s[..|a|] == a && s[|a| + |b|..] == c;
  }

  method CopyInto(buf: array<byte>, at: nat, bytes: seq<byte>)
    requires at + |bytes| <= buf.Length
    modifies buf
    ensures buf[..] == Overwrite(old(buf[..]), at, bytes)
  {
    ghost var s := buf[..];
    var i := 0;
    while i < |bytes|
      invariant 0 <= i <= |bytes|
      invariant buf[..] == s[..at] + bytes[..i] + s[at + i..]
    {
      assert bytes[..i + 1] == bytes[..i] + [bytes[i]];
      buf[at + i] := bytes[i];
      i := i + 1;
    }
    assert bytes[..i] == bytes;
  }

  /** The tag bytes, over zeros. */
  lemma TagOver(before: seq<byte>, after: seq<byte>, cls: byte, pinned: byte)
    ensures var s := before + Zeros(SLOT_SIZE) + after;
            var tagged := s[|before| := cls][|before| + 1 := pinned];
            tagged == before + ([cls, pinned] + Zeros(6)) + Zeros(8) + (Zeros(8) + after)
  {
  }

  lemma LastOver(before: seq<byte>, tag: seq<byte>, hi: seq<byte>, after: seq<byte>)
    ensures before + tag + hi + (Zeros(8) + after) == (before + tag + hi) + Zeros(8) + after
  {
  }

  lemma Fielded(before: seq<byte>, f: Fields, after: seq<byte>)
    ensures (before + ([f.cls, f.pinned] + Zeros(6)) + Le(f.hi, 8)) + Le(f.lo, 8) + after
            == before + FieldBytes(f) + after
  {
    var tag, hi, lo := [f.cls, f.pinned] + Zeros(6), Le(f.hi, 8), Le(f.lo, 8);
    assert before + tag + hi + lo == before + (tag + hi + lo);
  }

  /** Writes one slot over zeros. */
  method PutSlot(buf: array<byte>, base: nat, slot: ReplicaSlot, ghost before: seq<byte>, ghost after: seq<byte>)
    requires base == |before| && buf[..] == before + Zeros(SLOT_SIZE) + after
    modifies buf
    ensures buf[..] == before + FieldBytes(SlotFields(slot)) + after
  {
    var f := SlotFields(slot);
    ghost var tag, hi := [f.cls, f.pinned] + Zeros(6), Le(f.hi, 8);
    ghost var s: seq<byte> := buf[..];
    buf[base] := f.cls;
    buf[base + 1] := f.pinned;
    assert buf[..] == s[base := f.cls][base + 1 := f.pinned];
    TagOver(before, after, f.cls, f.pinned);
    OverwriteMiddle(before + tag, Zeros(8), Zeros(8) + after, hi);
    CopyInto(buf, base + 8, Le(f.hi, 8));
    LastOver(before, tag, hi, after);
    OverwriteMiddle(before + tag + hi, Zeros(8), after, Le(f.lo, 8));
    CopyInto(buf, base + 16, Le(f.lo, 8));
    Fielded(before, f, after);
  }

  /** One more slot: the buffer holds the head, the slots so far and zeros. */
  lemma NextSlot(head: seq<byte>, slots: seq<ReplicaSlot>, i: nat)
    requires |head| == 16 && i < |slots| <= MAX_SLOTS
    ensures head + SlotBytes(slots[..i]) + Zeros(WIRE_SIZE - 16 - SLOT_SIZE * i)
            == head + SlotBytes(slots[..i]) + Zeros(SLOT_SIZE) + Zeros(WIRE_SIZE - 16 - SLOT_SIZE * (i + 1))
    ensures head + SlotBytes(slots[..i]) + FieldBytes(SlotFields(slots[i])) == head + SlotBytes(slots[..i + 1])
  {
    SlotBytesSnoc(slots, i);
    var n := WIRE_SIZE - 16 - SLOT_SIZE * (i + 1);
    assert Zeros(SLOT_SIZE + n) == Zeros(SLOT_SIZE) + Zeros(n);
  }

  method EncodeSlots(buf: array<byte>, slots: seq<ReplicaSlot>, ghost head: seq<byte>)
    requires |head| == 16 && |slots| <= MAX_SLOTS && buf[..] == head + Zeros(WIRE_SIZE - 16)
    modifies buf
    ensures buf[..] == head + SlotBytes(slots) + Zeros(WIRE_SIZE - 16 - SLOT_SIZE * |slots|)
  {
    var i := 0;
    while i < |slots|
      invariant 0 <= i <= |slots|
      invariant buf[..] == head + SlotBytes(slots[..i]) + Zeros(WIRE_SIZE - 16 - SLOT_SIZE * i)
    {
      NextSlot(head, slots, i);
      PutSlot(buf, 16 + i * SLOT_SIZE, slots[i], head + SlotBytes(slots[..i]),
              Zeros(WIRE_SIZE - 16 - SLOT_SIZE * (i + 1)));
      i := i + 1;
    }
    assert slots[..i] == slots;
  }

  lemma HeadOver(kind: nat, n: nat)
    ensures Overwrite(Overwrite(Zeros(WIRE_SIZE), 0, Le(kind, 4)), 4, Le(n, 4))
            == Head(kind, n, 0, 0) + Zeros(WIRE_SIZE - 16)
  {
    var s := Overwrite(Zeros(WIRE_SIZE), 0, Le(kind, 4));
    assert s == Le(kind, 4) + Zeros(4) + Zeros(WIRE_SIZE - 8);
    OverwriteMiddle(Le(kind, 4), Zeros(4), Zeros(WIRE_SIZE - 8), Le(n, 4));
    assert Zeros(WIRE_SIZE - 8) == [0, 0] + Zeros(6) + Zeros(WIRE_SIZE - 16);
  }

  lemma ErasureOver(k: byte, m: byte)
    ensures var s := Overwrite(Zeros(WIRE_SIZE), 0, Le(ERASURE_CODED, 4));
            s[8 := k][9 := m] == Head(ERASURE_CODED, 0, k, m) + Zeros(WIRE_SIZE - 16)
  {
    ZeroWord();
    var s := Overwrite(Zeros(WIRE_SIZE), 0, Le(ERASURE_CODED, 4));
    assert s == Le(ERASURE_CODED, 4) + Zeros(WIRE_SIZE - 4);
    var r := Head(ERASURE_CODED, 0, k, m) + Zeros(WIRE_SIZE - 16);
    assert forall i :: 0 <= i < WIRE_SIZE ==> s[8 := k][9 := m][i] == r[i];
  }

  lemma ZeroWord()
    ensures Le(0, 4) == Zeros(4)
  {
    assert Le(0, 2) == [0, 0];
    assert Le(0, 4) == [0, 0] + Le(0, 2);
  }

  /** `encode_set_redundancy`. */
  method Encode(x: RedundancyScheme) returns (buf: array<byte>)
    requires x.ErasureCoded? ==> x.dataShards < U8 && x.parityShards < U8
    ensures fresh(buf) && buf[..] == Wire(x)
  {
    buf := new byte[WIRE_SIZE](_ => 0);
    assert buf[..] == Zeros(WIRE_SIZE);
    match x {
      case Replicated(slots) =>
        var kept := Kept(slots);
        HeadOver(REPLICATED, |kept|);
        CopyInto(buf, 0, Le(REPLICATED, 4));
        CopyInto(buf, 4, Le(|kept|, 4));
        EncodeSlots(buf, kept, Head(REPLICATED, |kept|, 0, 0));
      case ErasureCoded(k, m) =>
        CopyInto(buf, 0, Le(ERASURE_CODED, 4));
        var data: byte, parity: byte := k, m;
        ghost var s: seq<byte> := buf[..];
        buf[8] := data;
        buf[9] := parity;
        assert buf[..] == s[8 := data][9 := parity];
        ErasureOver(data, parity);
    }
  }

  // ---- decoding ----

  lemma {:induction false} BadSlotStops(b: seq<byte>, i: nat, n: nat)
    requires i <= n && 16 + SLOT_SIZE * n <= |b| && SlotsFrom(b, i).None?
    ensures SlotsFrom(b, n).None?
    decreases n
  {
    if i < n {
      BadSlotStops(b, i, n - 1);
    }
  }

  method DecodeSlots(b: seq<byte>, n: nat) returns (r: Option<seq<ReplicaSlot>>)
    requires 16 + SLOT_SIZE * n <= |b|
    ensures r == SlotsFrom(b, n)
  {
    var slots: seq<ReplicaSlot> := [];
    var i := 0;
    while i < n
      invariant 0 <= i <= n && SlotsFrom(b, i) == Some(slots)
    {
      var slot := SlotOf(FieldsAt(b, 16 + SLOT_SIZE * i));
      if slot.None? {
        BadSlotStops(b, i + 1, n);
        return None;
      }
      slots := slots + [slot.value];
      i := i + 1;
    }
    r := Some(slots);
  }

  /** `decode_set_redundancy`. */
  method Decode(b: seq<byte>) returns (r: Option<RedundancyScheme>)
    ensures r == Unwire(b)
  {
    if |b| != WIRE_SIZE {
      return None;
    }
    var kind := FromLe(b[0..4]);
    if kind == REPLICATED {
      var n := FromLe(b[4..8]);
      if n > MAX_SLOTS {
        return None;
      }
      var slots := DecodeSlots(b, n);
      r := if slots.None? then None else Some(Replicated(slots.value));
    } else if kind == ERASURE_CODED {
      r := Some(ErasureCoded(b[8], b[9]));
    } else {
      r := None;
    }
  }

  // ---- round trip ----

  /** One slot reads back where it was written. */
  lemma SlotReads(slot: ReplicaSlot, before: seq<byte>, after: seq<byte>)
    requires SlotFits(slot)
    ensures SlotOf(FieldsAt(before + FieldBytes(SlotFields(slot)) + after, |before|)) == Some(slot)
  {
    var f := SlotFields(slot);
    var b := before + FieldBytes(f) + after;
    var at := |before|;
    assert b[at + 8..at + 16] == FieldBytes(f)[8..16] == Le(f.hi, 8);
    assert b[at + 16..at + 24] == FieldBytes(f)[16..24] == Le(f.lo, 8);
    WordRoundTrip(f.hi);
    WordRoundTrip(f.lo);
  }

  lemma Regroup(a: seq<byte>, b: seq<byte>, c: seq<byte>, d: seq<byte>, e: seq<byte>)
    ensures a + (b + c + d) + e == (a + b) + c + (d + e)
  {
  }

  /** The bytes of slot `i` lie between those of the slots before and after it. */
  lemma {:induction false} SlotBytesSplit(slots: seq<ReplicaSlot>, i: nat) returns (after: seq<byte>)
    requires i < |slots|
    ensures SlotBytes(slots) == SlotBytes(slots[..i]) + FieldBytes(SlotFields(slots[i])) + after
    decreases |slots|
  {
    var n := |slots| - 1;
    var last := FieldBytes(SlotFields(slots[n]));
    if i == n {
      after := [];
    } else {
      var front := slots[..n];
      var inner := SlotBytesSplit(front, i);
      assert front[..i] == slots[..i] && front[i] == slots[i];
      after := inner + last;
      Snoc(SlotBytes(slots[..i]), FieldBytes(SlotFields(slots[i])), inner, last);
    }
  }

  lemma Snoc(a: seq<byte>, b: seq<byte>, c: seq<byte>, d: seq<byte>)
    ensures (a + b + c) + d == a + b + (c + d)
  {
  }

  lemma SlotAt(head: seq<byte>, slots: seq<ReplicaSlot>, tail: seq<byte>, i: nat)
    requires |head| == 16 && i < |slots| && SlotFits(slots[i])
    ensures SlotOf(FieldsAt(head + SlotBytes(slots) + tail, 16 + SLOT_SIZE * i)) == Some(slots[i])
  {
    var after := SlotBytesSplit(slots, i);
    var front := SlotBytes(slots[..i]);
    assert |head + front| == 16 + SLOT_SIZE * i;
    Regroup(head, front, FieldBytes(SlotFields(slots[i])), after, tail);
    SlotReads(slots[i], head + front, after + tail);
  }

  lemma {:induction false} SlotsRead(b: seq<byte>, slots: seq<ReplicaSlot>, n: nat)
    requires n <= |slots| && 16 + SLOT_SIZE * |slots| <= |b|
    requires forall i :: 0 <= i < |slots| ==> SlotOf(FieldsAt(b, 16 + SLOT_SIZE * i)) == Some(slots[i])
    ensures SlotsFrom(b, n) == Some(slots[..n])
  {
    if n > 0 {
      SlotsRead(b, slots, n - 1);
      assert slots[..n] == slots[..n - 1] + [slots[n - 1]];
    }
  }

  lemma KeptRead(head: seq<byte>, slots: seq<ReplicaSlot>, tail: seq<byte>)
    requires |head| == 16 && forall slot :: slot in slots ==> SlotFits(slot)
    ensures SlotsFrom(head + SlotBytes(slots) + tail, |slots|) == Some(slots)
  {
    var b := head + SlotBytes(slots) + tail;
    forall i | 0 <= i < |slots|
      ensures SlotOf(FieldsAt(b, 16 + SLOT_SIZE * i)) == Some(slots[i])
    {
      assert slots[i] in slots;
      SlotAt(head, slots, tail, i);
    }
    SlotsRead(b, slots, |slots|);
    assert slots[..|slots|] == slots;
  }

  lemma HeadReads(kind: nat, n: nat, data: byte, parity: byte, rest: seq<byte>)
    requires kind < U32 && n < U32
    ensures var b := Head(kind, n, data, parity) + rest;
            FromLe(b[0..4]) == kind && FromLe(b[4..8]) == n && b[8] == data && b[9] == parity
  {
    var b := Head(kind, n, data, parity) + rest;
    assert b[0..4] == Le(kind, 4) && b[4..8] == Le(n, 4);
    WordRoundTrip(kind);
    WordRoundTrip(n);
  }

  lemma ReplicatedReads(b: seq<byte>, slots: seq<ReplicaSlot>, tail: seq<byte>)
    requires |slots| <= MAX_SLOTS && forall slot :: slot in slots ==> SlotFits(slot)
    requires |b| == WIRE_SIZE && b == Head(REPLICATED, |slots|, 0, 0) + SlotBytes(slots) + tail
    ensures Unwire(b) == Some(Replicated(slots))
  {
    var head := Head(REPLICATED, |slots|, 0, 0);
    Cat(head, SlotBytes(slots), tail);
    HeadReads(REPLICATED, |slots|, 0, 0, SlotBytes(slots) + tail);
    KeptRead(head, slots, tail);
  }

  /** What comes back: the first sixteen slots, or the erasure-coded pair. */
  lemma WireReads(x: RedundancyScheme)
    requires Text.Printable(x)
    ensures Unwire(Wire(x)) == Some(if x.Replicated? then Replicated(Kept(x.slots)) else x)
  {
    match x
    case Replicated(slots) =>
      assert forall slot :: slot in Kept(slots) ==> slot in slots;
      ReplicatedReads(Wire(x), Kept(slots), Zeros(WIRE_SIZE - 16 - SLOT_SIZE * |Kept(slots)|));
    case ErasureCoded(k, m) => HeadReads(ERASURE_CODED, 0, k, m, Zeros(WIRE_SIZE - 16));
  }

  /** Decoding what was encoded gives the scheme back exactly when it has at most sixteen slots. */
  lemma WireRoundTrip(x: RedundancyScheme)
    requires Text.Printable(x)
    ensures Unwire(Wire(x)) == Some(x) <==> (x.Replicated? ==> |x.slots| <= MAX_SLOTS)
  {
    WireReads(x);
    if x.Replicated? && |x.slots| <= MAX_SLOTS {
      assert Kept(x.slots) == x.slots;
    }
  }

  /** The control path: whatever the tool parses arrives unchanged, and is printed in a canonical form
      that parses to the same scheme unless it has no slots. */
  lemma ControlPath(text: string)
    requires Text.Parse(text).Ok?
    ensures var x := Text.Parse(text).value;
            && Text.Printable(x) && Unwire(Wire(x)) == Some(x)
            && (x != Replicated([]) ==> Text.Parse(Text.Format(Unwire(Wire(x)).value)) == Text.Ok(x))
  {
    Text.ParsedIsPrintable(text);
    WireRoundTrip(Text.Parse(text).value);
  }

  // ---- where the fields lie ----

  /** The bytes of one slot, at `b`. */
  ghost predicate SlotLaidOut(b: seq<byte>, slot: ReplicaSlot)
  {
    && |b| == 24 && (forall i :: 2 <= i < 8 ==> b[i] == 0)
    && match slot
       case AnyOfClass(None) => b[0] == 0 && b[1] == 0
       case AnyOfClass(Some(c)) => b[0] == (match c case Hdd => 1 case Ssd => 2 case Nvme => 3) && b[1] == 0
       case Pinned(id) => b[0] == 0 && b[1] == 1 && FromLe(b[8..16]) == id / U64 && FromLe(b[16..24]) == id % U64
  }

  lemma SlotLayout(slot: ReplicaSlot)
    requires SlotFits(slot)
    ensures SlotLaidOut(FieldBytes(SlotFields(slot)), slot)
  {
    var f := SlotFields(slot);
    WordRoundTrip(f.hi);
    WordRoundTrip(f.lo);
    FieldParts([f.cls, f.pinned], Zeros(6), Le(f.hi, 8), Le(f.lo, 8));
  }

  lemma FieldParts(a: seq<byte>, z: seq<byte>, h: seq<byte>, l: seq<byte>)
    requires |a| == 2 && |z| == 6 && |h| == |l| == 8
    ensures var b := a + z + h + l;
            b[..2] == a && b[2..8] == z && b[8..16] == h && b[16..24] == l
  {
  }

  lemma {:induction false} SlotBytesAt(slots: seq<ReplicaSlot>, k: nat)
    requires k < |slots|
    ensures SLOT_SIZE * k + SLOT_SIZE <= |SlotBytes(slots)|
    ensures SlotBytes(slots)[SLOT_SIZE * k..SLOT_SIZE * k + SLOT_SIZE] == FieldBytes(SlotFields(slots[k]))
  {
    var n := |slots| - 1;
    if k < n {
      SlotBytesAt(slots[..n], k);
    }
  }

  /** The control buffer, by offsets: kind, count and shard counts in the head, slot `k` at 16 + 24 k. */
  lemma WireLayout(x: RedundancyScheme, k: nat)
    requires Text.Printable(x)
    ensures var b := Wire(x);
            && |b| == 400 && FromLe(b[0..4]) == (if x.Replicated? then 0 else 1)
            && (x.Replicated? ==> FromLe(b[4..8]) == Min(|x.slots|, 16) && b[8] == 0 && b[9] == 0)
            && (x.ErasureCoded? ==> b[8] == x.dataShards && b[9] == x.parityShards)
            && (x.Replicated? && k < |x.slots| && k < 16 ==> SlotLaidOut(b[16 + 24 * k..40 + 24 * k], x.slots[k]))
  {
    WordRoundTrip(0);
    WordRoundTrip(1);
    if x.Replicated? {
      SlotsLayout(x.slots, Kept(x.slots), k, Wire(x));
    } else {
      HeadParts(Le(ERASURE_CODED, 4), Le(0, 4), [x.dataShards, x.parityShards], Zeros(WIRE_SIZE - 16));
    }
  }

  lemma SlotsLayout(slots: seq<ReplicaSlot>, kept: seq<ReplicaSlot>, k: nat, b: seq<byte>)
    requires Text.Printable(Replicated(slots)) && kept == Kept(slots) && b == Wire(Replicated(slots))
    ensures b[0..4] == Le(REPLICATED, 4) && FromLe(b[4..8]) == |kept| && b[8] == 0 && b[9] == 0
    ensures k < |kept| ==> SlotLaidOut(b[16 + 24 * k..40 + 24 * k], slots[k])
  {
    var rest := SlotBytes(kept) + Zeros(WIRE_SIZE - 16 - SLOT_SIZE * |kept|);
    WordRoundTrip(|kept|);
    HeadParts(Le(REPLICATED, 4), Le(|kept|, 4), [0, 0], rest);
    assert b == Le(REPLICATED, 4) + Le(|kept|, 4) + [0, 0] + Zeros(6) + rest;
    if k < |kept| {
      SlotBytesAt(kept, k);
      assert slots[k] in slots && kept[k] == slots[k];
      SlotLayout(slots[k]);
      assert b[16 + 24 * k..40 + 24 * k] == b[16..][24 * k..24 * k + 24] == SlotBytes(kept)[24 * k..24 * k + 24];
    }
  }

  lemma HeadParts(a: seq<byte>, n: seq<byte>, d: seq<byte>, rest: seq<byte>)
    requires |a| == |n| == 4 && |d| == 2
    ensures var b := a + n + d + Zeros(6) + rest;
            b[0..4] == a && b[4..8] == n && b[8] == d[0] && b[9] == d[1] && b[16..] == rest
  {
  }

  // ---- what any buffer stands for ----

  /** Slot `k` of a buffer can be read: it is pinned or its class is known. */
  predicate SlotReadable(b: seq<byte>, k: nat)
  {
    40 + 24 * k <= |b| && (b[16 + 24 * k + 1] != 0 || b[16 + 24 * k] <= 3)
  }

  /** And then it is this slot. */
  predicate SlotIs(b: seq<byte>, k: nat, slot: ReplicaSlot)
    requires 40 + 24 * k <= |b|
  {
    var at := 16 + 24 * k;
    if b[at + 1] != 0 then slot == Pinned(FromLe(b[at + 8..at + 16]) * U64 + FromLe(b[at + 16..at + 24]))
    else
      match b[at]
      case 0 => slot == AnyOfClass(None)
      case 1 => slot == AnyOfClass(Some(Hdd))
      case 2 => slot == AnyOfClass(Some(Ssd))
      case 3 => slot == AnyOfClass(Some(Nvme))
      case _ => false
  }

  lemma SlotOfIff(b: seq<byte>, k: nat)
    requires 40 + 24 * k <= |b|
    ensures var o := SlotOf(FieldsAt(b, 16 + 24 * k));
            (o.Some? <==> SlotReadable(b, k)) && (o.Some? ==> SlotIs(b, k, o.value))
  {
  }

  lemma {:induction false} SlotsFromIff(b: seq<byte>, n: nat)
    requires 16 + SLOT_SIZE * n <= |b|
    ensures var o := SlotsFrom(b, n);
            && (o.Some? <==> forall k :: 0 <= k < n ==> SlotReadable(b, k))
            && (o.Some? ==> |o.value| == n && forall k :: 0 <= k < n ==> SlotIs(b, k, o.value[k]))
  {
    if n > 0 {
      SlotsFromIff(b, n - 1);
      SlotOfIff(b, n - 1);
    }
  }

  /** Exactly which buffers are accepted, and what they stand for: 400 bytes, of kind 1, or of kind 0 with at
      most sixteen slots that can all be read. */
  lemma UnwireIff(b: seq<byte>)
    ensures var x := Unwire(b);
            && (x.Some? <==> |b| == 400
                             && (FromLe(b[0..4]) == 1
                                 || (FromLe(b[0..4]) == 0 && FromLe(b[4..8]) <= 16
                                     && forall k :: 0 <= k < FromLe(b[4..8]) ==> SlotReadable(b, k))))
            && (x.Some? && FromLe(b[0..4]) == 1 ==> x.value == ErasureCoded(b[8], b[9]))
            && (x.Some? && FromLe(b[0..4]) == 0 ==>
                  x.value.Replicated? && |x.value.slots| == FromLe(b[4..8])
                  && forall k :: 0 <= k < |x.value.slots| ==> SlotReadable(b, k) && SlotIs(b, k, x.value.slots[k]))
  {
    if |b| == WIRE_SIZE && FromLe(b[0..4]) == REPLICATED && FromLe(b[4..8]) <= MAX_SLOTS {
      SlotsFromIff(b, FromLe(b[4..8]));
    }
  }
}

/** The text form of a redundancy scheme: parser and printer. */
module RedundancySpec {
  import opened Proto
  import opened Arith
  import Placement

  datatype ParseError =
    | Empty
    | UnknownSlot(term: string)
    | BadUuid(text: string)
    | BadErasureCoding(spec: string)
    | TooManySlots(n: nat)

  datatype Result<T> = Ok(value: T) | Err(error: ParseError)

  const MAX_SLOTS: nat := Placement.MAX_SELECT

  // ---- text ----

  /** The characters with the Unicode White_Space property. */
  predicate IsSpace(c: char)
  {
    var n := c as int;
    || 0x09 <= n <= 0x0d || n == 0x20 || n == 0x85 || n == 0xa0 || n == 0x1680 || 0x2000 <= n <= 0x200a
    || n == 0x2028 || n == 0x2029 || n == 0x202f || n == 0x205f || n == 0x3000
  }

  function TrimStart(s: string): string
  {
    if s != [] && IsSpace(s[0]) then TrimStart(s[1..]) else s
  }

  function TrimEnd(s: string): string
  {
    if s != [] && IsSpace(s[|s| - 1]) then TrimEnd(s[..|s| - 1]) else s
  }

  function Trim(s: string): string
  {
    TrimEnd(TrimStart(s))
  }

  function StripPrefix(s: string, p: string): Option<string>
  {
    if p <= s then Some(s[|p|..]) else None
  }

  /** The parts around the first `sep`. */
  function SplitOnce(s: string, sep: char): Option<(string, string)>
  {
    if s == [] then None
    else if s[0] == sep then Some(([], s[1..]))
    else
      match SplitOnce(s[1..], sep)
      case None => None
      case Some((a, b)) => Some(([s[0]] + a, b))
  }

  /** All parts between separators; the empty text has one empty part. */
  function Split(s: string, sep: char): (parts: seq<string>)
    ensures parts != []
    decreases |s|
  {
    match SplitOnce(s, sep)
    case None => [s]
    case Some((a, b)) =>
      SplitShorter(s, sep);
      [a] + Split(b, sep)
  }

  lemma SplitShorter(s: string, sep: char)
    ensures SplitOnce(s, sep).Some? ==> |SplitOnce(s, sep).value.1| < |s|
  {
  }

  function Join(parts: seq<string>, sep: char): string
  {
    if parts == [] then [] else if |parts| == 1 then parts[0] else parts[0] + [sep] + Join(parts[1..], sep)
  }

  // ---- numbers ----

  /** The value of a digit or letter, which may exceed the radix. */
  function DigitValue(c: char): Option<nat>
  {
    if '0' <= c <= '9' then Some(c as int - '0' as int)
    else if 'a' <= c <= 'z' then Some(10 + (c as int - 'a' as int))
    else if 'A' <= c <= 'Z' then Some(10 + (c as int - 'A' as int))
    else None
  }

  function DigitsValue(s: string, radix: nat): Option<nat>
  {
    if s == [] then Some(0)
    else
      var front := DigitsValue(s[..|s| - 1], radix);
      var last := DigitValue(s[|s| - 1]);
      if front.None? || last.None? || last.value >= radix then None else Some(front.value * radix + last.value)
  }

  /** Unsigned integer parsing: an optional plus sign, at least one digit, and a value below `limit`. */
  function ParseUnsigned(s: string, radix: nat, limit: nat): Option<nat>
  {
    var digits := if s != [] && s[0] == '+' then s[1..] else s;
    if digits == [] then None
    else
      var v := DigitsValue(digits, radix);
      if v.Some? && v.value < limit then v else None
  }

  function DigitChar(d: nat): (c: char)
    requires d < 16
    ensures DigitValue(c) == Some(d) && c != ',' && c != '+' && c != '-' && !IsSpace(c)
    ensures if d < 10 then '0' <= c <= '9' else 'a' <= c <= 'f'
  {
    if d < 10 then ('0' as int + d) as char else ('a' as int + (d - 10)) as char
  }

  /** Decimal digits without leading zeros. */
  function FormatDec(n: nat): (s: string)
    ensures s != []
  {
    if n < 10 then [DigitChar(n)] else FormatDec(n / 10) + [DigitChar(n % 10)]
  }

  /** The low `width` hexadecimal digits. */
  function FormatHex(n: nat, width: nat): (s: string)
    ensures |s| == width
  {
    if width == 0 then [] else FormatHex(n / 16, width - 1) + [DigitChar(n % 16)]
  }

  // ---- the grammar ----

  function WithoutDashes(s: string): string
  {
    if s == [] then [] else if s[0] == '-' then WithoutDashes(s[1..]) else [s[0]] + WithoutDashes(s[1..])
  }

  function ParseUuidHex(s: string): Result<DiskId>
  {
    match ParseUnsigned(WithoutDashes(s), 16, U128)
    case Some(id) => Ok(id)
    case None => Err(BadUuid(s))
  }

  function ParseSlot(term: string): Result<ReplicaSlot>
  {
    if term == "any" then Ok(AnyOfClass(None))
    else if term == "hdd" then Ok(AnyOfClass(Some(Hdd)))
    else if term == "ssd" then Ok(AnyOfClass(Some(Ssd)))
    else if term == "nvme" then Ok(AnyOfClass(Some(Nvme)))
    else
      match StripPrefix(term, "disk:")
      case None => Err(UnknownSlot(term))
      case Some(id) => match ParseUuidHex(id) case Ok(u) => Ok(Pinned(u)) case Err(e) => Err(e)
  }

  /** Every term in turn; the first error wins. */
  function ParseSlots(terms: seq<string>): Result<seq<ReplicaSlot>>
  {
    if terms == [] then Ok([])
    else
      match ParseSlot(Trim(terms[0]))
      case Err(e) => Err(e)
      case Ok(slot) => match ParseSlots(terms[1..]) case Err(e) => Err(e) case Ok(rest) => Ok([slot] + rest)
  }

  function AnySlots(n: nat): (slots: seq<ReplicaSlot>)
    ensures |slots| == n && forall i :: 0 <= i < n ==> slots[i] == AnyOfClass(None)
  {
    seq(n, _ => AnyOfClass(None))
  }

  function ParseErasure(spec: string, rs: string): Result<RedundancyScheme>
  {
    match SplitOnce(rs, '+')
    case None => Err(BadErasureCoding(spec))
    case Some((k, m)) =>
      match (ParseUnsigned(k, 10, U8), ParseUnsigned(m, 10, U8))
      case (Some(data), Some(parity)) => Ok(ErasureCoded(data, parity))
      case _ => Err(BadErasureCoding(spec))
  }

  function ParseReplicated(spec: string): Result<RedundancyScheme>
  {
    match ParseUnsigned(spec, 10, U64)
    case Some(n) => if n > MAX_SLOTS then Err(TooManySlots(n)) else Ok(Replicated(AnySlots(n)))
    case None =>
      match ParseSlots(Split(spec, ','))
      case Err(e) => Err(e)
      case Ok(slots) => if |slots| > MAX_SLOTS then Err(TooManySlots(|slots|)) else Ok(Replicated(slots))
  }

  function Parse(text: string): Result<RedundancyScheme>
  {
    var spec := Trim(text);
    if spec == [] then Err(Empty)
    else
      match StripPrefix(spec, "rs:")
      case Some(rs) => ParseErasure(spec, rs)
      case None => ParseReplicated(spec)
  }

  function FormatSlot(slot: ReplicaSlot): string
  {
    match slot
    case AnyOfClass(None) => "any"
    case AnyOfClass(Some(Hdd)) => "hdd"
    case AnyOfClass(Some(Ssd)) => "ssd"
    case AnyOfClass(Some(Nvme)) => "nvme"
    case Pinned(id) => "disk:" + FormatHex(id, 32)
  }

  function FormatSlots(slots: seq<ReplicaSlot>): (parts: seq<string>)
    ensures |parts| == |slots| && forall i :: 0 <= i < |slots| ==> parts[i] == FormatSlot(slots[i])
  {
    seq(|slots|, i requires 0 <= i < |slots| => FormatSlot(slots[i]))
  }

  function Format(x: RedundancyScheme): string
  {
    match x
    case Replicated(slots) => Join(FormatSlots(slots), ',')
    case ErasureCoded(k, m) => "rs:" + FormatDec(k) + "+" + FormatDec(m)
  }

  // ---- digits read back ----

  /** Characters that printed numbers are made of. */
  predicate Plain(c: char)
  {
    c != ',' && c != '+' && c != '-' && !IsSpace(c)
  }

  predicate AllPlain(s: string)
  {
    forall i :: 0 <= i < |s| ==> Plain(s[i])
  }

  lemma ValueSnoc(s: string, c: char, radix: nat)
    ensures DigitsValue(s + [c], radix)
            == if DigitsValue(s, radix).None? || DigitValue(c).None? || DigitValue(c).value >= radix then None
               else Some(DigitsValue(s, radix).value * radix + DigitValue(c).value)
  {
    assert (s + [c])[..|s|] == s;
  }

  lemma {:induction false} DecReads(n: nat)
    ensures DigitsValue(FormatDec(n), 10) == Some(n) && AllPlain(FormatDec(n))
  {
    if n < 10 {
      assert [DigitChar(n)] == [] + [DigitChar(n)];
      ValueSnoc([], DigitChar(n), 10);
    } else {
      DecReads(n / 10);
      ValueSnoc(FormatDec(n / 10), DigitChar(n % 10), 10);
    }
  }

  lemma {:induction false} HexReads(n: nat, width: nat)
    requires n < Pow(16, width)
    ensures DigitsValue(FormatHex(n, width), 16) == Some(n) && AllPlain(FormatHex(n, width))
  {
    if width > 0 {
      HexReads(n / 16, width - 1);
      ValueSnoc(FormatHex(n / 16, width - 1), DigitChar(n % 16), 16);
    }
  }

  lemma Pow16()
    ensures Pow(16, 32) == U128
  {
    assert Pow(16, 2) == 256;
    PowAdd(16, 2, 2);
    PowAdd(16, 4, 4);
    PowAdd(16, 8, 8);
    PowAdd(16, 16, 16);
  }

  lemma {:induction false} NoDashes(s: string)
    requires AllPlain(s)
    ensures WithoutDashes(s) == s
  {
    if s != [] {
      NoDashes(s[1..]);
    }
  }

  // ---- splitting what was joined ----

  lemma {:induction false} SplitOnceAt(a: string, sep: char, b: string)
    requires sep !in a
    ensures SplitOnce(a + [sep] + b, sep) == Some((a, b))
  {
    var s := a + [sep] + b;
    if a == [] {
      assert s == [sep] + b;
    } else {
      assert a[0] in a && s[0] == a[0] && [a[0]] + a[1..] == a;
      assert s[1..] == a[1..] + [sep] + b;
      SplitOnceAt(a[1..], sep, b);
    }
  }

  lemma {:induction false} SplitOnceNone(a: string, sep: char)
    requires sep !in a
    ensures SplitOnce(a, sep).None?
  {
    if a != [] {
      SplitOnceNone(a[1..], sep);
    }
  }

  /** Splitting is the inverse of joining parts that do not contain the separator. */
  lemma {:induction false} SplitJoin(parts: seq<string>, sep: char)
    requires parts != [] && forall p :: p in parts ==> sep !in p
    ensures Split(Join(parts, sep), sep) == parts
  {
    if |parts| == 1 {
      SplitOnceNone(parts[0], sep);
    } else {
      SplitOnceAt(parts[0], sep, Join(parts[1..], sep));
      SplitJoin(parts[1..], sep);
    }
  }

  // ---- slots read back ----

  /** A printed slot: no separator and no space in it, and no digit or sign in front. */
  predicate Term(s: string)
  {
    && s != [] && s[0] in "ahsnd"
    && forall i :: 0 <= i < |s| ==> s[i] != ',' && !IsSpace(s[i])
  }

  lemma TrimKeeps(s: string)
    requires s != [] && !IsSpace(s[0]) && !IsSpace(s[|s| - 1])
    ensures Trim(s) == s
  {
  }

  lemma PinnedTerm(hex: string)
    requires AllPlain(hex)
    ensures Term("disk:" + hex)
  {
    var s := "disk:" + hex;
    assert forall i :: 5 <= i < |s| ==> s[i] == hex[i - 5];
  }

  lemma PinnedReads(id: DiskId)
    requires id < U128
    ensures Term(FormatSlot(Pinned(id))) && ParseSlot(FormatSlot(Pinned(id))) == Ok(Pinned(id))
  {
    var hex := FormatHex(id, 32);
    assert DigitsValue(hex, 16) == Some(id) && AllPlain(hex) by {
      Pow16();
      HexReads(id, 32);
    }
    NoDashes(hex);
    PinnedTerm(hex);
    var s := "disk:" + hex;
    assert s[5..] == hex && s[0] == 'd';
  }

  lemma TermIsTrimmed(s: string)
    requires Term(s)
    ensures Trim(s) == s
  {
    TrimKeeps(s);
  }

  lemma SlotReads(slot: ReplicaSlot)
    requires SlotFits(slot)
    ensures Term(FormatSlot(slot)) && ParseSlot(Trim(FormatSlot(slot))) == Ok(slot)
  {
    if slot.Pinned? {
      PinnedReads(slot.id);
    }
    TermIsTrimmed(FormatSlot(slot));
  }

  lemma {:induction false} SlotsRead(slots: seq<ReplicaSlot>)
    requires forall x :: x in slots ==> SlotFits(x)
    ensures ParseSlots(FormatSlots(slots)) == Ok(slots)
  {
    if slots != [] {
      assert FormatSlots(slots)[1..] == FormatSlots(slots[1..]) && FormatSlots(slots)[0] == FormatSlot(slots[0]);
      assert slots[0] in slots && [slots[0]] + slots[1..] == slots;
      SlotReads(slots[0]);
      SlotsRead(slots[1..]);
    }
  }

  lemma {:induction false} JoinIsTrimmed(parts: seq<string>)
    requires parts != [] && forall p :: p in parts ==> Term(p)
    ensures var s := Join(parts, ',');
            s != [] && s[0] in "ahsnd" && !IsSpace(s[0]) && !IsSpace(s[|s| - 1])
  {
    var first := parts[0];
    assert first in parts && Term(first);
    if |parts| > 1 {
      JoinIsTrimmed(parts[1..]);
      var rest := Join(parts[1..], ',');
      var s := first + [','] + rest;
      assert s[0] == first[0] && s[|s| - 1] == rest[|rest| - 1];
    }
  }

  /** Text that starts like a slot is no number. */
  lemma {:induction false} NotANumber(s: string)
    requires s != [] && s[0] in "ahsnd"
    ensures DigitsValue(s, 10).None?
  {
    if |s| > 1 {
      NotANumber(s[..|s| - 1]);
    }
  }

  lemma ReplicatedReads(slots: seq<ReplicaSlot>)
    requires slots != [] && forall x :: x in slots ==> SlotFits(x)
    ensures Parse(Format(Replicated(slots)))
            == if |slots| <= MAX_SLOTS then Ok(Replicated(slots)) else Err(TooManySlots(|slots|))
  {
    var parts := FormatSlots(slots);
    forall p | p in parts
      ensures Term(p)
    {
      var i :| 0 <= i < |parts| && parts[i] == p;
      assert slots[i] in slots;
      SlotReads(slots[i]);
    }
    JoinIsTrimmed(parts);
    SplitJoin(parts, ',');
    SlotsRead(slots);
    SpecReads(Join(parts, ','), slots);
  }

  lemma ParseTrimmed(s: string)
    requires s != [] && Trim(s) == s
    ensures StripPrefix(s, "rs:").None? ==> Parse(s) == ParseReplicated(s)
    ensures StripPrefix(s, "rs:").Some? ==> Parse(s) == ParseErasure(s, StripPrefix(s, "rs:").value)
  {
  }

  lemma NotErasure(s: string)
    requires s != [] && s[0] != 'r'
    ensures StripPrefix(s, "rs:").None?
  {
  }

  lemma NotACount(s: string)
    requires s != [] && s[0] in "ahsnd"
    ensures ParseUnsigned(s, 10, U64).None? && s[0] != 'r'
  {
    NotANumber(s);
  }

  lemma SpecReads(s: string, slots: seq<ReplicaSlot>)
    requires s != [] && s[0] in "ahsnd" && !IsSpace(s[0]) && !IsSpace(s[|s| - 1])
    requires ParseSlots(Split(s, ',')) == Ok(slots)
    ensures Parse(s) == if |slots| <= MAX_SLOTS then Ok(Replicated(slots)) else Err(TooManySlots(|slots|))
  {
    TrimKeeps(s);
    NotACount(s);
    NotErasure(s);
    ParseTrimmed(s);
  }

  /** A printed number reads back. */
  lemma CountReads(n: nat, limit: nat)
    requires n < limit
    ensures ParseUnsigned(FormatDec(n), 10, limit) == Some(n)
  {
    DecReads(n);
    assert Plain(FormatDec(n)[0]);
  }

  lemma ErasureReads(k: nat, m: nat)
    requires k < U8 && m < U8
    ensures Parse(Format(ErasureCoded(k, m))) == Ok(ErasureCoded(k, m))
  {
    var a, b := FormatDec(k), FormatDec(m);
    var rs := a + ['+'] + b;
    var s := "rs:" + rs;
    assert Format(ErasureCoded(k, m)) == s;
    assert StripPrefix(s, "rs:") == Some(rs) by { assert s[3..] == rs; }
    DecReads(k);
    DecReads(m);
    assert Plain(b[|b| - 1]) && s[|s| - 1] == b[|b| - 1];
    TrimKeeps(s);
    ParseTrimmed(s);
    CountReads(k, U8);
    CountReads(m, U8);
    assert '+' !in a;
    SplitOnceAt(a, '+', b);
  }

  /** The schemes that the text form can carry: widths fit. */
  predicate Printable(x: RedundancyScheme)
  {
    match x
    case Replicated(slots) => forall slot :: slot in slots ==> SlotFits(slot)
    case ErasureCoded(k, m) => k < U8 && m < U8
  }

  /** Parsing what was printed gives the scheme back exactly when it has 1 to 16 slots or is an
      erasure-coded pair; without slots or with more than 16 the parser refuses the text. */
  lemma ParseFormat(x: RedundancyScheme)
    requires Printable(x)
    ensures Parse(Format(x)) == Ok(x) <==> (x.Replicated? ==> 1 <= |x.slots| <= MAX_SLOTS)
    ensures x == Replicated([]) ==> Parse(Format(x)) == Err(Empty)
    ensures x.Replicated? && |x.slots| > MAX_SLOTS ==> Parse(Format(x)) == Err(TooManySlots(|x.slots|))
  {
    match x
    case Replicated(slots) =>
      if slots == [] {
        assert Format(x) == [];
      } else {
        ReplicatedReads(slots);
      }
    case ErasureCoded(k, m) => ErasureReads(k, m);
  }

  // ---- what parsing yields ----

  lemma {:induction false} ParsedSlotsOk(terms: seq<string>)
    requires ParseSlots(terms).Ok?
    ensures forall x :: x in ParseSlots(terms).value ==> SlotFits(x)
  {
    if terms != [] {
      ParsedSlotsOk(terms[1..]);
    }
  }

  /** Whatever is parsed can be printed, and printing is canonical: it parses to the same scheme,
      except for the empty scheme that the count 0 stands for. */
  lemma ParsedIsPrintable(text: string)
    requires Parse(text).Ok?
    ensures var x := Parse(text).value;
            && Printable(x) && (x.Replicated? ==> |x.slots| <= MAX_SLOTS)
            && (Parse(Format(x)) == Ok(x) <==> x != Replicated([]))
  {
    var x := Parse(text).value;
    if x.Replicated? {
      var spec := Trim(text);
      if ParseUnsigned(spec, 10, U64).None? {
        ParsedSlotsOk(Split(spec, ','));
      }
    }
    ParseFormat(x);
  }

  /** A bare count is short for that many slots without a requirement, up to sixteen; 0 is accepted. */
  lemma CountIsSugar(n: nat)
    requires n < U64
    ensures Parse(FormatDec(n)) == if n <= MAX_SLOTS then Ok(Replicated(AnySlots(n))) else Err(TooManySlots(n))
  {
    var s := FormatDec(n);
    DecReads(n);
    assert Plain(s[0]) && Plain(s[|s| - 1]);
    TrimKeeps(s);
    StartsWithDigit(n);
  }

  lemma {:induction false} StartsWithDigit(n: nat)
    ensures '0' <= FormatDec(n)[0] <= '9'
  {
    if n >= 10 {
      StartsWithDigit(n / 10);
    }
  }

  // ---- what the parser overlooks ----

  predicate AllSpaces(s: string)
  {
    forall i :: 0 <= i < |s| ==> IsSpace(s[i])
  }

  lemma {:induction false} TrimStartPadded(a: string, p: string)
    requires AllSpaces(a) && p != [] && !IsSpace(p[0])
    ensures TrimStart(a + p) == p
  {
    if a == [] {
      assert a + p == p;
    } else {
      assert (a + p)[1..] == a[1..] + p;
      TrimStartPadded(a[1..], p);
    }
  }

  lemma {:induction false} TrimEndPadded(p: string, b: string)
    requires AllSpaces(b) && p != [] && !IsSpace(p[|p| - 1])
    ensures TrimEnd(p + b) == p
  {
    if b == [] {
      assert p + b == p;
    } else {
      var n := |b| - 1;
      assert (p + b)[..|p| + n] == p + b[..n];
      TrimEndPadded(p, b[..n]);
    }
  }

  /** Spaces around a text are trimmed, and nothing else. */
  lemma TrimPadded(a: string, p: string, b: string)
    requires AllSpaces(a) && AllSpaces(b) && p != [] && !IsSpace(p[0]) && !IsSpace(p[|p| - 1])
    ensures Trim(a + p + b) == p
  {
    assert a + p + b == a + (p + b);
    TrimStartPadded(a, p + b);
    TrimEndPadded(p, b);
  }

  /** A printed slot with spaces around it. */
  ghost predicate PadsSlot(slot: ReplicaSlot, part: string)
  {
    exists a, b :: AllSpaces(a) && AllSpaces(b) && part == a + FormatSlot(slot) + b
  }

  lemma PaddedReads(slot: ReplicaSlot, part: string)
    requires SlotFits(slot) && PadsSlot(slot, part)
    ensures ParseSlot(Trim(part)) == Ok(slot) && ',' !in part
  {
    var a, b :| AllSpaces(a) && AllSpaces(b) && part == a + FormatSlot(slot) + b;
    SlotReads(slot);
    TermIsTrimmed(FormatSlot(slot));
    PaddedTerm(a, FormatSlot(slot), b);
  }

  lemma PaddedTerm(a: string, p: string, b: string)
    requires AllSpaces(a) && AllSpaces(b) && Term(p)
    ensures Trim(a + p + b) == p && ',' !in a + p + b
  {
    TrimPadded(a, p, b);
  }

  lemma {:induction false} PaddedSlotsRead(slots: seq<ReplicaSlot>, parts: seq<string>)
    requires |parts| == |slots| && forall i :: 0 <= i < |slots| ==> SlotFits(slots[i]) && PadsSlot(slots[i], parts[i])
    ensures ParseSlots(parts) == Ok(slots) && forall p :: p in parts ==> ',' !in p
  {
    if slots != [] {
      PaddedReads(slots[0], parts[0]);
      PaddedSlotsRead(slots[1..], parts[1..]);
      assert [slots[0]] + slots[1..] == slots && [parts[0]] + parts[1..] == parts;
    }
  }

  lemma {:induction false} JoinEnds(parts: seq<string>)
    requires parts != [] && parts[0] != [] && parts[|parts| - 1] != []
    ensures var (s, last) := (Join(parts, ','), parts[|parts| - 1]);
            s != [] && s[0] == parts[0][0] && s[|s| - 1] == last[|last| - 1]
  {
    if |parts| > 1 {
      var rest := Join(parts[1..], ',');
      if |parts| > 2 && parts[1] == [] {
        JoinEnd(parts[1..]);
      } else {
        JoinEnds(parts[1..]);
      }
      assert (parts[0] + [','] + rest)[|parts[0]| + |rest|] == rest[|rest| - 1];
    }
  }

  lemma {:induction false} JoinEnd(parts: seq<string>)
    requires parts != [] && parts[|parts| - 1] != []
    ensures var (s, last) := (Join(parts, ','), parts[|parts| - 1]);
            s != [] && s[|s| - 1] == last[|last| - 1]
  {
    if |parts| > 1 {
      JoinEnd(parts[1..]);
      var rest := Join(parts[1..], ',');
      assert (parts[0] + [','] + rest)[|parts[0]| + |rest|] == rest[|rest| - 1];
    }
  }

  /** Spaces around the text and around each term change nothing. */
  lemma SpacesIgnored(before: string, slots: seq<ReplicaSlot>, parts: seq<string>, after: string)
    requires AllSpaces(before) && AllSpaces(after) && slots != [] && |parts| == |slots|
    requires forall i :: 0 <= i < |slots| ==> SlotFits(slots[i]) && PadsSlot(slots[i], parts[i])
    requires parts[0] != [] && parts[0][0] in "ahsnd"
    requires var last := parts[|parts| - 1]; last != [] && !IsSpace(last[|last| - 1])
    ensures Parse(before + Join(parts, ',') + after)
            == if |slots| <= MAX_SLOTS then Ok(Replicated(slots)) else Err(TooManySlots(|slots|))
  {
    var s := Join(parts, ',');
    SlotLetter(parts[0][0]);
    PaddedSpec(slots, parts, s);
    OuterSpaces(before, s, after);
  }

  lemma SlotLetter(c: char)
    requires c in "ahsnd"
    ensures !IsSpace(c)
  {
  }

  lemma PaddedSpec(slots: seq<ReplicaSlot>, parts: seq<string>, s: string)
    requires slots != [] && |parts| == |slots| && s == Join(parts, ',')
    requires forall i :: 0 <= i < |slots| ==> SlotFits(slots[i]) && PadsSlot(slots[i], parts[i])
    requires parts[0] != [] && parts[0][0] in "ahsnd" && !IsSpace(parts[0][0])
    requires var last := parts[|parts| - 1]; last != [] && !IsSpace(last[|last| - 1])
    ensures s != [] && !IsSpace(s[0]) && !IsSpace(s[|s| - 1])
    ensures Parse(s) == if |slots| <= MAX_SLOTS then Ok(Replicated(slots)) else Err(TooManySlots(|slots|))
  {
    PaddedSlotsRead(slots, parts);
    SplitJoin(parts, ',');
    JoinEnds(parts);
    SpecReads(s, slots);
  }

  lemma OuterSpaces(before: string, s: string, after: string)
    requires AllSpaces(before) && AllSpaces(after) && s != [] && !IsSpace(s[0]) && !IsSpace(s[|s| - 1])
    ensures Parse(before + s + after) == Parse(s)
  {
    TrimPadded(before, s, after);
    TrimKeeps(s);
  }

  lemma {:induction false} WithoutDash(a: string, b: string)
    ensures WithoutDashes(a + ['-'] + b) == WithoutDashes(a + b)
  {
    if a == [] {
      assert a + ['-'] + b == ['-'] + b && a + b == b;
    } else {
      assert (a + ['-'] + b)[1..] == a[1..] + ['-'] + b && (a + b)[1..] == a[1..] + b;
      WithoutDash(a[1..], b);
    }
  }

  /** A dash anywhere in a disk id changes nothing. */
  lemma DashIgnored(a: string, b: string)
    requires ParseSlot("disk:" + (a + b)).Ok?
    ensures ParseSlot("disk:" + (a + ['-'] + b)) == ParseSlot("disk:" + (a + b))
  {
    WithoutDash(a, b);
    var x, y := "disk:" + (a + b), "disk:" + (a + ['-'] + b);
    assert x[0] == 'd' && y[0] == 'd' && x[5..] == a + b && y[5..] == a + ['-'] + b;
  }

  /** The four names, and the error for anything else that is no disk. */
  lemma SlotNames(term: string)
    ensures ParseSlot(term) == Ok(AnyOfClass(None)) <==> term == "any"
    ensures ParseSlot(term) == Ok(AnyOfClass(Some(Hdd))) <==> term == "hdd"
    ensures ParseSlot(term) == Ok(AnyOfClass(Some(Ssd))) <==> term == "ssd"
    ensures ParseSlot(term) == Ok(AnyOfClass(Some(Nvme))) <==> term == "nvme"
    ensures ParseSlot(term) == Err(UnknownSlot(term))
            <==> term !in {"any", "hdd", "ssd", "nvme"} && !("disk:" <= term)
  {
  }
}

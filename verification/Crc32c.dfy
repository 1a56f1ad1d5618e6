/** CRC32C (Castagnoli): the table-driven loop, the bit-serial register it stands for, and which
    damage the checksum always detects. Machine words are naturals; `>>`, `&` with a low mask and
    `!` are written as division, remainder and complement, and `^` is bitwise addition. */
module Crc32c {
  import opened Proto
  import opened Arith

  /** The reversed Castagnoli polynomial. */
  const POLY: nat := 0x82f6_3b78

  const ONES: nat := 0xffff_ffff

  /** Bitwise exclusive or. */
  function Xor(a: nat, b: nat): nat
    decreases a + b
  {
    if a == 0 && b == 0 then 0 else (a + b) % 2 + 2 * Xor(a / 2, b / 2)
  }

  // ---- the bit-serial definition (section 13.1 of RFC 7143, bits reflected) ----

  /** The register shifts right; the polynomial is added when a one falls out. */
  function Shift(c: nat): nat
  {
    if c % 2 == 1 then Xor(POLY, c / 2) else c / 2
  }

  /** One message bit enters at the low end. */
  function BitStep(crc: nat, bit: bool): nat
  {
    if (crc % 2 == 1) != bit then Xor(POLY, crc / 2) else crc / 2
  }

  function BitSerial(crc: nat, bits: seq<bool>): nat
    decreases |bits|
  {
    if bits == [] then crc else BitSerial(BitStep(crc, bits[0]), bits[1..])
  }

  /** The low `n` bits of `v`, least significant first. */
  function Bits(v: nat, n: nat): (bits: seq<bool>)
    ensures |bits| == n
  {
    if n == 0 then [] else [v % 2 == 1] + Bits(v / 2, n - 1)
  }

  function MessageBits(data: seq<byte>): (bits: seq<bool>)
    ensures |bits| == 8 * |data|
  {
    if data == [] then [] else Bits(data[0], 8) + MessageBits(data[1..])
  }

  /** The checksum of a byte string: start from all ones, feed every bit, complement. */
  function Checksum(data: seq<byte>): (c: nat)
    ensures c < U32
  {
    PowOfTwo();
    BitSerialBound(ONES, MessageBits(data));
    ONES - BitSerial(ONES, MessageBits(data))
  }

  /** The generator x^32 + x^28 + x^27 + x^26 + x^25 + x^23 + x^22 + x^20 + x^19 + x^18 + x^14 + x^13 + x^11
      + x^10 + x^9 + x^8 + x^6 + 1, with the coefficient of x^k in bit 31 - k. */
  lemma PolyIsCastagnoli()
    ensures POLY == 0x8000_0000 + 0x200_0000 + 0x80_0000 + 0x40_0000 + 0x20_0000 + 0x10_0000 + 0x4_0000 + 0x2_0000
                    + 0x2000 + 0x1000 + 0x800 + 0x200 + 0x100 + 0x40 + 0x20 + 0x10 + 0x8
  {
  }

  // ---- exclusive or ----

  lemma {:induction false} XorComm(a: nat, b: nat)
    ensures Xor(a, b) == Xor(b, a)
    decreases a + b
  {
    if a + b > 0 { XorComm(a / 2, b / 2); }
  }

  lemma XorHalves(a: nat, b: nat)
    ensures Xor(a, b) / 2 == Xor(a / 2, b / 2)
    ensures Xor(a, b) % 2 == (a + b) % 2
  {
  }

  lemma FromHalves(x: nat, y: nat)
    requires x / 2 == y / 2 && x % 2 == y % 2
    ensures x == y
  {
  }

  lemma ParityAssoc(a: nat, b: nat, c: nat, p: nat, q: nat)
    requires p % 2 == (a + b) % 2 && q % 2 == (b + c) % 2
    ensures (p + c) % 2 == (a + q) % 2
  {
  }

  lemma {:induction false} XorAssoc(a: nat, b: nat, c: nat)
    ensures Xor(Xor(a, b), c) == Xor(a, Xor(b, c))
    decreases a + b + c
  {
    if a + b + c > 0 {
      XorAssoc(a / 2, b / 2, c / 2);
      var p, q := Xor(a, b), Xor(b, c);
      XorHalves(a, b);
      XorHalves(b, c);
      XorHalves(p, c);
      XorHalves(a, q);
      ParityAssoc(a, b, c, p, q);
      FromHalves(Xor(p, c), Xor(a, q));
    }
  }

  lemma {:induction false} XorZero(a: nat)
    ensures Xor(a, 0) == a && Xor(0, a) == a
  {
    if a > 0 { XorZero(a / 2); }
  }

  lemma {:induction false} XorSelf(a: nat)
    ensures Xor(a, a) == 0
  {
    if a > 0 { XorSelf(a / 2); }
  }

  lemma XorCancel(p: nat, a: nat, b: nat)
    requires Xor(p, a) == Xor(p, b)
    ensures a == b
  {
    XorAssoc(p, p, a);
    XorAssoc(p, p, b);
    XorSelf(p);
    XorZero(a);
    XorZero(b);
  }

  lemma {:induction false} XorBound(a: nat, b: nat, n: nat)
    requires a < Pow(2, n) && b < Pow(2, n)
    ensures Xor(a, b) < Pow(2, n)
  {
    if n > 0 { XorBound(a / 2, b / 2, n - 1); }
  }

  lemma {:induction false} XorTopBit(a: nat, b: nat, n: nat)
    requires Pow(2, n) <= a < 2 * Pow(2, n) && b < Pow(2, n)
    ensures Xor(a, b) >= Pow(2, n)
  {
    if n > 0 { XorTopBit(a / 2, b / 2, n - 1); }
  }

  /** Words without common bits: exclusive or is addition. */
  lemma {:induction false} XorDisjoint(lo: nat, y: nat, n: nat)
    requires lo < Pow(2, n)
    ensures Xor(lo, Pow(2, n) * y) == lo + Pow(2, n) * y
  {
    if n == 0 {
      XorZero(y);
    } else {
      var z := Pow(2, n - 1) * y;
      assert Pow(2, n) * y == 2 * z;
      XorDisjoint(lo / 2, y, n - 1);
      XorHalves(lo, 2 * z);
      FromHalves(Xor(lo, 2 * z), lo + 2 * z);
    }
  }

  lemma XorFour(p: nat, a: nat, b: nat)
    ensures Xor(Xor(p, a), b) == Xor(p, Xor(a, b))
    ensures Xor(a, Xor(p, b)) == Xor(p, Xor(a, b))
    ensures Xor(Xor(p, a), Xor(p, b)) == Xor(a, b)
  {
    XorAssoc(p, a, b);
    XorAssoc(a, p, b);
    XorComm(a, p);
    XorComm(p, a);
    XorAssoc(a, p, Xor(p, b));
    XorAssoc(p, p, b);
    XorSelf(p);
    XorZero(b);
  }

  // ---- the register is linear ----

  lemma ShiftOf(c: nat, h: nat, odd: bool)
    requires c / 2 == h && (c % 2 == 1) == odd
    ensures Shift(c) == Reduce(odd, h)
  {
  }

  function Reduce(odd: bool, h: nat): nat
  {
    if odd then Xor(POLY, h) else h
  }

  lemma ReduceLinear(x: bool, y: bool, u: nat, v: nat)
    ensures Reduce(x != y, Xor(u, v)) == Xor(Reduce(x, u), Reduce(y, v))
  {
    XorFour(POLY, u, v);
  }

  lemma ShiftLinear(a: nat, b: nat)
    ensures Shift(Xor(a, b)) == Xor(Shift(a), Shift(b))
  {
    var x, u := ShiftParts(a);
    var y, v := ShiftParts(b);
    var z, w := ShiftParts(Xor(a, b));
    XorParts(a, b);
    ReduceLinear(x, y, u, v);
  }

  /** A shift in terms of the bit that falls out and the rest. */
  lemma ShiftParts(c: nat) returns (odd: bool, h: nat)
    ensures odd == (c % 2 == 1) && h == c / 2 && Shift(c) == Reduce(odd, h)
  {
    odd, h := c % 2 == 1, c / 2;
    ShiftOf(c, h, odd);
  }

  lemma XorParts(a: nat, b: nat)
    ensures Xor(a, b) / 2 == Xor(a / 2, b / 2)
    ensures (Xor(a, b) % 2 == 1) == ((a % 2 == 1) != (b % 2 == 1))
  {
    XorHalves(a, b);
    ParityXor(a, b, Xor(a, b));
  }

  lemma ParityXor(a: nat, b: nat, c: nat)
    requires c % 2 == (a + b) % 2
    ensures (c % 2 == 1) == ((a % 2 == 1) != (b % 2 == 1))
  {
  }

  lemma BitStepIsShift(crc: nat, bit: bool)
    ensures BitStep(crc, bit) == Shift(Xor(crc, if bit then 1 else 0))
  {
    XorHalves(crc, if bit then 1 else 0);
    XorZero(crc / 2);
  }

  function Shifts(c: nat, n: nat): nat
    decreases n
  {
    if n == 0 then c else Shifts(Shift(c), n - 1)
  }

  lemma {:induction false} ShiftsLinear(a: nat, b: nat, n: nat)
    ensures Shifts(Xor(a, b), n) == Xor(Shifts(a, n), Shifts(b, n))
    decreases n
  {
    if n > 0 {
      ShiftLinear(a, b);
      ShiftsLinear(Shift(a), Shift(b), n - 1);
    }
  }

  lemma {:induction false} ShiftsUp(y: nat, n: nat)
    ensures Shifts(Pow(2, n) * y, n) == y
  {
    if n > 0 {
      var z := Pow(2, n - 1) * y;
      assert Pow(2, n) * y == 2 * z;
      ShiftsUp(y, n - 1);
    }
  }

  /** The first bit of a word may be fed alone and the rest added after the shift. */
  lemma FirstBit(crc: nat, v: nat)
    ensures Xor(BitStep(crc, v % 2 == 1), v / 2) == Shift(Xor(crc, v))
  {
    var b, w := v % 2, 2 * (v / 2);
    BitStepIsShift(crc, b == 1);
    LowBitApart(v);
    XorAssoc(crc, b, w);
    ShiftLinear(Xor(crc, b), w);
  }

  lemma LowBitApart(v: nat)
    ensures Xor(v % 2, 2 * (v / 2)) == v
  {
    assert Pow(2, 1) == 2;
    XorDisjoint(v % 2, v / 2, 1);
  }

  /** Feeding `n` bits is adding them to the register and shifting `n` times. */
  lemma {:induction false} FeedBits(crc: nat, v: nat, n: nat)
    requires v < Pow(2, n)
    ensures BitSerial(crc, Bits(v, n)) == Shifts(Xor(crc, v), n)
    decreases n
  {
    if n == 0 {
      XorZero(crc);
    } else {
      var b := v % 2;
      var bits := Bits(v, n);
      assert bits[1..] == Bits(v / 2, n - 1);
      FeedBits(BitStep(crc, b == 1), v / 2, n - 1);
      FirstBit(crc, v);
    }
  }

  lemma {:induction false} BitSerialAppend(crc: nat, a: seq<bool>, b: seq<bool>)
    ensures BitSerial(crc, a + b) == BitSerial(BitSerial(crc, a), b)
    decreases |a|
  {
    if a == [] {
      assert a + b == b;
    } else {
      assert (a + b)[1..] == a[1..] + b;
      BitSerialAppend(BitStep(crc, a[0]), a[1..], b);
    }
  }

  // ---- a byte at a time, through the table ----

  /** The table entry for a byte value. */
  function TableEntry(i: nat): nat
  {
    Shifts(i, 8)
  }

  function ByteStep(crc: nat, b: byte): nat
  {
    Xor(TableEntry(Xor(crc, b) % 256), crc / 256)
  }

  function Eighth(x: nat): nat
  {
    x / 2 / 2 / 2
  }

  lemma XorEighth(a: nat, b: nat)
    ensures Eighth(Xor(a, b)) == Xor(Eighth(a), Eighth(b))
  {
    XorHalves(a, b);
    XorHalves(a / 2, b / 2);
    XorHalves(a / 2 / 2, b / 2 / 2);
  }

  lemma DivBy256(x: nat)
    ensures Eighth(Eighth(x)) / 2 / 2 == x / 256
  {
    assert Eighth(x) == x / 8;
    assert Eighth(x / 8) == x / 64;
  }

  lemma HighByte(crc: nat, b: byte)
    ensures Xor(crc, b) / 256 == crc / 256
  {
    XorEighth(crc, b);
    XorEighth(Eighth(crc), Eighth(b));
    var c, d := Eighth(Eighth(crc)), Eighth(Eighth(b));
    XorHalves(c, d);
    XorHalves(c / 2, d / 2);
    DivBy256(crc);
    DivBy256(b);
    DivBy256(Xor(crc, b));
    XorZero(crc / 256);
  }

  /** One table lookup is eight bit steps. */
  lemma ByteStepIsBits(crc: nat, b: byte)
    ensures ByteStep(crc, b) == BitSerial(crc, Bits(b, 8))
  {
    var x := Xor(crc, b);
    assert Pow(2, 8) == 256;
    FeedBits(crc, b, 8);
    ShiftsSplit(x, x % 256, x / 256, 8);
    HighByte(crc, b);
  }

  /** Shifting out `n` bits acts on the low `n` bits alone; the rest moves down. */
  lemma ShiftsSplit(x: nat, lo: nat, hi: nat, n: nat)
    requires lo < Pow(2, n) && x == lo + Pow(2, n) * hi
    ensures Shifts(x, n) == Xor(Shifts(lo, n), hi)
  {
    XorDisjoint(lo, hi, n);
    ShiftsLinear(lo, Pow(2, n) * hi, n);
    ShiftsUp(hi, n);
  }

  // ---- ranges ----

  lemma ShiftBound(c: nat)
    requires c < Pow(2, 32)
    ensures Shift(c) < Pow(2, 32)
    ensures c % 2 == 1 <==> Shift(c) >= Pow(2, 31)
  {
    assert Pow(2, 32) == 2 * Pow(2, 31);
    PowOfTwo();
    XorBound(POLY, c / 2, 32);
    XorTopBit(POLY, c / 2, 31);
  }

  lemma {:induction false} BitSerialBound(crc: nat, bits: seq<bool>)
    requires crc < Pow(2, 32)
    ensures BitSerial(crc, bits) < Pow(2, 32)
    decreases |bits|
  {
    if bits != [] {
      BitStepBound(crc, bits[0]);
      BitSerialBound(BitStep(crc, bits[0]), bits[1..]);
    }
  }

  lemma BitStepBound(crc: nat, bit: bool)
    requires crc < Pow(2, 32)
    ensures BitStep(crc, bit) < Pow(2, 32)
  {
    BitStepIsShift(crc, bit);
    PowOfTwo();
    XorBound(crc, if bit then 1 else 0, 32);
    ShiftBound(Xor(crc, if bit then 1 else 0));
  }

  // ---- the code ----

  /** The inner loop of `build_table`. */
  method ShiftOut(i: nat, bits: nat) returns (c: nat)
    ensures c == Shifts(i, bits)
  {
    c := i;
    var j := 0;
    while j < bits
      invariant 0 <= j <= bits
      invariant Shifts(c, bits - j) == Shifts(i, bits)
    {
      c := if c % 2 == 1 then Xor(POLY, c / 2) else c / 2;
      j := j + 1;
    }
  }

  /** `build_table`: entry i is i after eight shifts. */
  method BuildTable() returns (table: array<nat>)
    ensures fresh(table) && table.Length == 256
    ensures forall i :: 0 <= i < 256 ==> table[i] == TableEntry(i)
  {
    table := new nat[256];
    var i := 0;
    while i < 256
      invariant 0 <= i <= 256
      invariant forall k :: 0 <= k < i ==> table[k] == TableEntry(k)
    {
      table[i] := ShiftOut(i, 8);
      i := i + 1;
    }
  }

  /** `checksum`: the table-driven loop computes the bit-serial checksum of every byte string. */
  method ComputeChecksum(data: seq<byte>) returns (r: nat)
    ensures r == Checksum(data) < U32
  {
    var table := BuildTable();
    var crc := ONES;
    var i := 0;
    while i < |data|
      invariant 0 <= i <= |data|
      invariant forall k :: 0 <= k < 256 ==> table[k] == TableEntry(k)
      invariant BitSerial(crc, MessageBits(data[i..])) == BitSerial(ONES, MessageBits(data))
    {
      ByteStepIsBits(crc, data[i]);
      assert data[i..][1..] == data[i + 1..];
      BitSerialAppend(crc, Bits(data[i], 8), MessageBits(data[i + 1..]));
      crc := Xor(table[Xor(crc, data[i]) % 256], crc / 256);
      i := i + 1;
    }
    assert data[i..] == [] && crc == ONES - Checksum(data);
    r := ONES - crc;
  }

  lemma EmptyChecksum()
    ensures Checksum([]) == 0
  {
  }

  // ---- damage the checksum always detects ----

  lemma ShiftInjective(c: nat, d: nat)
    requires c < Pow(2, 32) && d < Pow(2, 32) && Shift(c) == Shift(d)
    ensures c == d
  {
    ShiftBound(c);
    ShiftBound(d);
    ShiftOf(c, c / 2, c % 2 == 1);
    ShiftOf(d, d / 2, d % 2 == 1);
    if c % 2 == 1 {
      XorCancel(POLY, c / 2, d / 2);
    }
    FromHalves(c, d);
  }

  lemma {:induction false} ShiftsInjective(c: nat, d: nat, n: nat)
    requires c < Pow(2, 32) && d < Pow(2, 32) && Shifts(c, n) == Shifts(d, n)
    ensures c == d
    decreases n
  {
    if n > 0 {
      ShiftBound(c);
      ShiftBound(d);
      ShiftsInjective(Shift(c), Shift(d), n - 1);
      ShiftInjective(c, d);
    }
  }

  lemma BitStepInjective(c: nat, d: nat, bit: bool)
    requires c < Pow(2, 32) && d < Pow(2, 32) && BitStep(c, bit) == BitStep(d, bit)
    ensures c == d
  {
    var b := if bit then 1 else 0;
    PowOfTwo();
    BitStepIsShift(c, bit);
    BitStepIsShift(d, bit);
    XorBound(c, b, 32);
    XorBound(d, b, 32);
    ShiftInjective(Xor(c, b), Xor(d, b));
    XorComm(c, b);
    XorComm(d, b);
    XorCancel(b, c, d);
  }

  /** The same remaining bits never bring two different registers together. */
  lemma {:induction false} BitSerialInjective(c: nat, d: nat, bits: seq<bool>)
    requires c < Pow(2, 32) && d < Pow(2, 32) && BitSerial(c, bits) == BitSerial(d, bits)
    ensures c == d
    decreases |bits|
  {
    if bits != [] {
      BitStepBound(c, bits[0]);
      BitStepBound(d, bits[0]);
      BitSerialInjective(BitStep(c, bits[0]), BitStep(d, bits[0]), bits[1..]);
      BitStepInjective(c, d, bits[0]);
    }
  }

  function Value(bits: seq<bool>): nat
  {
    if bits == [] then 0 else (if bits[0] then 1 else 0) + 2 * Value(bits[1..])
  }

  lemma {:induction false} BitsOfValue(bits: seq<bool>)
    ensures Value(bits) < Pow(2, |bits|) && Bits(Value(bits), |bits|) == bits
  {
    if bits != [] { BitsOfValue(bits[1..]); }
  }

  /** Two different windows of at most 32 bits leave the register different. */
  lemma WindowDiffers(crc: nat, w: seq<bool>, w': seq<bool>)
    requires crc < Pow(2, 32)
    requires |w| == |w'| <= 32 && w != w'
    ensures BitSerial(crc, w) != BitSerial(crc, w')
  {
    var m := |w|;
    var v, v' := Value(w), Value(w');
    BitsOfValue(w);
    BitsOfValue(w');
    PowMono(2, m, 32);
    FeedBits(crc, v, m);
    FeedBits(crc, v', m);
    XorBound(crc, v, 32);
    XorBound(crc, v', 32);
    if BitSerial(crc, w) == BitSerial(crc, w') {
      ShiftsInjective(Xor(crc, v), Xor(crc, v'), m);
      XorCancel(crc, v, v');
    }
  }

  /** Every burst of at most 32 consecutive bits, at any alignment, changes the checksum. */
  lemma BurstDetected(data: seq<byte>, data': seq<byte>, i: nat, m: nat)
    requires |data| == |data'| && data != data'
    requires m <= 32 && i + m <= 8 * |data|
    requires MessageBits(data)[..i] == MessageBits(data')[..i]
    requires MessageBits(data)[i + m..] == MessageBits(data')[i + m..]
    ensures Checksum(data) != Checksum(data')
  {
    var a, b := MessageBits(data), MessageBits(data');
    MessageBitsInjective(data, data');
    var w, w' := a[i..i + m], b[i..i + m];
    assert a == a[..i] + w + a[i + m..] && b == a[..i] + w' + a[i + m..];
    PowOfTwo();
    SplitFeed(ONES, a[..i], w, a[i + m..]);
    SplitFeed(ONES, a[..i], w', a[i + m..]);
    BitSerialBound(ONES, a[..i]);
    var crc := BitSerial(ONES, a[..i]);
    WindowDiffers(crc, w, w');
    BitSerialBound(crc, w);
    BitSerialBound(crc, w');
    if BitSerial(ONES, a) == BitSerial(ONES, b) {
      BitSerialInjective(BitSerial(crc, w), BitSerial(crc, w'), a[i + m..]);
    }
  }

  lemma SplitFeed(crc: nat, p: seq<bool>, w: seq<bool>, s: seq<bool>)
    ensures BitSerial(crc, p + w + s) == BitSerial(BitSerial(BitSerial(crc, p), w), s)
  {
    BitSerialAppend(crc, p + w, s);
    BitSerialAppend(crc, p, w);
  }

  lemma {:induction false} BitsInjective(u: nat, v: nat, n: nat)
    requires u < Pow(2, n) && v < Pow(2, n) && Bits(u, n) == Bits(v, n)
    ensures u == v
  {
    if n > 0 {
      assert Bits(u, n)[0] == Bits(v, n)[0];
      assert Bits(u, n)[1..] == Bits(u / 2, n - 1) && Bits(v, n)[1..] == Bits(v / 2, n - 1);
      BitsInjective(u / 2, v / 2, n - 1);
    }
  }

  lemma {:induction false} MessageBitsInjective(data: seq<byte>, data': seq<byte>)
    requires |data| == |data'|
    ensures MessageBits(data) == MessageBits(data') ==> data == data'
  {
    if data != [] && MessageBits(data) == MessageBits(data') {
      assert MessageBits(data)[..8] == Bits(data[0], 8) && MessageBits(data')[..8] == Bits(data'[0], 8);
      assert MessageBits(data)[8..] == MessageBits(data[1..]) && MessageBits(data')[8..] == MessageBits(data'[1..]);
      assert Pow(2, 8) == 256;
      BitsInjective(data[0], data'[0], 8);
      MessageBitsInjective(data[1..], data'[1..]);
    }
  }

  lemma {:induction false} MessageBitsAppend(a: seq<byte>, b: seq<byte>)
    ensures MessageBits(a + b) == MessageBits(a) + MessageBits(b)
  {
    if a == [] {
      assert a + b == b;
    } else {
      assert (a + b)[1..] == a[1..] + b;
      MessageBitsAppend(a[1..], b);
    }
  }

  /** Damage confined to four consecutive bytes always changes the checksum. */
  lemma FourByteDamageDetected(p: seq<byte>, w: seq<byte>, w': seq<byte>, s: seq<byte>)
    requires |w| == |w'| <= 4 && w != w'
    ensures Checksum(p + w + s) != Checksum(p + w' + s)
  {
    MessageBitsAppend(p + w, s);
    MessageBitsAppend(p + w', s);
    MessageBitsAppend(p, w);
    MessageBitsAppend(p, w');
    assert (p + w + s)[|p|..|p| + |w|] == w && (p + w' + s)[|p|..|p| + |w|] == w';
    BurstDetected(p + w + s, p + w' + s, 8 * |p|, 8 * |w|);
  }
}

/** Which byte strings are text: well-formed UTF-8. */
module Unicode {
  import opened Proto
  import opened Bytes

  predicate Continues(x: byte)
  {
    0x80 <= x <= 0xbf
  }

  /** The length of the well-formed UTF-8 character at the start, 0 if there is none (table 3-7 of the
      Unicode Standard). */
  function CharLen(b: seq<byte>): (n: nat)
    ensures n <= |b|
  {
    if b == [] then 0
    else if b[0] <= 0x7f then 1
    else if |b| < 2 then 0
    else if 0xc2 <= b[0] <= 0xdf && Continues(b[1]) then 2
    else if |b| < 3 || !Continues(b[2]) then 0
    else if b[0] == 0xe0 && 0xa0 <= b[1] <= 0xbf then 3
    else if (0xe1 <= b[0] <= 0xec || 0xee <= b[0] <= 0xef) && Continues(b[1]) then 3
    else if b[0] == 0xed && 0x80 <= b[1] <= 0x9f then 3
    else if |b| < 4 || !Continues(b[3]) then 0
    else if b[0] == 0xf0 && 0x90 <= b[1] <= 0xbf then 4
    else if 0xf1 <= b[0] <= 0xf3 && Continues(b[1]) then 4
    else if b[0] == 0xf4 && 0x80 <= b[1] <= 0x8f then 4
    else 0
  }

  predicate Utf8(b: seq<byte>)
    decreases |b|
  {
    b == [] || (CharLen(b) > 0 && Utf8(b[CharLen(b)..]))
  }

  // ---- the same, by the characters it encodes ----

  /** A Unicode scalar value: any code point but a surrogate. */
  predicate IsScalar(c: nat)
  {
    c < 0xd800 || 0xe000 <= c < 0x11_0000
  }

  /** The UTF-8 encoding of a code point (section 3 of RFC 3629). */
  function Encode(c: nat): (b: seq<byte>)
    requires c < 0x11_0000
    ensures 1 <= |b| <= 4
  {
    if c < 0x80 then [c]
    else if c < 0x800 then [0xc0 + c / 64, 0x80 + c % 64]
    else if c < 0x1_0000 then [0xe0 + c / 4096, 0x80 + c / 64 % 64, 0x80 + c % 64]
    else [0xf0 + c / 262144, 0x80 + c / 4096 % 64, 0x80 + c / 64 % 64, 0x80 + c % 64]
  }

  function EncodeAll(cs: seq<nat>): seq<byte>
    requires forall c :: c in cs ==> IsScalar(c)
  {
    if cs == [] then [] else assert IsScalar(cs[0]); Encode(cs[0]) + EncodeAll(cs[1..])
  }

  /** An encoded scalar value is a well-formed character. */
  lemma EncodedIsChar(c: nat, rest: seq<byte>)
    requires IsScalar(c)
    ensures CharLen(Encode(c) + rest) == |Encode(c)|
  {
    var b := Encode(c) + rest;
    assert forall i :: 0 <= i < |Encode(c)| ==> b[i] == Encode(c)[i];
  }

  /** And a well-formed character is the encoding of a scalar value. */
  lemma CharIsEncoded(b: seq<byte>) returns (c: nat)
    requires CharLen(b) > 0
    ensures IsScalar(c) && Encode(c) == b[..CharLen(b)]
  {
    var n := CharLen(b);
    if n == 1 {
      c := b[0];
    } else if n == 2 {
      c := TwoParts(b[0] - 0xc0, b[1] - 0x80);
    } else if n == 3 {
      c := ThreeParts(b[0] - 0xe0, b[1] - 0x80, b[2] - 0x80);
    } else {
      c := FourParts(b[0] - 0xf0, b[1] - 0x80, b[2] - 0x80, b[3] - 0x80);
    }
  }

  /** Groups of six bits, the highest first. */
  lemma TwoParts(y: nat, z: nat) returns (c: nat)
    requires z < 64
    ensures c == y * 64 + z && c / 64 == y && c % 64 == z
  {
    c := y * 64 + z;
  }

  lemma ThreeParts(x: nat, y: nat, z: nat) returns (c: nat)
    requires y < 64 && z < 64
    ensures c == x * 4096 + y * 64 + z && c / 4096 == x && c / 64 % 64 == y && c % 64 == z
  {
    var high := TwoParts(x, y);
    c := TwoParts(high, z);
    DivTwice(c, 64, 64);
  }

  lemma FourParts(w: nat, x: nat, y: nat, z: nat) returns (c: nat)
    requires x < 64 && y < 64 && z < 64
    ensures c == w * 262144 + x * 4096 + y * 64 + z && c / 262144 == w && c / 4096 % 64 == x
    ensures c / 64 % 64 == y && c % 64 == z
  {
    var high := ThreeParts(w, x, y);
    c := TwoParts(high, z);
    DivTwice(c, 64, 64);
    DivTwice(c, 64, 4096);
  }

  lemma {:induction false} EncodedIsUtf8(cs: seq<nat>)
    requires forall c :: c in cs ==> IsScalar(c)
    ensures Utf8(EncodeAll(cs))
  {
    if cs != [] {
      var rest := EncodeAll(cs[1..]);
      EncodedIsChar(cs[0], rest);
      EncodedIsUtf8(cs[1..]);
      assert (Encode(cs[0]) + rest)[|Encode(cs[0])|..] == rest;
    }
  }

  lemma {:induction false} Utf8IsEncoded(b: seq<byte>) returns (cs: seq<nat>)
    requires Utf8(b)
    ensures (forall c :: c in cs ==> IsScalar(c)) && EncodeAll(cs) == b
    decreases |b|
  {
    cs := [];
    if b != [] {
      var n := CharLen(b);
      var c := CharIsEncoded(b);
      var rest := Utf8IsEncoded(b[n..]);
      cs := [c] + rest;
      assert cs[1..] == rest && b[..n] + b[n..] == b;
    }
  }

  /** Bytes are text exactly when they are the encodings of scalar values, one after the other. */
  lemma Utf8Iff(b: seq<byte>)
    ensures Utf8(b) <==> exists cs: seq<nat> :: (forall c :: c in cs ==> IsScalar(c)) && EncodeAll(cs) == b
  {
    if Utf8(b) {
      var cs := Utf8IsEncoded(b);
    }
    if cs: seq<nat> :| (forall c :: c in cs ==> IsScalar(c)) && EncodeAll(cs) == b {
      EncodedIsUtf8(cs);
    }
  }
}

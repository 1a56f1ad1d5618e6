/** Little-endian integers and byte ranges of a disk image. */
module Bytes {
  import opened Proto
  import opened Arith

  /** The low `k` bytes of `n`, least significant first: what `to_le_bytes` of a k-byte word writes. */
  function Le(n: nat, k: nat): (s: seq<byte>)
    ensures |s| == k
  {
    if k == 0 then [] else [n % 256] + Le(n / 256, k - 1)
  }

  function FromLe(s: seq<byte>): nat
  {
    if s == [] then 0 else s[0] + 256 * FromLe(s[1..])
  }

  lemma {:induction false} FromLeOfLe(n: nat, k: nat)
    requires n < Pow(256, k)
    ensures FromLe(Le(n, k)) == n
  {
    if k > 0 {
      FromLeOfLe(n / 256, k - 1);
    }
  }

  lemma {:induction false} LeOfFromLe(s: seq<byte>)
    ensures Le(FromLe(s), |s|) == s
    ensures FromLe(s) < Pow(256, |s|)
  {
    if s != [] {
      LeOfFromLe(s[1..]);
    }
  }

  /** Byte `i` of a word has weight 256^i. */
  lemma {:induction false} LeAt(n: nat, k: nat, i: nat)
    requires i < k
    ensures Le(n, k)[i] == (n / Pow(256, i)) % 256
  {
    if i > 0 {
      LeAt(n / 256, k - 1, i - 1);
      DivTwice(n, 256, Pow(256, i - 1));
    }
  }

  lemma DivTwice(n: nat, a: nat, b: nat)
    requires a > 0 && b > 0
    ensures a * b > 0 && n / (a * b) == (n / a) / b
  {
    var p, u := n / a, n % a;
    var q, v := p / b, p % b;
    assert a * b > 0;
    TwoQuotients(n, a, b, p, u, q, v);
    QuotientIs(n, a * b, q, a * v + u);
  }

  lemma TwoQuotients(n: nat, a: nat, b: nat, p: nat, u: nat, q: nat, v: nat)
    requires n == a * p + u && p == b * q + v && u < a && v < b
    ensures n == (a * b) * q + (a * v + u) && a * v + u < a * b
  {
    Distribute(a, b * q, v);
    MulAssoc(a, b, q);
    MulMono(v + 1, b, a);
    Distribute(a, v, 1);
  }

  lemma Distribute(a: nat, x: nat, y: nat)
    ensures a * (x + y) == a * x + a * y
  {
  }

  lemma QuotientIs(n: nat, d: nat, q: nat, r: nat)
    requires n == d * q + r && r < d
    ensures n / d == q
  {
    if n / d < q {
      MulMono(n / d + 1, q, d);
    } else if n / d > q {
      MulMono(q + 1, n / d, d);
    }
  }

  lemma PowOf256()
    ensures Pow(256, 1) == U8 && Pow(256, 4) == U32 && Pow(256, 8) == U64 && Pow(256, 16) == U128
  {
    assert Pow(256, 2) == 0x1_0000;
    PowAdd(256, 2, 2);
    PowAdd(256, 4, 4);
    PowAdd(256, 8, 8);
  }

  /** Fixed-width words read back what was written. */
  lemma WordRoundTrip(n: nat)
    ensures n < U32 ==> FromLe(Le(n, 4)) == n
    ensures n < U64 ==> FromLe(Le(n, 8)) == n
    ensures n < U128 ==> FromLe(Le(n, 16)) == n
  {
    PowOf256();
    if n < U32 { FromLeOfLe(n, 4); }
    if n < U64 { FromLeOfLe(n, 8); }
    if n < U128 { FromLeOfLe(n, 16); }
  }

  function Zeros(n: nat): (z: seq<byte>)
    ensures |z| == n && forall i :: 0 <= i < n ==> z[i] == 0
  {
    seq(n, _ => 0)
  }

  lemma Cat(a: seq<byte>, b: seq<byte>, c: seq<byte>)
    ensures (a + b) + c == a + (b + c)
  {
  }

  // ---- disk images ----

  /** `buf` is stored at `off`. */
  predicate Holds(image: seq<byte>, off: nat, buf: seq<byte>)
  {
    off + |buf| <= |image| && image[off..off + |buf|] == buf
  }

  /** A positioned write: the image grows with zeros when the write starts past its end. */
  function Patch(image: seq<byte>, off: nat, buf: seq<byte>): (r: seq<byte>)
    ensures |r| == if buf == [] then |image| else Max(|image|, off + |buf|)
    ensures Holds(r, off, buf) || buf == []
    ensures forall i :: 0 <= i < |image| && !(off <= i < off + |buf|) ==> r[i] == image[i]
    ensures forall i :: |image| <= i < off && i < |r| ==> r[i] == 0
  {
    if buf == [] then image
    else
      var padded := if |image| < off then image + Zeros(off - |image|) else image;
      var r := padded[..off] + buf + (if off + |buf| < |padded| then padded[off + |buf|..] else []);
      assert r[off..off + |buf|] == buf;
      r
  }

  /** What a failed write of `len` bytes at `off` may leave: anything in its own range, nothing else. */
  ghost predicate SameOutside(image: seq<byte>, image': seq<byte>, off: nat, len: nat)
  {
    && |image| <= |image'| <= Max(|image|, off + len)
    && (forall i :: 0 <= i < |image| && !(off <= i < off + len) ==> image'[i] == image[i])
    && (forall i :: |image| <= i < off && i < |image'| ==> image'[i] == 0)
  }

  lemma PatchSameOutside(image: seq<byte>, off: nat, buf: seq<byte>)
    ensures SameOutside(image, Patch(image, off, buf), off, |buf|)
  {
  }

  /** Bytes stored entirely outside the written range survive, whether the write succeeds or fails. */
  lemma HoldsOutside(image: seq<byte>, image': seq<byte>, off: nat, len: nat, at: nat, buf: seq<byte>)
    requires SameOutside(image, image', off, len)
    requires Holds(image, at, buf)
    requires at + |buf| <= off || off + len <= at
    ensures Holds(image', at, buf)
  {
    assert image'[at..at + |buf|] == image[at..at + |buf|];
  }
}

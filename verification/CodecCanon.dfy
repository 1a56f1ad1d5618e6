/** The other direction of the codec: the decoder accepts nothing but encodings. Whatever decodes to an
    operation is, byte for byte, the encoding of that operation followed by what was left over; only a pool
    map and the flag of a metadata group can be written in more than one way. */
module CodecCanon {
  import opened Proto
  import opened Arith
  import opened Bytes
  import opened Unicode
  import opened Codec

  /** `get` accepts only what `put` writes. */
  ghost predicate Canonical<T(!new)>(put: T -> seq<byte>, get: seq<byte> -> Read<T>)
  {
    forall s: seq<byte> :: get(s).Got? ==> s == put(get(s).value) + get(s).rest
  }

  lemma WordSpelled(s: seq<byte>, k: nat)
    requires GetWord(s, k).Got?
    ensures s == Le(GetWord(s, k).value, k) + GetWord(s, k).rest && GetWord(s, k).value < Pow(256, k)
  {
    LeOfFromLe(s[..k]);
  }

  lemma ByteSpelled(s: seq<byte>)
    requires GetU8(s).Got?
    ensures s == [GetU8(s).value] + GetU8(s).rest
  {
  }

  lemma BytesSpelled(s: seq<byte>)
    requires GetBytes(s).Got?
    ensures s == PutBytes(GetBytes(s).value) + GetBytes(s).rest && |GetBytes(s).value| < U32
  {
    PowOf256();
    WordSpelled(s, 4);
    var n, r := GetWord(s, 4).value, GetWord(s, 4).rest;
    assert r == r[..n] + r[n..];
    Cat(Le(n, 4), r[..n], r[n..]);
  }

  lemma {:induction false} AllSpelled<T(!new)>(put: T -> seq<byte>, get: seq<byte> -> Read<T>, n: nat, s: seq<byte>)
    requires Canonical(put, get) && GetAll(get, n, s).Got?
    ensures s == PutAll(put, GetAll(get, n, s).value) + GetAll(get, n, s).rest && |GetAll(get, n, s).value| == n
    decreases n
  {
    if n > 0 {
      var x, r := get(s).value, get(s).rest;
      AllSpelled(put, get, n - 1, r);
      var xs, rest := GetAll(get, n - 1, r).value, GetAll(get, n - 1, r).rest;
      assert ([x] + xs)[1..] == xs;
      Cat(put(x), PutAll(put, xs), rest);
    }
  }

  lemma ListSpelled<T(!new)>(put: T -> seq<byte>, get: seq<byte> -> Read<T>, s: seq<byte>)
    requires Canonical(put, get) && GetList(get, s).Got?
    ensures s == PutList(put, GetList(get, s).value) + GetList(get, s).rest && |GetList(get, s).value| < U32
  {
    PowOf256();
    WordSpelled(s, 4);
    var n, r := GetWord(s, 4).value, GetWord(s, 4).rest;
    AllSpelled(put, get, n, r);
    Cat(Le(n, 4), PutAll(put, GetList(get, s).value), GetList(get, s).rest);
  }

  // ---- parts ----

  lemma SlotCanonical()
    ensures Canonical(PutSlot, GetSlot)
  {
    forall s: seq<byte> | GetSlot(s).Got?
      ensures s == PutSlot(GetSlot(s).value) + GetSlot(s).rest
    {
      SlotSpelled(s);
    }
  }

  lemma SlotSpelled(s: seq<byte>)
    requires GetSlot(s).Got?
    ensures s == PutSlot(GetSlot(s).value) + GetSlot(s).rest
  {
    ByteSpelled(s);
    var t, r := s[0], s[1..];
    if t == 1 {
      ByteSpelled(r);
      Cat([t], [r[0]], r[1..]);
    } else if t == 2 {
      WordSpelled(r, 16);
      Cat([t], Le(GetWord(r, 16).value, 16), GetWord(r, 16).rest);
    }
  }

  lemma SchemeSpelled(s: seq<byte>)
    requires GetScheme(s).Got?
    ensures s == PutScheme(GetScheme(s).value) + GetScheme(s).rest
  {
    ByteSpelled(s);
    var t, r := s[0], s[1..];
    if t == 0 {
      SlotCanonical();
      ListSpelled(PutSlot, GetSlot, r);
      Cat([t], PutList(PutSlot, GetList(GetSlot, r).value), GetList(GetSlot, r).rest);
    } else {
      assert Le(r[0], 1) == [r[0]] && Le(r[1], 1) == [r[1]];
      assert s == [t] + [r[0]] + [r[1]] + r[2..];
    }
  }

  lemma ReplicaCanonical()
    ensures Canonical(PutReplica, GetReplica)
  {
    forall s: seq<byte> | GetReplica(s).Got?
      ensures s == PutReplica(GetReplica(s).value) + GetReplica(s).rest
    {
      WordSpelled(s, 16);
      var r := GetWord(s, 16).rest;
      WordSpelled(r, 8);
      Cat(Le(GetWord(s, 16).value, 16), Le(GetWord(r, 8).value, 8), GetWord(r, 8).rest);
    }
  }

  lemma ReplicasSpelled(s: seq<byte>)
    requires GetList(GetReplica, s).Got?
    ensures s == PutList(PutReplica, GetList(GetReplica, s).value) + GetList(GetReplica, s).rest
  {
    ReplicaCanonical();
    ListSpelled(PutReplica, GetReplica, s);
  }

  lemma ChunkSpelled(s: seq<byte>)
    requires GetChunk(s).Got?
    ensures s == PutChunk(GetChunk(s).value) + GetChunk(s).rest
  {
    WordSpelled(s, 8);
    var r1 := GetWord(s, 8).rest;
    ReplicasSpelled(r1);
    var rs, r2 := GetList(GetReplica, r1).value, GetList(GetReplica, r1).rest;
    WordSpelled(r2, 4);
    var r3 := GetWord(r2, 4).rest;
    WordSpelled(r3, 4);
    Cat4(Le(GetWord(s, 8).value, 8), PutList(PutReplica, rs), Le(GetWord(r2, 4).value, 4), Le(GetWord(r3, 4).value, 4),
         GetWord(r3, 4).rest);
  }

  lemma Cat4(a: seq<byte>, b: seq<byte>, c: seq<byte>, d: seq<byte>, rest: seq<byte>)
    ensures a + b + c + d + rest == a + (b + (c + (d + rest)))
  {
    Cat(a + b + c, d, rest);
    Cat(a + b, c, d + rest);
    Cat(a, b, c + (d + rest));
  }

  lemma ExtentSpelled(s: seq<byte>)
    requires GetExtent(s).Got?
    ensures s == PutExtent(GetExtent(s).value) + GetExtent(s).rest
  {
    WordSpelled(s, 8);
    var r1 := GetWord(s, 8).rest;
    WordSpelled(r1, 4);
    var r2 := GetWord(r1, 4).rest;
    ReplicasSpelled(r2);
    var rs, r3 := GetList(GetReplica, r2).value, GetList(GetReplica, r2).rest;
    WordSpelled(r3, 4);
    Cat4(Le(GetWord(s, 8).value, 8), Le(GetWord(r1, 4).value, 4), PutList(PutReplica, rs), Le(GetWord(r3, 4).value, 4),
         GetWord(r3, 4).rest);
  }

  lemma ChunksSpelled(s: seq<byte>)
    requires GetList(GetChunk, s).Got?
    ensures s == PutList(PutChunk, GetList(GetChunk, s).value) + GetList(GetChunk, s).rest
  {
    forall s: seq<byte> | GetChunk(s).Got?
      ensures s == PutChunk(GetChunk(s).value) + GetChunk(s).rest
    {
      ChunkSpelled(s);
    }
    ListSpelled(PutChunk, GetChunk, s);
  }

  lemma ExtentsSpelled(s: seq<byte>)
    requires GetList(GetExtent, s).Got?
    ensures s == PutList(PutExtent, GetList(GetExtent, s).value) + GetList(GetExtent, s).rest
  {
    forall s: seq<byte> | GetExtent(s).Got?
      ensures s == PutExtent(GetExtent(s).value) + GetExtent(s).rest
    {
      ExtentSpelled(s);
    }
    ListSpelled(PutExtent, GetExtent, s);
  }

  lemma LocatorSpelled(s: seq<byte>)
    requires GetLocator(s).Got?
    ensures s == PutLocator(GetLocator(s).value) + GetLocator(s).rest
  {
    ByteSpelled(s);
    var t, r := s[0], s[1..];
    if t == 0 {
      ChunksSpelled(r);
      Cat([t], PutList(PutChunk, GetList(GetChunk, r).value), GetList(GetChunk, r).rest);
    } else {
      ExtentsSpelled(r);
      Cat([t], PutList(PutExtent, GetList(GetExtent, r).value), GetList(GetExtent, r).rest);
    }
  }

  lemma AttrsSpelled(r0: InodeRecord, s: seq<byte>)
    requires GetAttrs(r0, s).Got?
    ensures s == PutAttrs(GetAttrs(r0, s).value) + GetAttrs(r0, s).rest
  {
    WordSpelled(s, 4);
    var r1 := GetWord(s, 4).rest;
    WordSpelled(r1, 4);
    var r2 := GetWord(r1, 4).rest;
    WordSpelled(r2, 4);
    var r3 := GetWord(r2, 4).rest;
    WordSpelled(r3, 8);
    Cat4(Le(GetWord(s, 4).value, 4), Le(GetWord(r1, 4).value, 4), Le(GetWord(r2, 4).value, 4),
         Le(GetWord(r3, 8).value, 8), GetWord(r3, 8).rest);
  }

  lemma ModeSpelled(s: seq<byte>)
    requires GetMode(s).Got?
    ensures s == PutMode(GetMode(s).value) + GetMode(s).rest
  {
    ByteSpelled(s);
  }

  lemma InodeSpelled(s: seq<byte>)
    requires GetInode(s).Got?
    ensures s == PutInode(GetInode(s).value) + GetInode(s).rest
  {
    WordSpelled(s, 8);
    var r1 := GetWord(s, 8).rest;
    ModeSpelled(r1);
    var r2 := GetMode(r1).rest;
    WordSpelled(r2, 8);
    var r3 := GetWord(r2, 8).rest;
    SchemeSpelled(r3);
    var r4 := GetScheme(r3).rest;
    LocatorSpelled(r4);
    var r5 := GetLocator(r4).rest;
    var r0 := InodeRecord(GetWord(s, 8).value, GetMode(r1).value, GetWord(r2, 8).value, GetScheme(r3).value,
                          GetLocator(r4).value, 0, 0, 0, 0);
    AttrsSpelled(r0, r5);
    Cat6(Le(r0.inode, 8), PutMode(r0.mode), Le(r0.size, 8), PutScheme(r0.redundancy), PutLocator(r0.data),
         PutAttrs(GetAttrs(r0, r5).value), GetAttrs(r0, r5).rest);
  }

  lemma Cat6(a: seq<byte>, b: seq<byte>, c: seq<byte>, d: seq<byte>, e: seq<byte>, f: seq<byte>, rest: seq<byte>)
    ensures a + b + c + d + e + f + rest == a + (b + (c + (d + (e + (f + rest)))))
  {
    Cat(a + b + c + d + e, f, rest);
    Cat(a + b + c + d, e, f + rest);
    Cat4(a, b, c, d, e + (f + rest));
  }

  // ---- operations ----

  lemma LinkSpelled(s: seq<byte>)
    requires GetLink(s).Got?
    ensures GetLink(s).value.Link? && s == PutBody(GetLink(s).value, []) + GetLink(s).rest
            && Utf8(GetLink(s).value.name)
  {
    WordSpelled(s, 8);
    var r1 := GetWord(s, 8).rest;
    BytesSpelled(r1);
    var r2 := GetBytes(r1).rest;
    WordSpelled(r2, 8);
    Cat(Le(GetWord(s, 8).value, 8) + PutBytes(GetBytes(r1).value), Le(GetWord(r2, 8).value, 8), GetWord(r2, 8).rest);
    Cat(Le(GetWord(s, 8).value, 8), PutBytes(GetBytes(r1).value), r2);
  }

  lemma UnlinkSpelled(s: seq<byte>)
    requires GetUnlink(s).Got?
    ensures GetUnlink(s).value.Unlink? && s == PutBody(GetUnlink(s).value, []) + GetUnlink(s).rest
  {
    WordSpelled(s, 8);
    var r1 := GetWord(s, 8).rest;
    BytesSpelled(r1);
    Cat(Le(GetWord(s, 8).value, 8), PutBytes(GetBytes(r1).value), GetBytes(r1).rest);
  }

  lemma InodeOpTag(t: byte, s: seq<byte>)
    requires 3 <= t <= 9 && t != 7 && t != 8 && GetInodeOp(t, s).Got?
    ensures Tag(GetInodeOp(t, s).value) == t
  {
  }

  lemma AppendSpelled(s: seq<byte>)
    requires GetInodeOp(3, s).Got?
    ensures var op := GetInodeOp(3, s).value;
            op.AppendChunk? && s == PutBody(op, []) + GetInodeOp(3, s).rest
  {
    WordSpelled(s, 8);
    var r := GetWord(s, 8).rest;
    ChunkSpelled(r);
    Cat(Le(GetWord(s, 8).value, 8), PutChunk(GetChunk(r).value), GetChunk(r).rest);
  }

  lemma ExtentsOpRead(t: byte, s: seq<byte>, r: seq<byte>)
    requires (t == 5 || t == 9) && GetInodeOp(t, s).Got? && GetWord(s, 8).Got? && r == GetWord(s, 8).rest
    ensures GetList(GetExtent, r).Got?
    ensures var (i, xs) := (GetWord(s, 8).value, GetList(GetExtent, r));
            GetInodeOp(t, s) == Got(if t == 5 then CompleteConvert(i, xs.value) else UpdateExtents(i, xs.value),
                                    xs.rest)
  {
  }

  lemma ExtentsOpSpelled(t: byte, s: seq<byte>)
    requires (t == 5 || t == 9) && GetInodeOp(t, s).Got?
    ensures var op := GetInodeOp(t, s).value;
            (op.CompleteConvert? || op.UpdateExtents?) && s == PutBody(op, []) + GetInodeOp(t, s).rest
  {
    WordSpelled(s, 8);
    var i, r := Le(GetWord(s, 8).value, 8), GetWord(s, 8).rest;
    ExtentsOpRead(t, s, r);
    ExtentsSpelled(r);
    var xs := GetList(GetExtent, r).value;
    ExtentsBody(GetWord(s, 8).value, xs);
    Cat(i, PutList(PutExtent, xs), GetList(GetExtent, r).rest);
  }

  lemma ExtentsBody(i: nat, xs: seq<Extent>)
    ensures PutBody(CompleteConvert(i, xs), []) == PutBody(UpdateExtents(i, xs), []) == Le(i, 8) + PutList(PutExtent,
            xs)
  {
  }

  lemma PolicySpelled(t: byte, s: seq<byte>)
    requires (t == 4 || t == 6) && GetInodeOp(t, s).Got?
    ensures var op := GetInodeOp(t, s).value;
            (op.BeginConvert? || op.SetRedundancyScheme?) && s == PutBody(op, []) + GetInodeOp(t, s).rest
  {
    WordSpelled(s, 8);
    var r := GetWord(s, 8).rest;
    if t == 6 {
      SchemeSpelled(r);
      Cat(Le(GetWord(s, 8).value, 8), PutScheme(GetScheme(r).value), GetScheme(r).rest);
    }
  }

  lemma InodeOpSpelled(t: byte, s: seq<byte>)
    requires 3 <= t <= 9 && t != 7 && t != 8 && GetInodeOp(t, s).Got?
    ensures !GetInodeOp(t, s).value.PoolMapChange?
    ensures s == PutBody(GetInodeOp(t, s).value, []) + GetInodeOp(t, s).rest
  {
    if t == 3 {
      AppendSpelled(s);
    } else if t == 5 || t == 9 {
      ExtentsOpSpelled(t, s);
    } else {
      PolicySpelled(t, s);
    }
  }

  /** What a decoded group is, in terms of its words. */
  lemma GroupRead(s: seq<byte>, r: seq<byte>)
    requires GetGroup(s).Got? && GetWord(s, 16).Got? && r == GetWord(s, 16).rest
    ensures r != [] && |s| > 16 && r[0] == s[16]
    ensures r[0] != 0 ==>
              && GetWord(r[1..], 16).Got? && GetWord(GetWord(r[1..], 16).rest, 8).Got?
              && var (b, e) := (GetWord(r[1..], 16), GetWord(GetWord(r[1..], 16).rest, 8));
                 GetGroup(s) == Got(MetaGroup(GetWord(s, 16).value, Some(b.value), e.value), e.rest)
    ensures r[0] == 0 ==>
              && GetWord(r[1..], 8).Got?
              && var e := GetWord(r[1..], 8);
                 GetGroup(s) == Got(MetaGroup(GetWord(s, 16).value, None, e.value), e.rest)
  {
  }

  /** A metadata group is spelled as it would be encoded unless the flag for its backup is neither 0 nor 1. */
  lemma GroupSpelled(s: seq<byte>)
    requires GetGroup(s).Got?
    ensures 16 < |s| && (s[16] <= 1 <==> s == PutGroup(GetGroup(s).value) + GetGroup(s).rest)
  {
    WordSpelled(s, 16);
    var p, r := Le(GetWord(s, 16).value, 16), GetWord(s, 16).rest;
    GroupRead(s, r);
    ByteSpelled(r);
    if r[0] != 0 {
      BackupSpelled(s, p, r[0], r[1..]);
    } else {
      AloneSpelled(s, p, r[1..]);
    }
  }

  lemma BackupSpelled(s: seq<byte>, p: seq<byte>, flag: byte, r: seq<byte>)
    requires |p| == 16 && s == p + ([flag] + r) && GetWord(r, 16).Got? && GetWord(GetWord(r, 16).rest, 8).Got?
    ensures var (b, r') := (GetWord(r, 16).value, GetWord(r, 16).rest);
            flag == 1 <==> s == p + ([1] + Le(b, 16)) + Le(GetWord(r', 8).value, 8) + GetWord(r', 8).rest
  {
    WordSpelled(r, 16);
    var b, r' := Le(GetWord(r, 16).value, 16), GetWord(r, 16).rest;
    WordSpelled(r', 8);
    var e, rest := Le(GetWord(r', 8).value, 8), GetWord(r', 8).rest;
    Cat(p, [1], b);
    Cat4(p, [1], b, e, rest);
    assert (p + ([1] + r))[16] == 1 && (p + ([flag] + r))[16] == flag;
  }

  lemma AloneSpelled(s: seq<byte>, p: seq<byte>, r: seq<byte>)
    requires |p| == 16 && s == p + ([0] + r) && GetWord(r, 8).Got?
    ensures s == p + [0] + Le(GetWord(r, 8).value, 8) + GetWord(r, 8).rest
  {
    WordSpelled(r, 8);
    Cat(p + [0], Le(GetWord(r, 8).value, 8), GetWord(r, 8).rest);
    Cat(p, [0], r);
  }

  predicate OneSpelling(op: MetaOp)
  {
    !op.PoolMapChange? && !op.MetaGroupChange?
  }

  lemma InodeBodySpelled(s: seq<byte>)
    requires GetInode(s).Got?
    ensures s == PutBody(CreateInode(GetInode(s).value), []) + GetInode(s).rest
  {
    InodeSpelled(s);
  }

  lemma BodySpelled(t: byte, s: seq<byte>)
    requires GetBody(t, s).Got? && OneSpelling(GetBody(t, s).value)
    ensures s == PutBody(GetBody(t, s).value, []) + GetBody(t, s).rest
  {
    if t == 0 {
      InodeBodySpelled(s);
    } else if t == 1 {
      LinkSpelled(s);
    } else if t == 2 {
      UnlinkSpelled(s);
    } else {
      InodeOpSpelled(t, s);
    }
  }

  lemma NameOpTag(s: seq<byte>)
    ensures GetLink(s).Got? ==> Tag(GetLink(s).value) == 1
    ensures GetUnlink(s).Got? ==> Tag(GetUnlink(s).value) == 2
  {
  }

  lemma BodyTag(t: byte, s: seq<byte>)
    requires GetBody(t, s).Got?
    ensures t <= 9 && Tag(GetBody(t, s).value) == t
  {
    if 1 <= t <= 2 {
      NameOpTag(s);
    } else if 3 <= t <= 9 && t != 7 && t != 8 {
      InodeOpTag(t, s);
    }
  }

  /** Whatever decodes is an encoding. */
  lemma DecodedIsEncoded(s: seq<byte>)
    requires GetOp(s).Got? && OneSpelling(GetOp(s).value)
    ensures s == PutOp(GetOp(s).value, []) + GetOp(s).rest
  {
    ByteSpelled(s);
    var op := GetOp(s).value;
    BodySpelled(s[0], s[1..]);
    BodyTag(s[0], s[1..]);
    Cat([s[0]], PutBody(op, []), GetOp(s).rest);
  }

  /** Every operation is announced by its own byte, and no other byte announces one. */
  lemma TagIsExact(s: seq<byte>)
    requires GetOp(s).Got?
    ensures s != [] && s[0] <= 9 && s[0] == Tag(GetOp(s).value)
  {
    BodyTag(s[0], s[1..]);
  }
}

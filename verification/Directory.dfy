/** Directory entries: one byte-ordered table for all directories, keyed by parent and name, and the
    range scan that lists one directory. */
module Directory {
  import opened Proto
  import opened Bytes
  import opened Store
  import opened Unicode

  // ---- byte order ----

  /** Lexicographic order of byte strings. */
  predicate LexLeq(a: seq<byte>, b: seq<byte>)
  {
    a == [] || (b != [] && (a[0] < b[0] || (a[0] == b[0] && LexLeq(a[1..], b[1..]))))
  }

  predicate LexLess(a: seq<byte>, b: seq<byte>)
  {
    LexLeq(a, b) && a != b
  }

  lemma {:induction false} LexRefl(a: seq<byte>)
    ensures LexLeq(a, a)
  {
    if a != [] {
      LexRefl(a[1..]);
    }
  }

  lemma {:induction false} LexTotal(a: seq<byte>, b: seq<byte>)
    ensures LexLeq(a, b) || LexLeq(b, a)
  {
    if a != [] && b != [] {
      LexTotal(a[1..], b[1..]);
    }
  }

  lemma {:induction false} LexTrans(a: seq<byte>, b: seq<byte>, c: seq<byte>)
    requires LexLeq(a, b) && LexLeq(b, c)
    ensures LexLeq(a, c)
  {
    if a != [] && b != [] && c != [] && a[0] == b[0] && b[0] == c[0] {
      LexTrans(a[1..], b[1..], c[1..]);
    }
  }

  /** Behind a common prefix the order is that of the rest. */
  lemma {:induction false} LexAfterPrefix(p: seq<byte>, a: seq<byte>, b: seq<byte>)
    ensures LexLeq(p + a, p + b) <==> LexLeq(a, b)
  {
    if p == [] {
      assert p + a == a && p + b == b;
    } else {
      assert (p + a)[1..] == p[1..] + a && (p + b)[1..] == p[1..] + b;
      LexAfterPrefix(p[1..], a, b);
    }
  }

  lemma PrefixIsLeq(p: seq<byte>, k: seq<byte>)
    requires p <= k
    ensures LexLeq(p, k)
  {
    var rest := k[|p|..];
    assert p + [] == p && p + rest == k;
    LexAfterPrefix(p, [], rest);
  }

  /** Keys with one prefix are contiguous: after the first key from the prefix on that does not start
      with it, none does. */
  lemma {:induction false} PrefixIsContiguous(p: seq<byte>, x: seq<byte>, y: seq<byte>)
    requires LexLeq(p, x) && LexLeq(x, y) && !(p <= x)
    ensures !(p <= y)
  {
    if p != [] && y != [] && p[0] == y[0] {
      assert x[0] == p[0];
      assert p == [p[0]] + p[1..] && x == [x[0]] + x[1..];
      assert !(p[1..] <= x[1..]);
      PrefixIsContiguous(p[1..], x[1..], y[1..]);
    }
  }

  // ---- keys ----

  /** The composite key is injective: it belongs to one parent and one name. */
  lemma DirKeyInjective(p: InodeId, a: seq<byte>, q: InodeId, b: seq<byte>)
    requires p < U64 && q < U64 && DirKey(p, a) == DirKey(q, b)
    ensures p == q && a == b
  {
    WordRoundTrip(p);
    WordRoundTrip(q);
    assert DirKey(p, a)[..8] == Le(p, 8) && DirKey(q, b)[..8] == Le(q, 8);
    assert DirKey(p, a)[8..] == a && DirKey(q, b)[8..] == b;
  }

  /** `MetaStore::lookup`. */
  function Lookup(dirs: map<seq<byte>, InodeId>, parent: InodeId, name: seq<byte>): Option<InodeId>
  {
    if DirKey(parent, name) in dirs then Some(dirs[DirKey(parent, name)]) else None
  }

  /** Linking and unlinking change the lookup of one name in one directory and of nothing else. */
  lemma LinkIsLocal(t: Tables, p: InodeId, name: seq<byte>, child: InodeId, q: InodeId, other: seq<byte>)
    requires p < U64 && q < U64
    ensures var linked := ApplyOp(t, Link(p, name, child)).value.dirs;
            Lookup(linked, q, other) == if (q, other) == (p, name) then Some(child) else Lookup(t.dirs, q, other)
    ensures var unlinked := ApplyOp(t, Unlink(p, name)).value.dirs;
            Lookup(unlinked, q, other) == if (q, other) == (p, name) then None else Lookup(t.dirs, q, other)
  {
    if DirKey(p, name) == DirKey(q, other) {
      DirKeyInjective(p, name, q, other);
    }
  }

  // ---- the range scan ----

  ghost predicate Ascending(keys: seq<seq<byte>>)
  {
    forall i, j :: 0 <= i < j < |keys| ==> LexLess(keys[i], keys[j])
  }

  /** The table's keys from `from` on, in order. */
  ghost predicate IsRange(dirs: map<seq<byte>, InodeId>, from: seq<byte>, keys: seq<seq<byte>>)
  {
    Ascending(keys) && forall k :: k in keys <==> k in dirs && LexLeq(from, k)
  }

  /** The least key of a non-empty set. */
  method LeastKey(s: set<seq<byte>>) returns (least: seq<byte>)
    requires s != {}
    ensures least in s && forall k :: k in s ==> LexLeq(least, k)
  {
    least :| least in s;
    var rest := s - {least};
    LexRefl(least);
    while rest != {}
      invariant least in s && rest <= s
      invariant forall k :: k in s && k !in rest ==> LexLeq(least, k)
      decreases |rest|
    {
      var k :| k in rest;
      rest := rest - {k};
      LexTotal(least, k);
      if !LexLeq(least, k) {
        LexRefl(k);
        forall x | x in s && x !in rest
          ensures LexLeq(k, x)
        {
          if x != k {
            LexTrans(k, least, x);
          }
        }
        least := k;
      }
    }
  }

  /** The cursor of the ordered table. */
  method Range(dirs: map<seq<byte>, InodeId>, from: seq<byte>) returns (keys: seq<seq<byte>>)
    ensures IsRange(dirs, from, keys)
  {
    keys := [];
    var rest := set k | k in dirs && LexLeq(from, k);
    while rest != {}
      invariant Ascending(keys)
      invariant forall k :: k in keys || k in rest <==> k in dirs && LexLeq(from, k)
      invariant forall k, r :: k in keys && r in rest ==> LexLess(k, r)
      decreases |rest|
    {
      var k := LeastKey(rest);
      rest := rest - {k};
      keys := keys + [k];
    }
  }

  type Entries = seq<(seq<byte>, InodeId)>

  /** Exactly the entries of one directory, each with what a lookup of its name finds, in name order. */
  ghost predicate Listing(dirs: map<seq<byte>, InodeId>, parent: InodeId, out: Entries)
  {
    && (forall i :: 0 <= i < |out| ==> Lookup(dirs, parent, out[i].0) == Some(out[i].1))
    && (forall name :: Lookup(dirs, parent, name).Some? ==> (name, Lookup(dirs, parent, name).value) in out)
    && (forall i, j :: 0 <= i < j < |out| ==> LexLess(out[i].0, out[j].0))
  }

  /** What the scan has collected: the entries of the first keys, all of them in the directory. */
  ghost predicate Collected(dirs: map<seq<byte>, InodeId>, prefix: seq<byte>, keys: seq<seq<byte>>, out: Entries)
  {
    && |out| <= |keys|
    && forall i :: 0 <= i < |out| ==> keys[i] in dirs && prefix + out[i].0 == keys[i] && out[i].1 == dirs[keys[i]]
  }

  lemma CollectedListing(dirs: map<seq<byte>, InodeId>, parent: InodeId, keys: seq<seq<byte>>, out: Entries)
    requires IsRange(dirs, Le(parent, 8), keys) && Collected(dirs, Le(parent, 8), keys, out)
    requires |out| < |keys| ==> !(Le(parent, 8) <= keys[|out|])
    ensures Listing(dirs, parent, out)
  {
    var prefix := Le(parent, 8);
    forall i, j | 0 <= i < j < |out|
      ensures LexLess(out[i].0, out[j].0)
    {
      assert LexLess(keys[i], keys[j]);
      LexAfterPrefix(prefix, out[i].0, out[j].0);
    }
    forall name | Lookup(dirs, parent, name).Some?
      ensures (name, Lookup(dirs, parent, name).value) in out
    {
      ScanFinds(dirs, parent, keys, out, name);
    }
  }

  /** Every entry of the directory is met before the scan stops. */
  lemma ScanFinds(dirs: map<seq<byte>, InodeId>, parent: InodeId, keys: seq<seq<byte>>, out: Entries, name: seq<byte>)
    requires IsRange(dirs, Le(parent, 8), keys) && Collected(dirs, Le(parent, 8), keys, out)
    requires |out| < |keys| ==> !(Le(parent, 8) <= keys[|out|])
    requires DirKey(parent, name) in dirs
    ensures (name, dirs[DirKey(parent, name)]) in out
  {
    var prefix, key := Le(parent, 8), DirKey(parent, name);
    assert key[..8] == prefix && prefix <= key;
    PrefixIsLeq(prefix, key);
    assert key in keys;
    var j :| 0 <= j < |keys| && keys[j] == key;
    if |out| < |keys| {
      var stop := keys[|out|];
      assert stop in keys;
      if |out| <= j {
        LexRefl(key);
        assert LexLeq(stop, key);
        PrefixIsContiguous(prefix, stop, key);
        assert false;
      }
    }
    assert out[j].0 == (prefix + out[j].0)[8..] == key[8..] == name;
    assert out[j] == (name, dirs[key]);
  }

  // ---- names as text ----

  /** Some entry of the directory has a name that is not text. */
  ghost predicate HasBadName(dirs: map<seq<byte>, InodeId>, parent: InodeId)
  {
    exists name :: Lookup(dirs, parent, name).Some? && !Utf8(name)
  }

  lemma GoodListing(dirs: map<seq<byte>, InodeId>, parent: InodeId, out: Entries)
    requires Listing(dirs, parent, out) && forall i :: 0 <= i < |out| ==> Utf8(out[i].0)
    ensures !HasBadName(dirs, parent)
  {
    forall name | Lookup(dirs, parent, name).Some?
      ensures Utf8(name)
    {
      var i :| 0 <= i < |out| && out[i] == (name, Lookup(dirs, parent, name).value);
      assert out[i].0 == name;
    }
  }

  /** `MetaStore::readdir`: from the directory's prefix on, until the first key without it. Fails exactly
      when a name of the directory is not valid UTF-8. */
  method Readdir(dirs: map<seq<byte>, InodeId>, parent: InodeId) returns (r: Option<Entries>)
    ensures r.None? <==> HasBadName(dirs, parent)
    ensures r.Some? ==> Listing(dirs, parent, r.value)
  {
    var prefix := Le(parent, 8);
    var keys := Range(dirs, prefix);
    var out: Entries := [];
    var i := 0;
    while i < |keys|
      invariant 0 <= i <= |keys| && |out| == i
      invariant Collected(dirs, prefix, keys, out)
      invariant forall j :: 0 <= j < |out| ==> Utf8(out[j].0)
    {
      var key := keys[i];
      if !(prefix <= key) {
        break;
      }
      assert key in keys;
      var name := key[8..];
      assert prefix + name == key;
      if !Utf8(name) {
        assert Lookup(dirs, parent, name).Some?;
        return None;
      }
      out := out + [(name, dirs[key])];
      i := i + 1;
    }
    CollectedListing(dirs, parent, keys, out);
    GoodListing(dirs, parent, out);
    r := Some(out);
  }
}

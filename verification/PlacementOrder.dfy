/** The order of slots that makes greedy placement fill as many as possible is also needed: for any other
    list of slots, under every ranking, there is a pool on which greedy placement leaves a slot empty
    that another assignment fills. */
module PlacementOrder {
  import opened Proto
  import opened Arith
  import opened Placement
  import opened PlacementLaws
  import opened PlacementMatching
  import NegLog2

  // ---- greedy placement exists ----

  lemma PrefersTrans(r: Ranking, a: DiskCandidate, b: DiskCandidate, c: DiskCandidate)
    requires r.Prefers(a, b) && r.Prefers(b, c)
    ensures r.Prefers(a, c)
  {
  }

  lemma BestExists(r: Ranking, avail: set<DiskCandidate>) returns (o: Option<DiskCandidate>)
    requires DistinctIds(avail)
    ensures Best(r, avail, o)
    decreases |avail|
  {
    if avail == {} {
      return None;
    }
    var c :| c in avail;
    var b := BestExists(r, avail - {c});
    o := Some(c);
    if b.Some? {
      PrefersTotal(r, b.value, c);
      if r.Prefers(b.value, c) {
        o := b;
      } else {
        forall x | x in avail && x != c && x != b.value
          ensures r.Prefers(c, x)
        {
          PrefersTrans(r, c, b.value, x);
        }
      }
    }
  }

  lemma {:induction false} GreedyExists(r: Ranking, pool: set<DiskCandidate>, slots: seq<ReplicaSlotSpec>)
    returns (res: Assignment)
    requires DistinctIds(pool)
    ensures Greedy(r, pool, slots, res)
    decreases |slots|
  {
    if slots == [] {
      return [];
    }
    var n := |slots| - 1;
    var front := GreedyExists(r, pool, slots[..n]);
    var o := BestExists(r, Available(pool, Used(front), slots[n]));
    res := front + [o];
    forall i | 0 <= i < |res|
      ensures Best(r, Available(pool, Used(res[..i]), slots[i]), res[i])
    {
      if i < n {
        assert res[..i] == front[..i] && slots[..n][i] == slots[i];
        assert Best(r, Available(pool, Used(front[..i]), slots[..n][i]), front[i]);
      } else {
        assert res[..i] == front;
      }
    }
  }

  /** A disk that a slot is pinned to, or one whose id is a small number; of a weight that fits 32 bits. */
  predicate Named(slots: seq<ReplicaSlotSpec>, d: DiskCandidate)
  {
    && d.weightMilli < U32
    && (|| (d.idLo == 0 && d.idHi < |slots| * |slots| + |slots|)
        || exists k :: 0 <= k < |slots| && PinnedTo(slots[k], d))
  }

  predicate PinnedTo(slot: ReplicaSlotSpec, d: DiskCandidate)
  {
    slot.pinned != 0 && d.idHi == slot.pinnedIdHi && d.idLo == slot.pinnedIdLo
  }

  // ---- a weight that decides ----

  const HEAVY: nat := 8388608

  /** A heavy disk is preferred to one of weight at most one, whatever their hashes. */
  lemma HeavyWins(r: Ranking, d: DiskCandidate, b: DiskCandidate)
    requires d.weightMilli == HEAVY && b.weightMilli <= 1
    ensures r.Prefers(d, b) && !r.Prefers(b, d)
  {
    var x, y := r.Rank(d), r.Rank(b);
    NegLog2.NegLog2Bound(x.raw);
    HeavyScore(x.raw, d.weightMilli);
    LightScore(y.raw, b.weightMilli);
  }

  lemma HeavyScore(raw: u64, w: nat)
    requires w == HEAVY && NegLog2.NegLog2(raw) <= 4194304
    ensures ScoreFrom(raw, w) > U64
  {
    SmallerDivisor(HEAVY * U64, 4194305, NegLog2.NegLog2(raw) + 1);
    assert HEAVY * U64 / 4194305 > U64;
  }

  lemma LightScore(raw: u64, w: nat)
    requires w <= 1
    ensures ScoreFrom(raw, w) <= U64
  {
    SmallerDivisor(U64, NegLog2.NegLog2(raw) + 1, 1);
  }

  // ---- a disk of its own for every slot ----

  /** A number above all pinned ids. */
  function Bound(slots: seq<ReplicaSlotSpec>): (n: nat)
    ensures forall k :: 0 <= k < |slots| ==> slots[k].pinnedIdHi < n
  {
    if slots == [] then 0 else Max(slots[0].pinnedIdHi + 1, Bound(slots[1..]))
  }

  /** Some slot is pinned to a disk numbered from `b` on, within as many numbers as there are slots. */
  predicate Hit(slots: seq<ReplicaSlotSpec>, b: nat, k: nat)
  {
    k < |slots| && b <= slots[k].pinnedIdHi < b + |slots|
  }

  /** The first free block of numbers from `b` on. */
  function FreeFrom(slots: seq<ReplicaSlotSpec>, b: nat): (r: nat)
    ensures forall k :: 0 <= k < |slots| ==> !Hit(slots, r, k)
    decreases Bound(slots) - b
  {
    if exists k :: 0 <= k < |slots| && Hit(slots, b, k) then FreeFrom(slots, b + |slots|) else b
  }

  /** There are as many blocks below as pins at most, so the free block is among the first. */
  lemma {:induction false} FreeIsSmall(slots: seq<ReplicaSlotSpec>, b: nat, seen: set<nat>)
    requires (forall k :: k in seen ==> k < |slots| && slots[k].pinnedIdHi < b) && b == |seen| * |slots|
    ensures FreeFrom(slots, b) <= |slots| * |slots|
    decreases Bound(slots) - b
  {
    if exists k :: 0 <= k < |slots| && Hit(slots, b, k) {
      var k :| 0 <= k < |slots| && Hit(slots, b, k);
      var more := seen + {k};
      NextBlock(|seen|, |more|, |slots|);
      FreeIsSmall(slots, b + |slots|, more);
    } else {
      FewSeen(seen, |slots|);
      MulMono(|seen|, |slots|, |slots|);
    }
  }

  lemma NextBlock(m: nat, next: nat, n: nat)
    requires next == m + 1
    ensures next * n == m * n + n
  {
  }

  lemma {:induction false} FewSeen(seen: set<nat>, n: nat)
    requires forall k :: k in seen ==> k < n
    ensures |seen| <= n
  {
    if n > 0 {
      FewSeen(seen - {n - 1}, n - 1);
    } else {
      assert seen == {};
    }
  }

  /** A pool with a disk for every slot: the pinned one, or one of the slot's class, `cls` where the slot
      leaves the class open. The disks of the slots in `heavy` are heavy. */
  datatype Trap = Trap(slots: seq<ReplicaSlotSpec>, cls: nat, heavy: set<nat>) {

    ghost predicate Valid()
    {
      forall k, l :: 0 <= k < |slots| && 0 <= l < |slots| && SamePin(slots[k], slots[l]) ==>
          (k in heavy <==> l in heavy)
    }

    function Own(k: nat): DiskCandidate
      requires k < |slots|
    {
      var x, w := slots[k], if k in heavy then HEAVY else 1;
      if x.pinned != 0 then DiskCandidate(x.pinnedIdHi, x.pinnedIdLo, w, 1, cls)
      else DiskCandidate(FreeFrom(slots, 0) + k, 0, w, 1, if x.requiredClass == CLASS_ANY then cls else x.requiredClass)
    }

    ghost function Pool(): set<DiskCandidate>
    {
      set k | 0 <= k < |slots| :: Own(k)
    }

    /** The slots that can be filled together: all but repeated pins. */
    ghost function Full(): Assignment
    {
      seq(|slots|, k requires 0 <= k < |slots| => if Repeats(slots, k, k) then None else Some(Own(k)))
    }

    lemma SameOwn(k: nat, l: nat)
      requires Valid() && k < |slots| && l < |slots| && SameId(Own(k), Own(l))
      ensures Own(k) == Own(l) && (k == l || SamePin(slots[k], slots[l]))
    {
      assert !Hit(slots, FreeFrom(slots, 0), k) && !Hit(slots, FreeFrom(slots, 0), l);
    }

    /** Its disks have the pinned ids, or small numbers. */
    lemma PoolNamed()
      ensures forall d :: d in Pool() ==> Named(slots, d)
    {
      FreeIsSmall(slots, 0, {});
    }

    lemma PoolDistinct()
      requires Valid()
      ensures DistinctIds(Pool())
    {
      forall a, b | a in Pool() && b in Pool() && SameId(a, b)
        ensures a == b
      {
        var k :| 0 <= k < |slots| && Own(k) == a;
        var l :| 0 <= l < |slots| && Own(l) == b;
        SameOwn(k, l);
      }
    }

    lemma FullIsAssignment()
      requires Valid()
      ensures IsAssignment(Pool(), slots, Full())
    {
      var a := Full();
      forall i, j | 0 <= i < j < |a| && a[i].Some? && a[j].Some?
        ensures a[i] != a[j]
      {
        if a[i] == a[j] {
          SameOwn(i, j);
        }
      }
    }

    // ---- what greedy placement makes of it ----

    lemma RepeatsStayEmpty(r: Ranking, res: Assignment, k: nat)
      requires Valid() && Greedy(r, Pool(), slots, res) && k < |slots| && Repeats(slots, k, k)
      ensures res[k].None?
    {
      PoolDistinct();
      var k0 :| 0 <= k0 < k && SamePin(slots[k0], slots[k]);
      assert Best(r, Available(Pool(), Used(res[..k]), slots[k]), res[k]);
      if res[k].Some? {
        PinnedIsTaken(r, Pool(), slots, res, k0, k, res[k].value);
      }
    }

    /** Every slot that can be filled is filled. */
    ghost predicate AllFilled(res: Assignment)
      requires |res| == |slots|
    {
      forall k :: 0 <= k < |slots| && !Repeats(slots, k, k) ==> res[k].Some?
    }

    /** A slot does not pass over a heavy disk that a later slot holds, except for a heavy one. */
    lemma HeavyFirst(r: Ranking, res: Assignment, i: nat, j: nat)
      requires Valid() && Greedy(r, Pool(), slots, res) && i < j < |slots| && res[i].Some? && res[j].Some?
      requires res[j].value.weightMilli == HEAVY && Accepts(slots[i], res[j].value)
      ensures res[i].value.weightMilli > 1
    {
      GreedyIsAssignment(r, Pool(), slots, res);
      var b, d := res[i].value, res[j].value;
      assert Best(r, Available(Pool(), Used(res[..i]), slots[i]), res[i]);
      assert d !in Used(res[..i]);
      if b.weightMilli <= 1 {
        HeavyWins(r, d, b);
      }
    }

    /** The slot whose disk this is. */
    lemma OwnerOf(r: Ranking, res: Assignment, k: nat) returns (m: nat)
      requires Greedy(r, Pool(), slots, res) && k < |slots| && res[k].Some?
      ensures m < |slots| && res[k].value == Own(m) && Accepts(slots[k], Own(m))
    {
      GreedyIsAssignment(r, Pool(), slots, res);
      m :| 0 <= m < |slots| && Own(m) == res[k].value;
    }
  }

  // ---- a pin behind a less specific slot ----

  /** The first slot with the pin of slot `j`. */
  lemma {:induction false} FirstPin(slots: seq<ReplicaSlotSpec>, j: nat) returns (k: nat)
    requires j < |slots| && slots[j].pinned != 0
    ensures k <= j && SamePin(slots[k], slots[j]) && !Repeats(slots, k, k)
    decreases j
  {
    k := j;
    if Repeats(slots, j, j) {
      var k0 :| 0 <= k0 < j && SamePin(slots[k0], slots[j]);
      k := FirstPin(slots, k0);
    }
  }

  /** The pinned disk is heavy and of a class that slot `i` accepts. */
  function PinTrap(slots: seq<ReplicaSlotSpec>, i: nat, j: nat): (t: Trap)
    requires i < j < |slots|
    ensures t.slots == slots
  {
    Trap(slots, if slots[i].requiredClass == CLASS_ANY then 1 else slots[i].requiredClass,
         set k: nat | k < |slots| && SamePin(slots[k], slots[j]))
  }

  lemma PinTrapCatches(slots: seq<ReplicaSlotSpec>, i: nat, j: nat, r: Ranking, res: Assignment)
    requires i < j < |slots| && slots[i].pinned == 0 && slots[j].pinned != 0 && !Repeats(slots, i, j)
    requires PinTrap(slots, i, j).Valid() && Greedy(r, PinTrap(slots, i, j).Pool(), slots, res)
    ensures !PinTrap(slots, i, j).AllFilled(res)
  {
    var t := PinTrap(slots, i, j);
    var first := FirstPin(slots, j);
    assert i < first;
    if t.AllFilled(res) {
      assert !Repeats(slots, i, i);
      var m := t.OwnerOf(r, res, i);
      var n := t.OwnerOf(r, res, first);
      t.SameOwn(n, first);
      t.HeavyFirst(r, res, i, first);
      GreedyIsAssignment(r, t.Pool(), slots, res);
      t.SameOwn(m, first);
    }
  }

  // ---- a class behind an unconstrained slot ----

  ghost function HeldBy(a: Assignment, ks: set<nat>): set<DiskCandidate>
    requires forall k :: k in ks ==> k < |a| && a[k].Some?
  {
    set k | k in ks :: a[k].value
  }

  ghost predicate AllDiffer(a: Assignment, ks: set<nat>)
  {
    forall k, l :: k in ks && l in ks && k != l && k < |a| && l < |a| ==> a[k] != a[l]
  }

  lemma {:induction false} HeldCount(a: Assignment, ks: set<nat>)
    requires (forall k :: k in ks ==> k < |a| && a[k].Some?) && AllDiffer(a, ks)
    ensures |HeldBy(a, ks)| == |ks|
    decreases |ks|
  {
    if ks != {} {
      var k :| k in ks;
      HeldCount(a, ks - {k});
      assert HeldBy(a, ks) == HeldBy(a, ks - {k}) + {a[k].value};
    }
  }

  lemma SameSize(a: set<DiskCandidate>, b: set<DiskCandidate>)
    requires a <= b && |a| == |b|
    ensures a == b
  {
    if a != b {
      var x :| x in b && x !in a;
      assert a <= b - {x};
      SubsetSize(a, b - {x});
    }
  }

  lemma SubsetSize(a: set<DiskCandidate>, b: set<DiskCandidate>)
    requires a <= b
    ensures |a| <= |b|
  {
    assert b == a + (b - a);
  }

  function OfClass(slots: seq<ReplicaSlotSpec>, c: nat): set<nat>
  {
    set k: nat | k < |slots| && slots[k].pinned == 0 && slots[k].requiredClass == c
  }

  /** The disks of class `c` are heavy, and are those of the slots that ask for them. */
  function ClassTrap(slots: seq<ReplicaSlotSpec>, c: nat): (t: Trap)
    ensures t.slots == slots
  {
    Trap(slots, if c == 1 then 2 else 1, OfClass(slots, c))
  }

  lemma ClassTrapValid(slots: seq<ReplicaSlotSpec>, c: nat)
    ensures ClassTrap(slots, c).Valid()
  {
  }

  lemma OwnsClass(slots: seq<ReplicaSlotSpec>, c: nat, m: nat)
    requires m < |slots| && c != CLASS_ANY
    ensures ClassTrap(slots, c).Own(m).cls == c <==> m in OfClass(slots, c)
    ensures ClassTrap(slots, c).Own(m).weightMilli == if m in OfClass(slots, c) then HEAVY else 1
  {
  }

  ghost function Owned(t: Trap): Assignment
  {
    seq(|t.slots|, k requires 0 <= k < |t.slots| => Some(t.Own(k)))
  }

  lemma ClassHolds(slots: seq<ReplicaSlotSpec>, c: nat, r: Ranking, res: Assignment, k: nat)
    requires c != CLASS_ANY && Greedy(r, ClassTrap(slots, c).Pool(), slots, res) && ClassTrap(slots, c).AllFilled(res)
    requires k in OfClass(slots, c)
    ensures res[k].Some? && res[k].value in HeldBy(Owned(ClassTrap(slots, c)), OfClass(slots, c))
  {
    var t := ClassTrap(slots, c);
    assert !Repeats(slots, k, k);
    var m := t.OwnerOf(r, res, k);
    OwnsClass(slots, c, m);
    assert Owned(t)[m].value == t.Own(m);
  }

  lemma OwnedDiffer(slots: seq<ReplicaSlotSpec>, c: nat)
    ensures AllDiffer(Owned(ClassTrap(slots, c)), OfClass(slots, c))
  {
  }

  lemma HeldDiffer(pool: set<DiskCandidate>, slots: seq<ReplicaSlotSpec>, a: Assignment, ks: set<nat>)
    requires IsAssignment(pool, slots, a) && forall k :: k in ks ==> k < |a| && a[k].Some?
    ensures AllDiffer(a, ks)
  {
  }

  /** If all are filled, the slots of class `c` hold all disks of that class. */
  lemma ClassExhausted(slots: seq<ReplicaSlotSpec>, c: nat, r: Ranking, res: Assignment)
    requires c != CLASS_ANY && Greedy(r, ClassTrap(slots, c).Pool(), slots, res) && ClassTrap(slots, c).AllFilled(res)
    ensures forall k :: k in OfClass(slots, c) ==> res[k].Some?
    ensures HeldBy(res, OfClass(slots, c)) == HeldBy(Owned(ClassTrap(slots, c)), OfClass(slots, c))
  {
    var owned, ks := Owned(ClassTrap(slots, c)), OfClass(slots, c);
    forall k | k in ks
      ensures res[k].Some? && res[k].value in HeldBy(owned, ks)
    {
      ClassHolds(slots, c, r, res, k);
    }
    GreedyIsAssignment(r, ClassTrap(slots, c).Pool(), slots, res);
    HeldDiffer(ClassTrap(slots, c).Pool(), slots, res, ks);
    OwnedDiffer(slots, c);
    HeldCount(res, ks);
    HeldCount(owned, ks);
    SameSize(HeldBy(res, ks), HeldBy(owned, ks));
  }

  /** So an unconstrained slot holds a light disk. */
  lemma OtherIsLight(slots: seq<ReplicaSlotSpec>, c: nat, r: Ranking, res: Assignment, i: nat)
    requires c != CLASS_ANY && Greedy(r, ClassTrap(slots, c).Pool(), slots, res) && ClassTrap(slots, c).AllFilled(res)
    requires i < |slots| && i !in OfClass(slots, c) && res[i].Some?
    ensures res[i].value.weightMilli == 1
  {
    var t, ks := ClassTrap(slots, c), OfClass(slots, c);
    var m := t.OwnerOf(r, res, i);
    OwnsClass(slots, c, m);
    if m in ks {
      ClassExhausted(slots, c, r, res);
      assert Owned(t)[m].value in HeldBy(Owned(t), ks);
      GreedyIsAssignment(r, t.Pool(), slots, res);
      NotHeldTwice(t.Pool(), slots, res, ks, i);
    }
  }

  lemma NotHeldTwice(pool: set<DiskCandidate>, slots: seq<ReplicaSlotSpec>, a: Assignment, ks: set<nat>, i: nat)
    requires IsAssignment(pool, slots, a) && (forall k :: k in ks ==> k < |a| && a[k].Some?)
    requires i < |a| && i !in ks && a[i].Some?
    ensures a[i].value !in HeldBy(a, ks)
  {
  }

  lemma HoldsHeavy(slots: seq<ReplicaSlotSpec>, c: nat, r: Ranking, res: Assignment, j: nat)
    requires c != CLASS_ANY && Greedy(r, ClassTrap(slots, c).Pool(), slots, res)
    requires j in OfClass(slots, c) && res[j].Some?
    ensures res[j].value.weightMilli == HEAVY && res[j].value.active != 0
  {
    var n := ClassTrap(slots, c).OwnerOf(r, res, j);
    OwnsClass(slots, c, n);
  }

  lemma ClassTrapCatches(slots: seq<ReplicaSlotSpec>, i: nat, j: nat, r: Ranking, res: Assignment)
    requires i < j < |slots| && Generality(slots[i]) == 2 && Generality(slots[j]) == 1
    requires Greedy(r, ClassTrap(slots, slots[j].requiredClass).Pool(), slots, res)
    ensures !ClassTrap(slots, slots[j].requiredClass).AllFilled(res)
  {
    var c := slots[j].requiredClass;
    var t := ClassTrap(slots, c);
    if t.AllFilled(res) {
      assert !Repeats(slots, i, i) && !Repeats(slots, j, j);
      ClassTrapValid(slots, c);
      HoldsHeavy(slots, c, r, res, j);
      t.HeavyFirst(r, res, i, j);
      OtherIsLight(slots, c, r, res, i);
    }
  }

  // ---- the order is needed ----

  lemma {:induction false} FilledLess(a: Assignment, b: Assignment, k: nat)
    requires |a| == |b| && k < |a| && a[k].None? && b[k].Some?
    requires forall i :: 0 <= i < |a| && a[i].Some? ==> b[i].Some?
    ensures Filled(a) < Filled(b)
  {
    if k == 0 {
      FilledLeq(a[1..], b[1..]);
    } else {
      FilledLess(a[1..], b[1..], k - 1);
    }
  }

  lemma {:induction false} FilledLeq(a: Assignment, b: Assignment)
    requires |a| == |b| && forall i :: 0 <= i < |a| && a[i].Some? ==> b[i].Some?
    ensures Filled(a) <= Filled(b)
  {
    if a != [] {
      FilledLeq(a[1..], b[1..]);
    }
  }

  lemma TrapFallsShort(t: Trap, r: Ranking, res: Assignment)
    requires t.Valid() && Greedy(r, t.Pool(), t.slots, res) && !t.AllFilled(res)
    ensures Filled(res) < Filled(t.Full())
  {
    var a := t.Full();
    forall k | 0 <= k < |res| && res[k].Some?
      ensures a[k].Some?
    {
      if Repeats(t.slots, k, k) {
        t.RepeatsStayEmpty(r, res, k);
      }
    }
    var k :| 0 <= k < |res| && !Repeats(t.slots, k, k) && res[k].None?;
    FilledLess(res, a, k);
  }

  /** Every list of slots that is not in order, repeated pins aside, and every ranking: some pool on which
      greedy placement fills fewer slots than some assignment. With `SpecificFirstIsMaximum`: greedy
      placement fills as many slots as possible on every pool if and only if the slots are in order. */
  lemma OrderIsNeeded(r: Ranking, slots: seq<ReplicaSlotSpec>)
    returns (pool: set<DiskCandidate>, res: Assignment, a: Assignment)
    requires !BySpecificity(slots)
    ensures DistinctIds(pool) && Greedy(r, pool, slots, res) && IsAssignment(pool, slots, a)
    ensures Filled(res) < Filled(a)
    ensures forall d :: d in pool ==> Named(slots, d)
  {
    var i, j :| 0 <= i < j < |slots| && !InOrder(slots, i, j);
    var t := if slots[j].pinned != 0 then PinTrap(slots, i, j) else ClassTrap(slots, slots[j].requiredClass);
    pool, a := t.Pool(), t.Full();
    t.PoolDistinct();
    t.FullIsAssignment();
    res := GreedyExists(r, pool, slots);
    if slots[j].pinned != 0 {
      PinTrapCatches(slots, i, j, r, res);
    } else {
      ClassTrapCatches(slots, i, j, r, res);
    }
    TrapFallsShort(t, r, res);
    t.PoolNamed();
  }
}

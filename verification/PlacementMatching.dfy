/** When greedy placement fills as many slots as possible: whenever the slots come in nested order, in
    particular pinned slots first, then slots with a class, then unconstrained ones. A pin that repeats
    an earlier one may stand anywhere. */
module PlacementMatching {
  import opened Proto
  import opened Placement
  import opened PlacementLaws

  type Assignment = seq<Option<DiskCandidate>>

  /** Some way of filling slots: accepted disks of the pool, none used twice. */
  ghost predicate IsAssignment(pool: set<DiskCandidate>, slots: seq<ReplicaSlotSpec>, a: Assignment)
  {
    && |a| == |slots|
    && (forall i :: 0 <= i < |a| && a[i].Some? ==> a[i].value in pool && Accepts(slots[i], a[i].value))
    && (forall i, j :: 0 <= i < j < |a| && a[i].Some? && a[j].Some? ==> a[i] != a[j])
  }

  function Weight(o: Option<DiskCandidate>): nat
  {
    if o.Some? then 1 else 0
  }

  /** How many slots are filled. */
  function Filled(a: Assignment): nat
  {
    if a == [] then 0 else Weight(a[0]) + Filled(a[1..])
  }

  lemma {:induction false} FilledUpdate(a: Assignment, i: nat, o: Option<DiskCandidate>)
    requires i < |a|
    ensures Filled(a[i := o]) + Weight(a[i]) == Filled(a) + Weight(o)
  {
    if i == 0 {
      assert a[0 := o][1..] == a[1..];
    } else {
      assert a[i := o][1..] == a[1..][i - 1 := o];
      FilledUpdate(a[1..], i - 1, o);
    }
  }

  /** If the two share a disk, `y` accepts all that `x` accepts. */
  ghost predicate NestedPair(pool: set<DiskCandidate>, x: ReplicaSlotSpec, y: ReplicaSlotSpec)
  {
    forall d, e :: d in pool && e in pool && Accepts(x, d) && Accepts(y, d) && Accepts(x, e) ==> Accepts(y, e)
  }

  /** Both are pinned to the same disk. */
  predicate SamePin(x: ReplicaSlotSpec, y: ReplicaSlotSpec)
  {
    x.pinned != 0 && y.pinned != 0 && x.pinnedIdHi == y.pinnedIdHi && x.pinnedIdLo == y.pinnedIdLo
  }

  /** Slot `j` is pinned to the disk of a slot before `k`. */
  predicate Repeats(slots: seq<ReplicaSlotSpec>, k: nat, j: nat)
    requires k <= |slots| && j < |slots|
  {
    exists k0 :: 0 <= k0 < k && SamePin(slots[k0], slots[j])
  }

  /** Nested, but for slots pinned to a disk that an earlier slot is pinned to. */
  ghost predicate NestedButRepeats(pool: set<DiskCandidate>, slots: seq<ReplicaSlotSpec>)
  {
    forall k, j :: 0 <= k < j < |slots| ==>
      NestedPair(pool, slots[k], slots[j]) || (DistinctIds(pool) && Repeats(slots, k, j))
  }

  // ---- exchange ----

  /** What an assignment holds in slot `k` is available there. */
  lemma HeldIsAvailable(pool: set<DiskCandidate>, slots: seq<ReplicaSlotSpec>, a: Assignment, k: nat)
    requires IsAssignment(pool, slots, a) && k < |a|
    ensures a[k].Some? ==> a[k].value in Available(pool, Used(a[..k]), slots[k])
  {
    assert forall i :: 0 <= i < k ==> a[..k][i] == a[i];
  }

  /** Giving slot `k` a disk that is not used from `k` on. */
  lemma TakeUnused(pool: set<DiskCandidate>, slots: seq<ReplicaSlotSpec>, a: Assignment, k: nat, d: DiskCandidate)
    requires IsAssignment(pool, slots, a) && k < |a| && d in Available(pool, Used(a[..k]), slots[k])
    requires forall j :: k <= j < |a| ==> a[j] != Some(d)
    ensures IsAssignment(pool, slots, a[k := Some(d)]) && Filled(a[k := Some(d)]) >= Filled(a)
  {
    FilledUpdate(a, k, Some(d));
    forall i | 0 <= i < k
      ensures a[i] != Some(d)
    {
      assert a[..k][i] == a[i];
    }
  }

  /** Exchanging slot `k`'s disk with that of a later slot that holds the preferred one. */
  lemma Exchange(pool: set<DiskCandidate>, slots: seq<ReplicaSlotSpec>, a: Assignment, k: nat, j: nat, d: DiskCandidate)
    requires IsAssignment(pool, slots, a) && k < j < |a| && NestedPair(pool, slots[k], slots[j])
    requires d in Available(pool, Used(a[..k]), slots[k]) && a[j] == Some(d)
    ensures IsAssignment(pool, slots, a[k := Some(d)][j := a[k]]) && Filled(a[k := Some(d)][j := a[k]]) == Filled(a)
  {
    var a' := a[k := Some(d)][j := a[k]];
    FilledUpdate(a, k, Some(d));
    FilledUpdate(a[k := Some(d)], j, a[k]);
    forall x, y | 0 <= x < y < |a'| && a'[x].Some? && a'[y].Some?
      ensures a'[x] != a'[y]
    {
      var x0 := if x == k then j else if x == j then k else x;
      var y0 := if y == k then j else if y == j then k else y;
      assert a'[x] == a[x0] && a'[y] == a[y0] && x0 != y0;
    }
  }

  /** Once a slot pinned to a disk was served, the disk is used. */
  lemma PinnedIsTaken(r: Ranking, pool: set<DiskCandidate>, slots: seq<ReplicaSlotSpec>, res: Assignment, k: nat,
                      n: nat, d: DiskCandidate)
    requires DistinctIds(pool) && Greedy(r, pool, slots, res) && k < n <= |res|
    requires d in pool && slots[k].pinned != 0 && Accepts(slots[k], d)
    ensures d in Used(res[..n])
  {
    UsedMono(res, k, n);
    assert Best(r, Available(pool, Used(res[..k]), slots[k]), res[k]);
    if d !in Used(res[..k]) {
      assert d in Available(pool, Used(res[..k]), slots[k]);
      assert SameId(res[k].value, d);
      assert res[..n][k] == res[k];
    }
  }

  /** An assignment that agrees with `res` on the first `k` slots. */
  ghost predicate Follows(pool: set<DiskCandidate>, slots: seq<ReplicaSlotSpec>, res: Assignment, a: Assignment, k: nat)
  {
    IsAssignment(pool, slots, a) && |res| == |slots| && k <= |slots| && a[..k] == res[..k]
  }

  lemma FollowsNext(pool: set<DiskCandidate>, slots: seq<ReplicaSlotSpec>, res: Assignment, a: Assignment, k: nat)
    requires Follows(pool, slots, res, a, k) && k < |slots| && a[k] == res[k]
    ensures Follows(pool, slots, res, a, k + 1)
  {
    assert a[..k + 1] == a[..k] + [a[k]] && res[..k + 1] == res[..k] + [res[k]];
  }

  /** A later slot that holds what slot `k` prefers is not a repeated pin. */
  lemma LaterIsNested(r: Ranking, pool: set<DiskCandidate>, slots: seq<ReplicaSlotSpec>, res: Assignment,
                      a: Assignment, k: nat, j: nat, d: DiskCandidate)
    requires Greedy(r, pool, slots, res) && NestedButRepeats(pool, slots) && IsAssignment(pool, slots, a)
    requires k < j < |a| && a[j] == Some(d) && d !in Used(res[..k])
    ensures NestedPair(pool, slots[k], slots[j])
  {
    if !NestedPair(pool, slots[k], slots[j]) {
      var k0 :| 0 <= k0 < k && SamePin(slots[k0], slots[j]);
      PinnedIsTaken(r, pool, slots, res, k0, k, d);
    }
  }

  /** Some assignment that fills as many slots agrees with greedy placement on one slot more. */
  lemma AgreeOneMore(r: Ranking, pool: set<DiskCandidate>, slots: seq<ReplicaSlotSpec>, res: Assignment, a: Assignment,
                     k: nat)
    returns (a': Assignment)
    requires Greedy(r, pool, slots, res) && NestedButRepeats(pool, slots)
    requires Follows(pool, slots, res, a, k) && k < |slots|
    ensures Follows(pool, slots, res, a', k + 1) && Filled(a') >= Filled(a)
  {
    assert Best(r, Available(pool, Used(res[..k]), slots[k]), res[k]);
    a' := a;
    HeldIsAvailable(pool, slots, a, k);
    if res[k].Some? && a[k] != res[k] {
      var d := res[k].value;
      if exists j :: k <= j < |a| && a[j] == Some(d) {
        var j :| k <= j < |a| && a[j] == Some(d);
        LaterIsNested(r, pool, slots, res, a, k, j, d);
        Exchange(pool, slots, a, k, j, d);
        a' := a[k := Some(d)][j := a[k]];
      } else {
        TakeUnused(pool, slots, a, k, d);
        a' := a[k := Some(d)];
      }
    }
    assert a'[..k] == a[..k];
    FollowsNext(pool, slots, res, a', k);
  }

  /** With slots in nested order greedy placement fills as many slots as any assignment can. */
  lemma GreedyIsMaximum(r: Ranking, pool: set<DiskCandidate>, slots: seq<ReplicaSlotSpec>, res: Assignment,
                        a: Assignment)
    requires Greedy(r, pool, slots, res) && NestedButRepeats(pool, slots) && IsAssignment(pool, slots, a)
    ensures Filled(a) <= Filled(res)
  {
    var b, k := a, 0;
    while k < |slots|
      invariant 0 <= k <= |slots| && Follows(pool, slots, res, b, k) && Filled(a) <= Filled(b)
    {
      b := AgreeOneMore(r, pool, slots, res, b, k);
      k := k + 1;
    }
    assert b[..k] == b && res[..k] == res;
  }

  /** Greedy placement is itself an assignment, so the maximum is attained. */
  lemma GreedyIsAssignment(r: Ranking, pool: set<DiskCandidate>, slots: seq<ReplicaSlotSpec>, res: Assignment)
    requires Greedy(r, pool, slots, res)
    ensures IsAssignment(pool, slots, res)
  {
    forall i | 0 <= i < |res| && res[i].Some?
      ensures res[i].value in pool && Accepts(slots[i], res[i].value)
    {
      assert Best(r, Available(pool, Used(res[..i]), slots[i]), res[i]);
    }
    forall i, j | 0 <= i < j < |res| && res[i].Some? && res[j].Some?
      ensures res[i] != res[j]
    {
      assert Best(r, Available(pool, Used(res[..j]), slots[j]), res[j]);
      assert res[..j][i] == res[i];
    }
  }

  // ---- an order that is nested on every pool ----

  /** Pinned before class before any. */
  function Generality(slot: ReplicaSlotSpec): nat
  {
    if slot.pinned != 0 then 0 else if slot.requiredClass != CLASS_ANY then 1 else 2
  }

  /** From the most to the least specific, repeated pins aside. */
  predicate BySpecificity(slots: seq<ReplicaSlotSpec>)
  {
    forall i, j :: 0 <= i < j < |slots| ==> InOrder(slots, i, j)
  }

  predicate InOrder(slots: seq<ReplicaSlotSpec>, i: nat, j: nat)
    requires i < j < |slots|
  {
    Generality(slots[i]) <= Generality(slots[j]) || Repeats(slots, i, j)
  }

  /** Slots from the most to the least specific are in nested order. */
  lemma SpecificFirstIsNested(pool: set<DiskCandidate>, slots: seq<ReplicaSlotSpec>)
    requires DistinctIds(pool) && BySpecificity(slots)
    ensures NestedButRepeats(pool, slots)
  {
    forall k, j | 0 <= k < j < |slots|
      ensures NestedPair(pool, slots[k], slots[j]) || Repeats(slots, k, j)
    {
      assert InOrder(slots, k, j);
      if Generality(slots[k]) <= Generality(slots[j]) {
        SpecificPair(pool, slots[k], slots[j]);
      }
    }
  }

  /** With slots from the most to the least specific, greedy placement fills as many as any assignment can,
      on every pool and under every ranking. */
  lemma SpecificFirstIsMaximum(r: Ranking, pool: set<DiskCandidate>, slots: seq<ReplicaSlotSpec>, res: Assignment,
                               a: Assignment)
    requires DistinctIds(pool) && BySpecificity(slots)
    requires Greedy(r, pool, slots, res) && IsAssignment(pool, slots, a)
    ensures Filled(a) <= Filled(res)
  {
    SpecificFirstIsNested(pool, slots);
    GreedyIsMaximum(r, pool, slots, res, a);
  }

  lemma SpecificPair(pool: set<DiskCandidate>, x: ReplicaSlotSpec, y: ReplicaSlotSpec)
    requires DistinctIds(pool) && Generality(x) <= Generality(y)
    ensures NestedPair(pool, x, y)
  {
    forall d, e | d in pool && e in pool && Accepts(x, d) && Accepts(y, d) && Accepts(x, e)
      ensures Accepts(y, e)
    {
      if x.pinned != 0 {
        assert SameId(d, e);
      }
    }
  }
}

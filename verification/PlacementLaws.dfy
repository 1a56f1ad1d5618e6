/** Laws of slot-by-slot placement, stated over the set of candidates (so no listing order can
    matter) and connected to the index-level loops of `Placement`. */
module PlacementLaws {
  import opened Proto
  import opened Arith
  import opened Placement

  // ---- placement over a set of candidates ----

  ghost predicate DistinctIds(pool: set<DiskCandidate>)
  {
    forall a, b :: a in pool && b in pool && SameId(a, b) ==> a == b
  }

  ghost function Used(res: seq<Option<DiskCandidate>>): set<DiskCandidate>
  {
    set k | 0 <= k < |res| && res[k].Some? :: res[k].value
  }

  ghost function Available(pool: set<DiskCandidate>, used: set<DiskCandidate>,
                           slot: ReplicaSlotSpec): set<DiskCandidate>
  {
    set c | c in pool && c !in used && Accepts(slot, c)
  }

  /** None exactly when nothing is available, else the candidate preferred to all others. */
  ghost predicate Best(r: Ranking, avail: set<DiskCandidate>, o: Option<DiskCandidate>)
  {
    match o
    case None => avail == {}
    case Some(c) => c in avail && forall b :: b in avail && b != c ==> r.Prefers(c, b)
  }

  ghost predicate Greedy(r: Ranking, pool: set<DiskCandidate>, slots: seq<ReplicaSlotSpec>,
                         res: seq<Option<DiskCandidate>>)
  {
    && |res| == |slots|
    && forall i :: 0 <= i < |res| ==> Best(r, Available(pool, Used(res[..i]), slots[i]), res[i])
  }

  lemma UsedSnoc(res: seq<Option<DiskCandidate>>, i: nat)
    requires i < |res|
    ensures Used(res[..i + 1]) == Used(res[..i]) + (if res[i].Some? then {res[i].value} else {})
  {
    var a, b := res[..i], res[..i + 1];
    forall c | c in Used(b)
      ensures c in Used(a) || (res[i].Some? && c == res[i].value)
    {
      var k :| 0 <= k < |b| && b[k].Some? && b[k].value == c;
      if k < i { assert a[k] == b[k]; }
    }
    forall c | c in Used(a)
      ensures c in Used(b)
    {
      var k :| 0 <= k < |a| && a[k].Some? && a[k].value == c;
      assert b[k] == a[k];
    }
    if res[i].Some? { assert b[i] == res[i]; }
  }

  lemma UsedMono(res: seq<Option<DiskCandidate>>, i: nat, k: nat)
    requires i <= k <= |res|
    ensures Used(res[..i]) <= Used(res[..k])
  {
    assert forall j :: 0 <= j < i ==> res[..i][j] == res[..k][j];
  }

  // ---- the loops compute it ----

  ghost predicate DistinctSeq(cands: seq<DiskCandidate>)
  {
    forall i, j :: 0 <= i < j < |cands| ==> !SameId(cands[i], cands[j])
  }

  ghost function SetOf(cands: seq<DiskCandidate>): set<DiskCandidate>
  {
    set c | c in cands
  }

  function Resolve(cands: seq<DiskCandidate>, out: seq<nat>): (res: seq<Option<DiskCandidate>>)
    requires forall i :: 0 <= i < |out| ==> out[i] == UNPLACED || out[i] < |cands|
    ensures |res| == |out|
    ensures forall i :: 0 <= i < |out| ==>
              res[i] == if out[i] == UNPLACED then None else Some(cands[out[i]])
  {
    seq(|out|, i requires 0 <= i < |out| => if out[i] == UNPLACED then None else Some(cands[out[i]]))
  }

  lemma PlacementInRange(r: Ranking, cands: seq<DiskCandidate>, slots: seq<ReplicaSlotSpec>, out: seq<nat>)
    requires IsPlacement(r, cands, slots, out)
    ensures forall i :: 0 <= i < |out| ==> out[i] == UNPLACED || out[i] < |cands|
  {
    forall i | 0 <= i < |out|
      ensures out[i] == UNPLACED || out[i] < |cands|
    {
      assert Chooses(r, cands, out[..i], slots[i], out[i]);
    }
  }

  lemma UsedIndex(cands: seq<DiskCandidate>, out: seq<nat>, j: nat)
    requires |cands| < UNPLACED && DistinctSeq(cands) && j < |cands|
    requires forall i :: 0 <= i < |out| ==> out[i] == UNPLACED || out[i] < |cands|
    ensures j in out <==> cands[j] in Used(Resolve(cands, out))
  {
    var res := Resolve(cands, out);
    if j in out {
      var k :| 0 <= k < |out| && out[k] == j;
      assert res[k] == Some(cands[j]);
    }
    if cands[j] in Used(res) {
      var k :| 0 <= k < |res| && res[k].Some? && res[k].value == cands[j];
      assert out[k] == j;
    }
  }

  lemma ChoosesIsBest(r: Ranking, cands: seq<DiskCandidate>, out: seq<nat>, slot: ReplicaSlotSpec, x: nat)
    requires |cands| < UNPLACED && DistinctSeq(cands)
    requires forall i :: 0 <= i < |out| ==> out[i] == UNPLACED || out[i] < |cands|
    requires Chooses(r, cands, out, slot, x)
    ensures x == UNPLACED || x < |cands|
    ensures Best(r, Available(SetOf(cands), Used(Resolve(cands, out)), slot),
                 if x == UNPLACED then None else Some(cands[x]))
  {
    var avail := Available(SetOf(cands), Used(Resolve(cands, out)), slot);
    forall c | c in avail
      ensures exists j: nat :: Free(cands, out, slot, j) && cands[j] == c
    {
      var j :| 0 <= j < |cands| && cands[j] == c;
      UsedIndex(cands, out, j);
      assert Free(cands, out, slot, j);
    }
    if x == UNPLACED {
      assert avail == {};
    } else {
      UsedIndex(cands, out, x);
      assert cands[x] in avail;
      forall b | b in avail && b != cands[x]
        ensures r.Prefers(cands[x], b)
      {
        var j: nat :| Free(cands, out, slot, j) && cands[j] == b;
        assert Ahead(r, cands, slot, x, j);
        PrefersTotal(r, cands[x], cands[j]);
        if slot.pinned != 0 {
          assert SameId(cands[x], cands[j]);
        }
      }
    }
  }

  /** The index-level result names, slot by slot, what placement over the set names. */
  lemma PlacementIsGreedy(r: Ranking, cands: seq<DiskCandidate>, slots: seq<ReplicaSlotSpec>, out: seq<nat>)
    requires |cands| < UNPLACED && DistinctSeq(cands)
    requires IsPlacement(r, cands, slots, out)
    ensures forall i :: 0 <= i < |out| ==> out[i] == UNPLACED || out[i] < |cands|
    ensures Greedy(r, SetOf(cands), slots, Resolve(cands, out))
  {
    PlacementInRange(r, cands, slots, out);
    var res := Resolve(cands, out);
    forall i | 0 <= i < |res|
      ensures Best(r, Available(SetOf(cands), Used(res[..i]), slots[i]), res[i])
    {
      assert Chooses(r, cands, out[..i], slots[i], out[i]);
      assert res[..i] == Resolve(cands, out[..i]);
      ChoosesIsBest(r, cands, out[..i], slots[i], out[i]);
    }
  }

  // ---- uniqueness and independence of the listing order ----

  lemma BestUnique(r: Ranking, avail: set<DiskCandidate>, o: Option<DiskCandidate>, o': Option<DiskCandidate>)
    requires Best(r, avail, o) && Best(r, avail, o')
    ensures o == o'
  {
    if o.Some? && o'.Some? {
      assert o.value in avail && o'.value in avail;
    }
  }

  lemma {:induction false} GreedyUnique(r: Ranking, pool: set<DiskCandidate>, slots: seq<ReplicaSlotSpec>,
                                        res: seq<Option<DiskCandidate>>, res': seq<Option<DiskCandidate>>, n: nat)
    requires Greedy(r, pool, slots, res) && Greedy(r, pool, slots, res')
    requires n <= |slots|
    ensures res[..n] == res'[..n]
  {
    if n > 0 {
      GreedyUnique(r, pool, slots, res, res', n - 1);
      BestUnique(r, Available(pool, Used(res[..n - 1]), slots[n - 1]), res[n - 1], res'[n - 1]);
      assert res[..n] == res[..n - 1] + [res[n - 1]];
      assert res'[..n] == res'[..n - 1] + [res'[n - 1]];
    }
  }

  /** Listing the same disks in another order places the same disks on the same slots. */
  lemma OrderIndependent(r: Ranking, cands: seq<DiskCandidate>, cands': seq<DiskCandidate>, slots: seq<ReplicaSlotSpec>,
                         out: seq<nat>, out': seq<nat>)
    requires |cands| < UNPLACED && |cands'| < UNPLACED
    requires DistinctSeq(cands) && DistinctSeq(cands') && SetOf(cands) == SetOf(cands')
    requires IsPlacement(r, cands, slots, out) && IsPlacement(r, cands', slots, out')
    ensures forall i :: 0 <= i < |out| ==> out[i] == UNPLACED || out[i] < |cands|
    ensures forall i :: 0 <= i < |out'| ==> out'[i] == UNPLACED || out'[i] < |cands'|
    ensures Resolve(cands, out) == Resolve(cands', out')
  {
    PlacementIsGreedy(r, cands, slots, out);
    PlacementIsGreedy(r, cands', slots, out');
    var res, res' := Resolve(cands, out), Resolve(cands', out');
    GreedyUnique(r, SetOf(cands), slots, res, res', |slots|);
    assert res == res[..|slots|] && res' == res'[..|slots|];
  }

  // ---- replicas never collide ----

  lemma GreedyDistinct(r: Ranking, pool: set<DiskCandidate>, slots: seq<ReplicaSlotSpec>,
                       res: seq<Option<DiskCandidate>>,
                       i: nat, j: nat)
    requires DistinctIds(pool) && Greedy(r, pool, slots, res)
    requires i < j < |res| && res[i].Some? && res[j].Some?
    ensures !SameId(res[i].value, res[j].value)
  {
    assert Best(r, Available(pool, Used(res[..i]), slots[i]), res[i]);
    assert Best(r, Available(pool, Used(res[..j]), slots[j]), res[j]);
    assert res[..j][i] == res[i];
    assert res[i].value in Used(res[..j]);
  }

  // ---- stability when a disk joins or leaves ----

  /** How the disks taken so far differ after `d` joined: not at all, `d` in place of one disk, or `d` in addition. */
  datatype Drift = Same | Displaced(out: DiskCandidate) | Extra

  ghost predicate Drifted(u: set<DiskCandidate>, u': set<DiskCandidate>, d: DiskCandidate, f: Drift)
  {
    match f
    case Same => u' == u
    case Displaced(e) => e in u && u' == u - {e} + {d}
    case Extra => u' == u + {d}
  }

  /** One slot: the drift changes shape but stays a drift, and a filled slot stays filled. */
  lemma DriftStep(r: Ranking, pool: set<DiskCandidate>, d: DiskCandidate, slot: ReplicaSlotSpec,
                  u: set<DiskCandidate>, u': set<DiskCandidate>, f: Drift,
                  o: Option<DiskCandidate>, o': Option<DiskCandidate>) returns (g: Drift)
    requires d !in pool && u <= pool
    requires Drifted(u, u', d, f)
    requires Best(r, Available(pool, u, slot), o)
    requires Best(r, Available(pool + {d}, u', slot), o')
    ensures Drifted(u + (if o.Some? then {o.value} else {}), u' + (if o'.Some? then {o'.value} else {}), d, g)
    ensures o.Some? ==> o'.Some?
  {
    var av, av' := Available(pool, u, slot), Available(pool + {d}, u', slot);
    match f {
      case Same =>
        assert av' == av || av' == av + {d};
        if o' == Some(d) {
          g := if o.Some? then Displaced(o.value) else Extra;
        } else {
          BestWithout(r, av, av', d, o, o');
          g := Same;
        }
      case Displaced(e) =>
        assert av' == av || av' == av + {e};
        if o' == Some(e) {
          g := if o.Some? then Displaced(o.value) else Extra;
        } else {
          BestWithout(r, av, av', e, o, o');
          g := Displaced(e);
        }
      case Extra =>
        assert av' == av;
        BestUnique(r, av, o, o');
        g := Extra;
    }
  }

  /** A new candidate that is not chosen does not change the choice. */
  lemma BestWithout(r: Ranking, av: set<DiskCandidate>, av': set<DiskCandidate>, d: DiskCandidate,
                    o: Option<DiskCandidate>, o': Option<DiskCandidate>)
    requires av' == av || av' == av + {d}
    requires Best(r, av, o) && Best(r, av', o') && o' != Some(d)
    ensures o == o'
  {
    if o'.None? {
      assert av == {};
    } else {
      assert Best(r, av, o');
    }
    BestUnique(r, av, o, o');
  }

  lemma UsedInPool(r: Ranking, pool: set<DiskCandidate>, slots: seq<ReplicaSlotSpec>, res: seq<Option<DiskCandidate>>,
                   n: nat)
    requires Greedy(r, pool, slots, res) && n <= |res|
    ensures Used(res[..n]) <= pool
  {
    forall c | c in Used(res[..n])
      ensures c in pool
    {
      var k :| 0 <= k < n && res[..n][k].Some? && res[..n][k].value == c;
      assert Best(r, Available(pool, Used(res[..k]), slots[k]), res[k]);
    }
  }

  /** Of the first `n` slots, those placed before are placed after. */
  ghost predicate StillPlaced(res: seq<Option<DiskCandidate>>, res': seq<Option<DiskCandidate>>, n: nat)
    requires n <= |res| && n <= |res'|
  {
    forall i :: 0 <= i < n && res[i].Some? ==> res'[i].Some?
  }

  lemma DriftAfter(r: Ranking, pool: set<DiskCandidate>, d: DiskCandidate, slots: seq<ReplicaSlotSpec>,
                   res: seq<Option<DiskCandidate>>, res': seq<Option<DiskCandidate>>, n: nat)
    returns (f: Drift)
    requires d !in pool
    requires Greedy(r, pool, slots, res) && Greedy(r, pool + {d}, slots, res')
    requires n <= |slots|
    ensures DriftedTo(res, res', d, n, f)
  {
    f := Same;
    assert Used(res[..0]) == {} && Used(res'[..0]) == {};
    var k := 0;
    while k < n
      invariant 0 <= k <= n && DriftedTo(res, res', d, k, f)
    {
      var next := k + 1;
      f := DriftNext(r, pool, d, slots, res, res', k, next, f);
      k := next;
    }
  }

  /** The drift over the first `n` slots. */
  ghost predicate DriftedTo(res: seq<Option<DiskCandidate>>, res': seq<Option<DiskCandidate>>, d: DiskCandidate,
                            n: nat, f: Drift)
  {
    n <= |res| && n <= |res'| && Drifted(Used(res[..n]), Used(res'[..n]), d, f) && StillPlaced(res, res', n)
  }

  lemma DriftNext(r: Ranking, pool: set<DiskCandidate>, d: DiskCandidate, slots: seq<ReplicaSlotSpec>,
                  res: seq<Option<DiskCandidate>>, res': seq<Option<DiskCandidate>>, n: nat, next: nat, g: Drift)
    returns (f: Drift)
    requires d !in pool
    requires Greedy(r, pool, slots, res) && Greedy(r, pool + {d}, slots, res')
    requires next == n + 1 <= |slots| && DriftedTo(res, res', d, n, g)
    ensures DriftedTo(res, res', d, next, f)
  {
    var u, u' := Used(res[..n]), Used(res'[..n]);
    UsedInPool(r, pool, slots, res, n);
    UsedSnoc(res, n);
    UsedSnoc(res', n);
    assert Best(r, Available(pool, u, slots[n]), res[n]);
    assert Best(r, Available(pool + {d}, u', slots[n]), res'[n]);
    f := DriftStep(r, pool, d, slots[n], u, u', g, res[n], res'[n]);
  }

  /** A joining disk that ends up unused changes nothing. */
  lemma {:induction false} UnusedJoin(r: Ranking, pool: set<DiskCandidate>, d: DiskCandidate,
                                      slots: seq<ReplicaSlotSpec>,
                                      res: seq<Option<DiskCandidate>>, res': seq<Option<DiskCandidate>>, n: nat)
    requires d !in pool
    requires Greedy(r, pool, slots, res) && Greedy(r, pool + {d}, slots, res')
    requires n <= |slots| && Some(d) !in res'
    ensures res[..n] == res'[..n]
  {
    if n > 0 {
      UnusedJoin(r, pool, d, slots, res, res', n - 1);
      var u := Used(res[..n - 1]);
      var av, av' := Available(pool, u, slots[n - 1]), Available(pool + {d}, u, slots[n - 1]);
      assert Best(r, av, res[n - 1]) && Best(r, av', res'[n - 1]);
      assert av' == av || av' == av + {d};
      BestWithout(r, av, av', d, res[n - 1], res'[n - 1]);
      PrefixSnoc(res, n - 1);
      PrefixSnoc(res', n - 1);
    }
  }

  lemma PrefixSnoc(res: seq<Option<DiskCandidate>>, n: nat)
    requires n < |res|
    ensures res[..n + 1] == res[..n] + [res[n]]
  {
  }

  /** Adding one disk: only that disk can be new, at most one disk is dropped, no filled slot
      becomes unplaced, and if the new disk is not used nothing changes at all. */
  lemma JoinIsStable(r: Ranking, pool: set<DiskCandidate>, d: DiskCandidate, slots: seq<ReplicaSlotSpec>,
                     res: seq<Option<DiskCandidate>>, res': seq<Option<DiskCandidate>>)
    requires d !in pool
    requires Greedy(r, pool, slots, res) && Greedy(r, pool + {d}, slots, res')
    ensures Used(res') <= Used(res) + {d}
    ensures |Used(res) - Used(res')| <= 1
    ensures forall i :: 0 <= i < |slots| && res[i].Some? ==> res'[i].Some?
    ensures d !in Used(res') ==> res' == res
  {
    var n := |slots|;
    var f := DriftAfter(r, pool, d, slots, res, res', n);
    assert res[..n] == res && res'[..n] == res';
    UsedInPool(r, pool, slots, res, n);
    if d !in Used(res') {
      UnusedJoin(r, pool, d, slots, res, res', n);
    }
    match f {
      case Same => assert Used(res) - Used(res') == {};
      case Displaced(e) => assert Used(res) - Used(res') == {e};
      case Extra => assert Used(res) - Used(res') == {};
    }
  }

  /** Removing one disk: everything else it held stays, and at most one disk is pulled in. */
  lemma LeaveIsStable(r: Ranking, pool: set<DiskCandidate>, d: DiskCandidate, slots: seq<ReplicaSlotSpec>,
                      res: seq<Option<DiskCandidate>>, res': seq<Option<DiskCandidate>>)
    requires d in pool
    requires Greedy(r, pool, slots, res) && Greedy(r, pool - {d}, slots, res')
    ensures Used(res) - {d} <= Used(res')
    ensures |Used(res') - Used(res)| <= 1
    ensures d !in Used(res) ==> res' == res
  {
    assert pool - {d} + {d} == pool;
    JoinIsStable(r, pool - {d}, d, slots, res', res);
  }

  // ---- rank monotonicity ----

  /** The same disk with another weight. */
  predicate Reweighted(c: DiskCandidate, c': DiskCandidate)
  {
    c' == c.(weightMilli := c'.weightMilli)
  }

  lemma WeightOrder(r: Ranking, c: DiskCandidate, c': DiskCandidate, b: DiskCandidate)
    requires Reweighted(c, c') && c.weightMilli <= c'.weightMilli
    ensures r.Prefers(b, c') ==> r.Prefers(b, c)
    ensures r.Prefers(c, b) ==> r.Prefers(c', b)
  {
    var raw := r.hash(c.idHi * U64 + c.idLo, r.key);
    ScoreMono(raw, raw, c.weightMilli, c'.weightMilli);
    HigherScore(r.Rank(c), r.Rank(c'), r.Rank(b));
  }

  lemma HigherScore(x: Ranked, x': Ranked, y: Ranked)
    requires x' == x.(score := x'.score) && x.score <= x'.score
    ensures Beats(y, x') ==> Beats(y, x)
    ensures Beats(x, y) ==> Beats(x', y)
  {
  }

  /** Before the reweighted disk is chosen in either run, the runs agree. */
  lemma ReweightStep(r: Ranking, rest: set<DiskCandidate>, used: set<DiskCandidate>, c: DiskCandidate,
                     c': DiskCandidate,
                     slot: ReplicaSlotSpec, o: Option<DiskCandidate>, o': Option<DiskCandidate>)
    requires Reweighted(c, c') && c !in rest && c' !in rest && used <= rest
    requires Best(r, Available(rest + {c}, used, slot), o) && Best(r, Available(rest + {c'}, used, slot), o')
    requires o != Some(c) && o' != Some(c')
    ensures o == o'
  {
    var av := Available(rest, used, slot);
    if Accepts(slot, c) {
      assert Available(rest + {c}, used, slot) == av + {c};
      assert Available(rest + {c'}, used, slot) == av + {c'};
    } else {
      assert Available(rest + {c}, used, slot) == av;
      assert Available(rest + {c'}, used, slot) == av;
    }
    assert Best(r, av, o) by { DropUnchosen(r, av, Available(rest + {c}, used, slot), c, o); }
    assert Best(r, av, o') by { DropUnchosen(r, av, Available(rest + {c'}, used, slot), c', o'); }
    BestUnique(r, av, o, o');
  }

  lemma DropUnchosen(r: Ranking, av: set<DiskCandidate>, av': set<DiskCandidate>, d: DiskCandidate,
                     o: Option<DiskCandidate>)
    requires av' == av || av' == av + {d}
    requires Best(r, av', o) && o != Some(d)
    ensures Best(r, av, o)
  {
    if o.None? { assert av <= av'; }
  }

  lemma {:induction false} ReweightAgree(r: Ranking, rest: set<DiskCandidate>, c: DiskCandidate, c': DiskCandidate,
                                         slots: seq<ReplicaSlotSpec>, res: seq<Option<DiskCandidate>>,
                                         res': seq<Option<DiskCandidate>>, n: nat)
    requires Reweighted(c, c') && c !in rest && c' !in rest
    requires Greedy(r, rest + {c}, slots, res) && Greedy(r, rest + {c'}, slots, res')
    requires n <= |slots| && Some(c) !in res[..n] && Some(c') !in res'[..n]
    ensures res[..n] == res'[..n]
    ensures Used(res[..n]) <= rest
  {
    if n > 0 {
      var a, a' := res[..n], res'[..n];
      assert a == res[..n - 1] + [res[n - 1]] && a' == res'[..n - 1] + [res'[n - 1]];
      assert a[n - 1] == res[n - 1] && a'[n - 1] == res'[n - 1];
      ReweightAgree(r, rest, c, c', slots, res, res', n - 1);
      ReweightStep(r, rest, Used(res[..n - 1]), c, c', slots[n - 1], res[n - 1], res'[n - 1]);
      UsedSnoc(res, n - 1);
      UsedInPool(r, rest + {c}, slots, res, n);
    }
  }

  /** Raising the weight of a placed disk keeps it placed, whatever the mix of slots. */
  lemma RaisedWeightStaysPlaced(r: Ranking, rest: set<DiskCandidate>, c: DiskCandidate, c': DiskCandidate,
                                slots: seq<ReplicaSlotSpec>, res: seq<Option<DiskCandidate>>,
                                    res': seq<Option<DiskCandidate>>)
    requires Reweighted(c, c') && c.weightMilli <= c'.weightMilli && c !in rest && c' !in rest
    requires Greedy(r, rest + {c}, slots, res) && Greedy(r, rest + {c'}, slots, res')
    requires Some(c) in res
    ensures Some(c') in res'
  {
    var n := FirstIndex(res, Some(c));
    if Some(c') !in res' {
      assert Some(c') !in res'[..n];
      ReweightAgree(r, rest, c, c', slots, res, res', n);
      var used := Used(res[..n]);
      var av, av' := Available(rest + {c}, used, slots[n]), Available(rest + {c'}, used, slots[n]);
      assert Best(r, av, res[n]) && Best(r, av', res'[n]);
      assert Accepts(slots[n], c') && c' in av';
      assert res'[n] != Some(c');
      var b := res'[n].value;
      assert b in av && r.Prefers(b, c');
      WeightOrder(r, c, c', b);
    }
  }

  function FirstIndex<T(==)>(s: seq<T>, x: T): (n: nat)
    requires x in s
    ensures n < |s| && s[n] == x && x !in s[..n]
  {
    if s[0] == x then 0
    else
      var k := FirstIndex(s[1..], x);
      assert s[..k + 1] == [s[0]] + s[1..][..k];
      k + 1
  }

  /** Lowering the weight of an unplaced disk leaves the whole placement unchanged. */
  lemma LoweredWeightChangesNothing(r: Ranking, rest: set<DiskCandidate>, c: DiskCandidate, c': DiskCandidate,
                                    slots: seq<ReplicaSlotSpec>, res: seq<Option<DiskCandidate>>,
                                    res': seq<Option<DiskCandidate>>)
    requires Reweighted(c, c') && c'.weightMilli <= c.weightMilli && c !in rest && c' !in rest
    requires Greedy(r, rest + {c}, slots, res) && Greedy(r, rest + {c'}, slots, res')
    requires Some(c) !in res
    ensures res' == res
  {
    if Some(c') in res' {
      RaisedWeightStaysPlaced(r, rest, c', c, slots, res', res);
    }
    assert res == res[..|slots|] && res' == res'[..|slots|];
    ReweightAgree(r, rest, c, c', slots, res, res', |slots|);
  }

  // ---- the uniform case ----

  /** With all-any slots the result is the ranking itself: strictly decreasing, ahead of every active
      disk left out, and as long as the pool allows. */
  lemma UniformIsTopRanked(r: Ranking, pool: set<DiskCandidate>, n: nat, res: seq<Option<DiskCandidate>>, k: nat)
    requires Greedy(r, pool, seq(n, _ => ANY_SLOT), res)
    requires k < n
    ensures res[k].Some? ==> forall c :: c in pool && c.active != 0 && c !in Used(res[..k + 1]) ==>
            r.Prefers(res[k].value, c)
    ensures res[k].None? ==> forall c :: c in pool && c.active != 0 ==> c in Used(res[..k])
    ensures res[k].Some? ==> forall i :: 0 <= i < k ==> res[i].Some? && r.Prefers(res[i].value, res[k].value)
  {
    var avail := Available(pool, Used(res[..k]), ANY_SLOT);
    assert Best(r, avail, res[k]);
    UsedSnoc(res, k);
    if res[k].None? {
      forall c | c in pool && c.active != 0 ensures c in Used(res[..k]) {
        assert c in avail || c in Used(res[..k]);
      }
    } else {
      forall c | c in pool && c.active != 0 && c !in Used(res[..k + 1]) ensures r.Prefers(res[k].value, c) {
        assert c in avail;
      }
      forall i | 0 <= i < k
        ensures res[i].Some? && r.Prefers(res[i].value, res[k].value)
      {
        UniformEarlier(r, pool, n, res, i, k);
      }
    }
  }

  lemma UniformEarlier(r: Ranking, pool: set<DiskCandidate>, n: nat, res: seq<Option<DiskCandidate>>, i: nat, k: nat)
    requires Greedy(r, pool, seq(n, _ => ANY_SLOT), res)
    requires i < k < n && res[k].Some?
    ensures res[i].Some? && r.Prefers(res[i].value, res[k].value)
  {
    assert Best(r, Available(pool, Used(res[..k]), ANY_SLOT), res[k]);
    var c := res[k].value;
    var av := Available(pool, Used(res[..i]), ANY_SLOT);
    assert Best(r, av, res[i]);
    UsedMono(res, i, k);
    assert c in av;
    assert res[..k][i] == res[i];
    assert res[i].Some? ==> res[i].value in Used(res[..k]);
  }

  /** As many slots are filled as there are active disks, up to the number of slots. */
  lemma UniformCount(r: Ranking, pool: set<DiskCandidate>, n: nat, res: seq<Option<DiskCandidate>>, k: nat)
    requires Greedy(r, pool, seq(n, _ => ANY_SLOT), res)
    requires k <= n
    ensures |Used(res[..k])| == Min(k, |ActiveIn(pool)|)
  {
    assert Used(res[..0]) == {};
    var i := 0;
    while i < k
      invariant 0 <= i <= k && |Used(res[..i])| == Min(i, |ActiveIn(pool)|)
    {
      CountNext(r, pool, n, res, i);
      i := i + 1;
    }
  }

  lemma CountNext(r: Ranking, pool: set<DiskCandidate>, n: nat, res: seq<Option<DiskCandidate>>, k: nat)
    requires Greedy(r, pool, seq(n, _ => ANY_SLOT), res) && k < n
    requires |Used(res[..k])| == Min(k, |ActiveIn(pool)|)
    ensures |Used(res[..k + 1])| == Min(k + 1, |ActiveIn(pool)|)
    ensures res[k].Some? ==> k < |ActiveIn(pool)|
  {
    UsedSnoc(res, k);
    UniformUsedActive(r, pool, n, res, k);
    UniformNext(r, pool, n, res, k);
  }

  ghost function ActiveIn(pool: set<DiskCandidate>): set<DiskCandidate>
  {
    set c | c in pool && c.active != 0
  }

  lemma UniformNext(r: Ranking, pool: set<DiskCandidate>, n: nat, res: seq<Option<DiskCandidate>>, k: nat)
    requires Greedy(r, pool, seq(n, _ => ANY_SLOT), res) && k < n
    requires Used(res[..k]) <= ActiveIn(pool)
    ensures res[k].None? ==> Used(res[..k]) == ActiveIn(pool)
    ensures res[k].Some? ==> |Used(res[..k]) + {res[k].value}| == |Used(res[..k])| + 1 <= |ActiveIn(pool)|
  {
    var u := Used(res[..k]);
    var av := Available(pool, u, ANY_SLOT);
    assert Best(r, av, res[k]);
    assert av == ActiveIn(pool) - u;
    if res[k].Some? {
      TakeOne(ActiveIn(pool), u, res[k].value);
    }
  }

  lemma TakeOne(all: set<DiskCandidate>, u: set<DiskCandidate>, c: DiskCandidate)
    requires u <= all && c in all - u
    ensures |u + {c}| == |u| + 1 && |u| < |all|
  {
    assert all == (all - u) + u;
  }

  lemma UniformUsedActive(r: Ranking, pool: set<DiskCandidate>, n: nat, res: seq<Option<DiskCandidate>>, k: nat)
    requires Greedy(r, pool, seq(n, _ => ANY_SLOT), res) && k <= n
    ensures Used(res[..k]) <= ActiveIn(pool)
  {
    forall c | c in Used(res[..k])
      ensures c in pool && c.active != 0
    {
      var j :| 0 <= j < k && res[..k][j].Some? && res[..k][j].value == c;
      assert Best(r, Available(pool, Used(res[..j]), ANY_SLOT), res[j]);
    }
  }

  /** What a selection returns, in the terms `HrwSelect` promises: filled slots that stop short of
      `want` only when nothing is left. */
  ghost predicate IsSelection(r: Ranking, cands: seq<DiskCandidate>, want: nat, sel: seq<nat>)
  {
    && |sel| <= want && UNPLACED !in sel && IsPlacement(r, cands, seq(|sel|, _ => ANY_SLOT), sel)
    && (|sel| < want ==> Chooses(r, cands, sel, ANY_SLOT, UNPLACED))
  }

  /** A selection is the top of the ranking: as many disks as wanted or as are active, in strictly
      decreasing rank, each ahead of every active disk that was not selected. */
  lemma SelectionIsTop(r: Ranking, cands: seq<DiskCandidate>, want: nat, sel: seq<nat>)
    requires |cands| < UNPLACED && DistinctSeq(cands) && IsSelection(r, cands, want, sel)
    ensures forall i :: 0 <= i < |sel| ==> sel[i] < |cands|
    ensures |sel| == Min(want, |ActiveIn(SetOf(cands))|)
    ensures forall i, j :: 0 <= i < j < |sel| ==> r.Prefers(cands[sel[i]], cands[sel[j]])
    ensures forall i, j :: 0 <= i < |sel| && 0 <= j < |cands| && cands[j].active != 0 && j !in sel ==>
            r.Prefers(cands[sel[i]], cands[j])
  {
    var n, pool := |sel|, SetOf(cands);
    PlacementIsGreedy(r, cands, seq(n, _ => ANY_SLOT), sel);
    var res := Resolve(cands, sel);
    assert res[..n] == res;
    SelectionFills(r, cands, want, sel);
    forall i, j | 0 <= i < j < n
      ensures r.Prefers(cands[sel[i]], cands[sel[j]])
    {
      UniformEarlier(r, pool, n, res, i, j);
    }
    forall i, j | 0 <= i < n && 0 <= j < |cands| && cands[j].active != 0 && j !in sel
      ensures r.Prefers(cands[sel[i]], cands[j])
    {
      UniformIsTopRanked(r, pool, n, res, i);
      UsedMono(res, i + 1, n);
      UsedIndex(cands, sel, j);
    }
  }

  lemma SelectionFills(r: Ranking, cands: seq<DiskCandidate>, want: nat, sel: seq<nat>)
    requires |cands| < UNPLACED && DistinctSeq(cands) && IsSelection(r, cands, want, sel)
    ensures |sel| == Min(want, |ActiveIn(SetOf(cands))|)
  {
    var n := |sel|;
    PlacementIsGreedy(r, cands, seq(n, _ => ANY_SLOT), sel);
    var res := Resolve(cands, sel);
    if n > 0 {
      assert res[n - 1].Some?;
      UniformCount(r, SetOf(cands), n, res, n - 1);
      CountNext(r, SetOf(cands), n, res, n - 1);
    }
    if n < want {
      ChoosesIsBest(r, cands, sel, ANY_SLOT, UNPLACED);
      AllTaken(r, SetOf(cands), n, res);
    }
  }

  lemma AllTaken(r: Ranking, pool: set<DiskCandidate>, n: nat, res: seq<Option<DiskCandidate>>)
    requires Greedy(r, pool, seq(n, _ => ANY_SLOT), res) && Available(pool, Used(res), ANY_SLOT) == {}
    ensures |ActiveIn(pool)| <= n
  {
    assert res[..n] == res;
    UniformCount(r, pool, n, res, n);
    UniformUsedActive(r, pool, n, res, n);
    var used, active := Used(res), ActiveIn(pool);
    forall c | c in active
      ensures c in used
    {
      assert c in Available(pool, used, ANY_SLOT) || c in used;
    }
    assert used == active;
  }

  lemma ChoosesUnique(r: Ranking, cands: seq<DiskCandidate>, used: seq<nat>, slot: ReplicaSlotSpec, x: nat, y: nat)
    requires |cands| < UNPLACED
    requires Chooses(r, cands, used, slot, x) && Chooses(r, cands, used, slot, y)
    ensures x == y
  {
    if x != UNPLACED {
      assert Free(cands, used, slot, x);
    }
    if y != UNPLACED {
      assert Free(cands, used, slot, y);
    }
  }

  /** `place_redundancy` on all-any slots returns what `hrw_select` selects, followed only by UNPLACED
      (for any candidate list, distinct ids or not). */
  lemma {:induction false} UniformMatchesSelect(r: Ranking, cands: seq<DiskCandidate>, n: nat, out: seq<nat>,
                                                sel: seq<nat>, k: nat)
    requires |cands| < UNPLACED
    requires IsPlacement(r, cands, seq(n, _ => ANY_SLOT), out)
    requires |sel| <= n && IsPlacement(r, cands, seq(|sel|, _ => ANY_SLOT), sel)
    requires |sel| < n ==> Chooses(r, cands, sel, ANY_SLOT, UNPLACED)
    requires k <= n
    ensures forall i :: 0 <= i < k ==> out[i] == if i < |sel| then sel[i] else UNPLACED
  {
    if k > 0 {
      UniformMatchesSelect(r, cands, n, out, sel, k - 1);
      var i := k - 1;
      assert Chooses(r, cands, out[..i], ANY_SLOT, out[i]);
      if i < |sel| {
        assert out[..i] == sel[..i];
        assert Chooses(r, cands, sel[..i], ANY_SLOT, sel[i]);
        ChoosesUnique(r, cands, out[..i], ANY_SLOT, out[i], sel[i]);
      } else {
        assert out[..|sel|] == sel;
        assert forall j :: j < |cands| && j in out[..i] ==> j in sel;
        assert forall j :: j in sel ==> j in out[..i] by {
          forall j | j in sel ensures j in out[..i] {
            var t :| 0 <= t < |sel| && sel[t] == j;
            assert out[..i][t] == j;
          }
        }
        ChoosesSameUsed(r, cands, sel, out[..i], ANY_SLOT, UNPLACED);
        ChoosesUnique(r, cands, out[..i], ANY_SLOT, out[i], UNPLACED);
      }
    }
  }

  // ---- greedy is not a maximum matching ----

  /** An `any` slot can take the only SSD and leave a following `ssd` slot unplaced, although the two
      disks could satisfy both slots: this happens exactly when the SSD outranks the other disk. */
  lemma GreedyMissesMatching(r: Ranking, ssd: DiskCandidate, hdd: DiskCandidate, res: seq<Option<DiskCandidate>>)
    requires ssd.active != 0 && hdd.active != 0 && ssd.cls == 2 && hdd.cls == 1
    requires !SameId(ssd, hdd)
    requires Greedy(r, {ssd, hdd}, [ANY_SLOT, ClassSlot(2)], res)
    ensures res[1].None? <==> r.Prefers(ssd, hdd)
  {
    var pool := {ssd, hdd};
    assert Used(res[..0]) == {};
    assert Best(r, Available(pool, {}, ANY_SLOT), res[0]);
    assert ssd in Available(pool, {}, ANY_SLOT) && hdd in Available(pool, {}, ANY_SLOT);
    UsedSnoc(res, 0);
    var used := Used(res[..1]);
    assert used == {res[0].value};
    assert Best(r, Available(pool, used, ClassSlot(2)), res[1]);
    PrefersTotal(r, ssd, hdd);
    if r.Prefers(ssd, hdd) {
      assert res[0] == Some(ssd);
      assert Available(pool, used, ClassSlot(2)) == {};
    } else {
      assert res[0] == Some(hdd);
      assert ssd in Available(pool, used, ClassSlot(2));
    }
  }
}

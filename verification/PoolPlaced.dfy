/** What a placement is, in the pool's own terms: disks of the pool map, the class or disk each slot asks
    for, and weight over distance as the order among the disks that serve it. */
module PoolPlaced {
  import opened Proto
  import opened Arith
  import opened Placement
  import opened PlacementLaws
  import opened PoolPlacement
  import opened PoolConfig
  import PlacementOrder

  /** The disk may hold a replica of the slot: active, in the role, and of the class or the very disk that
      the slot asks for. */
  predicate Serves(disks: map<DiskId, DiskEntry>, role: Role, slot: ReplicaSlot, id: DiskId)
  {
    && id in disks && role(disks[id]) && disks[id].state.Active?
    && match slot
       case AnyOfClass(None) => true
       case AnyOfClass(Some(c)) => disks[id].cls == c
       case Pinned(p) => id == p
  }

  /** Disk `x` comes before disk `y`: weight over distance, then the hash, then the id. */
  ghost predicate Outranks(r: Ranking, disks: map<DiskId, DiskEntry>, milli: Milli, x: DiskId, y: DiskId)
    requires x in disks && y in disks
  {
    Outweighs(milli(disks[x].weight), r.hash(x, r.key), x, milli(disks[y].weight), r.hash(y, r.key), y)
  }

  /** A disk that serves the slot and was not taken by an earlier one. */
  ghost predicate Open(disks: map<DiskId, DiskEntry>, role: Role, slot: ReplicaSlot, taken: seq<Option<DiskId>>,
                       id: DiskId)
  {
    Serves(disks, role, slot, id) && Some(id) !in taken
  }

  /** One slot is filled as it should be: by the first of the disks open to it, or not at all when there is
      none. */
  ghost predicate Right(r: Ranking, disks: map<DiskId, DiskEntry>, role: Role, milli: Milli, slot: ReplicaSlot,
                        taken: seq<Option<DiskId>>, o: Option<DiskId>)
  {
    match o
    case None => forall y :: !Open(disks, role, slot, taken, y)
    case Some(x) =>
      && Open(disks, role, slot, taken, x)
      && forall y :: Open(disks, role, slot, taken, y) && y != x ==> Outranks(r, disks, milli, x, y)
  }

  ghost predicate AllRight(r: Ranking, disks: map<DiskId, DiskEntry>, role: Role, milli: Milli, slots: seq<ReplicaSlot>,
                           res: seq<Option<DiskId>>)
  {
    && |res| == Min(|slots|, MAX_SELECT)
    && forall i :: 0 <= i < |res| ==> Right(r, disks, role, milli, slots[i], res[..i], res[i])
  }

  // ---- disks and candidates ----

  /** A slot's specification accepts the candidate of exactly the disks that serve the slot. */
  lemma AcceptsIff(disks: map<DiskId, DiskEntry>, role: Role, milli: Milli, slot: ReplicaSlot, id: DiskId)
    requires id in disks && role(disks[id])
    ensures Accepts(SlotToSpec(slot), ToCandidate(id, disks[id], milli)) <==> Serves(disks, role, slot, id)
  {
  }

  lemma CandidateNumber(id: DiskId, e: DiskEntry, milli: Milli)
    requires id < U128
    ensures var c := ToCandidate(id, e, milli);
            IdNumber(c) == id && IdOf(c) == id && c.idLo < U64 && c.weightMilli == milli(e.weight)
  {
  }

  lemma PrefersDisk(r: Ranking, disks: map<DiskId, DiskEntry>, milli: Milli, x: DiskId, y: DiskId)
    requires x in disks && y in disks && IdsFit(disks)
    ensures r.Prefers(ToCandidate(x, disks[x], milli), ToCandidate(y, disks[y], milli))
            <==> Outranks(r, disks, milli, x, y)
  {
    CandidateNumber(x, disks[x], milli);
    CandidateNumber(y, disks[y], milli);
    PrefersIff(r, ToCandidate(x, disks[x], milli), ToCandidate(y, disks[y], milli));
  }

  /** The candidates behind a list of disks. */
  ghost predicate Behind(disks: map<DiskId, DiskEntry>, role: Role, milli: Milli, res: seq<Option<DiskId>>,
                         g: seq<Option<DiskCandidate>>)
  {
    |g| == |res| && forall i :: 0 <= i < |res| ==> BehindAt(disks, role, milli, res[i], g[i])
  }

  ghost predicate BehindAt(disks: map<DiskId, DiskEntry>, role: Role, milli: Milli, o: Option<DiskId>,
                           c: Option<DiskCandidate>)
  {
    match o
    case None => c.None?
    case Some(id) => id in disks && role(disks[id]) && c == Some(ToCandidate(id, disks[id], milli))
  }

  lemma UsedIff(disks: map<DiskId, DiskEntry>, role: Role, milli: Milli, res: seq<Option<DiskId>>,
                g: seq<Option<DiskCandidate>>, id: DiskId)
    requires IdsFit(disks) && Behind(disks, role, milli, res, g) && id in disks
    ensures ToCandidate(id, disks[id], milli) in Used(g) <==> Some(id) in res
  {
    var c := ToCandidate(id, disks[id], milli);
    CandidateNumber(id, disks[id], milli);
    if Some(id) in res {
      var k :| 0 <= k < |res| && res[k] == Some(id);
      assert BehindAt(disks, role, milli, res[k], g[k]);
    }
    if c in Used(g) {
      var k :| 0 <= k < |g| && g[k].Some? && g[k].value == c;
      assert BehindAt(disks, role, milli, res[k], g[k]);
      CandidateNumber(res[k].value, disks[res[k].value], milli);
    }
  }

  lemma AvailableIff(disks: map<DiskId, DiskEntry>, role: Role, milli: Milli, slot: ReplicaSlot,
                     taken: seq<Option<DiskId>>, g: seq<Option<DiskCandidate>>, id: DiskId)
    requires IdsFit(disks) && Behind(disks, role, milli, taken, g) && id in disks && role(disks[id])
    ensures ToCandidate(id, disks[id], milli) in Available(CandidateSet(disks, role, milli), Used(g), SlotToSpec(slot))
            <==> Open(disks, role, slot, taken, id)
  {
    UsedIff(disks, role, milli, taken, g, id);
    AcceptsIff(disks, role, milli, slot, id);
  }

  /** One slot: the best available candidate is the candidate of the right disk, both ways. */
  lemma BestIff(r: Ranking, disks: map<DiskId, DiskEntry>, role: Role, milli: Milli, slot: ReplicaSlot,
                taken: seq<Option<DiskId>>, g: seq<Option<DiskCandidate>>, o: Option<DiskId>, c: Option<DiskCandidate>)
    requires IdsFit(disks) && Behind(disks, role, milli, taken, g) && BehindAt(disks, role, milli, o, c)
    ensures Best(r, Available(CandidateSet(disks, role, milli), Used(g), SlotToSpec(slot)), c)
            <==> Right(r, disks, role, milli, slot, taken, o)
  {
    var avail := Available(CandidateSet(disks, role, milli), Used(g), SlotToSpec(slot));
    forall id | id in disks && role(disks[id])
      ensures ToCandidate(id, disks[id], milli) in avail <==> Open(disks, role, slot, taken, id)
    {
      AvailableIff(disks, role, milli, slot, taken, g, id);
    }
    if o.Some? {
      BestSomeIff(r, disks, role, milli, slot, taken, avail, o.value);
    } else {
      BestNoneIff(disks, role, milli, slot, taken, avail);
    }
  }

  ghost predicate Mirrors(disks: map<DiskId, DiskEntry>, role: Role, milli: Milli, slot: ReplicaSlot,
                          taken: seq<Option<DiskId>>, avail: set<DiskCandidate>)
  {
    && avail <= CandidateSet(disks, role, milli)
    && forall id :: id in disks && role(disks[id]) ==>
         (ToCandidate(id, disks[id], milli) in avail <==> Open(disks, role, slot, taken, id))
  }

  lemma BestNoneIff(disks: map<DiskId, DiskEntry>, role: Role, milli: Milli, slot: ReplicaSlot,
                    taken: seq<Option<DiskId>>, avail: set<DiskCandidate>)
    requires Mirrors(disks, role, milli, slot, taken, avail)
    ensures avail == {} <==> forall y :: !Open(disks, role, slot, taken, y)
  {
    if y :| Open(disks, role, slot, taken, y) {
      assert ToCandidate(y, disks[y], milli) in avail;
    }
    if avail != {} {
      var c :| c in avail;
      var id :| id in disks && role(disks[id]) && ToCandidate(id, disks[id], milli) == c;
      assert Open(disks, role, slot, taken, id);
    }
  }

  lemma BestSomeIff(r: Ranking, disks: map<DiskId, DiskEntry>, role: Role, milli: Milli, slot: ReplicaSlot,
                    taken: seq<Option<DiskId>>, avail: set<DiskCandidate>, x: DiskId)
    requires IdsFit(disks) && Mirrors(disks, role, milli, slot, taken, avail) && x in disks && role(disks[x])
    ensures Best(r, avail, Some(ToCandidate(x, disks[x], milli)))
            <==> Right(r, disks, role, milli, slot, taken, Some(x))
  {
    var c := ToCandidate(x, disks[x], milli);
    CandidateNumber(x, disks[x], milli);
    if Best(r, avail, Some(c)) {
      forall y | Open(disks, role, slot, taken, y) && y != x
        ensures Outranks(r, disks, milli, x, y)
      {
        CandidateNumber(y, disks[y], milli);
        PrefersDisk(r, disks, milli, x, y);
      }
    }
    if Right(r, disks, role, milli, slot, taken, Some(x)) {
      forall b | b in avail && b != c
        ensures r.Prefers(c, b)
      {
        var y :| y in disks && role(disks[y]) && ToCandidate(y, disks[y], milli) == b;
        PrefersDisk(r, disks, milli, x, y);
      }
    }
  }

  // ---- whole placements ----

  lemma BehindPrefix(disks: map<DiskId, DiskEntry>, role: Role, milli: Milli, res: seq<Option<DiskId>>,
                     g: seq<Option<DiskCandidate>>, i: nat)
    requires Behind(disks, role, milli, res, g) && i <= |res|
    ensures Behind(disks, role, milli, res[..i], g[..i])
  {
    forall k | 0 <= k < i
      ensures BehindAt(disks, role, milli, res[..i][k], g[..i][k])
    {
      assert BehindAt(disks, role, milli, res[k], g[k]);
    }
  }

  lemma PlacedBehind(r: Ranking, disks: map<DiskId, DiskEntry>, role: Role, milli: Milli, slots: seq<ReplicaSlot>,
                     res: seq<Option<DiskId>>, g: seq<Option<DiskCandidate>>)
    requires IdsFit(disks) && IsPlacedAs(r, disks, role, milli, slots, res, g)
    ensures Behind(disks, role, milli, res, g)
  {
    var specs := Specs(slots)[..Min(|slots|, MAX_SELECT)];
    forall i | 0 <= i < |res|
      ensures BehindAt(disks, role, milli, res[i], g[i])
    {
      assert Best(r, Available(CandidateSet(disks, role, milli), Used(g[..i]), specs[i]), g[i]);
      if g[i].Some? {
        var id :| id in disks && role(disks[id]) && ToCandidate(id, disks[id], milli) == g[i].value;
        CandidateNumber(id, disks[id], milli);
      }
    }
  }

  /** The candidates that a list of right disks stands for. */
  lemma CandidatesOf(r: Ranking, disks: map<DiskId, DiskEntry>, role: Role, milli: Milli, slots: seq<ReplicaSlot>,
                     res: seq<Option<DiskId>>)
    returns (g: seq<Option<DiskCandidate>>)
    requires AllRight(r, disks, role, milli, slots, res)
    ensures Behind(disks, role, milli, res, g)
  {
    g := [];
    while |g| < |res|
      invariant |g| <= |res| && forall i :: 0 <= i < |g| ==> BehindAt(disks, role, milli, res[i], g[i])
      decreases |res| - |g|
    {
      var i := |g|;
      assert Right(r, disks, role, milli, slots[i], res[..i], res[i]);
      var c := if res[i].None? then None else Some(ToCandidate(res[i].value, disks[res[i].value], milli));
      g := g + [c];
    }
  }

  /** Placement over a pool map, said without scores, candidates or codes: slot by slot the first open disk
      in the order of weight over distance, and none exactly when no disk is open. */
  lemma PlacedOnIff(r: Ranking, disks: map<DiskId, DiskEntry>, role: Role, milli: Milli, slots: seq<ReplicaSlot>,
                    res: seq<Option<DiskId>>)
    requires IdsFit(disks)
    ensures PlacedOn(r, disks, role, milli, slots, res) <==> AllRight(r, disks, role, milli, slots, res)
  {
    var specs := Specs(slots)[..Min(|slots|, MAX_SELECT)];
    if PlacedOn(r, disks, role, milli, slots, res) {
      var g: seq<Option<DiskCandidate>> :| IsPlacedAs(r, disks, role, milli, slots, res, g);
      PlacedBehind(r, disks, role, milli, slots, res, g);
      forall i | 0 <= i < |res|
        ensures Right(r, disks, role, milli, slots[i], res[..i], res[i])
      {
        SlotIff(r, disks, role, milli, slots, res, g, i);
        assert Best(r, Available(CandidateSet(disks, role, milli), Used(g[..i]), specs[i]), g[i]);
      }
    }
    if AllRight(r, disks, role, milli, slots, res) {
      var g := CandidatesOf(r, disks, role, milli, slots, res);
      forall i | 0 <= i < |res|
        ensures Best(r, Available(CandidateSet(disks, role, milli), Used(g[..i]), specs[i]), g[i])
        ensures res[i] == if g[i].None? then None else Some(IdOf(g[i].value))
      {
        SlotIff(r, disks, role, milli, slots, res, g, i);
        assert BehindAt(disks, role, milli, res[i], g[i]);
        if res[i].Some? {
          CandidateNumber(res[i].value, disks[res[i].value], milli);
        }
      }
      assert IsPlacedAs(r, disks, role, milli, slots, res, g);
    }
  }

  lemma SlotIff(r: Ranking, disks: map<DiskId, DiskEntry>, role: Role, milli: Milli, slots: seq<ReplicaSlot>,
                res: seq<Option<DiskId>>, g: seq<Option<DiskCandidate>>, i: nat)
    requires IdsFit(disks) && Behind(disks, role, milli, res, g) && |res| <= |slots| && i < |res|
    ensures Best(r, Available(CandidateSet(disks, role, milli), Used(g[..i]), SlotToSpec(slots[i])), g[i])
            <==> Right(r, disks, role, milli, slots[i], res[..i], res[i])
  {
    BehindPrefix(disks, role, milli, res, g, i);
    assert BehindAt(disks, role, milli, res[i], g[i]);
    BestIff(r, disks, role, milli, slots[i], res[..i], g[..i], res[i], g[i]);
  }

  // ---- the pool's configuration ----

  /** There is always a placement, and it is the one the configuration collects. */
  lemma PlaceExists(hash: Hash, disks: map<DiskId, DiskEntry>, milli: Milli, slots: seq<ReplicaSlot>, key: nat)
    returns (res: seq<Option<DiskId>>)
    requires IdsFit(disks)
    ensures AllRight(Ranking(hash, key), disks, HoldsData, milli, slots, res)
    ensures PlaceOf(hash, disks, milli, Replicated(slots), key) == Collect(res)
  {
    var r := Ranking(hash, key);
    var specs := Specs(slots)[..Min(|slots|, MAX_SELECT)];
    CandidatesDistinct(disks, HoldsData, milli);
    var g := PlacementOrder.GreedyExists(r, CandidateSet(disks, HoldsData, milli), specs);
    res := seq(|g|, i requires 0 <= i < |g| => if g[i].None? then None else Some(IdOf(g[i].value)));
    assert IsPlacedAs(r, disks, HoldsData, milli, slots, res, g);
    PlacedOnIff(r, disks, HoldsData, milli, slots, res);
    PlaceIsUnique(hash, disks, milli, Replicated(slots), key, res);
  }

  function AllPlaced(ids: seq<DiskId>): (res: seq<Option<DiskId>>)
    ensures |res| == |ids| && forall i :: 0 <= i < |ids| ==> res[i] == Some(ids[i])
  {
    seq(|ids|, i requires 0 <= i < |ids| => Some(ids[i]))
  }

  /** The disks of a scheme: exactly the list in which every slot has the right disk. In particular each is an
      active data disk of the class, or the very disk, that its slot asks for. */
  lemma PlaceIff(hash: Hash, disks: map<DiskId, DiskEntry>, milli: Milli, scheme: RedundancyScheme, key: nat,
                 ids: seq<DiskId>)
    requires IdsFit(disks)
    ensures PlaceOf(hash, disks, milli, scheme, key) == Some(ids)
            <==> scheme.Replicated?
                 && AllRight(Ranking(hash, key), disks, HoldsData, milli, scheme.slots, AllPlaced(ids))
  {
    if scheme.Replicated? {
      var res := PlaceExists(hash, disks, milli, scheme.slots, key);
      if Collect(res) == Some(ids) {
        assert AllPlaced(ids) == res;
      }
      if AllRight(Ranking(hash, key), disks, HoldsData, milli, scheme.slots, AllPlaced(ids)) {
        PlacedOnIff(Ranking(hash, key), disks, HoldsData, milli, scheme.slots, AllPlaced(ids));
        PlaceIsUnique(hash, disks, milli, scheme, key, AllPlaced(ids));
        CollectAll(ids);
      }
    }
  }

  /** Slot by slot, what a placed file may rely on. */
  lemma PlaceServes(hash: Hash, disks: map<DiskId, DiskEntry>, milli: Milli, scheme: RedundancyScheme, key: nat, i: nat)
    requires IdsFit(disks) && PlaceOf(hash, disks, milli, scheme, key).Some?
    requires i < |PlaceOf(hash, disks, milli, scheme, key).value|
    ensures scheme.Replicated? && i < |scheme.slots|
    ensures var id := PlaceOf(hash, disks, milli, scheme, key).value[i];
            && id in disks && disks[id].roles.data && disks[id].state.Active?
            && (scheme.slots[i].Pinned? ==> id == scheme.slots[i].id)
            && (scheme.slots[i].AnyOfClass? && scheme.slots[i].required.Some? ==>
                  disks[id].cls == scheme.slots[i].required.value)
  {
    var ids := PlaceOf(hash, disks, milli, scheme, key).value;
    PlaceIff(hash, disks, milli, scheme, key, ids);
    var res := AllPlaced(ids);
    assert Right(Ranking(hash, key), disks, HoldsData, milli, scheme.slots[i], res[..i], res[i]);
  }

  lemma CollectAll(ids: seq<DiskId>)
    ensures Collect(AllPlaced(ids)) == Some(ids)
  {
    var c := Collect(AllPlaced(ids));
    if c.Some? {
      assert forall i :: 0 <= i < |ids| ==> AllPlaced(ids)[i] == Some(c.value[i]);
      assert c.value == ids;
    }
  }

  /** Every disk that would serve slot `i` was taken by an earlier slot. */
  ghost predicate Stranded(disks: map<DiskId, DiskEntry>, role: Role, slots: seq<ReplicaSlot>,
                           res: seq<Option<DiskId>>, i: nat)
  {
    i < |res| && i < |slots| && forall y :: !Open(disks, role, slots[i], res[..i], y)
  }

  lemma EmptyIsStranded(r: Ranking, disks: map<DiskId, DiskEntry>, role: Role, milli: Milli, slots: seq<ReplicaSlot>,
                        res: seq<Option<DiskId>>, i: nat)
    requires AllRight(r, disks, role, milli, slots, res) && i < |res|
    ensures res[i].None? <==> Stranded(disks, role, slots, res, i)
  {
    assert Right(r, disks, role, milli, slots[i], res[..i], res[i]);
  }

  /** A scheme cannot be placed exactly when it is erasure coded or one of its first sixteen slots finds every
      disk that would serve it taken by earlier slots. */
  lemma UnplaceableIff(hash: Hash, disks: map<DiskId, DiskEntry>, milli: Milli, scheme: RedundancyScheme, key: nat)
    returns (res: seq<Option<DiskId>>)
    requires IdsFit(disks)
    ensures scheme.Replicated? ==> AllRight(Ranking(hash, key), disks, HoldsData, milli, scheme.slots, res)
    ensures PlaceOf(hash, disks, milli, scheme, key).None?
            <==> scheme.ErasureCoded? || exists i: nat :: Stranded(disks, HoldsData, scheme.slots, res, i)
  {
    res := [];
    if scheme.Replicated? {
      res := PlaceExists(hash, disks, milli, scheme.slots, key);
      SomeStranded(Ranking(hash, key), disks, HoldsData, milli, scheme.slots, res);
    }
  }

  lemma SomeStranded(r: Ranking, disks: map<DiskId, DiskEntry>, role: Role, milli: Milli, slots: seq<ReplicaSlot>,
                     res: seq<Option<DiskId>>)
    requires AllRight(r, disks, role, milli, slots, res)
    ensures None in res <==> exists i: nat :: Stranded(disks, role, slots, res, i)
  {
    if None in res {
      var i :| 0 <= i < |res| && res[i] == None;
      EmptyIsStranded(r, disks, role, milli, slots, res, i);
    }
    if i: nat :| Stranded(disks, role, slots, res, i) {
      EmptyIsStranded(r, disks, role, milli, slots, res, i);
    }
  }
}

/** Placement over a pool map: an unordered table of disks is listed in some order, handed to the
    index-level loops, and the chosen indices are mapped back to disk ids. */
module PoolPlacement {
  import opened Proto
  import opened Arith
  import opened Placement
  import opened PlacementLaws

  /** How a disk's floating-point weight becomes thousandths. */
  type Milli = nat -> nat

  function ClassCode(c: DiskClass): nat
  {
    match c
    case Hdd => 1
    case Ssd => 2
    case Nvme => 3
  }

  function HiLo(id: DiskId): (p: (nat, nat))
    ensures id < U128 ==> p.0 < U64 && p.1 < U64 && FromHiLo(p.0, p.1) == id
  {
    (id / U64, id % U64)
  }

  function FromHiLo(hi: nat, lo: nat): (id: DiskId)
    ensures lo < U64 ==> id / U64 == hi && id % U64 == lo
    ensures hi < U64 && lo < U64 ==> id < U128
  {
    hi * U64 + lo
  }

  function ToCandidate(id: DiskId, e: DiskEntry, milli: Milli): DiskCandidate
  {
    DiskCandidate(HiLo(id).0, HiLo(id).1, milli(e.weight), if e.state.Active? then 1 else 0, ClassCode(e.cls))
  }

  function SlotToSpec(slot: ReplicaSlot): ReplicaSlotSpec
  {
    match slot
    case AnyOfClass(None) => ReplicaSlotSpec(CLASS_ANY, 0, 0, 0)
    case AnyOfClass(Some(c)) => ReplicaSlotSpec(ClassCode(c), 0, 0, 0)
    case Pinned(id) => ReplicaSlotSpec(CLASS_ANY, 1, HiLo(id).0, HiLo(id).1)
  }

  function Specs(slots: seq<ReplicaSlot>): (specs: seq<ReplicaSlotSpec>)
    ensures |specs| == |slots|
    ensures forall i :: 0 <= i < |slots| ==> specs[i] == SlotToSpec(slots[i])
  {
    seq(|slots|, i requires 0 <= i < |slots| => SlotToSpec(slots[i]))
  }

  function IdOf(c: DiskCandidate): DiskId
  {
    FromHiLo(c.idHi, c.idLo)
  }

  type Role = DiskEntry -> bool

  ghost predicate Eligible(disks: map<DiskId, DiskEntry>, role: Role, id: DiskId)
  {
    id in disks && role(disks[id])
  }

  ghost function CandidateSet(disks: map<DiskId, DiskEntry>, role: Role, milli: Milli): set<DiskCandidate>
  {
    set id | id in disks && role(disks[id]) :: ToCandidate(id, disks[id], milli)
  }

  /** The placement of `slots` on the pool, as disk ids: what greedy placement over the set of
      eligible disks yields for the first sixteen slots. */
  ghost predicate PlacedOn(r: Ranking, disks: map<DiskId, DiskEntry>, role: Role, milli: Milli, slots: seq<ReplicaSlot>,
                           res: seq<Option<DiskId>>)
  {
    exists g :: IsPlacedAs(r, disks, role, milli, slots, res, g)
  }

  ghost predicate IsPlacedAs(r: Ranking, disks: map<DiskId, DiskEntry>, role: Role, milli: Milli,
                             slots: seq<ReplicaSlot>,
                             res: seq<Option<DiskId>>, g: seq<Option<DiskCandidate>>)
  {
    && Greedy(r, CandidateSet(disks, role, milli), Specs(slots)[..Min(|slots|, MAX_SELECT)], g)
    && |res| == |g|
    && forall i :: 0 <= i < |g| ==> res[i] == if g[i].None? then None else Some(IdOf(g[i].value))
  }

  ghost predicate IdsFit(disks: map<DiskId, DiskEntry>)
  {
    |disks| < UNPLACED && forall id :: id in disks ==> id < U128
  }

  lemma CandidatesDistinct(disks: map<DiskId, DiskEntry>, role: Role, milli: Milli)
    requires IdsFit(disks)
    ensures DistinctIds(CandidateSet(disks, role, milli))
  {
    forall a, b | a in CandidateSet(disks, role, milli) && b in CandidateSet(disks, role, milli) && SameId(a, b)
      ensures a == b
    {
      var i :| i in disks && role(disks[i]) && ToCandidate(i, disks[i], milli) == a;
      var j :| j in disks && role(disks[j]) && ToCandidate(j, disks[j], milli) == b;
      assert FromHiLo(a.idHi, a.idLo) == i && FromHiLo(b.idHi, b.idLo) == j;
    }
  }

  /** The placed ids are distinct eligible active disks. */
  lemma PlacedOnDistinct(r: Ranking, disks: map<DiskId, DiskEntry>, role: Role, milli: Milli, slots: seq<ReplicaSlot>,
                         res: seq<Option<DiskId>>)
    requires IdsFit(disks) && PlacedOn(r, disks, role, milli, slots, res)
    ensures |res| == Min(|slots|, MAX_SELECT)
    ensures forall i :: 0 <= i < |res| && res[i].Some? ==>
                          Eligible(disks, role, res[i].value) && disks[res[i].value].state.Active?
    ensures forall i, j :: 0 <= i < j < |res| && res[i].Some? && res[j].Some? ==> res[i].value != res[j].value
  {
    var g: seq<Option<DiskCandidate>> :| IsPlacedAs(r, disks, role, milli, slots, res, g);
    var pool := CandidateSet(disks, role, milli);
    var specs := Specs(slots)[..Min(|slots|, MAX_SELECT)];
    CandidatesDistinct(disks, role, milli);
    forall i | 0 <= i < |res| && res[i].Some?
      ensures Eligible(disks, role, res[i].value) && disks[res[i].value].state.Active?
      ensures g[i].Some? && g[i].value.idLo < U64
    {
      var c := g[i].value;
      assert Best(r, Available(pool, Used(g[..i]), specs[i]), g[i]);
      var id :| id in disks && role(disks[id]) && ToCandidate(id, disks[id], milli) == c;
      assert IdOf(c) == id;
    }
    forall i, j | 0 <= i < j < |res| && res[i].Some? && res[j].Some?
      ensures res[i].value != res[j].value
    {
      GreedyDistinct(r, pool, specs, g, i, j);
      var a, b := g[i].value, g[j].value;
      assert FromHiLo(a.idHi, a.idLo) / U64 == a.idHi && FromHiLo(b.idHi, b.idLo) / U64 == b.idHi;
      assert FromHiLo(a.idHi, a.idLo) % U64 == a.idLo && FromHiLo(b.idHi, b.idLo) % U64 == b.idLo;
    }
  }

  /** A pool map has one placement: the iteration order of the table cannot show. */
  lemma PlacedOnUnique(r: Ranking, disks: map<DiskId, DiskEntry>, role: Role, milli: Milli, slots: seq<ReplicaSlot>,
                       res: seq<Option<DiskId>>, res': seq<Option<DiskId>>)
    requires PlacedOn(r, disks, role, milli, slots, res) && PlacedOn(r, disks, role, milli, slots, res')
    ensures res == res'
  {
    var g: seq<Option<DiskCandidate>> :| IsPlacedAs(r, disks, role, milli, slots, res, g);
    var g': seq<Option<DiskCandidate>> :| IsPlacedAs(r, disks, role, milli, slots, res', g');
    var specs := Specs(slots)[..Min(|slots|, MAX_SELECT)];
    GreedyUnique(r, CandidateSet(disks, role, milli), specs, g, g', |specs|);
    assert g[..|specs|] == g && g'[..|specs|] == g';
  }

  // ---- the wrapper itself ----

  ghost predicate Lists(disks: map<DiskId, DiskEntry>, role: Role, ids: seq<DiskId>)
  {
    && (forall i, j :: 0 <= i < j < |ids| ==> ids[i] != ids[j])
    && (forall id :: id in ids <==> id in disks && role(disks[id]))
  }

  function Candidates(disks: map<DiskId, DiskEntry>, ids: seq<DiskId>, milli: Milli): (cands: seq<DiskCandidate>)
    requires forall id :: id in ids ==> id in disks
    ensures |cands| == |ids|
    ensures forall i :: 0 <= i < |ids| ==> cands[i] == ToCandidate(ids[i], disks[ids[i]], milli)
  {
    seq(|ids|, i requires 0 <= i < |ids| => ToCandidate(ids[i], disks[ids[i]], milli))
  }

  /** Iterates the table in an arbitrary order, keeping the disks with the required role. */
  method ListDisks(disks: map<DiskId, DiskEntry>, role: Role) returns (ids: seq<DiskId>)
    ensures Lists(disks, role, ids)
    ensures |ids| <= |disks|
  {
    ids := [];
    var rest := disks.Keys;
    ghost var kept := {};
    while rest != {}
      invariant rest <= disks.Keys
      invariant kept == set id | id in ids
      invariant forall id :: id in ids <==> id in disks && id !in rest && role(disks[id])
      invariant forall i, j :: 0 <= i < j < |ids| ==> ids[i] != ids[j]
      invariant |ids| + |rest| <= |disks|
      decreases |rest|
    {
      var id :| id in rest;
      rest := rest - {id};
      if role(disks[id]) {
        ids := ids + [id];
        kept := kept + {id};
      }
    }
  }

  lemma ListedCandidates(disks: map<DiskId, DiskEntry>, role: Role, milli: Milli, ids: seq<DiskId>)
    requires IdsFit(disks) && Lists(disks, role, ids)
    ensures DistinctSeq(Candidates(disks, ids, milli))
    ensures SetOf(Candidates(disks, ids, milli)) == CandidateSet(disks, role, milli)
  {
    var cands := Candidates(disks, ids, milli);
    forall i, j | 0 <= i < j < |cands|
      ensures !SameId(cands[i], cands[j])
    {
      assert ids[i] in ids && ids[j] in ids;
      assert FromHiLo(cands[i].idHi, cands[i].idLo) == ids[i] && FromHiLo(cands[j].idHi, cands[j].idLo) == ids[j];
    }
    forall c | c in CandidateSet(disks, role, milli)
      ensures c in cands
    {
      var id :| id in disks && role(disks[id]) && ToCandidate(id, disks[id], milli) == c;
      assert id in ids;
      var i :| 0 <= i < |ids| && ids[i] == id;
      assert cands[i] == c;
    }
    forall c | c in cands
      ensures c in CandidateSet(disks, role, milli)
    {
      var i :| 0 <= i < |cands| && cands[i] == c;
      assert ids[i] in ids;
    }
  }

  /** The whole wrapper: None for an erasure-coded scheme, else the placement of its slots. */
  method PlaceOnPool(r: Ranking, disks: map<DiskId, DiskEntry>, scheme: RedundancyScheme, role: Role, milli: Milli)
    returns (res: Option<seq<Option<DiskId>>>)
    requires IdsFit(disks)
    ensures res.None? <==> scheme.ErasureCoded?
    ensures res.Some? ==> PlacedOn(r, disks, role, milli, scheme.slots, res.value)
  {
    if scheme.ErasureCoded? {
      return None;
    }
    var slots := scheme.slots;
    var ids := ListDisks(disks, role);
    var cands := Candidates(disks, ids, milli);
    var specs := Specs(slots);
    var out := new nat[Min(|specs|, MAX_SELECT)];
    var n := PlaceRedundancy(r, cands, specs, out);
    ListedCandidates(disks, role, milli, ids);
    var chosen := out[..n];
    PlacementIsGreedy(r, cands, specs[..n], chosen);
    var placed := seq(n, i requires 0 <= i < n => if chosen[i] == UNPLACED then None else Some(ids[chosen[i]]));
    ghost var g := Resolve(cands, chosen);
    forall i | 0 <= i < n
      ensures placed[i] == if g[i].None? then None else Some(IdOf(g[i].value))
    {
      if chosen[i] != UNPLACED {
        assert ids[chosen[i]] in ids;
        assert g[i].value == cands[chosen[i]];
      }
    }
    assert IsPlacedAs(r, disks, role, milli, slots, placed, g);
    res := Some(placed);
  }
}

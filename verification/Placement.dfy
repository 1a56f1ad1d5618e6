/** Weighted rendezvous placement: scoring, selection and slot-by-slot placement of replicas.
    The hash of (disk id, key) is an arbitrary function, so every result holds for every hash. */
module Placement {
  import opened Proto
  import opened Arith
  import NegLog2

  type u64 = x: nat | x < 0x1_0000_0000_0000_0000

  const CLASS_ANY: nat := 0
  const MAX_SELECT: nat := 16
  const UNPLACED: nat := 0xffff_ffff

  datatype DiskCandidate = DiskCandidate(idHi: nat, idLo: nat, weightMilli: nat, active: nat, cls: nat)
  datatype ReplicaSlotSpec = ReplicaSlotSpec(requiredClass: nat, pinned: nat, pinnedIdHi: nat, pinnedIdLo: nat)

  predicate SameId(a: DiskCandidate, b: DiskCandidate)
  {
    a.idHi == b.idHi && a.idLo == b.idLo
  }

  datatype Ranked = Ranked(score: nat, raw: nat, idHi: nat, idLo: nat)

  /** Lexicographic comparison of score, raw hash and id. */
  predicate Beats(a: Ranked, b: Ranked)
  {
    || a.score > b.score
    || (a.score == b.score && a.raw > b.raw)
    || (a.score == b.score && a.raw == b.raw && a.idHi > b.idHi)
    || (a.score == b.score && a.raw == b.raw && a.idHi == b.idHi && a.idLo > b.idLo)
  }

  /** Weight over (-log2 of the hash as a fraction, plus one Q16 unit), scaled by 2^64. */
  function ScoreFrom(raw: u64, weightMilli: nat): nat
  {
    (Max(weightMilli, 1) * U64) / (NegLog2.NegLog2(raw) + 1)
  }

  lemma QuotientMono(a: nat, b: nat, d: nat, e: nat)
    requires a <= b && 0 < e <= d
    ensures a / d <= b / e
  {
    SmallerDivisor(a, d, e);
    NegLog2.DivMono(a, b, e);
  }

  lemma SmallerDivisor(a: nat, d: nat, e: nat)
    requires 0 < e <= d
    ensures a / d <= a / e
  {
    var p, q := a / d, a / e;
    assert p * d <= a by { NegLog2.DivBounds(a, d); }
    assert a < (q + 1) * e by { NegLog2.DivBounds(a, e); }
    Quotients(p, q, d, e, a);
  }

  lemma Quotients(p: nat, q: nat, d: nat, e: nat, a: nat)
    requires p * d <= a < (q + 1) * e && e <= d
    ensures p <= q
  {
    MulMono(e, d, p);
    MulCancelStrict(p, q + 1, e);
  }

  /** The score never falls when the hash or the weight rises. */
  lemma ScoreMono(raw: u64, raw': u64, w: nat, w': nat)
    requires raw <= raw' && w <= w'
    ensures ScoreFrom(raw, w) <= ScoreFrom(raw', w')
  {
    NegLog2.NegLog2Mono(raw, raw');
    MulMono(Max(w, 1), Max(w', 1), U64);
    QuotientMono(Max(w, 1) * U64, Max(w', 1) * U64, NegLog2.NegLog2(raw) + 1, NegLog2.NegLog2(raw') + 1);
  }

  /** A placement key together with the hash that scores disks for it. */
  datatype Ranking = Ranking(hash: (nat, nat) -> u64, key: nat) {

    function Rank(c: DiskCandidate): Ranked
    {
      var raw := hash(c.idHi * U64 + c.idLo, key);
      Ranked(ScoreFrom(raw, c.weightMilli), raw, c.idHi, c.idLo)
    }

    predicate Prefers(a: DiskCandidate, b: DiskCandidate)
    {
      Beats(Rank(a), Rank(b))
    }
  }

  // ---- what the ranking compares ----

  /** A whole number that `wa / na` reaches and `wb / nb` does not. */
  ghost predicate Separates(wa: nat, na: nat, wb: nat, nb: nat, q: nat)
  {
    q * na <= wa && wb < q * nb
  }

  /** `wa / na` is above `wb / nb`, up to the whole numbers between them. */
  ghost predicate Above(wa: nat, na: nat, wb: nat, nb: nat)
  {
    exists q: nat :: Separates(wa, na, wb, nb, q)
  }

  lemma QuotientAboveIff(wa: nat, na: nat, wb: nat, nb: nat)
    requires na > 0 && nb > 0
    ensures wa / na > wb / nb <==> Above(wa, na, wb, nb)
  {
    NegLog2.DivBounds(wa, na);
    NegLog2.DivBounds(wb, nb);
    if wa / na > wb / nb {
      MulMono(wb / nb + 1, wa / na, nb);
      assert Separates(wa, na, wb, nb, wa / na);
    }
    if Above(wa, na, wb, nb) {
      var q: nat :| Separates(wa, na, wb, nb, q);
      MulCancelStrict(q, wa / na + 1, na);
      MulCancelStrict(wb / nb, q, nb);
    }
  }

  /** The 128-bit id that is hashed. */
  function IdNumber(c: DiskCandidate): nat
  {
    c.idHi * U64 + c.idLo
  }

  /** Thousandths of weight, at least one, scaled by 2^64. */
  function ScaledWeight(weightMilli: nat): nat
  {
    Max(weightMilli, 1) * U64
  }

  /** One more than -log2 of the hash as a fraction, in Q16 units. */
  function Distance(raw: u64): (n: nat)
    ensures n > 0
  {
    NegLog2.NegLog2(raw) + 1
  }

  /** Weight over distance decides, then the hash, then the id. */
  ghost predicate Outweighs(w: nat, raw: u64, id: nat, w': nat, raw': u64, id': nat)
  {
    var (a, b) := (ScaledWeight(w), ScaledWeight(w'));
    var (m, n) := (Distance(raw), Distance(raw'));
    || Above(a, m, b, n)
    || (!Above(b, n, a, m) && (raw > raw' || (raw == raw' && id > id')))
  }

  /** What `r` prefers, without naming a score. */
  lemma PrefersIff(r: Ranking, a: DiskCandidate, b: DiskCandidate)
    requires a.idLo < U64 && b.idLo < U64
    ensures r.Prefers(a, b)
            <==> Outweighs(a.weightMilli, r.hash(IdNumber(a), r.key), IdNumber(a),
                           b.weightMilli, r.hash(IdNumber(b), r.key), IdNumber(b))
  {
    var x, y := r.hash(IdNumber(a), r.key), r.hash(IdNumber(b), r.key);
    ScoreAboveIff(x, a.weightMilli, y, b.weightMilli);
    ScoreAboveIff(y, b.weightMilli, x, a.weightMilli);
    IdOrder(a, b);
  }

  lemma ScoreAboveIff(raw: u64, w: nat, raw': u64, w': nat)
    ensures ScoreFrom(raw, w) > ScoreFrom(raw', w')
            <==> Above(ScaledWeight(w), Distance(raw), ScaledWeight(w'), Distance(raw'))
  {
    QuotientAboveIff(ScaledWeight(w), Distance(raw), ScaledWeight(w'), Distance(raw'));
  }

  lemma IdOrder(a: DiskCandidate, b: DiskCandidate)
    requires a.idLo < U64 && b.idLo < U64
    ensures IdNumber(a) > IdNumber(b) <==> a.idHi > b.idHi || (a.idHi == b.idHi && a.idLo > b.idLo)
  {
    if a.idHi > b.idHi {
      MulMono(b.idHi + 1, a.idHi, U64);
    } else if a.idHi < b.idHi {
      MulMono(a.idHi + 1, b.idHi, U64);
    }
  }

  /** The weighted comparison: what is preferred has at least the other's weight for its distance, up to one
      unit of the quotient. */
  lemma WeightedComparison(r: Ranking, a: DiskCandidate, b: DiskCandidate)
    requires r.Prefers(a, b)
    ensures var (m, n) := (Distance(r.hash(IdNumber(a), r.key)), Distance(r.hash(IdNumber(b), r.key)));
            ScaledWeight(b.weightMilli) * m < (ScaledWeight(a.weightMilli) + m) * n
  {
    ScoresCompare(r.hash(IdNumber(a), r.key), a.weightMilli, r.hash(IdNumber(b), r.key), b.weightMilli);
  }

  lemma ScoresCompare(raw: u64, w: nat, raw': u64, w': nat)
    requires ScoreFrom(raw, w) >= ScoreFrom(raw', w')
    ensures ScaledWeight(w') * Distance(raw) < (ScaledWeight(w) + Distance(raw)) * Distance(raw')
  {
    QuotientsCompare(ScaledWeight(w), Distance(raw), ScaledWeight(w'), Distance(raw'));
  }

  lemma QuotientsCompare(wa: nat, na: nat, wb: nat, nb: nat)
    requires na > 0 && nb > 0 && wa / na >= wb / nb
    ensures wb * na < (wa + na) * nb
  {
    var p, q := wa / na, wb / nb;
    NegLog2.DivBounds(wa, na);
    NegLog2.DivBounds(wb, nb);
    ProductsCompare(p, q, wa, na, wb, nb);
  }

  lemma ProductsCompare(p: nat, q: nat, wa: nat, na: nat, wb: nat, nb: nat)
    requires na > 0 && nb > 0 && q <= p && p * na <= wa && wb < (q + 1) * nb
    ensures wb * na < (wa + na) * nb
  {
    calc {
      wb * na;
    <
      ((q + 1) * nb) * na;
    <=  { MulMono(q + 1, p + 1, nb); MulMono((q + 1) * nb, (p + 1) * nb, na); }
      ((p + 1) * nb) * na;
    ==
      ((p + 1) * na) * nb;
    ==
      (p * na + na) * nb;
    <=  { MulMono(p * na + na, wa + na, nb); }
      (wa + na) * nb;
    }
  }

  /** With equal weights the larger hash wins, and the larger id among equal hashes. */
  lemma EqualWeights(r: Ranking, a: DiskCandidate, b: DiskCandidate)
    requires Max(a.weightMilli, 1) == Max(b.weightMilli, 1) && a.idLo < U64 && b.idLo < U64
    ensures var (x, y) := (r.hash(IdNumber(a), r.key), r.hash(IdNumber(b), r.key));
            r.Prefers(a, b) <==> x > y || (x == y && IdNumber(a) > IdNumber(b))
  {
    var x, y := r.hash(IdNumber(a), r.key), r.hash(IdNumber(b), r.key);
    var w := Max(a.weightMilli, 1);
    assert ScoreFrom(x, a.weightMilli) == ScoreFrom(x, w) && ScoreFrom(y, b.weightMilli) == ScoreFrom(y, w);
    if x >= y {
      ScoreMono(y, x, w, w);
    } else {
      ScoreMono(x, y, w, w);
    }
    IdOrder(a, b);
  }

  lemma PrefersTotal(r: Ranking, a: DiskCandidate, b: DiskCandidate)
    ensures r.Prefers(a, b) || r.Prefers(b, a) || SameId(a, b)
  {
  }

  // ---- which candidates a slot accepts ----

  predicate Accepts(slot: ReplicaSlotSpec, c: DiskCandidate)
  {
    && c.active != 0
    && if slot.pinned != 0
       then c.idHi == slot.pinnedIdHi && c.idLo == slot.pinnedIdLo
       else slot.requiredClass == CLASS_ANY || c.cls == slot.requiredClass
  }

  const ANY_SLOT: ReplicaSlotSpec := ReplicaSlotSpec(CLASS_ANY, 0, 0, 0)

  function ClassSlot(required: nat): ReplicaSlotSpec
  {
    ReplicaSlotSpec(required, 0, 0, 0)
  }

  // ---- what the loops compute, over candidate indices ----

  /** Index `i` is still free for the slot. */
  predicate Free(cands: seq<DiskCandidate>, used: seq<nat>, slot: ReplicaSlotSpec, i: nat)
  {
    i < |cands| && i !in used && Accepts(slot, cands[i])
  }

  /** `i` outranks `j`, earlier index first on a full tie; a pinned slot looks at the index alone. */
  predicate Ahead(r: Ranking, cands: seq<DiskCandidate>, slot: ReplicaSlotSpec, i: nat, j: nat)
    requires i < |cands| && j < |cands|
  {
    if slot.pinned != 0 then i < j
    else r.Prefers(cands[i], cands[j]) || (!r.Prefers(cands[j], cands[i]) && i < j)
  }

  /** `x` is the choice for one slot: UNPLACED exactly when nothing is free, else the leader. */
  ghost predicate Chooses(r: Ranking, cands: seq<DiskCandidate>, used: seq<nat>, slot: ReplicaSlotSpec, x: nat)
  {
    if x == UNPLACED then forall j :: !Free(cands, used, slot, j)
    else Free(cands, used, slot, x) && forall j :: Free(cands, used, slot, j) && j != x ==> Ahead(r, cands, slot, x, j)
  }

  /** Each slot in order takes the best candidate not taken by an earlier slot. */
  ghost predicate IsPlacement(r: Ranking, cands: seq<DiskCandidate>, slots: seq<ReplicaSlotSpec>, out: seq<nat>)
  {
    && |out| == |slots|
    && forall i :: 0 <= i < |out| ==> Chooses(r, cands, out[..i], slots[i], out[i])
  }

  /** `best` is the choice among the first `n` candidates. */
  ghost predicate Leads(r: Ranking, cands: seq<DiskCandidate>, excluded: seq<nat>, slot: ReplicaSlotSpec, n: nat,
                        best: Option<nat>)
  {
    if best.None? then forall j: nat :: j < n ==> !Free(cands, excluded, slot, j)
    else
      && best.value < n && Free(cands, excluded, slot, best.value)
      && forall j: nat :: j < n && Free(cands, excluded, slot, j) && j != best.value ==>
          Ahead(r, cands, slot, best.value, j)
  }

  lemma LeaderStays(r: Ranking, cands: seq<DiskCandidate>, excluded: seq<nat>, slot: ReplicaSlotSpec, n: nat,
                    best: Option<nat>)
    requires Leads(r, cands, excluded, slot, n, best) && n < |cands| && slot.pinned == 0
    requires Free(cands, excluded, slot, n) ==> best.Some? && !r.Prefers(cands[n], cands[best.value])
    ensures Leads(r, cands, excluded, slot, n + 1, best)
  {
  }

  lemma NewLeader(r: Ranking, cands: seq<DiskCandidate>, excluded: seq<nat>, slot: ReplicaSlotSpec, n: nat,
                  best: Option<nat>)
    requires Leads(r, cands, excluded, slot, n, best) && n < |cands| && slot.pinned == 0
    requires Free(cands, excluded, slot, n) && (best.None? || r.Prefers(cands[n], cands[best.value]))
    ensures Leads(r, cands, excluded, slot, n + 1, Some(n))
  {
    forall j: nat | j < n && Free(cands, excluded, slot, j)
      ensures Ahead(r, cands, slot, n, j)
    {
      if j != best.value {
        assert Ahead(r, cands, slot, best.value, j);
        PrefersTransitive(r, cands[n], cands[best.value], cands[j]);
      }
    }
  }

  lemma PrefersTransitive(r: Ranking, a: DiskCandidate, b: DiskCandidate, c: DiskCandidate)
    requires r.Prefers(a, b) && !r.Prefers(c, b)
    ensures r.Prefers(a, c)
  {
  }

  method HrwSelectOne(r: Ranking, cands: seq<DiskCandidate>, excluded: seq<nat>, requiredClass: nat)
    returns (best: Option<nat>)
    requires |cands| < UNPLACED
    ensures Chooses(r, cands, excluded, ClassSlot(requiredClass), if best.Some? then best.value else UNPLACED)
    ensures best.Some? ==> best.value < |cands|
  {
    ghost var slot := ClassSlot(requiredClass);
    best := None;
    var idx := 0;
    while idx < |cands|
      invariant 0 <= idx <= |cands| && Leads(r, cands, excluded, slot, idx, best)
    {
      var c := cands[idx];
      if c.active == 0 || idx in excluded || (requiredClass != CLASS_ANY && c.cls != requiredClass) {
        LeaderStays(r, cands, excluded, slot, idx, best);
      } else if best.None? || Beats(r.Rank(c), r.Rank(cands[best.value])) {
        NewLeader(r, cands, excluded, slot, idx, best);
        best := Some(idx);
      } else {
        LeaderStays(r, cands, excluded, slot, idx, best);
      }
      idx := idx + 1;
    }
  }

  method FindPinned(ghost r: Ranking, cands: seq<DiskCandidate>, excluded: seq<nat>, slot: ReplicaSlotSpec)
    returns (found: Option<nat>)
    requires |cands| < UNPLACED
    requires slot.pinned != 0
    ensures Chooses(r, cands, excluded, slot, if found.Some? then found.value else UNPLACED)
    ensures found.Some? ==> found.value < |cands|
  {
    var idx := 0;
    while idx < |cands|
      invariant 0 <= idx <= |cands|
      invariant forall j: nat :: j < idx ==> !Free(cands, excluded, slot, j)
    {
      var c := cands[idx];
      if c.active != 0 && idx !in excluded && c.idHi == slot.pinnedIdHi && c.idLo == slot.pinnedIdLo {
        return Some(idx);
      }
      idx := idx + 1;
    }
    found := None;
  }

  /** Adding UNPLACED marks to the list of used indices changes nothing. */
  lemma ChoosesSameUsed(r: Ranking, cands: seq<DiskCandidate>, used: seq<nat>, used': seq<nat>, slot: ReplicaSlotSpec,
                        x: nat)
    requires |cands| < UNPLACED
    requires forall j :: j < |cands| ==> (j in used <==> j in used')
    requires Chooses(r, cands, used, slot, x)
    ensures Chooses(r, cands, used', slot, x)
  {
    assert forall j :: Free(cands, used, slot, j) <==> Free(cands, used', slot, j);
  }

  method HrwSelect(r: Ranking, cands: seq<DiskCandidate>, out: array<nat>) returns (filled: nat)
    requires |cands| < UNPLACED
    modifies out
    ensures filled <= Min(out.Length, MAX_SELECT)
    ensures IsPlacement(r, cands, seq(filled, _ => ANY_SLOT), out[..filled])
    ensures UNPLACED !in out[..filled]
    ensures filled < Min(out.Length, MAX_SELECT) ==> Chooses(r, cands, out[..filled], ANY_SLOT, UNPLACED)
    ensures out[filled..] == old(out[filled..])
  {
    var want := Min(out.Length, MAX_SELECT);
    var excluded := new nat[MAX_SELECT];
    ghost var was := out[..];
    filled := 0;
    while filled < want
      invariant filled <= want
      invariant excluded[..filled] == out[..filled]
      invariant UNPLACED !in out[..filled]
      invariant IsPlacement(r, cands, seq(filled, _ => ANY_SLOT), out[..filled])
      invariant out[filled..] == was[filled..]
      decreases want - filled
    {
      var one := HrwSelectOne(r, cands, excluded[..filled], CLASS_ANY);
      if one.None? {
        break;
      }
      ghost var before := out[..filled];
      out[filled] := one.value;
      excluded[filled] := one.value;
      assert out[..filled] == before;
      assert out[..filled + 1] == before + [one.value];
      assert out[filled + 1..] == was[filled + 1..];
      PlacementSnoc(r, cands, seq(filled, _ => ANY_SLOT), before, ANY_SLOT, one.value);
      assert seq(filled + 1, _ => ANY_SLOT) == seq(filled, _ => ANY_SLOT) + [ANY_SLOT];
      filled := filled + 1;
    }
  }

  lemma PlacementSnoc(r: Ranking, cands: seq<DiskCandidate>, slots: seq<ReplicaSlotSpec>, out: seq<nat>,
                      slot: ReplicaSlotSpec, x: nat)
    requires IsPlacement(r, cands, slots, out)
    requires Chooses(r, cands, out, slot, x)
    ensures IsPlacement(r, cands, slots + [slot], out + [x])
  {
    var slots', out' := slots + [slot], out + [x];
    forall i | 0 <= i < |out'|
      ensures Chooses(r, cands, out'[..i], slots'[i], out'[i])
    {
      if i < |out| {
        assert out'[..i] == out[..i];
      } else {
        assert out'[..i] == out;
      }
    }
  }

  method PlaceRedundancy(r: Ranking, cands: seq<DiskCandidate>, slots: seq<ReplicaSlotSpec>, out: array<nat>)
    returns (n: nat)
    requires |cands| < UNPLACED
    modifies out
    ensures n == Min(|slots|, Min(out.Length, MAX_SELECT))
    ensures IsPlacement(r, cands, slots[..n], out[..n])
    ensures out[n..] == old(out[n..])
  {
    n := Min(|slots|, Min(out.Length, MAX_SELECT));
    var excluded := new nat[MAX_SELECT];
    var filled := 0;
    var i := 0;
    while i < n
      invariant 0 <= i <= n
      invariant filled <= i
      invariant forall j :: j < |cands| ==> (j in excluded[..filled] <==> j in out[..i])
      invariant IsPlacement(r, cands, slots[..i], out[..i])
      invariant out[n..] == old(out[n..])
    {
      var slot := slots[i];
      var chosen;
      if slot.pinned != 0 {
        chosen := FindPinned(r, cands, excluded[..filled], slot);
      } else {
        chosen := HrwSelectOne(r, cands, excluded[..filled], slot.requiredClass);
        UnpinnedSlot(r, cands, excluded[..filled], slot, if chosen.Some? then chosen.value else UNPLACED);
      }
      ghost var before := out[..i];
      ghost var x := if chosen.Some? then chosen.value else UNPLACED;
      ChoosesSameUsed(r, cands, excluded[..filled], before, slot, x);
      PlacementSnoc(r, cands, slots[..i], before, slot, x);
      ghost var ex := excluded[..filled];
      match chosen {
        case Some(idx) =>
          out[i] := idx;
          if filled < MAX_SELECT {
            excluded[filled] := idx;
            filled := filled + 1;
            assert excluded[..filled] == ex + [idx];
          }
        case None =>
          out[i] := UNPLACED;
      }
      assert out[..i + 1] == before + [x];
      assert slots[..i + 1] == slots[..i] + [slot];
      i := i + 1;
    }
  }

  lemma UnpinnedSlot(r: Ranking, cands: seq<DiskCandidate>, used: seq<nat>, slot: ReplicaSlotSpec, x: nat)
    requires slot.pinned == 0
    requires Chooses(r, cands, used, ClassSlot(slot.requiredClass), x)
    ensures Chooses(r, cands, used, slot, x)
  {
    var cs := ClassSlot(slot.requiredClass);
    assert forall j :: Free(cands, used, slot, j) <==> Free(cands, used, cs, j);
    forall j | Free(cands, used, slot, j) && x != UNPLACED && j != x
      ensures Ahead(r, cands, slot, x, j)
    {
      assert Free(cands, used, cs, j);
      assert Ahead(r, cands, cs, x, j);
    }
  }
}

/** The configuration of an open pool: weighted rendezvous placement over its pool map, restricted
    to disks that hold data, and refused unless every slot finds a disk. */
module PoolConfig {
  import opened Proto
  import opened Arith
  import opened Placement
  import opened PoolPlacement
  import opened PoolModel

  type Hash = (nat, nat) -> u64
  type Key = (nat, nat) -> nat

  predicate HoldsData(e: DiskEntry)
  {
    e.roles.data
  }

  /** All slots placed, or nothing. */
  function Collect(res: seq<Option<DiskId>>): (ids: Option<seq<DiskId>>)
    ensures ids.None? <==> None in res
    ensures ids.Some? ==> |ids.value| == |res| && forall i :: 0 <= i < |res| ==> res[i] == Some(ids.value[i])
  {
    if res == [] then Some([])
    else
      var n := |res| - 1;
      assert res == res[..n] + [res[n]];
      var front := Collect(res[..n]);
      if front.None? || res[n].None? then None else Some(front.value + [res[n].value])
  }

  /** The disks a scheme and key are placed on. */
  ghost function PlaceOf(hash: Hash, disks: map<DiskId, DiskEntry>, milli: Milli, scheme: RedundancyScheme,
                         key: nat): Option<seq<DiskId>>
  {
    if scheme.Replicated? && exists res :: PlacedOn(Ranking(hash, key), disks, HoldsData, milli, scheme.slots, res) then
      var res :| PlacedOn(Ranking(hash, key), disks, HoldsData, milli, scheme.slots, res);
      Collect(res)
    else None
  }

  ghost function ConfigOf(hash: Hash, placementKey: Key, disks: map<DiskId, DiskEntry>, milli: Milli): Config
  {
    Config(disks.Keys, placementKey, (scheme, key) => PlaceOf(hash, disks, milli, scheme, key))
  }

  /** Whatever list the placement loops return, it is the one the configuration names. */
  lemma PlaceIsUnique(hash: Hash, disks: map<DiskId, DiskEntry>, milli: Milli, scheme: RedundancyScheme, key: nat,
                      res: seq<Option<DiskId>>)
    requires scheme.Replicated? && PlacedOn(Ranking(hash, key), disks, HoldsData, milli, scheme.slots, res)
    ensures PlaceOf(hash, disks, milli, scheme, key) == Collect(res)
  {
    var other :| PlacedOn(Ranking(hash, key), disks, HoldsData, milli, scheme.slots, other)
                 && PlaceOf(hash, disks, milli, scheme, key) == Collect(other);
    PlacedOnUnique(Ranking(hash, key), disks, HoldsData, milli, scheme.slots, res, other);
  }

  /** A placement names distinct pool disks, one per slot up to the sixteen slots that are placed. */
  lemma PlaceIsApart(hash: Hash, disks: map<DiskId, DiskEntry>, milli: Milli, scheme: RedundancyScheme, key: nat)
    requires IdsFit(disks) && PlaceOf(hash, disks, milli, scheme, key).Some?
    ensures scheme.Replicated?
    ensures var ids := PlaceOf(hash, disks, milli, scheme, key).value;
            && |ids| == Min(|scheme.slots|, MAX_SELECT)
            && (forall i, j :: 0 <= i < j < |ids| ==> ids[i] != ids[j])
            && (forall id :: id in ids ==> id in disks && HoldsData(disks[id]) && disks[id].state.Active?)
  {
    var ids := PlaceOf(hash, disks, milli, scheme, key).value;
    var res :| PlacedOn(Ranking(hash, key), disks, HoldsData, milli, scheme.slots, res) && Collect(res) == Some(ids);
    PlacedOnDistinct(Ranking(hash, key), disks, HoldsData, milli, scheme.slots, res);
    CollectedApart(disks, res, ids);
  }

  lemma CollectedApart(disks: map<DiskId, DiskEntry>, res: seq<Option<DiskId>>, ids: seq<DiskId>)
    requires Collect(res) == Some(ids)
    requires forall i :: 0 <= i < |res| && res[i].Some? ==>
                           Eligible(disks, HoldsData, res[i].value) && disks[res[i].value].state.Active?
    requires forall i, j :: 0 <= i < j < |res| && res[i].Some? && res[j].Some? ==> res[i].value != res[j].value
    ensures |ids| == |res|
    ensures forall i, j :: 0 <= i < j < |ids| ==> ids[i] != ids[j]
    ensures forall id :: id in ids ==> id in disks && HoldsData(disks[id]) && disks[id].state.Active?
  {
    assert forall i :: 0 <= i < |ids| ==> res[i] == Some(ids[i]);
    forall i, j | 0 <= i < j < |ids|
      ensures ids[i] != ids[j]
    {
      assert res[i] == Some(ids[i]) && res[j] == Some(ids[j]);
    }
    forall id | id in ids
      ensures id in disks && HoldsData(disks[id]) && disks[id].state.Active?
    {
      var i :| 0 <= i < |ids| && ids[i] == id;
      assert res[i] == Some(ids[i]);
    }
  }

  /** Every configuration places schemes with a slot on distinct disks of the pool. */
  lemma ConfigPlacesApart(hash: Hash, placementKey: Key, disks: map<DiskId, DiskEntry>, milli: Milli)
    requires IdsFit(disks)
    ensures PlacesApart(ConfigOf(hash, placementKey, disks, milli))
  {
    var cfg := ConfigOf(hash, placementKey, disks, milli);
    forall x, key | SchemeOk(x) && cfg.place(x, key).Some?
      ensures ApartIn(cfg.disks, cfg.place(x, key).value)
    {
      PlaceIsApart(hash, disks, milli, x, key);
    }
  }
}

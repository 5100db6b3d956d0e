/** The visibility map: for some logical rows, the delta layer that holds the newest version, or a
    tombstone. It is a sorted array of raw records searched by row ID. */
module VisibilityMaps {
  import opened Wrappers
  import opened RowSets

  datatype Target = InLayer(layer: nat) | Deleted

  /** The raw layer number that stands for a tombstone. */
  const DELETED_LAYER: nat := U32_MAX

  function Raw(target: Target): nat {
    match target
    case InLayer(layer) => layer
    case Deleted => DELETED_LAYER
  }

  /** Layer 0, the base, cannot be an override's target. */
  function FromRaw(raw: nat): Result<Target> {
    if raw == DELETED_LAYER then Ok(Deleted)
    else if raw == 0 then Err(InvalidData)
    else Ok(InLayer(raw))
  }

  /** Written targets are read back, except for the base and for the layer number that means deleted. */
  lemma RawRoundTrip(target: Target)
    ensures FromRaw(Raw(target)) == Ok(target) <==> target.Deleted? || (target.layer != 0 && target.layer != DELETED_LAYER)
    ensures FromRaw(Raw(InLayer(DELETED_LAYER))) == Ok(Deleted)
    ensures Raw(Deleted) == 0xFFFF_FFFF && FromRaw(0).Err? && (target.InLayer? ==> Raw(target) == target.layer)
  {
  }

  datatype Override = Override(rowId: nat, raw: nat)

  datatype Visibility = Visibility(entries: seq<Override>) {
    ghost predicate Valid() {
      && (forall i :: 0 <= i < |entries| ==> FromRaw(entries[i].raw).Ok?)
      && forall i, j :: 0 <= i < j < |entries| ==> entries[i].rowId < entries[j].rowId
    }

    /** The map the array stands for. */
    ghost function Map(): (m: map<nat, Target>)
      requires Valid()
      ensures forall id :: id in m <==> exists i :: 0 <= i < |entries| && entries[i].rowId == id
    {
      map i | 0 <= i < |entries| :: entries[i].rowId := FromRaw(entries[i].raw).value
    }

    lemma MapAt(i: nat)
      requires Valid() && i < |entries|
      ensures entries[i].rowId in Map() && Map()[entries[i].rowId] == FromRaw(entries[i].raw).value
    {
    }

    lemma Ordered(i: nat)
      requires Valid() && i < |entries|
      ensures FromRaw(entries[i].raw).Ok?
      ensures forall j :: 0 <= j < i ==> entries[j].rowId < entries[i].rowId
      ensures forall j :: i < j < |entries| ==> entries[i].rowId < entries[j].rowId
    {
    }

    /** The override of a row, by binary search. */
    method TargetOf(rowId: nat) returns (target: Option<Target>)
      requires Valid()
      ensures target == if rowId in Map() then Some(Map()[rowId]) else None
    {
      var lo, hi := 0, |entries|;
      while lo < hi
        invariant 0 <= lo <= hi <= |entries|
        invariant forall i :: 0 <= i < lo ==> entries[i].rowId < rowId
        invariant forall i :: hi <= i < |entries| ==> rowId < entries[i].rowId
      {
        hide Map, Valid;
        var mid := lo + (hi - lo) / 2;
        MapAt(mid);
        Ordered(mid);
        if entries[mid].rowId < rowId {
          lo := mid + 1;
        } else if rowId < entries[mid].rowId {
          hi := mid;
        } else {
          return Some(FromRaw(entries[mid].raw).value);
        }
      }
      return None;
    }

    /** All overrides as a map. */
    method ToMap() returns (m: map<nat, Target>)
      requires Valid()
      ensures m == Map()
    {
      m := map[];
      for i := 0 to |entries|
        invariant m.Keys == set k | 0 <= k < i :: entries[k].rowId
        invariant forall k :: 0 <= k < i ==> m[entries[k].rowId] == FromRaw(entries[k].raw).value
      {
        m := m[entries[i].rowId := FromRaw(entries[i].raw).value];
      }
    }
  }

  /** No override targets the base. */
  ghost predicate Writable(m: map<nat, Target>) {
    forall id :: id in m && m[id].InLayer? ==> m[id].layer != 0
  }

  /** A target as it is read back: the layer number that means deleted reads as deleted. */
  function ReadBack(t: Target): Target {
    if t.InLayer? && t.layer == DELETED_LAYER then Deleted else t
  }

  /** Writes a map in row order; what is read back is the map, layer number 2^32 - 1 aside. */
  method Write(m: map<nat, Target>) returns (v: Visibility)
    requires Writable(m)
    ensures v.Valid() && v.Map() == map id | id in m :: ReadBack(m[id])
  {
    var ids := Enumerate(m.Keys);
    v := Visibility(seq(|ids|, i requires 0 <= i < |ids| => Override(ids[i], if ids[i] in m then Raw(m[ids[i]]) else 0)));
    WrittenReads(m, ids, v);
  }

  lemma WrittenReads(m: map<nat, Target>, ids: seq<nat>, v: Visibility)
    requires Writable(m) && Lists(ids, m.Keys) && |v.entries| == |ids|
    requires forall i :: 0 <= i < |ids| ==>
      v.entries[i] == Override(ids[i], if ids[i] in m then Raw(m[ids[i]]) else 0)
    ensures v.Valid() && v.Map() == map id | id in m :: ReadBack(m[id])
  {
    forall i | 0 <= i < |ids| ensures v.entries[i].rowId in m && FromRaw(v.entries[i].raw) == Ok(ReadBack(m[v.entries[i].rowId])) {
      assert ids[i] in ids;
    }
    assert v.Valid();
    hide Raw, FromRaw, v.Map, v.Valid;
    forall id ensures (id in v.Map() <==> id in m) && (id in m ==> v.Map()[id] == ReadBack(m[id])) {
      if id in m {
        var i :| 0 <= i < |ids| && ids[i] == id;
        assert v.entries[i].rowId == id;
        v.MapAt(i);
      }
    }
  }
}

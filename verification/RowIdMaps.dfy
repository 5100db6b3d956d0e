/** Stable logical row IDs: the IDs of a dataset's physical rows, in ascending order. */
module RowIdMaps {
  import opened Wrappers
  import opened RowSets

  /** Writes a strictly increasing ID for each of an announced number of rows. */
  class RowIdWriter {
    const expected: nat
    var ids: seq<nat>
    var last: Option<nat>

    ghost predicate Valid()
      reads this
    {
      && |ids| <= expected && Increasing(ids)
      && last == if ids == [] then None else Some(ids[|ids| - 1])
    }

    constructor (rows: nat)
      ensures Valid() && expected == rows && ids == []
    {
      expected, ids, last := rows, [], None;
    }

    /** Refuses an ID past the announced count or not above the last one. */
    method Push(id: nat) returns (r: Result<()>)
      requires Valid()
      modifies this
      ensures Valid()
      ensures r.Ok? <==> |old(ids)| < expected && forall x :: x in old(ids) ==> x < id
      ensures ids == if r.Ok? then old(ids) + [id] else old(ids)
    {
      if |ids| >= expected {
        return Err(InvalidInput);
      }
      if last.Some? && id <= last.value {
        assert ids[|ids| - 1] in ids;
        return Err(InvalidInput);
      }
      ids := ids + [id];
      last := Some(id);
      return Ok(());
    }

    method Finish() returns (r: Result<seq<nat>>)
      requires Valid()
      ensures r.Ok? <==> |ids| == expected
      ensures r.Ok? ==> r.value == ids && Increasing(r.value)
    {
      if |ids| != expected {
        return Err(InvalidInput);
      }
      return Ok(ids);
    }
  }

  datatype RowIdMap = Identity(count: nat) | Explicit(ids: seq<nat>) {
    function Rows(): nat {
      match this
      case Identity(n) => n
      case Explicit(s) => |s|
    }

    /** The ID of every physical row. */
    ghost function Ids(): (s: seq<nat>)
      ensures |s| == Rows()
    {
      match this
      case Identity(n) => Iota(n)
      case Explicit(s) => s
    }

    ghost predicate Valid() {
      Increasing(Ids())
    }

    function Logical(physical: nat): (id: Option<nat>)
      ensures id == if physical < Rows() then Some(Ids()[physical]) else None
    {
      if physical >= Rows() then None
      else match this
        case Identity(_) => Some(physical)
        case Explicit(s) => Some(s[physical])
    }

    /** The physical row of an ID, by binary search. */
    method Physical(id: nat) returns (physical: Option<nat>)
      requires Valid()
      ensures physical.Some? <==> id in Ids()
      ensures physical.Some? ==> physical.value < Rows() && Ids()[physical.value] == id
    {
      match this {
        case Identity(n) =>
          assert id < n ==> Iota(n)[id] == id;
          return if id < n then Some(id) else None;
        case Explicit(s) =>
          var lo, hi := 0, |s|;
          while lo < hi
            invariant 0 <= lo <= hi <= |s|
            invariant forall i :: 0 <= i < lo ==> s[i] < id
            invariant forall i :: hi <= i < |s| ==> id < s[i]
          {
            var mid := lo + (hi - lo) / 2;
            if s[mid] < id {
              lo := mid + 1;
            } else if id < s[mid] {
              hi := mid;
            } else {
              return Some(mid);
            }
          }
          return None;
      }
    }

    /** The greatest ID; none for an empty map. */
    function MaxId(): (id: Option<nat>)
      requires Valid()
      ensures id.None? <==> Rows() == 0
      ensures id.Some? ==> id.value in Ids() && forall x :: x in Ids() ==> x <= id.value
    {
      if Rows() == 0 then None else Logical(Rows() - 1)
    }

    /** Rows from `at` on are those past the cursor. */
    ghost predicate StartsAfter(cursor: Option<nat>, at: nat) {
      Starts(Ids(), cursor, at)
    }

    /** The first physical row past a cursor. */
    method FirstAfter(cursor: Option<nat>) returns (at: nat)
      requires Valid()
      ensures at <= Rows() && StartsAfter(cursor, at)
    {
      at := 0;
      if cursor.None? {
        return;
      }
      var hi := Rows();
      while at < hi
        invariant 0 <= at <= hi <= Rows()
        invariant forall i :: 0 <= i < at ==> Ids()[i] <= cursor.value
        invariant forall i :: hi <= i < Rows() ==> cursor.value < Ids()[i]
      {
        var mid := at + (hi - at) / 2;
        if Logical(mid).value <= cursor.value {
          at := mid + 1;
        } else {
          hi := mid;
        }
      }
    }
  }
}

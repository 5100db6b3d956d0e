/** A versioned dataset: an immutable base and delta layers under a visibility map, read as one map of
    rows. A row is looked up by ID in the layer that owns it, and all visible rows are walked in ID
    order by merging the layers' row IDs. */
module VersionedDatasets {
  import opened Wrappers
  import opened RowSets
  import opened RowIdMaps
  import opened Schemas
  import opened LogicalDatasets
  import opened VisibilityMaps
  import opened SchemaUnions
  import opened Overlays

  /** Layer 0 is the base. */
  datatype Layer = Layer(id: nat, dataset: LogicalDataset)

  function LayerSchemas(layers: seq<Layer>): (schemas: seq<Schema>)
    ensures |schemas| == |layers| && forall i :: 0 <= i < |layers| ==> schemas[i] == layers[i].dataset.schema
  {
    seq(|layers|, i requires 0 <= i < |layers| => layers[i].dataset.schema)
  }

  datatype Versioned = Versioned(layers: seq<Layer>, visibility: Visibility, schema: Schema,
                                 visibleRows: nat, maxRowId: Option<nat>)
  {
    ghost predicate ValidLayer(i: nat)
      requires i < |layers|
    {
      layers[i].dataset.Valid() && Reads(schema, layers[i].dataset.schema)
    }

    ghost predicate ValidLayers() {
      && ValidSchema(schema) && visibility.Valid()
      && forall i :: 0 <= i < |layers| ==> ValidLayer(i)
    }

    /** A layer's rows, under the union schema. */
    ghost function Held(i: nat): (rows: map<nat, Row>)
      requires i < |layers| && ValidLayer(i)
      ensures rows.Keys == layers[i].dataset.IdSet()
    {
      var d := layers[i].dataset;
      map id | id in d.Content() :: Align(SchemaMap(schema, d.schema), d.Content()[id])
    }

    /** The stack this dataset is. */
    ghost function View(): (s: Stack)
      requires ValidLayers()
      ensures |s.held| == |s.numbers| == |layers|
      ensures forall i :: 0 <= i < |layers| ==> s.numbers[i] == layers[i].id && s.held[i] == Held(i)
      ensures s.over == visibility.Map()
    {
      Stack(seq(|layers|, i requires 0 <= i < |layers| && ValidLayers() => Held(i)),
            seq(|layers|, i requires 0 <= i < |layers| => layers[i].id),
            visibility.Map())
    }

    ghost function Rows(): map<nat, Row>
      requires ValidLayers()
    {
      Visible(View())
    }

    ghost predicate Valid(): (valid: bool)
      ensures valid ==> ValidLayers()
    {
      && ValidLayers() && WellFormedStack(View()) && Bounded(View(), maxRowId)
      && visibleRows == |Rows()| <= U64_MAX
      && IsUnion(schema, LayerSchemas(layers))
    }

    // ------------------------------------------------------------------------------- one row

    /** A layer's row under the union schema. */
    method LayerRow(i: nat, id: nat) returns (row: Option<Row>)
      requires i < |layers| && ValidLayer(i)
      ensures row == if id in Held(i) then Some(Held(i)[id]) else None
    {
      var d := layers[i].dataset;
      var physical := d.rowIds.Physical(id);
      if physical.None? {
        return None;
      }
      var values := d.DecodeProjection(physical.value, Iota(|d.schema|));
      d.ContentAt(physical.value);
      assert values.value == d.RowAt(physical.value) by {
        forall k | 0 <= k < |d.schema| ensures values.value[k] == d.RowAt(physical.value)[k] {
          assert IsValueAt(d, physical.value, Iota(|d.schema|)[k], values.value[k]);
        }
      }
      return Some(Align(SchemaMap(schema, d.schema), values.value));
    }

    /** The visible row of an ID, if there is one. */
    method RowValues(id: nat) returns (r: Result<Option<Row>>)
      requires Valid()
      ensures r == Ok(if id in Rows() then Some(Rows()[id]) else None)
    {
      hide *;
      Parts(this);
      ghost var s := View();
      var target := visibility.TargetOf(id);
      if target.Some? && target.value.Deleted? {
        LookupDeleted(s, id);
        return Ok(None);
      }
      if target.Some? {
        var i := LayerNumbered(target.value.layer, id);
        LookupTarget(s, id, i);
        var row := LayerRow(i, id);
        return if row.Some? then Ok(row) else Err(InvalidData);
      }
      var i: nat := |layers|;
      while i > 0
        invariant i <= |layers| && forall j :: i <= j < |layers| ==> id !in s.held[j]
      {
        i := i - 1;
        var row := LayerRow(i, id);
        if row.Some? {
          LookupHeld(s, id, i);
          return Ok(row);
        }
      }
      LookupNowhere(s, id);
      return Ok(None);
    }

    /** The layer with a number an override names. */
    method LayerNumbered(number: nat, ghost id: nat) returns (i: nat)
      requires Valid() && id in View().over && View().over[id] == InLayer(number)
      ensures i < |layers| && layers[i].id == number
    {
      hide *;
      TargetNumbered(this, number, id);
      i := 0;
      while i < |layers| && layers[i].id != number
        invariant i <= |layers| && forall j :: 0 <= j < i ==> layers[j].id != number
      {
        i := i + 1;
      }
    }

    // ---------------------------------------------------------------------------- all rows

    /** The visible rows in ID order, by merging the layers' row IDs. */
    method ForEachVisibleRow() returns (out: seq<Entry>)
      requires Valid()
      ensures Records(Rows(), out)
    {
      hide *;
      Parts(this);
      var positions: seq<nat> := seq(|layers|, _ => 0);
      out := [];
      ghost var bound: nat := 0;
      MergeStarts(this, positions);
      NothingEmitted(Rows());
      while true
        invariant MergedTo(this, positions, bound) && bound <= U64_MAX + 1
        invariant EmittedTo(Rows(), out, bound)
        decreases U64_MAX + 1 - bound
      {
        var next := NextId(positions, bound);
        if next.None? {
          break;
        }
        positions := Advance(positions, next.value, bound);
        var values := RowValues(next.value);
        NothingAhead(this, bound, next.value);
        EmitStep(Rows(), out, bound, next.value);
        if values.value.Some? {
          out := out + [(next.value, values.value.value)];
        }
        bound := next.value + 1;
      }
      AllEmitted(this, out, bound);
    }

    /** The least ID not yet passed, over all layers. */
    method NextId(positions: seq<nat>, ghost bound: nat) returns (next: Option<nat>)
      requires ValidLayers() && MergedTo(this, positions, bound)
      ensures next.None? ==> forall i, id :: 0 <= i < |layers| && id in Held(i) ==> id < bound
      ensures next.Some? ==> bound <= next.value <= U64_MAX
      ensures next.Some? ==> forall i, id :: 0 <= i < |layers| && id in Held(i) ==> id < bound || next.value <= id
    {
      hide *;
      next := None;
      NoHeads(this, bound);
      PositionsMatch(this, positions, bound);
      for i := 0 to |layers|
        invariant LeastHead(this, i, next, bound)
      {
        NextHead(this, positions, i, next, bound);
        var ids := layers[i].dataset.rowIds;
        if positions[i] < ids.Rows() {
          var id := ids.Logical(positions[i]).value;
          next := Some(if next.None? || id < next.value then id else next.value);
        }
      }
      LeastHeadMeans(this, next, bound);
    }

    /** Every layer steps past the ID. */
    method Advance(positions: seq<nat>, id: nat, ghost bound: nat) returns (out: seq<nat>)
      requires ValidLayers() && MergedTo(this, positions, bound) && bound <= id
      requires forall i, x :: 0 <= i < |layers| && x in Held(i) ==> x < bound || id <= x
      ensures MergedTo(this, out, id + 1)
    {
      hide *;
      out := positions;
      StillMerged(this, positions, bound, id);
      for i := 0 to |layers|
        invariant |out| == |layers|
        invariant forall j :: 0 <= j < i ==> MergedIn(this, j, out[j], id + 1)
        invariant forall j :: i <= j < |layers| ==> Mergeable(this, j, out[j], bound, id)
      {
        var d := layers[i].dataset;
        var p := out[i];
        AdvanceOne(this, i, p, bound, id);
        while p < d.rowIds.Rows() && d.rowIds.Logical(p) == Some(id)
          invariant (p == out[i] && Mergeable(this, i, p, bound, id)) || MergedIn(this, i, p, id + 1)
          decreases d.rowIds.Rows() - p
        {
          Passed(this, i, p, id);
          p := p + 1;
        }
        out := out[i := p];
      }
      AllMerged(this, out, id + 1);
    }
  }

  lemma Parts(v: Versioned)
    requires v.Valid()
    ensures v.ValidLayers() && WellFormedStack(v.View()) && v.Rows() == Visible(v.View())
    ensures v.visibility.Valid()
    ensures forall i :: 0 <= i < |v.layers| ==> v.ValidLayer(i)
    ensures forall i, id :: 0 <= i < |v.layers| && id in v.Held(i) ==> id <= U64_MAX
  {
    forall i, id | 0 <= i < |v.layers| && id in v.Held(i) ensures id <= U64_MAX {
      assert v.ValidLayer(i);
    }
  }

  // ---------------------------------------------------------------------------- merging row IDs

  /** A position separates the IDs below the bound from the rest. */
  ghost predicate Separates(ids: RowIdMap, p: nat, bound: nat) {
    && p <= ids.Rows()
    && (forall k :: 0 <= k < p ==> ids.Ids()[k] < bound)
    && (forall k :: p <= k < ids.Rows() ==> bound <= ids.Ids()[k])
  }

  ghost predicate MergedIn(v: Versioned, i: nat, p: nat, bound: nat)
    requires i < |v.layers|
  {
    Separates(v.layers[i].dataset.rowIds, p, bound)
  }

  ghost predicate MergedTo(v: Versioned, positions: seq<nat>, bound: nat) {
    && |positions| == |v.layers|
    && forall i :: 0 <= i < |v.layers| ==> MergedIn(v, i, positions[i], bound)
  }

  lemma MergeStarts(v: Versioned, positions: seq<nat>)
    requires |positions| == |v.layers| && forall i :: 0 <= i < |positions| ==> positions[i] == 0
    ensures MergedTo(v, positions, 0)
  {
  }

  /** At a layer's position, an ID below the bound is behind and an ID from `id` on ahead. */
  ghost predicate Mergeable(v: Versioned, i: nat, p: nat, bound: nat, id: nat)
    requires i < |v.layers|
  {
    && MergedIn(v, i, p, bound) && bound <= id && v.ValidLayer(i)
    && forall x :: x in v.Held(i) ==> x < bound || id <= x
  }

  lemma StillMerged(v: Versioned, positions: seq<nat>, bound: nat, id: nat)
    requires v.ValidLayers() && MergedTo(v, positions, bound) && bound <= id
    requires forall i, x :: 0 <= i < |v.layers| && x in v.Held(i) ==> x < bound || id <= x
    ensures |positions| == |v.layers|
    ensures forall i :: 0 <= i < |v.layers| ==> Mergeable(v, i, positions[i], bound, id)
  {
    forall i | 0 <= i < |v.layers| ensures Mergeable(v, i, positions[i], bound, id) {
      assert v.ValidLayer(i);
    }
  }

  lemma AdvanceOne(v: Versioned, i: nat, p: nat, bound: nat, id: nat)
    requires i < |v.layers| && Mergeable(v, i, p, bound, id)
    ensures var ids := v.layers[i].dataset.rowIds;
            MergedIn(v, i, if p < ids.Rows() && ids.Logical(p) == Some(id) then p + 1 else p, id + 1)
  {
    var ids := v.layers[i].dataset.rowIds;
    forall k | 0 <= k < ids.Rows() ensures ids.Ids()[k] < bound || id <= ids.Ids()[k] {
      assert ids.Ids()[k] in v.Held(i);
    }
    assert ids.Valid();
    StepOver(ids, p, bound, id);
  }

  lemma StepOver(ids: RowIdMap, p: nat, bound: nat, id: nat)
    requires ids.Valid() && Separates(ids, p, bound) && bound <= id
    requires forall k :: 0 <= k < ids.Rows() ==> ids.Ids()[k] < bound || id <= ids.Ids()[k]
    ensures Separates(ids, if p < ids.Rows() && ids.Logical(p) == Some(id) then p + 1 else p, id + 1)
  {
  }

  lemma Passed(v: Versioned, i: nat, p: nat, id: nat)
    requires i < |v.layers|
    ensures MergedIn(v, i, p, id + 1) ==>
              !(p < v.layers[i].dataset.rowIds.Rows() && v.layers[i].dataset.rowIds.Logical(p) == Some(id))
  {
  }

  lemma AllMerged(v: Versioned, positions: seq<nat>, bound: nat)
    requires |positions| == |v.layers| && forall i :: 0 <= i < |v.layers| ==> MergedIn(v, i, positions[i], bound)
    ensures MergedTo(v, positions, bound)
  {
  }

  lemma TargetNumbered(v: Versioned, number: nat, id: nat)
    requires v.Valid() && id in v.View().over && v.View().over[id] == InLayer(number)
    ensures exists i :: 0 <= i < |v.layers| && v.layers[i].id == number
  {
    var s := v.View();
    assert HasLayer(s, number, id);
    var i :| 0 <= i < |s.held| && s.numbers[i] == number && id in s.held[i];
  }

  /** The least unpassed ID of the first n layers. */
  ghost predicate LeastHead(v: Versioned, n: nat, next: Option<nat>, bound: nat)
    requires v.ValidLayers() && n <= |v.layers|
  {
    && (next.Some? ==> bound <= next.value <= U64_MAX)
    && forall i, id :: 0 <= i < n && id in v.Held(i) ==> id < bound || (next.Some? && next.value <= id)
  }

  lemma NoHeads(v: Versioned, bound: nat)
    requires v.ValidLayers()
    ensures LeastHead(v, 0, None, bound)
  {
  }

  lemma PositionsMatch(v: Versioned, positions: seq<nat>, bound: nat)
    requires MergedTo(v, positions, bound)
    ensures |positions| == |v.layers|
  {
  }

  lemma LeastHeadMeans(v: Versioned, next: Option<nat>, bound: nat)
    requires v.ValidLayers() && LeastHead(v, |v.layers|, next, bound)
    ensures next.Some? ==> bound <= next.value <= U64_MAX
    ensures forall i, id :: 0 <= i < |v.layers| && id in v.Held(i) ==> id < bound || (next.Some? && next.value <= id)
  {
  }

  lemma NextHead(v: Versioned, positions: seq<nat>, i: nat, next: Option<nat>, bound: nat)
    requires v.ValidLayers() && MergedTo(v, positions, bound) && i < |v.layers| && LeastHead(v, i, next, bound)
    ensures i < |positions|
    ensures var ids := v.layers[i].dataset.rowIds;
            if positions[i] < ids.Rows() then
              ids.Logical(positions[i]).Some?
              && (var id := ids.Logical(positions[i]).value;
                  LeastHead(v, i + 1, Some(if next.None? || id < next.value then id else next.value), bound))
            else LeastHead(v, i + 1, next, bound)
  {
    hide *;
    PositionsMatch(v, positions, bound);
    PositionAt(v, positions, i, bound);
    HeadIsLeast(v, i, positions[i], bound);
    LeastHeadStep(v, i, next, bound, v.layers[i].dataset.rowIds.Logical(positions[i]));
  }

  lemma PositionAt(v: Versioned, positions: seq<nat>, i: nat, bound: nat)
    requires v.ValidLayers() && MergedTo(v, positions, bound) && i < |v.layers| == |positions|
    ensures v.ValidLayer(i) && MergedIn(v, i, positions[i], bound)
  {
  }

  lemma LeastHeadStep(v: Versioned, i: nat, next: Option<nat>, bound: nat, head: Option<nat>)
    requires v.ValidLayers() && i < |v.layers| && v.ValidLayer(i) && LeastHead(v, i, next, bound)
    ensures (forall id :: id in v.Held(i) ==> id < bound) ==> LeastHead(v, i + 1, next, bound)
    ensures head.Some? && bound <= head.value <= U64_MAX && (forall id :: id in v.Held(i) ==> id < bound || head.value <= id) ==>
              LeastHead(v, i + 1, Some(if next.None? || head.value < next.value then head.value else next.value), bound)
  {
    hide v.ValidLayers, v.ValidLayer, v.Held;
  }

  lemma HeadIsLeast(v: Versioned, i: nat, p: nat, bound: nat)
    requires i < |v.layers| && v.ValidLayer(i) && MergedIn(v, i, p, bound)
    ensures var ids := v.layers[i].dataset.rowIds;
            if p < ids.Rows() then
              ids.Logical(p).Some? && bound <= ids.Logical(p).value <= U64_MAX
              && forall id :: id in v.Held(i) ==> id < bound || ids.Logical(p).value <= id
            else forall id :: id in v.Held(i) ==> id < bound
  {
    var ids := v.layers[i].dataset.rowIds;
    assert ids.Valid() && forall id :: id in ids.Ids() ==> id <= U64_MAX;
    assert forall id :: id in v.Held(i) ==> id in ids.Ids();
    hide v.ValidLayer, v.Held;
    SeparatedHead(ids, p, bound);
  }

  lemma SeparatedHead(ids: RowIdMap, p: nat, bound: nat)
    requires ids.Valid() && Separates(ids, p, bound)
    ensures p < ids.Rows() ==> ids.Logical(p).Some? && ids.Logical(p).value in ids.Ids() && bound <= ids.Logical(p).value
    ensures forall id :: id in ids.Ids() ==> id < bound || (p < ids.Rows() && ids.Logical(p).value <= id)
  {
    forall id | id in ids.Ids() ensures id < bound || (p < ids.Rows() && ids.Ids()[p] <= id) {
      var k :| 0 <= k < |ids.Ids()| && ids.Ids()[k] == id;
    }
  }

  /** The rows below the bound have been emitted. */
  ghost predicate EmittedTo(rows: map<nat, Row>, out: seq<Entry>, bound: nat) {
    && Lists(EntryIds(out), RowSets.Below(rows.Keys, bound))
    && Emits(rows, out)
  }

  ghost predicate Emits(rows: map<nat, Row>, out: seq<Entry>) {
    forall k :: 0 <= k < |out| ==> out[k].0 in rows && rows[out[k].0] == out[k].1
  }

  /** The layer that a visible row comes from. */
  lemma OwnerLayer(v: Versioned, id: nat) returns (i: nat)
    requires v.ValidLayers() && id in v.Rows()
    ensures i < |v.layers| && v.ValidLayer(i) && id in v.Held(i) && v.Rows()[id] == v.Held(i)[id]
  {
    i := OwnerOf(v.View(), id);
  }

  lemma VisibleHeld(v: Versioned, id: nat)
    requires v.ValidLayers() && id in v.Rows()
    ensures exists i :: 0 <= i < |v.layers| && id in v.Held(i)
  {
    hide *;
    var i := OwnerLayer(v, id);
  }

  lemma NothingAhead(v: Versioned, bound: nat, id: nat)
    requires v.ValidLayers()
    requires forall i, x :: 0 <= i < |v.layers| && x in v.Held(i) ==> x < bound || id <= x
    ensures forall x :: x in v.Rows().Keys ==> x < bound || id <= x
  {
    hide *;
    forall x | x in v.Rows().Keys ensures x < bound || id <= x {
      VisibleHeld(v, x);
    }
  }

  lemma NothingEmitted(rows: map<nat, Row>)
    ensures EmittedTo(rows, [], 0)
  {
    var none: seq<nat> := [];
    assert EntryIds([]) == none;
    assert RowSets.Below(rows.Keys, 0) == {};
  }

  lemma EmitStep(rows: map<nat, Row>, out: seq<Entry>, bound: nat, id: nat)
    requires EmittedTo(rows, out, bound) && bound <= id
    requires forall x :: x in rows.Keys ==> x < bound || id <= x
    ensures id !in rows ==> EmittedTo(rows, out, id + 1)
    ensures id in rows ==> EmittedTo(rows, out + [(id, rows[id])], id + 1)
  {
    var K := rows.Keys;
    if id in K {
      assert RowSets.Below(K, id + 1) == RowSets.Below(K, bound) + {id};
      ListsSnoc(EntryIds(out), RowSets.Below(K, bound), id);
      assert EntryIds(out + [(id, rows[id])]) == EntryIds(out) + [id];
    } else {
      assert RowSets.Below(K, id + 1) == RowSets.Below(K, bound);
    }
  }

  lemma EmittedAll(rows: map<nat, Row>, out: seq<Entry>, bound: nat)
    requires EmittedTo(rows, out, bound) && forall x :: x in rows.Keys ==> x < bound
    ensures Records(rows, out)
  {
    assert RowSets.Below(rows.Keys, bound) == rows.Keys;
  }

  lemma AllEmitted(v: Versioned, out: seq<Entry>, bound: nat)
    requires v.ValidLayers() && EmittedTo(v.Rows(), out, bound)
    requires forall i, id :: 0 <= i < |v.layers| && id in v.Held(i) ==> id < bound
    ensures Records(v.Rows(), out)
  {
    hide *;
    forall x | x in v.Rows().Keys ensures x < bound {
      VisibleHeld(v, x);
    }
    EmittedAll(v.Rows(), out, bound);
  }

  // --------------------------------------------------------------------------------- opening

  /** Every override's layer is there. */
  ghost predicate TargetsExist(layers: seq<Layer>, visibility: Visibility)
    requires visibility.Valid()
  {
    forall id :: id in visibility.Map() && visibility.Map()[id].InLayer? ==>
      exists i :: 0 < i < |layers| && layers[i].id == visibility.Map()[id].layer
  }

  /** Opens a generation: the union schema is computed from the layers, and the overrides are checked
      against them. */
  method Open(layers: seq<Layer>, visibility: Visibility, visibleRows: nat, maxRowId: Option<nat>) returns (r: Result<Versioned>)
    requires layers != [] && visibility.Valid() && forall i :: 0 <= i < |layers| ==> layers[i].dataset.Valid()
    ensures r.Ok? <==>
              && TargetsExist(layers, visibility)
              && forall i, j :: 0 <= i < |layers| && 0 <= j < |layers| ==> Agrees(layers[i].dataset.schema, layers[j].dataset.schema)
    ensures r.Ok? ==>
              && r.value.layers == layers && r.value.visibility == visibility
              && r.value.visibleRows == visibleRows && r.value.maxRowId == maxRowId
              && r.value.ValidLayers() && IsUnion(r.value.schema, LayerSchemas(layers))
  {
    hide *;
    var schemas := LayerSchemas(layers);
    ValidSchemas(layers);
    var merged := MergeLayerSchemas(schemas);
    SchemasAgree(layers, schemas);
    if merged.Err? {
      return Err(merged.error);
    }
    var exist := CheckTargets(layers, visibility);
    if !exist {
      return Err(InvalidData);
    }
    var v := Versioned(layers, visibility, merged.value, visibleRows, maxRowId);
    OpenedValid(v);
    return Ok(v);
  }

  method CheckTargets(layers: seq<Layer>, visibility: Visibility) returns (ok: bool)
    requires visibility.Valid()
    ensures ok <==> TargetsExist(layers, visibility)
  {
    for k := 0 to |visibility.entries|
      invariant forall j :: 0 <= j < k && FromRaw(visibility.entries[j].raw).value.InLayer? ==>
                  exists i :: 0 < i < |layers| && layers[i].id == FromRaw(visibility.entries[j].raw).value.layer
    {
      hide visibility.Map;
      visibility.MapAt(k);
      var target := FromRaw(visibility.entries[k].raw).value;
      if target.InLayer? && !exists i | 0 < i < |layers| :: layers[i].id == target.layer {
        return false;
      }
    }
    return true;
  }

  lemma ValidSchemas(layers: seq<Layer>)
    requires forall i :: 0 <= i < |layers| ==> layers[i].dataset.Valid()
    ensures forall i :: 0 <= i < |layers| ==> ValidSchema(LayerSchemas(layers)[i])
  {
  }

  lemma SchemasAgree(layers: seq<Layer>, schemas: seq<Schema>)
    requires schemas == LayerSchemas(layers)
    ensures (forall i, j :: 0 <= i < |layers| && 0 <= j < |layers| ==> Agrees(layers[i].dataset.schema, layers[j].dataset.schema)) <==>
            (forall i, j :: 0 <= i < |schemas| && 0 <= j < |schemas| ==> Agrees(schemas[i], schemas[j]))
  {
    hide Agrees;
    if forall i, j :: 0 <= i < |layers| && 0 <= j < |layers| ==> Agrees(layers[i].dataset.schema, layers[j].dataset.schema) {
      forall i, j | 0 <= i < |schemas| && 0 <= j < |schemas| ensures Agrees(schemas[i], schemas[j]) {
        assert Agrees(layers[i].dataset.schema, layers[j].dataset.schema);
      }
    }
    if forall i, j :: 0 <= i < |schemas| && 0 <= j < |schemas| ==> Agrees(schemas[i], schemas[j]) {
      forall i, j | 0 <= i < |layers| && 0 <= j < |layers| ensures Agrees(layers[i].dataset.schema, layers[j].dataset.schema) {
        assert Agrees(schemas[i], schemas[j]);
      }
    }
  }

  lemma OpenedValid(v: Versioned)
    requires ValidSchema(v.schema) && v.visibility.Valid() && IsUnion(v.schema, LayerSchemas(v.layers))
    requires forall i :: 0 <= i < |v.layers| ==> v.layers[i].dataset.Valid()
    ensures v.ValidLayers()
  {
    hide Reads;
    forall i | 0 <= i < |v.layers| ensures v.ValidLayer(i) {
      assert Reads(v.schema, LayerSchemas(v.layers)[i]);
    }
  }
}

/** Writing a transaction as one immutable delta layer: new versions of updated rows and the inserted
    rows go into the layer, the visibility map redirects the updated IDs to it and marks the deleted
    ones. The new dataset denotes what the mutations mean one at a time. */
module DeltaWrites {
  import opened Wrappers
  import opened RowSets
  import opened Schemas
  import opened SchemaUnions
  import opened LogicalDatasets
  import opened VisibilityMaps
  import opened Overlays
  import opened VersionedDatasets
  import opened DatasetBuilds
  import opened Mutations
  import opened Rebuilds

  function FirstNewId(v: Versioned): nat {
    if v.maxRowId.None? then 0 else v.maxRowId.value + 1
  }

  function LastNumber(layers: seq<Layer>): nat {
    if layers == [] then 0 else layers[|layers| - 1].id
  }

  /** The rows of the delta layer: patched rows and inserted rows. */
  ghost function DeltaRows(rows: map<nat, Row>, p: Prepared, first: nat): map<nat, Row> {
    map id | id in p.updates.Keys + InsertedIds(p, first) && id in PreparedRows(rows, p, first) :: PreparedRows(rows, p, first)[id]
  }

  ghost function ChangeOf(rows: map<nat, Row>, p: Prepared, first: nat, number: nat): Change {
    Change(number, DeltaRows(rows, p, first), p.updates.Keys, p.deletes)
  }

  // ----------------------------------------------------------------------------- what is known

  lemma VisibleRowValid(v: Versioned, id: nat)
    requires v.Valid() && id in v.Rows()
    ensures ValidRow(v.schema, v.Rows()[id])
    ensures id < FirstNewId(v)
  {
    hide *;
    var i := OwnerLayer(v, id);
    UnionFacts(v);
    HeldRowValid(v, i, id);
    HeldBounded(v, i, id);
    FirstIs(v);
  }

  lemma HeldBounded(v: Versioned, i: nat, id: nat)
    requires v.Valid() && i < |v.layers| && v.ValidLayer(i) && id in v.Held(i)
    ensures v.maxRowId.Some? && id <= v.maxRowId.value
  {
    assert id in v.View().held[i];
  }

  lemma HeldRowValid(v: Versioned, i: nat, id: nat)
    requires i < |v.layers| && v.ValidLayer(i) && id in v.Held(i) && ValidSchema(v.schema)
    ensures ValidRow(v.schema, v.Held(i)[id])
  {
    var d := v.layers[i].dataset;
    d.ContentRows(id);
    AlignedRow(v.schema, d.schema, d.Content()[id]);
  }

  lemma VisibleRowsValid(v: Versioned)
    requires v.Valid()
    ensures ValidSchema(v.schema) && IdsBelow(v.Rows(), FirstNewId(v))
    ensures forall id :: id in v.Rows() ==> ValidRow(v.schema, v.Rows()[id])
    ensures v.layers != [] && v.visibility.Valid() && v.visibleRows == |v.Rows()| <= U64_MAX
    ensures v.maxRowId.Some? ==> v.maxRowId.value <= U64_MAX
  {
    forall id | id in v.Rows() ensures ValidRow(v.schema, v.Rows()[id]) && id < FirstNewId(v) {
      VisibleRowValid(v, id);
    }
  }

  /** The change is one the stack can take. */
  lemma ChangeApplies(v: Versioned, p: Prepared, number: nat)
    requires v.Valid() && ValidPrepared(v.schema, v.Rows(), p)
    requires number == LastNumber(v.layers) + 1
    requires (p.updates == map[] && p.inserts == []) || number <= U32_MAX
    ensures Applies(v.View(), ChangeOf(v.Rows(), p, FirstNewId(v), number))
    ensures WellFormedStack(v.View())
  {
    hide *;
    var first := FirstNewId(v);
    VisibleRowsValid(v);
    LastIsGreatest(v);
    forall id | id in InsertedIds(p, first)
      ensures id !in v.View().over && forall i :: 0 <= i < |v.View().held| ==> id !in v.View().held[i]
    {
      SpanStart(p, first);
      InSpan(first, |p.inserts|, id);
      NewIdUnknown(v, id);
    }
    RowsAreVisible(v);
    ChangeAppliesTo(v.View(), v.schema, v.Rows(), p, first, number);
  }

  lemma InSpan(first: nat, k: nat, id: nat)
    requires id in Span(first, k)
    ensures first <= id < first + k
  {
  }

  lemma RowsAreVisible(v: Versioned)
    requires v.ValidLayers()
    ensures v.Rows() == Visible(v.View())
  {
  }

  lemma ChangeAppliesTo(s: Stack, schema: Schema, rows: map<nat, Row>, p: Prepared, first: nat, number: nat)
    requires WellFormedStack(s) && rows == Visible(s) && ValidPrepared(schema, rows, p) && IdsBelow(rows, first)
    requires forall i :: 0 <= i < |s.numbers| ==> s.numbers[i] < number
    requires (p.updates == map[] && p.inserts == []) || number <= U32_MAX
    requires forall id :: id in InsertedIds(p, first) ==> id !in s.over && forall i :: 0 <= i < |s.held| ==> id !in s.held[i]
    ensures Applies(s, ChangeOf(rows, p, first, number))
  {
    DeltaKeys(rows, p, first);
    hide DeltaRows, ValidPatch, ValidRow;
    var c := ChangeOf(rows, p, first, number);
    forall id | id in c.layer && id !in c.updated
      ensures id !in s.over && id !in c.deleted && forall i :: 0 <= i < |s.held| ==> id !in s.held[i]
    {
      assert id in InsertedIds(p, first);
    }
  }

  lemma NewIdUnknown(v: Versioned, id: nat)
    requires v.Valid() && FirstNewId(v) <= id
    ensures id !in v.View().over && forall i :: 0 <= i < |v.View().held| ==> id !in v.View().held[i]
    ensures id !in v.Rows()
  {
    VisibleRowsValid(v);
  }

  lemma LastIsGreatest(v: Versioned)
    requires v.Valid()
    ensures WellFormedStack(v.View())
    ensures forall i :: 0 <= i < |v.View().numbers| ==> v.View().numbers[i] < LastNumber(v.layers) + 1
  {
    assert WellFormedStack(v.View());
    hide v.Valid, v.ValidLayers, WellFormedStack;
    NumbersAscend(v.View());
    assert |v.layers| > 0 && LastNumber(v.layers) == v.View().numbers[|v.layers| - 1];
  }

  lemma NumbersAscend(s: Stack)
    requires WellFormedStack(s)
    ensures |s.numbers| > 0 && forall i :: 0 <= i < |s.numbers| ==> s.numbers[i] <= s.numbers[|s.numbers| - 1]
  {
  }

  lemma DeltaKeys(rows: map<nat, Row>, p: Prepared, first: nat)
    requires p.updates.Keys <= rows.Keys && p.updates.Keys !! p.deletes
    ensures DeltaRows(rows, p, first).Keys == p.updates.Keys + InsertedIds(p, first)
    ensures PreparedRows(rows, p, first).Keys == (rows.Keys - p.deletes) + InsertedIds(p, first)
    ensures forall id :: id in DeltaRows(rows, p, first) ==> DeltaRows(rows, p, first)[id] == PreparedRows(rows, p, first)[id]
    ensures DeltaRows(rows, p, first) == map[] <==> p.updates == map[] && p.inserts == []
    ensures forall id :: id in rows && id !in p.updates && id !in p.deletes && id !in InsertedIds(p, first) ==>
              PreparedRows(rows, p, first)[id] == rows[id]
  {
    hide Patch;
    var layer := DeltaRows(rows, p, first);
    assert layer.Keys == p.updates.Keys + InsertedIds(p, first);
    if p.inserts != [] {
      assert first in InsertedIds(p, first);
    }
    if p.updates == map[] && p.inserts == [] {
      assert layer.Keys == {};
    }
    if p.updates != map[] {
      var id :| id in p.updates;
      assert id in layer;
    }
  }

  /** The change makes of the visible rows what the transaction means. */
  lemma ChangedRows(rows: map<nat, Row>, p: Prepared, first: nat, number: nat)
    requires p.updates.Keys <= rows.Keys && p.deletes <= rows.Keys && p.updates.Keys !! p.deletes && IdsBelow(rows, first)
    ensures Changed(rows, ChangeOf(rows, p, first, number), {}) == PreparedRows(rows, p, first)
    ensures Changed(rows, ChangeOf(rows, p, first, number), p.updates.Keys) == PreparedRows(rows, p, first) - p.updates.Keys
  {
    DeltaKeys(rows, p, first);
    hide DeltaRows, PreparedRows;
    var c := ChangeOf(rows, p, first, number);
    assert c.layer.Keys - c.updated == InsertedIds(p, first);
    assert Changed(rows, c, {}) == PreparedRows(rows, p, first);
    assert Changed(rows, c, p.updates.Keys) == PreparedRows(rows, p, first) - p.updates.Keys;
  }

  lemma PreparedSize(rows: map<nat, Row>, p: Prepared, first: nat)
    requires p.updates.Keys <= rows.Keys && p.deletes <= rows.Keys && p.updates.Keys !! p.deletes && IdsBelow(rows, first)
    ensures |PreparedRows(rows, p, first)| == |rows| - |p.deletes| + |p.inserts|
    ensures |p.deletes| <= |rows|
  {
    DeltaKeys(rows, p, first);
    InsertedSize(p, first);
    hide DeltaRows, PreparedRows;
    assert rows.Keys !! InsertedIds(p, first);
    KeptSize(rows.Keys, p.deletes, InsertedIds(p, first));
    SubsetSize(p.deletes, rows.Keys);
    assert |PreparedRows(rows, p, first).Keys| == |PreparedRows(rows, p, first)|;
    assert |rows.Keys| == |rows|;
  }

  lemma InsertedSize(p: Prepared, first: nat)
    ensures |InsertedIds(p, first)| == |p.inserts|
  {
    SpanSize(first, |p.inserts|);
    SpanStart(p, first);
  }

  // ------------------------------------------------------------------------- gathering the rows

  /** Part of a map: these of its rows. */
  ghost predicate PartOf(part: map<nat, Row>, whole: map<nat, Row>, ids: set<nat>) {
    part.Keys == ids && forall id :: id in part ==> id in whole && part[id] == whole[id]
  }

  lemma PartGrows(part: map<nat, Row>, whole: map<nat, Row>, ids: set<nat>, id: nat, row: Row)
    requires PartOf(part, whole, ids) && id in whole && whole[id] == row
    ensures PartOf(part[id := row], whole, ids + {id})
  {
  }

  lemma PartWhole(part: map<nat, Row>, whole: map<nat, Row>)
    requires PartOf(part, whole, whole.Keys)
    ensures part == whole
  {
  }

  /** New versions of the updated rows. */
  method UpdatedRows(v: Versioned, p: Prepared, ghost first: nat) returns (rows: map<nat, Row>)
    requires v.Valid() && p.updates.Keys <= v.Rows().Keys && p.updates.Keys !! p.deletes
    requires IdsBelow(v.Rows(), first)
    ensures PartOf(rows, DeltaRows(v.Rows(), p, first), p.updates.Keys)
  {
    hide *;
    UpdatedVersions(v.Rows(), p, first);
    rows := map[];
    var left := p.updates.Keys;
    assert PartOf(map[], DeltaRows(v.Rows(), p, first), {}) by { PartEmpty(DeltaRows(v.Rows(), p, first)); }
    assert p.updates.Keys - left == {};
    while left != {}
      invariant left <= p.updates.Keys && PartOf(rows, DeltaRows(v.Rows(), p, first), p.updates.Keys - left)
      decreases |left|
    {
      var id :| id in left;
      var row := v.RowValues(id);
      PartGrows(rows, DeltaRows(v.Rows(), p, first), p.updates.Keys - left, id, Patch(row.value.value, p.updates[id]));
      rows := rows[id := Patch(row.value.value, p.updates[id])];
      assert p.updates.Keys - (left - {id}) == (p.updates.Keys - left) + {id};
      left := left - {id};
    }
    assert p.updates.Keys - left == p.updates.Keys;
  }

  lemma PartEmpty(whole: map<nat, Row>)
    ensures PartOf(map[], whole, {})
  {
  }

  /** New versions of the updated rows, then the inserted rows under fresh IDs. */
  method GatherDelta(v: Versioned, p: Prepared) returns (r: Result<map<nat, Row>>)
    requires v.Valid() && p.updates.Keys <= v.Rows().Keys && p.updates.Keys !! p.deletes
    requires IdsBelow(v.Rows(), FirstNewId(v)) && (v.maxRowId.Some? ==> v.maxRowId.value <= U64_MAX)
    ensures r.Ok? <==> p.inserts == [] || FirstNewId(v) + |p.inserts| <= U64_MAX
    ensures r.Ok? ==> r.value == DeltaRows(v.Rows(), p, FirstNewId(v))
  {
    hide *;
    ghost var first := FirstNewId(v);
    FirstIs(v);
    ghost var layer := DeltaRows(v.Rows(), p, first);
    var rows: map<nat, Row> := UpdatedRows(v, p, first);
    UpdatedVersions(v.Rows(), p, first);
    DeltaKeys(v.Rows(), p, first);
    SpanStart(p, first);
    assert p.updates.Keys + Span(first, 0) == p.updates.Keys;
    var next: nat := if v.maxRowId.None? then 0 else if v.maxRowId.value == U64_MAX then U64_MAX else v.maxRowId.value + 1;
    for k := 0 to |p.inserts|
      invariant k > 0 ==> next == first + k <= U64_MAX
      invariant k == 0 ==> next == first || (v.maxRowId == Some(U64_MAX) && next == U64_MAX)
      invariant PartOf(rows, layer, p.updates.Keys + Span(first, k))
    {
      if v.maxRowId == Some(U64_MAX) || (next == U64_MAX && rows != map[]) {
        return Err(Overflow);
      }
      PartGrows(rows, layer, p.updates.Keys + Span(first, k), next, p.inserts[k]);
      SpanNext(first, k);
      assert p.updates.Keys + Span(first, k) + {first + k} == p.updates.Keys + Span(first, k + 1);
      rows := rows[next := p.inserts[k]];
      if next == U64_MAX {
        return Err(Overflow);
      }
      next := next + 1;
    }
    PartWhole(rows, layer);
    return Ok(rows);
  }

  lemma FirstIs(v: Versioned)
    ensures FirstNewId(v) == if v.maxRowId.None? then 0 else v.maxRowId.value + 1
  {
  }

  lemma SpanStart(p: Prepared, first: nat)
    ensures Span(first, 0) == {} && Span(first, |p.inserts|) == InsertedIds(p, first)
  {
  }

  lemma UpdatedVersions(rows: map<nat, Row>, p: Prepared, first: nat)
    requires p.updates.Keys <= rows.Keys && p.updates.Keys !! p.deletes && IdsBelow(rows, first)
    ensures forall id :: id in p.updates ==>
              id in rows && id in DeltaRows(rows, p, first) && DeltaRows(rows, p, first)[id] == Patch(rows[id], p.updates[id])
    ensures forall k :: 0 <= k < |p.inserts| ==>
              first + k in DeltaRows(rows, p, first) && DeltaRows(rows, p, first)[first + k] == p.inserts[k]
  {
    DeltaKeys(rows, p, first);
    hide Patch, DeltaRows;
    forall k | 0 <= k < |p.inserts| ensures first + k in DeltaRows(rows, p, first) && DeltaRows(rows, p, first)[first + k] == p.inserts[k] {
      assert first + k in InsertedIds(p, first);
    }
    forall id | id in p.updates ensures PreparedRows(rows, p, first)[id] == Patch(rows[id], p.updates[id]) {
      assert id < first;
    }
  }

  /** The rows of a map in ID order. */
  method EntriesOf(rows: map<nat, Row>) returns (entries: seq<Entry>)
    ensures Records(rows, entries)
  {
    var ids := Enumerate(rows.Keys);
    entries := [];
    for k := 0 to |ids|
      invariant |entries| == k
      invariant forall j :: 0 <= j < k ==> entries[j].0 == ids[j] && ids[j] in rows && entries[j].1 == rows[ids[j]]
    {
      assert ids[k] in ids;
      entries := entries + [(ids[k], rows[ids[k]])];
    }
    assert EntryIds(entries) == ids;
  }

  // ---------------------------------------------------------------------------- the transaction

  function BaseAccelerators(v: Versioned): seq<seq<nat>> {
    if v.layers == [] then [] else Accelerators(v.layers[0].dataset.engine.rowHier)
  }

  /** The new versions and new rows of a transaction: what its delta layer has to hold. */
  ghost function NewVersions(t: Transaction, first: nat): map<nat, Row> {
    map id | id in t.rows && (id in t.updated || first <= id) :: t.rows[id]
  }

  /** What stops a transaction: a bad configuration, a failing mutation, no row left, no ID left, no
      layer number left, or a delta layer that cannot be built. */
  ghost predicate Obstructed(v: Versioned, mutations: seq<Mutation>, config: WriteConfig)
    requires v.ValidLayers()
  {
    || config.batchRows == 0 || config.maxSortRecords == 0 || config.dictionaryRunBytes == 0
    || mutations == [] || Steps(v.schema, v.Rows(), mutations, FirstNewId(v)).Err?
    || ObstructedAt(v, Steps(v.schema, v.Rows(), mutations, FirstNewId(v)).value, config)
  }

  ghost predicate ObstructedAt(v: Versioned, t: Transaction, config: WriteConfig) {
    || t.rows == map[]
    || (t.next > FirstNewId(v) && t.next > U64_MAX)
    || (NewVersions(t, FirstNewId(v)) != map[] &&
        (LastNumber(v.layers) + 1 > U32_MAX || Unbuildable(v.schema, NewVersions(t, FirstNewId(v)), config, BaseAccelerators(v))))
  }

  lemma NewVersionsAre(schema: Schema, rows: map<nat, Row>, p: Prepared, first: nat, t: Transaction)
    requires Folds(schema, rows, first, p, t) && IdsBelow(rows, first)
    ensures NewVersions(t, first) == DeltaRows(rows, p, first)
    ensures |t.rows| == |rows| - |p.deletes| + |p.inserts|
    ensures |p.deletes| <= |rows|
    ensures t.rows == map[] <==> |t.rows| == 0
    ensures p.inserts == [] ==> t.next == first
    ensures forall id :: id in t.rows ==> id < t.next
  {
    hide *;
    FoldFacts(schema, rows, first, p, t);
    DeltaKeys(rows, p, first);
    PreparedSize(rows, p, first);
    SpanStart(p, first);
    forall id | id in t.rows ensures id < t.next && (first <= id <==> id in InsertedIds(p, first)) {
      Fresh(rows, p, first, id);
    }
    NewVersionsFrom(t, first, DeltaRows(rows, p, first));
    EmptyRows(t.rows);
  }

  lemma Fresh(rows: map<nat, Row>, p: Prepared, first: nat, id: nat)
    requires IdsBelow(rows, first) && id in (rows.Keys - p.deletes) + InsertedIds(p, first)
    ensures id < first + |p.inserts| && (first <= id <==> id in InsertedIds(p, first))
  {
  }

  lemma EmptyRows(rows: map<nat, Row>)
    ensures rows == map[] <==> |rows| == 0
  {
    assert |rows.Keys| == |rows|;
    if rows.Keys == {} {
      assert rows == map[];
    }
  }

  lemma NewVersionsFrom(t: Transaction, first: nat, layer: map<nat, Row>)
    requires forall id :: id in layer <==> id in t.rows && (id in t.updated || first <= id)
    requires forall id :: id in layer ==> layer[id] == t.rows[id]
    ensures NewVersions(t, first) == layer
  {
  }

  lemma {:induction false} IdsFit(rows: map<nat, Row>, next: nat)
    requires forall id :: id in rows ==> id < next
    ensures |rows| <= next
  {
    SpanSize(0, next);
    SubsetSize(rows.Keys, Span(0, next));
    assert |rows.Keys| == |rows|;
  }

  /** The override of every touched row, as a map. */
  function Redirected(over: map<nat, Target>, p: Prepared, number: nat): map<nat, Target> {
    map id | id in over.Keys + p.updates.Keys + p.deletes ::
      if id in p.deletes then Deleted else if id in p.updates then InLayer(number) else over[id]
  }

  /** Overrides as the transaction writes them: updates first, then deletions over them. */
  method Redirect(v: Versioned, p: Prepared, number: nat) returns (over: map<nat, Target>)
    requires v.visibility.Valid()
    ensures over == Redirected(v.visibility.Map(), p, number)
  {
    over := v.visibility.ToMap();
    ghost var before := over;
    RedirectedAs(before, p, number);
    hide Redirected;
    over := over + map id | id in p.updates :: InLayer(number);
    over := over + map id | id in p.deletes :: Deleted;
  }

  lemma RedirectedAs(over: map<nat, Target>, p: Prepared, number: nat)
    ensures Redirected(over, p, number) ==
            over + (map id | id in p.updates :: InLayer(number)) + map id | id in p.deletes :: Deleted
  {
  }

  /** Overrides that are read back as they are. */
  ghost predicate ReadsAsIs(over: map<nat, Target>) {
    forall id :: id in over ==> ReadBack(over[id]) == over[id] && (over[id].InLayer? ==> over[id].layer != 0)
  }

  lemma OverridesReadAsIs(v: Versioned)
    requires v.visibility.Valid()
    ensures ReadsAsIs(v.visibility.Map())
  {
    var over := v.visibility.Map();
    forall id | id in over ensures ReadBack(over[id]) == over[id] && (over[id].InLayer? ==> over[id].layer != 0) {
      var i :| 0 <= i < |v.visibility.entries| && v.visibility.entries[i].rowId == id;
      v.visibility.MapAt(i);
    }
  }

  /** Read back, the written overrides are those of the change. */
  lemma RedirectedReads(over: map<nat, Target>, p: Prepared, rows: map<nat, Row>, first: nat, number: nat)
    requires ReadsAsIs(over) && 0 < number
    ensures Writable(Redirected(over, p, number))
    ensures (map id | id in Redirected(over, p, number) :: ReadBack(Redirected(over, p, number)[id])) ==
            Overridden(over, ChangeOf(rows, p, first, number))
  {
    hide DeltaRows;
  }

  // -------------------------------------------------------------------------- the new generation

  ghost predicate Reopened(v: Versioned, layers: seq<Layer>, over: map<nat, Target>) {
    && v.layers == layers && v.ValidLayers() && v.visibility.Map() == over
    && IsUnion(v.schema, LayerSchemas(layers))
  }

  lemma SameSchema(v: Versioned, w: Versioned, over: map<nat, Target>)
    requires v.Valid() && Reopened(w, v.layers, over)
    ensures w.schema == v.schema && w.ValidLayers()
    ensures w.View() == v.View().(over := over)
  {
    hide *;
    UnionFacts(v);
    ReopenedFacts(w, v.layers, over);
    UnionUnique(v.schema, w.schema, LayerSchemas(v.layers));
    SameHeld(v, w, |v.layers|);
    assert w.View().held == v.View().held;
    assert w.View().numbers == v.View().numbers;
  }

  lemma SameHeld(v: Versioned, w: Versioned, n: nat)
    requires n <= |v.layers| && n <= |w.layers| && v.schema == w.schema
    requires forall i :: 0 <= i < n ==> v.layers[i] == w.layers[i]
    requires v.ValidLayers() && w.ValidLayers()
    ensures forall i :: 0 <= i < n ==> v.ValidLayer(i) && w.ValidLayer(i) && v.Held(i) == w.Held(i)
  {
    TopValid(v);
    TopValid(w);
  }

  /** With a layer of the union schema on top. */
  lemma LayerAdded(v: Versioned, w: Versioned, over: map<nat, Target>, layer: Layer, rows: map<nat, Row>, entries: seq<Entry>)
    requires v.Valid() && Reopened(w, v.layers + [layer], over)
    requires layer.dataset.Valid() && layer.dataset.schema == v.schema
    requires Records(layer.dataset.Content(), entries) && Records(rows, entries)
    ensures w.schema == v.schema
    ensures w.View() == Stack(v.View().held + [rows], v.View().numbers + [layer.id], over)
  {
    hide *;
    AddedSchema(v, w, over, layer);
    SameHeldBelow(v, w, layer, over);
    TopHeldAdded(w, v, layer, rows, entries, over);
    StackGrows(v, w, layer, rows, over);
  }

  lemma AddedSchema(v: Versioned, w: Versioned, over: map<nat, Target>, layer: Layer)
    requires v.Valid() && Reopened(w, v.layers + [layer], over)
    requires layer.dataset.schema == v.schema
    ensures w.schema == v.schema && w.layers == v.layers + [layer] && w.ValidLayers() && w.visibility.Map() == over
  {
    hide *;
    UnionFacts(v);
    ReopenedFacts(w, v.layers + [layer], over);
    SchemasSnoc(v.layers, layer);
    UnionWithItself(v.schema, LayerSchemas(v.layers));
    UnionUnique(v.schema, w.schema, LayerSchemas(v.layers + [layer]));
  }

  lemma UnionFacts(v: Versioned)
    requires v.Valid()
    ensures ValidSchema(v.schema) && IsUnion(v.schema, LayerSchemas(v.layers))
  {
  }

  lemma ReopenedFacts(w: Versioned, layers: seq<Layer>, over: map<nat, Target>)
    requires Reopened(w, layers, over)
    ensures w.layers == layers && w.ValidLayers() && w.visibility.Valid() && w.visibility.Map() == over
    ensures ValidSchema(w.schema) && IsUnion(w.schema, LayerSchemas(layers))
  {
  }

  lemma SchemasSnoc(layers: seq<Layer>, layer: Layer)
    ensures LayerSchemas(layers + [layer]) == LayerSchemas(layers) + [layer.dataset.schema]
  {
  }

  lemma SameHeldBelow(v: Versioned, w: Versioned, layer: Layer, over: map<nat, Target>)
    requires v.ValidLayers() && w.ValidLayers() && w.layers == v.layers + [layer] && w.schema == v.schema
    ensures forall i :: 0 <= i < |v.layers| ==> v.ValidLayer(i) && w.ValidLayer(i) && v.Held(i) == w.Held(i)
    ensures w.ValidLayer(|v.layers|)
  {
    SameHeld(v, w, |v.layers|);
  }

  lemma TopHeldAdded(w: Versioned, v: Versioned, layer: Layer, rows: map<nat, Row>, entries: seq<Entry>, over: map<nat, Target>)
    requires w.ValidLayers() && w.layers == v.layers + [layer] && layer.dataset.schema == w.schema
    requires layer.dataset.Valid() && Records(layer.dataset.Content(), entries) && Records(rows, entries)
    ensures w.ValidLayer(|v.layers|) && w.Held(|v.layers|) == rows
  {
    hide *;
    TopValid(w);
    assert w.layers != [] && w.layers[|w.layers| - 1] == layer;
    TopHeld(w, layer, rows, entries);
  }

  lemma TopValid(w: Versioned)
    requires w.ValidLayers()
    ensures forall i :: 0 <= i < |w.layers| ==> w.ValidLayer(i)
  {
  }

  lemma StackGrows(v: Versioned, w: Versioned, layer: Layer, rows: map<nat, Row>, over: map<nat, Target>)
    requires v.ValidLayers() && w.ValidLayers() && w.layers == v.layers + [layer]
    requires forall i :: 0 <= i < |v.layers| ==> v.ValidLayer(i) && w.ValidLayer(i) && v.Held(i) == w.Held(i)
    requires w.ValidLayer(|v.layers|) && w.Held(|v.layers|) == rows && w.visibility.Map() == over
    ensures w.View() == Stack(v.View().held + [rows], v.View().numbers + [layer.id], over)
  {
    assert w.View().held == v.View().held + [rows];
    assert w.View().numbers == v.View().numbers + [layer.id];
  }

  lemma TopHeld(w: Versioned, layer: Layer, rows: map<nat, Row>, entries: seq<Entry>)
    requires w.ValidLayers() && w.layers != [] && w.layers[|w.layers| - 1] == layer && layer.dataset.schema == w.schema
    requires layer.dataset.Valid() && Records(layer.dataset.Content(), entries) && Records(rows, entries)
    ensures w.Held(|w.layers| - 1) == rows
  {
    var d := layer.dataset;
    RecordsUnique(d.Content(), rows, entries);
    assert w.ValidLayer(|w.layers| - 1);
    forall id | id in d.Content() ensures Align(SchemaMap(w.schema, d.schema), d.Content()[id]) == d.Content()[id] {
      d.ContentRows(id);
      AlignSelf(w.schema, d.Content()[id]);
    }
  }

  /** The change as a stack sees it, whether or not it needs a layer. */
  lemma Committed(v: Versioned, w: Versioned, p: Prepared, t: Transaction, number: nat)
    requires v.Valid() && w.ValidLayers()
    requires Folds(v.schema, v.Rows(), FirstNewId(v), p, t)
    requires number == LastNumber(v.layers) + 1 && ((p.updates == map[] && p.inserts == []) || number <= U32_MAX)
    requires w.schema == v.schema && IsUnion(w.schema, LayerSchemas(w.layers))
    requires w.View() == Extended(v.View(), ChangeOf(v.Rows(), p, FirstNewId(v), number))
    requires p.inserts == [] || t.next <= U64_MAX
    requires w.visibleRows == |v.Rows()| - |p.deletes| + |p.inserts| <= U64_MAX
    requires w.maxRowId == if p.inserts == [] then v.maxRowId else Some(t.next - 1)
    ensures w.Rows() == t.rows - (if number == DELETED_LAYER then t.updated else {})
    ensures t.updated <= t.rows.Keys
    ensures number < DELETED_LAYER || t.updated == {} ==> w.Valid()
  {
    hide *;
    var first := FirstNewId(v);
    VisibleRowsValid(v);
    FoldFacts(v.schema, v.Rows(), first, p, t);
    CommittedRows(v, w, p, number);
    PreparedSize(v.Rows(), p, first);
    UpdatedKept(v.Rows(), p, first);
    if number < DELETED_LAYER || t.updated == {} {
      RemoveSome(t.rows, t.updated);
      CommittedValid(v, w, p, number);
    }
  }

  lemma CommittedValid(v: Versioned, w: Versioned, p: Prepared, number: nat)
    requires v.Valid() && w.ValidLayers() && ValidPrepared(v.schema, v.Rows(), p)
    requires number == LastNumber(v.layers) + 1 && ((p.updates == map[] && p.inserts == []) || number <= U32_MAX)
    requires IsUnion(w.schema, LayerSchemas(w.layers))
    requires w.View() == Extended(v.View(), ChangeOf(v.Rows(), p, FirstNewId(v), number))
    requires p.inserts == [] || FirstNewId(v) + |p.inserts| <= U64_MAX
    requires w.visibleRows == |w.Rows()| <= U64_MAX
    requires w.maxRowId == if p.inserts == [] then v.maxRowId else Some(FirstNewId(v) + |p.inserts| - 1)
    ensures w.Valid()
  {
    hide *;
    CommittedRows(v, w, p, number);
    CommittedBounds(v, p, number);
    ValidFrom(w);
  }

  lemma CommittedRows(v: Versioned, w: Versioned, p: Prepared, number: nat)
    requires v.Valid() && w.ValidLayers() && ValidPrepared(v.schema, v.Rows(), p)
    requires number == LastNumber(v.layers) + 1 && ((p.updates == map[] && p.inserts == []) || number <= U32_MAX)
    requires w.View() == Extended(v.View(), ChangeOf(v.Rows(), p, FirstNewId(v), number))
    ensures w.Rows() == PreparedRows(v.Rows(), p, FirstNewId(v)) - (if number == DELETED_LAYER then p.updates.Keys else {})
    ensures WellFormedStack(w.View())
  {
    hide *;
    var first := FirstNewId(v);
    VisibleRowsValid(v);
    PreparedParts(v.schema, v.Rows(), p);
    ChangeApplies(v, p, number);
    RowsAreVisible(v);
    RowsAreVisible(w);
    ExtendedVisible(v.View(), ChangeOf(v.Rows(), p, first, number));
    ChangedRows(v.Rows(), p, first, number);
    LostIs(v.Rows(), p, first, number);
    RemoveSome(PreparedRows(v.Rows(), p, first), {});
  }

  lemma RemoveSome(rows: map<nat, Row>, ids: set<nat>)
    requires ids <= rows.Keys
    ensures rows - {} == rows
    ensures ids != {} ==> rows - ids != rows
  {
    if ids != {} {
      var id :| id in ids;
      assert id in rows && id !in rows - ids;
    }
  }

  lemma LostIs(rows: map<nat, Row>, p: Prepared, first: nat, number: nat)
    ensures Lost(ChangeOf(rows, p, first, number)) == if number == DELETED_LAYER then p.updates.Keys else {}
  {
  }

  lemma UpdatedKept(rows: map<nat, Row>, p: Prepared, first: nat)
    requires p.updates.Keys <= rows.Keys && p.updates.Keys !! p.deletes
    ensures p.updates.Keys <= PreparedRows(rows, p, first).Keys
  {
    DeltaKeys(rows, p, first);
  }

  lemma FoldFacts(schema: Schema, rows: map<nat, Row>, first: nat, p: Prepared, t: Transaction)
    requires Folds(schema, rows, first, p, t)
    ensures ValidPrepared(schema, rows, p) && t.rows == PreparedRows(rows, p, first)
    ensures t.updated == p.updates.Keys && t.deleted == p.deletes && t.next == first + |p.inserts|
    ensures p.updates.Keys <= rows.Keys && p.deletes <= rows.Keys && p.updates.Keys !! p.deletes
  {
  }

  lemma CommittedBounds(v: Versioned, p: Prepared, number: nat)
    requires v.Valid() && ValidPrepared(v.schema, v.Rows(), p)
    requires p.inserts == [] || FirstNewId(v) + |p.inserts| <= U64_MAX
    ensures Bounded(Extended(v.View(), ChangeOf(v.Rows(), p, FirstNewId(v), number)),
              if p.inserts == [] then v.maxRowId else Some(FirstNewId(v) + |p.inserts| - 1))
  {
    hide *;
    var first := FirstNewId(v);
    FirstIs(v);
    RowsBounded(v);
    PreparedParts(v.schema, v.Rows(), p);
    DeltaKeys(v.Rows(), p, first);
    SpanStart(p, first);
    var max := if p.inserts == [] then v.maxRowId else Some(first + |p.inserts| - 1);
    ChangeParts(v.Rows(), p, first, number);
    forall id | id in InsertedIds(p, first) ensures first <= id < first + |p.inserts| {
      InSpan(first, |p.inserts|, id);
    }
    BoundedMax(v.View(), v.maxRowId);
    StackBounded(v.View(), v.maxRowId, max, ChangeOf(v.Rows(), p, first, number), first);
  }

  lemma PreparedParts(schema: Schema, rows: map<nat, Row>, p: Prepared)
    requires ValidPrepared(schema, rows, p)
    ensures p.updates.Keys <= rows.Keys && p.deletes <= rows.Keys && p.updates.Keys !! p.deletes
  {
  }

  lemma RowsBounded(v: Versioned)
    requires v.Valid()
    ensures Bounded(v.View(), v.maxRowId)
    ensures forall id :: id in v.Rows() ==> v.maxRowId.Some? && id <= v.maxRowId.value
  {
    forall id | id in v.Rows() ensures v.maxRowId.Some? && id <= v.maxRowId.value {
      VisibleRowValid(v, id);
    }
  }

  lemma ChangeParts(rows: map<nat, Row>, p: Prepared, first: nat, number: nat)
    ensures var c := ChangeOf(rows, p, first, number);
            c.number == number && c.layer == DeltaRows(rows, p, first) && c.updated == p.updates.Keys && c.deleted == p.deletes
  {
  }

  lemma BoundedMax(s: Stack, max: Option<nat>)
    requires Bounded(s, max)
    ensures max.Some? ==> max.value <= U64_MAX
  {
  }

  lemma StackBounded(s: Stack, before: Option<nat>, max: Option<nat>, c: Change, first: nat)
    requires Bounded(s, before) && (before.Some? ==> max.Some? && before.value <= max.value) && (max.Some? ==> max.value <= U64_MAX)
    requires forall id :: id in c.updated + c.deleted ==> before.Some? && id <= before.value
    requires forall id :: id in c.layer ==> max.Some? && id <= max.value
    ensures Bounded(Extended(s, c), max)
  {
    var t := Extended(s, c);
    forall i, id | 0 <= i < |t.held| && id in t.held[i] ensures max.Some? && id <= max.value {
      if i < |s.held| {
        assert t.held[i] == s.held[i];
        assert id in s.held[i];
      } else {
        assert id in c.layer;
      }
    }
    forall id | id in t.over ensures max.Some? && id <= max.value {
      if id !in c.updated + c.deleted {
        assert id in s.over;
      }
    }
  }

  /** Valid, from its parts. */
  lemma ValidFrom(w: Versioned)
    requires w.ValidLayers()
    ensures (WellFormedStack(w.View()) && Bounded(w.View(), w.maxRowId) && w.visibleRows == |w.Rows()| <= U64_MAX
             && IsUnion(w.schema, LayerSchemas(w.layers))) ==> w.Valid()
  {
  }

  /** The dataset after a transaction. Its rows are those of the mutations applied one at a time; only a
      layer numbered 2^32 - 1, which reads as a tombstone, loses the rows it updates. */
  ghost predicate Applied(v: Versioned, mutations: seq<Mutation>, w: Versioned)
    requires v.ValidLayers()
  {
    && Steps(v.schema, v.Rows(), mutations, FirstNewId(v)).Ok?
    && var t := Steps(v.schema, v.Rows(), mutations, FirstNewId(v)).value;
    && w.ValidLayers() && w.schema == v.schema
    && w.maxRowId == (if t.next == FirstNewId(v) then v.maxRowId else Some(t.next - 1))
    && (w.Rows() == t.rows <==> LastNumber(v.layers) + 1 < DELETED_LAYER || t.updated == {})
    && (LastNumber(v.layers) + 1 < DELETED_LAYER || t.updated == {} ==> w.Valid())
    && (LastNumber(v.layers) + 1 == DELETED_LAYER ==> w.Rows() == t.rows - t.updated)
    && LastNumber(w.layers) <= LastNumber(v.layers) + 1
  }

  /** Applies a transaction as a delta layer. It fails exactly when something stops it. */
  method ApplyMutationsDelta(v: Versioned, mutations: seq<Mutation>, config: WriteConfig) returns (r: Result<Versioned>)
    requires v.Valid()
    ensures r.Ok? <==> !Obstructed(v, mutations, config)
    ensures r.Ok? ==> Applied(v, mutations, r.value)
  {
    hide *;
    var checked, t := CheckTransaction(v, mutations, config);
    if checked.Err? {
      return Err(checked.error);
    }
    var p, rows, rowsAfter := checked.value.0, checked.value.1, checked.value.2;
    var maxRowId := MaxAfter(v, p);
    var number := LastNumber(v.layers) + 1;
    FoldFacts(v.schema, v.Rows(), FirstNewId(v), p, t);
    OverridesValid(v);
    r := WriteGeneration(v, p, rows, number, rowsAfter, maxRowId, config);
    if r.Ok? {
      WroteLayer(v, p, rows, number);
      Committed(v, r.value, p, t, number);
      AppliedFrom(v, mutations, r.value, t, number);
    }
  }

  /** Everything before the first write: the folded transaction, its new rows and the row count. */
  method CheckTransaction(v: Versioned, mutations: seq<Mutation>, config: WriteConfig)
    returns (r: Result<(Prepared, map<nat, Row>, nat)>, ghost t: Transaction)
    requires v.Valid()
    ensures r.Err? ==> Obstructed(v, mutations, config)
    ensures r.Ok? ==>
              && Steps(v.schema, v.Rows(), mutations, FirstNewId(v)) == Ok(t)
              && Folds(v.schema, v.Rows(), FirstNewId(v), r.value.0, t)
              && r.value.1 == DeltaRows(v.Rows(), r.value.0, FirstNewId(v))
              && r.value.2 == |v.Rows()| - |r.value.0.deletes| + |r.value.0.inserts| <= U64_MAX
              && (r.value.0.inserts == [] || t.next <= U64_MAX)
              && config.batchRows > 0 && config.maxSortRecords > 0
              && (Obstructed(v, mutations, config) <==>
                    r.value.1 != map[] &&
                    (LastNumber(v.layers) + 1 > U32_MAX || Unbuildable(v.schema, r.value.1, config, BaseAccelerators(v))))
  {
    hide *;
    VisibleRowsValid(v);
    ObstructedIs(v, mutations, config);
    t := Transaction(map[], {}, {}, 0);
    if config.batchRows == 0 || config.maxSortRecords == 0 || config.dictionaryRunBytes == 0 {
      return Err(InvalidInput), t;
    }
    ghost var first := FirstNewId(v);
    var prepared := Prepare(v, mutations, first);
    if prepared.Err? {
      return Err(prepared.error), t;
    }
    var p := prepared.value;
    t := Steps(v.schema, v.Rows(), mutations, first).value;
    FoldFacts(v.schema, v.Rows(), first, p, t);
    NewVersionsAre(v.schema, v.Rows(), p, first, t);
    IdsFit(t.rows, t.next);
    var rowsAfter := v.visibleRows - |p.deletes| + |p.inserts|;
    if rowsAfter > U64_MAX || rowsAfter == 0 {
      return Err(InvalidInput), t;
    }
    var gathered := GatherDelta(v, p);
    if gathered.Err? {
      return Err(gathered.error), t;
    }
    return Ok((p, gathered.value, rowsAfter)), t;
  }

  lemma OverridesValid(v: Versioned)
    requires v.ValidLayers()
    ensures v.visibility.Valid()
  {
  }

  lemma WroteLayer(v: Versioned, p: Prepared, rows: map<nat, Row>, number: nat)
    requires v.Valid() && ValidPrepared(v.schema, v.Rows(), p)
    requires rows == DeltaRows(v.Rows(), p, FirstNewId(v)) && (rows == map[] || number <= U32_MAX)
    ensures (p.updates == map[] && p.inserts == []) || number <= U32_MAX
    ensures p.updates == map[] || number <= DELETED_LAYER
    ensures DELETED_LAYER == U32_MAX
    ensures |p.updates| == 0 <==> p.updates.Keys == {}
  {
    DeltaKeys(v.Rows(), p, FirstNewId(v));
    hide DeltaRows;
    if p.updates.Keys == {} {
      assert p.updates == map[];
    }
  }

  method MaxAfter(v: Versioned, p: Prepared) returns (max: Option<nat>)
    ensures max == if p.inserts == [] then v.maxRowId else Some(FirstNewId(v) + |p.inserts| - 1)
  {
    if p.inserts == [] {
      return v.maxRowId;
    }
    return Some(FirstNewId(v) + |p.inserts| - 1);
  }

  lemma ObstructedIs(v: Versioned, mutations: seq<Mutation>, config: WriteConfig)
    requires v.ValidLayers()
    ensures var steps := Steps(v.schema, v.Rows(), mutations, FirstNewId(v));
            Obstructed(v, mutations, config) <==>
              || config.batchRows == 0 || config.maxSortRecords == 0 || config.dictionaryRunBytes == 0
              || mutations == [] || steps.Err?
              || steps.value.rows == map[]
              || (steps.value.next > FirstNewId(v) && steps.value.next > U64_MAX)
              || (NewVersions(steps.value, FirstNewId(v)) != map[] &&
                  (LastNumber(v.layers) + 1 > U32_MAX
                   || Unbuildable(v.schema, NewVersions(steps.value, FirstNewId(v)), config, BaseAccelerators(v))))
  {
    hide Steps, NewVersions, Unbuildable;
  }

  /** What stops a transaction, from the rows alone: a bad configuration, no mutation or one that fails, no
      row left, no ID or layer number left, or new rows that are too many or too varied for one of the base's
      indexes. */
  lemma ObstructedMeans(v: Versioned, mutations: seq<Mutation>, config: WriteConfig)
    requires v.Valid()
    ensures var steps, first := Steps(v.schema, v.Rows(), mutations, FirstNewId(v)), FirstNewId(v);
            Obstructed(v, mutations, config) <==>
              || config.batchRows == 0 || config.maxSortRecords == 0 || config.dictionaryRunBytes == 0
              || mutations == [] || steps.Err?
              || steps.value.rows == map[]
              || (steps.value.next > first && steps.value.next > U64_MAX)
              || var rows := NewVersions(steps.value, first);
                 rows != map[] && (LastNumber(v.layers) + 1 > U32_MAX || |rows| > U32_MAX
                                   || exists s :: BaseIndex(s, v) && TooWide(s, v.schema, rows))
  {
    hide *;
    ValidLayersIs(v);
    ObstructedIs(v, mutations, config);
    VisibleRowsValid(v);
    var steps := Steps(v.schema, v.Rows(), mutations, FirstNewId(v));
    if steps.Ok? {
      StepsValid(v.schema, v.Rows(), mutations, FirstNewId(v));
      var rows := NewVersions(steps.value, FirstNewId(v));
      NewVersionsValid(v.schema, steps.value, FirstNewId(v));
      forall s ensures s in BaseAccelerators(v) <==> BaseIndex(s, v)
               ensures s in BaseAccelerators(v) ==> s != [] && InWidth(s, |v.schema|) {
        BaseAcceleratorsAre(v, s);
      }
      UnbuildableWhen(v.schema, rows, config, BaseAccelerators(v));
      EmptyRows(rows);
    }
  }

  /** The base has an index of these columns, two or more. */
  ghost predicate BaseIndex(s: seq<nat>, v: Versioned) {
    v.layers != [] && |s| >= 2 && HasIndex(v.layers[0].dataset.engine.rowHier, s)
  }

  lemma ValidLayersIs(v: Versioned)
    requires v.Valid()
    ensures v.ValidLayers()
  {
  }

  lemma NewVersionsValid(schema: Schema, t: Transaction, first: nat)
    requires forall id :: id in t.rows ==> ValidRow(schema, t.rows[id])
    ensures forall id :: id in NewVersions(t, first) ==> ValidRow(schema, NewVersions(t, first)[id])
  {
  }

  lemma BaseAcceleratorsAre(v: Versioned, s: seq<nat>)
    requires v.Valid()
    ensures s in BaseAccelerators(v) <==> BaseIndex(s, v)
    ensures s in BaseAccelerators(v) ==> s != [] && InWidth(s, |v.schema|)
  {
    hide *;
    BasePages(v);
    ValidDatasets(v);
    UnionFacts(v);
    AcceleratorsAre(v.layers[0].dataset.engine.rowHier, s);
    BaseAcceleratorsIs(v, s);
    if BaseIndex(s, v) {
      IndexInWidth(v.layers[0].dataset, s);
      BaseNarrow(v);
      Wider(s, |v.layers[0].dataset.schema|, |v.schema|);
    }
  }

  lemma BaseAcceleratorsIs(v: Versioned, s: seq<nat>)
    requires v.layers != []
    ensures BaseAccelerators(v) == Accelerators(v.layers[0].dataset.engine.rowHier)
    ensures BaseIndex(s, v) <==> |s| >= 2 && HasIndex(v.layers[0].dataset.engine.rowHier, s)
    ensures BaseIndex(s, v) ==> s != []
  {
  }

  lemma BaseNarrow(v: Versioned)
    requires v.Valid() && v.layers != [] && v.layers[0].dataset.Valid()
    ensures |v.layers[0].dataset.schema| <= |v.schema|
  {
    hide v.ValidLayers, v.Rows;
    UnionFacts(v);
    BaseFirst(v.schema, LayerSchemas(v.layers));
  }

  lemma Wider(s: seq<nat>, n: nat, m: nat)
    requires InWidth(s, n) && n <= m
    ensures InWidth(s, m)
  {
  }

  /** The columns of an index are columns of the dataset. */
  lemma IndexInWidth(d: LogicalDataset, s: seq<nat>)
    requires d.Valid() && HasIndex(d.engine.rowHier, s)
    ensures InWidth(s, |d.schema|)
  {
    var i :| 0 <= i < |d.engine.rowHier| && d.engine.rowHier[i].columns == s;
    assert d.engine.ValidRowHier(d.engine.rowHier[i]);
  }

  lemma AppliedFrom(v: Versioned, mutations: seq<Mutation>, w: Versioned, t: Transaction, number: nat)
    requires v.ValidLayers() && w.ValidLayers() && w.schema == v.schema && number == LastNumber(v.layers) + 1
    requires Steps(v.schema, v.Rows(), mutations, FirstNewId(v)) == Ok(t)
    requires w.maxRowId == if t.next == FirstNewId(v) then v.maxRowId else Some(t.next - 1)
    requires w.Rows() == t.rows - (if number == DELETED_LAYER then t.updated else {})
    requires number <= DELETED_LAYER || t.updated == {}
    requires t.updated <= t.rows.Keys
    requires number < DELETED_LAYER || t.updated == {} ==> w.Valid()
    requires LastNumber(w.layers) <= number
    ensures Applied(v, mutations, w)
  {
    hide Steps, w.Valid, w.ValidLayers, w.Rows;
    RemoveSome(t.rows, t.updated);
  }

  lemma ExtendedAs(v: Versioned, p: Prepared, first: nat, number: nat)
    requires v.ValidLayers()
    ensures var c := ChangeOf(v.Rows(), p, first, number);
            Extended(v.View(), c) == if DeltaRows(v.Rows(), p, first) == map[] then v.View().(over := Overridden(v.View().over, c))
                                     else Stack(v.View().held + [DeltaRows(v.Rows(), p, first)], v.View().numbers + [number], Overridden(v.View().over, c))
  {
    hide DeltaRows, Overridden;
  }

  /** Writes the layer, if there is anything to put in it, and the overrides, and reopens. */
  method WriteGeneration(v: Versioned, p: Prepared, rows: map<nat, Row>, number: nat, rowsAfter: nat, maxRowId: Option<nat>, config: WriteConfig)
    returns (r: Result<Versioned>)
    requires v.Valid() && ValidPrepared(v.schema, v.Rows(), p) && v.visibility.Valid()
    requires rows == DeltaRows(v.Rows(), p, FirstNewId(v)) && number == LastNumber(v.layers) + 1
    requires p.inserts == [] || FirstNewId(v) + |p.inserts| <= U64_MAX
    requires config.batchRows > 0 && config.maxSortRecords > 0
    ensures r.Ok? <==> rows == map[] || (number <= U32_MAX && !Unbuildable(v.schema, rows, config, BaseAccelerators(v)))
    ensures r.Ok? ==>
              && r.value.ValidLayers() && r.value.schema == v.schema && IsUnion(r.value.schema, LayerSchemas(r.value.layers))
              && r.value.visibleRows == rowsAfter && r.value.maxRowId == maxRowId
              && r.value.View() == Extended(v.View(), ChangeOf(v.Rows(), p, FirstNewId(v), number))
              && LastNumber(r.value.layers) <= number
  {
    hide *;
    NumbersSnoc(v.layers, number);
    ghost var first := FirstNewId(v);
    var targets := Redirect(v, p, number);
    OverridesReadAsIs(v);
    RedirectedReads(v.visibility.Map(), p, v.Rows(), first, number);
    var visibility := Write(targets);
    ghost var over := Overridden(v.visibility.Map(), ChangeOf(v.Rows(), p, first, number));
    ExtendedAs(v, p, first, number);
    UnionFacts(v);
    var layers := v.layers;
    if rows != map[] {
      if number > U32_MAX {
        return Err(Overflow);
      }
      var entries := EntriesOf(rows);
      DeltaEntries(v, p, rows, entries);
      BasePages(v);
      var built := BuildDataset(v.schema, entries, v.layers[0].dataset.engine.pageRows, config, BaseAccelerators(v));
      BuildableIs(v.schema, rows, entries, config, BaseAccelerators(v));
      if built.Err? {
        return Err(built.error);
      }
      layers := layers + [Layer(number, built.value)];
      LayersOpen(v, p, layers, visibility, built.value, number);
      r := Open(layers, visibility, rowsAfter, maxRowId);
      OpenedAs(r.value, layers, over);
      LayerAdded(v, r.value, over, Layer(number, built.value), rows, entries);
      return;
    }
    SameLayersOpen(v, p, visibility, number);
    r := Open(layers, visibility, rowsAfter, maxRowId);
    OpenedAs(r.value, layers, over);
    SameSchema(v, r.value, over);
  }

  lemma NumbersSnoc(layers: seq<Layer>, number: nat)
    requires number == LastNumber(layers) + 1
    ensures LastNumber(layers) <= number
    ensures forall layer: Layer :: LastNumber(layers + [layer]) == layer.id
  {
  }

  lemma BasePages(v: Versioned)
    requires v.Valid()
    ensures v.layers != [] && v.layers[0].dataset.engine.pageRows > 0
  {
    assert v.ValidLayer(0);
  }

  lemma DeltaEntries(v: Versioned, p: Prepared, rows: map<nat, Row>, entries: seq<Entry>)
    requires v.Valid() && ValidPrepared(v.schema, v.Rows(), p)
    requires rows == DeltaRows(v.Rows(), p, FirstNewId(v)) && Records(rows, entries)
    requires p.inserts == [] || FirstNewId(v) + |p.inserts| <= U64_MAX
    ensures forall k :: 0 <= k < |entries| ==> entries[k].0 <= U64_MAX
  {
    var first := FirstNewId(v);
    RowsBounded(v);
    VisibleRowsValid(v);
    DeltaKeys(v.Rows(), p, first);
    hide v.Valid, v.ValidLayers, v.Rows, DeltaRows, ValidPatch, ValidRow;
    forall k | 0 <= k < |entries| ensures entries[k].0 <= U64_MAX {
      assert entries[k].0 in rows;
      if entries[k].0 in InsertedIds(p, first) {
        assert entries[k].0 < first + |p.inserts|;
      }
    }
  }

  lemma EntriesUnique(rows: map<nat, Row>, a: seq<Entry>, b: seq<Entry>)
    requires Records(rows, a) && Records(rows, b)
    ensures a == b
  {
    ListsUnique(EntryIds(a), EntryIds(b), rows.Keys);
    assert |EntryIds(a)| == |EntryIds(b)|;
    forall k | 0 <= k < |a| ensures a[k] == b[k] {
      assert EntryIds(a)[k] == EntryIds(b)[k];
    }
  }

  lemma BuildableIs(schema: Schema, rows: map<nat, Row>, entries: seq<Entry>, config: WriteConfig, accelerators: seq<seq<nat>>)
    requires Records(rows, entries)
    ensures Unbuildable(schema, rows, config, accelerators) <==>
              !Buildable(schema, entries, config, accelerators)
  {
    forall other | Records(rows, other) ensures other == entries {
      EntriesUnique(rows, entries, other);
    }
  }

  /** A well-formed stack's overrides name layers that are there. */
  lemma TargetsFound(t: Stack, layers: seq<Layer>, visibility: Visibility)
    requires WellFormedStack(t) && visibility.Valid() && t.over == visibility.Map()
    requires |layers| == |t.numbers| && forall i :: 0 <= i < |layers| ==> layers[i].id == t.numbers[i]
    ensures TargetsExist(layers, visibility)
  {
    forall id | id in visibility.Map() && visibility.Map()[id].InLayer?
      ensures exists i :: 0 < i < |layers| && layers[i].id == visibility.Map()[id].layer
    {
      var k :| 0 <= k < |visibility.entries| && visibility.entries[k].rowId == id;
      visibility.MapAt(k);
      assert HasLayer(t, t.over[id].layer, id);
      var i :| 0 <= i < |t.held| && t.numbers[i] == t.over[id].layer && id in t.held[i];
      assert i != 0;
    }
  }

  lemma LayersAgree(schema: Schema, layers: seq<Layer>)
    requires IsUnion(schema, LayerSchemas(layers))
    ensures forall i, j :: 0 <= i < |layers| && 0 <= j < |layers| ==> Agrees(layers[i].dataset.schema, layers[j].dataset.schema)
  {
    hide *;
    UnionReads(schema, LayerSchemas(layers));
    UnionAgrees(schema, LayerSchemas(layers));
    SchemasAgree(layers, LayerSchemas(layers));
  }

  lemma ValidDatasets(v: Versioned)
    requires v.ValidLayers()
    ensures forall i :: 0 <= i < |v.layers| ==> v.layers[i].dataset.Valid()
  {
    forall i | 0 <= i < |v.layers| ensures v.layers[i].dataset.Valid() {
      assert v.ValidLayer(i);
    }
  }

  lemma LayersOpen(v: Versioned, p: Prepared, layers: seq<Layer>, visibility: Visibility, d: LogicalDataset, number: nat)
    requires v.Valid() && ValidPrepared(v.schema, v.Rows(), p) && d.Valid() && d.schema == v.schema
    requires number == LastNumber(v.layers) + 1 <= U32_MAX && DeltaRows(v.Rows(), p, FirstNewId(v)) != map[]
    requires layers == v.layers + [Layer(number, d)] && visibility.Valid()
    requires visibility.Map() == Overridden(v.visibility.Map(), ChangeOf(v.Rows(), p, FirstNewId(v), number))
    ensures layers != [] && forall i :: 0 <= i < |layers| ==> layers[i].dataset.Valid()
    ensures TargetsExist(layers, visibility)
    ensures forall i, j :: 0 <= i < |layers| && 0 <= j < |layers| ==> Agrees(layers[i].dataset.schema, layers[j].dataset.schema)
  {
    hide *;
    ValidDatasets(v);
    UnionFacts(v);
    SchemasSnoc(v.layers, Layer(number, d));
    UnionWithItself(v.schema, LayerSchemas(v.layers));
    LayersAgree(v.schema, layers);
    ChangeApplies(v, p, number);
    ExtendedVisible(v.View(), ChangeOf(v.Rows(), p, FirstNewId(v), number));
    ExtendedAs(v, p, FirstNewId(v), number);
    TargetsFound(Extended(v.View(), ChangeOf(v.Rows(), p, FirstNewId(v), number)), layers, visibility);
  }

  lemma SameLayersOpen(v: Versioned, p: Prepared, visibility: Visibility, number: nat)
    requires v.Valid() && ValidPrepared(v.schema, v.Rows(), p)
    requires number == LastNumber(v.layers) + 1 && DeltaRows(v.Rows(), p, FirstNewId(v)) == map[] && visibility.Valid()
    requires visibility.Map() == Overridden(v.visibility.Map(), ChangeOf(v.Rows(), p, FirstNewId(v), number))
    ensures v.layers != [] && forall i :: 0 <= i < |v.layers| ==> v.layers[i].dataset.Valid()
    ensures TargetsExist(v.layers, visibility)
    ensures forall i, j :: 0 <= i < |v.layers| && 0 <= j < |v.layers| ==> Agrees(v.layers[i].dataset.schema, v.layers[j].dataset.schema)
  {
    hide *;
    ValidDatasets(v);
    VisibleRowsValid(v);
    UnionFacts(v);
    LayersAgree(v.schema, v.layers);
    PreparedParts(v.schema, v.Rows(), p);
    DeltaKeys(v.Rows(), p, FirstNewId(v));
    ChangeApplies(v, p, number);
    ExtendedVisible(v.View(), ChangeOf(v.Rows(), p, FirstNewId(v), number));
    ExtendedAs(v, p, FirstNewId(v), number);
    TargetsFound(Extended(v.View(), ChangeOf(v.Rows(), p, FirstNewId(v), number)), v.layers, visibility);
  }

  lemma OpenedAs(w: Versioned, layers: seq<Layer>, over: map<nat, Target>)
    requires w.layers == layers && w.ValidLayers() && IsUnion(w.schema, LayerSchemas(layers))
    requires w.visibility.Map() == over
    ensures Reopened(w, layers, over)
  {
  }
}

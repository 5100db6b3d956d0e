/** Appending rows under a schema of their own. The new rows form one delta layer under fresh IDs; the
    union schema may grow by the columns they introduce, which read as NULL in every earlier row. */
module Appends {
  import opened Wrappers
  import opened RowSets
  import opened Schemas
  import opened SchemaUnions
  import opened VisibilityMaps
  import opened Overlays
  import opened VersionedDatasets
  import opened DatasetBuilds
  import opened DeltaWrites
  import opened Rebuilds

  // ------------------------------------------------------------------------------ accelerators

  /** The multi-column indexes of the base that can be rebuilt under another schema. */
  function BaseMapped(v: Versioned, target: Schema): seq<seq<nat>> {
    if v.layers == [] then []
    else MappedAccelerators(v.layers[0].dataset.engine.rowHier, v.layers[0].dataset.schema, target)
  }

  // ----------------------------------------------------------------------------------- append

  /** Shared columns keep their meaning; nullability may differ. */
  predicate CompatibleAppend(existing: Schema, incoming: Schema) {
    forall j :: 0 <= j < |incoming| ==> CompatibleColumn(existing, incoming[j])
  }

  predicate CompatibleColumn(existing: Schema, column: Column) {
    var c := ColumnIndex(existing, column.name);
    c.Some? ==> SameMeaning(existing[c.value], column)
  }

  function FreshEntries(rows: seq<Row>, first: nat): (entries: seq<Entry>)
    ensures |entries| == |rows| && forall k :: 0 <= k < |rows| ==> entries[k] == (first + k, rows[k])
  {
    seq<Entry>(|rows|, k requires 0 <= k < |rows| => (first + k, rows[k]))
  }

  /** What stops an append. */
  ghost predicate AppendObstructed(v: Versioned, incoming: Schema, rows: seq<Row>, config: WriteConfig) {
    || config.maxSortRecords == 0 || config.dictionaryRunBytes == 0
    || !ValidSchema(incoming) || !CompatibleAppend(v.schema, incoming)
    || !Buildable(incoming, FreshEntries(rows, FirstNewId(v)), config, BaseMapped(v, incoming))
    || v.visibleRows + |rows| > U64_MAX || FirstNewId(v) + |rows| > U64_MAX + 1
    || LastNumber(v.layers) + 1 > U32_MAX
  }

  /** The rows after an append: earlier rows widened with NULLs, then the new rows read under the union
      schema, numbered on from the greatest ID. */
  ghost predicate AppendedRows(before: map<nat, Row>, after: map<nat, Row>, nulls: nat, m: seq<Option<nat>>, rows: seq<Row>, first: nat) {
    && after.Keys == before.Keys + Span(first, |rows|)
    && (forall id :: id in before ==> after[id] == before[id] + seq(nulls, _ => None))
    && forall k :: 0 <= k < |rows| ==> first + k in after && after[first + k] == Align(m, rows[k])
  }

  ghost predicate Appended(v: Versioned, incoming: Schema, rows: seq<Row>, w: Versioned)
    requires v.ValidLayers() && w.ValidLayers()
  {
    && |v.schema| <= |w.schema| && (forall c :: 0 <= c < |v.schema| ==> w.schema[c].name == v.schema[c].name)
    && AppendedRows(v.Rows(), w.Rows(), |w.schema| - |v.schema|, SchemaMap(w.schema, incoming), rows, FirstNewId(v))
  }

  /** Appends rows as a delta layer. It fails exactly when something stops it. */
  method AppendDelta(v: Versioned, incoming: Schema, rows: seq<Row>, config: WriteConfig) returns (r: Result<Versioned>)
    requires v.Valid()
    ensures r.Ok? <==> !AppendObstructed(v, incoming, rows, config)
    ensures r.Ok? ==>
              && r.value.Valid() && Appended(v, incoming, rows, r.value)
              && IsUnion(r.value.schema, LayerSchemas(v.layers) + [incoming])
              && r.value.maxRowId == Some(FirstNewId(v) + |rows| - 1)
              && LastNumber(r.value.layers) == LastNumber(v.layers) + 1
  {
    hide *;
    VisibleRowsValid(v);
    BasePages(v);
    AppendObstructedIs(v, incoming, rows, config);
    if config.maxSortRecords == 0 || config.dictionaryRunBytes == 0 {
      return Err(InvalidInput);
    }
    if !ValidSchema(incoming) || !CompatibleAppend(v.schema, incoming) {
      return Err(InvalidInput);
    }
    var first := FirstNewId(v);
    if v.visibleRows + |rows| > U64_MAX || first + |rows| > U64_MAX + 1 {
      return Err(InvalidInput);
    }
    var entries := FreshEntries(rows, first);
    var built := BuildDataset(incoming, entries, v.layers[0].dataset.engine.pageRows, config, BaseMapped(v, incoming));
    if built.Err? {
      return Err(built.error);
    }
    var number := LastNumber(v.layers) + 1;
    if number > U32_MAX {
      return Err(Overflow);
    }
    NotEmpty(incoming, entries, config, BaseMapped(v, incoming));
    var layer := Layer(number, built.value);
    AppendOpens(v, layer, incoming);
    r := Open(v.layers + [layer], v.visibility, v.visibleRows + |rows|, Some(first + |rows| - 1));
    AppendValid(v, r.value, layer, incoming, rows, entries);
    SchemasSnoc(v.layers, layer);
    NumbersSnoc(v.layers, number);
  }

  lemma AppendObstructedIs(v: Versioned, incoming: Schema, rows: seq<Row>, config: WriteConfig)
    ensures AppendObstructed(v, incoming, rows, config) <==>
              || config.maxSortRecords == 0 || config.dictionaryRunBytes == 0
              || !ValidSchema(incoming) || !CompatibleAppend(v.schema, incoming)
              || !Buildable(incoming, FreshEntries(rows, FirstNewId(v)), config, BaseMapped(v, incoming))
              || v.visibleRows + |rows| > U64_MAX || FirstNewId(v) + |rows| > U64_MAX + 1
              || LastNumber(v.layers) + 1 > U32_MAX
  {
    hide Buildable, CompatibleAppend;
  }

  // --------------------------------------------------------------------- what stops an append

  /** Two schemas give a column of one name different meanings. */
  ghost predicate SchemasClash(a: Schema, b: Schema) {
    exists i, j :: 0 <= i < |a| && 0 <= j < |b| && Clash(a[i], b[j])
  }

  /** A schema is compatible with a dataset's exactly when no column clashes, and exactly when the layers'
      schemas and it have a union. Columns of new names never stand in the way. */
  lemma CompatibleMeans(v: Versioned, incoming: Schema)
    requires v.Valid() && ValidSchema(incoming)
    ensures CompatibleAppend(v.schema, incoming) <==> !SchemasClash(v.schema, incoming)
    ensures CompatibleAppend(v.schema, incoming) <==> Agrees(v.schema, incoming)
    ensures CompatibleAppend(v.schema, incoming) <==> exists u :: IsUnion(u, LayerSchemas(v.layers) + [incoming])
    ensures (forall i, j :: 0 <= i < |v.schema| && 0 <= j < |incoming| ==> v.schema[i].name != incoming[j].name) ==>
              CompatibleAppend(v.schema, incoming)
  {
    hide *;
    VisibleRowsValid(v);
    UnionFacts(v);
    CompatibleAgrees(v.schema, incoming);
    if CompatibleAppend(v.schema, incoming) {
      AllAgree(v, incoming);
      var u := UnionExists(LayerSchemas(v.layers) + [incoming]);
    } else if u :| IsUnion(u, LayerSchemas(v.layers) + [incoming]) {
      UnionReads(u, LayerSchemas(v.layers) + [incoming]);
      UnionAgrees(u, LayerSchemas(v.layers) + [incoming]);
      UnionClash(v.schema, LayerSchemas(v.layers), incoming);
    }
  }

  lemma CompatibleAgrees(existing: Schema, incoming: Schema)
    requires ValidSchema(existing)
    ensures CompatibleAppend(existing, incoming) <==> Agrees(existing, incoming)
    ensures Agrees(existing, incoming) <==> !SchemasClash(existing, incoming)
    ensures (forall i, j :: 0 <= i < |existing| && 0 <= j < |incoming| ==> existing[i].name != incoming[j].name) ==>
              !SchemasClash(existing, incoming)
  {
    AgreesMeans(existing, incoming);
    forall j | 0 <= j < |incoming|
      ensures CompatibleColumn(existing, incoming[j]) <==>
              forall i :: 0 <= i < |existing| && existing[i].name == incoming[j].name ==> SameMeaning(existing[i], incoming[j])
    {
      KnownName(existing, incoming[j].name);
    }
    hide CompatibleColumn, SameMeaning;
  }

  lemma AllAgree(v: Versioned, incoming: Schema)
    requires v.Valid() && ValidSchema(incoming) && CompatibleAppend(v.schema, incoming)
    ensures var all := LayerSchemas(v.layers) + [incoming];
            && all != [] && (forall s :: 0 <= s < |all| ==> ValidSchema(all[s]))
            && forall a, b :: 0 <= a < |all| && 0 <= b < |all| ==> Agrees(all[a], all[b])
  {
    hide *;
    ValidDatasets(v);
    UnionFacts(v);
    BasePages(v);
    UnionReads(v.schema, LayerSchemas(v.layers));
    UnionAgrees(v.schema, LayerSchemas(v.layers));
    var schemas := LayerSchemas(v.layers);
    forall i | 0 <= i < |schemas| ensures ValidSchema(schemas[i]) && Agrees(schemas[i], incoming) && Agrees(incoming, schemas[i]) && Agrees(incoming, incoming) {
      ValidDatasetSchema(v, i);
      AgreesWithLayers(v.schema, schemas[i], incoming);
    }
    AllAgreeWith(schemas, incoming);
  }

  lemma AllAgreeWith(schemas: seq<Schema>, incoming: Schema)
    requires schemas != [] && ValidSchema(incoming) && forall s :: 0 <= s < |schemas| ==> ValidSchema(schemas[s])
    requires forall i :: 0 <= i < |schemas| ==> Agrees(schemas[i], incoming) && Agrees(incoming, schemas[i]) && Agrees(incoming, incoming)
    requires forall a, b :: 0 <= a < |schemas| && 0 <= b < |schemas| ==> Agrees(schemas[a], schemas[b])
    ensures var all := schemas + [incoming];
            && all != [] && (forall s :: 0 <= s < |all| ==> ValidSchema(all[s]))
            && forall a, b :: 0 <= a < |all| && 0 <= b < |all| ==> Agrees(all[a], all[b])
  {
    hide *;
    assert Agrees(schemas[0], incoming);
  }

  lemma ValidDatasetSchema(v: Versioned, i: nat)
    requires i < |v.layers| && v.layers[i].dataset.Valid()
    ensures ValidSchema(v.layers[i].dataset.schema)
  {
  }

  /** A column of the union that clashes with a schema clashes in one of the layers. */
  lemma UnionClash(schema: Schema, schemas: seq<Schema>, incoming: Schema)
    requires IsUnion(schema, schemas) && ValidSchema(schema)
    requires var all := schemas + [incoming]; forall a, b :: 0 <= a < |all| && 0 <= b < |all| ==> Agrees(all[a], all[b])
    ensures Agrees(schema, incoming)
  {
    var all := schemas + [incoming];
    forall s | 0 <= s < |schemas| ensures Agrees(schemas[s], incoming) {
      assert all[s] == schemas[s] && all[|schemas|] == incoming;
    }
    hide FirstNames, NullInSome, Agrees;
    forall i | 0 <= i < |schema| ensures Agrees([schema[i]], incoming) {
      assert FoundInSome(schemas, schema[i].name);
      var s :| 0 <= s < |schemas| && ColumnIndex(schemas[s], schema[i].name).Some?;
      IndexOfName(schema, i);
      FoundClash(schema, schemas[s], i, incoming);
    }
    EachAgrees(schema, incoming);
  }

  lemma FoundClash(schema: Schema, layer: Schema, i: nat, incoming: Schema)
    requires i < |schema| && Reads(schema, layer) && ColumnIndex(layer, schema[i].name).Some? && Agrees(layer, incoming)
    requires ColumnIndex(schema, schema[i].name) == Some(i)
    ensures Agrees([schema[i]], incoming)
  {
    var c := ColumnIndex(layer, schema[i].name).value;
    assert ReadsColumn(schema, layer[c]);
  }

  lemma EachAgrees(schema: Schema, incoming: Schema)
    requires forall i :: 0 <= i < |schema| ==> Agrees([schema[i]], incoming)
    ensures Agrees(schema, incoming)
  {
    forall i, j | 0 <= i < |schema| && 0 <= j < |incoming| && schema[i].name == incoming[j].name
      ensures SameMeaning(schema[i], incoming[j])
    {
      assert Agrees([schema[i]], incoming) && [schema[i]][0] == schema[i];
    }
  }

  /** What stops an append, from the rows and schemas alone: a bad configuration, a schema that is not one or
      clashes, no row, too many, a row that does not fit, an index of the base that can be found under the
      incoming schema and is too wide for it, or numbers used up. */
  lemma AppendObstructedMeans(v: Versioned, incoming: Schema, rows: seq<Row>, config: WriteConfig)
    requires v.Valid()
    ensures AppendObstructed(v, incoming, rows, config) <==>
              || config.batchRows == 0 || config.maxSortRecords == 0 || config.dictionaryRunBytes == 0
              || !ValidSchema(incoming) || SchemasClash(v.schema, incoming)
              || rows == [] || |rows| > U32_MAX || (exists k :: 0 <= k < |rows| && !ValidRow(incoming, rows[k]))
              || (exists s :: RenamesBaseIndex(s, v, incoming) && TooWide(s, incoming, RowsFrom(rows, FirstNewId(v))))
              || v.visibleRows + |rows| > U64_MAX || FirstNewId(v) + |rows| > U64_MAX + 1
              || LastNumber(v.layers) + 1 > U32_MAX
  {
    hide *;
    AppendObstructedIs(v, incoming, rows, config);
    if ValidSchema(incoming) {
      CompatibleMeans(v, incoming);
      AppendBuildable(v, incoming, rows, config);
    }
  }

  ghost predicate RenamesBaseIndex(s: seq<nat>, v: Versioned, target: Schema) {
    v.layers != [] && RenamesIndex(s, target, v.layers[0].dataset.engine.rowHier, v.layers[0].dataset.schema)
  }

  lemma BaseMappedAre(v: Versioned, target: Schema, s: seq<nat>)
    requires v.Valid() && ValidSchema(target)
    ensures s in BaseMapped(v, target) <==> RenamesBaseIndex(s, v, target)
    ensures s in BaseMapped(v, target) ==> s != [] && InWidth(s, |target|)
  {
    hide *;
    BasePages(v);
    ValidDatasets(v);
    ValidDatasetSchema(v, 0);
    BaseMappedIs(v, target, s);
  }

  lemma BaseMappedIs(v: Versioned, target: Schema, s: seq<nat>)
    requires v.layers != [] && ValidSchema(v.layers[0].dataset.schema) && ValidSchema(target)
    ensures s in BaseMapped(v, target) <==> RenamesBaseIndex(s, v, target)
    ensures s in BaseMapped(v, target) ==> s != [] && InWidth(s, |target|)
  {
    var source, hierarchies := v.layers[0].dataset.schema, v.layers[0].dataset.engine.rowHier;
    MappedAre(hierarchies, source, target, s);
    if RenamesIndex(s, target, hierarchies, source) {
      var i :| 0 <= i < |hierarchies| && Renames(s, target, hierarchies[i].columns, source);
      assert source[hierarchies[i].columns[0]].name in ColumnNames(target, s);
    }
  }

  ghost function RowsFrom(rows: seq<Row>, first: nat): map<nat, Row> {
    map id | id in Span(first, |rows|) :: if first <= id < first + |rows| then rows[id - first] else []
  }

  lemma RowsFromKeys(rows: seq<Row>, first: nat)
    ensures |RowsFrom(rows, first)| == |rows|
    ensures forall id :: id in RowsFrom(rows, first) <==> first <= id < first + |rows|
    ensures forall id :: id in RowsFrom(rows, first) ==> RowsFrom(rows, first)[id] == rows[id - first]
  {
    var all := RowsFrom(rows, first);
    assert all.Keys == Span(first, |rows|);
    SpanSize(first, |rows|);
    assert |all.Keys| == |all|;
    forall id: nat ensures id in Span(first, |rows|) <==> first <= id < first + |rows| {
      assert Within(id, first, |rows|) <==> first <= id < first + |rows|;
    }
  }

  lemma RowsFromEntries(rows: seq<Row>, first: nat)
    ensures Records(RowsFrom(rows, first), FreshEntries(rows, first))
  {
    var entries, all := FreshEntries(rows, first), RowsFrom(rows, first);
    RowsFromKeys(rows, first);
    hide RowsFrom;
    forall id ensures id in EntryIds(entries) <==> id in all.Keys {
      if id in all {
        assert EntryIds(entries)[id - first] == id;
      }
    }
  }

  lemma AppendBuildable(v: Versioned, incoming: Schema, rows: seq<Row>, config: WriteConfig)
    requires v.Valid() && ValidSchema(incoming)
    ensures Buildable(incoming, FreshEntries(rows, FirstNewId(v)), config, BaseMapped(v, incoming)) <==>
              && config.batchRows > 0 && config.maxSortRecords > 0 && config.dictionaryRunBytes > 0
              && 0 < |rows| <= U32_MAX && (forall k :: 0 <= k < |rows| ==> ValidRow(incoming, rows[k]))
              && !exists s :: RenamesBaseIndex(s, v, incoming) && TooWide(s, incoming, RowsFrom(rows, FirstNewId(v)))
  {
    hide *;
    forall s ensures s in BaseMapped(v, incoming) <==> RenamesBaseIndex(s, v, incoming)
             ensures s in BaseMapped(v, incoming) ==> s != [] && InWidth(s, |incoming|) {
      BaseMappedAre(v, incoming, s);
    }
    FreshBuildable(incoming, rows, FirstNewId(v), config, BaseMapped(v, incoming));
  }

  lemma FreshBuildable(incoming: Schema, rows: seq<Row>, first: nat, config: WriteConfig, accelerators: seq<seq<nat>>)
    requires forall s :: s in accelerators ==> s != [] && InWidth(s, |incoming|)
    ensures Buildable(incoming, FreshEntries(rows, first), config, accelerators) <==>
              && config.batchRows > 0 && config.maxSortRecords > 0 && config.dictionaryRunBytes > 0
              && 0 < |rows| <= U32_MAX && (forall k :: 0 <= k < |rows| ==> ValidRow(incoming, rows[k]))
              && !exists s :: s in accelerators && TooWide(s, incoming, RowsFrom(rows, first))
  {
    hide RowsFrom, TooWide, ValidRow, Indexable, Increasing, Cards;
    RowsFromEntries(rows, first);
    RowsFromKeys(rows, first);
    var all := RowsFrom(rows, first);
    if forall k :: 0 <= k < |rows| ==> ValidRow(incoming, rows[k]) {
      forall id | id in all ensures ValidRow(incoming, all[id]) {
        assert all[first + (id - first)] == rows[id - first];
      }
      BuildableWhen(incoming, all, FreshEntries(rows, first), config, accelerators);
    }
  }

  lemma NotEmpty(schema: Schema, entries: seq<Entry>, config: WriteConfig, accelerators: seq<seq<nat>>)
    requires Buildable(schema, entries, config, accelerators)
    ensures |entries| > 0
  {
  }

  /** Columns that agree with a union agree with each of its layers. */
  lemma AgreesWithLayers(schema: Schema, layer: Schema, incoming: Schema)
    requires Reads(schema, layer) && CompatibleAppend(schema, incoming) && ValidSchema(incoming)
    ensures Agrees(layer, incoming) && Agrees(incoming, layer) && Agrees(incoming, incoming)
  {
    forall i, j | 0 <= i < |layer| && 0 <= j < |incoming| && layer[i].name == incoming[j].name
      ensures SameMeaning(layer[i], incoming[j])
    {
      assert ReadsColumn(schema, layer[i]) && CompatibleColumn(schema, incoming[j]);
    }
    forall i, j | 0 <= i < |incoming| && 0 <= j < |incoming| && incoming[i].name == incoming[j].name
      ensures SameMeaning(incoming[i], incoming[j])
    {
      IndexOfName(incoming, i);
      IndexOfName(incoming, j);
    }
  }

  lemma AppendOpens(v: Versioned, layer: Layer, incoming: Schema)
    requires v.Valid() && CompatibleAppend(v.schema, incoming) && ValidSchema(incoming)
    requires layer.dataset.Valid() && layer.dataset.schema == incoming
    ensures var layers := v.layers + [layer];
            && (forall i :: 0 <= i < |layers| ==> layers[i].dataset.Valid())
            && v.visibility.Valid() && TargetsExist(layers, v.visibility)
            && forall i, j :: 0 <= i < |layers| && 0 <= j < |layers| ==> Agrees(layers[i].dataset.schema, layers[j].dataset.schema)
  {
    hide *;
    var layers := v.layers + [layer];
    ValidDatasets(v);
    OverridesValid(v);
    UnionFacts(v);
    LayersAgree(v.schema, v.layers);
    LastIsGreatest(v);
    TargetsFound(v.View(), v.layers, v.visibility);
    MoreTargets(v.layers, layer, v.visibility);
    ReadsAll(v);
    forall i | 0 <= i < |v.layers|
      ensures Agrees(v.layers[i].dataset.schema, incoming) && Agrees(incoming, v.layers[i].dataset.schema) && Agrees(incoming, incoming)
    {
      AgreesWithLayers(v.schema, v.layers[i].dataset.schema, incoming);
    }
    VisibleRowsValid(v);
    assert Agrees(incoming, incoming) by {
      AgreesWithLayers(v.schema, v.layers[0].dataset.schema, incoming);
    }
  }

  lemma ReadsAll(v: Versioned)
    requires v.ValidLayers()
    ensures forall i :: 0 <= i < |v.layers| ==> Reads(v.schema, v.layers[i].dataset.schema)
  {
    hide Reads;
    forall i | 0 <= i < |v.layers| ensures Reads(v.schema, v.layers[i].dataset.schema) {
      assert v.ValidLayer(i);
    }
  }

  lemma MoreTargets(layers: seq<Layer>, layer: Layer, visibility: Visibility)
    requires visibility.Valid() && TargetsExist(layers, visibility)
    ensures TargetsExist(layers + [layer], visibility)
  {
    hide visibility.Valid, visibility.Map;
    forall id | id in visibility.Map() && visibility.Map()[id].InLayer?
      ensures exists i :: 0 < i < |layers + [layer]| && (layers + [layer])[i].id == visibility.Map()[id].layer
    {
      var i :| 0 < i < |layers| && layers[i].id == visibility.Map()[id].layer;
      assert (layers + [layer])[i] == layers[i];
    }
  }

  // ------------------------------------------------------------------------ what an append does

  /** Earlier layers read the same under the grown union, with NULL in the new columns. */
  lemma LayerWidened(v: Versioned, w: Versioned, i: nat)
    requires v.ValidLayers() && w.ValidLayers() && i < |v.layers| && i < |w.layers| && w.layers[i] == v.layers[i]
    requires v.ValidLayer(i) && w.ValidLayer(i)
    requires |v.schema| <= |w.schema| && forall c :: 0 <= c < |v.schema| ==> v.schema[c].name == w.schema[c].name
    ensures Widened(v.Held(i), w.Held(i), |w.schema| - |v.schema|)
  {
    var d := v.layers[i].dataset;
    HeldAligned(v, i);
    HeldAligned(w, i);
    hide *;
    NewColumnsAbsent(v.schema, w.schema, d.schema);
    AlignedWidened(v.schema, w.schema, d.schema, d.Content(), v.Held(i), w.Held(i));
  }

  /** A layer's rows read under a schema. */
  ghost predicate AlignedTo(schema: Schema, layer: Schema, content: map<nat, Row>, held: map<nat, Row>) {
    && held.Keys == content.Keys
    && forall id :: id in content ==> held[id] == Align(SchemaMap(schema, layer), content[id])
  }

  lemma HeldAligned(v: Versioned, i: nat)
    requires i < |v.layers| && v.ValidLayer(i) && v.ValidLayers()
    ensures v.layers[i].dataset.Valid() && ValidSchema(v.schema) && Reads(v.schema, v.layers[i].dataset.schema)
    ensures AlignedTo(v.schema, v.layers[i].dataset.schema, v.layers[i].dataset.Content(), v.Held(i))
  {
  }

  lemma AlignedWidened(a: Schema, b: Schema, layer: Schema, content: map<nat, Row>, before: map<nat, Row>, after: map<nat, Row>)
    requires |a| <= |b| && forall c :: 0 <= c < |a| ==> a[c].name == b[c].name
    requires forall c :: |a| <= c < |b| ==> ColumnIndex(layer, b[c].name).None?
    requires AlignedTo(a, layer, content, before) && AlignedTo(b, layer, content, after)
    ensures Widened(before, after, |b| - |a|)
  {
    forall id | id in content ensures after[id] == before[id] + seq(|b| - |a|, _ => None) {
      AlignGrown(a, b, layer, content[id]);
    }
  }

  lemma NewColumnsAbsent(a: Schema, b: Schema, layer: Schema)
    requires Reads(a, layer) && ValidSchema(a) && ValidSchema(b)
    requires |a| <= |b| && forall c :: 0 <= c < |a| ==> a[c].name == b[c].name
    ensures forall c :: |a| <= c < |b| ==> ColumnIndex(layer, b[c].name).None?
  {
    forall c | |a| <= c < |b| ensures ColumnIndex(layer, b[c].name).None? {
      LayerNames(a, layer, b[c].name);
      assert forall e :: 0 <= e < |a| ==> a[e].name == b[e].name != b[c].name;
    }
  }

  lemma LayerNames(a: Schema, layer: Schema, name: string)
    requires Reads(a, layer)
    ensures ColumnIndex(layer, name).Some? ==> exists e :: 0 <= e < |a| && a[e].name == name
  {
    var d := ColumnIndex(layer, name);
    if d.Some? {
      assert ReadsColumn(a, layer[d.value]);
      assert a[ColumnIndex(a, name).value].name == name;
    }
  }

  /** The new layer's rows. */
  lemma TopAppended(w: Versioned, i: nat, incoming: Schema, rows: seq<Row>, first: nat)
    requires i < |w.layers| && w.ValidLayer(i) && w.layers[i].dataset.schema == incoming
    requires Records(w.layers[i].dataset.Content(), FreshEntries(rows, first))
    ensures TopRows(w.Held(i), SchemaMap(w.schema, incoming), rows, first)
  {
    var d := w.layers[i].dataset;
    EntriesSpan(d.Content(), rows, first);
    hide d.Valid, d.Content, w.ValidLayer, Records;
  }

  lemma EntriesSpan(content: map<nat, Row>, rows: seq<Row>, first: nat)
    requires Records(content, FreshEntries(rows, first))
    ensures content.Keys == Span(first, |rows|)
    ensures forall k :: 0 <= k < |rows| ==> first + k in content && content[first + k] == rows[k]
  {
    var entries := FreshEntries(rows, first);
    forall id ensures id in content <==> id in Span(first, |rows|) {
      if id in content {
        assert id in EntryIds(entries);
        var k :| 0 <= k < |entries| && EntryIds(entries)[k] == id;
      }
      if id in Span(first, |rows|) {
        assert entries[id - first].0 == id;
      }
    }
    forall k | 0 <= k < |rows| ensures first + k in content && content[first + k] == rows[k] {
      assert entries[k].0 == first + k;
    }
  }

  /** The stack of earlier layers as the grown union reads it. */
  ghost function Before(v: Versioned, w: Versioned): Stack
    requires v.ValidLayers() && w.ValidLayers() && |v.layers| <= |w.layers|
  {
    Stack(w.View().held[..|v.layers|], v.View().numbers, v.View().over)
  }

  lemma AppendVisible(v: Versioned, w: Versioned, layer: Layer, incoming: Schema, rows: seq<Row>)
    requires v.Valid() && w.ValidLayers() && w.layers == v.layers + [layer] && w.visibility == v.visibility
    requires layer.dataset.schema == incoming && rows != []
    requires layer.dataset.Valid() && Records(layer.dataset.Content(), FreshEntries(rows, FirstNewId(v)))
    requires layer.id == LastNumber(v.layers) + 1 <= U32_MAX
    requires |v.schema| <= |w.schema| && forall c :: 0 <= c < |v.schema| ==> v.schema[c].name == w.schema[c].name
    ensures WellFormedStack(w.View()) && Appended(v, incoming, rows, w)
    ensures FirstNewId(v) + |rows| <= U64_MAX + 1 ==> Bounded(w.View(), Some(FirstNewId(v) + |rows| - 1))
    ensures |w.Rows()| == |v.Rows()| + |rows|
  {
    hide *;
    StackAppended(v, w, layer);
    WidenedBelow(v, w, layer);
    TopSpan(v, w, layer, incoming, rows, FirstNewId(v));
    SpanUnknown(v, |rows|);
    LastIsGreatest(v);
    RowsAreVisible(v);
    RowsAreVisible(w);
    RowsBounded(v);
    FirstIs(v);
    AppendToStack(v.View(), Before(v, w), w.View(), |w.schema| - |v.schema|, layer.id, w.View().held[|v.layers|],
      SchemaMap(w.schema, incoming), rows, FirstNewId(v), v.maxRowId, FirstNewId(v) + |rows| - 1);
    AppendedFrom(v, incoming, rows, w);
  }

  lemma WidenedBelow(v: Versioned, w: Versioned, layer: Layer)
    requires v.ValidLayers() && w.ValidLayers() && w.layers == v.layers + [layer]
    requires |v.schema| <= |w.schema| && forall c :: 0 <= c < |v.schema| ==> v.schema[c].name == w.schema[c].name
    ensures forall i :: 0 <= i < |v.layers| ==> Widened(v.View().held[i], w.View().held[i], |w.schema| - |v.schema|)
  {
    hide *;
    TopValid(v);
    TopValid(w);
    forall i | 0 <= i < |v.layers| ensures Widened(v.View().held[i], w.View().held[i], |w.schema| - |v.schema|) {
      LayerWidened(v, w, i);
    }
  }

  /** Rows numbered on from `first`, as the union schema reads them. */
  ghost predicate TopRows(top: map<nat, Row>, m: seq<Option<nat>>, rows: seq<Row>, first: nat) {
    && top.Keys == Span(first, |rows|)
    && forall k :: 0 <= k < |rows| ==> first + k in top && top[first + k] == Align(m, rows[k])
  }

  /** IDs no layer and no override mentions. */
  ghost predicate Unknown(s: Stack, ids: set<nat>) {
    forall id :: id in ids ==> id !in s.over && forall i :: 0 <= i < |s.held| ==> id !in s.held[i]
  }

  lemma TopSpan(v: Versioned, w: Versioned, layer: Layer, incoming: Schema, rows: seq<Row>, first: nat)
    requires v.ValidLayers() && w.ValidLayers() && w.layers == v.layers + [layer]
    requires layer.dataset.schema == incoming && layer.dataset.Valid() && Records(layer.dataset.Content(), FreshEntries(rows, first))
    ensures TopRows(w.View().held[|v.layers|], SchemaMap(w.schema, incoming), rows, first)
  {
    hide *;
    TopValid(w);
    assert w.layers[|v.layers|] == layer;
    TopAppended(w, |v.layers|, incoming, rows, first);
  }

  lemma SpanUnknown(v: Versioned, n: nat)
    requires v.Valid()
    ensures Unknown(v.View(), Span(FirstNewId(v), n))
  {
    forall id | id in Span(FirstNewId(v), n) ensures id !in v.View().over && forall i :: 0 <= i < |v.View().held| ==> id !in v.View().held[i] {
      NewIdUnknown(v, id);
    }
  }

  lemma StackAppended(v: Versioned, w: Versioned, layer: Layer)
    requires v.ValidLayers() && w.ValidLayers() && w.layers == v.layers + [layer] && w.visibility == v.visibility
    ensures var t := Before(v, w);
            && t.numbers == v.View().numbers && t.over == v.View().over && |t.held| == |v.layers|
            && (forall i :: 0 <= i < |v.layers| ==> t.held[i] == w.View().held[i])
            && w.View() == Stack(t.held + [w.View().held[|v.layers|]], t.numbers + [layer.id], t.over)
  {
    hide v.ValidLayers, w.ValidLayers, v.Held, w.Held;
    var t := Before(v, w);
    assert w.View().held == t.held + [w.View().held[|v.layers|]];
    assert w.View().numbers == t.numbers + [layer.id];
  }

  lemma AppendToStack(s: Stack, t: Stack, u: Stack, nulls: nat, number: nat, top: map<nat, Row>, m: seq<Option<nat>>, rows: seq<Row>,
                      first: nat, max: Option<nat>, last: nat)
    requires last + 1 == first + |rows| && WellFormedStack(s) && t.numbers == s.numbers && t.over == s.over && |t.held| == |s.held|
    requires forall i :: 0 <= i < |s.held| ==> Widened(s.held[i], t.held[i], nulls)
    requires u == Stack(t.held + [top], t.numbers + [number], t.over)
    requires TopRows(top, m, rows, first) && rows != [] && Unknown(s, Span(first, |rows|))
    requires (forall i :: 0 <= i < |s.numbers| ==> s.numbers[i] < number) && number <= U32_MAX
    requires Bounded(s, max) && first == (if max.None? then 0 else max.value + 1)
    ensures WellFormedStack(u)
    ensures last <= U64_MAX ==> Bounded(u, Some(last))
    ensures AppendedRows(Visible(s), Visible(u), nulls, m, rows, first)
    ensures |Visible(u)| == |Visible(s)| + |rows|
  {
    hide *;
    StackParts(s);
    assert s.numbers[0] < number;
    WidenedVisible(s, t, nulls);
    var c := Change(number, top, {}, {});
    TopNonEmpty(top, m, rows, first);
    NewTop(s, t, nulls, c, Span(first, |rows|));
    ExtendedVisible(t, c);
    ExtendedTop(t, c);
    SpanSize(first, |rows|);
    NewRows(Visible(s), Visible(t), nulls, c, Span(first, |rows|), s, t);
    RowsAppended(Visible(s), Visible(u), nulls, top, m, rows, first);
    TopBounded(s, t, u, nulls, top, first, |rows|, max, last);
  }

  lemma StackParts(s: Stack)
    requires WellFormedStack(s)
    ensures |s.held| == |s.numbers| && |s.numbers| > 0
  {
  }

  lemma TopNonEmpty(top: map<nat, Row>, m: seq<Option<nat>>, rows: seq<Row>, first: nat)
    requires TopRows(top, m, rows, first) && rows != []
    ensures top != map[] && top.Keys == Span(first, |rows|)
  {
    assert first + 0 in top;
  }

  lemma ExtendedTop(t: Stack, c: Change)
    requires c.updated == {} && c.deleted == {} && c.layer != map[]
    ensures Extended(t, c) == Stack(t.held + [c.layer], t.numbers + [c.number], t.over)
  {
    assert Overridden(t.over, c) == t.over;
  }

  lemma RowsAppended(before: map<nat, Row>, after: map<nat, Row>, nulls: nat, top: map<nat, Row>, m: seq<Option<nat>>, rows: seq<Row>, first: nat)
    requires TopRows(top, m, rows, first)
    requires after.Keys == before.Keys + Span(first, |rows|)
    requires forall id :: id in before ==> after[id] == before[id] + seq(nulls, _ => None)
    requires forall id :: id in Span(first, |rows|) ==> id in after && after[id] == top[id]
    ensures AppendedRows(before, after, nulls, m, rows, first)
  {
    forall k | 0 <= k < |rows| ensures first + k in after && after[first + k] == Align(m, rows[k]) {
      assert first + k in Span(first, |rows|);
    }
  }

  lemma NewTop(s: Stack, t: Stack, nulls: nat, c: Change, ids: set<nat>)
    requires |s.held| == |s.numbers| && t.numbers == s.numbers && t.over == s.over && |t.held| == |s.held|
    requires forall i :: 0 <= i < |s.held| ==> Widened(s.held[i], t.held[i], nulls)
    requires c.layer.Keys == ids && c.updated == {} && c.deleted == {}
    requires Unknown(s, ids)
    requires (forall i :: 0 <= i < |s.numbers| ==> s.numbers[i] < c.number) && 0 < c.number <= U32_MAX
    ensures Applies(t, c)
  {
    forall id, i | id in ids && 0 <= i < |t.held| ensures id !in t.held[i] {
      assert Widened(s.held[i], t.held[i], nulls);
    }
  }

  lemma NewRows(before: map<nat, Row>, widened: map<nat, Row>, nulls: nat, c: Change, ids: set<nat>, s: Stack, t: Stack)
    requires Widened(before, widened, nulls) && c.layer.Keys == ids && c.updated == {} && c.deleted == {}
    requires |s.held| == |s.numbers| && before == Visible(s)
    requires Unknown(s, ids)
    ensures var after := Changed(widened, c, Lost(c));
            && after.Keys == before.Keys + ids
            && (forall id :: id in before ==> after[id] == before[id] + seq(nulls, _ => None))
            && (forall id :: id in ids ==> id in after && after[id] == c.layer[id])
            && |after| == |before| + |ids|
  {
    forall id | id in ids ensures id !in before {
      LookupNowhere(s, id);
    }
    hide Visible, Unknown, Changed;
    ChangedTop(widened, c, ids);
    assert Lost(c) == {};
    DisjointSize(before, Changed(widened, c, {}), ids);
  }

  lemma ChangedTop(rows: map<nat, Row>, c: Change, ids: set<nat>)
    requires c.layer.Keys == ids && c.updated == {} && c.deleted == {}
    ensures var after := Changed(rows, c, {});
            && after.Keys == rows.Keys + ids
            && (forall id :: id in rows && id !in ids ==> after[id] == rows[id])
            && (forall id :: id in ids ==> id in after && after[id] == c.layer[id])
  {
    assert Changed(rows, c, {}).Keys == rows.Keys + ids;
  }

  lemma DisjointSize(before: map<nat, Row>, after: map<nat, Row>, ids: set<nat>)
    requires after.Keys == before.Keys + ids && before.Keys !! ids
    ensures |after| == |before| + |ids|
  {
    assert |after.Keys| == |after| && |before.Keys| == |before|;
  }

  lemma TopBounded(s: Stack, t: Stack, u: Stack, nulls: nat, top: map<nat, Row>, first: nat, n: nat, max: Option<nat>, last: nat)
    requires last + 1 == first + n && t.over == s.over && |t.held| == |s.held| && u.held == t.held + [top] && u.over == t.over
    requires forall i :: 0 <= i < |s.held| ==> Widened(s.held[i], t.held[i], nulls)
    requires top.Keys == Span(first, n) && n > 0
    requires Bounded(s, max) && first == (if max.None? then 0 else max.value + 1)
    ensures last <= U64_MAX ==> Bounded(u, Some(last))
  {
    forall i, id | 0 <= i < |u.held| && id in u.held[i] ensures id <= last {
      if i < |s.held| {
        assert Widened(s.held[i], t.held[i], nulls);
        assert id in s.held[i];
      } else {
        InSpan(first, n, id);
      }
    }
  }

  lemma AppendedFrom(v: Versioned, incoming: Schema, rows: seq<Row>, w: Versioned)
    requires v.ValidLayers() && w.ValidLayers() && |v.schema| <= |w.schema|
    requires forall c :: 0 <= c < |v.schema| ==> v.schema[c].name == w.schema[c].name
    requires AppendedRows(v.Rows(), w.Rows(), |w.schema| - |v.schema|, SchemaMap(w.schema, incoming), rows, FirstNewId(v))
    ensures Appended(v, incoming, rows, w)
  {
    hide v.ValidLayers, w.ValidLayers, v.Rows, w.Rows, AppendedRows;
  }

  lemma AppendValid(v: Versioned, w: Versioned, layer: Layer, incoming: Schema, rows: seq<Row>, entries: seq<Entry>)
    requires v.Valid() && w.ValidLayers() && w.layers == v.layers + [layer] && w.visibility == v.visibility
    requires IsUnion(w.schema, LayerSchemas(w.layers)) && ValidSchema(incoming)
    requires layer.dataset.schema == incoming && rows != [] && entries == FreshEntries(rows, FirstNewId(v))
    requires layer.dataset.Valid() && Records(layer.dataset.Content(), entries)
    requires layer.id == LastNumber(v.layers) + 1 <= U32_MAX
    requires w.visibleRows == v.visibleRows + |rows| <= U64_MAX && FirstNewId(v) + |rows| <= U64_MAX + 1
    requires w.maxRowId == Some(FirstNewId(v) + |rows| - 1)
    ensures w.Valid() && Appended(v, incoming, rows, w)
  {
    hide *;
    VisibleRowsValid(v);
    UnionFacts(v);
    SchemasSnoc(v.layers, layer);
    ValidUnion(w);
    UnionGrows(v.schema, LayerSchemas(v.layers), w.schema, incoming);
    AppendVisible(v, w, layer, incoming, rows);
    ValidFrom(w);
  }

  lemma ValidUnion(w: Versioned)
    requires w.ValidLayers()
    ensures ValidSchema(w.schema)
  {
  }
}

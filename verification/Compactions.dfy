/** Compaction, and the full rebuild that delta mutations stand in for. Both write a clean base: the one
    from the visible rows as they are, the other from a base's rows with mutations applied. Neither
    leaves a delta or an override behind. */
module Compactions {
  import opened Wrappers
  import opened RowSets
  import opened Postings
  import opened Schemas
  import opened SchemaUnions
  import opened LogicalDatasets
  import opened VisibilityMaps
  import opened Overlays
  import opened VersionedDatasets
  import opened DatasetBuilds
  import opened Mutations
  import opened DeltaWrites
  import opened Appends
  import opened Rebuilds

  // ----------------------------------------------------------------------- overlay-free datasets

  /** A dataset opened where no overlay was written: no deltas, no overrides, and the base's greatest ID. */
  method OpenBase(d: LogicalDataset) returns (v: Versioned)
    requires d.Valid()
    ensures v.Valid() && v.layers == [Layer(0, d)] && v.visibility.entries == []
    ensures v.schema == d.schema && v.Rows() == d.Content() && v.maxRowId == d.rowIds.MaxId()
  {
    hide *;
    var layers := [Layer(0, d)];
    var visibility := Visibility([]);
    BaseOpens(d, layers, visibility);
    var base := Open(layers, visibility, d.engine.rows, d.rowIds.MaxId());
    v := base.value;
    BaseOpened(v, d);
  }

  lemma BaseOpens(d: LogicalDataset, layers: seq<Layer>, visibility: Visibility)
    requires d.Valid() && layers == [Layer(0, d)] && visibility == Visibility([])
    ensures layers != [] && (forall i :: 0 <= i < |layers| ==> layers[i].dataset.Valid())
    ensures visibility.Valid() && TargetsExist(layers, visibility) && d.rowIds.Valid()
    ensures forall i, j :: 0 <= i < |layers| && 0 <= j < |layers| ==> Agrees(layers[i].dataset.schema, layers[j].dataset.schema)
  {
    assert visibility.Map() == map[];
    assert LayerSchemas(layers) == [d.schema];
    UnionOfOne(d.schema);
    LayersAgree(d.schema, layers);
  }

  lemma BaseOpened(v: Versioned, d: LogicalDataset)
    requires d.Valid() && v.layers == [Layer(0, d)] && v.visibility == Visibility([])
    requires v.ValidLayers() && IsUnion(v.schema, LayerSchemas(v.layers))
    requires v.visibleRows == d.engine.rows && v.maxRowId == d.rowIds.MaxId()
    ensures v.Valid() && v.schema == d.schema && v.Rows() == d.Content()
  {
    hide *;
    BaseSchema(v, d);
    BaseHeld(v, d);
    OneLayer(v.View(), d.Content());
    ValidParts(d);
    BaseCounts(v, d);
    RowsAreVisible(v);
    ValidFrom(v);
  }

  lemma BaseSchema(v: Versioned, d: LogicalDataset)
    requires d.Valid() && v.layers == [Layer(0, d)] && v.ValidLayers() && IsUnion(v.schema, LayerSchemas(v.layers))
    ensures v.schema == d.schema && ValidSchema(d.schema)
  {
    hide *;
    ValidParts(d);
    ValidUnion(v);
    assert LayerSchemas(v.layers) == [d.schema];
    UnionOfOne(d.schema);
    UnionUnique(v.schema, d.schema, [d.schema]);
  }

  lemma ValidParts(d: LogicalDataset)
    requires d.Valid()
    ensures ValidSchema(d.schema) && d.rowIds.Valid()
  {
  }

  lemma BaseHeld(v: Versioned, d: LogicalDataset)
    requires d.Valid() && v.layers == [Layer(0, d)] && v.ValidLayers() && v.schema == d.schema && v.visibility == Visibility([])
    ensures v.View() == Stack([d.Content()], [0], map[])
  {
    assert v.ValidLayer(0);
    forall id | id in d.Content() ensures Align(SchemaMap(v.schema, d.schema), d.Content()[id]) == d.Content()[id] {
      d.ContentRows(id);
      AlignSelf(v.schema, d.Content()[id]);
    }
    assert v.Held(0) == d.Content();
    assert v.visibility.Map() == map[];
    assert v.View().held == [d.Content()];
    assert v.View().numbers == [0];
  }

  lemma OneLayer(s: Stack, rows: map<nat, Row>)
    requires s == Stack([rows], [0], map[])
    ensures WellFormedStack(s) && Visible(s) == rows
  {
    forall id ensures (id in Visible(s) <==> id in rows) && (id in rows ==> Visible(s)[id] == rows[id]) {
      if id in rows {
        assert id in s.held[0];
        VisibleAt(s, 0, id);
      } else {
        LookupNowhere(s, id);
      }
    }
  }

  lemma BaseCounts(v: Versioned, d: LogicalDataset)
    requires d.Valid() && v.ValidLayers() && v.View() == Stack([d.Content()], [0], map[]) && d.rowIds.Valid()
    requires v.maxRowId == d.rowIds.MaxId()
    ensures Bounded(v.View(), v.maxRowId) && d.engine.rows == |d.Content()| <= U64_MAX
  {
    hide *;
    RowsOfIds(d);
    OneLayerBounded(v.View(), d.Content(), d.rowIds.MaxId());
  }

  lemma RowsOfIds(d: LogicalDataset)
    requires d.Valid() && d.rowIds.Valid()
    ensures d.engine.rows == |d.Content()| <= U64_MAX
    ensures forall id :: id in d.Content() <==> id in d.rowIds.Ids()
    ensures forall id :: id in d.rowIds.Ids() ==> id <= U64_MAX
  {
    ElementsListed(d.rowIds.Ids());
    ListsSize(d.rowIds.Ids(), d.IdSet());
    assert |d.Content().Keys| == |d.Content()|;
  }

  lemma OneLayerBounded(s: Stack, rows: map<nat, Row>, max: Option<nat>)
    requires s == Stack([rows], [0], map[]) && forall id :: id in rows ==> max.Some? && id <= max.value
    requires max.Some? ==> max.value in rows && forall id :: id in rows ==> id <= U64_MAX
    ensures Bounded(s, max)
  {
  }

  // -------------------------------------------------------------------------------- compaction

  ghost predicate CompactionObstructed(v: Versioned, config: WriteConfig)
    requires v.ValidLayers()
  {
    || config.batchRows == 0 || config.maxSortRecords == 0 || config.dictionaryRunBytes == 0
    || Unbuildable(v.schema, v.Rows(), config, BaseMapped(v, v.schema))
  }

  /** Rewrites the visible rows as one clean base. The new dataset denotes the same map under the same
      schema, without deltas or overrides. It fails exactly when the rows cannot be built. */
  method CompactDataset(v: Versioned, config: WriteConfig) returns (r: Result<Versioned>)
    requires v.Valid()
    ensures r.Ok? <==> !CompactionObstructed(v, config)
    ensures r.Ok? ==>
              && r.value.Valid()
              && r.value.Rows() == v.Rows() && r.value.schema == v.schema && r.value.visibleRows == v.visibleRows
              && LastNumber(r.value.layers) == 0 && |r.value.layers| == 1 && r.value.visibility.entries == []
              && IsGreatest(r.value.maxRowId, v.Rows())
    ensures r.Ok? ==> forall s :: HasIndex(r.value.layers[0].dataset.engine.rowHier, s) <==>
              (|s| == 1 && s[0] < |v.schema|) || RenamesBaseIndex(s, v, v.schema)
  {
    hide *;
    VisibleRowsValid(v);
    CompactionIs(v, config);
    BasePages(v);
    NoEntries(v, config);
    if config.batchRows == 0 || config.maxSortRecords == 0 || config.dictionaryRunBytes == 0 {
      return Err(InvalidInput);
    }
    if v.visibleRows == 0 {
      return Err(InvalidInput);
    }
    var entries := v.ForEachVisibleRow();
    RowsFit(v, entries);
    var built := BuildDataset(v.schema, entries, v.layers[0].dataset.engine.pageRows, config, BaseMapped(v, v.schema));
    BuildableIs(v.schema, v.Rows(), entries, config, BaseMapped(v, v.schema));
    if built.Err? {
      return Err(built.error);
    }
    RecordsUnique(v.Rows(), built.value.Content(), entries);
    var w := OpenBase(built.value);
    forall s ensures s in BaseMapped(v, v.schema) <==> RenamesBaseIndex(s, v, v.schema) {
      BaseMappedAre(v, v.schema, s);
    }
    CountsRows(w);
    GreatestId(built.value);
    BaseNumber(built.value);
    return Ok(w);
  }

  /** The greatest ID in use; none when there is no row. */
  ghost predicate IsGreatest(max: Option<nat>, rows: map<nat, Row>) {
    && (max.None? <==> rows == map[])
    && (max.Some? ==> max.value in rows && forall id :: id in rows ==> id <= max.value)
  }

  lemma GreatestId(d: LogicalDataset)
    requires d.Valid()
    ensures d.rowIds.Valid() && IsGreatest(d.rowIds.MaxId(), d.Content())
  {
    var max := d.rowIds.MaxId();
    if max.Some? {
      assert max.value in d.Content();
    } else {
      assert d.Content().Keys == {};
    }
  }

  lemma BaseNumber(d: LogicalDataset)
    ensures LastNumber([Layer(0, d)]) == 0
  {
  }

  lemma CountsRows(w: Versioned)
    requires w.Valid()
    ensures w.visibleRows == |w.Rows()|
  {
  }

  lemma CompactionIs(v: Versioned, config: WriteConfig)
    requires v.ValidLayers()
    ensures CompactionObstructed(v, config) <==>
              || config.batchRows == 0 || config.maxSortRecords == 0 || config.dictionaryRunBytes == 0
              || Unbuildable(v.schema, v.Rows(), config, BaseMapped(v, v.schema))
  {
    hide Unbuildable;
  }

  /** What stops a compaction, from the rows alone: a bad configuration, no row, too many, or an index of the
      base whose columns, found by name, are too varied by now. */
  lemma CompactionMeans(v: Versioned, config: WriteConfig)
    requires v.Valid()
    ensures CompactionObstructed(v, config) <==>
              || config.batchRows == 0 || config.maxSortRecords == 0 || config.dictionaryRunBytes == 0
              || |v.Rows()| == 0 || |v.Rows()| > U32_MAX
              || exists s :: RenamesBaseIndex(s, v, v.schema) && TooWide(s, v.schema, v.Rows())
  {
    hide *;
    ValidLayersIs(v);
    CompactionIs(v, config);
    VisibleRowsValid(v);
    forall s ensures s in BaseMapped(v, v.schema) <==> RenamesBaseIndex(s, v, v.schema)
             ensures s in BaseMapped(v, v.schema) ==> s != [] && InWidth(s, |v.schema|) {
      BaseMappedAre(v, v.schema, s);
    }
    UnbuildableWhen(v.schema, v.Rows(), config, BaseMapped(v, v.schema));
  }

  /** No index of the base on two or more different columns is lost for want of a name. */
  lemma IndexKept(v: Versioned, i: nat) returns (s: seq<nat>)
    requires v.Valid() && v.layers != [] && i < |v.layers[0].dataset.engine.rowHier|
    requires var columns := v.layers[0].dataset.engine.rowHier[i].columns; |columns| >= 2 && Different(columns)
    ensures Renames(s, v.schema, v.layers[0].dataset.engine.rowHier[i].columns, v.layers[0].dataset.schema)
    ensures RenamesBaseIndex(s, v, v.schema)
  {
    var d := v.layers[0].dataset;
    var columns := d.engine.rowHier[i].columns;
    assert HasIndex(d.engine.rowHier, columns);
    hide *;
    ValidDatasets(v);
    UnionFacts(v);
    ValidDatasetSchema(v, 0);
    ReadsAll(v);
    IndexInWidth(d, columns);
    NamesRead(v.schema, d.schema, columns);
    s := KeptByName(columns, d.schema, v.schema);
    RenamesAt(s, v, i);
  }

  lemma NamesRead(schema: Schema, layer: Schema, columns: seq<nat>)
    requires Reads(schema, layer) && InWidth(columns, |layer|)
    ensures forall name :: name in ColumnNames(layer, columns) ==> exists c :: 0 <= c < |schema| && schema[c].name == name
  {
    forall name | name in ColumnNames(layer, columns) ensures exists c :: 0 <= c < |schema| && schema[c].name == name {
      var i :| 0 <= i < |columns| && layer[columns[i]].name == name;
      assert ReadsColumn(schema, layer[columns[i]]);
      assert schema[ColumnIndex(schema, name).value].name == name;
    }
  }

  lemma RenamesAt(s: seq<nat>, v: Versioned, i: nat)
    requires v.layers != [] && i < |v.layers[0].dataset.engine.rowHier|
    requires Renames(s, v.schema, v.layers[0].dataset.engine.rowHier[i].columns, v.layers[0].dataset.schema)
    ensures RenamesBaseIndex(s, v, v.schema)
  {
  }

  lemma SomeRow(rows: map<nat, Row>, entries: seq<Entry>)
    requires Records(rows, entries)
    ensures entries != [] ==> |rows| > 0
  {
    assert |rows.Keys| == |rows|;
    if entries != [] {
      assert entries[0].0 in rows.Keys;
    }
  }

  /** Nothing can be built from no rows. */
  lemma NoEntries(v: Versioned, config: WriteConfig)
    requires v.Valid()
    ensures v.visibleRows == 0 ==> Unbuildable(v.schema, v.Rows(), config, BaseMapped(v, v.schema))
  {
    assert v.visibleRows == |v.Rows()|;
    hide v.Valid, v.ValidLayers, v.Rows;
    if v.visibleRows == 0 {
      forall entries: seq<Entry> | Records(v.Rows(), entries)
        ensures !Buildable(v.schema, entries, config, BaseMapped(v, v.schema))
      {
        SomeRow(v.Rows(), entries);
      }
    }
  }

  lemma RowsFit(v: Versioned, entries: seq<Entry>)
    requires v.Valid() && Records(v.Rows(), entries)
    ensures forall k :: 0 <= k < |entries| ==> entries[k].0 <= U64_MAX
  {
    RowsBounded(v);
    VisibleRowsValid(v);
  }

  /** A result page is determined by the rows: datasets that denote the same map under the same schema
      answer every query alike. */
  lemma PageDetermined(a: seq<LogicalRow>, b: seq<LogicalRow>, schema: Schema, rows: map<nat, Row>, ids: set<nat>, projection: seq<nat>)
    requires Shows(a, schema, rows, ids, projection) && Shows(b, schema, rows, ids, projection)
    ensures a == b
  {
    ListsUnique(RowIds(a), RowIds(b), ids);
    assert |RowIds(a)| == |RowIds(b)|;
    forall i | 0 <= i < |a| ensures a[i] == b[i] {
      assert RowIds(a)[i] == RowIds(b)[i];
    }
  }

  // ------------------------------------------------------------------------------- full rebuild

  function NextId(d: LogicalDataset): nat
    requires d.rowIds.Valid()
  {
    if d.rowIds.MaxId().None? then 0 else d.rowIds.MaxId().value + 1
  }

  /** What stops a rebuild. Unlike a delta, it needs the ID after the greatest one even when nothing is
      inserted. */
  ghost predicate RebuildObstructed(d: LogicalDataset, mutations: seq<Mutation>, config: WriteConfig)
    requires d.Valid()
  {
    || config.batchRows == 0 || config.maxSortRecords == 0 || config.dictionaryRunBytes == 0 || mutations == []
    || var steps := Steps(d.schema, d.Content(), mutations, NextId(d));
       steps.Err? || steps.value.next > U64_MAX
       || Unbuildable(d.schema, steps.value.rows, config, Accelerators(d.engine.rowHier))
  }

  /** Entries for part of a map, in ID order. */
  ghost predicate ListsPart(rows: map<nat, Row>, entries: seq<Entry>, ids: set<nat>) {
    && Lists(EntryIds(entries), ids)
    && forall k :: 0 <= k < |entries| ==> entries[k].0 in rows && rows[entries[k].0] == entries[k].1
  }

  lemma PartSnoc(rows: map<nat, Row>, entries: seq<Entry>, ids: set<nat>, id: nat, row: Row)
    requires ListsPart(rows, entries, ids) && id in rows && rows[id] == row && forall x :: x in ids ==> x < id
    ensures ListsPart(rows, entries + [(id, row)], ids + {id})
  {
    ListsSnoc(EntryIds(entries), ids, id);
    assert EntryIds(entries + [(id, row)]) == EntryIds(entries) + [id];
  }

  lemma NoPart(rows: map<nat, Row>)
    ensures ListsPart(rows, [], {})
  {
    assert EntryIds([]) == [];
  }

  /** The IDs of the first p physical rows. */
  ghost function IdsUpTo(ids: seq<nat>, p: nat): set<nat>
    requires p <= |ids|
  {
    set j | 0 <= j < p :: ids[j]
  }

  lemma NextPhysical(d: LogicalDataset, p: nat)
    requires d.Valid() && p <= d.engine.rows
    ensures |d.rowIds.Ids()| == d.engine.rows && IdsUpTo(d.rowIds.Ids(), 0) == {}
    ensures p < d.engine.rows ==>
              && IdsUpTo(d.rowIds.Ids(), p + 1) == IdsUpTo(d.rowIds.Ids(), p) + {d.rowIds.Ids()[p]}
              && (forall x :: x in IdsUpTo(d.rowIds.Ids(), p) ==> x < d.rowIds.Ids()[p])
              && d.rowIds.Logical(p) == Some(d.rowIds.Ids()[p])
              && d.rowIds.Ids()[p] in d.Content() && d.Content()[d.rowIds.Ids()[p]] == d.RowAt(p)
    ensures p == d.engine.rows ==> IdsUpTo(d.rowIds.Ids(), p) == d.Content().Keys
  {
    if p < d.engine.rows {
      d.ContentAt(p);
    }
    if p == d.engine.rows {
      forall id ensures id in IdsUpTo(d.rowIds.Ids(), p) <==> id in d.Content() {
      }
    }
  }

  /** The surviving rows in physical order, patched. */
  method KeptRows(d: LogicalDataset, p: Prepared, ghost first: nat) returns (entries: seq<Entry>)
    requires d.Valid() && ValidPrepared(d.schema, d.Content(), p) && IdsBelow(d.Content(), first)
    ensures ListsPart(PreparedRows(d.Content(), p, first), entries, d.Content().Keys - p.deletes)
  {
    hide *;
    ghost var rows, ids := PreparedRows(d.Content(), p, first), d.rowIds.Ids();
    entries := [];
    NoPart(rows);
    NextPhysical(d, 0);
    assert IdsUpTo(ids, 0) - p.deletes == {};
    for k := 0 to d.engine.rows
      invariant ListsPart(rows, entries, IdsUpTo(ids, k) - p.deletes)
    {
      NextPhysical(d, k);
      KeptRow(d, p, first, k);
      var id := d.rowIds.Logical(k).value;
      if id in p.deletes {
        assert IdsUpTo(ids, k + 1) - p.deletes == IdsUpTo(ids, k) - p.deletes;
        continue;
      }
      var values := WholeRow(d, k);
      PartSnoc(rows, entries, IdsUpTo(ids, k) - p.deletes, id, PatchedRow(values, p, id));
      assert IdsUpTo(ids, k + 1) - p.deletes == IdsUpTo(ids, k) - p.deletes + {id};
      entries := entries + [(id, PatchedRow(values, p, id))];
    }
    NextPhysical(d, d.engine.rows);
  }

  method WholeRow(d: LogicalDataset, physical: nat) returns (row: Row)
    requires d.Valid() && physical < d.engine.rows
    ensures row == d.RowAt(physical)
  {
    var values := d.DecodeProjection(physical, Iota(|d.schema|));
    row := values.value;
    forall k | 0 <= k < |d.schema| ensures row[k] == d.RowAt(physical)[k] {
      assert IsValueAt(d, physical, Iota(|d.schema|)[k], row[k]);
    }
  }

  lemma KeptRow(d: LogicalDataset, p: Prepared, first: nat, k: nat)
    requires d.Valid() && ValidPrepared(d.schema, d.Content(), p) && IdsBelow(d.Content(), first)
    requires k < d.engine.rows && |d.rowIds.Ids()| == d.engine.rows
    ensures var id := d.rowIds.Ids()[k];
            id !in p.deletes ==>
              && id in PreparedRows(d.Content(), p, first)
              && PreparedRows(d.Content(), p, first)[id] == PatchedRow(d.RowAt(k), p, id)
  {
    d.ContentAt(k);
    hide d.Valid, d.Content, PatchedRow;
  }

  /** Applies a transaction by rewriting the whole dataset. */
  method RebuildMutations(d: LogicalDataset, mutations: seq<Mutation>, config: WriteConfig) returns (r: Result<LogicalDataset>)
    requires d.Valid()
    ensures r.Ok? <==> !RebuildObstructed(d, mutations, config)
    ensures r.Ok? ==>
              && r.value.Valid() && r.value.schema == d.schema
              && Steps(d.schema, d.Content(), mutations, NextId(d)).Ok?
              && r.value.Content() == Steps(d.schema, d.Content(), mutations, NextId(d)).value.rows
    ensures r.Ok? ==> forall s :: HasIndex(r.value.engine.rowHier, s) <==>
              (|s| == 1 && s[0] < |d.schema|) || (|s| >= 2 && HasIndex(d.engine.rowHier, s))
  {
    hide *;
    RebuildIs(d, mutations, config);
    if config.batchRows == 0 || config.maxSortRecords == 0 || config.dictionaryRunBytes == 0 {
      return Err(InvalidInput);
    }
    var v := OpenBase(d);
    VisibleRowsValid(v);
    SameFirst(v, d);
    ghost var first := NextId(d);
    var prepared := Prepare(v, mutations, first);
    if prepared.Err? {
      return Err(prepared.error);
    }
    var p := prepared.value;
    ghost var t := Steps(d.schema, d.Content(), mutations, first).value;
    FoldFacts(d.schema, d.Content(), first, p, t);
    var entries := KeptRows(d, p, first);
    var added := AddInserts(d, p, entries);
    if added.Err? {
      return Err(added.error);
    }
    entries := added.value;
    PartRecords(d.Content(), p, first, t.rows, entries, t.next);
    BasePages(v);
    var built := BuildDataset(d.schema, entries, d.engine.pageRows, config, Accelerators(d.engine.rowHier));
    BuildableIs(d.schema, t.rows, entries, config, Accelerators(d.engine.rowHier));
    if built.Err? {
      return Err(built.error);
    }
    RecordsUnique(t.rows, built.value.Content(), entries);
    forall s ensures s in Accelerators(d.engine.rowHier) <==> |s| >= 2 && HasIndex(d.engine.rowHier, s) {
      AcceleratorsAre(d.engine.rowHier, s);
    }
    return Ok(built.value);
  }

  lemma RebuildIs(d: LogicalDataset, mutations: seq<Mutation>, config: WriteConfig)
    requires d.Valid()
    ensures d.rowIds.Valid()
    ensures var steps := Steps(d.schema, d.Content(), mutations, NextId(d));
            RebuildObstructed(d, mutations, config) <==>
              || config.batchRows == 0 || config.maxSortRecords == 0 || config.dictionaryRunBytes == 0 || mutations == []
              || steps.Err? || steps.value.next > U64_MAX
              || Unbuildable(d.schema, steps.value.rows, config, Accelerators(d.engine.rowHier))
  {
    hide Steps, Unbuildable;
  }

  /** What stops a rebuild, from the rows alone. */
  lemma RebuildMeans(d: LogicalDataset, mutations: seq<Mutation>, config: WriteConfig)
    requires d.Valid() && d.rowIds.Valid()
    ensures var steps := Steps(d.schema, d.Content(), mutations, NextId(d));
            RebuildObstructed(d, mutations, config) <==>
              || config.batchRows == 0 || config.maxSortRecords == 0 || config.dictionaryRunBytes == 0 || mutations == []
              || steps.Err? || steps.value.next > U64_MAX
              || |steps.value.rows| == 0 || |steps.value.rows| > U32_MAX
              || exists s :: |s| >= 2 && HasIndex(d.engine.rowHier, s) && TooWide(s, d.schema, steps.value.rows)
  {
    hide *;
    RebuildIs(d, mutations, config);
    ContentValid(d);
    var steps := Steps(d.schema, d.Content(), mutations, NextId(d));
    if steps.Ok? {
      StepsValid(d.schema, d.Content(), mutations, NextId(d));
      var accelerators := Accelerators(d.engine.rowHier);
      forall s ensures s in accelerators <==> |s| >= 2 && HasIndex(d.engine.rowHier, s)
               ensures s in accelerators ==> s != [] && InWidth(s, |d.schema|) {
        AcceleratorsAre(d.engine.rowHier, s);
        if HasIndex(d.engine.rowHier, s) {
          IndexInWidth(d, s);
        }
      }
      UnbuildableWhen(d.schema, steps.value.rows, config, accelerators);
    }
  }

  lemma ContentValid(d: LogicalDataset)
    requires d.Valid()
    ensures ValidSchema(d.schema) && forall id :: id in d.Content() ==> ValidRow(d.schema, d.Content()[id])
  {
    forall id | id in d.Content() ensures ValidRow(d.schema, d.Content()[id]) {
      d.ContentRows(id);
    }
  }

  /** A dataset that has the last 64-bit ID can be rebuilt by no transaction, not even a deletion. */
  lemma NoSpareId(d: LogicalDataset, mutations: seq<Mutation>, config: WriteConfig)
    requires d.Valid() && d.rowIds.Valid() && d.rowIds.MaxId() == Some(U64_MAX)
    ensures RebuildObstructed(d, mutations, config)
  {
    var steps := Steps(d.schema, d.Content(), mutations, NextId(d));
    if steps.Ok? {
      NextIdRises(d.schema, d.Content(), mutations, NextId(d));
    }
    hide d.Valid, d.Content, Steps;
  }

  lemma {:induction false} NextIdRises(schema: Schema, rows: map<nat, Row>, mutations: seq<Mutation>, first: nat)
    requires Steps(schema, rows, mutations, first).Ok?
    ensures first <= Steps(schema, rows, mutations, first).value.next
  {
    if mutations != [] {
      NextIdRises(schema, rows, mutations[..|mutations| - 1], first);
    }
  }

  /** A delta that deletes one row needs no ID: the row has to be there, and not the last. */
  lemma DeletionFits(v: Versioned, id: nat, config: WriteConfig)
    requires v.Valid()
    ensures Obstructed(v, [Delete(id)], config) <==>
              || config.batchRows == 0 || config.maxSortRecords == 0 || config.dictionaryRunBytes == 0
              || id !in v.Rows() || v.Rows().Keys == {id}
  {
    hide *;
    ValidLayersIs(v);
    VisibleRowsValid(v);
    ObstructedIs(v, [Delete(id)], config);
    OneDeletion(v.schema, v.Rows(), id, FirstNewId(v));
  }

  lemma OneDeletion(schema: Schema, rows: map<nat, Row>, id: nat, first: nat)
    requires IdsBelow(rows, first)
    ensures var steps := Steps(schema, rows, [Delete(id)], first);
            && (steps.Ok? <==> id in rows)
            && (steps.Ok? ==> steps.value.next == first && NewVersions(steps.value, first) == map[])
            && (steps.Ok? ==> (steps.value.rows == map[] <==> rows.Keys == {id}))
  {
    var one := [Delete(id)];
    assert one[..|one| - 1] == [];
    assert Steps(schema, rows, [], first) == Ok(Transaction(rows, {}, {}, first));
    var steps := Steps(schema, rows, one, first);
    hide Steps;
    if id in rows {
      assert steps.value.rows == rows - {id} && steps.value.updated == {};
      LastRow(rows, id);
    }
  }

  lemma LastRow(rows: map<nat, Row>, id: nat)
    requires id in rows
    ensures rows - {id} == map[] <==> rows.Keys == {id}
  {
    assert (rows - {id}).Keys == rows.Keys - {id};
    if rows.Keys == {id} {
      assert (rows - {id}).Keys == {};
    } else {
      var other :| other in rows && other != id;
      assert other in rows - {id};
    }
  }

  /** Two rows of one text column, the second under the last 64-bit ID. */
  function LastIdSchema(): Schema { [Column("name", Text, AsIs, true, [])] }

  function LastIdEntries(): seq<Entry> { [(0, [None]), (U64_MAX, [None])] }

  lemma LastIdBuilds(config: WriteConfig)
    requires config.batchRows > 0 && config.maxSortRecords > 0 && config.dictionaryRunBytes > 0
    ensures ValidSchema(LastIdSchema()) && Buildable(LastIdSchema(), LastIdEntries(), config, [])
  {
    assert !WhiteSpace("name"[0]);
  }

  /** On the dataset of these rows the deletion of row 0 fails as a rebuild and succeeds as a delta. */
  lemma LastIdGap(d: LogicalDataset, v: Versioned, config: WriteConfig)
    requires d.Valid() && d.schema == LastIdSchema() && Records(d.Content(), LastIdEntries())
    requires v.Valid() && v.Rows() == d.Content()
    requires config.batchRows > 0 && config.maxSortRecords > 0 && config.dictionaryRunBytes > 0
    ensures RebuildObstructed(d, [Delete(0)], config) && !Obstructed(v, [Delete(0)], config)
  {
    hide *;
    DeletionFits(v, 0, config);
    LastIdListed(d.Content());
    LastIdMax(d);
    NoSpareId(d, [Delete(0)], config);
  }

  lemma LastIdMax(d: LogicalDataset)
    requires d.Valid() && U64_MAX in d.Content()
    ensures d.rowIds.Valid() && d.rowIds.MaxId() == Some(U64_MAX)
  {
    GreatestId(d);
  }

  lemma LastIdListed(rows: map<nat, Row>)
    requires Records(rows, LastIdEntries())
    ensures 0 in rows && U64_MAX in rows && rows.Keys != {0}
  {
    var entries := LastIdEntries();
    assert entries[0].0 == 0 && entries[1].0 == U64_MAX;
  }

  lemma SameFirst(v: Versioned, d: LogicalDataset)
    requires d.rowIds.Valid() && v.maxRowId == d.rowIds.MaxId()
    ensures FirstNewId(v) == NextId(d)
  {
  }

  /** The inserted rows under IDs past the greatest one. */
  method AddInserts(d: LogicalDataset, p: Prepared, given: seq<Entry>) returns (r: Result<seq<Entry>>)
    requires d.Valid() && d.rowIds.Valid() && ValidPrepared(d.schema, d.Content(), p) && IdsBelow(d.Content(), NextId(d))
    requires ListsPart(PreparedRows(d.Content(), p, NextId(d)), given, d.Content().Keys - p.deletes)
    ensures r.Ok? <==> NextId(d) + |p.inserts| <= U64_MAX
    ensures r.Ok? ==> ListsPart(PreparedRows(d.Content(), p, NextId(d)), r.value,
                        (d.Content().Keys - p.deletes) + Span(NextId(d), |p.inserts|))
  {
    hide *;
    ghost var first := NextId(d);
    ghost var rows, kept := PreparedRows(d.Content(), p, first), d.Content().Keys - p.deletes;
    var entries := given;
    NextIdIs(d);
    var next: nat := if d.rowIds.MaxId().None? then 0 else d.rowIds.MaxId().value;
    if d.engine.rows > 0 {
      if next >= U64_MAX {
        return Err(Overflow);
      }
      next := next + 1;
    }
    SpanStart(p, first);
    assert kept + Span(first, 0) == kept;
    for k := 0 to |p.inserts|
      invariant next == first + k <= U64_MAX
      invariant ListsPart(rows, entries, kept + Span(first, k))
    {
      InsertedRow(d.Content(), p, first, k);
      PartSnoc(rows, entries, kept + Span(first, k), next, p.inserts[k]);
      SpanNext(first, k);
      assert kept + Span(first, k) + {next} == kept + Span(first, k + 1);
      entries := entries + [(next, p.inserts[k])];
      if next >= U64_MAX {
        return Err(Overflow);
      }
      next := next + 1;
    }
    return Ok(entries);
  }

  lemma NextIdIs(d: LogicalDataset)
    requires d.Valid() && d.rowIds.Valid()
    ensures NextId(d) == if d.rowIds.MaxId().None? then 0 else d.rowIds.MaxId().value + 1
    ensures d.rowIds.MaxId().None? <==> d.engine.rows == 0
    ensures d.rowIds.MaxId().Some? ==> d.rowIds.MaxId().value <= U64_MAX
  {
  }

  lemma InsertedRow(rows: map<nat, Row>, p: Prepared, first: nat, k: nat)
    requires IdsBelow(rows, first) && k < |p.inserts|
    ensures first + k in PreparedRows(rows, p, first) && PreparedRows(rows, p, first)[first + k] == p.inserts[k]
    ensures forall x :: x in (rows.Keys - p.deletes) + Span(first, k) ==> x < first + k
  {
    assert first + k in InsertedIds(p, first);
  }

  lemma PartRecords(rows: map<nat, Row>, p: Prepared, first: nat, after: map<nat, Row>, entries: seq<Entry>, next: nat)
    requires p.updates.Keys <= rows.Keys && p.updates.Keys !! p.deletes && IdsBelow(rows, first)
    requires after == PreparedRows(rows, p, first) && next == first + |p.inserts| <= U64_MAX
    requires ListsPart(after, entries, (rows.Keys - p.deletes) + Span(first, |p.inserts|))
    ensures Records(after, entries)
    ensures forall k :: 0 <= k < |entries| ==> entries[k].0 <= U64_MAX
  {
    DeltaKeys(rows, p, first);
    SpanStart(p, first);
    forall k | 0 <= k < |entries| ensures entries[k].0 <= U64_MAX {
      assert entries[k].0 in after;
    }
  }

  /** On a dataset without deltas, a delta and a rebuild leave the same rows. */
  lemma DeltaIsRebuild(v: Versioned, d: LogicalDataset, mutations: seq<Mutation>, w: Versioned, rebuilt: LogicalDataset)
    requires d.Valid() && v.Valid()
    requires v.layers == [Layer(0, d)] && v.schema == d.schema && v.Rows() == d.Content() && v.maxRowId == d.rowIds.MaxId()
    requires Applied(v, mutations, w)
    requires rebuilt.Valid() && rebuilt.schema == d.schema
    requires Steps(d.schema, d.Content(), mutations, NextId(d)).Ok?
    requires rebuilt.Content() == Steps(d.schema, d.Content(), mutations, NextId(d)).value.rows
    ensures w.Valid() && w.schema == rebuilt.schema && w.Rows() == rebuilt.Content()
  {
    hide Steps, v.Valid, d.Valid, w.Valid, v.ValidLayers, w.ValidLayers, v.Rows, w.Rows, d.Content;
    assert LastNumber(v.layers) == 0;
    ValidParts(d);
    SameFirst(v, d);
  }
}

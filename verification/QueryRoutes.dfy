/** The routes of a query request that examine rows one by one: the full scan, and the scan of the
    candidates an equality index supplies. Both find the selected rows: how many, and a page of them. */
module QueryRoutes {
  import opened Wrappers
  import opened RowSets
  import opened Schemas
  import opened VersionedDatasets
  import Overlays
  import opened QueryFilters
  import opened EngineQueries

  /** The first ID past a cursor. */
  function Start(after: Option<nat>): nat {
    if after.None? then 0 else after.value + 1
  }

  /** Every row of the page is visible and past the cursor. */
  ghost predicate Ahead(rows: seq<LogicalRow>, visible: map<nat, Row>, after: Option<nat>) {
    forall i :: 0 <= i < |rows| ==> rows[i].rowId in visible && Past(after, rows[i].rowId)
  }

  /** A page past a cursor is ahead of it and no longer than asked. */
  lemma PageAhead(rows: seq<LogicalRow>, schema: Schema, visible: map<nat, Row>, M: set<nat>, after: Option<nat>, limit: nat, projection: seq<nat>)
    requires Shows(rows, schema, visible, Top(After(M, after), limit), projection)
    ensures |rows| <= limit && Ahead(rows, visible, after)
  {
    ListsSize(RowIds(rows), Top(After(M, after), limit));
    TopSize(After(M, after), limit);
    forall i | 0 <= i < |rows| ensures Past(after, rows[i].rowId) {
      assert RowIds(rows)[i] in Top(After(M, after), limit);
    }
  }

  lemma AfterIsFrom(M: set<nat>, after: Option<nat>)
    ensures After(M, after) == From(M, Start(after))
  {
  }

  /** Of the selected rows below a bound: how many, and those of them that are on the page. */
  ghost predicate Gathered(M: set<nat>, bound: nat, hits: nat, rows: seq<LogicalRow>, after: Option<nat>, limit: nat,
                           schema: Schema, visible: map<nat, Row>, projection: seq<nat>)
  {
    && Collected(M, bound, hits, RowIds(rows), Start(after), limit)
    && ShowsValues(rows, schema, visible, projection)
  }

  lemma GatheredNothing(M: set<nat>, after: Option<nat>, limit: nat, schema: Schema, visible: map<nat, Row>, projection: seq<nat>)
    ensures Gathered(M, 0, 0, [], after, limit, schema, visible, projection)
  {
    CollectNothing(M, Start(after), limit);
    assert RowIds([]) == [];
  }

  lemma GatheredGap(M: set<nat>, a: nat, b: nat, hits: nat, rows: seq<LogicalRow>, after: Option<nat>, limit: nat,
                    schema: Schema, visible: map<nat, Row>, projection: seq<nat>)
    requires Gathered(M, a, hits, rows, after, limit, schema, visible, projection) && a <= b
    requires forall r :: a <= r < b ==> r !in M
    ensures Gathered(M, b, hits, rows, after, limit, schema, visible, projection)
  {
    CollectGap(M, a, b, hits, RowIds(rows), Start(after), limit);
  }

  lemma GatheredHit(M: set<nat>, id: nat, hits: nat, rows: seq<LogicalRow>, after: Option<nat>, limit: nat,
                    schema: Schema, visible: map<nat, Row>, projection: seq<nat>, row: LogicalRow)
    requires Gathered(M, id, hits, rows, after, limit, schema, visible, projection) && id in M
    requires row.rowId == id && id in visible && row.values == Shown(schema, visible[id], projection)
    ensures Gathered(M, id + 1, hits + 1,
              if (after.Some? && id <= after.value) || |rows| >= limit then rows else rows + [row],
              after, limit, schema, visible, projection)
  {
    CollectHit(M, id, hits, RowIds(rows), Start(after), limit);
    assert RowIds(rows + [row]) == RowIds(rows) + [id];
  }

  lemma GatheredAll(M: set<nat>, bound: nat, hits: nat, rows: seq<LogicalRow>, after: Option<nat>, limit: nat,
                    schema: Schema, visible: map<nat, Row>, projection: seq<nat>)
    requires Gathered(M, bound, hits, rows, after, limit, schema, visible, projection) && forall id :: id in M ==> id < bound
    ensures hits == |M| && Shows(rows, schema, visible, Top(After(M, after), limit), projection)
  {
    CollectAll(M, bound, hits, RowIds(rows), Start(after), limit);
    AfterIsFrom(M, after);
  }

  /** The projected values of a row, taken from the columns that were fetched. */
  method Project(schema: Schema, values: Row, projection: seq<nat>, ghost row: Row) returns (out: seq<NamedValue>)
    requires InSchema(schema, projection) && |values| == |schema| == |row|
    requires forall k :: 0 <= k < |projection| ==> projection[k] < |schema| && values[projection[k]] == row[projection[k]]
    ensures out == Shown(schema, row, projection)
  {
    out := [];
    for k := 0 to |projection|
      invariant |out| == k && forall j :: 0 <= j < k ==> out[j] == Shown(schema, row, projection)[j]
    {
      out := out + [NamedValue(schema[projection[k]].name, values[projection[k]])];
    }
  }

  /** One row: counted if it passes, and kept if it is past the cursor and the page is not full. */
  method Examine(v: Versioned, id: nat, values: Row, tests: seq<Test>, projection: seq<nat>, after: Option<nat>, limit: nat,
                 count: nat, given: seq<LogicalRow>, ghost filters: seq<Filter>, ghost M: set<nat>)
    returns (r: Result<()>, hits: nat, rows: seq<LogicalRow>)
    requires v.ValidLayers() && id in v.Rows() && DecidesAll(v.schema, filters, tests) && InSchema(v.schema, projection)
    requires |values| == |v.schema| == |v.Rows()[id]|
    requires forall k :: 0 <= k < |projection| ==> projection[k] < |v.schema| && values[projection[k]] == v.Rows()[id][projection[k]]
    requires PassesAll(v.schema, values, filters) <==> id in M
    requires Gathered(M, id, count, given, after, limit, v.schema, v.Rows(), projection)
    ensures CanonicalRow(v.schema, values) ==> r.Ok?
    ensures r.Ok? ==> Gathered(M, id + 1, hits, rows, after, limit, v.schema, v.Rows(), projection)
  {
    hide *;
    hits, rows := count, given;
    var matched := MatchesFilters(v.schema, values, tests, filters);
    if matched.Err? {
      return Err(matched.error), hits, rows;
    }
    if !matched.value {
      GatheredGap(M, id, id + 1, hits, rows, after, limit, v.schema, v.Rows(), projection);
      return Ok(()), hits, rows;
    }
    var shown := Project(v.schema, values, projection, v.Rows()[id]);
    GatheredHit(M, id, hits, rows, after, limit, v.schema, v.Rows(), projection, LogicalRow(id, shown));
    hits := hits + 1;
    if (after.Some? && id <= after.value) || |rows| >= limit {
      return Ok(()), hits, rows;
    }
    rows := rows + [LogicalRow(id, shown)];
    return Ok(()), hits, rows;
  }

  // ---------------------------------------------------------------------------------- full scan

  /** Every visible row, in ID order. */
  method FullScan(v: Versioned, filters: seq<Filter>, tests: seq<Test>, projection: seq<nat>, after: Option<nat>, limit: nat)
    returns (r: Result<()>, hits: nat, rows: seq<LogicalRow>)
    requires v.Valid() && DecidesAll(v.schema, filters, tests) && InSchema(v.schema, projection)
    ensures CanonicalRows(v.schema, v.Rows()) ==> r.Ok?
    ensures r.Ok? ==>
              && hits == |Selected(v.schema, v.Rows(), filters)|
              && Shows(rows, v.schema, v.Rows(), Top(After(Selected(v.schema, v.Rows(), filters), after), limit), projection)
  {
    hide *;
    ghost var M := Selected(v.schema, v.Rows(), filters);
    hits, rows := 0, [];
    var all := v.ForEachVisibleRow();
    GatheredNothing(M, after, limit, v.schema, v.Rows(), projection);
    ghost var bound: nat := 0;
    FirstBound(all);
    for k := 0 to |all|
      invariant Gathered(M, bound, hits, rows, after, limit, v.schema, v.Rows(), projection)
      invariant bound == Bound(all, k)
    {
      ScannedRow(v, all, k, filters);
      FitsProjection(v.schema, projection);
      GatheredGap(M, bound, all[k].0, hits, rows, after, limit, v.schema, v.Rows(), projection);
      r, hits, rows := Examine(v, all[k].0, all[k].1, tests, projection, after, limit, hits, rows, filters, M);
      if r.Err? {
        return;
      }
      bound := all[k].0 + 1;
      NextBound(all, k);
    }
    AllScanned(v, all, filters);
    GatheredAll(M, bound, hits, rows, after, limit, v.schema, v.Rows(), projection);
    return Ok(()), hits, rows;
  }

  /** Past the first k entries. */
  ghost function Bound(all: seq<Entry>, k: nat): nat
    requires k <= |all|
  {
    if k == 0 then 0 else all[k - 1].0 + 1
  }

  lemma NextBound(all: seq<Entry>, k: nat)
    requires k < |all|
    ensures Bound(all, k + 1) == all[k].0 + 1
  {
  }

  lemma FirstBound(all: seq<Entry>)
    ensures Bound(all, 0) == 0
  {
  }

  lemma FitsProjection(schema: Schema, projection: seq<nat>)
    requires InSchema(schema, projection)
    ensures forall k :: 0 <= k < |projection| ==> projection[k] < |schema|
  {
  }

  lemma ScannedRow(v: Versioned, all: seq<Entry>, k: nat, filters: seq<Filter>)
    requires v.Valid() && Records(v.Rows(), all) && k < |all|
    ensures all[k].0 in v.Rows() && all[k].1 == v.Rows()[all[k].0] && |all[k].1| == |v.schema|
    ensures PassesAll(v.schema, all[k].1, filters) <==> all[k].0 in Selected(v.schema, v.Rows(), filters)
    ensures Bound(all, k) <= all[k].0
    ensures forall id :: Bound(all, k) <= id < all[k].0 ==> id !in Selected(v.schema, v.Rows(), filters)
    ensures CanonicalRows(v.schema, v.Rows()) ==> CanonicalRow(v.schema, all[k].1)
  {
    hide *;
    VisibleWidth(v, all[k].0);
    EntryGap(v.Rows(), all, k);
    SelectedMeans(v.schema, v.Rows(), filters);
  }

  lemma EntryGap(rows: map<nat, Row>, all: seq<Entry>, k: nat)
    requires Records(rows, all) && k < |all|
    ensures all[k].0 in rows && all[k].1 == rows[all[k].0] && Bound(all, k) <= all[k].0
    ensures forall id :: Bound(all, k) <= id < all[k].0 ==> id !in rows
  {
    assert k > 0 ==> EntryIds(all)[k - 1] < EntryIds(all)[k];
    forall id | id in rows && id < all[k].0 ensures id < Bound(all, k) {
      assert id in EntryIds(all);
      var j :| 0 <= j < |all| && EntryIds(all)[j] == id;
      assert j < k;
      assert j == k - 1 || EntryIds(all)[j] < EntryIds(all)[k - 1];
    }
  }

  lemma SelectedMeans(schema: Schema, rows: map<nat, Row>, filters: seq<Filter>)
    ensures forall id :: id in Selected(schema, rows, filters) ==> id in rows
    ensures forall id :: id in rows ==> (id in Selected(schema, rows, filters) <==> PassesAll(schema, rows[id], filters))
    ensures CanonicalRows(schema, rows) ==> forall id :: id in rows ==> CanonicalRow(schema, rows[id])
  {
  }

  lemma VisibleWidth(v: Versioned, id: nat)
    requires v.Valid()
    ensures id in v.Rows() ==> |v.Rows()[id]| == |v.schema|
  {
    if id in v.Rows() {
      var s := v.View();
      var i := Overlays.OwnerOf(s, id);
      assert v.ValidLayer(i);
    }
  }

  lemma AllScanned(v: Versioned, all: seq<Entry>, filters: seq<Filter>)
    requires v.ValidLayers() && Records(v.Rows(), all)
    ensures forall id :: id in Selected(v.schema, v.Rows(), filters) ==> id < Bound(all, |all|)
  {
    hide v.ValidLayers, v.Rows, PassesAll;
    forall id | id in Selected(v.schema, v.Rows(), filters) ensures id < Bound(all, |all|) {
      assert id in EntryIds(all);
      var j :| 0 <= j < |all| && EntryIds(all)[j] == id;
      assert j == |all| - 1 || EntryIds(all)[j] < EntryIds(all)[|all| - 1];
    }
  }
}

/** Query execution. Whichever of five routes a request takes, its answer is that of filtering the map of
    visible rows: how many rows pass, and the first `limit` of them past the cursor. */
module QueryApi {
  import opened Wrappers
  import opened RowSets
  import opened Schemas
  import opened LogicalDatasets
  import opened VersionedDatasets
  import opened QueryFilters
  import opened QueryRoutes
  import opened Decimals
  import VersionedQueries
  import CandidateRoute
  import RangeRoute
  import RangeTroubles
  import StreamMerges
  import DeltaWrites

  datatype Request = Request(filters: seq<Filter>, select: seq<string>, limit: nat, after: Option<nat>)
  datatype Response = Response(rows: seq<LogicalRow>, hits: nat, next: Option<nat>)

  function SelectOf(select: seq<string>): Option<seq<string>> {
    if select == [] then None else Some(select)
  }

  // ------------------------------------------------------------------------------------- browse

  /** Where a browse starts: past the cursor, except that the last 64-bit cursor is not passed. */
  function BrowseStart(after: Option<nat>): nat {
    if after.None? then 0 else SaturatingAdd(after.value, 1)
  }

  /** Walks the row IDs from the cursor on. */
  method Browse(v: Versioned, projection: seq<nat>, after: Option<nat>, limit: nat) returns (rows: seq<LogicalRow>)
    requires v.Valid() && InSchema(v.schema, projection) && (after.Some? ==> after.value <= U64_MAX)
    ensures Shows(rows, v.schema, v.Rows(), Top(From(v.Rows().Keys, BrowseStart(after)), limit), projection)
  {
    hide *;
    rows := [];
    ghost var start, K := BrowseStart(after), v.Rows().Keys;
    var rowId: nat := if after.None? then 0 else SaturatingAdd(after.value, 1);
    BrowseBegins(v, after, projection);
    ghost var bound: nat := rowId;
    var max := v.maxRowId;
    if max.Some? {
      while rowId <= max.value && |rows| < limit
        invariant rowId == bound && bound <= U64_MAX && start <= bound && |rows| <= limit
        invariant Shows(rows, v.schema, v.Rows(), RowSets.Below(From(K, start), bound), projection)
        decreases max.value + 1 - rowId
      {
        var values := v.RowValues(rowId);
        BrowseStep(v.schema, v.Rows(), rows, start, rowId, projection);
        if values.value.Some? {
          VisibleWidth(v, rowId);
          FitsProjection(v.schema, projection);
          var shown := Project(v.schema, values.value.value, projection, values.value.value);
          rows := rows + [LogicalRow(rowId, shown)];
        }
        bound := bound + 1;
        if rowId == U64_MAX {
          break;
        }
        rowId := rowId + 1;
      }
    }
    BrowseEnds(v, rows, start, bound, limit, projection);
  }

  lemma BrowseBegins(v: Versioned, after: Option<nat>, projection: seq<nat>)
    requires v.Valid()
    ensures BrowseStart(after) == (if after.None? then 0 else SaturatingAdd(after.value, 1)) <= U64_MAX
    ensures Shows([], v.schema, v.Rows(), RowSets.Below(From(v.Rows().Keys, BrowseStart(after)), BrowseStart(after)), projection)
    ensures v.maxRowId.Some? ==> v.maxRowId.value <= U64_MAX
  {
    hide *;
    DeltaWrites.VisibleRowsValid(v);
    StartFits(after);
    NothingShown(v.schema, v.Rows(), BrowseStart(after), projection);
  }

  lemma StartFits(after: Option<nat>)
    ensures BrowseStart(after) == (if after.None? then 0 else SaturatingAdd(after.value, 1)) <= U64_MAX
  {
  }

  lemma NothingShown(schema: Schema, visible: map<nat, Row>, start: nat, projection: seq<nat>)
    ensures Shows([], schema, visible, RowSets.Below(From(visible.Keys, start), start), projection)
  {
    assert RowIds([]) == [];
  }

  lemma BrowseStep(schema: Schema, visible: map<nat, Row>, rows: seq<LogicalRow>, start: nat, id: nat, projection: seq<nat>)
    requires start <= id && Shows(rows, schema, visible, RowSets.Below(From(visible.Keys, start), id), projection)
    ensures id !in visible ==> Shows(rows, schema, visible, RowSets.Below(From(visible.Keys, start), id + 1), projection)
    ensures id in visible ==>
              Shows(rows + [LogicalRow(id, Shown(schema, visible[id], projection))], schema, visible,
                RowSets.Below(From(visible.Keys, start), id + 1), projection)
  {
    var F := From(visible.Keys, start);
    if id in visible {
      var row := LogicalRow(id, Shown(schema, visible[id], projection));
      assert RowSets.Below(F, id + 1) == RowSets.Below(F, id) + {id};
      ListsSnoc(RowIds(rows), RowSets.Below(F, id), id);
      assert RowIds(rows + [row]) == RowIds(rows) + [id];
    } else {
      assert RowSets.Below(F, id + 1) == RowSets.Below(F, id);
    }
  }

  lemma BrowseEnds(v: Versioned, rows: seq<LogicalRow>, start: nat, bound: nat, limit: nat, projection: seq<nat>)
    requires v.Valid() && |rows| <= limit
    requires Shows(rows, v.schema, v.Rows(), RowSets.Below(From(v.Rows().Keys, start), bound), projection)
    requires v.maxRowId.None? || bound > v.maxRowId.value || |rows| == limit
    ensures Shows(rows, v.schema, v.Rows(), Top(From(v.Rows().Keys, start), limit), projection)
  {
    hide *;
    DeltaWrites.RowsBounded(v);
    PageEnds(rows, v.schema, v.Rows(), start, bound, limit, projection);
    if |rows| < limit {
      forall id | id in v.Rows() ensures id < bound {
      }
    }
  }

  lemma PageEnds(rows: seq<LogicalRow>, schema: Schema, visible: map<nat, Row>, start: nat, bound: nat, limit: nat, projection: seq<nat>)
    requires |rows| <= limit && Shows(rows, schema, visible, RowSets.Below(From(visible.Keys, start), bound), projection)
    ensures |rows| == limit || (forall id :: id in visible ==> id < bound) ==>
              Shows(rows, schema, visible, Top(From(visible.Keys, start), limit), projection)
  {
    var F := From(visible.Keys, start);
    ListsSize(RowIds(rows), RowSets.Below(F, bound));
    if |rows| == limit {
      TopSplit(F, limit, bound);
      assert Top(From(F, bound), 0) == {};
    } else if forall id :: id in visible ==> id < bound {
      assert RowSets.Below(F, bound) == F;
      TopSize(F, limit);
    }
  }

  /** A browse repeats a row exactly when the cursor is the last 64-bit ID and that row is visible. */
  lemma BrowseExact(K: set<nat>, after: Option<nat>, limit: nat)
    requires (forall id :: id in K ==> id <= U64_MAX) && limit > 0 && (after.Some? ==> after.value <= U64_MAX)
    ensures Top(From(K, BrowseStart(after)), limit) == Top(After(K, after), limit) <==>
              !(after == Some(U64_MAX) && U64_MAX in K)
  {
    if after == Some(U64_MAX) {
      assert After(K, after) == {};
      if U64_MAX in K {
        assert RowSets.Below(From(K, U64_MAX), U64_MAX) == {};
        assert U64_MAX in Top(From(K, U64_MAX), limit);
      } else {
        assert From(K, U64_MAX) == {};
      }
    } else {
      assert From(K, BrowseStart(after)) == After(K, after);
    }
  }

  /** A browse past the last 64-bit ID shows that row, past which there is none. */
  lemma BrowseRepeats()
    ensures Top(From({U64_MAX}, BrowseStart(Some(U64_MAX))), 1) == {U64_MAX}
    ensures Top(After({U64_MAX}, Some(U64_MAX)), 1) == {}
  {
    assert From({U64_MAX}, BrowseStart(Some(U64_MAX))) == {U64_MAX};
    assert RowSets.Below({U64_MAX}, U64_MAX) == {};
    assert After({U64_MAX}, Some(U64_MAX)) == {};
  }

  // --------------------------------------------------------------------------------- execution

  /** Whether every layer that has the column has an index of its own for it, and some layer has it. */
  method HasExactSingleton(v: Versioned, c: nat) returns (has: bool)
    requires c < |v.schema|
    ensures has <==> ExactSingleton(v, c)
  {
    has := false;
    for i := 0 to |v.layers|
      invariant has <==> exists j :: 0 <= j < i && HasColumn(v, c, j)
      invariant forall j :: 0 <= j < i && HasColumn(v, c, j) ==> Singleton(v, c, j)
    {
      var d := v.layers[i].dataset;
      var physical := ColumnIndex(d.schema, v.schema[c].name);
      if physical.Some? {
        assert HasColumn(v, c, i);
        has := true;
        if !exists h | 0 <= h < |d.engine.rowHier| :: d.engine.rowHier[h].columns == [physical.value] {
          assert !Singleton(v, c, i);
          return false;
        }
      }
    }
  }

  ghost predicate HasColumn(v: Versioned, c: nat, i: nat)
    requires c < |v.schema| && i < |v.layers|
  {
    ColumnIndex(v.layers[i].dataset.schema, v.schema[c].name).Some?
  }

  ghost predicate Singleton(v: Versioned, c: nat, i: nat)
    requires c < |v.schema| && i < |v.layers| && HasColumn(v, c, i)
  {
    var d := v.layers[i].dataset;
    exists h :: 0 <= h < |d.engine.rowHier| && d.engine.rowHier[h].columns == [ColumnIndex(d.schema, v.schema[c].name).value]
  }

  ghost predicate ExactSingleton(v: Versioned, c: nat)
    requires c < |v.schema|
  {
    && (exists i :: 0 <= i < |v.layers| && HasColumn(v, c, i))
    && forall i :: 0 <= i < |v.layers| && HasColumn(v, c, i) ==> Singleton(v, c, i)
  }

  method AllExactSingletons(v: Versioned, columns: seq<nat>) returns (all: bool)
    requires forall i :: 0 <= i < |columns| ==> columns[i] < |v.schema|
    ensures all <==> forall i :: 0 <= i < |columns| ==> ExactSingleton(v, columns[i])
  {
    for i := 0 to |columns|
      invariant forall j :: 0 <= j < i ==> ExactSingleton(v, columns[j])
    {
      var has := HasExactSingleton(v, columns[i]);
      if !has {
        return false;
      }
    }
    return true;
  }

  /** The one request a browse answers wrongly: past the last 64-bit ID, when a row has that ID. */
  ghost predicate RepeatsLast(v: Versioned, request: Request)
    requires v.ValidLayers()
  {
    request.filters == [] && request.after == Some(U64_MAX) && U64_MAX in v.Rows()
  }

  /** A single closed range of at most 256 integers. */
  ghost predicate ShortRangeFilter(schema: Schema, filters: seq<Filter>) {
    && |filters| == 1 && filters[0].Range? && filters[0].gte.Some? && filters[0].lte.Some?
    && ColumnIndex(schema, filters[0].column).Some?
    && var kind := schema[ColumnIndex(schema, filters[0].column).value].kind;
       var lo, hi := Parse(kind, filters[0].gte.value), Parse(kind, filters[0].lte.value);
    Numeric(kind) && lo.Some? && hi.Some? && 0 <= hi.value - lo.value < RangeRoute.MAX_EXACT_RANGE_VALUES
  }

  ghost function RangeColumn(schema: Schema, filters: seq<Filter>): (c: nat)
    requires ShortRangeFilter(schema, filters)
    ensures c < |schema|
  {
    ColumnIndex(schema, filters[0].column).value
  }

  /** The texts of the integers in the range. */
  ghost function RangeTexts(schema: Schema, filters: seq<Filter>): seq<string>
    requires ShortRangeFilter(schema, filters)
  {
    var kind := schema[RangeColumn(schema, filters)].kind;
    var lo, hi := Parse(kind, filters[0].gte.value).value, Parse(kind, filters[0].lte.value).value;
    seq(hi - lo + 1, k => IntText(lo + k))
  }

  /** The range route answers: the column has indexes of its own in every layer that has it. */
  ghost predicate TakesRange(v: Versioned, filters: seq<Filter>) {
    ShortRangeFilter(v.schema, filters) && ExactSingleton(v, RangeColumn(v.schema, filters))
  }

  /** The rows the range route misreads: where the range spells a null literal, the NULL rows and those that
      store the literal. */
  ghost function Misread(v: Versioned, filters: seq<Filter>): set<nat>
    requires v.ValidLayers()
  {
    if TakesRange(v, filters) then
      var c := RangeColumn(v.schema, filters);
      RangeTroubles.Troubled(v.schema[c], v.Rows(), c, RangeTexts(v.schema, filters))
    else {}
  }

  /** The range route's hits are wrong: the NULL rows, counted once a literal in range, are not as many as
      the rows that store such a literal. */
  ghost predicate Miscounts(v: Versioned, filters: seq<Filter>)
    requires v.ValidLayers()
  {
    && TakesRange(v, filters)
    && var c, texts := RangeColumn(v.schema, filters), RangeTexts(v.schema, filters);
    RangeTroubles.Literals(v.schema[c], texts, |texts|) * |Holding(v.Rows(), c, None)|
    != |RangeTroubles.StoredLiterals(v.schema[c], v.Rows(), c, texts, |texts|)|
  }

  /** No misread row lies on the page of the selected rows and the misread ones together. */
  ghost predicate Untroubled(v: Versioned, request: Request)
    requires v.ValidLayers()
  {
    var S, T := After(Selected(v.schema, v.Rows(), request.filters), request.after), After(Misread(v, request.filters), request.after);
    Top(S + T, request.limit) !! T
  }

  /** The page of a plain filter over the visible rows. */
  ghost predicate RightPage(v: Versioned, request: Request, rows: seq<LogicalRow>, projection: seq<nat>)
    requires v.ValidLayers()
  {
    Shows(rows, v.schema, v.Rows(), Top(After(Selected(v.schema, v.Rows(), request.filters), request.after), request.limit), projection)
  }

  /** When the hits are right, when the page is, and how a wrong page of the range route comes out. */
  ghost predicate Answers(v: Versioned, request: Request, hits: nat, rows: seq<LogicalRow>, projection: seq<nat>)
    requires v.ValidLayers()
  {
    && (hits == |Selected(v.schema, v.Rows(), request.filters)| <==> !Miscounts(v, request.filters))
    && (RightPage(v, request, rows, projection) <==> !RepeatsLast(v, request) && Untroubled(v, request))
    && (!Untroubled(v, request) ==>
          StreamMerges.Spoilt(RowIds(rows), After(Selected(v.schema, v.Rows(), request.filters), request.after),
            After(Misread(v, request.filters), request.after), request.limit))
  }

  /** What a request must be. */
  ghost predicate ValidRequest(schema: Schema, request: Request) {
    request.limit > 0 && ValidFilters(schema, request.filters) && KnownColumns(schema, SelectOf(request.select))
  }

  /** The cursor to go on from: after a full page, its last row; but not past the greatest ID when
      browsing. */
  function NextCursor(rows: seq<LogicalRow>, limit: nat, browse: bool, max: Option<nat>): Option<nat> {
    if rows == [] || |rows| != limit then None
    else
      var last := rows[|rows| - 1].rowId;
      if browse && (max.None? || last >= max.value) then None else Some(last)
  }

  /** Runs a request by the first route that applies. On canonical rows every valid request is answered. The
      hits are those of a plain filter unless the range route miscounts; the page is that of a plain filter
      unless the request browses past the last 64-bit ID or a misread row lies on it. */
  method ExecuteQuery(v: Versioned, request: Request) returns (r: Result<Response>, projection: seq<nat>)
    requires v.Valid() && (request.after.Some? ==> request.after.value <= U64_MAX)
    ensures !ValidRequest(v.schema, request) ==> r.Err?
    ensures ValidRequest(v.schema, request) && CanonicalRows(v.schema, v.Rows()) ==> r.Ok?
    ensures r.Ok? ==> r.value.next == NextCursor(r.value.rows, request.limit, request.filters == [], v.maxRowId)
    ensures r.Ok? && (CanonicalRows(v.schema, v.Rows()) || !TakesRange(v, request.filters)) ==>
              Answers(v, request, r.value.hits, r.value.rows, projection)
    ensures r.Ok? && RepeatsLast(v, request) ==> Shows(r.value.rows, v.schema, v.Rows(), {U64_MAX}, projection)
    ensures r.Ok? ==> |r.value.rows| <= request.limit && Selects(v.schema, SelectOf(request.select), projection)
    ensures r.Ok? && !RepeatsLast(v, request) ==> Ahead(r.value.rows, v.Rows(), request.after)
  {
    hide *;
    projection := [];
    ValidRequestMeans(v.schema, request);
    SchemaValid(v);
    if request.limit == 0 {
      return Err(InvalidInput), projection;
    }
    var prepared := PrepareFilters(v.schema, request.filters);
    if prepared.Err? {
      return Err(prepared.error), projection;
    }
    var projected := VersionedQueries.Project(v, SelectOf(request.select));
    if projected.Err? {
      return Err(projected.error), projection;
    }
    projection := projected.value;
    var tests := prepared.value;
    if tests == [] {
      var rows := Browse(v, projection, request.after, request.limit);
      BrowseAnswers(v, request, tests, rows, projection);
      return Ok(Response(rows, v.visibleRows, NextCursor(rows, request.limit, true, v.maxRowId))), projection;
    }
    var outcome, hits, rows := Route(v, request, tests, projection);
    if outcome.Err? {
      return Err(outcome.error), projection;
    }
    NotBrowse(v, request, tests);
    return Ok(Response(rows, hits, NextCursor(rows, request.limit, false, v.maxRowId))), projection;
  }

  lemma ValidRequestMeans(schema: Schema, request: Request)
    ensures ValidRequest(schema, request) <==>
              request.limit > 0 && ValidFilters(schema, request.filters) && KnownColumns(schema, SelectOf(request.select))
  {
  }

  /** What makes a request valid: a limit, valid filters, and a column for every name selected. */
  lemma ValidRequestIs(schema: Schema, request: Request)
    requires ValidSchema(schema)
    ensures ValidRequest(schema, request) <==>
            && request.limit >= 1
            && (forall i :: 0 <= i < |request.filters| ==> ValidFilter(schema, request.filters[i]))
            && forall i :: 0 <= i < |request.select| ==> Named(schema, request.select[i])
  {
    KnownColumnsMeans(schema, SelectOf(request.select));
    hide ValidFilter, KnownColumns, Named;
  }

  /** What a returned row shows: the selected columns in the order selected, or all when none is named. */
  lemma RequestShows(schema: Schema, select: seq<string>, projection: seq<nat>, row: Row)
    requires ValidSchema(schema) && |row| == |schema| && Selects(schema, SelectOf(select), projection)
    ensures var shown := Shown(schema, row, projection);
            && |shown| == (if select == [] then |schema| else |select|)
            && (forall i :: 0 <= i < |shown| ==> shown[i].column == if select == [] then schema[i].name else select[i])
            && forall i, c :: 0 <= i < |shown| && 0 <= c < |schema| && schema[c].name == shown[i].column ==> shown[i].value == row[c]
  {
    SelectsMeans(schema, SelectOf(select), projection, row);
    hide Selects, Shown;
  }

  /** A layer has an index of its own for the column of that name. */
  ghost predicate OwnIndex(d: LogicalDataset, name: string) {
    exists c, h :: 0 <= c < |d.schema| && 0 <= h < |d.engine.rowHier| && d.schema[c].name == name && d.engine.rowHier[h].columns == [c]
  }

  /** Every layer that has the column has an index of its own for it, and one layer has it. */
  lemma ExactSingletonMeans(v: Versioned, c: nat)
    requires v.ValidLayers() && c < |v.schema|
    ensures ExactSingleton(v, c) <==>
            && (exists i :: 0 <= i < |v.layers| && Named(v.layers[i].dataset.schema, v.schema[c].name))
            && forall i :: 0 <= i < |v.layers| && Named(v.layers[i].dataset.schema, v.schema[c].name) ==>
                 OwnIndex(v.layers[i].dataset, v.schema[c].name)
  {
    forall i | 0 <= i < |v.layers|
      ensures HasColumn(v, c, i) <==> Named(v.layers[i].dataset.schema, v.schema[c].name)
      ensures HasColumn(v, c, i) ==> (Singleton(v, c, i) <==> OwnIndex(v.layers[i].dataset, v.schema[c].name))
    {
      assert v.ValidLayer(i);
      LayerColumn(v.layers[i].dataset, v.schema[c].name);
      hide v.ValidLayer, OwnIndex, Named;
    }
    hide HasColumn, Singleton, Named, OwnIndex, v.ValidLayers;
  }

  lemma LayerColumn(d: LogicalDataset, name: string)
    requires d.Valid()
    ensures var c := ColumnIndex(d.schema, name);
            && (c.Some? <==> Named(d.schema, name))
            && (c.Some? ==> (OwnIndex(d, name) <==> exists h :: 0 <= h < |d.engine.rowHier| && d.engine.rowHier[h].columns == [c.value]))
  {
    KnownName(d.schema, name);
    hide d.engine.Valid, d.ValidDictionaries;
    var c := ColumnIndex(d.schema, name);
    if c.Some? {
      assert d.schema[c.value].name == name;
    }
  }

  /** Which requests the range route answers, in integers: one closed range of at most 256 of them, on a column
      with indexes of its own; and the texts it asks for are theirs. */
  lemma RangeTaken(v: Versioned, c: nat, a: int, b: int)
    requires v.ValidLayers() && c < |v.schema|
    ensures var filters := [Range(v.schema[c].name, Some(IntText(a)), Some(IntText(b)))];
            && (TakesRange(v, filters) <==>
                  && (v.schema[c].kind == Unsigned || v.schema[c].kind == Signed)
                  && InRange(v.schema[c].kind, a) && InRange(v.schema[c].kind, b) && a <= b < a + 256 && ExactSingleton(v, c))
            && (TakesRange(v, filters) ==>
                  && RangeColumn(v.schema, filters) == c && |RangeTexts(v.schema, filters)| == b - a + 1
                  && forall k :: 0 <= k < b - a + 1 ==> RangeTexts(v.schema, filters)[k] == IntText(a + k))
  {
    SchemaValid(v);
    hide *;
    ShortRangeIs(v.schema, c, a, b);
    TakesRangeIs(v, [Range(v.schema[c].name, Some(IntText(a)), Some(IntText(b)))]);
  }

  lemma TakesRangeIs(v: Versioned, filters: seq<Filter>)
    ensures TakesRange(v, filters) <==> ShortRangeFilter(v.schema, filters) && ExactSingleton(v, RangeColumn(v.schema, filters))
  {
    hide ShortRangeFilter, ExactSingleton, RangeColumn;
  }

  lemma ShortRangeIs(schema: Schema, c: nat, a: int, b: int)
    requires ValidSchema(schema) && c < |schema|
    ensures var filters := [Range(schema[c].name, Some(IntText(a)), Some(IntText(b)))];
            && (ShortRangeFilter(schema, filters) <==>
                  && (schema[c].kind == Unsigned || schema[c].kind == Signed)
                  && InRange(schema[c].kind, a) && InRange(schema[c].kind, b) && a <= b < a + 256)
            && (ShortRangeFilter(schema, filters) ==>
                  && RangeColumn(schema, filters) == c && |RangeTexts(schema, filters)| == b - a + 1
                  && forall k :: 0 <= k < b - a + 1 ==> RangeTexts(schema, filters)[k] == IntText(a + k))
  {
    hide *;
    TextReads(schema[c].kind, a);
    TextReads(schema[c].kind, b);
    IndexOfName(schema, c);
    ShortWhen(schema, c, IntText(a), IntText(b));
    NumericKinds(schema[c].kind);
    if ShortRangeFilter(schema, [Range(schema[c].name, Some(IntText(a)), Some(IntText(b)))]) {
      TextsWhen(schema, c, IntText(a), IntText(b), a, b);
    }
  }

  lemma NumericKinds(kind: Kind)
    ensures Numeric(kind) <==> kind == Unsigned || kind == Signed
  {
  }

  lemma ShortWhen(schema: Schema, c: nat, gte: string, lte: string)
    requires c < |schema| && ColumnIndex(schema, schema[c].name) == Some(c)
    ensures var filters := [Range(schema[c].name, Some(gte), Some(lte))];
            && (ShortRangeFilter(schema, filters) <==>
                  && Numeric(schema[c].kind) && Parse(schema[c].kind, gte).Some? && Parse(schema[c].kind, lte).Some?
                  && 0 <= Parse(schema[c].kind, lte).value - Parse(schema[c].kind, gte).value < 256)
            && (ShortRangeFilter(schema, filters) ==> RangeColumn(schema, filters) == c)
  {
    hide Parse, Numeric;
  }

  lemma TextsWhen(schema: Schema, c: nat, gte: string, lte: string, a: int, b: int)
    requires c < |schema| && ShortRangeFilter(schema, [Range(schema[c].name, Some(gte), Some(lte))])
    requires RangeColumn(schema, [Range(schema[c].name, Some(gte), Some(lte))]) == c
    requires Parse(schema[c].kind, gte) == Some(a) && Parse(schema[c].kind, lte) == Some(b) && a <= b
    ensures var texts := RangeTexts(schema, [Range(schema[c].name, Some(gte), Some(lte))]);
            |texts| == b - a + 1 && forall k :: 0 <= k < b - a + 1 ==> texts[k] == IntText(a + k)
  {
    hide Parse, Numeric, IntText;
  }

  lemma SchemaValid(v: Versioned)
    requires v.ValidLayers()
    ensures ValidSchema(v.schema)
  {
  }

  lemma NotBrowse(v: Versioned, request: Request, tests: seq<Test>)
    requires v.ValidLayers() && DecidesAll(v.schema, request.filters, tests) && tests != []
    ensures request.filters != [] && !RepeatsLast(v, request)
    ensures forall rows: seq<LogicalRow>, max :: NextCursor(rows, request.limit, false, max) == NextCursor(rows, request.limit, request.filters == [], max)
  {
  }

  lemma BrowseAnswers(v: Versioned, request: Request, tests: seq<Test>, rows: seq<LogicalRow>, projection: seq<nat>)
    requires v.Valid() && DecidesAll(v.schema, request.filters, tests) && tests == [] && request.limit > 0
    requires (request.after.Some? ==> request.after.value <= U64_MAX) && Selects(v.schema, SelectOf(request.select), projection)
    requires Shows(rows, v.schema, v.Rows(), Top(From(v.Rows().Keys, BrowseStart(request.after)), request.limit), projection)
    ensures request.filters == []
    ensures Answers(v, request, v.visibleRows, rows, projection)
    ensures RepeatsLast(v, request) ==> Shows(rows, v.schema, v.Rows(), {U64_MAX}, projection)
    ensures |rows| <= request.limit && (!RepeatsLast(v, request) ==> Ahead(rows, v.Rows(), request.after))
  {
    hide *;
    PageFits(rows, v.schema, v.Rows(), From(v.Rows().Keys, BrowseStart(request.after)), request.limit, projection);
    DeltaWrites.RowsBounded(v);
    DeltaWrites.VisibleRowsValid(v);
    NoFilters(v.schema, v.Rows(), request.filters, tests);
    BrowseExact(v.Rows().Keys, request.after, request.limit);
    RepeatsMeans(v, request);
    WhenRange(v, request.filters, tests);
    NoRange(v, request, v.visibleRows, rows, projection);
    RightPageIs(v, request, rows, projection);
    OnlyOnePage(rows, v.schema, v.Rows(), Top(From(v.Rows().Keys, BrowseStart(request.after)), request.limit),
      Top(After(v.Rows().Keys, request.after), request.limit), projection);
    if RepeatsLast(v, request) {
      LastOnly(v.Rows().Keys, request.after, request.limit);
    } else {
      PageAhead(rows, v.schema, v.Rows(), Selected(v.schema, v.Rows(), request.filters), request.after, request.limit, projection);
    }
  }

  lemma PageFits(rows: seq<LogicalRow>, schema: Schema, visible: map<nat, Row>, S: set<nat>, limit: nat, projection: seq<nat>)
    requires Shows(rows, schema, visible, Top(S, limit), projection)
    ensures |rows| <= limit
  {
    ListsSize(RowIds(rows), Top(S, limit));
    TopSize(S, limit);
  }

  lemma NoFilters(schema: Schema, visible: map<nat, Row>, filters: seq<Filter>, tests: seq<Test>)
    requires DecidesAll(schema, filters, tests) && tests == []
    ensures filters == [] && Selected(schema, visible, filters) == visible.Keys && |visible.Keys| == |visible|
  {
  }

  lemma RepeatsMeans(v: Versioned, request: Request)
    requires v.ValidLayers()
    ensures RepeatsLast(v, request) <==> request.filters == [] && request.after == Some(U64_MAX) && U64_MAX in v.Rows()
  {
  }

  lemma RightPageIs(v: Versioned, request: Request, rows: seq<LogicalRow>, projection: seq<nat>)
    requires v.ValidLayers()
    ensures RightPage(v, request, rows, projection) <==>
              Shows(rows, v.schema, v.Rows(), Top(After(Selected(v.schema, v.Rows(), request.filters), request.after), request.limit), projection)
  {
  }

  /** Off the range route, hits and pages are right but for the browse past the last ID. */
  lemma NoRange(v: Versioned, request: Request, hits: nat, rows: seq<LogicalRow>, projection: seq<nat>)
    requires v.ValidLayers() && !TakesRange(v, request.filters) && hits == |Selected(v.schema, v.Rows(), request.filters)|
    ensures (RightPage(v, request, rows, projection) <==> !RepeatsLast(v, request)) <==> Answers(v, request, hits, rows, projection)
  {
    hide v.ValidLayers, v.Rows, RightPage, RepeatsLast, TakesRange, Selected;
    assert After({}, request.after) == {};
    assert Untroubled(v, request);
  }

  lemma OnlyOnePage(rows: seq<LogicalRow>, schema: Schema, visible: map<nat, Row>, S: set<nat>, T: set<nat>, projection: seq<nat>)
    requires Shows(rows, schema, visible, S, projection)
    ensures Shows(rows, schema, visible, T, projection) <==> S == T
  {
    if Shows(rows, schema, visible, T, projection) {
      SameList(RowIds(rows), S, T);
    }
  }

  lemma LastOnly(K: set<nat>, after: Option<nat>, limit: nat)
    requires after == Some(U64_MAX) && U64_MAX in K && (forall id :: id in K ==> id <= U64_MAX) && limit > 0
    ensures Top(From(K, BrowseStart(after)), limit) == {U64_MAX}
  {
    var F := From(K, BrowseStart(after));
    assert F == {U64_MAX};
    assert RowSets.Below(F, U64_MAX) == {};
  }

  /** The four routes of a request with filters. */
  method Route(v: Versioned, request: Request, tests: seq<Test>, projection: seq<nat>)
    returns (outcome: Result<()>, hits: nat, rows: seq<LogicalRow>)
    requires v.Valid() && ValidSchema(v.schema) && request.limit > 0
    requires DecidesAll(v.schema, request.filters, tests) && tests != []
    requires KnownColumns(v.schema, SelectOf(request.select)) && InSchema(v.schema, projection)
    requires Selects(v.schema, SelectOf(request.select), projection)
    ensures CanonicalRows(v.schema, v.Rows()) ==> outcome.Ok?
    ensures outcome.Ok? && (CanonicalRows(v.schema, v.Rows()) || !TakesRange(v, request.filters)) ==>
              Answers(v, request, hits, rows, projection)
    ensures outcome.Ok? ==> |rows| <= request.limit && Ahead(rows, v.Rows(), request.after)
  {
    hide *;
    SameLength(v.schema, request.filters, tests);
    WhenRange(v, request.filters, tests);
    var columns, predicates := CandidateRoute.EqualitySubset(v.schema, tests, request.filters);
    if |predicates| == |tests| {
      var result, shown := VersionedQueries.QueryValuesAfter(v, predicates, SelectOf(request.select), request.after, request.limit);
      EqualityAnswers(v.schema, v.Rows(), request, predicates);
      RangeRoute.SelectsOne(v.schema, SelectOf(request.select), projection);
      PageAhead(result.value.rows, v.schema, v.Rows(), Matching(v.schema, v.Rows(), predicates), request.after, request.limit, shown);
      FilterAnswers(v, request, tests, result.value.hits, result.value.rows, projection);
      return Ok(()), result.value.hits, result.value.rows;
    }
    var exact := AllExactSingletons(v, columns);
    if predicates != [] && exact {
      outcome, hits, rows := CandidateRoute.CandidateFirst(v, request.filters, tests, predicates, projection, request.after, request.limit);
      if outcome.Ok? {
        PageAhead(rows, v.schema, v.Rows(), Selected(v.schema, v.Rows(), request.filters), request.after, request.limit, projection);
        FilterAnswers(v, request, tests, hits, rows, projection);
      }
      return;
    }
    CandidateRoute.FilterColumns(v.schema, request.filters, tests);
    var range := RangeRoute.BoundedIntegerRangeValues(tests, v.schema);
    if range.Some? {
      ColumnInSchema(tests, range.value.0, v.schema);
      var single := HasExactSingleton(v, range.value.0);
      if single {
        hits, rows := RangeRoute.RangeMerge(v, range.value.0, range.value.1, SelectOf(request.select), projection, request.after, request.limit);
        RangeAnswers(v, request, tests, range.value.0, range.value.1, hits, rows, projection);
        return Ok(()), hits, rows;
      }
    }
    outcome, hits, rows := FullScan(v, request.filters, tests, projection, request.after, request.limit);
    if outcome.Ok? {
      PageAhead(rows, v.schema, v.Rows(), Selected(v.schema, v.Rows(), request.filters), request.after, request.limit, projection);
      FilterAnswers(v, request, tests, hits, rows, projection);
    }
  }

  /** The range route is taken by a single short range on a column with indexes of its own. */
  lemma WhenRange(v: Versioned, filters: seq<Filter>, tests: seq<Test>)
    requires DecidesAll(v.schema, filters, tests)
    ensures RangeRoute.ShortRange(v.schema, tests) ==> |tests| == 1 && tests[0].RangeTest? && tests[0].column < |v.schema|
    ensures TakesRange(v, filters) <==> RangeRoute.ShortRange(v.schema, tests) && ExactSingleton(v, tests[0].column)
  {
    hide ExactSingleton;
    ShortFilter(v.schema, filters, tests);
    hide RangeRoute.ShortRange, ShortRangeFilter;
  }

  lemma ShortFilter(schema: Schema, filters: seq<Filter>, tests: seq<Test>)
    requires DecidesAll(schema, filters, tests)
    ensures RangeRoute.ShortRange(schema, tests) <==> ShortRangeFilter(schema, filters)
    ensures RangeRoute.ShortRange(schema, tests) ==>
              && |tests| == 1 && tests[0].RangeTest? && tests[0].column < |schema|
              && RangeColumn(schema, filters) == tests[0].column
  {
    hide Parse, IntText;
    if |filters| == 1 {
      assert Decides(schema, filters[0], tests[0]);
    }
  }

  /** A route that filters answers right, unless it browses past the last ID. */
  lemma FilterAnswers(v: Versioned, request: Request, tests: seq<Test>, hits: nat, rows: seq<LogicalRow>, projection: seq<nat>)
    requires v.ValidLayers() && DecidesAll(v.schema, request.filters, tests) && tests != [] && !TakesRange(v, request.filters)
    requires hits == |Selected(v.schema, v.Rows(), request.filters)|
    requires Shows(rows, v.schema, v.Rows(), Top(After(Selected(v.schema, v.Rows(), request.filters), request.after), request.limit), projection)
    ensures Answers(v, request, hits, rows, projection)
  {
    NotBrowse(v, request, tests);
    hide *;
    NoRange(v, request, hits, rows, projection);
    RightPageIs(v, request, rows, projection);
  }

  lemma SameLength(schema: Schema, filters: seq<Filter>, tests: seq<Test>)
    requires DecidesAll(schema, filters, tests)
    ensures |filters| == |tests|
  {
  }

  lemma EqualityAnswers(schema: Schema, visible: map<nat, Row>, request: Request, predicates: seq<LogicalPredicate>)
    requires forall row: Row :: PassesAll(schema, row, request.filters) <==> Satisfies(schema, row, predicates)
    ensures Matching(schema, visible, predicates) == Selected(schema, visible, request.filters)
  {
  }

  lemma ColumnInSchema(tests: seq<Test>, c: nat, schema: Schema)
    requires |tests| == 1 && tests[0].column == c && forall i :: 0 <= i < |tests| ==> tests[i].column < |schema|
    ensures c < |schema|
  {
  }

  /** The range route: hits and page are right exactly when no misread row gets in the way. */
  lemma RangeAnswers(v: Versioned, request: Request, tests: seq<Test>, c: nat, values: seq<string>, hits: nat, rows: seq<LogicalRow>, projection: seq<nat>)
    requires v.Valid() && ValidSchema(v.schema) && DecidesAll(v.schema, request.filters, tests) && tests != []
    requires |tests| == 1 && tests[0].RangeTest? && tests[0].column == c < |v.schema| && tests[0].gte.Some? && tests[0].lte.Some?
    requires ExactSingleton(v, c) && RangeRoute.ShortRange(v.schema, tests)
    requires RangeRoute.Spells(v.schema[c].kind, tests[0].gte.value, tests[0].lte.value, values)
    requires hits == Min(RangeRoute.StreamHits(v.schema, v.Rows(), c, values, |values|), U64_MAX)
    requires StreamMerges.Merges(RowIds(rows), RangeRoute.Streams(v.schema, v.Rows(), c, values, request.after), request.limit)
    requires ShowsValues(rows, v.schema, v.Rows(), projection)
    ensures CanonicalRows(v.schema, v.Rows()) ==> Answers(v, request, hits, rows, projection)
  {
    hide *;
    WhenRange(v, request.filters, tests);
    ShortFilter(v.schema, request.filters, tests);
    NotBrowse(v, request, tests);
    if CanonicalRows(v.schema, v.Rows()) {
      TheOneTest(v.schema, request.filters, tests, c);
      assert request.filters == [request.filters[0]];
      TheTexts(v.schema, request.filters, tests, values);
      RangeIs(v.schema, request.filters[0], tests[0], values);
      DeltaWrites.VisibleRowsValid(v);
      RangeTroubles.HitsExact(v.schema, v.Rows(), request.filters[0], tests[0], values);
      RangeTroubles.PageExact(rows, v.schema, v.Rows(), request.filters[0], tests[0], values, request.after, request.limit, projection);
      RangeIsMisread(v, request, values, hits, rows, projection);
    }
  }

  lemma TheOneTest(schema: Schema, filters: seq<Filter>, tests: seq<Test>, c: nat)
    requires DecidesAll(schema, filters, tests) && |tests| == 1 && tests[0].RangeTest? && tests[0].column == c
    ensures |filters| == 1 && Decides(schema, filters[0], tests[0]) && filters[0].Range?
    ensures c < |schema| && Numeric(schema[c].kind)
  {
    assert Decides(schema, filters[0], tests[0]);
  }

  lemma TheTexts(schema: Schema, filters: seq<Filter>, tests: seq<Test>, values: seq<string>)
    requires DecidesAll(schema, filters, tests) && |tests| == 1 && tests[0].RangeTest? && tests[0].column < |schema|
    requires tests[0].gte.Some? && tests[0].lte.Some? && ShortRangeFilter(schema, filters)
    requires RangeRoute.Spells(schema[tests[0].column].kind, tests[0].gte.value, tests[0].lte.value, values)
    ensures values == RangeTexts(schema, filters)
  {
    hide Parse, IntText;
    assert Decides(schema, filters[0], tests[0]);
  }

  lemma RangeIs(schema: Schema, f: Filter, t: Test, values: seq<string>)
    requires ValidSchema(schema) && Decides(schema, f, t) && t.RangeTest? && t.gte.Some? && t.lte.Some? && t.column < |schema|
    requires Numeric(schema[t.column].kind) && RangeRoute.Spells(schema[t.column].kind, t.gte.value, t.lte.value, values)
    ensures RangeTroubles.RangeOver(schema, f, t, values)
  {
  }

  lemma RangeIsMisread(v: Versioned, request: Request, values: seq<string>, hits: nat, rows: seq<LogicalRow>, projection: seq<nat>)
    requires v.ValidLayers() && TakesRange(v, request.filters) && ShortRangeFilter(v.schema, request.filters)
    requires values == RangeTexts(v.schema, request.filters) && !RepeatsLast(v, request)
    requires var c := RangeColumn(v.schema, request.filters);
             && (hits == |Selected(v.schema, v.Rows(), request.filters)| <==>
                   RangeTroubles.Literals(v.schema[c], values, |values|) * |Holding(v.Rows(), c, None)| ==
                   |RangeTroubles.StoredLiterals(v.schema[c], v.Rows(), c, values, |values|)|)
    requires var c := RangeColumn(v.schema, request.filters);
             var S := After(Selected(v.schema, v.Rows(), request.filters), request.after);
             var T := After(RangeTroubles.Troubled(v.schema[c], v.Rows(), c, values), request.after);
             && (Shows(rows, v.schema, v.Rows(), Top(S, request.limit), projection) <==> Top(S + T, request.limit) !! T)
             && (!(Top(S + T, request.limit) !! T) ==> StreamMerges.Spoilt(RowIds(rows), S, T, request.limit))
    ensures Answers(v, request, hits, rows, projection)
  {
    hide v.ValidLayers, v.Rows, Selected, Shows, RepeatsLast, TakesRange, ShortRangeFilter, RangeTexts, RangeColumn,
      RangeTroubles.Troubled, RangeTroubles.Literals, Holding, RangeTroubles.StoredLiterals, StreamMerges.Spoilt;
  }
}

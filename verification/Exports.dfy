/** Paging. A response's next cursor leads on without gap or repetition, so a loop that follows it reads
    exactly the selected rows; the export loop reads the first `maxRows` of them. */
module Exports {
  import opened Wrappers
  import opened RowSets
  import opened Schemas
  import opened LogicalDatasets
  import opened VersionedDatasets
  import opened QueryFilters
  import opened QueryRoutes
  import opened QueryApi
  import RangeRoute
  import DeltaWrites
  import StreamMerges
  import RangeTroubles

  const EXPORT_PAGE_ROWS: nat := 4096

  /** Going on from a page: no cursor means nothing is left; a cursor is the page's last row, and what
      is left is what lies past it. */
  lemma NextPage(rows: seq<LogicalRow>, schema: Schema, visible: map<nat, Row>, M: set<nat>, after: Option<nat>, limit: nat,
                 browse: bool, max: Option<nat>, projection: seq<nat>)
    requires limit > 0 && Shows(rows, schema, visible, Top(After(M, after), limit), projection)
    requires forall id :: id in M ==> max.Some? && id <= max.value
    ensures var next := NextCursor(rows, limit, browse, max);
            && (next.None? ==> After(M, after) == Top(After(M, after), limit))
            && (next.Some? ==>
                  && After(M, after) == Top(After(M, after), limit) + After(M, next)
                  && Top(After(M, after), limit) !! After(M, next)
                  && Start(after) <= next.value && max.Some? && next.value <= max.value && |rows| == limit)
    ensures rows == [] ==> After(M, after) == {}
  {
    var A, next := After(M, after), NextCursor(rows, limit, browse, max);
    ListsSize(RowIds(rows), Top(A, limit));
    TopSize(A, limit);
    if rows != [] {
      var last := rows[|rows| - 1].rowId;
      assert RowIds(rows)[|rows| - 1] in RowIds(rows);
      forall x | x in A ensures x in Top(A, limit) || last < x {
        if x <= last {
          SubsetSize(RowSets.Below(A, x), RowSets.Below(A, last));
        }
      }
      forall x | x in Top(A, limit) ensures x <= last {
        assert x in RowIds(rows);
        var k :| 0 <= k < |rows| && RowIds(rows)[k] == x;
        assert k == |rows| - 1 || RowIds(rows)[k] < RowIds(rows)[|rows| - 1];
      }
    }
  }

  /** What the loop has emitted: everything past the first cursor up to the present one. */
  ghost predicate Emitted(out: seq<LogicalRow>, schema: Schema, visible: map<nat, Row>, M: set<nat>, first: Option<nat>, cursor: Option<nat>,
                          projection: seq<nat>)
  {
    && Start(first) <= Start(cursor)
    && Shows(out, schema, visible, RowSets.Below(After(M, first), Start(cursor)), projection)
  }

  lemma NothingEmittedYet(schema: Schema, visible: map<nat, Row>, M: set<nat>, first: Option<nat>, projection: seq<nat>)
    ensures Emitted([], schema, visible, M, first, first, projection)
  {
    assert RowIds([]) == [];
  }

  lemma EmitPage(out: seq<LogicalRow>, rows: seq<LogicalRow>, schema: Schema, visible: map<nat, Row>, M: set<nat>,
                 first: Option<nat>, cursor: Option<nat>, limit: nat, projection: seq<nat>)
    requires Emitted(out, schema, visible, M, first, cursor, projection)
    requires Shows(rows, schema, visible, Top(After(M, cursor), limit), projection)
    ensures Shows(out + rows, schema, visible, RowSets.Below(After(M, first), Start(cursor)) + Top(After(M, cursor), limit), projection)
  {
    ListsConcat(RowIds(out), RowSets.Below(After(M, first), Start(cursor)), RowIds(rows), Top(After(M, cursor), limit));
    assert RowIds(out + rows) == RowIds(out) + RowIds(rows);
  }

  lemma GoOn(schema: Schema, visible: map<nat, Row>, out: seq<LogicalRow>, M: set<nat>, first: Option<nat>, cursor: Option<nat>,
             limit: nat, next: nat, projection: seq<nat>)
    requires Start(first) <= Start(cursor) <= next
    requires Shows(out, schema, visible, RowSets.Below(After(M, first), Start(cursor)) + Top(After(M, cursor), limit), projection)
    requires After(M, cursor) == Top(After(M, cursor), limit) + After(M, Some(next)) && Top(After(M, cursor), limit) !! After(M, Some(next))
    ensures Emitted(out, schema, visible, M, first, Some(next), projection)
  {
    assert RowSets.Below(After(M, first), next + 1) == RowSets.Below(After(M, first), Start(cursor)) + Top(After(M, cursor), limit);
  }

  /** The loop is over: everything has been emitted. */
  lemma AllEmitted(schema: Schema, visible: map<nat, Row>, out: seq<LogicalRow>, M: set<nat>, first: Option<nat>, cursor: Option<nat>,
                   limit: nat, projection: seq<nat>)
    requires Start(first) <= Start(cursor)
    requires Shows(out, schema, visible, RowSets.Below(After(M, first), Start(cursor)) + Top(After(M, cursor), limit), projection)
    requires After(M, cursor) == Top(After(M, cursor), limit)
    ensures Shows(out, schema, visible, After(M, first), projection)
  {
    assert After(M, first) == RowSets.Below(After(M, first), Start(cursor)) + After(M, cursor);
  }

  /** The loop is over: enough has been emitted. */
  lemma EnoughEmitted(schema: Schema, visible: map<nat, Row>, out: seq<LogicalRow>, M: set<nat>, first: Option<nat>, cursor: Option<nat>,
                      limit: nat, projection: seq<nat>)
    requires Start(first) <= Start(cursor)
    requires Shows(out, schema, visible, RowSets.Below(After(M, first), Start(cursor)) + Top(After(M, cursor), limit), projection)
    ensures Shows(out, schema, visible, Top(After(M, first), |RowSets.Below(After(M, first), Start(cursor))| + limit), projection)
  {
    var A := After(M, first);
    var n := |RowSets.Below(A, Start(cursor))| + limit;
    hide Shows;
    TopSplit(A, n, Start(cursor));
    assert From(A, Start(cursor)) == After(M, cursor);
    assert Top(A, n) == RowSets.Below(A, Start(cursor)) + Top(After(M, cursor), limit);
  }

  lemma EmittedSize(out: seq<LogicalRow>, schema: Schema, visible: map<nat, Row>, M: set<nat>, first: Option<nat>, cursor: Option<nat>,
                    projection: seq<nat>)
    requires Emitted(out, schema, visible, M, first, cursor, projection)
    ensures |out| == |RowSets.Below(After(M, first), Start(cursor))|
    ensures Start(first) <= Start(cursor)
  {
    ListsSize(RowIds(out), RowSets.Below(After(M, first), Start(cursor)));
  }

  lemma WholeIsTop(out: seq<LogicalRow>, schema: Schema, visible: map<nat, Row>, A: set<nat>, n: nat, projection: seq<nat>)
    requires Shows(out, schema, visible, A, projection) && |out| <= n
    ensures Shows(out, schema, visible, Top(A, n), projection)
  {
    ListsSize(RowIds(out), A);
    TopSize(A, n);
  }

  /** The first `maxRows` members, or all of them. */
  ghost function Cut(S: set<nat>, maxRows: Option<nat>): set<nat> {
    if maxRows.None? then S else Top(S, maxRows.value)
  }

  /** What an export promises: the first `maxRows` selected rows past the cursor, or all of them. */
  ghost predicate Exported(out: seq<LogicalRow>, schema: Schema, visible: map<nat, Row>, M: set<nat>, after: Option<nat>, maxRows: Option<nat>,
                           projection: seq<nat>)
  {
    Shows(out, schema, visible, Cut(After(M, after), maxRows), projection)
  }

  ghost predicate BrowsesPastLast(v: Versioned, filters: seq<Filter>, after: Option<nat>)
    requires v.ValidLayers()
  {
    filters == [] && after == Some(U64_MAX) && U64_MAX in v.Rows()
  }

  /** No misread row lies where the export reads: among the first `maxRows` of the selected rows and the
      misread ones together. */
  ghost predicate Readable(M: set<nat>, T: set<nat>, after: Option<nat>, maxRows: Option<nat>) {
    Cut(After(M + T, after), maxRows) !! T
  }

  // -------------------------------------------------------------------------- misread rows

  ghost predicate NoneOf(rows: seq<LogicalRow>, T: set<nat>) {
    forall i :: 0 <= i < |rows| ==> rows[i].rowId !in T
  }

  /** A misread row that should not be in the export and is, or should be and is not. */
  ghost predicate Mars(x: nat, ids: seq<nat>, M: set<nat>, T: set<nat>, after: Option<nat>, maxRows: Option<nat>) {
    x in T && x in Cut(After(M + T, after), maxRows) && if x in M then x !in ids else x in ids
  }

  /** Such a row, which later pages will not mend: a row left out is behind the cursor. */
  ghost predicate Marred(ids: seq<nat>, M: set<nat>, T: set<nat>, after: Option<nat>, maxRows: Option<nat>, cursor: Option<nat>) {
    exists x: nat :: Mars(x, ids, M, T, after, maxRows) && (cursor.Some? && x in M ==> x <= cursor.value)
  }

  /** A clean page is a page of the selected and the misread rows together. */
  lemma CleanStep(rows: seq<LogicalRow>, schema: Schema, visible: map<nat, Row>, M: set<nat>, T: set<nat>, cursor: Option<nat>, limit: nat,
                  projection: seq<nat>)
    requires Shows(rows, schema, visible, Top(After(M, cursor), limit), projection)
    requires Top(After(M, cursor) + After(T, cursor), limit) !! After(T, cursor)
    ensures Shows(rows, schema, visible, Top(After(M + T, cursor), limit), projection) && NoneOf(rows, T)
  {
    AfterBoth(M, T, cursor);
    var U := After(M + T, cursor);
    assert Top(U, limit) <= After(M, cursor) <= U;
    TopSandwich(U, After(M, cursor), limit);
    forall i | 0 <= i < |rows| ensures rows[i].rowId !in T {
      assert RowIds(rows)[i] in Top(U, limit);
    }
  }

  lemma AfterBoth(M: set<nat>, T: set<nat>, cursor: Option<nat>)
    ensures After(M, cursor) + After(T, cursor) == After(M + T, cursor)
  {
  }

  /** A spoilt page mars the export. */
  lemma SpoiltStep(out: seq<LogicalRow>, rows: seq<LogicalRow>, schema: Schema, visible: map<nat, Row>, M: set<nat>, T: set<nat>,
                   first: Option<nat>, cursor: Option<nat>, limit: nat, maxRows: Option<nat>, projection: seq<nat>, next: Option<nat>)
    requires Emitted(out, schema, visible, M + T, first, cursor, projection)
    requires StreamMerges.Spoilt(RowIds(rows), After(M, cursor), After(T, cursor), limit) && |rows| <= limit
    requires maxRows.Some? ==> |out| + limit <= maxRows.value
    requires next.Some? ==> rows != [] && |rows| == limit && next.value == rows[|rows| - 1].rowId
    ensures Marred(RowIds(out + rows), M, T, first, maxRows, next)
  {
    var x: nat :| StreamMerges.Spoils(x, RowIds(rows), After(M, cursor), After(T, cursor), limit);
    AfterBoth(M, T, cursor);
    EnoughEmittedAt(out, schema, visible, M + T, first, cursor, limit, projection, x);
    EmittedSize(out, schema, visible, M + T, first, cursor, projection);
    if maxRows.Some? {
      TopGrows(After(M + T, first), |out| + limit, maxRows.value, x);
    }
    assert RowIds(out + rows) == RowIds(out) + RowIds(rows);
    assert x !in RowIds(out);
    assert Mars(x, RowIds(out + rows), M, T, first, maxRows);
  }

  /** A row on a page past the cursor is on the page that takes in what has been emitted, and is not emitted. */
  lemma EnoughEmittedAt(out: seq<LogicalRow>, schema: Schema, visible: map<nat, Row>, U: set<nat>, first: Option<nat>, cursor: Option<nat>,
                        limit: nat, projection: seq<nat>, x: nat)
    requires Emitted(out, schema, visible, U, first, cursor, projection) && x in Top(After(U, cursor), limit)
    ensures x in After(U, first) && x in Top(After(U, first), |out| + limit) && x !in RowIds(out)
  {
    var A := After(U, first);
    EmittedSize(out, schema, visible, U, first, cursor, projection);
    EmittedIds(out, schema, visible, U, first, cursor, projection);
    hide Shows;
    assert From(A, Start(cursor)) == After(U, cursor);
    hide After;
    TopSplit(A, |out| + limit, Start(cursor));
    hide Top;
    assert x in Top(From(A, Start(cursor)), limit);
  }

  lemma EmittedIds(out: seq<LogicalRow>, schema: Schema, visible: map<nat, Row>, U: set<nat>, first: Option<nat>, cursor: Option<nat>,
                   projection: seq<nat>)
    requires Emitted(out, schema, visible, U, first, cursor, projection)
    ensures forall x :: x in RowIds(out) <==> x in After(U, first) && x < Start(cursor)
  {
  }

  lemma TopGrows(S: set<nat>, n: nat, m: nat, x: nat)
    requires x in Top(S, n) && n <= m
    ensures x in Top(S, m)
  {
  }

  /** What is marred stays so: later rows are past the cursor. */
  lemma MarredOn(out: seq<LogicalRow>, rows: seq<LogicalRow>, visible: map<nat, Row>, M: set<nat>, T: set<nat>, first: Option<nat>,
                 maxRows: Option<nat>, cursor: Option<nat>, next: Option<nat>)
    requires Marred(RowIds(out), M, T, first, maxRows, cursor) && cursor.Some? && Ahead(rows, visible, cursor)
    requires next.Some? ==> cursor.value <= next.value
    ensures Marred(RowIds(out + rows), M, T, first, maxRows, next)
  {
    var x: nat :| Mars(x, RowIds(out), M, T, first, maxRows) && (cursor.Some? && x in M ==> x <= cursor.value);
    assert RowIds(out + rows) == RowIds(out) + RowIds(rows);
    if x in M {
      forall i | 0 <= i < |rows| ensures RowIds(rows)[i] != x {
        assert Past(cursor, rows[i].rowId);
      }
    }
    assert Mars(x, RowIds(out + rows), M, T, first, maxRows);
  }

  /** What the export shows says whether it was readable. */
  ghost predicate Verdict(out: seq<LogicalRow>, schema: Schema, visible: map<nat, Row>, M: set<nat>, T: set<nat>, after: Option<nat>,
                          maxRows: Option<nat>, projection: seq<nat>)
  {
    Exported(out, schema, visible, M, after, maxRows, projection) <==> Readable(M, T, after, maxRows)
  }

  lemma MarredExport(out: seq<LogicalRow>, schema: Schema, visible: map<nat, Row>, M: set<nat>, T: set<nat>, after: Option<nat>,
                     maxRows: Option<nat>, projection: seq<nat>, cursor: Option<nat>)
    requires Marred(RowIds(out), M, T, after, maxRows, cursor)
    ensures Verdict(out, schema, visible, M, T, after, maxRows, projection)
  {
    var x: nat :| Mars(x, RowIds(out), M, T, after, maxRows);
    if x in M {
      CutShrinks(After(M, after), After(M + T, after), maxRows, x);
    }
  }

  lemma CutShrinks(S: set<nat>, U: set<nat>, maxRows: Option<nat>, x: nat)
    requires S <= U && x in S && x in Cut(U, maxRows)
    ensures x in Cut(S, maxRows)
  {
    SubsetSize(RowSets.Below(S, x), RowSets.Below(U, x));
  }

  /** An export of the selected and the misread rows without a misread one is an export of the selected. */
  lemma CleanExport(out: seq<LogicalRow>, schema: Schema, visible: map<nat, Row>, M: set<nat>, T: set<nat>, after: Option<nat>,
                    maxRows: Option<nat>, projection: seq<nat>)
    requires Exported(out, schema, visible, M + T, after, maxRows, projection) && NoneOf(out, T)
    ensures Verdict(out, schema, visible, M, T, after, maxRows, projection)
  {
    var U := After(M + T, after);
    forall x | x in Cut(U, maxRows) ensures x !in T {
      assert x in RowIds(out);
      var i :| 0 <= i < |out| && RowIds(out)[i] == x;
    }
    assert Cut(U, maxRows) <= After(M, after) <= U;
    if maxRows.Some? {
      TopSandwich(U, After(M, after), maxRows.value);
    }
  }

  // ------------------------------------------------------------------------------ the loop

  /** The export loop: page after page of at most 4096 rows. It ends on every input. */
  method StreamExport(v: Versioned, filters: seq<Filter>, select: seq<string>, after: Option<nat>, maxRows: Option<nat>)
    returns (r: Result<seq<LogicalRow>>, ghost projection: seq<nat>)
    requires v.Valid() && (after.Some? ==> after.value <= U64_MAX)
    ensures maxRows == Some(0) ==> r == Ok([])
    ensures ValidFilters(v.schema, filters) && KnownColumns(v.schema, SelectOf(select)) && CanonicalRows(v.schema, v.Rows()) ==> r.Ok?
    ensures r.Ok? && maxRows != Some(0) ==> Selects(v.schema, SelectOf(select), projection)
    ensures r.Ok? && maxRows != Some(0) && (CanonicalRows(v.schema, v.Rows()) || !TakesRange(v, filters)) ==>
              (Exported(r.value, v.schema, v.Rows(), Selected(v.schema, v.Rows(), filters), after, maxRows, projection) <==>
                 && !BrowsesPastLast(v, filters, after)
                 && Readable(Selected(v.schema, v.Rows(), filters), Misread(v, filters), after, maxRows))
  {
    hide *;
    projection := [];
    ghost var M, T := Selected(v.schema, v.Rows(), filters), Misread(v, filters);
    ghost var known := CanonicalRows(v.schema, v.Rows()) || !TakesRange(v, filters);
    PageRows();
    ReadBounded(v, filters);
    if maxRows == Some(0) {
      return Ok([]), projection;
    }
    var out: seq<LogicalRow>, cursor: Option<nat> := [], after;
    var first := true;
    ghost var spoilt := false;
    while true
      invariant cursor.Some? ==> cursor.value <= U64_MAX
      invariant !first ==> !BrowsesPastLast(v, filters, after) && Selects(v.schema, SelectOf(select), projection)
      invariant filters == [] ==> cursor == after || (v.maxRowId.Some? && cursor.Some? && cursor.value < v.maxRowId.value)
      invariant if first then out == [] && cursor == after && !spoilt else cursor.Some?
      invariant !first && known ==> OnTrack(out, v.schema, v.Rows(), M, T, after, maxRows, projection, cursor, spoilt)
      invariant maxRows.Some? ==> |out| < maxRows.value
      decreases U64_MAX + 1 - Start(cursor)
    {
      var pageLimit := if maxRows.Some? then Min(EXPORT_PAGE_ROWS, maxRows.value - |out|) else EXPORT_PAGE_ROWS;
      PageLimitFits(pageLimit, maxRows, |out|);
      var request := Request(filters, select, pageLimit, cursor);
      var response, shown := ExecuteQuery(v, request);
      RequestMeans(v, request, cursor, after, first);
      if response.Err? {
        return Err(response.error), projection;
      }
      var rows := response.value.rows;
      SameProjection(v.schema, select, shown, projection, first);
      if first {
        projection := shown;
        StartsOnTrack(v.schema, v.Rows(), M, T, after, maxRows, projection);
        if BrowsesPastLast(v, filters, after) {
          LastRepeated(v, rows, pageLimit, maxRows, projection, M, after);
        }
        first := false;
      }
      if known && !BrowsesPastLast(v, filters, after) {
        spoilt := OnePage(v, request, response.value.hits, rows, out, after, maxRows, projection, spoilt);
      }
      if rows == [] {
        assert out + rows == out;
        return Ok(out), projection;
      }
      out := out + rows;
      if maxRows.Some? && |out| >= maxRows.value {
        return Ok(out), projection;
      }
      if response.value.next.None? {
        return Ok(out), projection;
      }
      NextAhead(rows, v, cursor, pageLimit, filters == []);
      BrowseBelow(rows, pageLimit, filters == [], v.maxRowId);
      CursorMoves(cursor, response.value.next.value);
      cursor := response.value.next;
    }
  }

  /** The loop so far: all selected rows up to the cursor and no misread one, or an export already marred. */
  ghost predicate OnTrack(out: seq<LogicalRow>, schema: Schema, visible: map<nat, Row>, M: set<nat>, T: set<nat>, after: Option<nat>,
                          maxRows: Option<nat>, projection: seq<nat>, cursor: Option<nat>, spoilt: bool)
  {
    if spoilt then cursor.Some? && Marred(RowIds(out), M, T, after, maxRows, cursor)
    else Emitted(out, schema, visible, M + T, after, cursor, projection) && NoneOf(out, T)
  }

  lemma StartsOnTrack(schema: Schema, visible: map<nat, Row>, M: set<nat>, T: set<nat>, after: Option<nat>, maxRows: Option<nat>, projection: seq<nat>)
    ensures OnTrack([], schema, visible, M, T, after, maxRows, projection, after, false)
  {
    NothingEmittedYet(schema, visible, M + T, after, projection);
  }

  /** One more page: the loop stays on track, and where it ends the verdict is in. */
  lemma OnePage(v: Versioned, request: Request, hits: nat, rows: seq<LogicalRow>, out: seq<LogicalRow>, after: Option<nat>, maxRows: Option<nat>,
                projection: seq<nat>, before: bool) returns (spoilt: bool)
    requires v.Valid() && Answers(v, request, hits, rows, projection) && !RepeatsLast(v, request)
    requires |rows| <= request.limit && request.limit > 0 && Ahead(rows, v.Rows(), request.after)
    requires maxRows.Some? ==> |out| + request.limit <= maxRows.value
    requires OnTrack(out, v.schema, v.Rows(), Selected(v.schema, v.Rows(), request.filters), Misread(v, request.filters), after, maxRows,
               projection, request.after, before)
    ensures var M, T := Selected(v.schema, v.Rows(), request.filters), Misread(v, request.filters);
            var next := NextCursor(rows, request.limit, request.filters == [], v.maxRowId);
            && (rows == [] || next.None? || (maxRows.Some? && |out + rows| >= maxRows.value) ==>
                  (Exported(out + rows, v.schema, v.Rows(), M, after, maxRows, projection) <==> Readable(M, T, after, maxRows)))
            && (next.Some? ==> OnTrack(out + rows, v.schema, v.Rows(), M, T, after, maxRows, projection, next, spoilt))
  {
    hide *;
    var M, T, cursor := Selected(v.schema, v.Rows(), request.filters), Misread(v, request.filters), request.after;
    var next := NextCursor(rows, request.limit, request.filters == [], v.maxRowId);
    OnTrackMeans(out, v.schema, v.Rows(), M, T, after, maxRows, projection, cursor, before);
    PageMeans(v, request, hits, rows, projection);
    NextIsLast(rows, request.limit, request.filters == [], v.maxRowId);
    ReadBounded(v, request.filters);
    spoilt := before || !Untroubled(v, request);
    OnTrackMeans(out + rows, v.schema, v.Rows(), M, T, after, maxRows, projection, next, spoilt);
    if spoilt {
      if before {
        NextOrNot(rows, v, cursor, request.limit, request.filters == []);
        MarredOn(out, rows, v.Rows(), M, T, after, maxRows, cursor, next);
      } else {
        SpoiltStep(out, rows, v.schema, v.Rows(), M, T, after, cursor, request.limit, maxRows, projection, next);
      }
      MarredExport(out + rows, v.schema, v.Rows(), M, T, after, maxRows, projection, next);
    } else {
      CleanStep(rows, v.schema, v.Rows(), M, T, cursor, request.limit, projection);
      NoneOfBoth(out, rows, T);
      TakePage(v.schema, v.Rows(), out, rows, M + T, after, cursor, request.limit, request.filters == [], v.maxRowId, maxRows, projection);
      if rows == [] || next.None? || (maxRows.Some? && |out + rows| >= maxRows.value) {
        CleanExport(out + rows, v.schema, v.Rows(), M, T, after, maxRows, projection);
      }
    }
    VerdictMeans(out + rows, v.schema, v.Rows(), M, T, after, maxRows, projection);
  }

  lemma OnTrackMeans(out: seq<LogicalRow>, schema: Schema, visible: map<nat, Row>, M: set<nat>, T: set<nat>, after: Option<nat>,
                     maxRows: Option<nat>, projection: seq<nat>, cursor: Option<nat>, spoilt: bool)
    ensures OnTrack(out, schema, visible, M, T, after, maxRows, projection, cursor, spoilt) <==>
            if spoilt then cursor.Some? && Marred(RowIds(out), M, T, after, maxRows, cursor)
            else Emitted(out, schema, visible, M + T, after, cursor, projection) && NoneOf(out, T)
  {
  }

  /** One more page of rows that are all wanted. */
  lemma TakePage(schema: Schema, visible: map<nat, Row>, out: seq<LogicalRow>, rows: seq<LogicalRow>, U: set<nat>, after: Option<nat>,
                 cursor: Option<nat>, limit: nat, browse: bool, max: Option<nat>, maxRows: Option<nat>, projection: seq<nat>)
    requires Emitted(out, schema, visible, U, after, cursor, projection) && limit > 0
    requires Shows(rows, schema, visible, Top(After(U, cursor), limit), projection) && |rows| <= limit
    requires forall id :: id in U ==> max.Some? && id <= max.value
    requires maxRows.Some? ==> |out| + limit <= maxRows.value
    ensures var next := NextCursor(rows, limit, browse, max);
            && (rows == [] || next.None? || (maxRows.Some? && |out + rows| >= maxRows.value) ==>
                  Exported(out + rows, schema, visible, U, after, maxRows, projection))
            && (next.Some? ==> Emitted(out + rows, schema, visible, U, after, next, projection))
  {
    hide *;
    var next := NextCursor(rows, limit, browse, max);
    EmitPage(out, rows, schema, visible, U, after, cursor, limit, projection);
    NextPage(rows, schema, visible, U, cursor, limit, browse, max, projection);
    EmittedSize(out, schema, visible, U, after, cursor, projection);
    if next.Some? {
      GoOn(schema, visible, out + rows, U, after, cursor, limit, next.value, projection);
    }
    if maxRows.Some? && |out + rows| >= maxRows.value {
      EnoughEmitted(schema, visible, out + rows, U, after, cursor, limit, projection);
      ExportCut(out + rows, schema, visible, U, after, maxRows, projection);
    } else if rows == [] || next.None? {
      NothingPastEmpty(rows, U, cursor, limit);
      AllEmitted(schema, visible, out + rows, U, after, cursor, limit, projection);
      ExportDone(out + rows, schema, visible, U, after, maxRows, projection);
    }
  }

  lemma NothingPastEmpty(rows: seq<LogicalRow>, U: set<nat>, cursor: Option<nat>, limit: nat)
    ensures After(U, cursor) == {} ==> Top(After(U, cursor), limit) == {}
  {
  }

  /** One NULL row, and the range from 0 to 0 where 0 is a null literal: the export emits the row, although
      none is in range. */
  lemma NullExported(ids: seq<nat>, limit: nat)
    requires var column := Column("n", Unsigned, AsIs, true, ["0"]);
             limit > 0 && StreamMerges.Merges(ids, RangeRoute.Streams([column], map[0 := [None]], 0, ["0"], None), limit)
    ensures var column := Column("n", Unsigned, AsIs, true, ["0"]);
            var M := Selected([column], map[0 := [None]], [Range("n", Some("0"), Some("0"))]);
            var T := RangeTroubles.Troubled(column, map[0 := [None]], 0, ["0"]);
            && M == {} && T == {0} && !Readable(M, T, None, None) && 0 in ids
  {
    var column := Column("n", Unsigned, AsIs, true, ["0"]);
    var rows: map<nat, Row> := map[0 := [None]];
    RangeTroubles.ZeroCountsNull();
    RangeRoute.StreamIs([column], rows, 0, "0");
    var streams := RangeRoute.Streams([column], rows, 0, ["0"], None);
    assert IsNullLiteral(column, ["0"][0]);
    assert RangeTroubles.SpellsLiteral(column, ["0"]);
    assert 0 in RangeTroubles.Troubled(column, rows, 0, ["0"]);
    assert 0 in RangeRoute.Stream([column], rows, 0, ["0"][0]);
    assert 0 in streams[0];
    assert StreamMerges.InSome(streams, 0);
    assert After({} + {0}, None) == {0};
    assert ids != [] ==> StreamMerges.InSome(streams, ids[0]);
  }

  lemma VerdictMeans(out: seq<LogicalRow>, schema: Schema, visible: map<nat, Row>, M: set<nat>, T: set<nat>, after: Option<nat>,
                     maxRows: Option<nat>, projection: seq<nat>)
    ensures Verdict(out, schema, visible, M, T, after, maxRows, projection) <==>
            (Exported(out, schema, visible, M, after, maxRows, projection) <==> Readable(M, T, after, maxRows))
  {
  }

  lemma NoneOfBoth(out: seq<LogicalRow>, rows: seq<LogicalRow>, T: set<nat>)
    requires NoneOf(out, T) && NoneOf(rows, T)
    ensures NoneOf(out + rows, T)
  {
  }

  /** What the response's page is. */
  lemma PageMeans(v: Versioned, request: Request, hits: nat, rows: seq<LogicalRow>, projection: seq<nat>)
    requires v.ValidLayers() && Answers(v, request, hits, rows, projection) && !RepeatsLast(v, request)
    ensures var S, T := After(Selected(v.schema, v.Rows(), request.filters), request.after), After(Misread(v, request.filters), request.after);
            && (Untroubled(v, request) ==>
                  Shows(rows, v.schema, v.Rows(), Top(S, request.limit), projection) && Top(S + T, request.limit) !! T)
            && (!Untroubled(v, request) ==> StreamMerges.Spoilt(RowIds(rows), S, T, request.limit))
  {
    hide v.ValidLayers, v.Rows, Selected, Misread, Shows, StreamMerges.Spoilt;
  }

  lemma NextIsLast(rows: seq<LogicalRow>, limit: nat, browse: bool, max: Option<nat>)
    ensures var next := NextCursor(rows, limit, browse, max);
            next.Some? ==> rows != [] && |rows| == limit && next.value == rows[|rows| - 1].rowId
  {
  }

  lemma NextOrNot(rows: seq<LogicalRow>, v: Versioned, cursor: Option<nat>, limit: nat, browse: bool)
    requires v.Valid() && Ahead(rows, v.Rows(), cursor) && cursor.Some?
    ensures var next := NextCursor(rows, limit, browse, v.maxRowId);
            next.Some? ==> cursor.value <= next.value
  {
    if NextCursor(rows, limit, browse, v.maxRowId).Some? {
      NextAhead(rows, v, cursor, limit, browse);
    }
  }

  /** A browse past the last 64-bit ID emits that row, although nothing is past it, and ends. */
  lemma LastRepeated(v: Versioned, rows: seq<LogicalRow>, limit: nat, maxRows: Option<nat>, projection: seq<nat>, M: set<nat>, after: Option<nat>)
    requires v.Valid() && limit > 0 && after == Some(U64_MAX) && U64_MAX in v.Rows() && Shows(rows, v.schema, v.Rows(), {U64_MAX}, projection)
    requires forall id :: id in M ==> v.maxRowId.Some? && id <= v.maxRowId.value
    requires v.maxRowId.Some? ==> v.maxRowId.value <= U64_MAX
    ensures rows != [] && NextCursor(rows, limit, true, v.maxRowId) == None
    ensures [] + rows == rows && (maxRows != Some(0) ==> !Exported(rows, v.schema, v.Rows(), M, after, maxRows, projection))
  {
    hide *;
    LastShown(rows, v.schema, v.Rows(), projection);
    DeltaWrites.RowsBounded(v);
    NothingPast(M, after, v.maxRowId);
    LastPage(rows, limit, v.maxRowId);
    NothingShows(rows, v.schema, v.Rows(), M, after, maxRows, projection);
  }

  lemma NothingPast(M: set<nat>, after: Option<nat>, max: Option<nat>)
    requires after == Some(U64_MAX) && (max.Some? ==> max.value <= U64_MAX) && forall id :: id in M ==> max.Some? && id <= max.value
    ensures After(M, after) == {}
  {
  }

  lemma LastPage(rows: seq<LogicalRow>, limit: nat, max: Option<nat>)
    requires |rows| == 1 && rows[0].rowId == U64_MAX && max == Some(U64_MAX)
    ensures NextCursor(rows, limit, true, max) == None
  {
  }

  lemma LastShown(rows: seq<LogicalRow>, schema: Schema, visible: map<nat, Row>, projection: seq<nat>)
    requires Shows(rows, schema, visible, {U64_MAX}, projection)
    ensures |rows| == 1 && rows[0].rowId == U64_MAX
  {
    ListsSize(RowIds(rows), {U64_MAX});
    assert RowIds(rows)[0] in {U64_MAX};
  }

  lemma NothingShows(rows: seq<LogicalRow>, schema: Schema, visible: map<nat, Row>, M: set<nat>, after: Option<nat>, maxRows: Option<nat>,
                     projection: seq<nat>)
    requires rows != [] && After(M, after) == {}
    ensures !Exported(rows, schema, visible, M, after, maxRows, projection)
  {
    assert RowIds(rows)[0] in RowIds(rows);
    assert maxRows.Some? ==> Top(After(M, after), maxRows.value) == {};
  }

  /** Whatever the route, the next cursor is a visible row past the present one. */
  lemma NextAhead(rows: seq<LogicalRow>, v: Versioned, cursor: Option<nat>, limit: nat, browse: bool)
    requires v.Valid() && Ahead(rows, v.Rows(), cursor) && NextCursor(rows, limit, browse, v.maxRowId).Some?
    ensures var next := NextCursor(rows, limit, browse, v.maxRowId).value;
            Start(cursor) <= next <= U64_MAX
  {
    var last := rows[|rows| - 1];
    assert last.rowId in v.Rows() && Past(cursor, last.rowId);
    DeltaWrites.RowsBounded(v);
    DeltaWrites.VisibleRowsValid(v);
  }

  lemma PageRows()
    ensures EXPORT_PAGE_ROWS > 0
  {
  }

  lemma ReadBounded(v: Versioned, filters: seq<Filter>)
    requires v.Valid()
    ensures forall id :: id in Selected(v.schema, v.Rows(), filters) + Misread(v, filters) ==> v.maxRowId.Some? && id <= v.maxRowId.value
    ensures v.maxRowId.Some? ==> v.maxRowId.value <= U64_MAX
  {
    hide *;
    DeltaWrites.RowsBounded(v);
    DeltaWrites.VisibleRowsValid(v);
    SelectedMeans(v.schema, v.Rows(), filters);
    MisreadVisible(v, filters);
  }

  lemma MisreadVisible(v: Versioned, filters: seq<Filter>)
    requires v.ValidLayers()
    ensures Misread(v, filters) <= v.Rows().Keys
  {
    hide v.ValidLayers, v.Rows, TakesRange, RangeTexts;
  }

  lemma PageLimitFits(pageLimit: nat, maxRows: Option<nat>, emitted: nat)
    requires maxRows.Some? ==> emitted < maxRows.value
    requires pageLimit == if maxRows.Some? then Min(EXPORT_PAGE_ROWS, maxRows.value - emitted) else EXPORT_PAGE_ROWS
    ensures pageLimit > 0
    ensures maxRows.Some? ==> emitted + pageLimit <= maxRows.value
  {
  }

  lemma RequestMeans(v: Versioned, request: Request, cursor: Option<nat>, after: Option<nat>, first: bool)
    requires v.ValidLayers() && request.after == cursor && request.limit > 0
    requires v.maxRowId.Some? ==> v.maxRowId.value <= U64_MAX
    requires request.filters == [] ==> cursor == after || (v.maxRowId.Some? && cursor.Some? && cursor.value < v.maxRowId.value)
    requires first ==> cursor == after
    ensures RepeatsLast(v, request) ==> BrowsesPastLast(v, request.filters, after)
    ensures first ==> (RepeatsLast(v, request) <==> BrowsesPastLast(v, request.filters, after))
    ensures ValidRequest(v.schema, request) <==> ValidFilters(v.schema, request.filters) && KnownColumns(v.schema, SelectOf(request.select))
  {
  }

  lemma SameProjection(schema: Schema, select: seq<string>, a: seq<nat>, b: seq<nat>, first: bool)
    requires Selects(schema, SelectOf(select), a) && (!first ==> Selects(schema, SelectOf(select), b))
    ensures !first ==> a == b
  {
    RangeRoute.SelectsOne(schema, SelectOf(select), a);
  }

  lemma ExportDone(out: seq<LogicalRow>, schema: Schema, visible: map<nat, Row>, M: set<nat>, after: Option<nat>, maxRows: Option<nat>,
                   projection: seq<nat>)
    requires Shows(out, schema, visible, After(M, after), projection) && (maxRows.Some? ==> |out| <= maxRows.value)
    ensures Exported(out, schema, visible, M, after, maxRows, projection)
  {
    if maxRows.Some? {
      WholeIsTop(out, schema, visible, After(M, after), maxRows.value, projection);
    }
  }

  lemma ExportCut(out: seq<LogicalRow>, schema: Schema, visible: map<nat, Row>, M: set<nat>, after: Option<nat>, maxRows: Option<nat>,
                  projection: seq<nat>)
    requires maxRows.Some? && Shows(out, schema, visible, Top(After(M, after), maxRows.value), projection)
    ensures Exported(out, schema, visible, M, after, maxRows, projection)
  {
  }

  lemma BrowseBelow(rows: seq<LogicalRow>, limit: nat, browse: bool, max: Option<nat>)
    ensures var next := NextCursor(rows, limit, browse, max);
            next.Some? && browse ==> max.Some? && next.value < max.value
  {
  }

  lemma CursorMoves(cursor: Option<nat>, next: nat)
    requires Start(cursor) <= next
    ensures Start(Some(next)) == next + 1 && Start(cursor) < Start(Some(next))
  {
  }
}

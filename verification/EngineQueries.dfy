/** The engine's answers. Every route, indexed or not, reports the matches of a plain scan: how many
    there are, and the first `limit` of them at or above a row. */
module EngineQueries {
  import opened Wrappers
  import opened RowSets
  import opened Tables
  import opened Planner
  import opened EnginePlans
  import opened PageRouting

  // -------------------------------------------------------------------- collecting in row order

  /** Of the members below `bound`: their number, and the first `limit` at or above `first`. */
  ghost predicate Collected(M: set<nat>, bound: nat, hits: nat, out: seq<nat>, first: nat, limit: nat) {
    && hits == |Below(M, bound)|
    && Lists(out, Top(From(Below(M, bound), first), limit))
  }

  lemma CollectNothing(M: set<nat>, first: nat, limit: nat)
    ensures Collected(M, 0, 0, [], first, limit)
  {
    assert Below(M, 0) == {};
  }

  lemma CollectHit(M: set<nat>, r: nat, hits: nat, out: seq<nat>, first: nat, limit: nat)
    requires Collected(M, r, hits, out, first, limit) && r in M
    ensures Collected(M, r + 1, hits + 1, if r >= first && |out| < limit then out + [r] else out, first, limit)
  {
    var before, after := Below(M, r), Below(M, r + 1);
    assert after == before + {r};
    var F, G := From(before, first), From(after, first);
    ListsSize(out, Top(F, limit));
    TopSize(F, limit);
    if r >= first {
      assert G == F + {r};
      assert Below(G, r) == F;
      if |out| < limit {
        ListsSnoc(out, F, r);
        TopSize(G, limit);
      } else {
        assert |F| >= limit;
        TopSandwich2(F, G, r, limit);
      }
    } else {
      assert G == F;
    }
  }

  /** A member above a full page does not enter it. */
  lemma TopSandwich2(F: set<nat>, G: set<nat>, r: nat, limit: nat)
    requires G == F + {r} && (forall x :: x in F ==> x < r) && |F| >= limit
    ensures Top(G, limit) == Top(F, limit)
  {
    forall x ensures x in Top(G, limit) <==> x in Top(F, limit) {
      if x in F {
        assert Below(G, x) == Below(F, x);
      } else if x == r {
        assert Below(G, r) == F;
      }
    }
  }

  lemma CollectGap(M: set<nat>, a: nat, b: nat, hits: nat, out: seq<nat>, first: nat, limit: nat)
    requires Collected(M, a, hits, out, first, limit) && a <= b
    requires forall r :: a <= r < b ==> r !in M
    ensures Collected(M, b, hits, out, first, limit)
  {
    assert Below(M, a) == Below(M, b);
  }

  lemma CollectAll(M: set<nat>, bound: nat, hits: nat, out: seq<nat>, first: nat, limit: nat)
    requires Collected(M, bound, hits, out, first, limit) && forall r :: r in M ==> r < bound
    ensures hits == |M| && Lists(out, Top(From(M, first), limit))
  {
    assert Below(M, bound) == M;
  }

  method PartitionPoint(s: seq<nat>, bound: nat) returns (at: nat)
    requires Increasing(s)
    ensures at <= |s|
    ensures forall i :: 0 <= i < at ==> s[i] < bound
    ensures forall i :: at <= i < |s| ==> bound <= s[i]
  {
    at := 0;
    var hi := |s|;
    while at < hi
      invariant 0 <= at <= hi <= |s|
      invariant forall i :: 0 <= i < at ==> s[i] < bound
      invariant forall i :: hi <= i < |s| ==> bound <= s[i]
    {
      var mid := at + (hi - at) / 2;
      if s[mid] < bound {
        at := mid + 1;
      } else {
        hi := mid;
      }
    }
  }

  /** One row of a segment, checked against the predicates. */
  method CheckRow(e: Engine, i: nat, local: nat, predicates: seq<Predicate>, given: seq<nat>, count: nat,
                  first: nat, limit: nat, ghost M: set<nat>)
    returns (hits: nat, out: seq<nat>)
    requires e.Valid() && !e.AsksPast(predicates) && i < |e.segments| && local < |e.segments[i].rows|
    requires e.segments[i].rowStart + local in M <==> e.segments[i].rowStart + local in e.Scan(predicates)
    requires Collected(M, e.segments[i].rowStart + local, count, given, first, limit)
    ensures Collected(M, e.segments[i].rowStart + local + 1, hits, out, first, limit)
  {
    hits, out := count, given;
    var row := e.segments[i].rowStart + local;
    SegmentRow(e, i, local, predicates);
    hide *;
    if RowMatches(e.segments[i].rows[local], predicates) {
      CollectHit(M, row, hits, out, first, limit);
      hits := hits + 1;
      if row >= first && |out| < limit {
        out := out + [row];
      }
    } else {
      CollectGap(M, row, row + 1, hits, out, first, limit);
    }
  }

  lemma SegmentRow(e: Engine, i: nat, local: nat, predicates: seq<Predicate>)
    requires e.Valid() && !e.AsksPast(predicates) && i < |e.segments| && local < |e.segments[i].rows|
    ensures e.segments[i].rowStart + local < e.rows
    ensures RowMatches(e.segments[i].rows[local], predicates) <==> e.segments[i].rowStart + local in e.Scan(predicates)
  {
    SegmentRows(e.segments, e.Table(), e.pageRows, e.pages, i);
    assert e.Table()[e.segments[i].rowStart + local] == e.segments[i].rows[local];
  }

  /** Segment i starts where the one before it ends. */
  lemma SegmentBounds(e: Engine, i: nat)
    requires e.Valid() && i < |e.segments|
    ensures Boundary(e.segments, i) == e.segments[i].rowStart
    ensures Boundary(e.segments, i + 1) == e.segments[i].rowStart + |e.segments[i].rows| <= e.rows
  {
    SegmentRows(e.segments, e.Table(), e.pageRows, e.pages, i);
  }

  lemma LastBoundary(e: Engine)
    requires e.Valid()
    ensures Boundary(e.segments, 0) == 0
    ensures Boundary(e.segments, |e.segments|) == e.rows
    ensures e.pageRows > 0
  {
  }

  // ------------------------------------------------------------------------- candidate rows

  /** Checks candidate rows against the canonical rows, segment by segment. */
  method FromRows(e: Engine, rows: seq<nat>, predicates: seq<Predicate>, first: nat, limit: nat, ghost C: set<nat>)
    returns (hits: nat, out: seq<nat>)
    requires e.Valid() && !e.AsksPast(predicates) && Lists(rows, C) && e.Scan(predicates) <= C
    ensures hits == |e.Scan(predicates)| && Lists(out, Top(From(e.Scan(predicates), first), limit))
  {
    ghost var M := e.Scan(predicates);
    LastBoundary(e);
    ScanInTable(e, predicates);
    CollectNothing(M, first, limit);
    assert Increasing(rows);
    assert forall r :: r in M ==> r in rows;
    hide *;
    hits, out := 0, [];
    for i := 0 to |e.segments|
      invariant Collected(M, Boundary(e.segments, i), hits, out, first, limit)
    {
      SegmentBounds(e, i);
      var start := e.segments[i].rowStart;
      var end := start + |e.segments[i].rows|;
      var lo := PartitionPoint(rows, start);
      var hi := PartitionPoint(rows, end);
      hits, out := FromSegmentRows(e, i, rows, lo, hi, predicates, first, limit, hits, out, M);
    }
    CollectAll(M, e.rows, hits, out, first, limit);
  }

  method FromSegmentRows(e: Engine, i: nat, rows: seq<nat>, lo: nat, hi: nat, predicates: seq<Predicate>,
                         first: nat, limit: nat, count: nat, given: seq<nat>, ghost M: set<nat>)
    returns (hits: nat, out: seq<nat>)
    requires e.Valid() && !e.AsksPast(predicates) && i < |e.segments| && Increasing(rows)
    requires M == e.Scan(predicates) && forall r :: r in M ==> r in rows
    requires lo <= |rows| && hi <= |rows|
    requires forall k :: 0 <= k < lo ==> rows[k] < e.segments[i].rowStart
    requires forall k :: lo <= k < |rows| ==> e.segments[i].rowStart <= rows[k]
    requires forall k :: 0 <= k < hi ==> rows[k] < e.segments[i].rowStart + |e.segments[i].rows|
    requires forall k :: hi <= k < |rows| ==> e.segments[i].rowStart + |e.segments[i].rows| <= rows[k]
    requires Collected(M, e.segments[i].rowStart, count, given, first, limit)
    ensures Collected(M, e.segments[i].rowStart + |e.segments[i].rows|, hits, out, first, limit)
  {
    assert forall k, l :: 0 <= k < l < |rows| ==> rows[k] < rows[l];
    hide *;
    hits, out := count, given;
    var start, end := e.segments[i].rowStart, e.segments[i].rowStart + |e.segments[i].rows|;
    ghost var at := start;
    var k := lo;
    while k < hi
      invariant lo <= k && (k <= hi || k == lo)
      invariant start <= at <= end && Collected(M, at, hits, out, first, limit)
      invariant forall m :: 0 <= m < k ==> rows[m] < at
      invariant forall m :: k <= m < |rows| ==> at <= rows[m]
    {
      var row := rows[k];
      GapBetween(rows, M, k, at, row);
      CollectGap(M, at, row, hits, out, first, limit);
      hits, out := CheckRow(e, i, row - start, predicates, out, hits, first, limit, M);
      at := row + 1;
      k := k + 1;
    }
    GapBetween(rows, M, k, at, end);
    CollectGap(M, at, end, hits, out, first, limit);
  }

  lemma GapBetween(rows: seq<nat>, M: set<nat>, k: nat, a: nat, b: nat)
    requires k <= |rows| && forall r :: r in M ==> r in rows
    requires forall m :: 0 <= m < k ==> rows[m] < a
    requires forall m :: k <= m < |rows| ==> b <= rows[m]
    ensures forall r :: a <= r < b ==> r !in M
  {
  }

  // -------------------------------------------------------------------------- candidate pages

  /** Rows of segment i from local row a up to b lie on pages p..q, both excluded. */
  lemma UnroutedRows(e: Engine, i: nat, P: set<nat>, S: set<nat>, a: nat, b: nat, p: nat, q: nat)
    requires e.Valid() && i < |e.segments| && Routes(e, P, S)
    requires a <= b <= |e.segments[i].rows|
    requires p * e.pageRows <= a && b <= q * e.pageRows
    requires forall x :: e.segments[i].firstPage + p <= x < e.segments[i].firstPage + q ==> x !in P
    ensures forall r :: e.segments[i].rowStart + a <= r < e.segments[i].rowStart + b ==> r !in S
  {
    var s := e.segments[i];
    forall r | s.rowStart + a <= r < s.rowStart + b ensures r !in S {
      var local := r - s.rowStart;
      PageOfRow(e.segments, e.Table(), e.pageRows, e.pages, i, local);
      PageBetween(local, e.pageRows, p, q);
    }
  }

  /** Checks every row of the candidate pages, segment by segment. */
  method FromPages(e: Engine, pages: seq<nat>, predicates: seq<Predicate>, first: nat, limit: nat, ghost P: set<nat>)
    returns (hits: nat, out: seq<nat>)
    requires e.Valid() && !e.AsksPast(predicates) && Lists(pages, P) && Routes(e, P, e.Scan(predicates))
    ensures hits == |e.Scan(predicates)| && Lists(out, Top(From(e.Scan(predicates), first), limit))
  {
    hide *;
    ghost var M := e.Scan(predicates);
    LastBoundary(e);
    ScanInTable(e, predicates);
    CollectNothing(M, first, limit);
    ListedAscends(pages, P);
    hits, out := 0, [];
    for i := 0 to |e.segments|
      invariant Collected(M, Boundary(e.segments, i), hits, out, first, limit)
    {
      SegmentBounds(e, i);
      var firstPage := e.segments[i].firstPage;
      var pageCount := PagesIn(|e.segments[i].rows|, e.pageRows);
      var lo := PartitionPoint(pages, firstPage);
      var hi := PartitionPoint(pages, firstPage + pageCount);
      SettledAt(pages, lo, firstPage);
      hits, out := FromSegmentPages(e, i, pages, lo, hi, predicates, first, limit, hits, out, P);
    }
    CollectAll(M, e.rows, hits, out, first, limit);
  }

  /** The row at which page p of a segment starts, or the end of the segment. */
  function Edge(p: nat, rows: nat, pageRows: nat): nat {
    Min(p * pageRows, rows)
  }

  lemma EdgeOfPage(next: nat, page: nat, rows: nat, pageRows: nat)
    requires pageRows > 0 && next <= page < PagesIn(rows, pageRows)
    ensures Edge(next, rows, pageRows) == next * pageRows <= page * pageRows == Edge(page, rows, pageRows)
    ensures page * pageRows < rows && page * pageRows <= Min(page * pageRows + pageRows, rows) <= rows
    ensures Edge(page + 1, rows, pageRows) == Min(page * pageRows + pageRows, rows)
  {
    PageBound(rows, pageRows, page);
    assert next * pageRows <= page * pageRows;
    assert (page + 1) * pageRows == page * pageRows + pageRows;
  }

  lemma EdgeOfTail(next: nat, rows: nat, pageRows: nat)
    requires pageRows > 0
    ensures Edge(next, rows, pageRows) <= rows
    ensures next < PagesIn(rows, pageRows) ==>
              Edge(next, rows, pageRows) == next * pageRows && rows <= PagesIn(rows, pageRows) * pageRows
    ensures next >= PagesIn(rows, pageRows) ==> Edge(next, rows, pageRows) == rows
  {
    PageBound(rows, pageRows, next);
    PageBound(rows, pageRows, PagesIn(rows, pageRows));
  }

  lemma EdgeOfStart(rows: nat, pageRows: nat)
    ensures Edge(0, rows, pageRows) == 0
  {
  }

  lemma PageBound(rows: nat, pageRows: nat, p: nat)
    requires pageRows > 0
    ensures p < PagesIn(rows, pageRows) <==> p * pageRows < rows
  {
    var d := PagesIn(rows, pageRows);
    var x := rows + pageRows - 1;
    assert x == d * pageRows + x % pageRows;
    if p < d {
      assert (p + 1) * pageRows <= d * pageRows;
      assert (p + 1) * pageRows == p * pageRows + pageRows;
    } else {
      assert d * pageRows <= p * pageRows;
    }
  }

  method FromSegmentPages(e: Engine, i: nat, pages: seq<nat>, lo: nat, hi: nat, predicates: seq<Predicate>,
                          first: nat, limit: nat, count: nat, given: seq<nat>, ghost P: set<nat>)
    returns (hits: nat, out: seq<nat>)
    requires e.Valid() && !e.AsksPast(predicates) && e.pageRows > 0 && i < |e.segments| && Lists(pages, P) && Increasing(pages)
    requires Routes(e, P, e.Scan(predicates))
    requires lo <= |pages| && hi <= |pages| && Settled(pages, lo, e.segments[i].firstPage + 0)
    requires forall k :: 0 <= k < hi ==> pages[k] < e.segments[i].firstPage + PagesIn(|e.segments[i].rows|, e.pageRows)
    requires forall k :: hi <= k < |pages| ==> e.segments[i].firstPage + PagesIn(|e.segments[i].rows|, e.pageRows) <= pages[k]
    requires Collected(e.Scan(predicates), e.segments[i].rowStart, count, given, first, limit)
    ensures Collected(e.Scan(predicates), e.segments[i].rowStart + |e.segments[i].rows|, hits, out, first, limit)
  {
    hide *;
    ListedAscends(pages, P);
    hits, out := count, given;
    ghost var M := e.Scan(predicates);
    var rowStart, firstPage, rows := e.segments[i].rowStart, e.segments[i].firstPage, |e.segments[i].rows|;
    // The first page of the segment not yet settled.
    ghost var next: nat := 0;
    EdgeOfStart(rows, e.pageRows);
    var k: nat := lo;
    while k < hi
      invariant lo <= k && (k <= hi || k == lo)
      invariant Collected(M, rowStart + Edge(next, rows, e.pageRows), hits, out, first, limit)
      invariant Settled(pages, k, firstPage + next)
    {
      hits, out := FromRoutedPage(e, i, pages, k, predicates, first, limit, hits, out, next, P);
      next := pages[k] - firstPage + 1;
      k := k + 1;
    }
    RestUnrouted(e, i, pages, k, hi, predicates, next, P);
    EdgeOfTail(next, rows, e.pageRows);
    CollectGap(M, rowStart + Edge(next, rows, e.pageRows), rowStart + rows, hits, out, first, limit);
  }

  /** One routed page: the pages skipped before it hold no match. */
  method FromRoutedPage(e: Engine, i: nat, pages: seq<nat>, k: nat, predicates: seq<Predicate>,
                        first: nat, limit: nat, count: nat, given: seq<nat>, ghost next: nat, ghost P: set<nat>)
    returns (hits: nat, out: seq<nat>)
    requires e.Valid() && !e.AsksPast(predicates) && e.pageRows > 0 && i < |e.segments| && Lists(pages, P) && Increasing(pages)
    requires Routes(e, P, e.Scan(predicates)) && k < |pages| && Settled(pages, k, e.segments[i].firstPage + next)
    requires pages[k] < e.segments[i].firstPage + PagesIn(|e.segments[i].rows|, e.pageRows)
    requires Collected(e.Scan(predicates), e.segments[i].rowStart + Edge(next, |e.segments[i].rows|, e.pageRows), count, given, first, limit)
    ensures e.segments[i].firstPage + next <= pages[k] && Settled(pages, k + 1, pages[k] + 1)
    ensures Collected(e.Scan(predicates),
              e.segments[i].rowStart + Edge(pages[k] - e.segments[i].firstPage + 1, |e.segments[i].rows|, e.pageRows),
              hits, out, first, limit)
  {
    hide *;
    ListedAscends(pages, P);
    SettledMeans(pages, k, e.segments[i].firstPage + next);
    var firstPage, rows := e.segments[i].firstPage, |e.segments[i].rows|;
    var page: nat := pages[k] - firstPage;
    EdgeOfPage(next, page, rows, e.pageRows);
    ghost var M, rowStart, edge := e.Scan(predicates), e.segments[i].rowStart, Edge(next, rows, e.pageRows);
    var start := page * e.pageRows;
    var end := Min(start + e.pageRows, rows);
    UnlistedPages(pages, P, k, firstPage + next, firstPage + page);
    UnroutedRows(e, i, P, M, edge, start, next, page);
    CollectGap(M, rowStart + edge, rowStart + start, count, given, first, limit);
    hits, out := FromPage(e, i, start, end, predicates, first, limit, count, given);
    SettleNext(pages, k);
  }

  /** No match past the last routed page of a segment. */
  lemma RestUnrouted(e: Engine, i: nat, pages: seq<nat>, k: nat, hi: nat, predicates: seq<Predicate>, next: nat, P: set<nat>)
    requires e.Valid() && e.pageRows > 0 && i < |e.segments| && Lists(pages, P) && Increasing(pages)
    requires Routes(e, P, e.Scan(predicates)) && hi <= k <= |pages| && Settled(pages, k, e.segments[i].firstPage + next)
    requires forall m :: hi <= m < |pages| ==> e.segments[i].firstPage + PagesIn(|e.segments[i].rows|, e.pageRows) <= pages[m]
    ensures Edge(next, |e.segments[i].rows|, e.pageRows) <= |e.segments[i].rows|
    ensures forall r :: e.segments[i].rowStart + Edge(next, |e.segments[i].rows|, e.pageRows) <= r < e.segments[i].rowStart + |e.segments[i].rows|
                        ==> r !in e.Scan(predicates)
  {
    hide *;
    ListedAscends(pages, P);
    var firstPage, rows := e.segments[i].firstPage, |e.segments[i].rows|;
    SettledMeans(pages, k, firstPage + next);
    EdgeOfTail(next, rows, e.pageRows);
    if next < PagesIn(rows, e.pageRows) {
      UnlistedPages(pages, P, k, firstPage + next, firstPage + PagesIn(rows, e.pageRows));
      UnroutedRows(e, i, P, e.Scan(predicates), Edge(next, rows, e.pageRows), rows, next, PagesIn(rows, e.pageRows));
    }
  }

  /** The pages before position k are those below a bound. */
  ghost predicate Settled(pages: seq<nat>, k: nat, bound: nat) {
    && (forall m :: 0 <= m < k && m < |pages| ==> pages[m] < bound)
    && (forall m :: k <= m < |pages| ==> bound <= pages[m])
  }

  lemma SettledMeans(pages: seq<nat>, k: nat, bound: nat)
    requires Settled(pages, k, bound)
    ensures forall m :: 0 <= m < k && m < |pages| ==> pages[m] < bound
    ensures forall m :: k <= m < |pages| ==> bound <= pages[m]
    ensures k < |pages| && Increasing(pages) ==> forall m :: k <= m < |pages| ==> pages[k] <= pages[m]
  {
  }

  lemma SettledAt(pages: seq<nat>, k: nat, bound: nat)
    requires k <= |pages| && (forall m :: 0 <= m < k ==> pages[m] < bound) && forall m :: k <= m < |pages| ==> bound <= pages[m]
    ensures Settled(pages, k, bound)
  {
  }

  lemma SettleNext(pages: seq<nat>, k: nat)
    requires Increasing(pages) && k < |pages|
    ensures Settled(pages, k + 1, pages[k] + 1)
  {
  }

  lemma UnlistedPages(pages: seq<nat>, P: set<nat>, k: nat, a: nat, b: nat)
    requires k <= |pages| && forall x :: x in P ==> x in pages
    requires forall m :: 0 <= m < k ==> pages[m] < a
    requires forall m :: k <= m < |pages| ==> b <= pages[m]
    ensures forall x :: a <= x < b ==> x !in P
  {
  }

  method FromPage(e: Engine, i: nat, start: nat, end: nat, predicates: seq<Predicate>,
                  first: nat, limit: nat, count: nat, given: seq<nat>)
    returns (hits: nat, out: seq<nat>)
    requires e.Valid() && !e.AsksPast(predicates) && i < |e.segments| && start <= end <= |e.segments[i].rows|
    requires Collected(e.Scan(predicates), e.segments[i].rowStart + start, count, given, first, limit)
    ensures Collected(e.Scan(predicates), e.segments[i].rowStart + end, hits, out, first, limit)
  {
    hide *;
    hits, out := count, given;
    for row := start to end
      invariant Collected(e.Scan(predicates), e.segments[i].rowStart + row, hits, out, first, limit)
    {
      hits, out := CheckRow(e, i, row, predicates, out, hits, first, limit, e.Scan(predicates));
    }
  }

  // ------------------------------------------------------------------------------- the answers

  /** The plain scan every route is measured against. */
  method ScanCount(e: Engine, predicates: seq<Predicate>) returns (hits: nat)
    requires e.Valid()
    ensures hits == |e.Scan(predicates)|
  {
    hide *;
    var query := QueryOf(e, predicates);
    if query.None? {
      return 0;
    }
    NotPast(e, predicates);
    ghost var M := e.Scan(predicates);
    LastBoundary(e);
    ScanInTable(e, predicates);
    CollectNothing(M, 0, 0);
    var out: seq<nat> := [];
    hits := 0;
    for i := 0 to |e.segments|
      invariant Collected(M, Boundary(e.segments, i), hits, out, 0, 0)
    {
      SegmentBounds(e, i);
      hits, out := FromPage(e, i, 0, |e.segments[i].rows|, predicates, 0, 0, hits, out);
    }
    CollectAll(M, e.rows, hits, out, 0, 0);
  }

  lemma NotPast(e: Engine, predicates: seq<Predicate>)
    requires !e.Contradictory(predicates)
    ensures !e.AsksPast(predicates)
  {
  }

  /** The hit count by whatever indexes apply is the hit count of the scan. */
  method Query(e: Engine, predicates: seq<Predicate>) returns (hits: nat)
    requires e.Valid()
    ensures hits == |e.Scan(predicates)|
  {
    hide *;
    var found, C := CandidateRows(e, predicates);
    if found.Some? {
      var rows, covered := found.value.0, found.value.1;
      if covered {
        ListsSize(rows, C);
        return |rows|;
      }
      var page;
      hits, page := FromRows(e, rows, predicates, 0, 0, C);
      return;
    }
    var pages := CandidatePages(e, predicates);
    RoutedSound(e, predicates);
    ghost var P := RoutedPages(e, predicates);
    var page;
    hits, page := FromPages(e, pages, predicates, 0, 0, P);
  }

  // --------------------------------------------------------------------------------- row pages

  /** An index on this one column whose rows can be read from any row on. */
  predicate SeeksOn(h: RowHierarchy, column: nat) {
    h.columns == [column] && (h.data.Dense? || h.data.BitSlice?)
  }

  /** A single predicate that some row might satisfy, on a column with a seekable index. */
  ghost predicate Seekable(e: Engine, predicates: seq<Predicate>) {
    && |predicates| == 1 && !e.Contradictory(predicates)
    && exists i :: 0 <= i < |e.rowHier| && SeeksOn(e.rowHier[i], predicates[0].column)
  }

  /** For a single predicate on a seekable index, the page is read off the index directly. */
  method SingleIndex(e: Engine, predicates: seq<Predicate>, first: nat, limit: nat)
    returns (found: Option<(nat, seq<nat>)>)
    requires e.Valid() && first <= e.rows
    ensures found.Some? <==> Seekable(e, predicates)
    ensures found.Some? ==>
              && found.value.0 == |e.Scan(predicates)|
              && Lists(found.value.1, Top(From(e.Scan(predicates), first), limit))
  {
    hide e.Valid, e.Contradictory, e.Scan, Represents;
    if |predicates| != 1 {
      return None;
    }
    var query := QueryOf(e, predicates);
    if query.None? {
      return None;
    }
    var column := predicates[0].column;
    for index := 0 to |e.rowHier|
      invariant forall i :: 0 <= i < index ==> !SeeksOn(e.rowHier[i], column)
    {
      var h := e.rowHier[index];
      if |h.columns| != 1 || h.columns[0] != column || !(h.data.Dense? || h.data.BitSlice?) {
        continue;
      }
      assert h.columns == [column];
      assert SeeksOn(e.rowHier[index], column);
      var page := Seek(e, index, predicates, query.value, first, limit);
      return Some(page);
    }
    return None;
  }

  /** The hits of a one-column index, and its rows from the given one on. */
  method Seek(e: Engine, index: nat, predicates: seq<Predicate>, query: Query, first: nat, limit: nat)
    returns (page: (nat, seq<nat>))
    requires e.Valid() && first <= e.rows && index < |e.rowHier|
    requires |predicates| == 1 && SeeksOn(e.rowHier[index], predicates[0].column)
    requires e.ValidQuery(query) && query.Keys == PredicateColumns(predicates) && e.Scan(predicates) == e.Agreeing(query.Keys, query)
    ensures page.0 == |e.Scan(predicates)| && Lists(page.1, Top(From(e.Scan(predicates), first), limit))
  {
    var h := e.rowHier[index];
    IndexOk(e, index, predicates, query);
    SingleColumn(e, predicates, query, h.columns);
    hide *;
    // The one column is queried, so the index has a key for it.
    var key := e.HierarchyKey(h.columns, query);
    var count := h.data.RowCount(key.value, e.Keys(h.columns));
    var rows := h.data.RowsFrom(key.value, first, limit, e.Keys(h.columns));
    return (count, rows);
  }

  /** The row number fits the 32-bit cast: a table with a row index has at most 2^32 - 1 rows. */
  lemma IndexOk(e: Engine, index: nat, predicates: seq<Predicate>, query: Query)
    requires e.Valid() && index < |e.rowHier| && |predicates| == 1 && SeeksOn(e.rowHier[index], predicates[0].column)
    requires query.Keys == PredicateColumns(predicates)
    ensures e.ValidTable() && e.ValidRowHier(e.rowHier[index]) && e.rows <= U32_MAX
    ensures e.ValidColumns(e.rowHier[index].columns) && e.rowHier[index].data.Holds(e.Keys(e.rowHier[index].columns))
    ensures |e.rowHier[index].columns| == 1 && e.rowHier[index].columns[0] == predicates[0].column
    ensures ColumnSet(e.rowHier[index].columns) <= query.Keys
    ensures e.rowHier[index].data.Dense? || e.rowHier[index].data.BitSlice?
  {
    assert predicates[0].column in PredicateColumns(predicates);
  }

  lemma SingleColumn(e: Engine, predicates: seq<Predicate>, query: Query, columns: seq<nat>)
    requires e.Valid() && |predicates| == |columns| == 1 && columns[0] == predicates[0].column
    requires query.Keys == PredicateColumns(predicates) && ColumnSet(columns) <= query.Keys
    requires e.Scan(predicates) == e.Agreeing(query.Keys, query)
    ensures e.Agreeing(ColumnSet(columns), query) == e.Scan(predicates)
  {
    assert ColumnSet(columns) == query.Keys;
  }

  /** The total number of matches, and the first `limit` of them at or above a row. */
  method QueryRowIdsFrom(e: Engine, predicates: seq<Predicate>, limit: nat, firstRow: nat)
    returns (out: seq<nat>, hits: nat)
    requires e.Valid()
    ensures hits == |e.Scan(predicates)|
    ensures Lists(out, Top(From(e.Scan(predicates), firstRow), limit))
  {
    var first := Min(firstRow, e.rows);
    BeyondTable(e, predicates, firstRow);
    hide *;
    var single := SingleIndex(e, predicates, first, limit);
    if single.Some? {
      return single.value.1, single.value.0;
    }
    var found, C := CandidateRows(e, predicates);
    if found.Some? {
      var rows, covered := found.value.0, found.value.1;
      if covered {
        ListsSize(rows, C);
        ListedAscends(rows, C);
        var start := PartitionPoint(rows, first);
        SuffixFrom(rows, C, start, first);
        TakeListsTop(rows[start..], From(C, first), limit);
        out := rows[start..start + Min(limit, |rows| - start)];
        PrefixTaken(rows, start, limit);
        return out, |rows|;
      }
      hits, out := FromRows(e, rows, predicates, first, limit, C);
      return;
    }
    var pages := CandidatePages(e, predicates);
    RoutedSound(e, predicates);
    ghost var P := RoutedPages(e, predicates);
    hits, out := FromPages(e, pages, predicates, first, limit, P);
  }

  /** A first row past the table selects nothing, as the end of the table does. */
  lemma BeyondTable(e: Engine, predicates: seq<Predicate>, firstRow: nat)
    requires e.Valid()
    ensures Min(firstRow, e.rows) <= e.rows
    ensures From(e.Scan(predicates), Min(firstRow, e.rows)) == From(e.Scan(predicates), firstRow)
  {
    ScanInTable(e, predicates);
  }

  lemma ListedAscends(rows: seq<nat>, C: set<nat>)
    requires Lists(rows, C)
    ensures Increasing(rows)
    ensures forall k, l :: 0 <= k < l < |rows| ==> rows[k] < rows[l]
    ensures forall x :: x in C ==> x in rows
  {
  }

  lemma PrefixTaken(rows: seq<nat>, start: nat, limit: nat)
    requires start <= |rows|
    ensures Min(limit, |rows| - start) <= |rows| - start
    ensures rows[start..start + Min(limit, |rows| - start)] == rows[start..][..Min(limit, |rows[start..]|)]
  {
  }

  // ------------------------------------------------------------------- the chunked driver stream

  const DRIVER_BATCH: nat := 4096

  /** Streams the smallest index in chunks and intersects each chunk with the others before reading on,
      exactly when the indexes decide the query. */
  method CandidateRowPageFrom(e: Engine, predicates: seq<Predicate>, limit: nat, firstRow: nat)
    returns (page: Option<seq<nat>>)
    requires e.Valid()
    ensures page.Some? <==> e.Decided(predicates)
    ensures page.Some? ==> Lists(page.value, Top(From(e.Scan(predicates), firstRow), limit))
  {
    assert DRIVER_BATCH > 0;
    hide *;
    var plan, query := RowSelectionPlan(e, predicates);
    if plan.None? || !plan.value.fullyCovered {
      return None;
    }
    var p := plan.value;
    ghost var S := e.Scan(predicates);
    ScanInTable(e, predicates);
    EmptyPage(e, p, query, S, firstRow, limit);
    if limit == 0 || p.selected == [] || p.selected[0].count == 0 || firstRow >= e.rows || firstRow > U32_MAX {
      return Some([]);
    }
    CoveredPlan(e, p, query, S);
    ghost var D := IndexRows(e, p, query, 0);
    var out: seq<nat> := [];
    var cursor: nat := firstRow;
    NothingBefore(S, firstRow);
    while true
      invariant Lists(out, RowSets.Below(From(S, firstRow), cursor)) && |out| < limit
      invariant firstRow <= cursor <= e.rows
      decreases e.rows - cursor
    {
      var fetched := SelectedRowsFrom(e, p, query, 0, cursor, DRIVER_BATCH);
      if fetched == [] {
        NothingFetched(S, D, cursor, DRIVER_BATCH);
        PageDone(S, firstRow, cursor, out, limit);
        return Some(out);
      }
      var last: nat := fetched[|fetched| - 1];
      FetchedLast(e, p, query, fetched, cursor);
      var rows := IntersectChunk(e, p, query, fetched, S, Top(From(D, cursor), DRIVER_BATCH));
      var short := |fetched| < DRIVER_BATCH || last == U32_MAX;
      ghost var bound: nat := if |fetched| < DRIVER_BATCH then e.rows else last + 1;
      ChunkIsPrefix(S, D, fetched, cursor, DRIVER_BATCH, e.rows);
      PageStep(S, firstRow, cursor, bound, limit, out, rows);
      out := out + rows[..Min(limit - |out|, |rows|)];
      if |out| >= limit || short {
        if |out| < limit {
          PageDone(S, firstRow, bound, out, limit);
        }
        return Some(out);
      }
      cursor := last + 1;
    }
  }

  lemma EmptyPage(e: Engine, plan: Plan, query: Query, S: set<nat>, firstRow: nat, limit: nat)
    requires e.Valid() && Plans(e, plan, query, S) && plan.fullyCovered && forall r :: r in S ==> r < e.rows
    ensures limit == 0 || plan.selected == [] || plan.selected[0].count == 0 || firstRow >= e.rows || firstRow > U32_MAX ==>
              Lists([], Top(From(S, firstRow), limit))
  {
    if plan.selected != [] {
      var s := plan.selected[0];
      assert s in plan.selected && e.Sound(s, query);
      OneIndex(e, plan, query);
      if s.count == 0 {
        EmptyStays(e, plan, query, 1);
      }
    }
  }

  lemma CoveredPlan(e: Engine, plan: Plan, query: Query, S: set<nat>)
    requires e.Valid() && Plans(e, plan, query, S) && plan.fullyCovered && plan.selected != []
    ensures e.AllSound(plan.selected, query) && e.rows <= U32_MAX
    ensures CommonOf(e, plan, query, |plan.selected|) == S
    ensures forall r :: r in S ==> r in IndexRows(e, plan, query, 0)
    ensures forall r :: r in IndexRows(e, plan, query, 0) ==> r < e.rows
  {
    assert plan.selected[..|plan.selected|] == plan.selected;
    var s := plan.selected[0];
    assert s in plan.selected && e.Sound(s, query);
  }

  lemma NothingBefore(S: set<nat>, first: nat)
    ensures Lists([], RowSets.Below(From(S, first), first))
  {
  }

  lemma NothingFetched(S: set<nat>, D: set<nat>, cursor: nat, batch: nat)
    requires batch > 0 && Lists([], Top(From(D, cursor), batch)) && forall r :: r in S ==> r in D
    ensures forall r :: r in S ==> r < cursor
  {
    ListsSize([], Top(From(D, cursor), batch));
    TopSize(From(D, cursor), batch);
    forall r | r in S ensures r < cursor {
      assert r !in From(D, cursor);
    }
  }

  lemma FetchedLast(e: Engine, plan: Plan, query: Query, fetched: seq<nat>, cursor: nat)
    requires e.Valid() && e.AllSound(plan.selected, query) && plan.selected != [] && fetched != []
    requires Lists(fetched, Top(From(IndexRows(e, plan, query, 0), cursor), DRIVER_BATCH))
    ensures cursor <= fetched[|fetched| - 1] < e.rows
    ensures forall x :: x in Top(From(IndexRows(e, plan, query, 0), cursor), DRIVER_BATCH) ==>
              x in IndexRows(e, plan, query, 0)
  {
    assert fetched[|fetched| - 1] in fetched;
  }

  /** A chunk is all of the index between the cursor and the chunk's end. */
  lemma ChunkIsPrefix(S: set<nat>, D: set<nat>, fetched: seq<nat>, cursor: nat, batch: nat, rows: nat)
    requires fetched != [] && Lists(fetched, Top(From(D, cursor), batch))
    requires (forall r :: r in S ==> r in D) && forall r :: r in D ==> r < rows
    ensures Top(From(D, cursor), batch) * S ==
            RowSets.Below(From(S, cursor), if |fetched| < batch then rows else fetched[|fetched| - 1] + 1)
  {
    var X := From(D, cursor);
    TopSize(X, batch);
    ListsSize(fetched, Top(X, batch));
    if |fetched| >= batch {
      FullChunk(X, fetched, batch);
    }
    hide Lists, Top;
  }

  /** A full chunk ends where it ends. */
  lemma FullChunk(X: set<nat>, fetched: seq<nat>, batch: nat)
    requires fetched != [] && Lists(fetched, Top(X, batch)) && |fetched| >= batch
    ensures forall r :: r in X ==> (r in Top(X, batch) <==> r <= fetched[|fetched| - 1])
  {
    var last, T := fetched[|fetched| - 1], Top(X, batch);
    assert last in T;
    ListsSize(fetched, T);
    TopSize(X, batch);
    forall r | r in X ensures r in T <==> r <= last {
      if r > last {
        ListedBelow(fetched, T, r);
        SubsetSize(T, RowSets.Below(X, r));
      } else {
        SubsetSize(RowSets.Below(X, r), RowSets.Below(X, last));
      }
    }
  }

  lemma ListedBelow(s: seq<nat>, S: set<nat>, r: nat)
    requires s != [] && Lists(s, S) && s[|s| - 1] < r
    ensures forall x :: x in S ==> x < r
  {
    forall x | x in S ensures x < r {
      var k :| 0 <= k < |s| && s[k] == x;
      assert k == |s| - 1 || s[k] < s[|s| - 1];
    }
  }

  /** Keeps the rows of a chunk that every other selected index lists. */
  method IntersectChunk(e: Engine, plan: Plan, ghost query: Query, fetched: seq<nat>, ghost S: set<nat>, ghost X: set<nat>)
    returns (rows: seq<nat>)
    requires e.Valid() && e.AllSound(plan.selected, query) && plan.selected != [] && Lists(fetched, X)
    requires CommonOf(e, plan, query, |plan.selected|) == S
    requires forall x :: x in X ==> x in IndexRows(e, plan, query, 0)
    ensures Lists(rows, X * S)
  {
    hide *;
    OneIndex(e, plan, query);
    rows := fetched;
    var next := 1;
    assert X * CommonOf(e, plan, query, 1) == X;
    while next < |plan.selected|
      invariant 0 < next <= |plan.selected|
      invariant Lists(rows, X * CommonOf(e, plan, query, next))
    {
      NextIndex(e, plan, query, next);
      assert IndexRows(e, plan, query, next) * (X * CommonOf(e, plan, query, next)) ==
             X * CommonOf(e, plan, query, next + 1);
      rows := SelectedIntersect(e, plan, query, next, rows, X * CommonOf(e, plan, query, next));
      next := next + 1;
      if rows == [] {
        ListedNothing(X * CommonOf(e, plan, query, next));
        CommonShrinks(e, plan, query, next);
        assert X * S <= X * CommonOf(e, plan, query, next);
        assert X * S == {};
        return;
      }
    }
  }

  lemma CommonShrinks(e: Engine, plan: Plan, query: Query, n: nat)
    requires e.Valid() && e.AllSound(plan.selected, query) && n <= |plan.selected|
    ensures CommonOf(e, plan, query, |plan.selected|) <= CommonOf(e, plan, query, n)
  {
    assert plan.selected[..|plan.selected|] == plan.selected;
  }

  /** The n smallest members are found in any prefix holding at least n. */
  lemma PrefixTop(F: set<nat>, bound: nat, n: nat)
    requires n <= |RowSets.Below(F, bound)|
    ensures Top(RowSets.Below(F, bound), n) == Top(F, n)
  {
    forall x ensures x in Top(F, n) <==> x in Top(RowSets.Below(F, bound), n) {
      if x in F && x < bound {
        assert RowSets.Below(RowSets.Below(F, bound), x) == RowSets.Below(F, x);
      } else if x in F {
        SubsetSize(RowSets.Below(F, bound), RowSets.Below(F, x));
      }
    }
  }

  lemma PageStep(S: set<nat>, first: nat, cursor: nat, bound: nat, limit: nat, out: seq<nat>, rows: seq<nat>)
    requires first <= cursor <= bound && Lists(out, RowSets.Below(From(S, first), cursor)) && |out| < limit
    requires Lists(rows, RowSets.Below(From(S, cursor), bound))
    ensures Min(limit - |out|, |rows|) <= |rows|
    ensures var page := out + rows[..Min(limit - |out|, |rows|)];
            && |page| <= limit
            && (|page| == limit ==> Lists(page, Top(From(S, first), limit)))
            && (|page| < limit ==> Lists(page, RowSets.Below(From(S, first), bound)))
  {
    var F, head, tail := From(S, first), RowSets.Below(From(S, first), cursor), RowSets.Below(From(S, cursor), bound);
    var n := limit - |out|;
    ListsSize(out, head);
    ListsSize(rows, tail);
    TakeListsTop(rows, tail, n);
    ListsConcat(out, head, rows[..Min(n, |rows|)], Top(tail, n));
    if |rows| < n {
      TopSize(tail, n);
      assert head + tail == RowSets.Below(F, bound);
    } else {
      assert From(F, cursor) == From(S, cursor);
      TopSplit(F, limit, cursor);
      PrefixTop(From(S, cursor), bound, n);
    }
  }

  lemma PageDone(S: set<nat>, first: nat, bound: nat, out: seq<nat>, limit: nat)
    requires Lists(out, RowSets.Below(From(S, first), bound)) && |out| < limit && forall r :: r in S ==> r < bound
    ensures Lists(out, Top(From(S, first), limit))
  {
    assert RowSets.Below(From(S, first), bound) == From(S, first);
    ListsSize(out, From(S, first));
    TopSize(From(S, first), limit);
  }

  /** The page route: streamed when the indexes cover the query, read in full otherwise. */
  method QueryRowIdsPageFrom(e: Engine, predicates: seq<Predicate>, limit: nat, firstRow: nat) returns (out: seq<nat>)
    requires e.Valid()
    ensures Lists(out, Top(From(e.Scan(predicates), firstRow), limit))
  {
    hide *;
    var page := CandidateRowPageFrom(e, predicates, limit, firstRow);
    if page.Some? {
      return page.value;
    }
    var hits;
    out, hits := QueryRowIdsFrom(e, predicates, limit, firstRow);
  }
}

/** Page routing: when no row index applies, the pages to visit. Routing may over-select, and never
    leaves out the page of a match. */
module PageRouting {
  import opened Wrappers
  import opened RowSets
  import opened Postings
  import opened MixedRadix
  import opened Tables
  import opened PageIndexes
  import opened Planner
  import opened EnginePlans

  /** A page index and its key for the query. */
  ghost predicate PageSound(e: Engine, s: Selection, query: Query)
    requires e.Valid()
  {
    && s.index < |e.pageHier|
    && s.columns == e.pageHier[s.index].columns
    && ColumnsOf(s.columns, e.cards) && ColumnSet(s.columns) <= query.Keys
    && |PageOf(e.segments, e.pageRows)| == e.rows
    && RowsWith(e.Keys(s.columns), s.key) == e.Agreeing(ColumnSet(s.columns), query)
  }

  ghost function IndexPages(e: Engine, s: Selection, query: Query): set<nat>
    requires e.Valid() && PageSound(e, s, query)
  {
    PagesWith(e.Keys(s.columns), PageOf(e.segments, e.pageRows), s.key)
  }

  /** Every match lies in a routed page. */
  ghost predicate Routes(e: Engine, P: set<nat>, S: set<nat>)
    requires e.Valid()
  {
    && |PageOf(e.segments, e.pageRows)| == e.rows
    && forall r :: r in S ==> r < e.rows && PageOf(e.segments, e.pageRows)[r] in P
  }

  /** Every column of the page index is queried. */
  ghost predicate PageQueried(e: Engine, i: nat, query: Query) {
    i < |e.pageHier| && ColumnSet(e.pageHier[i].columns) <= query.Keys
  }

  method AvailablePages(e: Engine, query: Query) returns (available: seq<Selection>, empty: Option<Selection>)
    requires e.Valid() && e.ValidQuery(query)
    ensures forall s :: s in available ==> PageSound(e, s, query)
    ensures empty.Some? ==> PageSound(e, empty.value, query) && IndexPages(e, empty.value, query) == {}
    ensures empty.None? ==> forall i: nat :: PageQueried(e, i, query) ==> Has(available, i)
  {
    available, empty := [], None;
    for index := 0 to |e.pageHier|
      invariant forall s :: s in available ==> PageSound(e, s, query)
      invariant forall i: nat :: i < index && PageQueried(e, i, query) ==> Has(available, i)
    {
      hide PageSound, PageQueried, e.Valid, Has;
      var candidate := PageCandidate(e, index, query);
      if candidate.Some? {
        if candidate.value.count == 0 {
          return available, candidate;
        }
        MoreListed(available, candidate.value);
        available := available + [candidate.value];
      }
    }
  }

  method PageCandidate(e: Engine, index: nat, query: Query) returns (candidate: Option<Selection>)
    requires e.Valid() && e.ValidQuery(query) && index < |e.pageHier|
    ensures candidate.Some? <==> PageQueried(e, index, query)
    ensures candidate.Some? ==>
              && candidate.value.index == index && PageSound(e, candidate.value, query)
              && candidate.value.count == |IndexPages(e, candidate.value, query)|
  {
    var h := e.pageHier[index];
    assert e.ValidPageHier(h);
    var key := e.HierarchyKey(h.columns, query);
    if key.None? {
      return None;
    }
    var count := h.data.PageCount(key.value, e.Keys(h.columns), PageOf(e.segments, e.pageRows));
    return Some(Selection(count, index, key.value, h.columns));
  }

  method PagesOf(e: Engine, s: Selection, ghost query: Query) returns (out: seq<nat>)
    requires e.Valid() && PageSound(e, s, query)
    ensures Lists(out, IndexPages(e, s, query))
  {
    assert e.ValidPageHier(e.pageHier[s.index]);
    out := e.pageHier[s.index].data.Pages(s.key, e.Keys(s.columns), PageOf(e.segments, e.pageRows));
  }

  method IntersectPagesOf(e: Engine, s: Selection, ghost query: Query, seed: seq<nat>, ghost P: set<nat>)
    returns (out: seq<nat>)
    requires e.Valid() && PageSound(e, s, query) && Lists(seed, P)
    ensures Lists(out, IndexPages(e, s, query) * P)
  {
    assert e.ValidPageHier(e.pageHier[s.index]);
    assert Elements(seed) == P;
    out := e.pageHier[s.index].data.IntersectPages(s.key, seed, e.Keys(s.columns), PageOf(e.segments, e.pageRows));
  }

  // --------------------------------------------------------------------------- the routed pages

  ghost predicate PageApplies(e: Engine, i: nat, predicates: seq<Predicate>) {
    i < |e.pageHier| && ColumnSet(e.pageHier[i].columns) <= PredicateColumns(predicates)
  }

  /** The page has a row that passes the predicates on these columns. */
  ghost predicate PageHas(e: Engine, p: nat, columns: seq<nat>, predicates: seq<Predicate>)
    requires e.Valid() && |PageOf(e.segments, e.pageRows)| == e.rows
  {
    exists r :: 0 <= r < e.rows && PageOf(e.segments, e.pageRows)[r] == p && PassesOn(e.Table()[r], columns, predicates)
  }

  /** No page index that applies rules the page out. */
  ghost predicate Routed(e: Engine, p: nat, predicates: seq<Predicate>)
    requires e.Valid() && |PageOf(e.segments, e.pageRows)| == e.rows
  {
    forall i: nat :: PageApplies(e, i, predicates) ==> PageHas(e, p, e.pageHier[i].columns, predicates)
  }

  /** The pages that no page index rules out; none for contradictory predicates. */
  ghost function RoutedPages(e: Engine, predicates: seq<Predicate>): set<nat>
    requires e.Valid()
  {
    PageOfLength(e.segments, e.Table(), e.pageRows, e.pages);
    set p: nat | p < e.pages && !e.Contradictory(predicates) && Routed(e, p, predicates)
  }

  /** Routing leaves out no page of a match. */
  lemma RoutedSound(e: Engine, predicates: seq<Predicate>)
    requires e.Valid()
    ensures Routes(e, RoutedPages(e, predicates), e.Scan(predicates))
  {
    PageOfLength(e.segments, e.Table(), e.pageRows, e.pages);
    forall r | r in e.Scan(predicates)
      ensures r < e.rows && PageOf(e.segments, e.pageRows)[r] in RoutedPages(e, predicates)
    {
      var p := PageOf(e.segments, e.pageRows)[r];
      PageOfBound(e.segments, e.Table(), e.pageRows, e.pages, r);
      if e.Contradictory(predicates) {
        e.NoMatch(predicates);
      }
      MatchRouted(e, r, predicates);
      hide Routed, PageOf, e.Valid, e.Contradictory;
    }
  }

  lemma MatchRouted(e: Engine, r: nat, predicates: seq<Predicate>)
    requires e.Valid() && r in e.Scan(predicates) && |PageOf(e.segments, e.pageRows)| == e.rows
    ensures Routed(e, PageOf(e.segments, e.pageRows)[r], predicates)
  {
    forall i: nat | PageApplies(e, i, predicates)
      ensures PageHas(e, PageOf(e.segments, e.pageRows)[r], e.pageHier[i].columns, predicates)
    {
      assert PassesOn(e.Table()[r], e.pageHier[i].columns, predicates);
    }
  }

  /** An index's pages for the query are the pages with a row that passes on its columns. */
  lemma IndexPagesAre(e: Engine, s: Selection, query: Query, predicates: seq<Predicate>, p: nat)
    requires e.Valid() && PageSound(e, s, query) && Represents(query, predicates)
    ensures p in IndexPages(e, s, query) <==> PageHas(e, p, s.columns, predicates)
    ensures p in IndexPages(e, s, query) ==> p < e.pages
  {
    var keys, pageOf := e.Keys(s.columns), PageOf(e.segments, e.pageRows);
    forall r | 0 <= r < e.rows
      ensures keys[r] == s.key <==> PassesOn(e.Table()[r], s.columns, predicates)
      ensures pageOf[r] < e.pages
    {
      PageOfBound(e.segments, e.Table(), e.pageRows, e.pages, r);
      PassesAgrees(e.Table()[r], s.columns, query, predicates);
      assert r in RowsWith(keys, s.key) <==> r in e.Agreeing(ColumnSet(s.columns), query);
    }
  }

  /** The pages common to the first n candidates. */
  ghost function CommonPages(e: Engine, candidates: seq<Selection>, n: nat, query: Query): set<nat>
    requires e.Valid() && n <= |candidates| && forall k :: 0 <= k < n ==> PageSound(e, candidates[k], query)
  {
    set p: nat | p < e.pages && InFirst(e, candidates, n, query, p)
  }

  ghost predicate InFirst(e: Engine, candidates: seq<Selection>, n: nat, query: Query, p: nat)
    requires e.Valid() && n <= |candidates| && forall k :: 0 <= k < n ==> PageSound(e, candidates[k], query)
  {
    forall k :: 0 <= k < n ==> p in IndexPages(e, candidates[k], query)
  }

  lemma FirstPages(e: Engine, candidates: seq<Selection>, query: Query, predicates: seq<Predicate>)
    requires e.Valid() && candidates != [] && Represents(query, predicates)
    requires forall k :: 0 <= k < |candidates| ==> PageSound(e, candidates[k], query)
    ensures CommonPages(e, candidates, 1, query) == IndexPages(e, candidates[0], query)
  {
    forall p: nat ensures p in IndexPages(e, candidates[0], query) ==> p < e.pages {
      IndexPagesAre(e, candidates[0], query, predicates, p);
    }
    hide PageSound, IndexPages;
  }

  lemma NextPages(e: Engine, candidates: seq<Selection>, query: Query, n: nat)
    requires e.Valid() && n < |candidates|
    requires forall k :: 0 <= k < |candidates| ==> PageSound(e, candidates[k], query)
    ensures CommonPages(e, candidates, n + 1, query) == IndexPages(e, candidates[n], query) * CommonPages(e, candidates, n, query)
    ensures CommonPages(e, candidates, |candidates|, query) <= CommonPages(e, candidates, n + 1, query)
  {
    hide PageSound, IndexPages;
  }

  /** The candidates are all the page indexes that apply, so their common pages are the routed ones. */
  lemma CommonRouted(e: Engine, candidates: seq<Selection>, query: Query, predicates: seq<Predicate>)
    requires e.Valid() && Represents(query, predicates) && !e.Contradictory(predicates)
    requires forall k :: 0 <= k < |candidates| ==> PageSound(e, candidates[k], query)
    requires forall i: nat :: PageQueried(e, i, query) ==> Has(candidates, i)
    ensures CommonPages(e, candidates, |candidates|, query) == RoutedPages(e, predicates)
  {
    PageOfLength(e.segments, e.Table(), e.pageRows, e.pages);
    forall p: nat | p < e.pages
      ensures p in CommonPages(e, candidates, |candidates|, query) <==> p in RoutedPages(e, predicates)
    {
      forall k | 0 <= k < |candidates|
        ensures PageApplies(e, candidates[k].index, predicates)
        ensures p in IndexPages(e, candidates[k], query) <==> PageHas(e, p, e.pageHier[candidates[k].index].columns, predicates)
      {
        IndexPagesAre(e, candidates[k], query, predicates, p);
      }
      forall i: nat | PageApplies(e, i, predicates)
        ensures exists k :: 0 <= k < |candidates| && candidates[k].index == i
      {
        assert PageQueried(e, i, query) && Has(candidates, i);
      }
      hide PageHas, IndexPages, PageSound, e.Valid, PageApplies, PageQueried;
    }
  }

  lemma EmptyRoutes(e: Engine, s: Selection, query: Query, predicates: seq<Predicate>)
    requires e.Valid() && Represents(query, predicates) && PageSound(e, s, query) && IndexPages(e, s, query) == {}
    ensures RoutedPages(e, predicates) == {}
  {
    PageOfLength(e.segments, e.Table(), e.pageRows, e.pages);
    assert PageApplies(e, s.index, predicates);
    forall p: nat ensures p !in RoutedPages(e, predicates) {
      IndexPagesAre(e, s, query, predicates, p);
    }
  }

  lemma ContradictionRoutes(e: Engine, predicates: seq<Predicate>)
    requires e.Valid() && e.Contradictory(predicates)
    ensures RoutedPages(e, predicates) == {}
  {
  }

  lemma AllPages(e: Engine, query: Query)
    requires e.Valid()
    ensures CommonPages(e, [], 0, query) == Span(0, e.pages)
  {
  }

  lemma MembersSound(e: Engine, sorted: seq<Selection>, available: seq<Selection>, query: Query)
    requires e.Valid() && multiset(sorted) == multiset(available)
    requires forall s :: s in available ==> PageSound(e, s, query)
    ensures forall i :: 0 <= i < |sorted| ==> PageSound(e, sorted[i], query)
    ensures |sorted| == |available|
    ensures forall i: nat :: Has(available, i) ==> Has(sorted, i)
  {
    SameMembers(sorted, available);
    assert |multiset(sorted)| == |multiset(available)|;
    forall i | 0 <= i < |sorted| ensures PageSound(e, sorted[i], query) {
      assert sorted[i] in sorted;
    }
  }

  lemma ScanInTable(e: Engine, predicates: seq<Predicate>)
    requires e.Valid()
    ensures forall r :: r in e.Scan(predicates) ==> r < e.rows
  {
  }

  lemma ListsRange(n: nat)
    ensures Lists(Iota(n), Span(0, n))
  {
    var s := Iota(n);
    forall x: nat ensures x in s <==> x < n {
      if x < n {
        assert s[x] == x;
      }
    }
  }

  /** The pages to visit: exactly those that no applicable page index rules out. */
  method CandidatePages(e: Engine, predicates: seq<Predicate>) returns (pages: seq<nat>)
    requires e.Valid()
    ensures Lists(pages, RoutedPages(e, predicates))
  {
    hide *;
    assert Lists([], {}) by { NothingListed(); }
    var query := QueryOf(e, predicates);
    if query.None? {
      ContradictionRoutes(e, predicates);
      return [];
    }
    var available, empty := AvailablePages(e, query.value);
    if empty.Some? {
      EmptyRoutes(e, empty.value, query.value, predicates);
      return [];
    }
    var sorted := SortByCount(available);
    MembersSound(e, sorted, available, query.value);
    CommonRouted(e, sorted, query.value, predicates);
    if sorted == [] {
      ListsRange(e.pages);
      AllPages(e, query.value);
      return Iota(e.pages);
    }
    pages := PagesOf(e, sorted[0], query.value);
    FirstPages(e, sorted, query.value, predicates);
    var next := 1;
    while next < |sorted|
      invariant 1 <= next <= |sorted|
      invariant Lists(pages, CommonPages(e, sorted, next, query.value))
    {
      NextPages(e, sorted, query.value, next);
      pages := IntersectPagesOf(e, sorted[next], query.value, pages, CommonPages(e, sorted, next, query.value));
      next := next + 1;
      if pages == [] {
        ListedNothing(CommonPages(e, sorted, next, query.value));
        assert CommonPages(e, sorted, |sorted|, query.value) == {};
        return;
      }
    }
  }

  lemma NothingListed()
    ensures Lists([], {})
  {
  }
}

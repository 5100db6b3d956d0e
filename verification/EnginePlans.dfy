/** Greedy covering and intersection: the rows a plan lists are exactly the matches when the chosen
    indexes cover the query, and contain every match otherwise. */
module EnginePlans {
  import opened Wrappers
  import opened RowSets
  import opened Postings
  import opened MixedRadix
  import opened Tables
  import opened RowIndexes
  import opened Planner
  import BitSlices

  /** Every queried column outside `uncovered` belongs to a chosen index. */
  ghost predicate Covers(selected: seq<Selection>, query: Query, uncovered: set<nat>) {
    && uncovered <= query.Keys
    && forall c :: c in query.Keys - uncovered ==> exists s :: s in selected && c in s.columns
  }

  lemma CoverSnoc(selected: seq<Selection>, query: Query, uncovered: set<nat>, s: Selection)
    requires Covers(selected, query, uncovered)
    ensures Covers(selected + [s], query, uncovered - ColumnSet(s.columns))
  {
    forall c | c in query.Keys - (uncovered - ColumnSet(s.columns))
      ensures exists t :: t in selected + [s] && c in t.columns
    {
      if c in query.Keys - uncovered {
        var t :| t in selected && c in t.columns;
        assert t in selected + [s];
      } else {
        assert s in selected + [s];
      }
    }
  }

  /** Repeatedly takes the best unused candidate until every queried column is covered or none helps. */
  method Cover(available: seq<Selection>, query: Query) returns (selected: seq<Selection>, uncovered: set<nat>)
    requires forall s :: s in available ==> s.columns != [] && ColumnSet(s.columns) <= query.Keys
    ensures forall s :: s in selected ==> s in available
    ensures Covers(selected, query, uncovered)
    ensures uncovered == query.Keys - Reach(available)
    ensures available != [] ==> selected != []
  {
    selected, uncovered := [], query.Keys;
    var used := seq(|available|, _ => false);
    while uncovered != {}
      invariant |used| == |available|
      invariant forall s :: s in selected ==> s in available
      invariant forall i :: 0 <= i < |used| && used[i] ==> Gain(available[i].columns, uncovered) == 0
      invariant Covers(selected, query, uncovered)
      invariant selected == [] ==> uncovered == query.Keys && forall i :: 0 <= i < |used| ==> !used[i]
      decreases |uncovered|
    {
      hide Gain, AtMostPerGain, Covers;
      var best := Best(available, used, uncovered);
      if best.None? {
        if available != [] {
          FirstGains(available[0], uncovered, query);
        }
        NothingGains(available, selected, query, uncovered);
        return;
      }
      var s := available[best.value];
      GainShrinks(s.columns, uncovered);
      CoverSnoc(selected, query, uncovered, s);
      GainsFall(available, uncovered, s);
      used := used[best.value := true];
      uncovered := uncovered - ColumnSet(s.columns);
      selected := selected + [s];
    }
    if available != [] {
      assert available[0].columns[0] in ColumnSet(available[0].columns);
    }
    forall i | 0 <= i < |available| ensures Gain(available[i].columns, {}) == 0 {
      GainPositive(available[i].columns, {});
    }
    NothingGains(available, selected, query, {});
  }

  /** The columns of the candidates. */
  ghost function Reach(available: seq<Selection>): set<nat> {
    set s, c | s in available && c in s.columns :: c
  }

  /** When no candidate gains, what is left uncovered is what no candidate has. */
  lemma NothingGains(available: seq<Selection>, selected: seq<Selection>, query: Query, uncovered: set<nat>)
    requires Covers(selected, query, uncovered) && forall s :: s in selected ==> s in available
    requires forall i :: 0 <= i < |available| ==> Gain(available[i].columns, uncovered) == 0
    ensures uncovered == query.Keys - Reach(available)
  {
    forall c | c in uncovered ensures c !in Reach(available) {
      if c in Reach(available) {
        var i :| 0 <= i < |available| && c in available[i].columns;
        GainPositive(available[i].columns, uncovered);
      }
    }
    forall c | c in query.Keys - uncovered ensures c in Reach(available) {
      var s :| s in selected && c in s.columns;
      assert s in available;
    }
  }

  /** Taking a candidate leaves it, and what gained nothing before, without gain. */
  lemma GainsFall(available: seq<Selection>, uncovered: set<nat>, s: Selection)
    ensures Gain(s.columns, uncovered - ColumnSet(s.columns)) == 0
    ensures forall i :: 0 <= i < |available| && Gain(available[i].columns, uncovered) == 0 ==>
              Gain(available[i].columns, uncovered - ColumnSet(s.columns)) == 0
  {
    GainPositive(s.columns, uncovered - ColumnSet(s.columns));
    forall i | 0 <= i < |available| && Gain(available[i].columns, uncovered) == 0
      ensures Gain(available[i].columns, uncovered - ColumnSet(s.columns)) == 0
    {
      GainPositive(available[i].columns, uncovered);
      GainPositive(available[i].columns, uncovered - ColumnSet(s.columns));
    }
  }

  lemma FirstGains(s: Selection, uncovered: set<nat>, query: Query)
    requires s.columns != [] && ColumnSet(s.columns) <= query.Keys
    ensures uncovered == query.Keys ==> Gain(s.columns, uncovered) > 0
  {
    assert s.columns[0] in ColumnSet(s.columns);
    GainPositive(s.columns, uncovered);
  }

  lemma GainShrinks(columns: seq<nat>, uncovered: set<nat>)
    requires Gain(columns, uncovered) > 0
    ensures |uncovered - ColumnSet(columns)| < |uncovered|
  {
    GainPositive(columns, uncovered);
    var c :| c in columns && c in uncovered;
    SubsetSize(uncovered - ColumnSet(columns), uncovered - {c});
  }

  // ------------------------------------------------------------------------- smallest index first

  ghost predicate CountsAscend(selected: seq<Selection>) {
    forall i, j :: 0 <= i < j < |selected| ==> selected[i].count <= selected[j].count
  }

  method InsertByCount(sorted: seq<Selection>, s: Selection) returns (out: seq<Selection>)
    requires CountsAscend(sorted)
    ensures CountsAscend(out) && multiset(out) == multiset(sorted) + multiset{s}
  {
    var at := 0;
    while at < |sorted| && sorted[at].count <= s.count
      invariant at <= |sorted| && forall k :: 0 <= k < at ==> sorted[k].count <= s.count
    {
      at := at + 1;
    }
    out := sorted[..at] + [s] + sorted[at..];
    assert sorted == sorted[..at] + sorted[at..];
  }

  /** Stands for the library's sort by key. */
  method SortByCount(selected: seq<Selection>) returns (out: seq<Selection>)
    ensures multiset(out) == multiset(selected) && CountsAscend(out)
  {
    hide CountsAscend;
    out := [];
    assert CountsAscend([]) by { NoCounts(); }
    for i := 0 to |selected|
      invariant multiset(out) == multiset(selected[..i]) && CountsAscend(out)
    {
      assert selected[..i + 1] == selected[..i] + [selected[i]];
      out := InsertByCount(out, selected[i]);
    }
    assert selected[..|selected|] == selected;
  }

  lemma NoCounts()
    ensures CountsAscend([])
  {
  }

  lemma SameMembers(a: seq<Selection>, b: seq<Selection>)
    requires multiset(a) == multiset(b)
    ensures forall s :: s in a <==> s in b
    ensures a == [] <==> b == []
  {
    forall s ensures s in a <==> s in b {
      assert s in a <==> s in multiset(a);
      assert s in b <==> s in multiset(b);
    }
    assert |multiset(a)| == |a| && |multiset(b)| == |b|;
  }

  // ------------------------------------------------------------------------------------ the plan

  /** The rows of a plan: what its indexes have in common; nothing for a plan without any. */
  ghost function PlanRows(e: Engine, plan: Plan, query: Query): set<nat>
    requires e.Valid() && e.AllSound(plan.selected, query)
  {
    if plan.selected == [] then {} else e.Common(plan.selected, query)
  }

  /** What a plan promises about a query: no match outside its rows, and, fully covered, no row
      outside the matches. */
  ghost predicate Plans(e: Engine, plan: Plan, query: Query, S: set<nat>)
    requires e.Valid()
  {
    && e.AllSound(plan.selected, query)
    && S <= PlanRows(e, plan, query)
    && (plan.fullyCovered ==> S == PlanRows(e, plan, query))
    && CountsAscend(plan.selected)
  }

  lemma CommonContains(e: Engine, selected: seq<Selection>, query: Query)
    requires e.Valid() && e.AllSound(selected, query)
    ensures e.Agreeing(query.Keys, query) <= e.Common(selected, query)
  {
    forall r, s | r in e.Agreeing(query.Keys, query) && s in selected
      ensures r in e.Agreeing(ColumnSet(s.columns), query)
    {
      assert e.Sound(s, query);
    }
  }

  lemma CoveredIsExact(e: Engine, selected: seq<Selection>, query: Query)
    requires e.Valid() && e.AllSound(selected, query) && Covers(selected, query, {})
    ensures e.Common(selected, query) == e.Agreeing(query.Keys, query)
  {
    CommonContains(e, selected, query);
    forall r | r in e.Common(selected, query) ensures r in e.Agreeing(query.Keys, query) {
      forall c | c in query.Keys ensures c < |e.Table()[r]| && e.Table()[r][c] == query[c] {
        assert c in query.Keys - {};
        var s :| s in selected && c in s.columns;
        assert e.Sound(s, query);
        assert r in e.Agreeing(ColumnSet(s.columns), query);
      }
    }
  }

  lemma EmptyIndexPlan(e: Engine, s: Selection, query: Query, S: set<nat>)
    requires e.Valid() && e.Sound(s, query) && s.count == 0 && S == e.Agreeing(query.Keys, query)
    ensures Plans(e, Plan(true, [s]), query, S)
  {
    assert e.AllSound([s], query);
    CommonContains(e, [s], query);
    assert s in [s];
    assert e.Agreeing(ColumnSet(s.columns), query) == {};
    assert e.Common([s], query) == {};
  }

  lemma CoverPlan(e: Engine, chosen: seq<Selection>, sorted: seq<Selection>, query: Query, uncovered: set<nat>, S: set<nat>)
    requires e.Valid() && e.AllSound(chosen, query) && S == e.Agreeing(query.Keys, query)
    requires multiset(sorted) == multiset(chosen) && chosen != [] && Covers(chosen, query, uncovered)
    requires CountsAscend(sorted)
    ensures Plans(e, Plan(uncovered == {}, sorted), query, S) && sorted != []
  {
    SameMembers(chosen, sorted);
    CommonContains(e, sorted, query);
    if uncovered == {} {
      CoveredIsExact(e, chosen, query);
      assert e.Common(sorted, query) == e.Common(chosen, query);
    }
  }

  /** A plan exactly when an index applies or the predicates contradict each other; it covers the query
      exactly when the indexes decide it. */
  method RowSelectionPlan(e: Engine, predicates: seq<Predicate>) returns (plan: Option<Plan>, ghost query: Query)
    requires e.Valid()
    ensures plan.Some? <==> e.Planned(predicates)
    ensures plan.Some? ==> (plan.value.fullyCovered <==> e.Decided(predicates))
    ensures plan.Some? ==> Plans(e, plan.value, query, e.Scan(predicates))
    ensures e.Decided(predicates) ==> plan.Some?
  {
    hide *;
    query := map[];
    DecidedPlanned(e, predicates);
    var parsed := QueryOf(e, predicates);
    if parsed.None? {
      NothingPlanned(e);
      ContradictionDecides(e, predicates);
      return Some(Plan(true, [])), query;
    }
    query := parsed.value;
    var available, empty := Candidates(e, parsed.value);
    if empty.Some? {
      EmptyIndexPlan(e, empty.value, query, e.Scan(predicates));
      EmptyDecides(e, predicates, query, empty.value);
      return Some(Plan(true, [empty.value])), query;
    }
    AvailablePlanned(e, predicates, query, available);
    if available == [] {
      return None, query;
    }
    var selected, uncovered := Cover(available, parsed.value);
    var sorted := SortByCount(selected);
    SubsetSound(e, selected, available, query);
    CoverPlan(e, selected, sorted, query, uncovered, e.Scan(predicates));
    CoverDecides(e, predicates, query, available, uncovered);
    return Some(Plan(uncovered == {}, sorted)), query;
  }

  lemma DecidedPlanned(e: Engine, predicates: seq<Predicate>)
    ensures e.Decided(predicates) ==> e.Planned(predicates)
  {
    if e.Decided(predicates) && predicates != [] && forall k :: 0 <= k < |predicates| ==> e.Indexed(predicates[k].column, predicates) {
      assert e.Indexed(predicates[0].column, predicates);
    }
  }

  lemma ContradictionDecides(e: Engine, predicates: seq<Predicate>)
    requires e.Contradictory(predicates)
    ensures e.Planned(predicates) && e.Decided(predicates)
  {
  }

  lemma EmptyDecides(e: Engine, predicates: seq<Predicate>, query: Query, s: Selection)
    requires e.Valid() && Represents(query, predicates) && e.Sound(s, query) && s.count == 0
    ensures e.Planned(predicates) && e.Decided(predicates)
  {
    e.AppliesQueried(query, predicates, s.index);
    e.NothingListed(query, predicates, s.index);
  }

  /** The candidates are the indexes that apply, and each lists some row. */
  ghost predicate Offers(e: Engine, query: Query, available: seq<Selection>)
    requires e.Valid()
  {
    && e.AllSound(available, query) && (forall s :: s in available ==> s.count > 0)
    && forall i: nat :: e.Queried(i, query) ==> Has(available, i)
  }

  lemma AvailablePlanned(e: Engine, predicates: seq<Predicate>, query: Query, available: seq<Selection>)
    requires e.Valid() && Represents(query, predicates) && Offers(e, query, available) && !e.Contradictory(predicates)
    ensures e.Planned(predicates) <==> available != []
  {
    hide e.Valid, e.Contradictory;
    if available != [] {
      assert e.Sound(available[0], query);
      e.AppliesQueried(query, predicates, available[0].index);
    }
    forall i: nat | e.Applies(i, predicates) ensures available != [] {
      e.AppliesQueried(query, predicates, i);
      assert Has(available, i);
    }
  }

  lemma NoneEmpty(e: Engine, predicates: seq<Predicate>, query: Query, available: seq<Selection>, i: nat)
    requires e.Valid() && Represents(query, predicates) && Offers(e, query, available) && e.Applies(i, predicates)
    ensures !e.ListsNothing(i, predicates)
  {
    e.AppliesQueried(query, predicates, i);
    assert Has(available, i);
    var s :| s in available && s.index == i;
    assert e.Sound(s, query);
    e.NothingListed(query, predicates, i);
  }

  lemma ReachIndexed(e: Engine, predicates: seq<Predicate>, query: Query, available: seq<Selection>, c: nat)
    requires e.Valid() && Represents(query, predicates) && Offers(e, query, available)
    ensures c in Reach(available) <==> e.Indexed(c, predicates)
  {
    if c in Reach(available) {
      var s :| s in available && c in s.columns;
      assert e.Sound(s, query);
      e.AppliesQueried(query, predicates, s.index);
    }
    if e.Indexed(c, predicates) {
      var i: nat :| e.Applies(i, predicates) && c in e.rowHier[i].columns;
      e.AppliesQueried(query, predicates, i);
      assert Has(available, i);
      var s :| s in available && s.index == i;
      assert e.Sound(s, query);
    }
  }

  lemma CoverDecides(e: Engine, predicates: seq<Predicate>, query: Query, available: seq<Selection>, uncovered: set<nat>)
    requires e.Valid() && Represents(query, predicates) && Offers(e, query, available) && !e.Contradictory(predicates)
    requires available != [] && uncovered == query.Keys - Reach(available)
    requires query == map[] <==> predicates == []
    requires forall s :: s in available ==> s.columns != [] && ColumnSet(s.columns) <= query.Keys
    ensures e.Decided(predicates) <==> uncovered == {}
  {
    forall i: nat | e.Applies(i, predicates) ensures !e.ListsNothing(i, predicates) {
      NoneEmpty(e, predicates, query, available, i);
    }
    assert available[0].columns[0] in ColumnSet(available[0].columns);
    hide e.Valid, e.Contradictory, e.Indexed, e.Applies, e.ListsNothing, Reach, Offers;
    forall k | 0 <= k < |predicates|
      ensures e.Indexed(predicates[k].column, predicates) <==> predicates[k].column !in uncovered
    {
      ReachIndexed(e, predicates, query, available, predicates[k].column);
    }
    forall c | c in uncovered ensures exists k :: 0 <= k < |predicates| && predicates[k].column == c {
      assert c in PredicateColumns(predicates);
    }
  }

  method QueryOf(e: Engine, predicates: seq<Predicate>) returns (query: Option<Query>)
    requires e.Valid()
    ensures query.None? <==> e.Contradictory(predicates)
    ensures query.None? ==> e.Scan(predicates) == {}
    ensures query.Some? ==>
              && e.ValidQuery(query.value) && Represents(query.value, predicates) && query.value.Keys == PredicateColumns(predicates)
              && (query.value == map[] <==> predicates == [])
              && e.Scan(predicates) == e.Agreeing(query.value.Keys, query.value)
  {
    query := e.QueryMap(predicates);
  }

  method Candidates(e: Engine, query: Query) returns (available: seq<Selection>, empty: Option<Selection>)
    requires e.Valid() && e.ValidQuery(query)
    ensures e.AllSound(available, query)
    ensures empty.Some? ==> e.Sound(empty.value, query) && empty.value.count == 0
    ensures empty.None? ==> Offers(e, query, available)
    ensures forall s :: s in available ==> s.columns != [] && ColumnSet(s.columns) <= query.Keys
  {
    available, empty := e.Available(query);
    assert forall s :: s in available ==> e.Sound(s, query);
  }

  lemma SubsetSound(e: Engine, selected: seq<Selection>, available: seq<Selection>, query: Query)
    requires e.Valid() && e.AllSound(available, query) && forall s :: s in selected ==> s in available
    ensures e.AllSound(selected, query)
  {
  }

  lemma NothingPlanned(e: Engine)
    requires e.Valid()
    ensures Plans(e, Plan(true, []), map[], {})
  {
  }

  // --------------------------------------------------------------------------------- intersection

  /** The rows common to the first n selected indexes. */
  ghost function CommonOf(e: Engine, plan: Plan, query: Query, n: nat): set<nat>
    requires e.Valid() && e.AllSound(plan.selected, query) && n <= |plan.selected|
  {
    e.Common(plan.selected[..n], query)
  }

  /** The rows of the n-th selected index. */
  ghost function IndexRows(e: Engine, plan: Plan, query: Query, n: nat): set<nat>
    requires e.Valid() && e.AllSound(plan.selected, query) && n < |plan.selected|
  {
    var s := plan.selected[n];
    assert s in plan.selected && e.Sound(s, query);
    e.Agreeing(ColumnSet(s.columns), query)
  }

  lemma OneIndex(e: Engine, plan: Plan, query: Query)
    requires e.Valid() && e.AllSound(plan.selected, query) && |plan.selected| > 0
    ensures CommonOf(e, plan, query, 1) == IndexRows(e, plan, query, 0)
  {
    var s := plan.selected[0];
    assert s in plan.selected && e.Sound(s, query);
    assert plan.selected[..1] == [s];
    assert s in [s];
  }

  lemma NextIndex(e: Engine, plan: Plan, query: Query, n: nat)
    requires e.Valid() && e.AllSound(plan.selected, query) && n < |plan.selected|
    ensures CommonOf(e, plan, query, n + 1) ==
            IndexRows(e, plan, query, n) * CommonOf(e, plan, query, n)
  {
    var s := plan.selected[n];
    assert plan.selected[..n + 1] == plan.selected[..n] + [s];
    assert s in plan.selected[..n + 1];
    assert forall t :: t in plan.selected[..n + 1] <==> t in plan.selected[..n] || t == s;
  }

  lemma EmptyStays(e: Engine, plan: Plan, query: Query, n: nat)
    requires e.Valid() && e.AllSound(plan.selected, query) && 0 < n <= |plan.selected|
    requires CommonOf(e, plan, query, n) == {}
    ensures PlanRows(e, plan, query) == {}
  {
    forall r | r in e.Common(plan.selected, query) ensures r in CommonOf(e, plan, query, n) {
    }
  }

  /** The lookups of a selected index, as sets of rows agreeing with the query. */
  method SelectedRows(e: Engine, plan: Plan, ghost query: Query, n: nat) returns (out: seq<nat>)
    requires e.Valid() && e.AllSound(plan.selected, query) && n < |plan.selected|
    ensures Lists(out, IndexRows(e, plan, query, n))
  {
    var s := plan.selected[n];
    assert s in plan.selected && e.Sound(s, query);
    assert e.ValidRowHier(e.rowHier[s.index]);
    out := e.rowHier[s.index].data.Rows(s.key, e.Keys(s.columns));
  }

  method SelectedRowsFrom(e: Engine, plan: Plan, ghost query: Query, n: nat, first: nat, limit: nat) returns (out: seq<nat>)
    requires e.Valid() && e.AllSound(plan.selected, query) && n < |plan.selected|
    ensures Lists(out, Top(From(IndexRows(e, plan, query, n), first), limit))
  {
    var s := plan.selected[n];
    assert s in plan.selected && e.Sound(s, query);
    assert e.ValidRowHier(e.rowHier[s.index]);
    out := e.rowHier[s.index].data.RowsFrom(s.key, first, limit, e.Keys(s.columns));
  }

  method SelectedIntersect(e: Engine, plan: Plan, ghost query: Query, n: nat, seed: seq<nat>, ghost S: set<nat>)
    returns (out: seq<nat>)
    requires e.Valid() && e.AllSound(plan.selected, query) && n < |plan.selected| && Lists(seed, S)
    ensures Lists(out, IndexRows(e, plan, query, n) * S)
  {
    var s := plan.selected[n];
    assert s in plan.selected && e.Sound(s, query);
    assert e.ValidRowHier(e.rowHier[s.index]);
    assert Elements(seed) == S;
    out := e.rowHier[s.index].data.IntersectRows(s.key, seed, e.Keys(s.columns));
  }

  /** Two bit-sliced indexes at the head of the plan are intersected mask by mask. */
  method SelectedPair(e: Engine, plan: Plan, ghost query: Query) returns (out: Option<seq<nat>>)
    requires e.Valid() && e.AllSound(plan.selected, query) && |plan.selected| >= 2
    ensures out.Some? ==> Lists(out.value, CommonOf(e, plan, query, 2))
  {
    hide *;
    SelectedIndex(e, plan, query, 0);
    SelectedIndex(e, plan, query, 1);
    var s, t := plan.selected[0], plan.selected[1];
    var a, b := e.rowHier[s.index].data, e.rowHier[t.index].data;
    if a.BitSlice? && b.BitSlice? {
      BitSliceHolds(a, e.Keys(s.columns));
      BitSliceHolds(b, e.Keys(t.columns));
      var rows := BitSlices.IntersectHierarchy(a.bits, s.key, b.bits, t.key, e.Keys(s.columns), e.Keys(t.columns));
      OneIndex(e, plan, query);
      NextIndex(e, plan, query, 1);
      assert IndexRows(e, plan, query, 1) * IndexRows(e, plan, query, 0) == IndexRows(e, plan, query, 0) * IndexRows(e, plan, query, 1);
      return Some(rows);
    }
    return None;
  }

  lemma SelectedIndex(e: Engine, plan: Plan, query: Query, n: nat)
    requires e.Valid() && e.AllSound(plan.selected, query) && n < |plan.selected|
    ensures var s := plan.selected[n];
            && e.ValidTable() && s.index < |e.rowHier| && ColumnsOf(s.columns, e.cards)
            && e.rowHier[s.index].data.Holds(e.Keys(s.columns))
            && IndexRows(e, plan, query, n) == RowsWith(e.Keys(s.columns), s.key)
  {
    var s := plan.selected[n];
    assert s in plan.selected && e.Sound(s, query);
    assert e.ValidRowHier(e.rowHier[s.index]);
  }

  lemma BitSliceHolds(x: RowIndex, keys: seq<nat>)
    requires x.BitSlice? && x.Holds(keys)
    ensures x.bits.Holds(keys)
  {
  }

  /** The smallest index's rows, intersected with the others; the two first at once when both are
      bit-sliced. */
  method CandidateRows(e: Engine, predicates: seq<Predicate>)
    returns (found: Option<(seq<nat>, bool)>, ghost C: set<nat>)
    requires e.Valid()
    ensures found.Some? <==> e.Planned(predicates)
    ensures found.None? || !found.value.1 ==> !e.AsksPast(predicates)
    ensures found.Some? ==>
              && Lists(found.value.0, C) && e.Scan(predicates) <= C
              && (found.value.1 ==> C == e.Scan(predicates))
              && (found.value.1 <==> e.Decided(predicates))
  {
    hide *;
    C := {};
    var plan, query := RowSelectionPlan(e, predicates);
    if e.AsksPast(predicates) {
      PastDecides(e, predicates);
    }
    if plan.None? {
      return None, C;
    }
    var p := plan.value;
    var rows := PlannedRows(e, p, query, e.Scan(predicates));
    C := PlannedSet(e, p, query, e.Scan(predicates));
    return Some((rows, p.fullyCovered)), C;
  }

  lemma PastDecides(e: Engine, predicates: seq<Predicate>)
    requires e.AsksPast(predicates)
    ensures e.Planned(predicates) && e.Decided(predicates)
  {
  }

  ghost function PlannedSet(e: Engine, plan: Plan, query: Query, S: set<nat>): (C: set<nat>)
    requires e.Valid() && Plans(e, plan, query, S)
    ensures S <= C && (plan.fullyCovered ==> C == S)
  {
    PlanRows(e, plan, query)
  }

  method PlannedRows(e: Engine, plan: Plan, ghost query: Query, ghost S: set<nat>) returns (rows: seq<nat>)
    requires e.Valid() && Plans(e, plan, query, S)
    ensures Lists(rows, PlannedSet(e, plan, query, S))
  {
    rows := [];
    PlanFacts(e, plan, query, S);
    hide *;
    if plan.selected == [] || plan.selected[0].count == 0 {
      return;
    }
    OneIndex(e, plan, query);
    var next := 1;
    var pair := None;
    if |plan.selected| >= 2 {
      pair := SelectedPair(e, plan, query);
    }
    if pair.Some? {
      rows, next := pair.value, 2;
    } else {
      rows := SelectedRows(e, plan, query, 0);
    }
    while next < |plan.selected|
      invariant 0 < next <= |plan.selected|
      invariant Lists(rows, CommonOf(e, plan, query, next))
    {
      NextIndex(e, plan, query, next);
      rows := SelectedIntersect(e, plan, query, next, rows, CommonOf(e, plan, query, next));
      next := next + 1;
      if rows == [] {
        ListedNothing(CommonOf(e, plan, query, next));
        EmptyStays(e, plan, query, next);
        break;
      }
    }
    AllIndexes(e, plan, query, S);
  }

  lemma ListedNothing(S: set<nat>)
    ensures Lists([], S) ==> S == {}
  {
    var none: seq<nat> := [];
    assert Lists(none, S) ==> forall x :: x in S ==> x in none;
  }

  lemma PlanFacts(e: Engine, plan: Plan, query: Query, S: set<nat>)
    requires e.Valid() && Plans(e, plan, query, S)
    ensures e.AllSound(plan.selected, query)
    ensures plan.selected == [] || plan.selected[0].count == 0 ==> Lists([], PlannedSet(e, plan, query, S))
  {
    if plan.selected != [] && plan.selected[0].count == 0 {
      var s := plan.selected[0];
      assert s in plan.selected && e.Sound(s, query);
      OneIndex(e, plan, query);
      EmptyStays(e, plan, query, 1);
    }
  }

  lemma AllIndexes(e: Engine, plan: Plan, query: Query, S: set<nat>)
    requires e.Valid() && Plans(e, plan, query, S) && e.AllSound(plan.selected, query) && plan.selected != []
    ensures CommonOf(e, plan, query, |plan.selected|) == PlanRows(e, plan, query) == PlannedSet(e, plan, query, S)
  {
    assert plan.selected[..|plan.selected|] == plan.selected;
  }
}

/** The equality planner: which exact row indexes to intersect, and which pages to visit when they do
    not decide the query. */
module Planner {
  import opened Wrappers
  import opened Postings
  import opened MixedRadix
  import opened Tables
  import opened RowIndexes
  import opened PageIndexes

  datatype RowHierarchy = RowHierarchy(columns: seq<nat>, data: RowIndex)
  datatype PageHierarchy = PageHierarchy(columns: seq<nat>, data: PageIndex)

  datatype Selection = Selection(count: nat, index: nat, key: nat, columns: seq<nat>)
  datatype Plan = Plan(fullyCovered: bool, selected: seq<Selection>)

  type Query = map<nat, nat>

  function ColumnSet(columns: seq<nat>): set<nat> { set c | c in columns }

  ghost function PredicateColumns(predicates: seq<Predicate>): set<nat> {
    set i | 0 <= i < |predicates| :: predicates[i].column
  }

  predicate Conflict(p: Predicate, q: Predicate) { p.column == q.column && p.value != q.value }

  /** The list selects the index. */
  ghost predicate Has(selected: seq<Selection>, index: nat) {
    exists s :: s in selected && s.index == index
  }

  lemma MoreListed(selected: seq<Selection>, s: Selection)
    ensures Has(selected + [s], s.index)
    ensures forall i: nat :: Has(selected, i) ==> Has(selected + [s], i)
  {
    assert s in selected + [s];
    forall i: nat | Has(selected, i) ensures Has(selected + [s], i) {
      var t :| t in selected && t.index == i;
      assert t in selected + [s];
    }
  }

  ghost predicate Represents(query: Query, predicates: seq<Predicate>) {
    && query.Keys == PredicateColumns(predicates)
    && forall k :: 0 <= k < |predicates| ==> predicates[k].column in query && query[predicates[k].column] == predicates[k].value
  }

  datatype Engine = Engine(rows: nat, pageRows: nat, pages: nat, cards: seq<nat>,
                           pageHier: seq<PageHierarchy>, rowHier: seq<RowHierarchy>, segments: seq<Segment>)
  {
    ghost function Table(): seq<seq<nat>> { Concat(segments) }

    ghost predicate ValidTable() {
      && pageRows > 0 && rows == |Table()|
      && Contiguous(segments, Table(), pageRows, pages)
      && Wide(Table(), |cards|)
      && (forall c :: 0 <= c < |cards| ==> cards[c] > 0)
      && (rowHier != [] ==> rows <= U32_MAX)
    }

    ghost predicate ValidColumns(columns: seq<nat>) {
      columns != [] && ColumnsOf(columns, cards) && Space(columns, cards) <= U64_MAX && TableKeyed(Table(), columns, cards)
    }

    ghost predicate ValidRowHier(h: RowHierarchy)
      requires ValidTable()
    {
      ValidColumns(h.columns) && h.data.Holds(Keys(h.columns))
    }

    ghost predicate ValidPageHier(h: PageHierarchy)
      requires ValidTable()
    {
      && ValidColumns(h.columns) && |PageOf(segments, pageRows)| == rows
      && h.data.Holds(Keys(h.columns), PageOf(segments, pageRows))
    }

    /** Every index was built from this table, whatever its representation. */
    ghost predicate Valid() {
      && ValidTable()
      && (forall i :: 0 <= i < |rowHier| ==> ValidRowHier(rowHier[i]))
      && (forall i :: 0 <= i < |pageHier| ==> ValidPageHier(pageHier[i]))
    }

    /** The key column of an index. */
    ghost function Keys(columns: seq<nat>): (keys: seq<nat>)
      requires ValidTable()
      ensures |keys| == rows
    {
      KeysOf(Table(), columns, cards)
    }

    ghost predicate ValidQuery(query: Query) {
      forall c :: c in query ==> c < |cards| && query[c] < cards[c]
    }

    ghost function Agreeing(columns: set<nat>, query: Query): set<nat>
      requires columns <= query.Keys
    {
      Agree(Table(), columns, query)
    }

    /** The rows the plain scan selects: those that match, and none when a predicate names a column or a
        token the table is not declared to have. */
    ghost function Scan(predicates: seq<Predicate>): set<nat> {
      if AsksPast(predicates) then {} else Matches(Table(), predicates)
    }

    ghost predicate AsksPast(predicates: seq<Predicate>) {
      exists k :: 0 <= k < |predicates| && OutOfRange(predicates[k])
    }

    /** When every token is in range, the scan selects exactly the matching rows, whatever is asked. */
    lemma ScanMatches(predicates: seq<Predicate>)
      requires Tokens(Table(), cards)
      ensures Scan(predicates) == Matches(Table(), predicates)
    {
      if AsksPast(predicates) {
        forall r | 0 <= r < |Table()| ensures !RowMatches(Table()[r], predicates) {
          assert RowTokens(Table()[r], cards);
        }
      }
    }

    // ------------------------------------------------------------------- predicates to a query

    /** A predicate names no token declared, or two ask for different tokens of a column. */
    ghost predicate Contradictory(predicates: seq<Predicate>) {
      || AsksPast(predicates)
      || (exists j, k :: 0 <= j < |predicates| && 0 <= k < |predicates| && Conflict(predicates[j], predicates[k]))
    }

    predicate OutOfRange(p: Predicate) { p.column >= |cards| || p.value >= cards[p.column] }

    /** One value a column, or nothing when the predicates cannot all hold. */
    method QueryMap(predicates: seq<Predicate>) returns (query: Option<Query>)
      requires ValidTable()
      ensures query.None? <==> Contradictory(predicates)
      ensures query.None? ==> Scan(predicates) == {}
      ensures query.Some? ==> ValidQuery(query.value) && Represents(query.value, predicates)
      ensures query.Some? ==> Scan(predicates) == Agreeing(query.value.Keys, query.value)
      ensures query.Some? ==> (query.value == map[] <==> predicates == [])
    {
      var q: Query := map[];
      for i := 0 to |predicates|
        invariant ValidQuery(q) && PredicateColumns(predicates[..i]) == q.Keys
        invariant Represents(q, predicates[..i])
      {
        var p := predicates[i];
        if p.column >= |cards| || p.value >= cards[p.column] {
          assert OutOfRange(predicates[i]);
          NoMatch(predicates);
          return None;
        }
        if p.column in q && q[p.column] != p.value {
          Clash(q, predicates, i);
          NoMatch(predicates);
          return None;
        }
        RepresentsNext(q, predicates, i);
        q := q[p.column := p.value];
      }
      assert predicates[..|predicates|] == predicates;
      RepresentsScan(q, predicates);
      return Some(q);
    }

    lemma RepresentsNext(q: Query, predicates: seq<Predicate>, i: nat)
      requires i < |predicates| && Represents(q, predicates[..i])
      requires var p := predicates[i]; p.column in q ==> q[p.column] == p.value
      ensures Represents(q[predicates[i].column := predicates[i].value], predicates[..i + 1])
    {
      assert predicates[..i + 1] == predicates[..i] + [predicates[i]];
      assert PredicateColumns(predicates[..i + 1]) == PredicateColumns(predicates[..i]) + {predicates[i].column} by {
        forall c | c in PredicateColumns(predicates[..i]) ensures c in PredicateColumns(predicates[..i + 1]) {
          var k :| 0 <= k < i && predicates[..i][k].column == c;
          assert predicates[..i + 1][k].column == c;
        }
        assert predicates[..i + 1][i] == predicates[i];
      }
    }

    lemma Clash(q: Query, predicates: seq<Predicate>, i: nat)
      requires i < |predicates| && Represents(q, predicates[..i])
      requires predicates[i].column in q && q[predicates[i].column] != predicates[i].value
      ensures Contradictory(predicates)
    {
      var k :| 0 <= k < i && predicates[..i][k].column == predicates[i].column;
      assert Conflict(predicates[k], predicates[i]);
    }

    /** A query that stands for the predicates selects what they select, so they do not contradict. */
    lemma RepresentsScan(q: Query, predicates: seq<Predicate>)
      requires Represents(q, predicates) && ValidQuery(q)
      ensures Scan(predicates) == Agreeing(q.Keys, q) && !Contradictory(predicates)
      ensures q == map[] <==> predicates == []
    {
      forall r | 0 <= r < |Table()| ensures r in Scan(predicates) <==> r in Agreeing(q.Keys, q) {
        forall c | c in q ensures exists k :: 0 <= k < |predicates| && predicates[k].column == c {
          assert c in PredicateColumns(predicates);
        }
      }
      if predicates != [] {
        assert predicates[0].column in q;
      }
    }

    lemma NoMatch(predicates: seq<Predicate>)
      requires ValidTable() && Contradictory(predicates)
      ensures Scan(predicates) == {}
    {
    }

    /** The query's key under an index, when every indexed column is queried. */
    method HierarchyKey(columns: seq<nat>, query: Query) returns (key: Option<nat>)
      requires ValidTable() && ValidColumns(columns) && ValidQuery(query)
      ensures key.Some? <==> ColumnSet(columns) <= query.Keys
      ensures key.Some? ==> RowsWith(Keys(columns), key.value) == Agreeing(ColumnSet(columns), query)
    {
      var digits: seq<Digit> := [];
      for i := 0 to |columns|
        invariant |digits| == i
        invariant forall k :: 0 <= k < i ==> columns[k] in query && digits[k] == Digit(columns[k], query[columns[k]])
      {
        if columns[i] !in query {
          return None;
        }
        digits := digits + [Digit(columns[i], query[columns[i]])];
      }
      ValueBelowSpace(digits, cards);
      assert Columns(digits) == columns;
      key := Pack(digits, cards);
      KeyAgrees(columns, query, digits);
    }

    lemma KeyAgrees(columns: seq<nat>, query: Query, digits: seq<Digit>)
      requires ValidTable() && ValidColumns(columns) && ColumnSet(columns) <= query.Keys
      requires |digits| == |columns| && InRange(digits, cards)
      requires forall i :: 0 <= i < |columns| ==> columns[i] in query && digits[i] == Digit(columns[i], query[columns[i]])
      ensures RowsWith(Keys(columns), Value(digits, cards)) == Agreeing(ColumnSet(columns), query)
    {
      forall r: nat | r < rows
        ensures r in RowsWith(Keys(columns), Value(digits, cards)) <==> r in Agreeing(ColumnSet(columns), query)
      {
        KeyRows(Table(), columns, cards, query, digits, r);
        if r in Agreeing(ColumnSet(columns), query) {
          forall i | 0 <= i < |columns| ensures Table()[r][columns[i]] == query[columns[i]] {
            assert columns[i] in ColumnSet(columns);
          }
        }
      }
    }

    // ------------------------------------------------------------------------ choosing indexes

    /** A selected index, its key and its exact row count for the query. */
    ghost predicate Sound(s: Selection, query: Query)
      requires Valid()
    {
      && s.index < |rowHier| && s.columns == rowHier[s.index].columns
      && ColumnSet(s.columns) <= query.Keys
      && ColumnsOf(s.columns, cards)
      && RowsWith(Keys(s.columns), s.key) == Agreeing(ColumnSet(s.columns), query)
      && s.count == |Agreeing(ColumnSet(s.columns), query)|
    }

    ghost predicate AllSound(selected: seq<Selection>, query: Query)
      requires Valid()
    {
      forall s :: s in selected ==> Sound(s, query)
    }

    ghost predicate ListedByAll(r: nat, selected: seq<Selection>, query: Query)
      requires Valid() && AllSound(selected, query)
    {
      forall s :: s in selected ==> r in Agreeing(ColumnSet(s.columns), query)
    }

    /** The rows that every selected index lists. */
    ghost function Common(selected: seq<Selection>, query: Query): set<nat>
      requires Valid() && AllSound(selected, query)
    {
      set r: nat | r < rows && ListedByAll(r, selected, query)
    }

    /** The index's key and count for the query, when its columns are all queried. */
    method Candidate(index: nat, query: Query) returns (candidate: Option<Selection>)
      requires Valid() && ValidQuery(query) && index < |rowHier|
      ensures candidate.Some? <==> Queried(index, query)
      ensures candidate.Some? ==> Sound(candidate.value, query) && candidate.value.index == index && candidate.value.columns != []
    {
      var h := rowHier[index];
      assert ValidRowHier(h);
      var key := HierarchyKey(h.columns, query);
      if key.None? {
        return None;
      }
      var count := h.data.RowCount(key.value, Keys(h.columns));
      return Some(Selection(count, index, key.value, h.columns));
    }

    lemma OnlyThese(query: Query)
      requires Valid()
      ensures AllSound([], query)
      ensures forall i: nat :: Queried(i, query) ==> i < |rowHier|
    {
    }

    lemma MoreSound(selected: seq<Selection>, s: Selection, query: Query)
      requires Valid() && AllSound(selected, query) && Sound(s, query)
      ensures AllSound(selected + [s], query)
    {
      hide Sound;
    }

    /** The indexes whose columns are all queried; `empty` holds one that has no row for the query. */
    method Available(query: Query) returns (available: seq<Selection>, empty: Option<Selection>)
      requires Valid() && ValidQuery(query)
      ensures AllSound(available, query)
      ensures forall s :: s in available ==> s.columns != [] && s.count > 0
      ensures empty.Some? ==> Sound(empty.value, query) && empty.value.count == 0
      ensures empty.None? ==> forall i: nat :: Queried(i, query) ==> Has(available, i)
    {
      hide *;
      OnlyThese(query);
      available, empty := [], None;
      for index := 0 to |rowHier|
        invariant AllSound(available, query)
        invariant forall s :: s in available ==> s.columns != [] && s.count > 0
        invariant forall i: nat :: i < index && Queried(i, query) ==> Has(available, i)
      {
        var candidate := Candidate(index, query);
        if candidate.Some? {
          if candidate.value.count == 0 {
            return available, candidate;
          }
          MoreListed(available, candidate.value);
          MoreSound(available, candidate.value, query);
          available := available + [candidate.value];
        }
      }
    }

    // --------------------------------------------------------------- when the indexes suffice

    /** Every column of the index is queried. */
    ghost predicate Queried(i: nat, query: Query) {
      i < |rowHier| && ColumnSet(rowHier[i].columns) <= query.Keys
    }

    /** Every column of the index has a predicate. */
    ghost predicate Applies(i: nat, predicates: seq<Predicate>) {
      i < |rowHier| && ColumnSet(rowHier[i].columns) <= PredicateColumns(predicates)
    }

    /** No row passes the predicates on the index's columns. */
    ghost predicate ListsNothing(i: nat, predicates: seq<Predicate>)
      requires i < |rowHier|
    {
      forall r :: 0 <= r < |Table()| ==> !PassesOn(Table()[r], rowHier[i].columns, predicates)
    }

    /** An index that applies has the column. */
    ghost predicate Indexed(c: nat, predicates: seq<Predicate>) {
      exists i: nat :: Applies(i, predicates) && c in rowHier[i].columns
    }

    /** Some index applies, or none is needed. */
    ghost predicate Planned(predicates: seq<Predicate>) {
      Contradictory(predicates) || exists i: nat :: Applies(i, predicates)
    }

    /** The indexes decide the query: it is contradictory, an index that applies lists nothing, or the
        indexes that apply have every predicate's column. */
    ghost predicate Decided(predicates: seq<Predicate>) {
      || Contradictory(predicates)
      || (exists i: nat :: Applies(i, predicates) && ListsNothing(i, predicates))
      || (predicates != [] && forall k :: 0 <= k < |predicates| ==> Indexed(predicates[k].column, predicates))
    }

    lemma AppliesQueried(query: Query, predicates: seq<Predicate>, i: nat)
      requires Represents(query, predicates)
      ensures Applies(i, predicates) <==> Queried(i, query)
    {
    }

    lemma NothingListed(query: Query, predicates: seq<Predicate>, i: nat)
      requires Represents(query, predicates) && Applies(i, predicates)
      ensures ListsNothing(i, predicates) <==> Agreeing(ColumnSet(rowHier[i].columns), query) == {}
    {
      var columns := rowHier[i].columns;
      forall r | 0 <= r < |Table()|
        ensures PassesOn(Table()[r], columns, predicates) <==> r in Agreeing(ColumnSet(columns), query)
      {
        PassesAgrees(Table()[r], columns, query, predicates);
      }
    }
  }

  /** The predicates on these columns hold of the row. */
  ghost predicate PassesOn(row: seq<nat>, columns: seq<nat>, predicates: seq<Predicate>) {
    forall k :: 0 <= k < |predicates| && predicates[k].column in columns ==>
      predicates[k].column < |row| && row[predicates[k].column] == predicates[k].value
  }

  lemma PassesAgrees(row: seq<nat>, columns: seq<nat>, query: Query, predicates: seq<Predicate>)
    requires Represents(query, predicates) && ColumnSet(columns) <= query.Keys
    ensures PassesOn(row, columns, predicates) <==>
            forall c :: c in ColumnSet(columns) ==> c < |row| && row[c] == query[c]
  {
    if PassesOn(row, columns, predicates) {
      forall c | c in ColumnSet(columns) ensures c < |row| && row[c] == query[c] {
        assert c in PredicateColumns(predicates);
        var k :| 0 <= k < |predicates| && predicates[k].column == c;
      }
    }
    if forall c :: c in ColumnSet(columns) ==> c < |row| && row[c] == query[c] {
      forall k | 0 <= k < |predicates| && predicates[k].column in columns
        ensures predicates[k].column < |row| && row[predicates[k].column] == predicates[k].value
      {
        assert predicates[k].column in ColumnSet(columns);
      }
    }
  }

  /** How many columns of a candidate are still uncovered. */
  function Gain(columns: seq<nat>, uncovered: set<nat>): nat {
    if columns == [] then 0
    else Gain(columns[..|columns| - 1], uncovered) + if columns[|columns| - 1] in uncovered then 1 else 0
  }

  lemma {:induction false} GainPositive(columns: seq<nat>, uncovered: set<nat>)
    ensures Gain(columns, uncovered) > 0 <==> exists c :: c in columns && c in uncovered
  {
    if columns != [] {
      var rest, last := columns[..|columns| - 1], columns[|columns| - 1];
      GainPositive(rest, uncovered);
      assert columns == rest + [last];
      assert forall c :: c in columns <==> c in rest || c == last;
    }
  }

  /** a/b <= c/d for counts per gain, cross-multiplied. */
  ghost predicate AtMostPerGain(count: nat, gain: nat, otherCount: nat, otherGain: nat) {
    count * otherGain <= otherCount * gain
  }

  lemma PerGainTransitive(a: nat, b: nat, c: nat, d: nat, e: nat, f: nat)
    requires d > 0 && AtMostPerGain(a, b, c, d) && AtMostPerGain(c, d, e, f)
    ensures AtMostPerGain(a, b, e, f)
  {
    ProductOrder(a * d, c * b, f);
    ProductOrder(c * f, e * d, b);
    Shuffle(a, d, f);
    Shuffle(c, b, f);
    Shuffle(e, d, b);
    CancelFactor(a * f, e * b, d);
  }

  lemma Shuffle(x: nat, y: nat, z: nat)
    ensures x * y * z == x * z * y
  {
  }

  lemma CancelFactor(x: nat, y: nat, d: nat)
    requires d > 0 && x * d <= y * d
    ensures x <= y
  {
    ProductOrder(y + 1, x, d);
    assert (y + 1) * d == y * d + d;
  }

  /** The unused candidate with the fewest rows per newly covered column; none when nothing gains. */
  method Best(available: seq<Selection>, used: seq<bool>, uncovered: set<nat>) returns (best: Option<nat>)
    requires |used| == |available|
    ensures best.None? ==> forall i :: 0 <= i < |available| && !used[i] ==> Gain(available[i].columns, uncovered) == 0
    ensures best.Some? ==>
              && best.value < |available| && !used[best.value]
              && Gain(available[best.value].columns, uncovered) > 0
              && forall i :: 0 <= i < |available| && !used[i] && Gain(available[i].columns, uncovered) > 0 ==>
                   AtMostPerGain(available[best.value].count, Gain(available[best.value].columns, uncovered),
                                 available[i].count, Gain(available[i].columns, uncovered))
  {
    best := None;
    for i := 0 to |available|
      invariant best.None? ==> forall k :: 0 <= k < i && !used[k] ==> Gain(available[k].columns, uncovered) == 0
      invariant best.Some? ==>
                  && best.value < i && !used[best.value]
                  && Gain(available[best.value].columns, uncovered) > 0
                  && forall k :: 0 <= k < i && !used[k] && Gain(available[k].columns, uncovered) > 0 ==>
                       AtMostPerGain(available[best.value].count, Gain(available[best.value].columns, uncovered),
                                     available[k].count, Gain(available[k].columns, uncovered))
    {
      hide Gain, AtMostPerGain;
      var gain := Gain(available[i].columns, uncovered);
      if used[i] || gain == 0 {
        continue;
      }
      Comparable(available[i].count, gain, available[i].count, gain);
      if best.None? {
        best := Some(i);
      } else {
        var b := best.value;
        var bestGain := Gain(available[b].columns, uncovered);
        Comparable(available[i].count, gain, available[b].count, bestGain);
        if available[i].count * bestGain < available[b].count * gain {
          forall k | 0 <= k < i && !used[k] && Gain(available[k].columns, uncovered) > 0
            ensures AtMostPerGain(available[i].count, gain, available[k].count, Gain(available[k].columns, uncovered))
          {
            PerGainTransitive(available[i].count, gain, available[b].count, bestGain,
              available[k].count, Gain(available[k].columns, uncovered));
          }
          best := Some(i);
        }
      }
    }
  }

  lemma Comparable(a: nat, b: nat, c: nat, d: nat)
    ensures a * d <= c * b ==> AtMostPerGain(a, b, c, d)
    ensures a * d >= c * b ==> AtMostPerGain(c, d, a, b)
  {
  }
}

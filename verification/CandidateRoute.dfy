/** Candidate-first execution: equality filters with indexes of their own supply a stream of candidates,
    fetched in batches, and the remaining filters are checked on each. The answer is that of a scan. */
module CandidateRoute {
  import opened Wrappers
  import opened RowSets
  import opened Schemas
  import opened LogicalDatasets
  import opened VersionedDatasets
  import VersionedQueries
  import opened QueryFilters
  import opened QueryRoutes
  import DeltaWrites

  const CANDIDATE_BATCH: nat := 4096

  // ------------------------------------------------------------------------ equality predicates

  /** The equality filters, as predicates; all of them when there is no other filter. */
  method EqualitySubset(schema: Schema, tests: seq<Test>, ghost filters: seq<Filter>)
    returns (columns: seq<nat>, predicates: seq<LogicalPredicate>)
    requires ValidSchema(schema) && DecidesAll(schema, filters, tests) && |filters| == |tests|
    ensures WellFormed(schema, predicates) && |columns| == |predicates| <= |tests|
    ensures forall i :: 0 <= i < |columns| ==> columns[i] < |schema|
    ensures forall row: Row :: PassesAll(schema, row, filters) ==> Satisfies(schema, row, predicates)
    ensures |predicates| == |tests| ==> forall row: Row :: Satisfies(schema, row, predicates) ==> PassesAll(schema, row, filters)
    ensures |predicates| == |tests| <==> forall i :: 0 <= i < |tests| ==> tests[i].EqTest?
  {
    hide *;
    columns, predicates := [], [];
    SubsetStart(schema, filters, tests);
    for i := 0 to |tests|
      invariant Subset(schema, filters, tests, columns, predicates, i)
    {
      SubsetStep(schema, filters, tests, columns, predicates, i);
      if tests[i].EqTest? {
        predicates := predicates + [LogicalPredicate(NameOf(schema, tests[i].column), tests[i].value)];
        columns := columns + [tests[i].column];
      }
    }
    SubsetDone(schema, filters, tests, columns, predicates);
  }

  /** The equality filters among the first n, in order. */
  ghost predicate Subset(schema: Schema, filters: seq<Filter>, tests: seq<Test>, columns: seq<nat>, predicates: seq<LogicalPredicate>, n: nat) {
    && |columns| == |predicates| <= n <= |tests|
    && (forall k :: 0 <= k < |columns| ==> columns[k] < |schema|)
    && AllFrom(schema, filters, predicates, n)
    && (|predicates| == n ==> AllSame(schema, filters, predicates, n))
    && (|predicates| == n <==> AllEqualities(tests, n))
  }

  ghost predicate AllFrom(schema: Schema, filters: seq<Filter>, predicates: seq<LogicalPredicate>, n: nat) {
    forall k :: 0 <= k < |predicates| ==> WellFormedOne(schema, predicates[k]) && FromFilter(schema, predicates[k], filters, n)
  }

  ghost predicate AllSame(schema: Schema, filters: seq<Filter>, predicates: seq<LogicalPredicate>, n: nat) {
    forall k :: 0 <= k < n && k < |filters| && k < |predicates| ==> SameTest(schema, predicates[k], filters[k])
  }

  ghost predicate AllEqualities(tests: seq<Test>, n: nat) {
    forall k :: 0 <= k < n && k < |tests| ==> tests[k].EqTest?
  }

  lemma SubsetStart(schema: Schema, filters: seq<Filter>, tests: seq<Test>)
    ensures Subset(schema, filters, tests, [], [], 0)
  {
  }

  lemma MoreFrom(schema: Schema, filters: seq<Filter>, predicates: seq<LogicalPredicate>, n: nat, p: LogicalPredicate)
    requires AllFrom(schema, filters, predicates, n)
    ensures AllFrom(schema, filters, predicates, n + 1)
    ensures n < |filters| && WellFormedOne(schema, p) && SameTest(schema, p, filters[n]) ==> AllFrom(schema, filters, predicates + [p], n + 1)
  {
    hide WellFormedOne, SameTest;
    forall k | 0 <= k < |predicates| ensures FromFilter(schema, predicates[k], filters, n + 1) {
      assert FromFilter(schema, predicates[k], filters, n);
      var j :| 0 <= j < n && j < |filters| && SameTest(schema, predicates[k], filters[j]);
      assert 0 <= j < n + 1 && j < |filters| && SameTest(schema, predicates[k], filters[j]);
    }
    if n < |filters| && SameTest(schema, p, filters[n]) {
      assert 0 <= n < n + 1 && n < |filters| && SameTest(schema, p, filters[n]);
      assert FromFilter(schema, p, filters, n + 1);
    }
  }

  lemma MoreSame(schema: Schema, filters: seq<Filter>, predicates: seq<LogicalPredicate>, n: nat, p: LogicalPredicate)
    requires |predicates| == n < |filters| && AllSame(schema, filters, predicates, n) && SameTest(schema, p, filters[n])
    ensures AllSame(schema, filters, predicates + [p], n + 1)
  {
    hide SameTest;
  }

  lemma SubsetStep(schema: Schema, filters: seq<Filter>, tests: seq<Test>, columns: seq<nat>, predicates: seq<LogicalPredicate>, i: nat)
    requires ValidSchema(schema) && DecidesAll(schema, filters, tests) && i < |tests|
    requires Subset(schema, filters, tests, columns, predicates, i)
    ensures if tests[i].EqTest? then
              Subset(schema, filters, tests, columns + [tests[i].column],
                predicates + [LogicalPredicate(NameOf(schema, tests[i].column), tests[i].value)], i + 1)
            else Subset(schema, filters, tests, columns, predicates, i + 1)
  {
    hide *;
    MoreEqualities(tests, i);
    OneDecides(schema, filters, tests, i);
    if tests[i].EqTest? {
      EqualityTest(schema, filters[i], tests[i]);
      SubsetTakes(schema, filters, tests, columns, predicates, i, LogicalPredicate(NameOf(schema, tests[i].column), tests[i].value));
    } else {
      SubsetSkips(schema, filters, tests, columns, predicates, i);
    }
  }

  lemma OneDecides(schema: Schema, filters: seq<Filter>, tests: seq<Test>, i: nat)
    requires DecidesAll(schema, filters, tests) && i < |tests|
    ensures i < |filters| && Decides(schema, filters[i], tests[i])
  {
  }

  lemma MoreEqualities(tests: seq<Test>, i: nat)
    requires i < |tests|
    ensures AllEqualities(tests, i + 1) <==> AllEqualities(tests, i) && tests[i].EqTest?
  {
  }

  lemma SubsetTakes(schema: Schema, filters: seq<Filter>, tests: seq<Test>, columns: seq<nat>, predicates: seq<LogicalPredicate>, i: nat,
                    p: LogicalPredicate)
    requires Subset(schema, filters, tests, columns, predicates, i) && i < |tests| && i < |filters| && tests[i].column < |schema|
    requires tests[i].EqTest? && (AllEqualities(tests, i + 1) <==> AllEqualities(tests, i))
    requires WellFormedOne(schema, p) && SameTest(schema, p, filters[i])
    ensures Subset(schema, filters, tests, columns + [tests[i].column], predicates + [p], i + 1)
  {
    hide SameTest, WellFormedOne, AllFrom, AllSame, AllEqualities;
    MoreFrom(schema, filters, predicates, i, p);
    if |predicates| == i {
      MoreSame(schema, filters, predicates, i, p);
    }
  }

  lemma SubsetSkips(schema: Schema, filters: seq<Filter>, tests: seq<Test>, columns: seq<nat>, predicates: seq<LogicalPredicate>, i: nat)
    requires Subset(schema, filters, tests, columns, predicates, i) && i < |tests| && !AllEqualities(tests, i + 1)
    ensures Subset(schema, filters, tests, columns, predicates, i + 1)
  {
    hide SameTest, WellFormedOne, AllFrom, AllSame, AllEqualities;
    MoreFrom(schema, filters, predicates, i, LogicalPredicate("", None));
  }

  lemma SubsetDone(schema: Schema, filters: seq<Filter>, tests: seq<Test>, columns: seq<nat>, predicates: seq<LogicalPredicate>)
    requires Subset(schema, filters, tests, columns, predicates, |tests|) && |filters| == |tests|
    ensures WellFormed(schema, predicates) && forall i :: 0 <= i < |columns| ==> columns[i] < |schema|
    ensures forall row: Row :: PassesAll(schema, row, filters) ==> Satisfies(schema, row, predicates)
    ensures |predicates| == |tests| ==> forall row: Row :: Satisfies(schema, row, predicates) ==> PassesAll(schema, row, filters)
    ensures |columns| == |predicates| <= |tests|
    ensures |predicates| == |tests| <==> forall i :: 0 <= i < |tests| ==> tests[i].EqTest?
  {
    hide Passes, SatisfiesOne, WellFormedOne;
    forall row: Row | PassesAll(schema, row, filters) ensures Satisfies(schema, row, predicates) {
      forall k | 0 <= k < |predicates| ensures SatisfiesOne(schema, row, predicates[k]) {
        assert FromFilter(schema, predicates[k], filters, |tests|);
        var j :| 0 <= j < |filters| && SameTest(schema, predicates[k], filters[j]);
        assert Passes(schema, row, filters[j]);
      }
    }
    if |predicates| == |tests| {
      forall row: Row | Satisfies(schema, row, predicates) ensures PassesAll(schema, row, filters) {
        forall k | 0 <= k < |filters| ensures Passes(schema, row, filters[k]) {
          assert SameTest(schema, predicates[k], filters[k]);
          assert SatisfiesOne(schema, row, predicates[k]);
        }
      }
    }
  }

  function NameOf(schema: Schema, c: nat): string {
    if c < |schema| then schema[c].name else ""
  }

  /** A predicate and a filter that the same rows meet. */
  ghost predicate SameTest(schema: Schema, p: LogicalPredicate, f: Filter) {
    forall row: Row :: SatisfiesOne(schema, row, p) <==> Passes(schema, row, f)
  }

  ghost predicate FromFilter(schema: Schema, p: LogicalPredicate, filters: seq<Filter>, n: nat) {
    exists j :: 0 <= j < n && j < |filters| && SameTest(schema, p, filters[j])
  }

  lemma EqualityTest(schema: Schema, f: Filter, t: Test)
    requires ValidSchema(schema) && Decides(schema, f, t) && t.EqTest?
    ensures t.column < |schema|
    ensures var p := LogicalPredicate(schema[t.column].name, t.value);
            WellFormedOne(schema, p) && SameTest(schema, p, f) && NameOf(schema, t.column) == schema[t.column].name
  {
    IndexOfName(schema, t.column);
  }

  // ------------------------------------------------------------------------- fetched columns

  /** The columns a candidate needs: those shown and those filtered, each once, in order. */
  method MaterializedColumns(projection: seq<nat>, tests: seq<Test>) returns (columns: seq<nat>)
    ensures forall c :: c in columns <==> c in projection || exists i :: 0 <= i < |tests| && tests[i].column == c
  {
    var all := projection;
    for i := 0 to |tests|
      invariant forall c :: c in all <==> c in projection || exists k :: 0 <= k < i && tests[k].column == c
    {
      all := all + [tests[i].column];
    }
    columns := Enumerate(set c | c in all);
  }

  lemma FilterColumns(schema: Schema, filters: seq<Filter>, tests: seq<Test>)
    requires DecidesAll(schema, filters, tests)
    ensures forall i :: 0 <= i < |tests| ==> tests[i].column < |schema| && ColumnIndex(schema, filters[i].column) == Some(tests[i].column)
  {
    forall i | 0 <= i < |tests|
      ensures tests[i].column < |schema| && ColumnIndex(schema, filters[i].column) == Some(tests[i].column)
    {
      assert Decides(schema, filters[i], tests[i]);
    }
  }

  method NamesOf(schema: Schema, columns: seq<nat>) returns (names: seq<string>)
    requires ValidSchema(schema) && forall i :: 0 <= i < |columns| ==> columns[i] < |schema|
    ensures KnownColumns(schema, Some(names))
    ensures forall supplied :: Selects(schema, Some(names), supplied) ==> supplied == columns
  {
    names := [];
    for i := 0 to |columns|
      invariant |names| == i
      invariant forall k :: 0 <= k < i ==> names[k] == schema[columns[k]].name && ColumnIndex(schema, names[k]) == Some(columns[k])
    {
      IndexOfName(schema, columns[i]);
      names := names + [schema[columns[i]].name];
    }
  }

  /** A row with the fetched columns filled in and NULL elsewhere. */
  ghost predicate Fills(values: Row, row: Row, columns: seq<nat>) {
    && |values| == |row|
    && forall c :: 0 <= c < |row| ==> values[c] == if c in columns then row[c] else None
  }

  method Fill(schema: Schema, shown: seq<NamedValue>, ghost row: Row, ghost columns: seq<nat>) returns (r: Result<Row>)
    requires ValidSchema(schema) && |row| == |schema| && forall i :: 0 <= i < |columns| ==> columns[i] < |schema|
    requires shown == Shown(schema, row, columns)
    ensures r.Ok? && Fills(r.value, row, columns)
  {
    var values: Row := seq(|schema|, _ => None);
    for k := 0 to |shown|
      invariant |values| == |schema|
      invariant forall c :: 0 <= c < |row| ==> values[c] == if c in columns[..k] then row[c] else None
    {
      assert columns[..k + 1] == columns[..k] + [columns[k]];
      IndexOfName(schema, columns[k]);
      var c := ColumnIndex(schema, shown[k].column);
      if c.None? {
        return Err(InvalidInput);
      }
      values := values[c.value := shown[k].value];
    }
    assert columns[..|shown|] == columns;
    return Ok(values);
  }

  /** The fetched columns decide the filters as the whole row does. */
  lemma FilledPasses(schema: Schema, values: Row, row: Row, columns: seq<nat>, filters: seq<Filter>, tests: seq<Test>)
    requires DecidesAll(schema, filters, tests) && Fills(values, row, columns) && |row| == |schema|
    requires forall i :: 0 <= i < |tests| ==> tests[i].column in columns
    ensures PassesAll(schema, values, filters) <==> PassesAll(schema, row, filters)
    ensures CanonicalRow(schema, row) ==> CanonicalRow(schema, values)
  {
    FilterColumns(schema, filters, tests);
    forall i | 0 <= i < |filters| ensures Passes(schema, values, filters[i]) <==> Passes(schema, row, filters[i]) {
      assert values[tests[i].column] == row[tests[i].column];
    }
    if CanonicalRow(schema, row) {
      forall c | 0 <= c < |values| ensures CanonicalValue(schema[c].kind, values[c]) {
        assert CanonicalValue(schema[c].kind, row[c]);
      }
    }
  }

  // ------------------------------------------------------------------------------- the batches

  /** A batch holds every candidate between two of its neighbours. */
  lemma BatchGap(batch: seq<LogicalRow>, C: set<nat>, cursor: Option<nat>, n: nat, j: nat)
    requires Lists(RowIds(batch), Top(After(C, cursor), n)) && j < |batch|
    ensures var bound := if j == 0 then Start(cursor) else batch[j - 1].rowId + 1;
            && bound <= batch[j].rowId
            && forall x :: x in C ==> !(bound <= x < batch[j].rowId)
    ensures batch[j].rowId in C
  {
    var A := After(C, cursor);
    var ids := RowIds(batch);
    assert ids[j] in ids;
    assert j > 0 ==> ids[j - 1] < ids[j];
    assert j > 0 ==> ids[j - 1] in ids;
    forall x | x in C && x < ids[j] ensures x < if j == 0 then Start(cursor) else ids[j - 1] + 1 {
      if x in A {
        SubsetSize(RowSets.Below(A, x), RowSets.Below(A, ids[j]));
        assert x in Top(A, n);
        var k :| 0 <= k < |ids| && ids[k] == x;
        assert k < j;
        assert k == j - 1 || ids[k] < ids[j - 1];
      }
    }
  }

  /** A short batch is the last one. */
  lemma LastBatch(batch: seq<LogicalRow>, C: set<nat>, cursor: Option<nat>, n: nat)
    requires Lists(RowIds(batch), Top(After(C, cursor), n)) && |batch| < n
    ensures forall x :: x in C ==> x < if batch == [] then Start(cursor) else batch[|batch| - 1].rowId + 1
  {
    var A, ids := After(C, cursor), RowIds(batch);
    ListsSize(ids, Top(A, n));
    TopSize(A, n);
    forall x | x in C ensures x < if batch == [] then Start(cursor) else batch[|batch| - 1].rowId + 1 {
      if x in A {
        assert x in ids;
        var k :| 0 <= k < |ids| && ids[k] == x;
        assert k == |ids| - 1 || ids[k] < ids[|ids| - 1];
      } else if batch != [] {
        assert ids[|ids| - 1] in ids;
      }
    }
  }

  /** Checks every candidate of a batch. */
  method ExamineBatch(v: Versioned, batch: seq<LogicalRow>, filters: seq<Filter>, tests: seq<Test>, projection: seq<nat>, columns: seq<nat>,
                      after: Option<nat>, limit: nat, count: nat, given: seq<LogicalRow>, cursor: Option<nat>,
                      ghost C: set<nat>, ghost M: set<nat>)
    returns (r: Result<()>, hits: nat, rows: seq<LogicalRow>)
    requires v.Valid() && ValidSchema(v.schema) && DecidesAll(v.schema, filters, tests) && InSchema(v.schema, projection)
    requires M == Selected(v.schema, v.Rows(), filters) && M <= C && Covers(columns, projection, tests, v.schema)
    requires Shows(batch, v.schema, v.Rows(), Top(After(C, cursor), CANDIDATE_BATCH), columns)
    requires Gathered(M, Start(cursor), count, given, after, limit, v.schema, v.Rows(), projection)
    ensures CanonicalRows(v.schema, v.Rows()) ==> r.Ok?
    ensures r.Ok? ==> Gathered(M, BatchEnd(batch, cursor), hits, rows, after, limit, v.schema, v.Rows(), projection)
  {
    hide *;
    hits, rows := count, given;
    ghost var bound: nat := Start(cursor);
    NoBatch(batch, cursor);
    for j := 0 to |batch|
      invariant bound == BatchEnd(batch[..j], cursor)
      invariant Gathered(M, bound, hits, rows, after, limit, v.schema, v.Rows(), projection)
    {
      Candidate(v, batch, C, M, cursor, columns, filters, j);
      CoversColumns(columns, projection, tests, v.schema);
      ghost var row := v.Rows()[batch[j].rowId];
      var values := Fill(v.schema, batch[j].values, row, columns);
      FilledPasses(v.schema, values.value, row, columns, filters, tests);
      FilledShown(values.value, row, columns, projection, v.schema);
      GatheredGap(M, bound, batch[j].rowId, hits, rows, after, limit, v.schema, v.Rows(), projection);
      r, hits, rows := Examine(v, batch[j].rowId, values.value, tests, projection, after, limit, hits, rows, filters, M);
      if r.Err? {
        return;
      }
      bound := batch[j].rowId + 1;
      BatchStep(batch, cursor, j);
    }
    assert batch[..|batch|] == batch;
    return Ok(()), hits, rows;
  }

  ghost function BatchEnd(batch: seq<LogicalRow>, cursor: Option<nat>): nat {
    if batch == [] then Start(cursor) else batch[|batch| - 1].rowId + 1
  }

  lemma NoBatch(batch: seq<LogicalRow>, cursor: Option<nat>)
    ensures BatchEnd(batch[..0], cursor) == Start(cursor)
  {
  }

  lemma BatchStep(batch: seq<LogicalRow>, cursor: Option<nat>, j: nat)
    requires j < |batch|
    ensures BatchEnd(batch[..j + 1], cursor) == batch[j].rowId + 1
  {
  }

  /** The fetched columns include those shown and those filtered. */
  ghost predicate Covers(columns: seq<nat>, projection: seq<nat>, tests: seq<Test>, schema: Schema) {
    && (forall i :: 0 <= i < |columns| ==> columns[i] < |schema|)
    && (forall i :: 0 <= i < |tests| ==> tests[i].column in columns)
    && (forall i :: 0 <= i < |projection| ==> projection[i] in columns)
  }

  lemma CoversColumns(columns: seq<nat>, projection: seq<nat>, tests: seq<Test>, schema: Schema)
    requires Covers(columns, projection, tests, schema)
    ensures forall i :: 0 <= i < |columns| ==> columns[i] < |schema|
    ensures forall i :: 0 <= i < |tests| ==> tests[i].column in columns
    ensures forall i :: 0 <= i < |projection| ==> projection[i] in columns
  {
  }

  lemma FilledShown(values: Row, row: Row, columns: seq<nat>, projection: seq<nat>, schema: Schema)
    requires Fills(values, row, columns) && |row| == |schema| && InSchema(schema, projection)
    requires forall i :: 0 <= i < |projection| ==> projection[i] in columns
    ensures |values| == |row|
    ensures forall k :: 0 <= k < |projection| ==> projection[k] < |schema| && values[projection[k]] == row[projection[k]]
  {
  }

  lemma Candidate(v: Versioned, batch: seq<LogicalRow>, C: set<nat>, M: set<nat>, cursor: Option<nat>, columns: seq<nat>,
                  filters: seq<Filter>, j: nat)
    requires v.Valid() && j < |batch|
    requires M == Selected(v.schema, v.Rows(), filters) && M <= C
    requires Shows(batch, v.schema, v.Rows(), Top(After(C, cursor), CANDIDATE_BATCH), columns)
    ensures batch[j].rowId in v.Rows() && |v.Rows()[batch[j].rowId]| == |v.schema|
    ensures batch[j].values == Shown(v.schema, v.Rows()[batch[j].rowId], columns)
    ensures BatchEnd(batch[..j], cursor) <= batch[j].rowId
    ensures forall x :: BatchEnd(batch[..j], cursor) <= x < batch[j].rowId ==> x !in M
    ensures PassesAll(v.schema, v.Rows()[batch[j].rowId], filters) <==> batch[j].rowId in M
    ensures CanonicalRows(v.schema, v.Rows()) ==> CanonicalRow(v.schema, v.Rows()[batch[j].rowId])
  {
    hide *;
    ShownAll(batch, v.schema, v.Rows(), Top(After(C, cursor), CANDIDATE_BATCH), columns);
    VisibleWidth(v, batch[j].rowId);
    SelectedMeans(v.schema, v.Rows(), filters);
    BatchGap(batch, C, cursor, CANDIDATE_BATCH, j);
    if j > 0 {
      assert batch[..j][..j] == batch[..j];
      BatchStep(batch, cursor, j - 1);
    } else {
      NoBatch(batch, cursor);
    }
  }

  lemma ShownAll(batch: seq<LogicalRow>, schema: Schema, rows: map<nat, Row>, ids: set<nat>, columns: seq<nat>)
    requires Shows(batch, schema, rows, ids, columns)
    ensures Lists(RowIds(batch), ids)
    ensures forall j :: 0 <= j < |batch| ==> batch[j].rowId in rows && batch[j].values == Shown(schema, rows[batch[j].rowId], columns)
  {
  }

  /** The candidate-first route: fetches candidates batch by batch until they run out. */
  method CandidateFirst(v: Versioned, filters: seq<Filter>, tests: seq<Test>, predicates: seq<LogicalPredicate>, projection: seq<nat>,
                        after: Option<nat>, limit: nat)
    returns (r: Result<()>, hits: nat, rows: seq<LogicalRow>)
    requires v.Valid() && ValidSchema(v.schema) && DecidesAll(v.schema, filters, tests) && InSchema(v.schema, projection)
    requires WellFormed(v.schema, predicates)
    requires forall row: Row :: PassesAll(v.schema, row, filters) ==> Satisfies(v.schema, row, predicates)
    ensures CanonicalRows(v.schema, v.Rows()) ==> r.Ok?
    ensures r.Ok? ==>
              && hits == |Selected(v.schema, v.Rows(), filters)|
              && Shows(rows, v.schema, v.Rows(), Top(After(Selected(v.schema, v.Rows(), filters), after), limit), projection)
  {
    hide *;
    BatchSize();
    var columns := MaterializedColumns(projection, tests);
    FilterColumns(v.schema, filters, tests);
    MaterializedCovers(columns, projection, tests, v.schema);
    CoversColumns(columns, projection, tests, v.schema);
    var select := NamesOf(v.schema, columns);
    ghost var C, M := Matching(v.schema, v.Rows(), predicates), Selected(v.schema, v.Rows(), filters);
    CandidatesContain(v.schema, v.Rows(), predicates, filters);
    hits, rows := 0, [];
    GatheredNothing(M, after, limit, v.schema, v.Rows(), projection);
    var cursor: Option<nat> := None;
    StartsAtZero();
    while true
      invariant Gathered(M, Start(cursor), hits, rows, after, limit, v.schema, v.Rows(), projection)
      invariant Start(cursor) <= U64_MAX + 1
      decreases U64_MAX + 1 - Start(cursor)
    {
      var result, supplied := VersionedQueries.QueryValuesPageAfter(v, predicates, Some(select), cursor, CANDIDATE_BATCH);
      var batch := result.value.rows;
      ShownAll(batch, v.schema, v.Rows(), Top(After(C, cursor), CANDIDATE_BATCH), columns);
      if batch == [] {
        LastBatch(batch, C, cursor, CANDIDATE_BATCH);
        break;
      }
      r, hits, rows := ExamineBatch(v, batch, filters, tests, projection, columns, after, limit, hits, rows, cursor, C, M);
      if r.Err? {
        return;
      }
      BatchAdvances(v, batch, C, cursor);
      var last: nat := batch[|batch| - 1].rowId;
      if |batch| < CANDIDATE_BATCH {
        LastBatch(batch, C, cursor, CANDIDATE_BATCH);
        cursor := Some(last);
        break;
      }
      if cursor.Some? && last <= cursor.value {
        assert false;
      }
      cursor := Some(last);
    }
    GatheredAll(M, Start(cursor), hits, rows, after, limit, v.schema, v.Rows(), projection);
    return Ok(()), hits, rows;
  }

  lemma StartsAtZero()
    ensures Start(None) == 0 && forall x: nat :: Start(Some(x)) == x + 1
  {
  }

  lemma MaterializedCovers(columns: seq<nat>, projection: seq<nat>, tests: seq<Test>, schema: Schema)
    requires forall c :: c in columns <==> c in projection || exists i :: 0 <= i < |tests| && tests[i].column == c
    requires InSchema(schema, projection) && forall i :: 0 <= i < |tests| ==> tests[i].column < |schema|
    ensures Covers(columns, projection, tests, schema)
  {
    forall i | 0 <= i < |columns| ensures columns[i] < |schema| {
      assert columns[i] in columns;
    }
  }

  lemma CandidatesContain(schema: Schema, rows: map<nat, Row>, predicates: seq<LogicalPredicate>, filters: seq<Filter>)
    requires forall row: Row :: PassesAll(schema, row, filters) ==> Satisfies(schema, row, predicates)
    ensures Selected(schema, rows, filters) <= Matching(schema, rows, predicates) <= rows.Keys
  {
  }

  lemma BatchAdvances(v: Versioned, batch: seq<LogicalRow>, C: set<nat>, cursor: Option<nat>)
    requires v.Valid() && batch != [] && C <= v.Rows().Keys
    requires Lists(RowIds(batch), Top(After(C, cursor), CANDIDATE_BATCH))
    ensures Start(cursor) <= batch[|batch| - 1].rowId <= U64_MAX
    ensures BatchEnd(batch, cursor) == batch[|batch| - 1].rowId + 1
  {
    hide *;
    DeltaWrites.RowsBounded(v);
    DeltaWrites.VisibleRowsValid(v);
    BatchLast(batch, C, cursor, CANDIDATE_BATCH);
  }

  lemma BatchLast(batch: seq<LogicalRow>, C: set<nat>, cursor: Option<nat>, n: nat)
    requires batch != [] && Lists(RowIds(batch), Top(After(C, cursor), n))
    ensures batch[|batch| - 1].rowId in C && Start(cursor) <= batch[|batch| - 1].rowId
    ensures BatchEnd(batch, cursor) == batch[|batch| - 1].rowId + 1
  {
    var ids := RowIds(batch);
    assert ids[|ids| - 1] in ids;
  }

  lemma BatchSize()
    ensures CANDIDATE_BATCH > 0
  {
  }
}

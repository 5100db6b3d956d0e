/** One immutable dataset: dictionaries, the token engine and stable row IDs. Its answers are those of
    filtering its rows by value: predicates become tokens, the engine finds physical rows, and the row
    IDs renumber them in order. */
module LogicalDatasets {
  import opened Wrappers
  import opened RowSets
  import opened Postings
  import opened Dictionaries
  import opened RowIdMaps
  import opened Schemas
  import opened Tables
  import opened Planner
  import opened EngineQueries
  import MixedRadix

  datatype LogicalDataset = LogicalDataset(schema: Schema, dictionaries: seq<Dictionary>, engine: Engine, rowIds: RowIdMap) {
    ghost predicate ValidDictionaries() {
      && |dictionaries| == |schema| == |engine.cards|
      && forall c :: 0 <= c < |schema| ==>
           && dictionaries[c].Valid() && dictionaries[c].nullable == schema[c].nullable
           && dictionaries[c].Cardinality() == engine.cards[c]
    }

    ghost predicate Valid() {
      && ValidSchema(schema) && ValidDictionaries() && engine.Valid() && MixedRadix.Tokens(engine.Table(), engine.cards)
      && rowIds.Valid() && rowIds.Rows() == engine.rows <= U64_MAX
      && forall id :: id in rowIds.Ids() ==> id <= U64_MAX
    }

    ghost function IdSet(): (S: set<nat>)
      ensures forall id :: id in S <==> id in rowIds.Ids()
    {
      Elements(rowIds.Ids())
    }

    /** The values of a physical row. */
    ghost function RowAt(physical: nat): (row: Row)
      requires Valid() && physical < engine.rows
      ensures |row| == |schema|
    {
      TokensAt(this, physical);
      seq(|schema|, c requires 0 <= c < |schema| && Valid() && physical < engine.rows =>
        TokensAt(this, physical); dictionaries[c].Meaning(engine.Table()[physical][c]))
    }

    /** The physical row that carries an ID. */
    ghost function PositionOf(id: nat): (p: nat)
      requires Valid() && id in rowIds.Ids()
      ensures p < engine.rows && rowIds.Ids()[p] == id
    {
      var p :| 0 <= p < |rowIds.Ids()| && rowIds.Ids()[p] == id;
      p
    }

    /** What the dataset holds: a row of values for each of its IDs. */
    ghost function Content(): (rows: map<nat, Row>)
      requires Valid()
      ensures rows.Keys == IdSet()
    {
      map id | id in IdSet() :: RowAt(PositionOf(id))
    }

    lemma ContentAt(p: nat)
      requires Valid() && p < engine.rows
      ensures rowIds.Ids()[p] in Content() && Content()[rowIds.Ids()[p]] == RowAt(p)
    {
      var id := rowIds.Ids()[p];
      assert id in IdSet();
      assert PositionOf(id) == p;
    }

    /** Every row has the schema's width, and NULL only in nullable columns. */
    lemma ContentRows(id: nat)
      requires Valid() && id in Content()
      ensures ValidRow(schema, Content()[id])
    {
      var p := PositionOf(id);
      TokensAt(this, p);
      forall c | 0 <= c < |schema| && RowAt(p)[c].None? ensures schema[c].nullable {
        assert dictionaries[c].Valid();
        assert engine.Table()[p][c] < engine.cards[c];
      }
    }

    // -------------------------------------------------------------------------------- decoding

    /** The values of a physical row in some columns; an error past the end. */
    method DecodeProjection(physical: nat, projection: seq<nat>) returns (r: Result<seq<Value>>)
      requires Valid() && InSchema(schema, projection)
      ensures r.Ok? <==> physical < engine.rows
      ensures r.Ok? ==> |r.value| == |projection|
      ensures r.Ok? ==> forall k :: 0 <= k < |projection| ==> IsValueAt(this, physical, projection[k], r.value[k])
    {
      hide *;
      if physical >= engine.rows {
        return Err(InvalidInput);
      }
      var tokens := RowTokensOf(physical);
      var values: seq<Value> := [];
      for i := 0 to |projection|
        invariant |values| == i
        invariant forall k :: 0 <= k < i ==> IsValueAt(this, physical, projection[k], values[k])
      {
        DecodesAt(this, physical, projection, i, tokens);
        var decoded := dictionaries[projection[i]].Decode(tokens[projection[i]]);
        if decoded.None? {
          assert false;
        }
        values := values + [decoded.value];
      }
      return Ok(values);
    }

    /** The tokens of a row, found in the segment that holds it. */
    method RowTokensOf(physical: nat) returns (tokens: seq<nat>)
      requires Valid() && physical < engine.rows
      ensures tokens == engine.Table()[physical]
    {
      var i := 0;
      LastBoundary(engine);
      while i < |engine.segments|
        invariant 0 <= i <= |engine.segments| && Boundary(engine.segments, i) <= physical
      {
        SegmentBounds(engine, i);
        var s := engine.segments[i];
        if physical < s.rowStart + |s.rows| {
          SegmentRows(engine.segments, engine.Table(), engine.pageRows, engine.pages, i);
          return s.rows[physical - s.rowStart];
        }
        i := i + 1;
      }
      assert false;
      tokens := [];
    }

    // ------------------------------------------------------------------------------ predicates

    /** Predicates as tokens; None when a wanted text is in no dictionary. */
    method EncodedPredicates(predicates: seq<LogicalPredicate>) returns (r: Result<Option<seq<Predicate>>>)
      requires Valid()
      ensures WellFormed(schema, predicates) ==> r.Ok?
      ensures r.Ok? && r.value.None? ==> Matching(schema, Content(), predicates) == {}
      ensures r.Ok? && r.value.Some? ==> Encodes(this, predicates, r.value.value)
    {
      var out: seq<Predicate> := [];
      for i := 0 to |predicates|
        invariant |out| == i
        invariant forall k :: 0 <= k < i ==> EncodesOne(this, predicates[k], out[k])
      {
        var p := predicates[i];
        var index := ColumnIndex(schema, p.column);
        if index.None? {
          assert !WellFormedOne(schema, p);
          return Err(InvalidInput);
        }
        var c := index.value;
        assert dictionaries[c].Valid();
        if p.value.None? && !schema[c].nullable {
          assert !WellFormedOne(schema, p);
          return Err(InvalidInput);
        }
        var token := 0;
        if p.value.Some? && !IsNullLiteral(schema[c], p.value.value) {
          var found := dictionaries[c].Token(p.value.value);
          if found.None? {
            Missing(predicates, i);
            return Ok(None);
          }
          token := found.value;
        }
        out := out + [Predicate(c, token)];
      }
      return Ok(Some(out));
    }

    lemma Missing(predicates: seq<LogicalPredicate>, i: nat)
      requires Valid() && i < |predicates| && ColumnIndex(schema, predicates[i].column).Some?
      requires var c := ColumnIndex(schema, predicates[i].column).value;
               var w := Wanted(schema[c], predicates[i].value);
               |dictionaries| == |schema| && w.Some? && forall t :: 0 <= t < dictionaries[c].Cardinality() ==> dictionaries[c].Meaning(t) != w
      ensures Matching(schema, Content(), predicates) == {}
    {
      forall id | id in Content() ensures !Satisfies(schema, Content()[id], predicates) {
        var p := PositionOf(id);
        TokensAt(this, p);
        var c := ColumnIndex(schema, predicates[i].column).value;
        assert engine.Table()[p][c] < dictionaries[c].Cardinality();
        assert !SatisfiesOne(schema, Content()[id], predicates[i]);
      }
    }

    lemma RowSatisfies(predicates: seq<LogicalPredicate>, encoded: seq<Predicate>, p: nat)
      requires Valid() && Encodes(this, predicates, encoded) && p < engine.rows && p < |engine.Table()|
      ensures RowMatches(engine.Table()[p], encoded) <==> Satisfies(schema, RowAt(p), predicates)
    {
      TokensAt(this, p);
      forall i | 0 <= i < |predicates|
        ensures SatisfiesOne(schema, RowAt(p), predicates[i]) <==>
                encoded[i].column < |engine.Table()[p]| && engine.Table()[p][encoded[i].column] == encoded[i].value
      {
        assert EncodesOne(this, predicates[i], encoded[i]);
        OneMatches(this, p, predicates[i], encoded[i]);
      }
    }

    lemma MatchingRows(predicates: seq<LogicalPredicate>, encoded: seq<Predicate>)
      requires Valid() && Encodes(this, predicates, encoded)
      ensures Matching(schema, Content(), predicates) == Image(rowIds.Ids(), engine.Scan(encoded))
      ensures forall p :: p in engine.Scan(encoded) ==> p < |rowIds.Ids()|
    {
      forall p: nat | p < engine.rows
        ensures RowMatches(engine.Table()[p], encoded) <==> Satisfies(schema, RowAt(p), predicates)
      {
        RowSatisfies(predicates, encoded, p);
      }
      engine.ScanMatches(encoded);
      hide RowMatches, Satisfies, ValidDictionaries, Encodes;
      forall id: nat ensures id in Matching(schema, Content(), predicates) <==> id in Image(rowIds.Ids(), engine.Scan(encoded)) {
        if id in Content() {
          var p := PositionOf(id);
          ContentAt(p);
        }
        if id in Image(rowIds.Ids(), engine.Scan(encoded)) {
          var p :| p in engine.Scan(encoded) && p < |rowIds.Ids()| && rowIds.Ids()[p] == id;
          ContentAt(p);
        }
      }
    }

    // --------------------------------------------------------------------------------- queries

    /** The number of matching rows, and the first `limit` of them past the cursor. */
    method QueryValuesAfter(predicates: seq<LogicalPredicate>, select: Option<seq<string>>, cursor: Option<nat>, limit: nat)
      returns (r: Result<QueryResult>, projection: seq<nat>)
      requires Valid()
      ensures WellFormed(schema, predicates) && KnownColumns(schema, select) ==> r.Ok?
      ensures r.Ok? ==> Selects(schema, select, projection)
      ensures r.Ok? ==> r.value.hits == |Matching(schema, Content(), predicates)|
      ensures r.Ok? ==> Shows(r.value.rows, schema, Content(),
                          Top(After(Matching(schema, Content(), predicates), cursor), limit), projection)
    {
      hide *;
      projection := [];
      var encoded;
      r, encoded, projection := Encoded(predicates, select, cursor, limit);
      if encoded.None? {
        return;
      }
      var first := rowIds.FirstAfter(cursor);
      var physical, hits := QueryRowIdsFrom(engine, encoded.value, limit, first);
      var rows := Materialize(physical, projection, predicates, encoded.value, cursor, limit, first);
      MatchingRows(predicates, encoded.value);
      ImageTop(rowIds.Ids(), engine.Scan(encoded.value), 0);
      return Ok(QueryResult(hits, rows)), projection;
    }

    /** The page alone, off the streaming route; its hit count is the length of the page. */
    method QueryValuesPageAfter(predicates: seq<LogicalPredicate>, select: Option<seq<string>>, cursor: Option<nat>, limit: nat)
      returns (r: Result<QueryResult>, projection: seq<nat>)
      requires Valid()
      ensures WellFormed(schema, predicates) && KnownColumns(schema, select) ==> r.Ok?
      ensures r.Ok? ==> Selects(schema, select, projection)
      ensures r.Ok? ==> Shows(r.value.rows, schema, Content(),
                          Top(After(Matching(schema, Content(), predicates), cursor), limit), projection)
    {
      hide *;
      projection := [];
      var encoded;
      r, encoded, projection := Encoded(predicates, select, cursor, limit);
      if encoded.None? {
        return;
      }
      var first := rowIds.FirstAfter(cursor);
      var physical := QueryRowIdsPageFrom(engine, encoded.value, limit, first);
      var rows := Materialize(physical, projection, predicates, encoded.value, cursor, limit, first);
      return Ok(QueryResult(|rows|, rows)), projection;
    }

    /** The part both queries share: the projection and the encoded predicates, or the answer at once. */
    method Encoded(predicates: seq<LogicalPredicate>, select: Option<seq<string>>, ghost cursor: Option<nat>, ghost limit: nat)
      returns (r: Result<QueryResult>, encoded: Option<seq<Predicate>>, projection: seq<nat>)
      requires Valid()
      ensures encoded.Some? ==> Encodes(this, predicates, encoded.value)
      ensures encoded.Some? || r.Ok? ==> Selects(schema, select, projection) && InSchema(schema, projection)
      ensures encoded.None? ==>
                && (WellFormed(schema, predicates) && KnownColumns(schema, select) ==> r.Ok?)
                && (r.Ok? ==> Matching(schema, Content(), predicates) == {} && r.value == QueryResult(0, [])
                              && |Matching(schema, Content(), predicates)| == 0
                              && Shows([], schema, Content(), Top(After(Matching(schema, Content(), predicates), cursor), limit), projection))
      ensures rowIds.Valid() && engine.Valid() && rowIds.Rows() == engine.rows
    {
      projection := [];
      encoded := None;
      var projected := Projection(schema, select);
      if projected.Err? {
        return Err(InvalidInput), None, [];
      }
      projection := projected.value;
      var e := EncodedPredicates(predicates);
      if e.Err? {
        return Err(e.error), None, [];
      }
      if e.value.None? {
        return Ok(QueryResult(0, [])), None, projection;
      }
      return Err(InvalidInput), e.value, projection;
    }

    /** Physical rows as logical rows. */
    method Materialize(physical: seq<nat>, projection: seq<nat>, ghost predicates: seq<LogicalPredicate>,
                       ghost encoded: seq<Predicate>, ghost cursor: Option<nat>, ghost limit: nat, ghost first: nat)
      returns (rows: seq<LogicalRow>)
      requires Valid() && InSchema(schema, projection) && Encodes(this, predicates, encoded)
      requires Lists(physical, Top(From(engine.Scan(encoded), first), limit))
      requires rowIds.StartsAfter(cursor, first)
      ensures Shows(rows, schema, Content(), Top(After(Matching(schema, Content(), predicates), cursor), limit), projection)
    {
      hide *;
      ghost var ids := rowIds.Ids();
      PhysicalPage(physical, predicates, encoded, cursor, limit, first);
      rows := [];
      for k := 0 to |physical|
        invariant |rows| == k
        invariant forall i :: 0 <= i < k ==> rows[i] == ShownAt(this, physical[i], projection)
      {
        assert physical[k] < |ids|;
        var row := MaterializeOne(physical[k], projection);
        rows := rows + [row];
      }
      ShowsAll(rows, physical, projection);
      assert RowIds(rows) == At(ids, physical);
    }

    /** A page of physical rows is, renumbered, the page of IDs past the cursor. */
    lemma PhysicalPage(physical: seq<nat>, predicates: seq<LogicalPredicate>, encoded: seq<Predicate>, cursor: Option<nat>, limit: nat, first: nat)
      requires Valid() && Encodes(this, predicates, encoded)
      requires Lists(physical, Top(From(engine.Scan(encoded), first), limit)) && rowIds.StartsAfter(cursor, first)
      ensures |rowIds.Ids()| == engine.rows && forall i :: 0 <= i < |physical| ==> physical[i] < |rowIds.Ids()|
      ensures Lists(At(rowIds.Ids(), physical), Top(After(Matching(schema, Content(), predicates), cursor), limit))
    {
      hide *;
      MatchingRows(predicates, encoded);
      IdsAscend();
      StartsPast(rowIds, cursor, first);
      ImageAfter(rowIds.Ids(), engine.Scan(encoded), cursor, first);
      FromWithin(engine.Scan(encoded), first, limit);
      ImageTop(rowIds.Ids(), From(engine.Scan(encoded), first), limit);
      ImageLists(rowIds.Ids(), physical, Top(From(engine.Scan(encoded), first), limit));
    }

    lemma IdsAscend()
      requires Valid()
      ensures Increasing(rowIds.Ids()) && |rowIds.Ids()| == engine.rows
    {
    }

    lemma ShowsAll(rows: seq<LogicalRow>, physical: seq<nat>, projection: seq<nat>)
      requires Valid() && InSchema(schema, projection) && |rows| == |physical|
      requires forall i :: 0 <= i < |physical| ==> physical[i] < engine.rows
      requires forall i :: 0 <= i < |rows| ==> rows[i] == ShownAt(this, physical[i], projection)
      ensures ShowsValues(rows, schema, Content(), projection)
      ensures forall i :: 0 <= i < |rows| ==> rows[i].rowId == rowIds.Ids()[physical[i]]
      ensures forall S :: Lists(RowIds(rows), S) ==> Shows(rows, schema, Content(), S, projection)
    {
      forall i | 0 <= i < |rows|
        ensures rows[i].rowId in Content() && rows[i].values == Shown(schema, Content()[rows[i].rowId], projection)
      {
        ContentAt(physical[i]);
      }
    }

    method MaterializeOne(physical: nat, projection: seq<nat>) returns (row: LogicalRow)
      requires Valid() && InSchema(schema, projection) && physical < engine.rows
      ensures row == ShownAt(this, physical, projection)
    {
      hide *;
      var decoded := DecodeProjection(physical, projection);
      var values: seq<NamedValue> := [];
      for slot := 0 to |projection|
        invariant |values| == slot
        invariant forall k :: 0 <= k < slot ==> values[k] == Shown(schema, RowAt(physical), projection)[k]
      {
        NamesAt(this, physical, projection, slot, decoded.value[slot]);
        values := values + [NamedValue(schema[projection[slot]].name, decoded.value[slot])];
      }
      assert values == Shown(schema, RowAt(physical), projection);
      HasId(this, physical);
      return LogicalRow(rowIds.Logical(physical).value, values);
    }
  }

  lemma StartsPast(ids: RowIdMap, cursor: Option<nat>, at: nat)
    requires ids.StartsAfter(cursor, at)
    ensures Starts(ids.Ids(), cursor, at)
  {
  }

  lemma FromWithin(S: set<nat>, first: nat, n: nat)
    ensures forall p :: p in From(S, first) ==> p in S
    ensures forall p :: p in Top(From(S, first), n) ==> p in S
  {
  }

  ghost predicate KnownColumns(schema: Schema, select: Option<seq<string>>) {
    select.Some? ==> forall i :: 0 <= i < |select.value| ==> ColumnIndex(schema, select.value[i]).Some?
  }

  ghost predicate Selects(schema: Schema, select: Option<seq<string>>, projection: seq<nat>) {
    if select.None? then projection == Iota(|schema|) else Projects(schema, select.value, projection)
  }

  /** Columns can be selected exactly when there is a column of each name. */
  lemma KnownColumnsMeans(schema: Schema, select: Option<seq<string>>)
    requires ValidSchema(schema)
    ensures KnownColumns(schema, select) <==> (select.Some? ==> forall i :: 0 <= i < |select.value| ==> Named(schema, select.value[i]))
  {
    if select.Some? {
      forall i | 0 <= i < |select.value| ensures ColumnIndex(schema, select.value[i]).Some? <==> Named(schema, select.value[i]) {
        KnownName(schema, select.value[i]);
      }
      hide Named;
    }
  }

  /** What a row shows: the columns asked for in the order asked, or all of them, each with its value. */
  lemma SelectsMeans(schema: Schema, select: Option<seq<string>>, projection: seq<nat>, row: Row)
    requires ValidSchema(schema) && |row| == |schema| && Selects(schema, select, projection)
    ensures var shown := Shown(schema, row, projection);
            && (select.None? ==> |shown| == |schema| && forall c :: 0 <= c < |schema| ==> shown[c] == NamedValue(schema[c].name, row[c]))
            && (select.Some? ==> |shown| == |select.value| && forall i :: 0 <= i < |shown| ==> shown[i].column == select.value[i])
            && forall i, c :: 0 <= i < |shown| && 0 <= c < |schema| && schema[c].name == shown[i].column ==> shown[i].value == row[c]
  {
    var shown := Shown(schema, row, projection);
    if select.Some? {
      forall i | 0 <= i < |shown| ensures ColumnIndex(schema, select.value[i]) == Some(projection[i]) && shown[i].column == select.value[i] {
      }
    }
    forall i, c | 0 <= i < |shown| && 0 <= c < |schema| && schema[c].name == shown[i].column ensures shown[i].value == row[c] {
      assert projection[i] < |schema|;
      IndexOfName(schema, c);
      IndexOfName(schema, projection[i]);
    }
  }

  ghost function ShownAt(d: LogicalDataset, physical: nat, projection: seq<nat>): LogicalRow
    requires d.Valid() && physical < d.engine.rows
  {
    LogicalRow(d.rowIds.Ids()[physical], Shown(d.schema, d.RowAt(physical), projection))
  }

  lemma TokensAt(d: LogicalDataset, physical: nat)
    requires d.Valid() && physical < d.engine.rows
    ensures |d.engine.Table()| == d.engine.rows
    ensures |d.engine.Table()[physical]| == |d.schema|
    ensures forall c :: 0 <= c < |d.schema| ==> d.engine.Table()[physical][c] < d.engine.cards[c]
  {
    assert MixedRadix.RowTokens(d.engine.Table()[physical], d.engine.cards);
  }

  ghost predicate IsValueAt(d: LogicalDataset, physical: nat, c: nat, v: Value)
    requires d.Valid()
  {
    physical < d.engine.rows && c < |d.schema| && v == d.RowAt(physical)[c]
  }

  lemma DecodesAt(d: LogicalDataset, physical: nat, projection: seq<nat>, i: nat, tokens: seq<nat>)
    requires d.Valid() && physical < d.engine.rows && InSchema(d.schema, projection) && i < |projection|
    requires tokens == d.engine.Table()[physical]
    ensures projection[i] < |d.schema| && projection[i] < |d.dictionaries| && projection[i] < |tokens|
    ensures var r := d.dictionaries[projection[i]].Decode(tokens[projection[i]]);
            r.Some? && IsValueAt(d, physical, projection[i], r.value)
  {
    TokensAt(d, physical);
    var c := projection[i];
    assert c < |d.schema| && d.dictionaries[c].Valid();
    d.dictionaries[c].DecodeDefined(tokens[c]);
  }

  lemma NamesAt(d: LogicalDataset, physical: nat, projection: seq<nat>, i: nat, v: Value)
    requires d.Valid() && InSchema(d.schema, projection) && i < |projection| && IsValueAt(d, physical, projection[i], v)
    ensures projection[i] < |d.schema| && physical < d.engine.rows
    ensures Shown(d.schema, d.RowAt(physical), projection)[i] == NamedValue(d.schema[projection[i]].name, v)
  {
  }

  lemma HasId(d: LogicalDataset, physical: nat)
    requires d.Valid() && physical < d.engine.rows
    ensures d.rowIds.Logical(physical).Some?
    ensures forall projection :: ShownAt(d, physical, projection).rowId == d.rowIds.Logical(physical).value
    ensures forall projection :: ShownAt(d, physical, projection).values == Shown(d.schema, d.RowAt(physical), projection)
  {
  }

  /** A token predicate asks for what the value predicate asks for. */
  ghost predicate EncodesOne(d: LogicalDataset, p: LogicalPredicate, e: Predicate)
    requires d.ValidDictionaries()
  {
    && ColumnIndex(d.schema, p.column) == Some(e.column)
    && e.value < d.dictionaries[e.column].Cardinality()
    && d.dictionaries[e.column].Meaning(e.value) == Wanted(d.schema[e.column], p.value)
  }

  ghost predicate Encodes(d: LogicalDataset, predicates: seq<LogicalPredicate>, encoded: seq<Predicate>)
    requires d.Valid()
  {
    && |encoded| == |predicates|
    && forall i :: 0 <= i < |predicates| ==> EncodesOne(d, predicates[i], encoded[i])
  }

  lemma OneMatches(d: LogicalDataset, physical: nat, p: LogicalPredicate, e: Predicate)
    requires d.Valid() && physical < d.engine.rows && EncodesOne(d, p, e)
    ensures |d.engine.Table()| == d.engine.rows && e.column < |d.engine.Table()[physical]|
    ensures SatisfiesOne(d.schema, d.RowAt(physical), p) <==> d.engine.Table()[physical][e.column] == e.value
  {
    TokensAt(d, physical);
    var c := e.column;
    assert d.dictionaries[c].Valid();
    if d.dictionaries[c].Meaning(d.engine.Table()[physical][c]) == d.dictionaries[c].Meaning(e.value) {
      d.dictionaries[c].MeaningInjective(d.engine.Table()[physical][c], e.value);
    }
  }
}

/** Range decomposition: a short integer range is answered as a merge of equality streams, one for each
    integer, by their least unread rows. The streams are disjoint and cover the range unless the decimal
    text of an integer is a null literal of the column. */
module RangeRoute {
  import opened Wrappers
  import opened RowSets
  import opened Schemas
  import opened LogicalDatasets
  import opened VersionedDatasets
  import VersionedQueries
  import opened QueryFilters
  import opened QueryRoutes
  import opened Decimals
  import opened StreamMerges

  const MAX_EXACT_RANGE_VALUES: nat := 256

  /** A single range test, closed, of at most 256 integers. */
  predicate ShortRange(schema: Schema, tests: seq<Test>) {
    && |tests| == 1 && tests[0].RangeTest? && tests[0].gte.Some? && tests[0].lte.Some?
    && tests[0].column < |schema| && Numeric(schema[tests[0].column].kind)
    && var kind := schema[tests[0].column].kind;
       var lo, hi := Parse(kind, tests[0].gte.value), Parse(kind, tests[0].lte.value);
    lo.Some? && hi.Some? && 0 <= hi.value - lo.value < MAX_EXACT_RANGE_VALUES
  }

  /** The texts of a single closed integer range of at most 256 values. */
  method BoundedIntegerRangeValues(tests: seq<Test>, schema: Schema) returns (r: Option<(nat, seq<string>)>)
    requires forall i :: 0 <= i < |tests| ==> tests[i].column < |schema|
    ensures r.Some? <==> ShortRange(schema, tests)
    ensures r.Some? ==>
              && |tests| == 1 && tests[0].RangeTest? && tests[0].column == r.value.0 && tests[0].gte.Some? && tests[0].lte.Some?
              && Spells(schema[r.value.0].kind, tests[0].gte.value, tests[0].lte.value, r.value.1)
              && |r.value.1| <= MAX_EXACT_RANGE_VALUES
  {
    if |tests| != 1 || !tests[0].RangeTest? || tests[0].gte.None? || tests[0].lte.None? {
      return None;
    }
    var column := tests[0].column;
    var kind := schema[column].kind;
    if !Numeric(kind) {
      return None;
    }
    var lo, hi := Parse(kind, tests[0].gte.value), Parse(kind, tests[0].lte.value);
    hide Parse, IntText;
    if lo.None? || hi.None? || hi.value < lo.value || hi.value - lo.value + 1 > MAX_EXACT_RANGE_VALUES {
      return None;
    }
    var width := hi.value - lo.value + 1;
    var values: seq<string> := [];
    for offset := 0 to width
      invariant |values| == offset && forall k :: 0 <= k < offset ==> values[k] == IntText(lo.value + k)
    {
      values := values + [IntText(lo.value + offset)];
    }
    return Some((column, values));
  }

  /** The texts spell the integers from one bound to the other. */
  ghost predicate Spells(kind: Kind, gte: string, lte: string, values: seq<string>) {
    && Parse(kind, gte).Some? && Parse(kind, lte).Some?
    && |values| == Parse(kind, lte).value - Parse(kind, gte).value + 1
    && forall k :: 0 <= k < |values| ==> values[k] == IntText(Parse(kind, gte).value + k)
  }

  // ----------------------------------------------------------------------------------- streams

  /** The rows an equality stream finds for one text. */
  ghost function Stream(schema: Schema, rows: map<nat, Row>, c: nat, value: string): set<nat>
    requires c < |schema|
  {
    Matching(schema, rows, [LogicalPredicate(schema[c].name, Some(value))])
  }

  lemma StreamIs(schema: Schema, rows: map<nat, Row>, c: nat, value: string)
    requires ValidSchema(schema) && c < |schema|
    ensures WellFormed(schema, [LogicalPredicate(schema[c].name, Some(value))])
    ensures forall id :: id in Stream(schema, rows, c, value) <==>
              id in rows && c < |rows[id]| && rows[id][c] == Wanted(schema[c], Some(value))
  {
    var p := LogicalPredicate(schema[c].name, Some(value));
    IndexOfName(schema, c);
    forall id ensures id in Stream(schema, rows, c, value) <==> id in rows && c < |rows[id]| && rows[id][c] == Wanted(schema[c], Some(value)) {
      if id in rows {
        assert Satisfies(schema, rows[id], [p]) <==> SatisfiesOne(schema, rows[id], [p][0]);
      }
    }
  }

  /** The hits of the first n streams, added up. */
  ghost function StreamHits(schema: Schema, rows: map<nat, Row>, c: nat, values: seq<string>, n: nat): nat
    requires c < |schema| && n <= |values|
  {
    if n == 0 then 0 else StreamHits(schema, rows, c, values, n - 1) + |Stream(schema, rows, c, values[n - 1])|
  }

  /** Each text of the range reads back as its integer. */
  lemma SpelledAt(kind: Kind, gte: string, lte: string, values: seq<string>, k: nat)
    requires Spells(kind, gte, lte, values) && k < |values|
    ensures Parse(kind, gte).Some? && Parse(kind, values[k]) == Some(Parse(kind, gte).value + k)
    ensures values[k] == IntText(Parse(kind, gte).value + k)
    ensures InRange(kind, Parse(kind, gte).value)
  {
    hide *;
    SpelledCount(kind, gte, lte, values);
    ParsedInRange(kind, gte);
    ParsedInRange(kind, lte);
    RangeBetween(kind, Parse(kind, gte).value, Parse(kind, lte).value, k);
    SpelledText(kind, gte, lte, values, k);
    TextReads(kind, Parse(kind, gte).value + k);
  }

  lemma SpelledText(kind: Kind, gte: string, lte: string, values: seq<string>, k: nat)
    requires Spells(kind, gte, lte, values) && k < |values| && Parse(kind, gte).Some?
    ensures values[k] == IntText(Parse(kind, gte).value + k)
  {
    hide Parse, IntText;
  }

  lemma RangeBetween(kind: Kind, lo: int, hi: int, k: nat)
    requires InRange(kind, lo) && InRange(kind, hi)
    ensures lo + k <= hi ==> InRange(kind, lo + k)
  {
  }

  /** No text occurs twice. */
  lemma TextsDistinct(kind: Kind, gte: string, lte: string, values: seq<string>, i: nat, j: nat)
    requires Spells(kind, gte, lte, values) && i < j < |values|
    ensures values[i] != values[j]
  {
    hide *;
    SpelledAt(kind, gte, lte, values, i);
    SpelledAt(kind, gte, lte, values, j);
  }

  lemma ParsedInRange(kind: Kind, s: string)
    requires Parse(kind, s).Some?
    ensures InRange(kind, Parse(kind, s).value)
  {
  }

  /** A range test, in terms of the integer a value denotes. */
  lemma PassesRange(schema: Schema, row: Row, f: Filter, t: Test)
    requires Decides(schema, f, t) && t.RangeTest? && t.gte.Some? && t.lte.Some? && t.column < |schema| == |row|
    ensures var kind, value := schema[t.column].kind, row[t.column];
            && Numeric(kind) && Parse(kind, t.gte.value).Some? && Parse(kind, t.lte.value).Some?
            && (Passes(schema, row, f) <==>
                  && value.Some? && Parse(kind, value.value).Some?
                  && Parse(kind, t.gte.value).value <= Parse(kind, value.value).value <= Parse(kind, t.lte.value).value)
  {
    hide Parse, IntText;
  }

  lemma CanonicalText(schema: Schema, row: Row, c: nat)
    requires CanonicalRow(schema, row) && c < |schema| && Numeric(schema[c].kind)
    ensures c < |row| && |row| == |schema|
    ensures row[c].Some? ==>
              var n := Parse(schema[c].kind, row[c].value);
              n.Some? && row[c].value == IntText(n.value)
  {
    hide Parse, IntText;
    assert CanonicalValue(schema[c].kind, row[c]);
  }

  /** A canonical row passes a range when its text is one of those the range spells. */
  lemma TextInRange(schema: Schema, row: Row, f: Filter, t: Test, values: seq<string>)
    requires Decides(schema, f, t) && t.RangeTest? && t.gte.Some? && t.lte.Some? && CanonicalRow(schema, row)
    requires t.column < |schema| && Spells(schema[t.column].kind, t.gte.value, t.lte.value, values)
    ensures t.column < |row|
    ensures Passes(schema, row, f) <==> row[t.column].Some? && row[t.column].value in values
  {
    hide *;
    var kind, c := schema[t.column].kind, t.column;
    WidthOf(schema, row);
    PassesRange(schema, row, f, t);
    CanonicalText(schema, row, c);
    SpelledCount(kind, t.gte.value, t.lte.value, values);
    if Passes(schema, row, f) {
      var k: nat := Parse(kind, row[c].value).value - Parse(kind, t.gte.value).value;
      SpelledAt(kind, t.gte.value, t.lte.value, values, k);
      assert values[k] == row[c].value;
    }
    if row[c].Some? && row[c].value in values {
      var k: nat :| k < |values| && values[k] == row[c].value;
      SpelledAt(kind, t.gte.value, t.lte.value, values, k);
    }
  }

  lemma WidthOf(schema: Schema, row: Row)
    requires CanonicalRow(schema, row)
    ensures |row| == |schema|
  {
  }

  lemma SpelledCount(kind: Kind, gte: string, lte: string, values: seq<string>)
    requires Spells(kind, gte, lte, values)
    ensures Parse(kind, gte).Some? && Parse(kind, lte).Some?
    ensures |values| == Parse(kind, lte).value - Parse(kind, gte).value + 1
  {
  }

  // ----------------------------------------------------------------------------------- merging

  /** The least unread row of a stream; none when all are read. */
  ghost predicate HeadOf(head: Option<LogicalRow>, unread: set<nat>) {
    && (head.None? ==> unread == {})
    && (head.Some? ==> head.value.rowId in unread && forall x :: x in unread ==> head.value.rowId <= x)
  }

  /** The heap holds the heads' IDs and stream numbers. */
  ghost predicate HeapOf(heap: set<(nat, nat)>, heads: seq<Option<LogicalRow>>) {
    forall id: nat, i: nat :: (id, i) in heap <==> i < |heads| && heads[i].Some? && heads[i].value.rowId == id
  }

  predicate PairLess(a: (nat, nat), b: (nat, nat)) {
    a.0 < b.0 || (a.0 == b.0 && a.1 < b.1)
  }

  method PopLeast(heap: set<(nat, nat)>) returns (least: (nat, nat))
    requires heap != {}
    ensures least in heap && forall p :: p in heap ==> least.0 <= p.0
  {
    least :| least in heap;
    var rest := heap - {least};
    while rest != {}
      invariant rest <= heap && least in heap
      invariant forall p :: p in heap && p !in rest ==> least.0 <= p.0
      decreases |rest|
    {
      var p :| p in rest;
      if PairLess(p, least) {
        least := p;
      }
      rest := rest - {p};
    }
  }

  lemma HeadInHeap(heap: set<(nat, nat)>, heads: seq<Option<LogicalRow>>, j: nat)
    requires HeapOf(heap, heads) && j < |heads|
    ensures heads[j].Some? ==> (heads[j].value.rowId, j) in heap
  {
  }

  /** A page of one row is the head of the stream. */
  lemma FirstRow(page: seq<LogicalRow>, S: set<nat>)
    requires Lists(RowIds(page), Top(S, 1))
    ensures |page| <= 1
    ensures HeadOf(if page == [] then None else Some(page[0]), S)
  {
    ListsSize(RowIds(page), Top(S, 1));
    TopSize(S, 1);
    if page != [] {
      assert RowIds(page)[0] in RowIds(page);
      forall x | x in S ensures page[0].rowId <= x {
        if x < page[0].rowId {
          RankStrict(S, x, page[0].rowId);
        }
      }
    }
  }

  /** Reading a stream on past its head. */
  lemma ReadOn(S: set<nat>, after: Option<nat>, id: nat)
    requires id in After(S, after)
    ensures From(After(S, after), id + 1) == After(S, Some(id))
  {
  }

  lemma HeapWithout(heap: set<(nat, nat)>, heads: seq<Option<LogicalRow>>, id: nat, i: nat, next: Option<LogicalRow>)
    requires HeapOf(heap, heads) && i < |heads| && heads[i].Some? && heads[i].value.rowId == id
    ensures HeapOf(if next.Some? then heap - {(id, i)} + {(next.value.rowId, i)} else heap - {(id, i)}, heads[i := next])
  {
    var h := if next.Some? then heap - {(id, i)} + {(next.value.rowId, i)} else heap - {(id, i)};
    forall x: nat, j: nat
      ensures (x, j) in h <==> j < |heads| && heads[i := next][j].Some? && heads[i := next][j].value.rowId == x
    {
      assert (x, j) in heap <==> j < |heads| && heads[j].Some? && heads[j].value.rowId == x;
    }
  }

  lemma HeapWith(heap: set<(nat, nat)>, heads: seq<Option<LogicalRow>>, next: Option<LogicalRow>)
    requires HeapOf(heap, heads)
    ensures HeapOf(if next.Some? then heap + {(next.value.rowId, |heads|)} else heap, heads + [next])
  {
    forall x: nat, j: nat
      ensures (x, j) in (if next.Some? then heap + {(next.value.rowId, |heads|)} else heap) <==>
              j < |heads + [next]| && (heads + [next])[j].Some? && (heads + [next])[j].value.rowId == x
    {
      assert (x, j) in heap <==> j < |heads| && heads[j].Some? && heads[j].value.rowId == x;
    }
  }

  // ------------------------------------------------------------------------------------ the route

  /** The streams of a range, past the cursor. */
  ghost function Streams(schema: Schema, rows: map<nat, Row>, c: nat, values: seq<string>, after: Option<nat>): (s: seq<set<nat>>)
    requires c < |schema|
    ensures |s| == |values| && forall k :: 0 <= k < |s| ==> s[k] == After(Stream(schema, rows, c, values[k]), after)
  {
    seq(|values|, k requires 0 <= k < |values| => After(Stream(schema, rows, c, values[k]), after))
  }

  /** A head as the result shows it. */
  ghost predicate ShownHead(head: Option<LogicalRow>, schema: Schema, rows: map<nat, Row>, projection: seq<nat>) {
    head.Some? ==> head.value.rowId in rows && head.value.values == Shown(schema, rows[head.value.rowId], projection)
  }

  /** One stream's next row past a cursor, and its hit count. */
  method NextOfStream(v: Versioned, c: nat, value: string, select: Option<seq<string>>, cursor: Option<nat>, ghost projection: seq<nat>)
    returns (head: Option<LogicalRow>, hits: nat)
    requires v.Valid() && ValidSchema(v.schema) && c < |v.schema| && KnownColumns(v.schema, select)
    requires forall p :: Selects(v.schema, select, p) ==> p == projection
    ensures HeadOf(head, After(Stream(v.schema, v.Rows(), c, value), cursor))
    ensures ShownHead(head, v.schema, v.Rows(), projection)
    ensures hits == |Stream(v.schema, v.Rows(), c, value)|
  {
    hide *;
    StreamIs(v.schema, v.Rows(), c, value);
    StreamDefined(v.schema, v.Rows(), c, value);
    var predicates := [LogicalPredicate(v.schema[c].name, Some(value))];
    var result, shown := VersionedQueries.QueryValuesAfter(v, predicates, select, cursor, 1);
    var page := result.value.rows;
    ghost var S := Stream(v.schema, v.Rows(), c, value);
    ShowsParts(page, v.schema, v.Rows(), Top(After(S, cursor), 1), projection);
    FirstRow(page, After(S, cursor));
    head := if page == [] then None else Some(page[0]);
    hits := result.value.hits;
  }

  lemma StreamDefined(schema: Schema, rows: map<nat, Row>, c: nat, value: string)
    requires c < |schema|
    ensures Stream(schema, rows, c, value) == Matching(schema, rows, [LogicalPredicate(schema[c].name, Some(value))])
  {
  }

  lemma ShowsParts(page: seq<LogicalRow>, schema: Schema, rows: map<nat, Row>, ids: set<nat>, projection: seq<nat>)
    requires Shows(page, schema, rows, ids, projection)
    ensures Lists(RowIds(page), ids)
    ensures page == [] ==> ShownHead(None, schema, rows, projection)
    ensures page != [] ==> ShownHead(Some(page[0]), schema, rows, projection)
  {
  }

  /** Merges the streams of a range by row ID, one head a stream. */
  method RangeMerge(v: Versioned, c: nat, values: seq<string>, select: Option<seq<string>>, projection: seq<nat>, after: Option<nat>, limit: nat)
    returns (hits: nat, rows: seq<LogicalRow>)
    requires v.Valid() && ValidSchema(v.schema) && c < |v.schema| && KnownColumns(v.schema, select)
    requires Selects(v.schema, select, projection)
    ensures hits == Min(StreamHits(v.schema, v.Rows(), c, values, |values|), U64_MAX)
    ensures Merges(RowIds(rows), Streams(v.schema, v.Rows(), c, values, after), limit)
    ensures ShowsValues(rows, v.schema, v.Rows(), projection) && |rows| <= limit && Ahead(rows, v.Rows(), after)
  {
    hide *;
    ghost var streams := Streams(v.schema, v.Rows(), c, values, after);
    SelectsOne(v.schema, select, projection);
    var heads: seq<Option<LogicalRow>>, heap: set<(nat, nat)> := [], {};
    hits := 0;
    NoHeads(v.schema, v.Rows(), c, values, heads);
    for k := 0 to |values|
      invariant |heads| == k && HeapOf(heap, heads)
      invariant forall i :: 0 <= i < k ==> HeadOf(heads[i], streams[i]) && ShownHead(heads[i], v.schema, v.Rows(), projection)
      invariant hits == Min(StreamHits(v.schema, v.Rows(), c, values, k), U64_MAX)
    {
      var head, found := NextOfStream(v, c, values[k], select, after, projection);
      HeapWith(heap, heads, head);
      MoreHits(v.schema, v.Rows(), c, values, k, hits);
      hits := SaturatingAdd(hits, found);
      if head.Some? {
        heap := heap + {(head.value.rowId, k)};
      }
      heads := heads + [head];
    }
    rows := MergeHeads(v, c, values, select, projection, after, limit, heads, heap, streams);
    MergedAhead(rows, v.schema, v.Rows(), c, values, after, limit, projection);
  }

  lemma MergedAhead(rows: seq<LogicalRow>, schema: Schema, visible: map<nat, Row>, c: nat, values: seq<string>, after: Option<nat>, limit: nat,
                    projection: seq<nat>)
    requires c < |schema| && Merges(RowIds(rows), Streams(schema, visible, c, values, after), limit)
    requires ShowsValues(rows, schema, visible, projection)
    ensures |rows| <= limit && Ahead(rows, visible, after)
  {
    var streams := Streams(schema, visible, c, values, after);
    forall i | 0 <= i < |rows| ensures Past(after, rows[i].rowId) {
      assert InSome(streams, RowIds(rows)[i]);
      var k :| 0 <= k < |streams| && RowIds(rows)[i] in streams[k];
    }
  }

  lemma SelectsOne(schema: Schema, select: Option<seq<string>>, projection: seq<nat>)
    requires Selects(schema, select, projection)
    ensures forall p :: Selects(schema, select, p) ==> p == projection
  {
    forall p | Selects(schema, select, p) ensures p == projection {
      if select.Some? {
        forall i | 0 <= i < |p| ensures p[i] == projection[i] {
          assert ColumnIndex(schema, select.value[i]) == Some(p[i]);
          assert ColumnIndex(schema, select.value[i]) == Some(projection[i]);
        }
      }
    }
  }

  lemma NoHeads(schema: Schema, rows: map<nat, Row>, c: nat, values: seq<string>, heads: seq<Option<LogicalRow>>)
    requires c < |schema| && heads == []
    ensures HeapOf({}, heads) && 0 == Min(StreamHits(schema, rows, c, values, 0), U64_MAX)
  {
  }

  lemma MoreHits(schema: Schema, rows: map<nat, Row>, c: nat, values: seq<string>, k: nat, hits: nat)
    requires c < |schema| && k < |values| && hits == Min(StreamHits(schema, rows, c, values, k), U64_MAX)
    ensures SaturatingAdd(hits, |Stream(schema, rows, c, values[k])|) == Min(StreamHits(schema, rows, c, values, k + 1), U64_MAX)
  {
  }

  /** Pops the least head, shows it and reads its stream on, until the page is full or nothing is left. */
  method MergeHeads(v: Versioned, c: nat, values: seq<string>, select: Option<seq<string>>, projection: seq<nat>, after: Option<nat>, limit: nat,
                    given: seq<Option<LogicalRow>>, givenHeap: set<(nat, nat)>, ghost streams: seq<set<nat>>)
    returns (rows: seq<LogicalRow>)
    requires v.Valid() && ValidSchema(v.schema) && c < |v.schema| && KnownColumns(v.schema, select)
    requires forall p :: Selects(v.schema, select, p) ==> p == projection
    requires streams == Streams(v.schema, v.Rows(), c, values, after)
    requires |given| == |values| && HeapOf(givenHeap, given)
    requires forall i :: 0 <= i < |given| ==> HeadOf(given[i], streams[i]) && ShownHead(given[i], v.schema, v.Rows(), projection)
    ensures Merges(RowIds(rows), streams, limit) && ShowsValues(rows, v.schema, v.Rows(), projection)
  {
    hide *;
    var heads, heap := given, givenHeap;
    rows := [];
    ghost var from: seq<nat>, pos: seq<nat> := [], seq(|streams|, _ => 0);
    MergeStart(v, projection, heads, streams, pos);
    while |rows| < limit
      invariant |heads| == |values| == |streams| && HeapOf(heap, heads) && |rows| <= limit
      invariant forall i :: 0 <= i < |heads| ==> ShownHead(heads[i], v.schema, v.Rows(), projection)
      invariant Heads(heads, streams, pos) && Reading(RowIds(rows), from, streams, pos)
      invariant ShowsValues(rows, v.schema, v.Rows(), projection)
      decreases limit - |rows|
    {
      if heap == {} {
        NothingUnread(heads, heap, streams, pos);
        ReadDone(RowIds(rows), from, streams, pos, limit);
        return;
      }
      var least := PopLeast(heap);
      PoppedHead(heap, heads, least);
      LeastUnread(heads, heap, streams, pos, least);
      var id, stream := least.0, least.1;
      var row := heads[stream].value;
      ReadNext(RowIds(rows), from, streams, pos, id, stream);
      ShowsMore(rows, v.schema, v.Rows(), projection, row);
      rows := rows + [row];
      from := from + [stream];
      ghost var read := pos;
      pos := pos[stream := id + 1];
      if |rows| >= limit {
        break;
      }
      var next, hits := NextOfStream(v, c, values[stream], select, Some(id), projection);
      HeapWithout(heap, heads, id, stream, next);
      ReadOn(Stream(v.schema, v.Rows(), c, values[stream]), after, id);
      HeadsMove(heads, streams, read, id, stream, next);
      heap := if next.Some? then heap - {(id, stream)} + {(next.value.rowId, stream)} else heap - {(id, stream)};
      heads := heads[stream := next];
    }
    ReadDone(RowIds(rows), from, streams, pos, limit);
  }

  /** Each head is the least row of its stream from the position read up to. */
  ghost predicate Heads(heads: seq<Option<LogicalRow>>, streams: seq<set<nat>>, pos: seq<nat>) {
    && |heads| == |streams| == |pos|
    && forall i :: 0 <= i < |heads| ==> HeadOf(heads[i], From(streams[i], pos[i]))
  }

  lemma MergeStart(v: Versioned, projection: seq<nat>, heads: seq<Option<LogicalRow>>, streams: seq<set<nat>>, pos: seq<nat>)
    requires v.ValidLayers() && |heads| == |streams| == |pos| && forall i :: 0 <= i < |heads| ==> HeadOf(heads[i], streams[i]) && pos[i] == 0
    ensures Heads(heads, streams, pos) && Reading(RowIds([]), [], streams, pos) && ShowsValues([], v.schema, v.Rows(), projection)
  {
    assert RowIds([]) == [];
    ReadNothing(streams, pos);
    forall i | 0 <= i < |heads| ensures HeadOf(heads[i], From(streams[i], pos[i])) {
      assert From(streams[i], 0) == streams[i];
    }
  }

  lemma NothingUnread(heads: seq<Option<LogicalRow>>, heap: set<(nat, nat)>, streams: seq<set<nat>>, pos: seq<nat>)
    requires Heads(heads, streams, pos) && heap == {} && HeapOf(heap, heads)
    ensures forall s :: 0 <= s < |streams| ==> From(streams[s], pos[s]) == {}
  {
    forall s | 0 <= s < |streams| ensures From(streams[s], pos[s]) == {} {
      assert HeadOf(heads[s], From(streams[s], pos[s]));
      HeadInHeap(heap, heads, s);
    }
  }

  /** The heap's least entry is the least unread row of all. */
  lemma LeastUnread(heads: seq<Option<LogicalRow>>, heap: set<(nat, nat)>, streams: seq<set<nat>>, pos: seq<nat>, least: (nat, nat))
    requires Heads(heads, streams, pos) && HeapOf(heap, heads) && least in heap && forall p :: p in heap ==> least.0 <= p.0
    requires least.1 < |heads| && heads[least.1].Some? && heads[least.1].value.rowId == least.0
    ensures |heads| == |streams| == |pos| && least.0 in streams[least.1] && pos[least.1] <= least.0
    ensures forall t, x :: 0 <= t < |streams| && x in From(streams[t], pos[t]) ==> least.0 <= x
  {
    assert HeadOf(heads[least.1], From(streams[least.1], pos[least.1]));
    forall t, x | 0 <= t < |streams| && x in From(streams[t], pos[t]) ensures least.0 <= x {
      assert HeadOf(heads[t], From(streams[t], pos[t]));
      HeadInHeap(heap, heads, t);
    }
  }

  lemma HeadsMove(heads: seq<Option<LogicalRow>>, streams: seq<set<nat>>, pos: seq<nat>, id: nat, i: nat, next: Option<LogicalRow>)
    requires Heads(heads, streams, pos) && i < |heads| && HeadOf(next, From(streams[i], id + 1))
    ensures Heads(heads[i := next], streams, pos[i := id + 1])
  {
  }

  lemma ShowsMore(rows: seq<LogicalRow>, schema: Schema, visible: map<nat, Row>, projection: seq<nat>, row: LogicalRow)
    requires ShowsValues(rows, schema, visible, projection) && ShownHead(Some(row), schema, visible, projection)
    ensures ShowsValues(rows + [row], schema, visible, projection) && RowIds(rows + [row]) == RowIds(rows) + [row.rowId]
  {
    assert RowIds(rows + [row]) == RowIds(rows) + [row.rowId];
  }

  lemma PoppedHead(heap: set<(nat, nat)>, heads: seq<Option<LogicalRow>>, p: (nat, nat))
    requires HeapOf(heap, heads) && p in heap
    ensures p.1 < |heads| && heads[p.1].Some? && heads[p.1].value.rowId == p.0
  {
    assert (p.0, p.1) in heap;
  }
}

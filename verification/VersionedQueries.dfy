/** Equality queries over a versioned dataset. Each layer is asked for more rows than wanted, by as many
    as the visibility map hides in it; hidden hits are subtracted, hidden rows dropped, and the layers'
    rows sorted and cut. The answer is the page and the hit count of the one map of visible rows. */
module VersionedQueries {
  import opened Wrappers
  import opened RowSets
  import opened Dictionaries
  import opened Schemas
  import opened LogicalDatasets
  import opened VisibilityMaps
  import opened SchemaUnions
  import opened Overlays
  import opened VersionedDatasets

  /** Whether a row of the union schema satisfies the predicates. */
  method ValuesMatch(schema: Schema, values: Row, predicates: seq<LogicalPredicate>) returns (r: Result<bool>)
    ensures WellFormed(schema, predicates) ==> r.Ok?
    ensures r.Ok? ==> (r.value <==> Satisfies(schema, values, predicates))
  {
    for i := 0 to |predicates|
      invariant forall k :: 0 <= k < i ==> SatisfiesOne(schema, values, predicates[k])
    {
      var p := predicates[i];
      var column := ColumnIndex(schema, p.column);
      if column.None? {
        assert !WellFormedOne(schema, p);
        return Err(InvalidInput);
      }
      var c := column.value;
      if p.value.None? && !schema[c].nullable {
        assert !WellFormedOne(schema, p);
        return Err(InvalidInput);
      }
      if c >= |values| || values[c] != Wanted(schema[c], p.value) {
        assert !SatisfiesOne(schema, values, p);
        return Ok(false);
      }
    }
    return Ok(true);
  }

  // ---------------------------------------------------------------------------- hidden rows

  /** The layer's rows that an override takes elsewhere. */
  ghost function HiddenIn(s: Stack, i: nat): set<nat>
    requires |s.held| == |s.numbers| && i < |s.held|
  {
    set id | id in s.held[i] && !ShowsIn(s.over, id, s.numbers[i])
  }

  /** The part of them found among the first n overrides. */
  ghost function HiddenUpTo(s: Stack, i: nat, entries: seq<Override>, n: nat): set<nat>
    requires |s.held| == |s.numbers| && i < |s.held| && n <= |entries|
  {
    set k | 0 <= k < n && entries[k].rowId in HiddenIn(s, i) :: entries[k].rowId
  }

  ghost function Satisfying(schema: Schema, rows: map<nat, Row>, ids: set<nat>, predicates: seq<LogicalPredicate>): (out: set<nat>)
    ensures out <= ids
  {
    set id | id in ids && id in rows && Satisfies(schema, rows[id], predicates)
  }

  ghost predicate Distinct(entries: seq<Override>) {
    forall i, j :: 0 <= i < j < |entries| ==> entries[i].rowId != entries[j].rowId
  }

  /** Among the first n overrides: the hidden rows of the layer, and the matches among them. */
  ghost predicate Counted(s: Stack, i: nat, schema: Schema, predicates: seq<LogicalPredicate>, entries: seq<Override>,
                          n: nat, hits: nat, hidden: nat)
    requires |s.held| == |s.numbers| && i < |s.held|
  {
    && n <= |entries| && Distinct(entries)
    && hidden == |HiddenUpTo(s, i, entries, n)|
    && hits == |Satisfying(schema, s.held[i], HiddenUpTo(s, i, entries, n), predicates)|
  }

  lemma CountStart(v: Versioned, i: nat, predicates: seq<LogicalPredicate>)
    requires v.ValidLayers() && i < |v.layers|
    ensures Counted(v.View(), i, v.schema, predicates, v.visibility.entries, 0, 0, 0)
  {
    assert HiddenUpTo(v.View(), i, v.visibility.entries, 0) == {};
  }

  lemma CountSame(s: Stack, i: nat, schema: Schema, predicates: seq<LogicalPredicate>, entries: seq<Override>,
                  n: nat, hits: nat, hidden: nat)
    requires |s.held| == |s.numbers| && i < |s.held| && Counted(s, i, schema, predicates, entries, n, hits, hidden)
    requires n < |entries| && entries[n].rowId !in HiddenIn(s, i)
    ensures Counted(s, i, schema, predicates, entries, n + 1, hits, hidden)
  {
    assert HiddenUpTo(s, i, entries, n + 1) == HiddenUpTo(s, i, entries, n);
  }

  lemma CountHidden(s: Stack, i: nat, schema: Schema, predicates: seq<LogicalPredicate>, entries: seq<Override>,
                    n: nat, hits: nat, hidden: nat)
    requires |s.held| == |s.numbers| && i < |s.held| && Counted(s, i, schema, predicates, entries, n, hits, hidden)
    requires n < |entries| && entries[n].rowId in HiddenIn(s, i)
    ensures Counted(s, i, schema, predicates, entries, n + 1,
              hits + if Satisfies(schema, s.held[i][entries[n].rowId], predicates) then 1 else 0, hidden + 1)
  {
    hide *;
    CountedParts(s, i, schema, predicates, entries, n, hits, hidden);
    NextHidden(s, i, entries, n);
    var id, H := entries[n].rowId, HiddenUpTo(s, i, entries, n);
    MoreSatisfying(schema, s.held[i], H, id, predicates);
    CountedFrom(s, i, schema, predicates, entries, n + 1, hits + if Satisfies(schema, s.held[i][id], predicates) then 1 else 0, hidden + 1);
  }

  lemma CountedParts(s: Stack, i: nat, schema: Schema, predicates: seq<LogicalPredicate>, entries: seq<Override>,
                     n: nat, hits: nat, hidden: nat)
    requires |s.held| == |s.numbers| && i < |s.held| && Counted(s, i, schema, predicates, entries, n, hits, hidden)
    ensures n <= |entries| && Distinct(entries) && hidden == |HiddenUpTo(s, i, entries, n)|
    ensures hits == |Satisfying(schema, s.held[i], HiddenUpTo(s, i, entries, n), predicates)|
  {
  }

  lemma CountedFrom(s: Stack, i: nat, schema: Schema, predicates: seq<LogicalPredicate>, entries: seq<Override>,
                    n: nat, hits: nat, hidden: nat)
    requires |s.held| == |s.numbers| && i < |s.held| && n <= |entries| && Distinct(entries)
    requires hidden == |HiddenUpTo(s, i, entries, n)|
    requires hits == |Satisfying(schema, s.held[i], HiddenUpTo(s, i, entries, n), predicates)|
    ensures Counted(s, i, schema, predicates, entries, n, hits, hidden)
  {
  }

  lemma NextHidden(s: Stack, i: nat, entries: seq<Override>, n: nat)
    requires |s.held| == |s.numbers| && i < |s.held| && n < |entries| && Distinct(entries)
    requires entries[n].rowId in HiddenIn(s, i)
    ensures entries[n].rowId in s.held[i] && entries[n].rowId !in HiddenUpTo(s, i, entries, n)
    ensures HiddenUpTo(s, i, entries, n + 1) == HiddenUpTo(s, i, entries, n) + {entries[n].rowId}
  {
  }

  lemma MoreSatisfying(schema: Schema, rows: map<nat, Row>, ids: set<nat>, id: nat, predicates: seq<LogicalPredicate>)
    requires id in rows && id !in ids
    ensures |Satisfying(schema, rows, ids + {id}, predicates)| ==
            |Satisfying(schema, rows, ids, predicates)| + if Satisfies(schema, rows[id], predicates) then 1 else 0
    ensures |ids + {id}| == |ids| + 1
  {
    hide Satisfies;
    var M := Satisfying(schema, rows, ids, predicates);
    if Satisfies(schema, rows[id], predicates) {
      assert Satisfying(schema, rows, ids + {id}, predicates) == M + {id};
    } else {
      assert Satisfying(schema, rows, ids + {id}, predicates) == M;
    }
  }

  lemma CountAll(v: Versioned, i: nat, predicates: seq<LogicalPredicate>, hits: nat, hidden: nat)
    requires v.ValidLayers() && i < |v.layers|
    requires Counted(v.View(), i, v.schema, predicates, v.visibility.entries, |v.visibility.entries|, hits, hidden)
    ensures hidden == |HiddenIn(v.View(), i)|
    ensures hits == |Satisfying(v.schema, v.View().held[i], HiddenIn(v.View(), i), predicates)|
  {
    var s, entries := v.View(), v.visibility.entries;
    CountedParts(s, i, v.schema, predicates, entries, |entries|, hits, hidden);
    OverridesListed(v);
    hide *;
    AllHidden(s, i, entries);
  }

  lemma OverridesListed(v: Versioned)
    requires v.ValidLayers()
    ensures forall id :: id in v.View().over <==> exists k :: 0 <= k < |v.visibility.entries| && v.visibility.entries[k].rowId == id
  {
  }

  lemma AllHidden(s: Stack, i: nat, entries: seq<Override>)
    requires |s.held| == |s.numbers| && i < |s.held|
    requires forall id :: id in s.over ==> exists k :: 0 <= k < |entries| && entries[k].rowId == id
    ensures HiddenUpTo(s, i, entries, |entries|) == HiddenIn(s, i)
  {
    forall id | id in HiddenIn(s, i) ensures id in HiddenUpTo(s, i, entries, |entries|) {
      var k :| 0 <= k < |entries| && entries[k].rowId == id;
    }
  }

  /** What an override says of a layer's row. */
  lemma OverrideHides(v: Versioned, i: nat, n: nat)
    requires v.ValidLayers() && i < |v.layers| && n < |v.visibility.entries|
    ensures FromRaw(v.visibility.entries[n].raw).Ok?
    ensures v.visibility.entries[n].rowId in HiddenIn(v.View(), i) <==>
              v.visibility.entries[n].rowId in v.Held(i) && FromRaw(v.visibility.entries[n].raw).value != InLayer(v.layers[i].id)
  {
    v.visibility.MapAt(n);
  }

  /** How many of the layer's rows are hidden, and how many of those match. */
  method HiddenMatchCount(v: Versioned, i: nat, predicates: seq<LogicalPredicate>) returns (r: Result<(nat, nat)>)
    requires v.ValidLayers() && i < |v.layers| && v.ValidLayer(i)
    ensures WellFormed(v.schema, predicates) ==> r.Ok?
    ensures r.Ok? ==>
              && r.value.0 == |Satisfying(v.schema, v.View().held[i], HiddenIn(v.View(), i), predicates)|
              && r.value.1 == |HiddenIn(v.View(), i)|
  {
    hide *;
    ghost var s := v.View();
    var entries := v.visibility.entries;
    var hits: nat, hidden: nat := 0, 0;
    CountStart(v, i, predicates);
    for n := 0 to |entries|
      invariant Counted(s, i, v.schema, predicates, entries, n, hits, hidden)
    {
      OverrideHides(v, i, n);
      var row := v.LayerRow(i, entries[n].rowId);
      if FromRaw(entries[n].raw).value == InLayer(v.layers[i].id) || row.None? {
        CountSame(s, i, v.schema, predicates, entries, n, hits, hidden);
        continue;
      }
      CountHidden(s, i, v.schema, predicates, entries, n, hits, hidden);
      hidden := hidden + 1;
      var matched := ValuesMatch(v.schema, row.value, predicates);
      if matched.Err? {
        return Err(InvalidInput);
      }
      if matched.value {
        hits := hits + 1;
      }
    }
    CountAll(v, i, predicates, hits, hidden);
    return Ok((hits, hidden));
  }

  /** How many of the layer's rows are hidden. */
  method HiddenRowCount(v: Versioned, i: nat) returns (hidden: nat)
    requires v.ValidLayers() && i < |v.layers| && v.ValidLayer(i)
    ensures hidden == |HiddenIn(v.View(), i)|
  {
    hide *;
    ghost var s := v.View();
    var entries := v.visibility.entries;
    ghost var hits: nat := 0;
    hidden := 0;
    CountStart(v, i, []);
    for n := 0 to |entries|
      invariant Counted(s, i, v.schema, [], entries, n, hits, hidden)
    {
      OverrideHides(v, i, n);
      var physical := RowHeld(v, i, entries[n].rowId);
      if FromRaw(entries[n].raw).value == InLayer(v.layers[i].id) || !physical {
        CountSame(s, i, v.schema, [], entries, n, hits, hidden);
        continue;
      }
      CountHidden(s, i, v.schema, [], entries, n, hits, hidden);
      hidden := hidden + 1;
      hits := hits + if Satisfies(v.schema, s.held[i][entries[n].rowId], []) then 1 else 0;
    }
    CountAll(v, i, [], hits, hidden);
  }

  method RowHeld(v: Versioned, i: nat, id: nat) returns (held: bool)
    requires i < |v.layers| && v.ValidLayer(i)
    ensures held <==> id in v.Held(i)
  {
    var physical := v.layers[i].dataset.rowIds.Physical(id);
    return physical.Some?;
  }

  // ------------------------------------------------------------------------------- one layer

  /** The layer's matches, hidden or not. */
  ghost function LayerMatches(v: Versioned, i: nat, predicates: seq<LogicalPredicate>): set<nat>
    requires v.ValidLayers() && i < |v.layers|
  {
    Satisfying(v.schema, v.View().held[i], v.View().held[i].Keys, predicates)
  }

  lemma LayerMatching(v: Versioned, i: nat, predicates: seq<LogicalPredicate>, translated: seq<LogicalPredicate>)
    requires v.ValidLayers() && i < |v.layers| && v.ValidLayer(i)
    requires Translates(v.schema, v.layers[i].dataset.schema, predicates, translated)
    ensures Matching(v.layers[i].dataset.schema, v.layers[i].dataset.Content(), translated) == LayerMatches(v, i, predicates)
  {
    var d := v.layers[i].dataset;
    hide Satisfies, d.Valid, d.Content;
    forall id | id in d.Content()
      ensures Satisfies(d.schema, d.Content()[id], translated) <==> Satisfies(v.schema, v.Held(i)[id], predicates)
    {
      d.ContentRows(id);
    }
  }

  lemma LayerWithout(v: Versioned, i: nat, predicates: seq<LogicalPredicate>)
    requires v.ValidLayers() && i < |v.layers| && v.ValidLayer(i)
    requires NoRow(v.schema, v.layers[i].dataset.schema, predicates)
    ensures MatchIn(v.View(), i, v.schema, predicates) == {}
  {
    var d := v.layers[i].dataset;
    hide Satisfies, d.Valid, d.Content;
    forall id | id in d.Content() ensures !Satisfies(v.schema, v.Held(i)[id], predicates) {
      d.ContentRows(id);
    }
  }

  /** Visible matches are the layer's matches less the hidden ones. */
  lemma MatchesLessHidden(s: Stack, i: nat, schema: Schema, predicates: seq<LogicalPredicate>)
    requires |s.held| == |s.numbers| && i < |s.held|
    ensures MatchIn(s, i, schema, predicates) == Satisfying(schema, s.held[i], s.held[i].Keys, predicates) - HiddenIn(s, i)
    ensures |MatchIn(s, i, schema, predicates)| ==
            SaturatingSub(|Satisfying(schema, s.held[i], s.held[i].Keys, predicates)|,
                          |Satisfying(schema, s.held[i], HiddenIn(s, i), predicates)|)
  {
    var M, H := Satisfying(schema, s.held[i], s.held[i].Keys, predicates), Satisfying(schema, s.held[i], HiddenIn(s, i), predicates);
    hide Satisfies;
    assert H == M * HiddenIn(s, i);
    assert M == (M - H) + H && (M - H) !! H;
    assert MatchIn(s, i, schema, predicates) == M - H;
  }

  lemma LayerPage(M: set<nat>, H: set<nat>, cursor: Option<nat>, limit: nat)
    requires |M| <= U64_MAX
    ensures Gathers(Top(After(M, cursor), SaturatingAdd(limit, |H|)) - H, M - H, cursor, limit)
  {
    var A := After(M, cursor);
    SubsetSize(A, M);
    TopSize(A, SaturatingAdd(limit, |H|));
    TopSize(A, limit + |H|);
    OverFetch(A, H, limit, |H|);
    assert After(M - H, cursor) == A - H;
  }

  lemma LayerSize(v: Versioned, i: nat, predicates: seq<LogicalPredicate>)
    requires v.ValidLayers() && i < |v.layers| && v.ValidLayer(i)
    ensures |LayerMatches(v, i, predicates)| <= U64_MAX
  {
    var d := v.layers[i].dataset;
    ListsSize(d.rowIds.Ids(), d.IdSet());
    SubsetSize(LayerMatches(v, i, predicates), d.IdSet());
  }

  /** The first value under a column name. */
  function FindValue(values: seq<NamedValue>, name: string): Value {
    if values == [] then None
    else if values[0].column == name then values[0].value
    else FindValue(values[1..], name)
  }

  lemma {:induction false} FindAmong(values: seq<NamedValue>, name: string, wanted: Value)
    requires forall k :: 0 <= k < |values| && values[k].column == name ==> values[k].value == wanted
    requires (exists k :: 0 <= k < |values| && values[k].column == name) || wanted == None
    ensures FindValue(values, name) == wanted
  {
    if values != [] && values[0].column != name {
      FindAmong(values[1..], name, wanted);
    }
  }

  /** The layer's projection carries every projected column the layer has. */
  ghost predicate Supplies(supplied: seq<nat>, layer: Schema, schema: Schema, projection: seq<nat>) {
    && InSchema(layer, supplied) && InSchema(schema, projection)
    && forall k :: 0 <= k < |projection| && projection[k] < |schema| ==>
         var c := ColumnIndex(layer, schema[projection[k]].name); c.Some? ==> c.value in supplied
  }

  lemma FoundByName(schema: Schema, layer: Schema, row: Row, supplied: seq<nat>, projection: seq<nat>, k: nat)
    requires ValidSchema(layer) && |row| == |layer| && Supplies(supplied, layer, schema, projection) && k < |projection|
    ensures projection[k] < |schema|
    ensures FindValue(Shown(layer, row, supplied), schema[projection[k]].name) ==
            Align(SchemaMap(schema, layer), row)[projection[k]]
  {
    var name := schema[projection[k]].name;
    var c := ColumnIndex(layer, name);
    var values := Shown(layer, row, supplied);
    forall j | 0 <= j < |values| && values[j].column == name ensures Some(supplied[j]) == c {
      IndexOfName(layer, supplied[j]);
    }
    if c.Some? {
      var j :| 0 <= j < |supplied| && supplied[j] == c.value;
      assert values[j].column == name;
    }
    FindAmong(values, name, Align(SchemaMap(schema, layer), row)[projection[k]]);
  }

  /** A layer's row in terms of the union schema, column by name. */
  method UnionRow(schema: Schema, row: LogicalRow, projection: seq<nat>, ghost layer: Schema, ghost held: Row, ghost supplied: seq<nat>)
    returns (out: LogicalRow)
    requires ValidSchema(layer) && |held| == |layer| && Supplies(supplied, layer, schema, projection)
    requires row.values == Shown(layer, held, supplied)
    ensures out == LogicalRow(row.rowId, Shown(schema, Align(SchemaMap(schema, layer), held), projection))
  {
    var values: seq<NamedValue> := [];
    for k := 0 to |projection|
      invariant |values| == k
      invariant forall j :: 0 <= j < k ==> values[j] == Shown(schema, Align(SchemaMap(schema, layer), held), projection)[j]
    {
      FoundByName(schema, layer, held, supplied, projection, k);
      var name := schema[projection[k]].name;
      values := values + [NamedValue(name, FindValue(row.values, name))];
    }
    assert values == Shown(schema, Align(SchemaMap(schema, layer), held), projection);
    return LogicalRow(row.rowId, values);
  }

  ghost function IdsOf(rows: seq<LogicalRow>): set<nat> {
    set k | 0 <= k < |rows| :: rows[k].rowId
  }

  lemma IdsOfConcat(a: seq<LogicalRow>, b: seq<LogicalRow>)
    ensures IdsOf(a + b) == IdsOf(a) + IdsOf(b)
  {
    var c := a + b;
    forall k | 0 <= k < |b| ensures b[k].rowId in IdsOf(c) {
      assert c[|a| + k] == b[k];
    }
    forall k | 0 <= k < |a| ensures a[k].rowId in IdsOf(c) {
      assert c[k] == a[k];
    }
  }

  /** Rows gathered for a set of visible IDs, each as the map of visible rows has it. */
  ghost predicate GathersRows(schema: Schema, visible: map<nat, Row>, rows: seq<LogicalRow>, W: set<nat>, projection: seq<nat>) {
    IdsOf(rows) == W && ShowsValues(rows, schema, visible, projection)
  }

  lemma GatherConcat(schema: Schema, visible: map<nat, Row>, a: seq<LogicalRow>, b: seq<LogicalRow>,
                     W: set<nat>, V: set<nat>, projection: seq<nat>)
    requires GathersRows(schema, visible, a, W, projection) && GathersRows(schema, visible, b, V, projection)
    ensures GathersRows(schema, visible, a + b, W + V, projection)
  {
    IdsOfConcat(a, b);
  }

  lemma GatherEmpty(schema: Schema, visible: map<nat, Row>, projection: seq<nat>)
    ensures GathersRows(schema, visible, [], {}, projection)
  {
  }

  lemma GatherOne(schema: Schema, visible: map<nat, Row>, row: LogicalRow, projection: seq<nat>)
    requires row.rowId in visible && row.values == Shown(schema, visible[row.rowId], projection)
    ensures GathersRows(schema, visible, [row], {row.rowId}, projection)
  {
    assert [row][0] == row;
  }

  method VisibleInLayer(v: Versioned, i: nat, id: nat) returns (visible: bool)
    requires v.ValidLayers() && i < |v.layers|
    ensures visible <==> ShowsIn(v.View().over, id, v.layers[i].id)
  {
    var target := v.visibility.TargetOf(id);
    return target.None? || target == Some(InLayer(v.layers[i].id));
  }

  lemma ShownIsHeld(v: Versioned, i: nat, id: nat)
    requires v.Valid() && i < |v.layers| && v.ValidLayer(i) && id in v.layers[i].dataset.Content()
    ensures |v.layers[i].dataset.Content()[id]| == |v.layers[i].dataset.schema|
    ensures ShowsIn(v.View().over, id, v.layers[i].id) ==>
              id in v.Rows()
              && v.Rows()[id] == Align(SchemaMap(v.schema, v.layers[i].dataset.schema), v.layers[i].dataset.Content()[id])
    ensures id in HiddenIn(v.View(), i) <==> !ShowsIn(v.View().over, id, v.layers[i].id)
  {
    v.layers[i].dataset.ContentRows(id);
    assert id in v.View().held[i];
    if ShowsIn(v.View().over, id, v.layers[i].id) {
      VisibleAt(v.View(), i, id);
    }
  }

  /** Drops a layer's hidden rows and puts the others in terms of the union schema. */
  method KeepVisible(v: Versioned, i: nat, rows: seq<LogicalRow>, projection: seq<nat>, ghost S: set<nat>, ghost supplied: seq<nat>)
    returns (out: seq<LogicalRow>)
    requires v.Valid() && i < |v.layers| && v.ValidLayer(i)
    requires Shows(rows, v.layers[i].dataset.schema, v.layers[i].dataset.Content(), S, supplied)
    requires Supplies(supplied, v.layers[i].dataset.schema, v.schema, projection)
    ensures GathersRows(v.schema, v.Rows(), out, S - HiddenIn(v.View(), i), projection)
  {
    hide *;
    ghost var d := v.layers[i].dataset;
    ghost var H := HiddenIn(v.View(), i);
    ShownParts(v, i, rows, S, supplied);
    out := [];
    GatherEmpty(v.schema, v.Rows(), projection);
    FirstIds(rows, 0);
    assert IdsOf(rows[..0]) - H == {};
    for k := 0 to |rows|
      invariant GathersRows(v.schema, v.Rows(), out, IdsOf(rows[..k]) - H, projection)
    {
      var id := rows[k].rowId;
      FirstIds(rows, k + 1);
      ShownIsHeld(v, i, id);
      var visible := VisibleInLayer(v, i, id);
      if visible {
        var row := UnionRow(v.schema, rows[k], projection, d.schema, d.Content()[id], supplied);
        GatherOne(v.schema, v.Rows(), row, projection);
        GatherConcat(v.schema, v.Rows(), out, [row], IdsOf(rows[..k]) - H, {id}, projection);
        out := out + [row];
        assert IdsOf(rows[..k + 1]) - H == IdsOf(rows[..k]) - H + {id};
      } else {
        assert IdsOf(rows[..k + 1]) - H == IdsOf(rows[..k]) - H;
      }
    }
    assert rows[..|rows|] == rows;
  }

  lemma FirstIds(rows: seq<LogicalRow>, k: nat)
    requires k <= |rows|
    ensures k == 0 ==> IdsOf(rows[..k]) == {}
    ensures k > 0 ==> IdsOf(rows[..k]) == IdsOf(rows[..k - 1]) + {rows[k - 1].rowId}
  {
    if k > 0 {
      assert rows[..k] == rows[..k - 1] + [rows[k - 1]];
      IdsOfConcat(rows[..k - 1], [rows[k - 1]]);
      assert [rows[k - 1]][0] == rows[k - 1];
      assert IdsOf([rows[k - 1]]) == {rows[k - 1].rowId};
    }
  }

  lemma ShownParts(v: Versioned, i: nat, rows: seq<LogicalRow>, S: set<nat>, supplied: seq<nat>)
    requires i < |v.layers| && v.ValidLayer(i)
    requires Shows(rows, v.layers[i].dataset.schema, v.layers[i].dataset.Content(), S, supplied)
    ensures var d := v.layers[i].dataset;
            && d.Valid() && ValidSchema(d.schema) && IdsOf(rows) == S
            && forall k :: 0 <= k < |rows| ==>
                 rows[k].rowId in d.Content() && rows[k].values == Shown(d.schema, d.Content()[rows[k].rowId], supplied)
  {
    forall id ensures id in IdsOf(rows) <==> id in S {
      if id in S {
        assert id in RowIds(rows);
      }
      if id in IdsOf(rows) {
        var k :| 0 <= k < |rows| && rows[k].rowId == id;
        assert RowIds(rows)[k] == id;
      }
    }
  }

  /** One layer's part of a query: its hits less the hidden ones, and its visible rows out of a page
      enlarged by the number of hidden rows. */
  method RunLayer(v: Versioned, i: nat, predicates: seq<LogicalPredicate>, projection: seq<nat>, cursor: Option<nat>, limit: nat)
    returns (r: Result<(nat, seq<LogicalRow>)>, ghost W: set<nat>)
    requires v.Valid() && i < |v.layers| && InSchema(v.schema, projection)
    ensures WellFormed(v.schema, predicates) ==> r.Ok?
    ensures r.Ok? ==>
              && r.value.0 == |MatchIn(v.View(), i, v.schema, predicates)|
              && Gathers(W, MatchIn(v.View(), i, v.schema, predicates), cursor, limit)
              && GathersRows(v.schema, v.Rows(), r.value.1, W, projection)
  {
    hide *;
    LayerParts(v, i);
    W := {};
    var d := v.layers[i].dataset;
    var translated := PredicatesForLayer(v.schema, d.schema, predicates);
    if translated.Err? {
      return Err(translated.error), W;
    }
    if translated.value.None? {
      LayerWithout(v, i, predicates);
      GatherNothing(cursor, limit);
      GatherEmpty(v.schema, v.Rows(), projection);
      assert |MatchIn(v.View(), i, v.schema, predicates)| == 0;
      return Ok((0, [])), W;
    }
    var counted := HiddenMatchCount(v, i, predicates);
    if counted.Err? {
      return Err(counted.error), W;
    }
    var hiddenHits, hiddenRows := counted.value.0, counted.value.1;
    LayerMatching(v, i, predicates, translated.value.value);
    var fetch := SaturatingAdd(limit, hiddenRows);
    AllSelected(d.schema);
    var result, supplied := d.QueryValuesAfter(translated.value.value, None, cursor, fetch);
    ghost var M, H := LayerMatches(v, i, predicates), HiddenIn(v.View(), i);
    AllSupplied(v.schema, d.schema, projection, supplied);
    var rows := KeepVisible(v, i, result.value.rows, projection, Top(After(M, cursor), fetch), supplied);
    LayerSize(v, i, predicates);
    LayerPage(M, H, cursor, limit);
    MatchesLessHidden(v.View(), i, v.schema, predicates);
    LayerMatchesDefined(v, i, predicates);
    W := Top(After(M, cursor), fetch) - H;
    return Ok((SaturatingSub(result.value.hits, hiddenHits), rows)), W;
  }

  lemma LayerParts(v: Versioned, i: nat)
    requires v.Valid() && i < |v.layers|
    ensures v.ValidLayers() && v.ValidLayer(i) && v.layers[i].dataset.Valid()
    ensures ValidSchema(v.schema) && ValidSchema(v.layers[i].dataset.schema) && Reads(v.schema, v.layers[i].dataset.schema)
  {
    assert v.ValidLayer(i);
  }

  lemma LayerMatchesDefined(v: Versioned, i: nat, predicates: seq<LogicalPredicate>)
    requires v.ValidLayers() && i < |v.layers|
    ensures LayerMatches(v, i, predicates) == Satisfying(v.schema, v.View().held[i], v.View().held[i].Keys, predicates)
  {
  }

  lemma AllSelected(schema: Schema)
    ensures KnownColumns(schema, None)
  {
  }

  lemma AllSupplied(schema: Schema, layer: Schema, projection: seq<nat>, supplied: seq<nat>)
    requires Selects(layer, None, supplied) && InSchema(schema, projection)
    ensures Supplies(supplied, layer, schema, projection)
  {
    forall c: nat | c < |layer| ensures c in supplied {
      assert supplied[c] == c;
    }
  }

  /** The page route's layer: no hit count, and only the columns the projection needs. */
  method RunLayerPage(v: Versioned, i: nat, predicates: seq<LogicalPredicate>, projection: seq<nat>, cursor: Option<nat>, limit: nat)
    returns (r: Result<seq<LogicalRow>>, ghost W: set<nat>)
    requires v.Valid() && i < |v.layers| && InSchema(v.schema, projection)
    ensures WellFormed(v.schema, predicates) ==> r.Ok?
    ensures r.Ok? ==>
              && Gathers(W, MatchIn(v.View(), i, v.schema, predicates), cursor, limit)
              && GathersRows(v.schema, v.Rows(), r.value, W, projection)
  {
    hide *;
    LayerParts(v, i);
    W := {};
    var d := v.layers[i].dataset;
    var translated := PredicatesForLayer(v.schema, d.schema, predicates);
    if translated.Err? {
      return Err(translated.error), W;
    }
    if translated.value.None? {
      LayerWithout(v, i, predicates);
      GatherNothing(cursor, limit);
      GatherEmpty(v.schema, v.Rows(), projection);
      return Ok([]), W;
    }
    var hiddenRows := HiddenRowCount(v, i);
    LayerMatching(v, i, predicates, translated.value.value);
    var fetch := SaturatingAdd(limit, hiddenRows);
    var select := LayerSelect(v.schema, d.schema, projection);
    var result, supplied := d.QueryValuesPageAfter(translated.value.value, Some(select), cursor, fetch);
    ghost var M, H := LayerMatches(v, i, predicates), HiddenIn(v.View(), i);
    SelectSupplied(v.schema, d.schema, projection, select, supplied);
    var rows := KeepVisible(v, i, result.value.rows, projection, Top(After(M, cursor), fetch), supplied);
    LayerSize(v, i, predicates);
    LayerPage(M, H, cursor, limit);
    MatchesLessHidden(v.View(), i, v.schema, predicates);
    LayerMatchesDefined(v, i, predicates);
    W := Top(After(M, cursor), fetch) - H;
    return Ok(rows), W;
  }

  /** The layer's names of the projected columns it has. */
  method LayerSelect(schema: Schema, layer: Schema, projection: seq<nat>) returns (select: seq<string>)
    requires InSchema(schema, projection)
    ensures KnownColumns(layer, Some(select))
    ensures forall k :: 0 <= k < |projection| && projection[k] < |schema| ==>
              ColumnIndex(layer, schema[projection[k]].name).Some? ==> schema[projection[k]].name in select
  {
    select := [];
    for k := 0 to |projection|
      invariant forall j :: 0 <= j < |select| ==> ColumnIndex(layer, select[j]).Some?
      invariant forall j :: 0 <= j < k && projection[j] < |schema| ==>
                  ColumnIndex(layer, schema[projection[j]].name).Some? ==> schema[projection[j]].name in select
    {
      var physical := ColumnIndex(layer, schema[projection[k]].name);
      if physical.Some? {
        select := select + [layer[physical.value].name];
      }
    }
  }

  lemma SelectSupplied(schema: Schema, layer: Schema, projection: seq<nat>, select: seq<string>, supplied: seq<nat>)
    requires InSchema(schema, projection) && Selects(layer, Some(select), supplied)
    requires forall k :: 0 <= k < |projection| && projection[k] < |schema| ==>
               ColumnIndex(layer, schema[projection[k]].name).Some? ==> schema[projection[k]].name in select
    ensures Supplies(supplied, layer, schema, projection)
  {
    forall k | 0 <= k < |projection| && ColumnIndex(layer, schema[projection[k]].name).Some?
      ensures ColumnIndex(layer, schema[projection[k]].name).value in supplied
    {
      var j :| 0 <= j < |select| && select[j] == schema[projection[k]].name;
      assert supplied[j] in supplied;
    }
  }

  // ------------------------------------------------------------------------------ all layers

  ghost predicate RowsAscend(rows: seq<LogicalRow>) {
    forall i, j :: 0 <= i < j < |rows| ==> rows[i].rowId < rows[j].rowId
  }

  /** Stands for the library's sort by row ID followed by dropping repeated IDs. */
  method SortDedup(rows: seq<LogicalRow>) returns (out: seq<LogicalRow>)
    ensures RowsAscend(out) && IdsOf(out) == IdsOf(rows)
    ensures forall r :: r in out ==> r in rows
  {
    hide IdsOf;
    out := [];
    assert rows[..0] == [];
    for k := 0 to |rows|
      invariant RowsAscend(out) && IdsOf(out) == IdsOf(rows[..k])
      invariant forall r :: r in out ==> r in rows
    {
      FirstIds(rows, k + 1);
      out := InsertRow(out, rows[k]);
    }
    assert rows[..|rows|] == rows;
  }

  method InsertRow(sorted: seq<LogicalRow>, row: LogicalRow) returns (out: seq<LogicalRow>)
    requires RowsAscend(sorted)
    ensures RowsAscend(out) && IdsOf(out) == IdsOf(sorted) + {row.rowId}
    ensures forall r :: r in out ==> r in sorted || r == row
  {
    var at := 0;
    while at < |sorted| && sorted[at].rowId < row.rowId
      invariant at <= |sorted| && forall k :: 0 <= k < at ==> sorted[k].rowId < row.rowId
    {
      at := at + 1;
    }
    if at < |sorted| && sorted[at].rowId == row.rowId {
      return sorted;
    }
    out := sorted[..at] + [row] + sorted[at..];
    Inserting(sorted, row, at);
  }

  lemma Inserting(sorted: seq<LogicalRow>, row: LogicalRow, at: nat)
    requires at <= |sorted|
    ensures IdsOf(sorted[..at] + [row] + sorted[at..]) == IdsOf(sorted) + {row.rowId}
  {
    assert sorted == sorted[..at] + sorted[at..];
    IdsOfConcat(sorted[..at], sorted[at..]);
    IdsOfConcat(sorted[..at], [row]);
    IdsOfConcat(sorted[..at] + [row], sorted[at..]);
    assert [row][0] == row;
    assert IdsOf([row]) == {row.rowId};
  }

  /** Sorting and cutting the gathered rows gives the page. */
  method Page(schema: Schema, ghost visible: map<nat, Row>, rows: seq<LogicalRow>, projection: seq<nat>, limit: nat,
              ghost W: set<nat>, ghost M: set<nat>, ghost cursor: Option<nat>)
    returns (page: seq<LogicalRow>)
    requires GathersRows(schema, visible, rows, W, projection) && Gathers(W, M, cursor, limit)
    ensures Shows(page, schema, visible, Top(After(M, cursor), limit), projection)
  {
    var sorted := SortDedup(rows);
    page := sorted[..Min(limit, |sorted|)];
    SortedLists(sorted, W);
    TakeListsTop(RowIds(sorted), W, limit);
    GatheredPage(W, M, cursor, limit);
    assert RowIds(page) == RowIds(sorted)[..Min(limit, |sorted|)];
    forall i | 0 <= i < |page|
      ensures page[i].rowId in visible && page[i].values == Shown(schema, visible[page[i].rowId], projection)
    {
      assert sorted[i] in sorted;
      var k :| 0 <= k < |rows| && rows[k] == sorted[i];
    }
  }

  lemma SortedLists(sorted: seq<LogicalRow>, W: set<nat>)
    requires RowsAscend(sorted) && IdsOf(sorted) == W
    ensures Lists(RowIds(sorted), W)
  {
    forall x: nat ensures x in RowIds(sorted) <==> x in W {
      if x in W {
        var k :| 0 <= k < |sorted| && sorted[k].rowId == x;
        assert RowIds(sorted)[k] == x;
      }
    }
  }

  /** The equality query of a versioned dataset: the total number of visible matches, whatever the
      cursor, and the first `limit` of them past the cursor, in ID order. */
  method QueryValuesAfter(v: Versioned, predicates: seq<LogicalPredicate>, select: Option<seq<string>>, cursor: Option<nat>, limit: nat)
    returns (r: Result<QueryResult>, projection: seq<nat>)
    requires v.Valid()
    ensures WellFormed(v.schema, predicates) && KnownColumns(v.schema, select) ==> r.Ok?
    ensures r.Ok? ==> Selects(v.schema, select, projection)
    ensures r.Ok? ==> r.value.hits == |Matching(v.schema, v.Rows(), predicates)|
    ensures r.Ok? ==> Shows(r.value.rows, v.schema, v.Rows(),
                        Top(After(Matching(v.schema, v.Rows(), predicates), cursor), limit), projection)
  {
    hide *;
    projection := [];
    var projected := Project(v, select);
    if projected.Err? {
      return Err(InvalidInput), projection;
    }
    projection := projected.value;
    ghost var s := v.View();
    var hits: nat, rows: seq<LogicalRow> := 0, [];
    ghost var W: set<nat> := {};
    LayersStart(v, predicates, projection, cursor, limit);
    for i := 0 to |v.layers|
      invariant hits == |MatchBelow(s, i, v.schema, predicates)|
      invariant Gathers(W, MatchBelow(s, i, v.schema, predicates), cursor, limit)
      invariant GathersRows(v.schema, v.Rows(), rows, W, projection)
    {
      LayerParts(v, i);
      var layer, V := RunLayer(v, i, predicates, projection, cursor, limit);
      if layer.Err? {
        return Err(layer.error), projection;
      }
      LayersStep(v, i, predicates, hits);
      GatherMore(W, MatchBelow(s, i, v.schema, predicates), V, MatchIn(s, i, v.schema, predicates), cursor, limit);
      GatherConcat(v.schema, v.Rows(), rows, layer.value.1, W, V, projection);
      hits := SaturatingAdd(hits, layer.value.0);
      rows := rows + layer.value.1;
      W := W + V;
    }
    LayersDone(v, predicates);
    var page := Page(v.schema, v.Rows(), rows, projection, limit, W, Matching(v.schema, v.Rows(), predicates), cursor);
    return Ok(QueryResult(hits, page)), projection;
  }

  /** The page alone. */
  method QueryValuesPageAfter(v: Versioned, predicates: seq<LogicalPredicate>, select: Option<seq<string>>, cursor: Option<nat>, limit: nat)
    returns (r: Result<QueryResult>, projection: seq<nat>)
    requires v.Valid()
    ensures WellFormed(v.schema, predicates) && KnownColumns(v.schema, select) ==> r.Ok?
    ensures r.Ok? ==> Selects(v.schema, select, projection) && r.value.hits == |r.value.rows|
    ensures r.Ok? ==> Shows(r.value.rows, v.schema, v.Rows(),
                        Top(After(Matching(v.schema, v.Rows(), predicates), cursor), limit), projection)
  {
    hide *;
    projection := [];
    var projected := Project(v, select);
    if projected.Err? {
      return Err(InvalidInput), projection;
    }
    projection := projected.value;
    ghost var s := v.View();
    var rows: seq<LogicalRow> := [];
    ghost var W: set<nat> := {};
    LayersStart(v, predicates, projection, cursor, limit);
    for i := 0 to |v.layers|
      invariant Gathers(W, MatchBelow(s, i, v.schema, predicates), cursor, limit)
      invariant GathersRows(v.schema, v.Rows(), rows, W, projection)
    {
      LayerParts(v, i);
      var layer, V := RunLayerPage(v, i, predicates, projection, cursor, limit);
      if layer.Err? {
        return Err(layer.error), projection;
      }
      LayersStep(v, i, predicates, 0);
      GatherMore(W, MatchBelow(s, i, v.schema, predicates), V, MatchIn(s, i, v.schema, predicates), cursor, limit);
      GatherConcat(v.schema, v.Rows(), rows, layer.value, W, V, projection);
      rows := rows + layer.value;
      W := W + V;
    }
    LayersDone(v, predicates);
    var page := Page(v.schema, v.Rows(), rows, projection, limit, W, Matching(v.schema, v.Rows(), predicates), cursor);
    return Ok(QueryResult(|page|, page)), projection;
  }

  method Project(v: Versioned, select: Option<seq<string>>) returns (r: Result<seq<nat>>)
    ensures r.Ok? <==> KnownColumns(v.schema, select)
    ensures r.Ok? ==> Selects(v.schema, select, r.value) && InSchema(v.schema, r.value)
  {
    r := Projection(v.schema, select);
  }

  lemma LayersStart(v: Versioned, predicates: seq<LogicalPredicate>, projection: seq<nat>, cursor: Option<nat>, limit: nat)
    requires v.Valid()
    ensures |MatchBelow(v.View(), 0, v.schema, predicates)| == 0
    ensures Gathers({}, MatchBelow(v.View(), 0, v.schema, predicates), cursor, limit)
    ensures GathersRows(v.schema, v.Rows(), [], {}, projection)
  {
    GatherNothing(cursor, limit);
  }

  lemma LayersStep(v: Versioned, i: nat, predicates: seq<LogicalPredicate>, hits: nat)
    requires v.Valid() && i < |v.layers|
    ensures MatchBelow(v.View(), i + 1, v.schema, predicates) ==
            MatchBelow(v.View(), i, v.schema, predicates) + MatchIn(v.View(), i, v.schema, predicates)
    ensures hits == |MatchBelow(v.View(), i, v.schema, predicates)| ==>
              |MatchBelow(v.View(), i + 1, v.schema, predicates)| ==
              SaturatingAdd(hits, |MatchIn(v.View(), i, v.schema, predicates)|)
  {
    hide *;
    DeltaParts(v);
    MoreMatches(v.View(), i, v.schema, predicates, hits);
  }

  lemma DeltaParts(v: Versioned)
    requires v.Valid()
    ensures WellFormedStack(v.View()) && |Visible(v.View())| <= U64_MAX
  {
  }

  lemma MoreMatches(s: Stack, i: nat, schema: Schema, predicates: seq<LogicalPredicate>, hits: nat)
    requires WellFormedStack(s) && |Visible(s)| <= U64_MAX && i < |s.held|
    ensures MatchBelow(s, i + 1, schema, predicates) == MatchBelow(s, i, schema, predicates) + MatchIn(s, i, schema, predicates)
    ensures hits == |MatchBelow(s, i, schema, predicates)| ==>
              |MatchBelow(s, i + 1, schema, predicates)| == SaturatingAdd(hits, |MatchIn(s, i, schema, predicates)|)
  {
    hide *;
    StackWidths(s);
    NextLayer(s, i, schema, predicates);
    MatchesVisible(s, i + 1, schema, predicates);
    JoinedSize(MatchBelow(s, i, schema, predicates), MatchIn(s, i, schema, predicates));
  }

  lemma StackWidths(s: Stack)
    requires WellFormedStack(s)
    ensures |s.held| == |s.numbers|
  {
  }

  lemma JoinedSize(a: set<nat>, b: set<nat>)
    requires a !! b && |a + b| <= U64_MAX
    ensures |a + b| == SaturatingAdd(|a|, |b|)
  {
    assert |a + b| == |a| + |b|;
  }

  lemma MatchesVisible(s: Stack, n: nat, schema: Schema, predicates: seq<LogicalPredicate>)
    requires WellFormedStack(s) && n <= |s.held|
    ensures |MatchBelow(s, n, schema, predicates)| <= |Visible(s)|
  {
    forall id | id in MatchBelow(s, n, schema, predicates) ensures id in Visible(s) {
      MatchBelowHas(s, n, schema, predicates, id);
      var i :| 0 <= i < n && id in MatchIn(s, i, schema, predicates);
      VisibleAt(s, i, id);
    }
    SubsetSize(MatchBelow(s, n, schema, predicates), Visible(s).Keys);
    assert |Visible(s).Keys| == |Visible(s)|;
  }

  lemma LayersDone(v: Versioned, predicates: seq<LogicalPredicate>)
    requires v.Valid()
    ensures MatchBelow(v.View(), |v.layers|, v.schema, predicates) == Matching(v.schema, v.Rows(), predicates)
  {
    MatchesByLayer(v.View(), v.schema, predicates);
  }
}

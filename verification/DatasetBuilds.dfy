/** Building an immutable dataset from logical rows in two passes: dictionaries first, then token rows
    streamed in batches, then exact indexes over the canonical storage. The dataset holds exactly the
    rows it was built from. */
module DatasetBuilds {
  import opened Wrappers
  import opened RowSets
  import opened Postings
  import opened Dictionaries
  import opened RowIdMaps
  import opened Schemas
  import opened MixedRadix
  import opened Tables
  import opened RowIndexes
  import opened Planner
  import opened LogicalDatasets
  import opened StreamBuilders
  import ExactIndexes

  /** How many rows a batch holds, and how much the sorts keep in memory. */
  datatype WriteConfig = WriteConfig(batchRows: nat, maxSortRecords: nat, dictionaryRunBytes: nat)

  ghost predicate ValidEntries(schema: Schema, entries: seq<Entry>) {
    forall k :: 0 <= k < |entries| ==> ValidRow(schema, entries[k].1)
  }

  /** The texts a column holds. */
  ghost function TextsOf(entries: seq<Entry>, c: nat): set<string> {
    set k | 0 <= k < |entries| && c < |entries[k].1| && entries[k].1[c].Some? :: entries[k].1[c].value
  }

  ghost function CardOf(schema: Schema, entries: seq<Entry>, c: nat): nat
    requires c < |schema|
  {
    |TextsOf(entries, c)| + if schema[c].nullable then 1 else 0
  }

  ghost function Cards(schema: Schema, entries: seq<Entry>): (cards: seq<nat>)
    ensures |cards| == |schema|
    ensures forall c :: 0 <= c < |schema| ==> cards[c] == CardOf(schema, entries, c)
  {
    seq(|schema|, c requires 0 <= c < |schema| => CardOf(schema, entries, c))
  }

  lemma {:induction false} FewTexts(entries: seq<Entry>, c: nat)
    ensures |TextsOf(entries, c)| <= |entries|
  {
    if entries != [] {
      var rest, last := entries[..|entries| - 1], entries[|entries| - 1];
      FewTexts(rest, c);
      var T := if c < |last.1| && last.1[c].Some? then {last.1[c].value} else {};
      assert forall k :: 0 <= k < |rest| ==> rest[k] == entries[k];
      assert TextsOf(entries, c) == TextsOf(rest, c) + T;
    }
  }

  // ---------------------------------------------------------------------------- dictionaries

  /** First pass: every column's texts. A row of the wrong width, or NULL where the column forbids it,
      is an error. */
  method ColumnTexts(schema: Schema, entries: seq<Entry>) returns (r: Result<seq<seq<string>>>)
    ensures r.Ok? <==> ValidEntries(schema, entries)
    ensures r.Ok? ==> |r.value| == |schema| && forall c :: 0 <= c < |schema| ==> Members(r.value[c]) == TextsOf(entries, c)
  {
    var texts: seq<seq<string>> := seq(|schema|, _ => []);
    for k := 0 to |entries|
      invariant |texts| == |schema|
      invariant forall j :: 0 <= j < k ==> ValidRow(schema, entries[j].1)
      invariant forall c :: 0 <= c < |schema| ==> Members(texts[c]) == TextsOf(entries[..k], c)
    {
      var row := entries[k].1;
      if |row| != |schema| {
        return Err(InvalidData);
      }
      ghost var before := texts;
      for c := 0 to |schema|
        invariant |texts| == |schema|
        invariant forall d :: 0 <= d < c && row[d].None? ==> schema[d].nullable
        invariant forall d :: 0 <= d < c ==> Members(texts[d]) == TextsOf(entries[..k + 1], d)
        invariant forall d :: c <= d < |schema| ==> texts[d] == before[d]
      {
        NextText(entries, k, c, texts[c]);
        if row[c].Some? {
          texts := texts[c := texts[c] + [row[c].value]];
        } else if !schema[c].nullable {
          return Err(InvalidData);
        }
      }
    }
    assert entries[..|entries|] == entries;
    return Ok(texts);
  }

  lemma NextText(entries: seq<Entry>, k: nat, c: nat, texts: seq<string>)
    requires k < |entries| && c < |entries[k].1| && Members(texts) == TextsOf(entries[..k], c)
    ensures var v := entries[k].1[c];
            TextsOf(entries[..k + 1], c) == Members(if v.Some? then texts + [v.value] else texts)
  {
    var v := entries[k].1[c];
    assert entries[..k + 1] == entries[..k] + [entries[k]];
    var T := if v.Some? then {v.value} else {};
    assert forall j :: 0 <= j < k ==> entries[..k + 1][j] == entries[..k][j];
    assert entries[..k + 1][k] == entries[k];
    assert TextsOf(entries[..k + 1], c) == TextsOf(entries[..k], c) + T;
    if v.Some? {
      assert Members(texts + [v.value]) == Members(texts) + {v.value};
    }
  }

  ghost predicate Dictionarized(schema: Schema, entries: seq<Entry>, dictionaries: seq<Dictionary>, n: nat) {
    && |dictionaries| == n <= |schema|
    && forall c :: 0 <= c < n ==>
         && dictionaries[c].Valid() && dictionaries[c].nullable == schema[c].nullable
         && Members(dictionaries[c].Texts()) == TextsOf(entries, c)
         && dictionaries[c].Cardinality() == CardOf(schema, entries, c)
  }

  /** A dictionary a column; a column with no token at all is an error. */
  method BuildDictionaries(schema: Schema, entries: seq<Entry>, texts: seq<seq<string>>, maxRunBytes: nat) returns (r: Result<seq<Dictionary>>)
    requires |texts| == |schema| && forall c :: 0 <= c < |schema| ==> Members(texts[c]) == TextsOf(entries, c)
    ensures r.Ok? <==> (schema == [] || maxRunBytes > 0) && forall c :: 0 <= c < |schema| ==> 0 < CardOf(schema, entries, c) <= U32_MAX + 1
    ensures r.Ok? ==> Dictionarized(schema, entries, r.value, |schema|)
  {
    var dictionaries: seq<Dictionary> := [];
    for c := 0 to |schema|
      invariant Dictionarized(schema, entries, dictionaries, c)
      invariant c > 0 ==> maxRunBytes > 0
      invariant forall d :: 0 <= d < c ==> 0 < CardOf(schema, entries, d) <= U32_MAX + 1
    {
      hide TextsOf, Dictionarized;
      var built := BuildColumn(texts[c], schema[c].nullable, maxRunBytes);
      CardOfTexts(schema, entries, c, texts[c]);
      if built.Ok? {
        DictionarizedSnoc(schema, entries, dictionaries, c, built.value);
      }
      if built.Err? {
        return Err(built.error);
      }
      if built.value.Cardinality() == 0 {
        return Err(InvalidData);
      }
      dictionaries := dictionaries + [built.value];
    }
    return Ok(dictionaries);
  }

  lemma CardOfTexts(schema: Schema, entries: seq<Entry>, c: nat, texts: seq<string>)
    requires c < |schema| && Members(texts) == TextsOf(entries, c)
    ensures CardOf(schema, entries, c) == |Members(texts)| + if schema[c].nullable then 1 else 0
  {
  }

  lemma DictionarizedSnoc(schema: Schema, entries: seq<Entry>, dictionaries: seq<Dictionary>, c: nat, d: Dictionary)
    requires Dictionarized(schema, entries, dictionaries, c) && c < |schema|
    requires d.Valid() && d.nullable == schema[c].nullable && Members(d.Texts()) == TextsOf(entries, c)
    requires d.Cardinality() == CardOf(schema, entries, c)
    ensures Dictionarized(schema, entries, dictionaries + [d], c + 1)
  {
    hide d.Valid, d.Cardinality;
  }

  // ---------------------------------------------------------------------------------- tokens

  /** A token row stands for a row of values. */
  ghost predicate Tokenizes(dictionaries: seq<Dictionary>, tokens: seq<nat>, row: Row) {
    && |tokens| == |row| == |dictionaries|
    && forall c :: 0 <= c < |row| ==> tokens[c] < dictionaries[c].Cardinality() && dictionaries[c].Meaning(tokens[c]) == row[c]
  }

  ghost predicate TokenizesOne(d: Dictionary, token: nat, value: Value) {
    token < d.Cardinality() && d.Meaning(token) == value
  }

  /** Second pass, one row: every value is in the dictionary built from it. */
  method TokenRow(schema: Schema, entries: seq<Entry>, dictionaries: seq<Dictionary>, k: nat) returns (r: Result<seq<nat>>)
    requires Dictionarized(schema, entries, dictionaries, |schema|) && ValidEntries(schema, entries) && k < |entries|
    ensures r.Ok? && Tokenizes(dictionaries, r.value, entries[k].1)
  {
    hide *;
    var row := entries[k].1;
    var tokens: seq<nat> := [];
    RowWidth(schema, entries, dictionaries, k);
    for c := 0 to |row|
      invariant |tokens| == c
      invariant forall d :: 0 <= d < c ==> TokenizesOne(dictionaries[d], tokens[d], row[d])
    {
      InDictionary(schema, entries, dictionaries, k, c);
      var token := TokenOf(dictionaries[c], row[c]);
      if token.Err? {
        return Err(InvalidData);
      }
      tokens := tokens + [token.value];
    }
    AllTokenized(dictionaries, tokens, row);
    return Ok(tokens);
  }

  method TokenOf(d: Dictionary, value: Value) returns (r: Result<nat>)
    requires d.Valid()
    ensures r.Ok? <== HasToken(d, value)
    ensures r.Ok? && HasToken(d, value) ==> TokenizesOne(d, r.value, value)
  {
    if value.None? {
      return Ok(0);
    }
    var token := d.Token(value.value);
    return if token.Some? then Ok(token.value) else Err(InvalidData);
  }

  ghost predicate HasToken(d: Dictionary, value: Value) {
    if value.Some? then exists i :: 0 <= i < d.ValueCount() && d.Texts()[i] == value.value
    else 0 < d.Cardinality() && d.Meaning(0) == None
  }

  lemma RowWidth(schema: Schema, entries: seq<Entry>, dictionaries: seq<Dictionary>, k: nat)
    requires Dictionarized(schema, entries, dictionaries, |schema|) && ValidEntries(schema, entries) && k < |entries|
    ensures |entries[k].1| == |schema| == |dictionaries|
  {
    assert ValidRow(schema, entries[k].1);
  }

  lemma AllTokenized(dictionaries: seq<Dictionary>, tokens: seq<nat>, row: Row)
    requires |tokens| == |row| == |dictionaries|
    requires forall d :: 0 <= d < |row| ==> TokenizesOne(dictionaries[d], tokens[d], row[d])
    ensures Tokenizes(dictionaries, tokens, row)
  {
  }

  lemma InDictionary(schema: Schema, entries: seq<Entry>, dictionaries: seq<Dictionary>, k: nat, c: nat)
    requires Dictionarized(schema, entries, dictionaries, |schema|) && ValidEntries(schema, entries)
    requires k < |entries| && c < |schema|
    ensures |entries[k].1| == |schema| && dictionaries[c].Valid()
    ensures HasToken(dictionaries[c], entries[k].1[c])
  {
    assert ValidRow(schema, entries[k].1);
    if entries[k].1[c].Some? {
      assert entries[k].1[c].value in TextsOf(entries, c);
      assert entries[k].1[c].value in Members(dictionaries[c].Texts());
    }
  }

  ghost predicate TokenizesAll(dictionaries: seq<Dictionary>, table: seq<seq<nat>>, entries: seq<Entry>, n: nat) {
    && |table| == n <= |entries|
    && forall k :: 0 <= k < n ==> Tokenizes(dictionaries, table[k], entries[k].1)
  }

  /** Second pass: the token rows, pushed in batches. */
  method StreamRows(schema: Schema, entries: seq<Entry>, dictionaries: seq<Dictionary>, pageRows: nat, batchRows: nat)
    returns (r: Result<(seq<Segment>, nat, nat)>)
    requires Dictionarized(schema, entries, dictionaries, |schema|) && ValidEntries(schema, entries)
    requires pageRows > 0 && batchRows > 0
    ensures r.Ok? <== 0 < |entries| <= U32_MAX
    ensures r.Ok? ==>
              && 0 < |entries| == r.value.2 && TokenizesAll(dictionaries, Concat(r.value.0), entries, |entries|)
              && Contiguous(r.value.0, Concat(r.value.0), pageRows, r.value.1)
  {
    hide *;
    var builder := new StreamBuilder(pageRows);
    BuilderReady(builder);
    var batch: seq<seq<nat>> := [];
    ghost var table: seq<seq<nat>> := [];
    TokenizesNone(dictionaries, entries);
    for k := 0 to |entries|
      invariant fresh(builder) && builder.Ready() && builder.pageRows == pageRows
      invariant builder.Written() + batch == table && TokenizesAll(dictionaries, table, entries, k)
    {
      var tokens := TokenRow(schema, entries, dictionaries, k);
      TokenizesMore(dictionaries, table, entries, k, tokens.value);
      batch := batch + [tokens.value];
      ghost var written := builder.Written();
      table := table + [tokens.value];
      assert written + batch == table;
      if |batch| >= batchRows {
        FewPages(written + batch, table, k + 1, |entries|, pageRows);
        var pushed := builder.PushBatch(batch);
        if pushed.Err? {
          return Err(pushed.error);
        }
        batch := [];
        assert builder.Written() + batch == builder.Written();
      }
    }
    AllRows(dictionaries, table, entries);
    FewPages(builder.Written() + batch, table, |entries|, |entries|, pageRows);
    var pushed := builder.PushBatch(batch);
    if pushed.Err? {
      return Err(pushed.error);
    }
    assert builder.Written() == table;
    r := builder.Finish();
  }

  lemma AllRows(dictionaries: seq<Dictionary>, table: seq<seq<nat>>, entries: seq<Entry>)
    ensures TokenizesAll(dictionaries, table, entries, |entries|) ==> |table| == |entries|
  {
  }

  lemma BuilderReady(b: StreamBuilder)
    requires b.Valid() && b.carry == [] && b.segments == []
    ensures b.Ready()
    ensures b.Written() + [] == b.Written()
  {
  }

  lemma TokenizesNone(dictionaries: seq<Dictionary>, entries: seq<Entry>)
    ensures TokenizesAll(dictionaries, [], entries, 0)
  {
  }

  lemma TokenizesMore(dictionaries: seq<Dictionary>, table: seq<seq<nat>>, entries: seq<Entry>, k: nat, tokens: seq<nat>)
    requires TokenizesAll(dictionaries, table, entries, k) && k < |entries| && Tokenizes(dictionaries, tokens, entries[k].1)
    ensures TokenizesAll(dictionaries, table + [tokens], entries, k + 1)
    ensures |table| == k
  {
  }

  lemma FewPages(written: seq<seq<nat>>, table: seq<seq<nat>>, n: nat, rows: nat, pageRows: nat)
    requires pageRows > 0 && written == table && |table| <= n <= rows
    ensures rows <= U32_MAX ==> FullPages(|written|, pageRows) <= U32_MAX && PagesIn(|written|, pageRows) <= U32_MAX
  {
  }

  // --------------------------------------------------------------------------------- indexes

  /** What an exact index can be built over. */
  ghost predicate Indexable(columns: seq<nat>, cards: seq<nat>) {
    columns != [] && ColumnsOf(columns, cards) && Space(columns, cards) <= U64_MAX
  }

  ghost predicate IndexesHold(hierarchies: seq<RowHierarchy>, specs: seq<seq<nat>>, table: seq<seq<nat>>, cards: seq<nat>, n: nat) {
    && |hierarchies| == n <= |specs| && Tokens(table, cards)
    && forall i :: 0 <= i < n ==> Indexable(specs[i], cards) && IndexHolds(hierarchies[i], specs[i], table, cards)
  }

  ghost predicate IndexHolds(h: RowHierarchy, columns: seq<nat>, table: seq<seq<nat>>, cards: seq<nat>) {
    && Tokens(table, cards) && ColumnsOf(columns, cards) && h.columns == columns
    && h.data.Holds(KeysOf(table, columns, cards))
  }

  method BuildIndexes(table: seq<seq<nat>>, cards: seq<nat>, specs: seq<seq<nat>>, maxSortRecords: nat)
    returns (r: Result<seq<RowHierarchy>>)
    requires Tokens(table, cards) && forall c :: 0 <= c < |cards| ==> cards[c] > 0
    ensures r.Ok? <==> specs == [] || (maxSortRecords > 0 && |table| <= U32_MAX && forall i :: 0 <= i < |specs| ==> Indexable(specs[i], cards))
    ensures r.Ok? ==> IndexesHold(r.value, specs, table, cards, |specs|)
  {
    hide *;
    var out: seq<RowHierarchy> := [];
    NoIndexes(specs, table, cards);
    for i := 0 to |specs|
      invariant i > 0 ==> maxSortRecords > 0 && |table| <= U32_MAX
      invariant IndexesHold(out, specs, table, cards, i)
      invariant forall k :: 0 <= k < i ==> Indexable(specs[k], cards)
    {
      var built := BuildIndex(table, cards, specs[i], maxSortRecords);
      if built.Err? {
        return Err(built.error);
      }
      MoreIndexes(out, specs, table, cards, i, built.value);
      out := out + [built.value];
    }
    return Ok(out);
  }

  method BuildIndex(table: seq<seq<nat>>, cards: seq<nat>, columns: seq<nat>, maxSortRecords: nat) returns (r: Result<RowHierarchy>)
    requires Tokens(table, cards) && forall c :: 0 <= c < |cards| ==> cards[c] > 0
    ensures r.Ok? <==> maxSortRecords > 0 && |table| <= U32_MAX && Indexable(columns, cards)
    ensures r.Ok? ==> IndexHolds(r.value, columns, table, cards)
  {
    TokensKeyed(table, columns, cards);
    var built := ExactIndexes.BuildExact(table, columns, cards, maxSortRecords);
    return if built.Ok? then Ok(RowHierarchy(columns, built.value)) else Err(built.error);
  }

  lemma NoIndexes(specs: seq<seq<nat>>, table: seq<seq<nat>>, cards: seq<nat>)
    requires Tokens(table, cards)
    ensures IndexesHold([], specs, table, cards, 0)
  {
  }

  lemma MoreIndexes(out: seq<RowHierarchy>, specs: seq<seq<nat>>, table: seq<seq<nat>>, cards: seq<nat>, i: nat, h: RowHierarchy)
    requires IndexesHold(out, specs, table, cards, i) && i < |specs|
    requires Indexable(specs[i], cards) && IndexHolds(h, specs[i], table, cards)
    ensures IndexesHold(out + [h], specs, table, cards, i + 1)
  {
    hide Tokens, Indexable, IndexHolds;
  }

  /** The canonical rows, read segment by segment. */
  method CanonicalRows(segments: seq<Segment>) returns (table: seq<seq<nat>>)
    ensures table == Concat(segments)
  {
    table := [];
    for i := 0 to |segments|
      invariant table == Concat(segments[..i])
    {
      assert segments[..i + 1][..i] == segments[..i];
      table := table + segments[i].rows;
    }
    assert segments[..|segments|] == segments;
  }

  /** One index a column, and the accelerators. */
  function Specs(schema: Schema, accelerators: seq<seq<nat>>): (specs: seq<seq<nat>>)
    ensures |specs| == |schema| + |accelerators|
    ensures forall c :: 0 <= c < |schema| ==> specs[c] == [c]
    ensures forall i :: 0 <= i < |accelerators| ==> specs[|schema| + i] == accelerators[i]
  {
    seq<seq<nat>>(|schema|, c requires 0 <= c => [c]) + accelerators
  }

  method CardinalitiesOf(dictionaries: seq<Dictionary>) returns (cards: seq<nat>)
    ensures |cards| == |dictionaries| && forall c :: 0 <= c < |cards| ==> cards[c] == dictionaries[c].Cardinality()
  {
    cards := [];
    for c := 0 to |dictionaries|
      invariant |cards| == c && forall d :: 0 <= d < c ==> cards[d] == dictionaries[d].Cardinality()
    {
      cards := cards + [dictionaries[c].Cardinality()];
    }
  }

  method WriteRowIds(entries: seq<Entry>) returns (r: Result<seq<nat>>)
    ensures r.Ok? <==> Increasing(EntryIds(entries))
    ensures r.Ok? ==> r.value == EntryIds(entries)
  {
    var writer := new RowIdWriter(|entries|);
    var ids := EntryIds(entries);
    for k := 0 to |entries|
      invariant fresh(writer) && writer.Valid() && writer.ids == ids[..k] && Increasing(ids[..k])
      invariant writer.expected == |entries|
    {
      assert ids[..k + 1] == ids[..k] + [ids[k]];
      assert k < |entries| == writer.expected;
      var pushed := writer.Push(entries[k].0);
      if pushed.Err? {
        var x :| x in ids[..k] && entries[k].0 <= x;
        return Err(pushed.error);
      }
    }
    assert ids[..|entries|] == ids;
    r := writer.Finish();
  }

  // --------------------------------------------------------------------------------- datasets

  /** What a dataset can be built from: rows of the schema in ID order, few enough for 32-bit row
      numbers, and indexes whose keys fit 64 bits. */
  ghost predicate Buildable(schema: Schema, entries: seq<Entry>, config: WriteConfig, accelerators: seq<seq<nat>>) {
    && 0 < |entries| <= U32_MAX && config.batchRows > 0 && config.maxSortRecords > 0 && config.dictionaryRunBytes > 0
    && Increasing(EntryIds(entries)) && ValidEntries(schema, entries)
    && forall i :: 0 <= i < |accelerators| ==> Indexable(accelerators[i], Cards(schema, entries))
  }

  /** Builds a dataset that holds exactly the given rows. It fails exactly when they cannot be built. */
  method BuildDataset(schema: Schema, entries: seq<Entry>, pageRows: nat, config: WriteConfig, accelerators: seq<seq<nat>>)
    returns (r: Result<LogicalDataset>)
    requires ValidSchema(schema) && pageRows > 0
    requires forall k :: 0 <= k < |entries| ==> entries[k].0 <= U64_MAX
    ensures r.Ok? <==> Buildable(schema, entries, config, accelerators)
    ensures r.Ok? ==> r.value.Valid() && r.value.schema == schema && Records(r.value.Content(), entries)
    ensures r.Ok? ==> forall s :: HasIndex(r.value.engine.rowHier, s) <==> (|s| == 1 && s[0] < |schema|) || s in accelerators
  {
    hide *;
    if entries == [] || |entries| > U32_MAX || config.batchRows == 0 || config.maxSortRecords == 0 || config.dictionaryRunBytes == 0 {
      NotBuildable(schema, entries, config, accelerators);
      return Err(InvalidInput);
    }
    BuildableParts(schema, entries, config, accelerators);
    var ids := WriteRowIds(entries);
    if ids.Err? {
      return Err(ids.error);
    }
    var texts := ColumnTexts(schema, entries);
    if texts.Err? {
      return Err(texts.error);
    }
    CardBounds(schema, entries);
    var dictionaries := BuildDictionaries(schema, entries, texts.value, config.dictionaryRunBytes);
    if dictionaries.Err? {
      return Err(InvalidData);
    }
    var streamed := StreamRows(schema, entries, dictionaries.value, pageRows, config.batchRows);
    if streamed.Err? {
      return Err(InvalidData);
    }
    var segments, pages, count := streamed.value.0, streamed.value.1, streamed.value.2;
    var table := CanonicalRows(segments);
    var cards := CardinalitiesOf(dictionaries.value);
    TableTokens(schema, entries, dictionaries.value, table, cards);
    SpecsIndexable(schema, entries, config, accelerators, cards);
    var hierarchies := BuildIndexes(table, cards, Specs(schema, accelerators), config.maxSortRecords);
    if hierarchies.Err? {
      return Err(hierarchies.error);
    }
    var engine := Engine(count, pageRows, pages, cards, [], hierarchies.value, segments);
    var d := LogicalDataset(schema, dictionaries.value, engine, RowIdMap.Explicit(ids.value));
    PartsBuilt(d, entries, Specs(schema, accelerators));
    Built(d, entries, Specs(schema, accelerators));
    SpecsBuilt(d, schema, accelerators);
    return Ok(d);
  }

  /** There is an index on these columns. */
  ghost predicate HasIndex(hierarchies: seq<RowHierarchy>, columns: seq<nat>) {
    exists i :: 0 <= i < |hierarchies| && hierarchies[i].columns == columns
  }

  lemma NotBuildable(schema: Schema, entries: seq<Entry>, config: WriteConfig, accelerators: seq<seq<nat>>)
    requires entries == [] || |entries| > U32_MAX || config.batchRows == 0 || config.maxSortRecords == 0 || config.dictionaryRunBytes == 0
    ensures !Buildable(schema, entries, config, accelerators)
  {
  }

  lemma BuildableParts(schema: Schema, entries: seq<Entry>, config: WriteConfig, accelerators: seq<seq<nat>>)
    requires 0 < |entries| <= U32_MAX && config.batchRows > 0 && config.maxSortRecords > 0 && config.dictionaryRunBytes > 0
    ensures Buildable(schema, entries, config, accelerators) <==>
              && Increasing(EntryIds(entries)) && ValidEntries(schema, entries)
              && forall i :: 0 <= i < |accelerators| ==> Indexable(accelerators[i], Cards(schema, entries))
  {
  }

  lemma CardBounds(schema: Schema, entries: seq<Entry>)
    requires 0 < |entries| <= U32_MAX && ValidEntries(schema, entries)
    ensures forall c :: 0 <= c < |schema| ==> 0 < CardOf(schema, entries, c) <= U32_MAX + 1
  {
    forall c | 0 <= c < |schema| ensures 0 < CardOf(schema, entries, c) <= U32_MAX + 1 {
      FewTexts(entries, c);
      assert ValidRow(schema, entries[0].1);
      if entries[0].1[c].Some? {
        assert entries[0].1[c].value in TextsOf(entries, c);
      }
    }
  }

  lemma TableTokens(schema: Schema, entries: seq<Entry>, dictionaries: seq<Dictionary>, table: seq<seq<nat>>, cards: seq<nat>)
    requires Dictionarized(schema, entries, dictionaries, |schema|) && ValidEntries(schema, entries)
    requires TokenizesAll(dictionaries, table, entries, |entries|)
    requires |cards| == |dictionaries| && forall c :: 0 <= c < |cards| ==> cards[c] == dictionaries[c].Cardinality()
    requires forall c :: 0 <= c < |schema| ==> 0 < CardOf(schema, entries, c)
    ensures Tokens(table, cards) && cards == Cards(schema, entries)
    ensures forall c :: 0 <= c < |cards| ==> cards[c] > 0
    ensures |table| == |entries|
  {
    forall k | 0 <= k < |table| ensures RowTokens(table[k], cards) {
      assert Tokenizes(dictionaries, table[k], entries[k].1);
    }
  }

  lemma SpecsIndexable(schema: Schema, entries: seq<Entry>, config: WriteConfig, accelerators: seq<seq<nat>>, cards: seq<nat>)
    requires cards == Cards(schema, entries) && forall c :: 0 <= c < |schema| ==> 0 < CardOf(schema, entries, c) <= U32_MAX + 1
    ensures (forall i :: 0 <= i < |Specs(schema, accelerators)| ==> Indexable(Specs(schema, accelerators)[i], cards)) <==>
            (forall i :: 0 <= i < |accelerators| ==> Indexable(accelerators[i], cards))
    ensures ValidSchema(schema) ==> Specs(schema, accelerators) != []
  {
    var specs := Specs(schema, accelerators);
    forall c: nat | c < |schema| ensures Indexable(specs[c], cards) {
      SingleSpace(c, cards);
    }
    if forall i :: 0 <= i < |specs| ==> Indexable(specs[i], cards) {
      forall i | 0 <= i < |accelerators| ensures Indexable(accelerators[i], cards) {
        assert Indexable(specs[|schema| + i], cards);
      }
    }
    forall i | |schema| <= i < |specs| ensures specs[i] == accelerators[i - |schema|] {
    }
  }

  lemma SingleSpace(c: nat, cards: seq<nat>)
    requires c < |cards|
    ensures ColumnsOf([c], cards) && Space([c], cards) == cards[c]
  {
    var one := [c];
    assert one[..|one| - 1] == [];
    assert Space([], cards) == 1;
  }

  /** The engine's parts as the builder leaves them. */
  ghost predicate EngineBuilt(e: Engine, specs: seq<seq<nat>>) {
    && e.pageRows > 0 && e.rows == |Concat(e.segments)| <= U32_MAX && e.pageHier == []
    && Contiguous(e.segments, Concat(e.segments), e.pageRows, e.pages)
    && Tokens(Concat(e.segments), e.cards)
    && (forall c :: 0 <= c < |e.cards| ==> e.cards[c] > 0)
    && IndexesHold(e.rowHier, specs, Concat(e.segments), e.cards, |specs|)
  }

  lemma BuiltEngine(e: Engine, specs: seq<seq<nat>>)
    requires EngineBuilt(e, specs)
    ensures e.Valid() && e.Table() == Concat(e.segments) && Tokens(e.Table(), e.cards)
  {
    hide Contiguous, Tokens, TableKeyed, Wide, KeysOf, RowIndex.Holds;
    assert e.Table() == Concat(e.segments);
    TokensKeyed(e.Table(), [], e.cards);
    assert e.ValidTable();
    forall i | 0 <= i < |e.rowHier| ensures e.ValidRowHier(e.rowHier[i]) {
      assert Indexable(specs[i], e.cards) && IndexHolds(e.rowHier[i], specs[i], Concat(e.segments), e.cards);
      TokensKeyed(e.Table(), specs[i], e.cards);
      assert e.ValidColumns(e.rowHier[i].columns);
    }
  }

  /** The dataset's parts as the builder leaves them. */
  ghost predicate DatasetBuilt(d: LogicalDataset, entries: seq<Entry>) {
    && ValidSchema(d.schema) && Dictionarized(d.schema, entries, d.dictionaries, |d.schema|) && ValidEntries(d.schema, entries)
    && d.rowIds == RowIdMap.Explicit(EntryIds(entries)) && Increasing(EntryIds(entries))
    && (forall k :: 0 <= k < |entries| ==> entries[k].0 <= U64_MAX)
    && TokenizesAll(d.dictionaries, Concat(d.engine.segments), entries, |entries|)
    && |d.engine.cards| == |d.dictionaries|
    && forall c :: 0 <= c < |d.engine.cards| ==> d.engine.cards[c] == d.dictionaries[c].Cardinality()
  }

  lemma Built(d: LogicalDataset, entries: seq<Entry>, specs: seq<seq<nat>>)
    requires EngineBuilt(d.engine, specs) && DatasetBuilt(d, entries)
    ensures d.Valid() && Records(d.Content(), entries)
  {
    BuiltEngine(d.engine, specs);
    hide d.engine.Valid, d.engine.Table, Dictionary.Valid, Dictionary.Meaning, Dictionary.Cardinality;
    assert d.ValidDictionaries();
    assert |entries| == d.engine.rows;
    assert d.Valid();
    forall k | 0 <= k < |entries| ensures entries[k].0 in d.Content() && d.Content()[entries[k].0] == entries[k].1 {
      d.ContentAt(k);
      assert Tokenizes(d.dictionaries, d.engine.Table()[k], entries[k].1);
      assert d.RowAt(k) == entries[k].1;
    }
    ElementsListed(EntryIds(entries));
    assert d.Content().Keys == Elements(EntryIds(entries));
  }

  lemma PartsBuilt(d: LogicalDataset, entries: seq<Entry>, specs: seq<seq<nat>>)
    requires ValidSchema(d.schema) && 0 < |entries| <= U32_MAX && d.engine.pageRows > 0
    requires Dictionarized(d.schema, entries, d.dictionaries, |d.schema|) && ValidEntries(d.schema, entries)
    requires d.rowIds == RowIdMap.Explicit(EntryIds(entries)) && Increasing(EntryIds(entries))
    requires forall k :: 0 <= k < |entries| ==> entries[k].0 <= U64_MAX
    requires TokenizesAll(d.dictionaries, Concat(d.engine.segments), entries, |entries|)
    requires Tokens(Concat(d.engine.segments), d.engine.cards) && |d.engine.cards| == |d.dictionaries|
    requires forall c :: 0 <= c < |d.engine.cards| ==> d.engine.cards[c] == d.dictionaries[c].Cardinality()
    requires forall c :: 0 <= c < |d.engine.cards| ==> d.engine.cards[c] > 0
    requires Contiguous(d.engine.segments, Concat(d.engine.segments), d.engine.pageRows, d.engine.pages)
    requires d.engine.rows == |entries| && d.engine.pageHier == []
    requires IndexesHold(d.engine.rowHier, specs, Concat(d.engine.segments), d.engine.cards, |specs|)
    ensures EngineBuilt(d.engine, specs) && DatasetBuilt(d, entries)
  {
  }

  /** There is an index for every column, and for every accelerator, and no other. */
  lemma SpecsBuilt(d: LogicalDataset, schema: Schema, accelerators: seq<seq<nat>>)
    requires IndexesHold(d.engine.rowHier, Specs(schema, accelerators), Concat(d.engine.segments), d.engine.cards, |Specs(schema, accelerators)|)
    ensures forall s :: HasIndex(d.engine.rowHier, s) <==> (|s| == 1 && s[0] < |schema|) || s in accelerators
  {
    var specs, hierarchies := Specs(schema, accelerators), d.engine.rowHier;
    forall i | 0 <= i < |hierarchies| ensures hierarchies[i].columns == specs[i] {
      assert IndexHolds(hierarchies[i], specs[i], Concat(d.engine.segments), d.engine.cards);
    }
    hide IndexHolds, IndexesHold;
    forall s ensures HasIndex(hierarchies, s) <==> (|s| == 1 && s[0] < |schema|) || s in accelerators {
      if HasIndex(hierarchies, s) {
        var i :| 0 <= i < |hierarchies| && hierarchies[i].columns == s;
        assert s == specs[i];
      }
      if |s| == 1 && s[0] < |schema| {
        assert hierarchies[s[0]].columns == specs[s[0]] == s;
      }
      if s in accelerators {
        var i :| 0 <= i < |accelerators| && accelerators[i] == s;
        assert hierarchies[|schema| + i].columns == s;
      }
    }
  }
}

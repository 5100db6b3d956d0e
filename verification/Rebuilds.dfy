/** The indexes a rewritten dataset gets: which of the old ones it keeps, and when they fit. */
module Rebuilds {
  import opened Wrappers
  import opened RowSets
  import opened Postings
  import opened MixedRadix
  import opened Planner
  import opened Schemas
  import opened DatasetBuilds

  // --------------------------------------------------------------------------- as they are

  /** The multi-column indexes of a dataset, to be built again over other rows of the same columns. */
  function Accelerators(hierarchies: seq<RowHierarchy>): seq<seq<nat>> {
    if hierarchies == [] then []
    else
      var before := Accelerators(hierarchies[..|hierarchies| - 1]);
      var columns := hierarchies[|hierarchies| - 1].columns;
      if |columns| < 2 || columns in before then before else before + [columns]
  }

  /** They are exactly the column lists of two or more that have an index. */
  lemma {:induction false} AcceleratorsAre(hierarchies: seq<RowHierarchy>, s: seq<nat>)
    ensures s in Accelerators(hierarchies) <==> |s| >= 2 && HasIndex(hierarchies, s)
  {
    if hierarchies != [] {
      var rest, last := hierarchies[..|hierarchies| - 1], hierarchies[|hierarchies| - 1];
      AcceleratorsAre(rest, s);
      if HasIndex(rest, s) {
        var i :| 0 <= i < |rest| && rest[i].columns == s;
        assert hierarchies[i].columns == s;
      }
      assert HasIndex(hierarchies, s) <==> HasIndex(rest, s) || last.columns == s;
      if |last.columns| >= 2 && last.columns in Accelerators(rest) {
        AcceleratorsAre(rest, last.columns);
      }
    }
  }

  // ------------------------------------------------------------------------- mapped by name

  function InsertSorted(s: seq<nat>, x: nat): seq<nat> {
    if s == [] then [x]
    else if x < s[0] then [x] + s
    else if x == s[0] then s
    else [s[0]] + InsertSorted(s[1..], x)
  }

  function SortedDistinct(columns: seq<nat>): seq<nat> {
    if columns == [] then [] else InsertSorted(SortedDistinct(columns[1..]), columns[0])
  }

  /** Columns of one schema by name in another; none when a name is missing. */
  function MapColumns(columns: seq<nat>, source: Schema, target: Schema): Option<seq<nat>> {
    if columns == [] then Some([])
    else
      var rest := MapColumns(columns[1..], source, target);
      if rest.None? || columns[0] >= |source| then None
      else
        var c := ColumnIndex(target, source[columns[0]].name);
        if c.None? then None else Some([c.value] + rest.value)
  }

  /** The indexes of one schema that can be built under another, their columns found by name and sorted. */
  function MappedAccelerators(hierarchies: seq<RowHierarchy>, source: Schema, target: Schema): seq<seq<nat>> {
    if hierarchies == [] then []
    else
      var before := MappedAccelerators(hierarchies[..|hierarchies| - 1], source, target);
      var mapped := Mapped(hierarchies[|hierarchies| - 1].columns, source, target);
      if mapped.None? || mapped.value in before then before else before + [mapped.value]
  }

  function Mapped(columns: seq<nat>, source: Schema, target: Schema): Option<seq<nat>> {
    var mapped := if |columns| < 2 then None else MapColumns(columns, source, target);
    if mapped.None? || |SortedDistinct(mapped.value)| != |columns| then None else Some(SortedDistinct(mapped.value))
  }

  ghost predicate Different(columns: seq<nat>) {
    forall i, j :: 0 <= i < j < |columns| ==> columns[i] != columns[j]
  }

  ghost predicate InWidth(columns: seq<nat>, width: nat) {
    forall i :: 0 <= i < |columns| ==> columns[i] < width
  }

  /** The names of some columns. */
  ghost function ColumnNames(schema: Schema, columns: seq<nat>): set<string> {
    set i | 0 <= i < |columns| && columns[i] < |schema| :: schema[columns[i]].name
  }

  /** An ascending list of columns that names in one schema what an index of two or more different columns
      names in another. */
  ghost predicate Renames(s: seq<nat>, target: Schema, columns: seq<nat>, source: Schema) {
    && |columns| >= 2 && Different(columns) && InWidth(columns, |source|)
    && Increasing(s) && InWidth(s, |target|) && ColumnNames(target, s) == ColumnNames(source, columns)
  }

  ghost predicate RenamesIndex(s: seq<nat>, target: Schema, hierarchies: seq<RowHierarchy>, source: Schema) {
    exists i :: 0 <= i < |hierarchies| && Renames(s, target, hierarchies[i].columns, source)
  }

  lemma {:induction false} InsertedSorted(s: seq<nat>, x: nat)
    requires Increasing(s)
    ensures Increasing(InsertSorted(s, x)) && forall y :: y in InsertSorted(s, x) <==> y in s || y == x
    ensures |InsertSorted(s, x)| == |s| + if x in s then 0 else 1
  {
    if s != [] {
      var rest := s[1..];
      assert s == [s[0]] + rest;
      assert forall y :: y in s <==> y == s[0] || y in rest;
      if x > s[0] {
        InsertedSorted(rest, x);
        var more := InsertSorted(rest, x);
        forall i | 0 <= i < |more| ensures s[0] < more[i] {
          assert more[i] in more;
        }
      }
    }
  }

  lemma {:induction false} SortedDistinctIs(columns: seq<nat>)
    ensures Increasing(SortedDistinct(columns)) && forall y :: y in SortedDistinct(columns) <==> y in columns
    ensures |SortedDistinct(columns)| <= |columns| && (|SortedDistinct(columns)| == |columns| <==> Different(columns))
  {
    if columns != [] {
      var rest := columns[1..];
      SortedDistinctIs(rest);
      InsertedSorted(SortedDistinct(rest), columns[0]);
      assert columns == [columns[0]] + rest;
      assert Different(columns) <==> Different(rest) && columns[0] !in rest by {
        DifferentCons(columns[0], rest);
      }
    }
  }

  lemma DifferentCons(x: nat, rest: seq<nat>)
    ensures Different([x] + rest) <==> Different(rest) && x !in rest
  {
    var all := [x] + rest;
    assert forall i :: 0 <= i < |rest| ==> all[i + 1] == rest[i];
    if Different(all) {
      forall i, j | 0 <= i < j < |rest| ensures rest[i] != rest[j] {
        assert all[i + 1] != all[j + 1];
      }
      forall i | 0 <= i < |rest| ensures rest[i] != x {
        assert all[0] != all[i + 1];
      }
    }
  }

  lemma {:induction false} MapColumnsIs(columns: seq<nat>, source: Schema, target: Schema)
    ensures MapColumns(columns, source, target).Some? <==>
            InWidth(columns, |source|) && forall i :: 0 <= i < |columns| ==> ColumnIndex(target, source[columns[i]].name).Some?
    ensures MapColumns(columns, source, target).Some? ==>
              var m := MapColumns(columns, source, target).value;
              && |m| == |columns| && InWidth(m, |target|)
              && forall i :: 0 <= i < |m| ==> target[m[i]].name == source[columns[i]].name
  {
    if columns != [] {
      MapColumnsIs(columns[1..], source, target);
      assert columns == [columns[0]] + columns[1..];
    }
  }

  /** What a list of columns is mapped to. */
  lemma MappedIs(columns: seq<nat>, source: Schema, target: Schema, s: seq<nat>)
    requires ValidSchema(source) && ValidSchema(target)
    ensures Mapped(columns, source, target) == Some(s) <==> Renames(s, target, columns, source)
  {
    MapColumnsIs(columns, source, target);
    hide MapColumns, ValidSchema, SortedDistinct;
    if MapColumns(columns, source, target).Some? {
      MappedFound(columns, source, target, s, MapColumns(columns, source, target).value);
    } else {
      if Renames(s, target, columns, source) {
        MappedLost(columns, source, target, s);
      }
    }
  }

  lemma MappedFound(columns: seq<nat>, source: Schema, target: Schema, s: seq<nat>, m: seq<nat>)
    requires ValidSchema(source) && ValidSchema(target) && InWidth(columns, |source|) && InWidth(m, |target|) && |m| == |columns|
    requires forall i :: 0 <= i < |m| ==> target[m[i]].name == source[columns[i]].name
    ensures Renames(s, target, columns, source) <==> |columns| >= 2 && |SortedDistinct(m)| == |columns| && s == SortedDistinct(m)
  {
    hide ValidSchema, SortedDistinct, ColumnNames, Different, Increasing;
    SortedDistinctIs(m);
    SameNames(columns, source, m, target);
    SameColumns(target, SortedDistinct(m), m);
    if Renames(s, target, columns, source) {
      OneRenaming(s, SortedDistinct(m), target);
    }
  }

  lemma MappedLost(columns: seq<nat>, source: Schema, target: Schema, s: seq<nat>)
    requires Renames(s, target, columns, source)
    ensures InWidth(columns, |source|) && forall i :: 0 <= i < |columns| ==> ColumnIndex(target, source[columns[i]].name).Some?
  {
    forall i | 0 <= i < |columns| ensures ColumnIndex(target, source[columns[i]].name).Some? {
      assert source[columns[i]].name in ColumnNames(source, columns);
      assert source[columns[i]].name in ColumnNames(target, s);
    }
  }

  lemma SameNames(columns: seq<nat>, source: Schema, m: seq<nat>, target: Schema)
    requires ValidSchema(source) && ValidSchema(target) && InWidth(columns, |source|) && InWidth(m, |target|) && |m| == |columns|
    requires forall i :: 0 <= i < |m| ==> target[m[i]].name == source[columns[i]].name
    ensures ColumnNames(target, m) == ColumnNames(source, columns) && (Different(m) <==> Different(columns))
  {
    forall i, j | 0 <= i < |m| && 0 <= j < |m| ensures m[i] == m[j] <==> columns[i] == columns[j] {
      IndexOfName(target, m[i]);
      IndexOfName(target, m[j]);
      IndexOfName(source, columns[i]);
      IndexOfName(source, columns[j]);
    }
    forall name ensures name in ColumnNames(target, m) <==> name in ColumnNames(source, columns) {
      if name in ColumnNames(target, m) {
        var i :| 0 <= i < |m| && target[m[i]].name == name;
        assert source[columns[i]].name == name;
      }
      if name in ColumnNames(source, columns) {
        var i :| 0 <= i < |columns| && source[columns[i]].name == name;
        assert target[m[i]].name == name;
      }
    }
  }

  lemma SameColumns(schema: Schema, s: seq<nat>, m: seq<nat>)
    requires InWidth(m, |schema|) && forall y :: y in s <==> y in m
    ensures InWidth(s, |schema|) && ColumnNames(schema, s) == ColumnNames(schema, m)
  {
    forall i | 0 <= i < |s| ensures s[i] < |schema| {
      assert s[i] in m;
    }
    forall name ensures name in ColumnNames(schema, s) <==> name in ColumnNames(schema, m) {
      if name in ColumnNames(schema, s) {
        var i :| 0 <= i < |s| && schema[s[i]].name == name;
        assert s[i] in m;
      }
      if name in ColumnNames(schema, m) {
        var i :| 0 <= i < |m| && schema[m[i]].name == name;
        assert m[i] in s;
      }
    }
  }

  /** Names determine the ascending list of their columns. */
  lemma OneRenaming(s: seq<nat>, t: seq<nat>, schema: Schema)
    requires ValidSchema(schema) && Increasing(s) && Increasing(t) && InWidth(s, |schema|) && InWidth(t, |schema|)
    requires ColumnNames(schema, s) == ColumnNames(schema, t)
    ensures s == t
  {
    NamedColumns(s, t, schema);
    NamedColumns(t, s, schema);
    ListsUnique(s, t, Elements(s));
  }

  lemma NamedColumns(s: seq<nat>, t: seq<nat>, schema: Schema)
    requires ValidSchema(schema) && InWidth(s, |schema|) && InWidth(t, |schema|) && ColumnNames(schema, s) == ColumnNames(schema, t)
    ensures forall y :: y in s ==> y in t
  {
    forall y | y in s ensures y in t {
      var i :| 0 <= i < |s| && s[i] == y;
      assert schema[y].name in ColumnNames(schema, s);
      var j :| 0 <= j < |t| && schema[t[j]].name == schema[y].name;
      IndexOfName(schema, t[j]);
      IndexOfName(schema, y);
    }
  }

  /** The indexes kept are exactly those whose names are all there: an index of different columns, two or
      more, is kept on the ascending columns of the same names. */
  lemma {:induction false} MappedAre(hierarchies: seq<RowHierarchy>, source: Schema, target: Schema, s: seq<nat>)
    requires ValidSchema(source) && ValidSchema(target)
    ensures s in MappedAccelerators(hierarchies, source, target) <==> RenamesIndex(s, target, hierarchies, source)
  {
    if hierarchies != [] {
      var rest, last := hierarchies[..|hierarchies| - 1], hierarchies[|hierarchies| - 1];
      MappedAre(rest, source, target, s);
      MappedIs(last.columns, source, target, s);
      hide Renames, Mapped;
      var mapped := Mapped(last.columns, source, target);
      if mapped.Some? && mapped.value != s {
        assert s in MappedAccelerators(hierarchies, source, target) <==> s in MappedAccelerators(rest, source, target);
      }
      if RenamesIndex(s, target, rest, source) {
        var i :| 0 <= i < |rest| && Renames(s, target, rest[i].columns, source);
        assert Renames(s, target, hierarchies[i].columns, source);
      }
      assert RenamesIndex(s, target, hierarchies, source) <==>
             RenamesIndex(s, target, rest, source) || Renames(s, target, last.columns, source);
    }
  }

  /** An index whose names are all there is kept. */
  lemma KeptByName(columns: seq<nat>, source: Schema, target: Schema) returns (s: seq<nat>)
    requires ValidSchema(source) && ValidSchema(target) && |columns| >= 2 && Different(columns) && InWidth(columns, |source|)
    requires forall name :: name in ColumnNames(source, columns) ==> exists c :: 0 <= c < |target| && target[c].name == name
    ensures Renames(s, target, columns, source)
  {
    MapColumnsIs(columns, source, target);
    forall i | 0 <= i < |columns| ensures ColumnIndex(target, source[columns[i]].name).Some? {
      assert source[columns[i]].name in ColumnNames(source, columns);
    }
    var m := MapColumns(columns, source, target).value;
    SortedDistinctIs(m);
    SameNames(columns, source, m, target);
    s := Mapped(columns, source, target).value;
    MappedIs(columns, source, target, s);
  }

  // ------------------------------------------------------------------------------ what fits

  /** The texts of a column. */
  ghost function RowTexts(rows: map<nat, Row>, c: nat): set<string> {
    set id | id in rows && c < |rows[id]| && rows[id][c].Some? :: rows[id][c].value
  }

  /** How many tokens each column needs: its texts, and NULL where it is allowed. */
  ghost function RowCards(schema: Schema, rows: map<nat, Row>): (cards: seq<nat>)
    ensures |cards| == |schema|
    ensures forall c :: 0 <= c < |schema| ==> cards[c] == |RowTexts(rows, c)| + if schema[c].nullable then 1 else 0
  {
    seq<nat>(|schema|, c requires 0 <= c < |schema| => |RowTexts(rows, c)| + if schema[c].nullable then 1 else 0)
  }

  lemma RecordCards(schema: Schema, rows: map<nat, Row>, entries: seq<Entry>)
    requires Records(rows, entries)
    ensures Cards(schema, entries) == RowCards(schema, rows) && |entries| == |rows|
  {
    ListsSize(EntryIds(entries), rows.Keys);
    assert |rows.Keys| == |rows|;
    forall c: nat | c < |schema| ensures TextsOf(entries, c) == RowTexts(rows, c) {
      forall id | id in rows ensures exists k :: 0 <= k < |entries| && entries[k].0 == id {
        assert id in EntryIds(entries);
        var k :| 0 <= k < |entries| && EntryIds(entries)[k] == id;
        assert entries[k].0 == id;
      }
      forall text ensures text in TextsOf(entries, c) <==> text in RowTexts(rows, c) {
        if text in RowTexts(rows, c) {
          var id :| id in rows && c < |rows[id]| && rows[id][c] == Some(text);
          var k :| 0 <= k < |entries| && entries[k].0 == id;
        }
      }
    }
  }

  lemma EntriesExist(rows: map<nat, Row>) returns (entries: seq<Entry>)
    ensures Records(rows, entries)
  {
    var ids := Enumerable(rows.Keys);
    forall i | 0 <= i < |ids| ensures ids[i] in rows {
      assert ids[i] in ids;
    }
    entries := seq(|ids|, i requires 0 <= i < |ids| && ids[i] in rows => (ids[i], rows[ids[i]]));
    assert EntryIds(entries) == ids;
  }

  /** The rows cannot be built into a dataset under the configuration. */
  ghost predicate Unbuildable(schema: Schema, rows: map<nat, Row>, config: WriteConfig, accelerators: seq<seq<nat>>) {
    forall entries :: Records(rows, entries) ==>
      !Buildable(schema, entries, config, accelerators)
  }

  /** An index takes more keys than 64 bits have. */
  ghost predicate TooWide(s: seq<nat>, schema: Schema, rows: map<nat, Row>) {
    ColumnsOf(s, RowCards(schema, rows)) && Space(s, RowCards(schema, rows)) > U64_MAX
  }

  /** Rows of the schema cannot be built exactly for a bad configuration, no row, too many rows, or an index
      that is too wide. */
  lemma UnbuildableWhen(schema: Schema, rows: map<nat, Row>, config: WriteConfig, accelerators: seq<seq<nat>>)
    requires forall id :: id in rows ==> ValidRow(schema, rows[id])
    requires forall s :: s in accelerators ==> s != [] && InWidth(s, |schema|)
    ensures Unbuildable(schema, rows, config, accelerators) <==>
            || config.batchRows == 0 || config.maxSortRecords == 0 || config.dictionaryRunBytes == 0
            || |rows| == 0 || |rows| > U32_MAX || exists s :: s in accelerators && TooWide(s, schema, rows)
  {
    var some := EntriesExist(rows);
    forall entries | Records(rows, entries)
      ensures Buildable(schema, entries, config, accelerators) <==>
              && config.batchRows > 0 && config.maxSortRecords > 0 && config.dictionaryRunBytes > 0
              && 0 < |rows| <= U32_MAX && forall s :: s in accelerators ==> !TooWide(s, schema, rows)
    {
      BuildableWhen(schema, rows, entries, config, accelerators);
    }
    hide Records, Buildable, TooWide;
  }

  lemma BuildableWhen(schema: Schema, rows: map<nat, Row>, entries: seq<Entry>, config: WriteConfig, accelerators: seq<seq<nat>>)
    requires Records(rows, entries) && forall id :: id in rows ==> ValidRow(schema, rows[id])
    requires forall s :: s in accelerators ==> s != [] && InWidth(s, |schema|)
    ensures Buildable(schema, entries, config, accelerators) <==>
            && config.batchRows > 0 && config.maxSortRecords > 0 && config.dictionaryRunBytes > 0
            && 0 < |rows| <= U32_MAX && forall s :: s in accelerators ==> !TooWide(s, schema, rows)
  {
    RecordCards(schema, rows, entries);
    assert ValidEntries(schema, entries);
    assert Increasing(EntryIds(entries));
    hide Records, ValidEntries, ValidRow, RowCards, Cards;
    forall i | 0 <= i < |accelerators|
      ensures Indexable(accelerators[i], Cards(schema, entries)) <==> !TooWide(accelerators[i], schema, rows)
    {
      assert accelerators[i] in accelerators;
    }
    hide Indexable, TooWide;
    if forall s :: s in accelerators ==> !TooWide(s, schema, rows) {
      forall i | 0 <= i < |accelerators| ensures Indexable(accelerators[i], Cards(schema, entries)) {
        assert accelerators[i] in accelerators;
      }
    }
  }
}

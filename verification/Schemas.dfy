/** Column schemas, logical rows, and what it means for a row to satisfy equality predicates: the
    specification the storage and query layers are measured against. A result page is described by the
    IDs it lists and the columns it shows. */
module Schemas {
  import opened Wrappers
  import opened RowSets
  import opened Dictionaries

  datatype Kind = Text | Unsigned | Signed | Boolean | Timestamp
  datatype Normalization = AsIs | Trim | Lowercase | TrimLowercase

  datatype Column = Column(name: string, kind: Kind, normalization: Normalization, nullable: bool, nullValues: seq<string>)

  type Schema = seq<Column>
  type Row = seq<Value>

  datatype LogicalPredicate = LogicalPredicate(column: string, value: Value)
  datatype NamedValue = NamedValue(column: string, value: Value)
  datatype LogicalRow = LogicalRow(rowId: nat, values: seq<NamedValue>)
  datatype QueryResult = QueryResult(hits: nat, rows: seq<LogicalRow>)

  /** Nothing but white space. */
  predicate Blank(name: string) {
    forall i :: 0 <= i < |name| ==> WhiteSpace(name[i])
  }

  predicate WhiteSpace(c: char) {
    || '\t' <= c <= '\r' || c == ' ' || c == '\U{85}' || c == '\U{A0}' || c == '\U{1680}' || '\U{2000}' <= c <= '\U{200A}'
    || c == '\U{2028}' || c == '\U{2029}' || c == '\U{202F}' || c == '\U{205F}' || c == '\U{3000}'
  }

  predicate ValidSchema(schema: Schema) {
    && schema != []
    && (forall i :: 0 <= i < |schema| ==> !Blank(schema[i].name) && (!schema[i].nullable ==> schema[i].nullValues == []))
    && (forall i, j :: 0 <= i < j < |schema| ==> schema[i].name != schema[j].name)
  }

  /** The position of a named column. */
  function ColumnIndex(schema: Schema, name: string): (index: Option<nat>)
    ensures index.Some? ==> index.value < |schema| && schema[index.value].name == name
    ensures index.None? ==> forall i :: 0 <= i < |schema| ==> schema[i].name != name
  {
    IndexFrom(schema, name, 0)
  }

  function IndexFrom(schema: Schema, name: string, start: nat): (index: Option<nat>)
    requires start <= |schema|
    ensures index.Some? ==> start <= index.value < |schema| && schema[index.value].name == name
    ensures index.None? ==> forall i :: start <= i < |schema| ==> schema[i].name != name
    decreases |schema| - start
  {
    if start == |schema| then None
    else if schema[start].name == name then Some(start)
    else IndexFrom(schema, name, start + 1)
  }

  lemma IndexOfName(schema: Schema, i: nat)
    requires ValidSchema(schema) && i < |schema|
    ensures ColumnIndex(schema, schema[i].name) == Some(i)
  {
  }

  predicate IsNullLiteral(column: Column, raw: string) {
    column.nullable && raw in column.nullValues
  }

  /** The value a predicate asks for: a null literal asks for NULL. Texts are already canonical. */
  function Wanted(column: Column, value: Value): Value {
    if value.Some? && IsNullLiteral(column, value.value) then None else value
  }

  /** A row satisfies a list of equality predicates. */
  ghost predicate Satisfies(schema: Schema, row: Row, predicates: seq<LogicalPredicate>) {
    forall i :: 0 <= i < |predicates| ==> SatisfiesOne(schema, row, predicates[i])
  }

  ghost predicate SatisfiesOne(schema: Schema, row: Row, p: LogicalPredicate) {
    var c := ColumnIndex(schema, p.column);
    c.Some? && c.value < |row| && row[c.value] == Wanted(schema[c.value], p.value)
  }

  /** Known columns, and NULL asked only of a nullable one. */
  predicate WellFormed(schema: Schema, predicates: seq<LogicalPredicate>) {
    forall i :: 0 <= i < |predicates| ==> WellFormedOne(schema, predicates[i])
  }

  predicate WellFormedOne(schema: Schema, p: LogicalPredicate) {
    var c := ColumnIndex(schema, p.column);
    c.Some? && (p.value.None? ==> schema[c.value].nullable)
  }

  /** A row of the schema: NULL only where the column allows it. */
  ghost predicate ValidRow(schema: Schema, row: Row) {
    |row| == |schema| && forall c :: 0 <= c < |row| && row[c].None? ==> schema[c].nullable
  }

  /** The IDs whose rows satisfy the predicates. */
  ghost function Matching(schema: Schema, rows: map<nat, Row>, predicates: seq<LogicalPredicate>): set<nat> {
    set id | id in rows && Satisfies(schema, rows[id], predicates)
  }

  /** The rows that hold a value in a column. */
  ghost function Holding(rows: map<nat, Row>, c: nat, value: Value): set<nat> {
    set id | id in rows && c < |rows[id]| && rows[id][c] == value
  }

  /** Every null literal of a nullable column asks for NULL, wherever in the list it stands. */
  lemma LiteralAsksNull(schema: Schema, rows: map<nat, Row>, c: nat, i: nat)
    requires ValidSchema(schema) && c < |schema| && schema[c].nullable && i < |schema[c].nullValues|
    ensures Matching(schema, rows, [LogicalPredicate(schema[c].name, Some(schema[c].nullValues[i]))]) == Holding(rows, c, None)
    ensures Matching(schema, rows, [LogicalPredicate(schema[c].name, None)]) == Holding(rows, c, None)
  {
    OneMatching(schema, rows, c, Some(schema[c].nullValues[i]));
    OneMatching(schema, rows, c, None);
  }

  /** Any other text asks for itself, and so does every text where the column is not nullable. */
  lemma TextAsksItself(schema: Schema, rows: map<nat, Row>, c: nat, text: string)
    requires ValidSchema(schema) && c < |schema| && (schema[c].nullable ==> forall i :: 0 <= i < |schema[c].nullValues| ==> schema[c].nullValues[i] != text)
    ensures Matching(schema, rows, [LogicalPredicate(schema[c].name, Some(text))]) == Holding(rows, c, Some(text))
  {
    OneMatching(schema, rows, c, Some(text));
  }

  lemma OneMatching(schema: Schema, rows: map<nat, Row>, c: nat, value: Value)
    requires ValidSchema(schema) && c < |schema|
    ensures Matching(schema, rows, [LogicalPredicate(schema[c].name, value)]) == Holding(rows, c, Wanted(schema[c], value))
  {
    IndexOfName(schema, c);
    var one := [LogicalPredicate(schema[c].name, value)];
    forall id | id in rows
      ensures Satisfies(schema, rows[id], one) <==> c < |rows[id]| && rows[id][c] == Wanted(schema[c], value)
    {
      assert Satisfies(schema, rows[id], one) <==> SatisfiesOne(schema, rows[id], one[0]);
    }
  }

  /** A list of predicates asks for what each of them asks for; an unknown column holds nothing. */
  lemma MatchingEach(schema: Schema, rows: map<nat, Row>, predicates: seq<LogicalPredicate>, p: LogicalPredicate)
    ensures Matching(schema, rows, []) == rows.Keys
    ensures Matching(schema, rows, predicates + [p]) == Matching(schema, rows, predicates) * Matching(schema, rows, [p])
    ensures (forall c :: 0 <= c < |schema| ==> schema[c].name != p.column) ==> Matching(schema, rows, [p]) == {}
  {
    forall id | id in rows
      ensures Satisfies(schema, rows[id], predicates + [p]) <==> Satisfies(schema, rows[id], predicates) && Satisfies(schema, rows[id], [p])
      ensures Satisfies(schema, rows[id], [p]) <==> SatisfiesOne(schema, rows[id], p)
    {
      var all := predicates + [p];
      assert [p][0] == p && all[|predicates|] == p;
      hide SatisfiesOne;
      assert forall i :: 0 <= i < |predicates| ==> all[i] == predicates[i];
      assert forall i :: 0 <= i < |all| ==> all[i] == if i < |predicates| then predicates[i] else p;
    }
  }

  /** What may be asked: a column of the schema, and NULL only of a nullable one. */
  lemma WellFormedMeans(schema: Schema, predicates: seq<LogicalPredicate>)
    requires ValidSchema(schema)
    ensures WellFormed(schema, predicates) <==> forall i :: 0 <= i < |predicates| ==> Asks(schema, predicates[i])
  {
    forall i | 0 <= i < |predicates| ensures WellFormedOne(schema, predicates[i]) <==> Asks(schema, predicates[i]) {
      var p := predicates[i];
      KnownName(schema, p.column);
      if WellFormedOne(schema, p) {
        var c := ColumnIndex(schema, p.column).value;
        assert schema[c].name == p.column;
      }
    }
    hide WellFormedOne, Asks;
  }

  ghost predicate Asks(schema: Schema, p: LogicalPredicate) {
    exists c :: 0 <= c < |schema| && schema[c].name == p.column && (p.value.None? ==> schema[c].nullable)
  }

  ghost predicate Named(schema: Schema, name: string) {
    exists c :: 0 <= c < |schema| && schema[c].name == name
  }

  lemma KnownName(schema: Schema, name: string)
    requires ValidSchema(schema)
    ensures forall c :: 0 <= c < |schema| && schema[c].name == name ==> ColumnIndex(schema, name) == Some(c)
    ensures ColumnIndex(schema, name).Some? <==> Named(schema, name)
  {
    forall c | 0 <= c < |schema| && schema[c].name == name ensures ColumnIndex(schema, name) == Some(c) {
      IndexOfName(schema, c);
    }
    var c := ColumnIndex(schema, name);
    assert c.Some? ==> schema[c.value].name == name;
  }

  // ------------------------------------------------------------------------------ projections

  /** All columns, or the named ones in the order named; fails on an unknown name. */
  method Projection(schema: Schema, select: Option<seq<string>>) returns (r: Result<seq<nat>>)
    ensures select.None? ==> r == Ok(Iota(|schema|))
    ensures select.Some? ==> (r.Ok? <==> forall i :: 0 <= i < |select.value| ==> ColumnIndex(schema, select.value[i]).Some?)
    ensures select.Some? && r.Ok? ==> Projects(schema, select.value, r.value)
    ensures r.Ok? ==> InSchema(schema, r.value)
  {
    if select.None? {
      return Ok(Iota(|schema|));
    }
    var out: seq<nat> := [];
    for i := 0 to |select.value|
      invariant |out| == i
      invariant forall k :: 0 <= k < i ==> ColumnIndex(schema, select.value[k]) == Some(out[k])
    {
      var c := ColumnIndex(schema, select.value[i]);
      if c.None? {
        return Err(InvalidInput);
      }
      out := out + [c.value];
    }
    return Ok(out);
  }

  ghost predicate Projects(schema: Schema, names: seq<string>, projection: seq<nat>) {
    && |projection| == |names|
    && forall i :: 0 <= i < |names| ==> ColumnIndex(schema, names[i]) == Some(projection[i])
  }

  ghost predicate InSchema(schema: Schema, projection: seq<nat>) {
    forall i :: 0 <= i < |projection| ==> projection[i] < |schema|
  }

  /** A row as shown to the caller: the projected columns by name. */
  function Shown(schema: Schema, row: Row, projection: seq<nat>): (out: seq<NamedValue>)
    ensures |out| == |projection|
    ensures forall i :: 0 <= i < |out| && projection[i] < |schema| && projection[i] < |row| ==>
              out[i] == NamedValue(schema[projection[i]].name, row[projection[i]])
  {
    seq(|projection|, i requires 0 <= i < |projection| =>
      if projection[i] < |schema| && projection[i] < |row| then NamedValue(schema[projection[i]].name, row[projection[i]])
      else NamedValue("", None))
  }

  function RowIds(rows: seq<LogicalRow>): (ids: seq<nat>)
    ensures |ids| == |rows| && forall i :: 0 <= i < |rows| ==> ids[i] == rows[i].rowId
  {
    seq(|rows|, i requires 0 <= i < |rows| => rows[i].rowId)
  }

  /** A result page: the given IDs in order, each with its projected values. */
  ghost predicate Shows(page: seq<LogicalRow>, schema: Schema, rows: map<nat, Row>, ids: set<nat>, projection: seq<nat>) {
    && Lists(RowIds(page), ids)
    && ShowsValues(page, schema, rows, projection)
  }

  ghost predicate ShowsValues(page: seq<LogicalRow>, schema: Schema, rows: map<nat, Row>, projection: seq<nat>) {
    forall i :: 0 <= i < |page| ==>
      page[i].rowId in rows && page[i].values == Shown(schema, rows[page[i].rowId], projection)
  }

  // --------------------------------------------------------------------------- rows with IDs

  /** A row and its ID. */
  type Entry = (nat, Row)

  function EntryIds(entries: seq<Entry>): (ids: seq<nat>)
    ensures |ids| == |entries| && forall i :: 0 <= i < |entries| ==> ids[i] == entries[i].0
  {
    seq(|entries|, i requires 0 <= i < |entries| => entries[i].0)
  }

  /** A map holds exactly these entries. */
  ghost predicate Records(rows: map<nat, Row>, entries: seq<Entry>) {
    && Lists(EntryIds(entries), rows.Keys)
    && forall k :: 0 <= k < |entries| ==> entries[k].0 in rows && rows[entries[k].0] == entries[k].1
  }

  lemma RecordsUnique(a: map<nat, Row>, b: map<nat, Row>, entries: seq<Entry>)
    requires Records(a, entries) && Records(b, entries)
    ensures a == b
  {
    SameList(EntryIds(entries), a.Keys, b.Keys);
    forall id | id in a ensures a[id] == b[id] {
      assert id in EntryIds(entries);
      var k :| 0 <= k < |entries| && EntryIds(entries)[k] == id;
    }
  }

  // ---------------------------------------------------------------- order-preserving renumbering

  /** The IDs of a set of positions. */
  ghost function Image(ids: seq<nat>, S: set<nat>): set<nat> {
    set p | p in S && p < |ids| :: ids[p]
  }

  function At(ids: seq<nat>, s: seq<nat>): (out: seq<nat>)
    requires forall i :: 0 <= i < |s| ==> s[i] < |ids|
    ensures |out| == |s| && forall i :: 0 <= i < |s| ==> out[i] == ids[s[i]]
  {
    seq(|s|, i requires 0 <= i < |s| => ids[s[i]])
  }

  lemma ImageLists(ids: seq<nat>, s: seq<nat>, S: set<nat>)
    requires Increasing(ids) && Lists(s, S) && forall p :: p in S ==> p < |ids|
    ensures (forall i :: 0 <= i < |s| ==> s[i] < |ids|) && Lists(At(ids, s), Image(ids, S))
    ensures |Image(ids, S)| == |S|
  {
    forall i | 0 <= i < |s| ensures s[i] < |ids| {
      assert s[i] in s;
    }
    forall x: nat ensures x in At(ids, s) <==> x in Image(ids, S) {
      if x in Image(ids, S) {
        var p :| p in S && ids[p] == x;
        var i :| 0 <= i < |s| && s[i] == p;
        assert At(ids, s)[i] == x;
      }
    }
    ListsSize(At(ids, s), Image(ids, S));
    ListsSize(s, S);
  }

  /** Renumbering upwards keeps which members are the smallest. */
  lemma ImageTop(ids: seq<nat>, S: set<nat>, n: nat)
    requires Increasing(ids) && forall p :: p in S ==> p < |ids|
    ensures Top(Image(ids, S), n) == Image(ids, Top(S, n))
    ensures |Image(ids, S)| == |S|
  {
    var s := Enumerable(S);
    ImageLists(ids, s, S);
    TakeListsTop(s, S, n);
    TakeListsTop(At(ids, s), Image(ids, S), n);
    ImageLists(ids, s[..Min(n, |s|)], Top(S, n));
    assert At(ids, s)[..Min(n, |s|)] == At(ids, s[..Min(n, |s|)]);
    SameList(At(ids, s[..Min(n, |s|)]), Top(Image(ids, S), n), Image(ids, Top(S, n)));
  }

  lemma SameList(s: seq<nat>, S: set<nat>, T: set<nat>)
    requires Lists(s, S) && Lists(s, T)
    ensures S == T
  {
    assert forall x :: x in S <==> x in s;
    assert forall x :: x in T <==> x in s;
  }

  lemma ImageAfter(ids: seq<nat>, S: set<nat>, cursor: Option<nat>, at: nat)
    requires forall p :: p in S ==> p < |ids|
    requires Starts(ids, cursor, at)
    ensures Image(ids, From(S, at)) == After(Image(ids, S), cursor)
  {
    forall x: nat ensures x in Image(ids, From(S, at)) <==> x in After(Image(ids, S), cursor) {
      if x in After(Image(ids, S), cursor) {
        var p :| p in S && ids[p] == x;
        assert p in From(S, at);
      }
    }
  }
}

/** The union schema of a base and its delta layers, and predicates translated for one layer. Translation
    preserves meaning. */
module SchemaUnions {
  import opened Wrappers
  import opened Dictionaries
  import opened Schemas

  /** What may not differ between two columns of the same name. */
  predicate SameMeaning(a: Column, b: Column) {
    a.kind == b.kind && a.normalization == b.normalization && a.nullValues == b.nullValues
  }

  /** Columns of the same name agree. */
  ghost predicate Agrees(a: Schema, b: Schema) {
    forall i, j :: 0 <= i < |a| && 0 <= j < |b| && a[i].name == b[j].name ==> SameMeaning(a[i], b[j])
  }

  /** The layer can be read under the schema: its columns are there with the same meaning, and the
      columns it lacks are nullable. */
  ghost predicate Reads(schema: Schema, layer: Schema) {
    && (forall j :: 0 <= j < |layer| ==> ReadsColumn(schema, layer[j]))
    && (forall i :: 0 <= i < |schema| ==> ColumnIndex(layer, schema[i].name).None? ==> schema[i].nullable)
  }

  ghost predicate ReadsColumn(schema: Schema, column: Column) {
    var c := ColumnIndex(schema, column.name);
    c.Some? && SameMeaning(schema[c.value], column) && (column.nullable ==> schema[c.value].nullable)
  }

  /** Where each column of the schema is in the layer. */
  function SchemaMap(schema: Schema, layer: Schema): (m: seq<Option<nat>>)
    ensures |m| == |schema| && forall c :: 0 <= c < |schema| ==> m[c] == ColumnIndex(layer, schema[c].name)
  {
    seq(|schema|, c requires 0 <= c < |schema| => ColumnIndex(layer, schema[c].name))
  }

  /** A layer row under the union schema: absent columns read as NULL. */
  function Align(m: seq<Option<nat>>, row: Row): (out: Row)
    ensures |out| == |m|
    ensures forall c :: 0 <= c < |m| ==> out[c] == if m[c].Some? && m[c].value < |row| then row[m[c].value] else None
  {
    seq(|m|, c requires 0 <= c < |m| => if m[c].Some? && m[c].value < |row| then row[m[c].value] else None)
  }

  // ------------------------------------------------------------------------------ translation

  /** The predicates to put to a layer; None when no row of the layer can satisfy them. */
  method PredicatesForLayer(schema: Schema, layer: Schema, predicates: seq<LogicalPredicate>)
    returns (r: Result<Option<seq<LogicalPredicate>>>)
    requires ValidSchema(schema) && ValidSchema(layer) && Reads(schema, layer)
    ensures WellFormed(schema, predicates) ==> r.Ok?
    ensures r.Ok? && r.value.None? ==> NoRow(schema, layer, predicates)
    ensures r.Ok? && r.value.Some? ==> WellFormed(layer, r.value.value) && Translates(schema, layer, predicates, r.value.value)
  {
    hide NoRow, Translates;
    var out: seq<LogicalPredicate> := [];
    NothingTranslated(schema, layer);
    for i := 0 to |predicates|
      invariant WellFormed(layer, out) && Translates(schema, layer, predicates[..i], out)
    {
      var p := predicates[i];
      assert predicates[..i + 1] == predicates[..i] + [p];
      var logical := ColumnIndex(schema, p.column);
      if logical.None? {
        assert !WellFormedOne(schema, p);
        return Err(InvalidInput);
      }
      var column := schema[logical.value];
      if p.value.None? && !column.nullable {
        assert !WellFormedOne(schema, p);
        return Err(InvalidInput);
      }
      var isNull := p.value.None? || IsNullLiteral(column, p.value.value);
      var physical := ColumnIndex(layer, column.name);
      if physical.None? {
        if isNull {
          AbsentColumn(schema, layer, predicates[..i], out, p);
          continue;
        }
        NeverSatisfied(schema, layer, predicates, i);
        return Ok(None);
      }
      if isNull && !layer[physical.value].nullable {
        NeverSatisfied(schema, layer, predicates, i);
        return Ok(None);
      }
      SharedColumn(schema, layer, predicates[..i], out, p);
      out := out + [p];
    }
    assert predicates[..|predicates|] == predicates;
    return Ok(Some(out));
  }

  ghost predicate NoRow(schema: Schema, layer: Schema, predicates: seq<LogicalPredicate>) {
    forall row :: ValidRow(layer, row) ==> !Satisfies(schema, Align(SchemaMap(schema, layer), row), predicates)
  }

  /** Same meaning, row by row. */
  ghost predicate Translates(schema: Schema, layer: Schema, predicates: seq<LogicalPredicate>, out: seq<LogicalPredicate>) {
    forall row :: ValidRow(layer, row) ==>
      (Satisfies(layer, row, out) <==> Satisfies(schema, Align(SchemaMap(schema, layer), row), predicates))
  }

  lemma NothingTranslated(schema: Schema, layer: Schema)
    ensures Translates(schema, layer, [], [])
    ensures WellFormed(layer, [])
  {
  }

  lemma SatisfiesSnoc(schema: Schema, row: Row, predicates: seq<LogicalPredicate>, p: LogicalPredicate)
    ensures Satisfies(schema, row, predicates + [p]) <==> Satisfies(schema, row, predicates) && SatisfiesOne(schema, row, p)
  {
    var all := predicates + [p];
    if Satisfies(schema, row, all) {
      assert all[|predicates|] == p;
      forall i | 0 <= i < |predicates| ensures SatisfiesOne(schema, row, predicates[i]) {
        assert all[i] == predicates[i];
      }
    }
  }

  /** NULL asked of a column the layer lacks holds of every layer row. */
  lemma AbsentColumn(schema: Schema, layer: Schema, predicates: seq<LogicalPredicate>, out: seq<LogicalPredicate>, p: LogicalPredicate)
    requires Translates(schema, layer, predicates, out)
    requires ColumnIndex(schema, p.column).Some?
    requires var c := ColumnIndex(schema, p.column).value;
             Wanted(schema[c], p.value) == None && ColumnIndex(layer, schema[c].name).None?
    ensures Translates(schema, layer, predicates + [p], out)
  {
    forall row | ValidRow(layer, row)
      ensures Satisfies(layer, row, out) <==> Satisfies(schema, Align(SchemaMap(schema, layer), row), predicates + [p])
    {
      SatisfiesSnoc(schema, Align(SchemaMap(schema, layer), row), predicates, p);
    }
  }

  lemma SharedColumn(schema: Schema, layer: Schema, predicates: seq<LogicalPredicate>, out: seq<LogicalPredicate>, p: LogicalPredicate)
    requires ValidSchema(schema) && ValidSchema(layer) && Reads(schema, layer)
    requires Translates(schema, layer, predicates, out) && WellFormed(layer, out)
    requires ColumnIndex(schema, p.column).Some?
    requires var c := ColumnIndex(schema, p.column).value;
             var d := ColumnIndex(layer, schema[c].name);
             d.Some? && (Wanted(schema[c], p.value) == None ==> layer[d.value].nullable)
    ensures Translates(schema, layer, predicates + [p], out + [p]) && WellFormed(layer, out + [p])
  {
    var c := ColumnIndex(schema, p.column).value;
    var d := ColumnIndex(layer, p.column).value;
    assert ReadsColumn(schema, layer[d]);
    IndexOfName(schema, c);
    forall row | ValidRow(layer, row)
      ensures Satisfies(layer, row, out + [p]) <==> Satisfies(schema, Align(SchemaMap(schema, layer), row), predicates + [p])
    {
      SatisfiesSnoc(schema, Align(SchemaMap(schema, layer), row), predicates, p);
      SatisfiesSnoc(layer, row, out, p);
      assert Align(SchemaMap(schema, layer), row)[c] == row[d];
      NullableLiteral(schema[c], layer[d], p.value, row[d]);
    }
  }

  /** A null literal of the union may be an ordinary text of a layer column only where that column
      declares no literal. */
  lemma NullableLiteral(union: Column, column: Column, value: Value, held: Value)
    requires SameMeaning(union, column) && (column.nullable ==> union.nullable)
    requires !column.nullable ==> held.Some?
    requires Wanted(union, value) == None ==> column.nullable
    ensures held == Wanted(union, value) <==> held == Wanted(column, value)
  {
  }

  lemma NeverSatisfied(schema: Schema, layer: Schema, predicates: seq<LogicalPredicate>, i: nat)
    requires ValidSchema(schema) && ValidSchema(layer) && Reads(schema, layer)
    requires i < |predicates| && ColumnIndex(schema, predicates[i].column).Some?
    requires var c := ColumnIndex(schema, predicates[i].column).value;
             var d := ColumnIndex(layer, schema[c].name);
             if Wanted(schema[c], predicates[i].value) == None then d.Some? && !layer[d.value].nullable else d.None?
    ensures NoRow(schema, layer, predicates)
  {
    forall row | ValidRow(layer, row) ensures !Satisfies(schema, Align(SchemaMap(schema, layer), row), predicates) {
      assert !SatisfiesOne(schema, Align(SchemaMap(schema, layer), row), predicates[i]);
    }
  }

  /** A layer row read under the union is a row of the union. */
  lemma AlignedRow(schema: Schema, layer: Schema, row: Row)
    requires ValidSchema(schema) && ValidSchema(layer) && Reads(schema, layer) && ValidRow(layer, row)
    ensures ValidRow(schema, Align(SchemaMap(schema, layer), row))
  {
    var m := SchemaMap(schema, layer);
    forall c | 0 <= c < |schema| && Align(m, row)[c].None? ensures schema[c].nullable {
      if m[c].Some? {
        assert ReadsColumn(schema, layer[m[c].value]);
        IndexOfName(schema, c);
      }
    }
  }

  // -------------------------------------------------------------------------------- the union

  /** A column may be NULL in a layer: it is nullable there, or the layer lacks it. */
  ghost predicate NullIn(layer: Schema, name: string) {
    var c := ColumnIndex(layer, name);
    c.Some? ==> layer[c.value].nullable
  }

  ghost predicate NullInSome(schemas: seq<Schema>, name: string) {
    exists s :: 0 <= s < |schemas| && NullIn(schemas[s], name)
  }

  ghost predicate FoundInSome(schemas: seq<Schema>, name: string) {
    exists s :: 0 <= s < |schemas| && ColumnIndex(schemas[s], name).Some?
  }

  lemma SomeSnoc(schemas: seq<Schema>, layer: Schema, name: string)
    ensures NullInSome(schemas + [layer], name) <==> NullInSome(schemas, name) || NullIn(layer, name)
    ensures FoundInSome(schemas + [layer], name) <==> FoundInSome(schemas, name) || ColumnIndex(layer, name).Some?
  {
    hide NullIn;
    var more := schemas + [layer];
    assert more[|schemas|] == layer;
    forall s | 0 <= s < |schemas| ensures more[s] == schemas[s] {
    }
    if NullInSome(schemas, name) {
      var s :| 0 <= s < |schemas| && NullIn(schemas[s], name);
      assert NullIn(more[s], name);
    }
    if FoundInSome(schemas, name) {
      var s :| 0 <= s < |schemas| && ColumnIndex(schemas[s], name).Some?;
      assert ColumnIndex(more[s], name).Some?;
    }
  }

  ghost predicate DistinctNames(columns: Schema) {
    forall i, j :: 0 <= i < j < |columns| ==> columns[i].name != columns[j].name
  }

  function Names(columns: Schema): (names: seq<string>)
    ensures |names| == |columns| && forall i :: 0 <= i < |columns| ==> names[i] == columns[i].name
  {
    seq(|columns|, i requires 0 <= i < |columns| => columns[i].name)
  }

  /** Adds names not yet there, in order. */
  ghost function AddNames(names: seq<string>, columns: Schema): (out: seq<string>)
    ensures |names| <= |out| && out[..|names|] == names
    ensures forall n :: n in out <==> n in names || n in Names(columns)
    decreases |columns|
  {
    if columns == [] then names
    else
      var rest, last := columns[..|columns| - 1], columns[|columns| - 1];
      var before := AddNames(names, rest);
      assert forall n :: n in Names(columns) <==> n in Names(rest) || n == last.name by { NamesSnoc(rest, last); assert columns == rest + [last]; }
      if last.name in before then before else before + [last.name]
  }

  lemma NamesSnoc(columns: Schema, column: Column)
    ensures Names(columns + [column]) == Names(columns) + [column.name]
  {
  }

  /** The column names of all schemas in order of first appearance. */
  ghost function FirstNames(schemas: seq<Schema>): seq<string> {
    if schemas == [] then [] else AddNames(FirstNames(schemas[..|schemas| - 1]), schemas[|schemas| - 1])
  }

  /** Names already there add nothing. */
  lemma {:induction false} AddKnownNames(names: seq<string>, columns: Schema)
    requires forall i :: 0 <= i < |columns| ==> columns[i].name in names
    ensures AddNames(names, columns) == names
    decreases |columns|
  {
    if columns != [] {
      AddKnownNames(names, columns[..|columns| - 1]);
    }
  }

  lemma {:induction false} AddFreshNames(columns: Schema)
    requires DistinctNames(columns)
    ensures AddNames([], columns) == Names(columns)
    decreases |columns|
  {
    if columns != [] {
      var rest, last := columns[..|columns| - 1], columns[|columns| - 1];
      AddFreshNames(rest);
      NamesSnoc(rest, last);
      assert columns == rest + [last];
      forall i | 0 <= i < |rest| ensures rest[i].name != last.name {
        assert rest[i] == columns[i];
      }
    }
  }

  /** The columns of the first n schemas, merged: each comes from one of them, and is nullable only if
      it may be NULL in one of them. */
  ghost predicate Merged(columns: Schema, schemas: seq<Schema>) {
    && DistinctNames(columns)
    && forall i :: 0 <= i < |columns| ==> Originates(columns[i], schemas)
  }

  ghost predicate Originates(column: Column, schemas: seq<Schema>) {
    && (exists s, j :: 0 <= s < |schemas| && 0 <= j < |schemas[s]| && FromColumn(column, schemas[s][j]))
    && (column.nullable ==> NullInSome(schemas, column.name))
  }

  ghost predicate FromColumn(column: Column, c: Column) {
    column.name == c.name && SameMeaning(column, c)
  }

  /** Later merges keep positions, names and meanings, and only add nullability. */
  ghost predicate Extends(columns: Schema, more: Schema) {
    && |columns| <= |more|
    && forall i :: 0 <= i < |columns| ==> FromColumn(more[i], columns[i]) && (columns[i].nullable ==> more[i].nullable)
  }

  lemma IndexUnique(columns: Schema, i: nat)
    requires DistinctNames(columns) && i < |columns|
    ensures ColumnIndex(columns, columns[i].name) == Some(i)
  {
  }

  lemma ExtendsReads(columns: Schema, more: Schema, column: Column)
    requires Extends(columns, more) && DistinctNames(columns) && DistinctNames(more) && ReadsColumn(columns, column)
    ensures ReadsColumn(more, column)
  {
    var i := ColumnIndex(columns, column.name).value;
    assert FromColumn(more[i], columns[i]);
    IndexUnique(more, i);
  }

  lemma NullableKept(column: Column, schemas: seq<Schema>, s: nat)
    requires Originates(column, schemas) && s < |schemas| && NullIn(schemas[s], column.name)
    ensures Originates(column.(nullable := true), schemas)
  {
    var t, j :| 0 <= t < |schemas| && 0 <= j < |schemas[t]| && FromColumn(column, schemas[t][j]);
    assert FromColumn(column.(nullable := true), schemas[t][j]);
  }

  /** Adds one column of a layer, or reports a conflict with the column of that name. */
  method AddColumn(columns: Schema, column: Column, ghost schemas: seq<Schema>, ghost s: nat, ghost j: nat)
    returns (r: Result<Schema>)
    requires Merged(columns, schemas) && s < |schemas| && j < |schemas[s]| && column == schemas[s][j]
    requires ValidSchema(schemas[s]) && (forall k :: 0 <= k < |schemas[0]| ==> ReadsColumn(columns, schemas[0][k]))
    ensures r.Ok? <==> forall i :: 0 <= i < |columns| && columns[i].name == column.name ==> SameMeaning(columns[i], column)
    ensures r.Ok? ==> Merged(r.value, schemas) && Extends(columns, r.value) && ReadsColumn(r.value, column)
    ensures r.Ok? ==> Names(r.value) == if column.name in Names(columns) then Names(columns) else Names(columns) + [column.name]
  {
    var at := ColumnIndex(columns, column.name);
    IndexOfName(schemas[s], j);
    if at.Some? {
      var i := at.value;
      if !SameMeaning(columns[i], column) {
        return Err(InvalidData);
      }
      IndexUnique(columns, i);
      var merged := columns[i].(nullable := columns[i].nullable || column.nullable);
      SharedMerged(columns, i, column, schemas, s, j);
      return Ok(columns[i := merged]);
    }
    NewMerged(columns, column, schemas, s, j);
    return Ok(columns + [column.(nullable := true)]);
  }

  /** A column of a known name keeps its place and may become nullable. */
  lemma SharedMerged(columns: Schema, i: nat, column: Column, schemas: seq<Schema>, s: nat, j: nat)
    requires Merged(columns, schemas) && s < |schemas| && j < |schemas[s]| && column == schemas[s][j] && ValidSchema(schemas[s])
    requires i < |columns| && ColumnIndex(columns, column.name) == Some(i) && SameMeaning(columns[i], column)
    ensures var more := columns[i := columns[i].(nullable := columns[i].nullable || column.nullable)];
            Merged(more, schemas) && Extends(columns, more) && ReadsColumn(more, column) && Names(more) == Names(columns)
  {
    var merged := columns[i].(nullable := columns[i].nullable || column.nullable);
    assert Originates(columns[i], schemas);
    if column.nullable && !columns[i].nullable {
      NullableKept(columns[i], schemas, s);
    }
    IndexUnique(columns, i);
    IndexUnique(columns[i := merged], i);
  }

  /** A column of a new name is NULL in the base, and is added at the end. */
  lemma NewMerged(columns: Schema, column: Column, schemas: seq<Schema>, s: nat, j: nat)
    requires Merged(columns, schemas) && s < |schemas| && j < |schemas[s]| && column == schemas[s][j]
    requires ValidSchema(schemas[s]) && ColumnIndex(columns, column.name).None?
    requires forall k :: 0 <= k < |schemas[0]| ==> ReadsColumn(columns, schemas[0][k])
    ensures var more := columns + [column.(nullable := true)];
            Merged(more, schemas) && Extends(columns, more) && ReadsColumn(more, column) && Names(more) == Names(columns) + [column.name]
  {
    var added := column.(nullable := true);
    assert FromColumn(added, schemas[s][j]);
    AbsentFromBase(columns, schemas[0], column.name);
    assert NullIn(schemas[0], added.name);
    assert Originates(added, schemas);
    IndexUnique(columns + [added], |columns|);
  }

  lemma AbsentFromBase(columns: Schema, base: Schema, name: string)
    requires forall k :: 0 <= k < |base| ==> ReadsColumn(columns, base[k])
    requires ColumnIndex(columns, name).None?
    ensures ColumnIndex(base, name).None?
  {
    forall k | 0 <= k < |base| ensures base[k].name != name {
      assert ReadsColumn(columns, base[k]);
    }
  }

  /** The columns of the schemas before s, and the first j of schema s, are merged in. */
  ghost predicate Covers(columns: Schema, schemas: seq<Schema>, s: nat, j: nat) {
    && (forall t, k :: 0 <= t < |schemas| && t < s && 0 <= k < |schemas[t]| ==> ReadsColumn(columns, schemas[t][k]))
    && (s < |schemas| ==> forall k :: 0 <= k < |schemas[s]| && k < j ==> ReadsColumn(columns, schemas[s][k]))
  }

  lemma CoversStep(columns: Schema, more: Schema, schemas: seq<Schema>, s: nat, j: nat)
    requires Covers(columns, schemas, s, j) && s < |schemas| && j < |schemas[s]|
    requires Extends(columns, more) && Merged(columns, schemas) && Merged(more, schemas) && ReadsColumn(more, schemas[s][j])
    ensures Covers(more, schemas, s, j + 1)
  {
    forall t, k | 0 <= t < s && 0 <= k < |schemas[t]| ensures ReadsColumn(more, schemas[t][k]) {
      ExtendsReads(columns, more, schemas[t][k]);
    }
    forall k | 0 <= k < j ensures ReadsColumn(more, schemas[s][k]) {
      ExtendsReads(columns, more, schemas[s][k]);
    }
  }

  lemma CoversNext(columns: Schema, schemas: seq<Schema>, s: nat)
    requires s < |schemas| && Covers(columns, schemas, s, |schemas[s]|)
    ensures Covers(columns, schemas, s + 1, 0)
  {
    forall t, k | 0 <= t < s + 1 && 0 <= k < |schemas[t]| ensures ReadsColumn(columns, schemas[t][k]) {
      assert t < s || t == s;
    }
  }

  lemma NamesStart(schemas: seq<Schema>, s: nat)
    requires s < |schemas|
    ensures AddNames(FirstNames(schemas[..s]), schemas[s][..0]) == FirstNames(schemas[..s])
  {
  }

  lemma NamesStep(names: seq<string>, columns: Schema, j: nat)
    requires j < |columns|
    ensures var before := AddNames(names, columns[..j]);
            AddNames(names, columns[..j + 1]) == if columns[j].name in before then before else before + [columns[j].name]
  {
    assert columns[..j + 1][..j] == columns[..j];
  }

  lemma NamesNext(schemas: seq<Schema>, s: nat)
    requires s < |schemas|
    ensures AddNames(FirstNames(schemas[..s]), schemas[s][..|schemas[s]|]) == FirstNames(schemas[..s + 1])
  {
    assert schemas[..s + 1][..s] == schemas[..s];
    assert schemas[s][..|schemas[s]|] == schemas[s];
  }

  lemma BaseMerged(schemas: seq<Schema>)
    requires schemas != [] && ValidSchema(schemas[0])
    ensures Merged(schemas[0], schemas) && Covers(schemas[0], schemas, 1, 0)
    ensures Names(schemas[0]) == FirstNames(schemas[..1])
  {
    var base := schemas[0];
    ReadsSelf(base);
    forall i | 0 <= i < |base| ensures Originates(base[i], schemas) {
      assert FromColumn(base[i], schemas[0][i]);
      assert base[i].nullable ==> NullIn(schemas[0], base[i].name);
    }
    hide Originates;
    UnionOfOne(base);
    assert schemas[..1] == [base];
    assert Merged(base, schemas);
  }

  lemma CoversBase(columns: Schema, schemas: seq<Schema>, s: nat, j: nat)
    requires Covers(columns, schemas, s, j) && s > 0 && schemas != []
    ensures forall k :: 0 <= k < |schemas[0]| ==> ReadsColumn(columns, schemas[0][k])
  {
  }

  /** A conflict with the merged columns is a conflict between two of the schemas. */
  lemma Conflict(columns: Schema, schemas: seq<Schema>, s: nat, j: nat)
    requires Merged(columns, schemas) && s < |schemas| && j < |schemas[s]|
    requires exists i :: 0 <= i < |columns| && columns[i].name == schemas[s][j].name && !SameMeaning(columns[i], schemas[s][j])
    ensures exists a, b :: 0 <= a < |schemas| && 0 <= b < |schemas| && !Agrees(schemas[a], schemas[b])
  {
    var i :| 0 <= i < |columns| && columns[i].name == schemas[s][j].name && !SameMeaning(columns[i], schemas[s][j]);
    assert Originates(columns[i], schemas);
    var s0, j0 :| 0 <= s0 < |schemas| && 0 <= j0 < |schemas[s0]| && FromColumn(columns[i], schemas[s0][j0]);
    assert !Agrees(schemas[s0], schemas[s]);
  }

  /** The merged schema of all layers. */
  ghost predicate IsUnion(schema: Schema, schemas: seq<Schema>) {
    && (forall s :: 0 <= s < |schemas| ==> Reads(schema, schemas[s]))
    && (forall i :: 0 <= i < |schema| ==> FoundInSome(schemas, schema[i].name))
    && (forall i :: 0 <= i < |schema| ==> (schema[i].nullable <==> NullInSome(schemas, schema[i].name)))
    && Names(schema) == FirstNames(schemas)
  }

  lemma UnionAgrees(schema: Schema, schemas: seq<Schema>)
    requires forall s :: 0 <= s < |schemas| ==> Reads(schema, schemas[s])
    ensures forall a, b :: 0 <= a < |schemas| && 0 <= b < |schemas| ==> Agrees(schemas[a], schemas[b])
  {
    forall a, b, i, j | 0 <= a < |schemas| && 0 <= b < |schemas| && 0 <= i < |schemas[a]| && 0 <= j < |schemas[b]|
                        && schemas[a][i].name == schemas[b][j].name
      ensures SameMeaning(schemas[a][i], schemas[b][j])
    {
      assert ReadsColumn(schema, schemas[a][i]) && ReadsColumn(schema, schemas[b][j]);
    }
  }

  predicate LackedBySome(schemas: seq<Schema>, name: string) {
    exists s :: 0 <= s < |schemas| && ColumnIndex(schemas[s], name).None?
  }

  /** The last pass: a column some layer lacks becomes nullable. */
  lemma LastPass(columns: Schema, more: Schema, schemas: seq<Schema>)
    requires schemas != [] && forall s :: 0 <= s < |schemas| ==> ValidSchema(schemas[s])
    requires Merged(columns, schemas) && Covers(columns, schemas, |schemas|, 0) && Names(columns) == FirstNames(schemas)
    requires |more| == |columns|
    requires forall i :: 0 <= i < |columns| ==>
      more[i] == columns[i].(nullable := columns[i].nullable || LackedBySome(schemas, columns[i].name))
    ensures ValidSchema(more) && IsUnion(more, schemas)
  {
    hide *;
    LastExtends(columns, more, schemas);
    LastOriginates(columns, more, schemas);
    LastReads(columns, more, schemas);
    forall i | 0 <= i < |more| ensures UnionColumn(more[i], schemas) {
      MergedColumn(more, schemas, i);
    }
    UnionFrom(more, schemas);
  }

  /** A column as the union has it. */
  ghost predicate UnionColumn(column: Column, schemas: seq<Schema>) {
    && !Blank(column.name) && (!column.nullable ==> column.nullValues == [])
    && FoundInSome(schemas, column.name) && (column.nullable <==> NullInSome(schemas, column.name))
  }

  lemma LastExtends(columns: Schema, more: Schema, schemas: seq<Schema>)
    requires schemas != [] && ValidSchema(schemas[0]) && Covers(columns, schemas, |schemas|, 0)
    requires Merged(columns, schemas) && |more| == |columns|
    requires forall i :: 0 <= i < |columns| ==>
      more[i] == columns[i].(nullable := columns[i].nullable || LackedBySome(schemas, columns[i].name))
    ensures Extends(columns, more) && DistinctNames(more) && Names(more) == Names(columns) && more != []
  {
    SomeColumn(columns, schemas);
    hide LackedBySome, Covers, Originates, ValidSchema, Blank;
  }

  lemma SomeColumn(columns: Schema, schemas: seq<Schema>)
    requires schemas != [] && ValidSchema(schemas[0]) && Covers(columns, schemas, |schemas|, 0)
    ensures columns != []
  {
    hide Blank;
    assert ReadsColumn(columns, schemas[0][0]);
  }

  lemma UnionFrom(schema: Schema, schemas: seq<Schema>)
    requires schema != [] && DistinctNames(schema) && Names(schema) == FirstNames(schemas)
    requires forall s :: 0 <= s < |schemas| ==> Reads(schema, schemas[s])
    requires forall i :: 0 <= i < |schema| ==> UnionColumn(schema[i], schemas)
    ensures ValidSchema(schema) && IsUnion(schema, schemas)
  {
    hide Reads, FoundInSome, NullInSome, FirstNames;
  }

  lemma LastOriginates(columns: Schema, more: Schema, schemas: seq<Schema>)
    requires Merged(columns, schemas) && |more| == |columns|
    requires forall i :: 0 <= i < |columns| ==>
      more[i] == columns[i].(nullable := columns[i].nullable || LackedBySome(schemas, columns[i].name))
    ensures forall i :: 0 <= i < |more| ==> Originates(more[i], schemas)
  {
    forall i | 0 <= i < |more| ensures Originates(more[i], schemas) {
      assert Originates(columns[i], schemas);
      if LackedBySome(schemas, columns[i].name) {
        var t :| 0 <= t < |schemas| && ColumnIndex(schemas[t], columns[i].name).None?;
        NullableKept(columns[i], schemas, t);
      }
    }
  }

  lemma LastReads(columns: Schema, more: Schema, schemas: seq<Schema>)
    requires Merged(columns, schemas) && Covers(columns, schemas, |schemas|, 0) && Extends(columns, more) && DistinctNames(more)
    requires |more| == |columns|
    requires forall i :: 0 <= i < |columns| ==>
      more[i] == columns[i].(nullable := columns[i].nullable || LackedBySome(schemas, columns[i].name))
    ensures forall s :: 0 <= s < |schemas| ==> Reads(more, schemas[s])
  {
    forall s | 0 <= s < |schemas| ensures Reads(more, schemas[s]) {
      forall k | 0 <= k < |schemas[s]| ensures ReadsColumn(more, schemas[s][k]) {
        ExtendsReads(columns, more, schemas[s][k]);
      }
    }
  }

  lemma MergedColumn(more: Schema, schemas: seq<Schema>, i: nat)
    requires i < |more| && DistinctNames(more) && Originates(more[i], schemas)
    requires forall s :: 0 <= s < |schemas| ==> ValidSchema(schemas[s]) && Reads(more, schemas[s])
    ensures UnionColumn(more[i], schemas)
  {
    IndexUnique(more, i);
    var s, j :| 0 <= s < |schemas| && 0 <= j < |schemas[s]| && FromColumn(more[i], schemas[s][j]);
    IndexOfName(schemas[s], j);
    assert ReadsColumn(more, schemas[s][j]);
    forall t | 0 <= t < |schemas| && NullIn(schemas[t], more[i].name) ensures more[i].nullable {
      var c := ColumnIndex(schemas[t], more[i].name);
      if c.Some? {
        assert ReadsColumn(more, schemas[t][c.value]);
      }
    }
  }

  /** Schemas that agree pairwise have a union: the merge of the first s of them. */
  lemma {:induction false} MergeTo(schemas: seq<Schema>, s: nat) returns (columns: Schema)
    requires schemas != [] && forall t :: 0 <= t < |schemas| ==> ValidSchema(schemas[t])
    requires forall a, b :: 0 <= a < |schemas| && 0 <= b < |schemas| ==> Agrees(schemas[a], schemas[b])
    requires 0 < s <= |schemas|
    ensures Merged(columns, schemas) && Covers(columns, schemas, s, 0) && Names(columns) == FirstNames(schemas[..s])
  {
    hide *;
    if s == 1 {
      BaseMerged(schemas);
      columns := schemas[0];
    } else {
      columns := MergeTo(schemas, s - 1);
      NamesStart(schemas, s - 1);
      for j := 0 to |schemas[s - 1]|
        invariant Merged(columns, schemas) && Covers(columns, schemas, s - 1, j)
        invariant Names(columns) == AddNames(FirstNames(schemas[..s - 1]), schemas[s - 1][..j])
      {
        CoversBase(columns, schemas, s - 1, j);
        var more := ColumnAdded(columns, schemas, s - 1, j);
        CoversStep(columns, more, schemas, s - 1, j);
        NamesStep(FirstNames(schemas[..s - 1]), schemas[s - 1], j);
        columns := more;
      }
      CoversNext(columns, schemas, s - 1);
      NamesNext(schemas, s - 1);
    }
  }

  lemma ColumnAdded(columns: Schema, schemas: seq<Schema>, s: nat, j: nat) returns (more: Schema)
    requires Merged(columns, schemas) && s < |schemas| && j < |schemas[s]| && ValidSchema(schemas[s])
    requires forall k :: 0 <= k < |schemas[0]| ==> ReadsColumn(columns, schemas[0][k])
    requires forall a, b :: 0 <= a < |schemas| && 0 <= b < |schemas| ==> Agrees(schemas[a], schemas[b])
    ensures Merged(more, schemas) && Extends(columns, more) && ReadsColumn(more, schemas[s][j])
    ensures Names(more) == if schemas[s][j].name in Names(columns) then Names(columns) else Names(columns) + [schemas[s][j].name]
  {
    var column := schemas[s][j];
    var at := ColumnIndex(columns, column.name);
    hide Agrees, Originates, ReadsColumn, Extends, DistinctNames, SameMeaning;
    if at.Some? {
      if !SameMeaning(columns[at.value], column) {
        Conflict(columns, schemas, s, j);
      }
      IndexUniqueAt(columns, schemas, at.value);
      SharedMerged(columns, at.value, column, schemas, s, j);
      more := columns[at.value := columns[at.value].(nullable := columns[at.value].nullable || column.nullable)];
      assert Names(columns)[at.value] == column.name;
    } else {
      NewMerged(columns, column, schemas, s, j);
      more := columns + [column.(nullable := true)];
    }
  }

  lemma IndexUniqueAt(columns: Schema, schemas: seq<Schema>, i: nat)
    requires Merged(columns, schemas) && i < |columns|
    ensures ColumnIndex(columns, columns[i].name) == Some(i)
  {
    IndexUnique(columns, i);
  }

  lemma UnionExists(schemas: seq<Schema>) returns (u: Schema)
    requires schemas != [] && forall s :: 0 <= s < |schemas| ==> ValidSchema(schemas[s])
    requires forall a, b :: 0 <= a < |schemas| && 0 <= b < |schemas| ==> Agrees(schemas[a], schemas[b])
    ensures ValidSchema(u) && IsUnion(u, schemas)
  {
    hide *;
    var columns := MergeTo(schemas, |schemas|);
    assert schemas[..|schemas|] == schemas;
    u := seq(|columns|, i requires 0 <= i < |columns| =>
      columns[i].(nullable := columns[i].nullable || LackedBySome(schemas, columns[i].name)));
    LastPass(columns, u, schemas);
  }

  /** Schemas agree where columns of one name have the same type, normalization and null literals. */
  ghost predicate Clash(a: Column, b: Column) {
    a.name == b.name && (a.kind != b.kind || a.normalization != b.normalization || a.nullValues != b.nullValues)
  }

  lemma AgreesMeans(a: Schema, b: Schema)
    ensures Agrees(a, b) <==> forall i, j :: 0 <= i < |a| && 0 <= j < |b| ==> !Clash(a[i], b[j])
  {
  }

  /** Some column of that name is nullable, or there is none. */
  ghost predicate LetsNull(layer: Schema, name: string) {
    || (exists j :: 0 <= j < |layer| && layer[j].name == name && layer[j].nullable)
    || (forall j :: 0 <= j < |layer| ==> layer[j].name != name)
  }

  /** A column of the union may be NULL exactly when it may be in a layer that has it, or some layer lacks it. */
  lemma UnionNulls(schema: Schema, schemas: seq<Schema>, i: nat)
    requires IsUnion(schema, schemas) && i < |schema| && forall s :: 0 <= s < |schemas| ==> ValidSchema(schemas[s])
    ensures schema[i].nullable <==> exists s :: 0 <= s < |schemas| && LetsNull(schemas[s], schema[i].name)
  {
    forall s | 0 <= s < |schemas| ensures NullIn(schemas[s], schema[i].name) <==> LetsNull(schemas[s], schema[i].name) {
      NullInMeans(schemas[s], schema[i].name);
    }
    hide Reads, FirstNames, NullIn, LetsNull, FoundInSome;
  }

  lemma NullInMeans(layer: Schema, name: string)
    requires ValidSchema(layer)
    ensures NullIn(layer, name) <==> LetsNull(layer, name)
  {
    KnownName(layer, name);
    var c := ColumnIndex(layer, name);
    if c.Some? {
      assert layer[c.value].name == name;
    }
  }

  /** The union of the layers' schemas, base first; an error exactly when two layers give a column of
      one name different meanings. */
  method MergeLayerSchemas(schemas: seq<Schema>) returns (r: Result<Schema>)
    requires schemas != [] && forall s :: 0 <= s < |schemas| ==> ValidSchema(schemas[s])
    ensures r.Ok? <==> forall a, b :: 0 <= a < |schemas| && 0 <= b < |schemas| ==> Agrees(schemas[a], schemas[b])
    ensures r.Ok? ==> ValidSchema(r.value) && IsUnion(r.value, schemas)
  {
    hide *;
    var columns := schemas[0];
    BaseMerged(schemas);
    for s := 1 to |schemas|
      invariant Merged(columns, schemas) && Covers(columns, schemas, s, 0) && Names(columns) == FirstNames(schemas[..s])
    {
      NamesStart(schemas, s);
      for j := 0 to |schemas[s]|
        invariant Merged(columns, schemas) && Covers(columns, schemas, s, j)
        invariant Names(columns) == AddNames(FirstNames(schemas[..s]), schemas[s][..j])
      {
        CoversBase(columns, schemas, s, j);
        var added := AddColumn(columns, schemas[s][j], schemas, s, j);
        if added.Err? {
          Conflict(columns, schemas, s, j);
          return Err(InvalidData);
        }
        CoversStep(columns, added.value, schemas, s, j);
        NamesStep(FirstNames(schemas[..s]), schemas[s], j);
        columns := added.value;
      }
      CoversNext(columns, schemas, s);
      NamesNext(schemas, s);
    }
    assert schemas[..|schemas|] == schemas;
    var more: Schema := [];
    for i := 0 to |columns|
      invariant |more| == i
      invariant forall k :: 0 <= k < i ==>
        more[k] == columns[k].(nullable := columns[k].nullable || LackedBySome(schemas, columns[k].name))
    {
      more := more + [columns[i].(nullable := columns[i].nullable || LackedBySome(schemas, columns[i].name))];
    }
    LastPass(columns, more, schemas);
    UnionReads(more, schemas);
    UnionAgrees(more, schemas);
    return Ok(more);
  }

  lemma UnionReads(schema: Schema, schemas: seq<Schema>)
    requires IsUnion(schema, schemas)
    ensures forall s :: 0 <= s < |schemas| ==> Reads(schema, schemas[s])
  {
  }

  /** The layers determine their union. */
  lemma UnionUnique(a: Schema, b: Schema, schemas: seq<Schema>)
    requires IsUnion(a, schemas) && IsUnion(b, schemas) && ValidSchema(a) && ValidSchema(b)
    ensures a == b
  {
    forall i | 0 <= i < |a| ensures |a| == |b| && a[i] == b[i] {
      assert Names(a)[i] == Names(b)[i];
      var s :| 0 <= s < |schemas| && ColumnIndex(schemas[s], a[i].name).Some?;
      var c := schemas[s][ColumnIndex(schemas[s], a[i].name).value];
      assert Reads(a, schemas[s]) && Reads(b, schemas[s]);
      assert ReadsColumn(a, c) && ReadsColumn(b, c);
      IndexOfName(a, i);
      IndexOfName(b, i);
    }
    assert |Names(a)| == |Names(b)|;
  }

  lemma ReadsSelf(schema: Schema)
    requires ValidSchema(schema)
    ensures Reads(schema, schema) && forall i :: 0 <= i < |schema| ==> ColumnIndex(schema, schema[i].name) == Some(i)
  {
    forall j | 0 <= j < |schema| ensures ReadsColumn(schema, schema[j]) && ColumnIndex(schema, schema[j].name) == Some(j) {
      IndexOfName(schema, j);
    }
  }

  /** A layer written under the union schema leaves the union as it is. */
  lemma UnionWithItself(schema: Schema, schemas: seq<Schema>)
    requires IsUnion(schema, schemas) && ValidSchema(schema)
    ensures IsUnion(schema, schemas + [schema])
  {
    ReadsSelf(schema);
    hide Reads, NullInSome, FoundInSome, FirstNames, AddNames;
    var more := schemas + [schema];
    forall s | 0 <= s < |more| ensures Reads(schema, more[s]) {
    }
    forall i | 0 <= i < |schema|
      ensures FoundInSome(more, schema[i].name) && (schema[i].nullable <==> NullInSome(more, schema[i].name))
    {
      SomeSnoc(schemas, schema, schema[i].name);
    }
    NamesAgain(schema, schemas);
  }

  lemma NamesAgain(schema: Schema, schemas: seq<Schema>)
    requires Names(schema) == FirstNames(schemas)
    ensures FirstNames(schemas + [schema]) == FirstNames(schemas)
  {
    var more := schemas + [schema];
    assert more[..|more| - 1] == schemas;
    forall i | 0 <= i < |schema| ensures schema[i].name in FirstNames(schemas) {
      assert Names(schema)[i] in Names(schema);
    }
    AddKnownNames(FirstNames(schemas), schema);
  }

  /** A single schema is its own union. */
  lemma UnionOfOne(schema: Schema)
    requires ValidSchema(schema)
    ensures IsUnion(schema, [schema])
  {
    ReadsSelf(schema);
    NamesOfOne(schema);
    hide Reads, NullInSome, FoundInSome, FirstNames, AddNames, ValidSchema;
    var none: seq<Schema> := [];
    assert [schema] == none + [schema];
    forall i | 0 <= i < |schema|
      ensures FoundInSome([schema], schema[i].name) && (schema[i].nullable <==> NullInSome([schema], schema[i].name))
    {
      SomeSnoc(none, schema, schema[i].name);
      NoneNull(schema[i].name);
    }
  }

  lemma NamesOfOne(schema: Schema)
    requires ValidSchema(schema)
    ensures FirstNames([schema]) == Names(schema)
  {
    AddFreshNames(schema);
    assert [schema][..0] == [];
    assert FirstNames([schema]) == AddNames(FirstNames([]), schema);
  }

  lemma NoneNull(name: string)
    ensures !NullInSome([], name)
  {
  }

  /** The base's columns come first in the union. */
  lemma {:induction false} BaseFirst(schema: Schema, schemas: seq<Schema>)
    requires schemas != [] && IsUnion(schema, schemas) && ValidSchema(schemas[0])
    ensures |schemas[0]| <= |schema| && forall c :: 0 <= c < |schemas[0]| ==> schema[c].name == schemas[0][c].name
  {
    FirstNamesBegin(schemas, |schemas|);
    assert schemas[..|schemas|] == schemas;
    hide Reads, NullInSome, FoundInSome, FirstNames, ValidSchema;
    assert |Names(schema)| >= |Names(schemas[0])|;
    forall c | 0 <= c < |schemas[0]| ensures schema[c].name == schemas[0][c].name {
      assert Names(schema)[..|schemas[0]|][c] == Names(schemas[0])[c];
    }
  }

  lemma {:induction false} FirstNamesBegin(schemas: seq<Schema>, n: nat)
    requires 0 < n <= |schemas| && ValidSchema(schemas[0])
    ensures var names := FirstNames(schemas[..n]); |schemas[0]| <= |names| && names[..|schemas[0]|] == Names(schemas[0])
  {
    if n == 1 {
      NamesOfOne(schemas[0]);
      assert schemas[..1] == [schemas[0]];
    } else {
      FirstNamesBegin(schemas, n - 1);
      assert schemas[..n][..n - 1] == schemas[..n - 1];
    }
  }

  /** Adding layers keeps the columns there were, at their places. */
  lemma UnionGrows(a: Schema, schemas: seq<Schema>, b: Schema, layer: Schema)
    requires IsUnion(a, schemas) && IsUnion(b, schemas + [layer]) && ValidSchema(a) && ValidSchema(b)
    ensures |a| <= |b| && forall i :: 0 <= i < |a| ==> a[i].name == b[i].name
  {
    var more := schemas + [layer];
    assert more[..|more| - 1] == schemas;
    assert FirstNames(more) == AddNames(FirstNames(schemas), layer);
    assert |Names(a)| <= |Names(b)|;
    forall i | 0 <= i < |a| ensures |a| <= |b| && a[i].name == b[i].name {
      assert Names(b)[..|Names(a)|] == Names(a);
      assert Names(a)[i] == Names(b)[i];
    }
    assert |Names(a)| <= |Names(b)|;
  }

  /** Read under its own schema, a row is itself. */
  lemma AlignSelf(schema: Schema, row: Row)
    requires ValidSchema(schema) && |row| == |schema|
    ensures Align(SchemaMap(schema, schema), row) == row
  {
    forall c | 0 <= c < |schema| ensures SchemaMap(schema, schema)[c] == Some(c) {
      IndexOfName(schema, c);
    }
  }

  /** Columns already in the union read the same after it grew; new ones read as NULL. */
  lemma AlignGrown(a: Schema, b: Schema, layer: Schema, row: Row)
    requires |a| <= |b| && forall i :: 0 <= i < |a| ==> a[i].name == b[i].name
    requires forall i :: |a| <= i < |b| ==> ColumnIndex(layer, b[i].name).None?
    ensures Align(SchemaMap(b, layer), row) == Align(SchemaMap(a, layer), row) + seq(|b| - |a|, _ => None)
  {
  }
}

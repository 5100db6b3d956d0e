/** Row mutations. Their meaning is to apply them one at a time to the map of visible rows; preparing a
    transaction folds them into patches, deletions and insertions with the same meaning. */
module Mutations {
  import opened Wrappers
  import opened RowSets
  import opened Dictionaries
  import opened Schemas
  import opened VersionedDatasets

  datatype Mutation =
    | Insert(values: map<string, Value>)
    | Update(rowId: nat, values: map<string, Value>)
    | Delete(rowId: nat)

  // -------------------------------------------------------------------- one mutation at a time

  /** A transaction under way: the rows so far, those it updated and those it deleted, and the next ID
      to give out. */
  datatype Transaction = Transaction(rows: map<nat, Row>, updated: set<nat>, deleted: set<nat>, next: nat)

  /** Known columns, and NULL only where the column allows it. */
  predicate Patchable(schema: Schema, values: map<string, Value>) {
    forall name :: name in values ==> PatchableOne(schema, name, values[name])
  }

  predicate PatchableOne(schema: Schema, name: string, value: Value) {
    var c := ColumnIndex(schema, name);
    c.Some? && (value.None? ==> schema[c.value].nullable)
  }

  /** Known columns, and a value for every column that cannot be NULL. */
  predicate Insertable(schema: Schema, values: map<string, Value>) {
    && Patchable(schema, values)
    && forall c :: 0 <= c < |schema| && schema[c].name !in values ==> schema[c].nullable
  }

  function Patched(schema: Schema, row: Row, values: map<string, Value>): (out: Row)
    ensures |out| == |row|
    ensures forall c :: 0 <= c < |row| ==>
              out[c] == if c < |schema| && schema[c].name in values then values[schema[c].name] else row[c]
  {
    seq(|row|, c requires 0 <= c < |row| => if c < |schema| && schema[c].name in values then values[schema[c].name] else row[c])
  }

  /** Columns not given are NULL. */
  function NewRow(schema: Schema, values: map<string, Value>): (out: Row)
    ensures |out| == |schema|
    ensures forall c :: 0 <= c < |schema| ==> out[c] == if schema[c].name in values then values[schema[c].name] else None
  {
    seq(|schema|, c requires 0 <= c < |schema| => if schema[c].name in values then values[schema[c].name] else None)
  }

  /** One mutation. Rows are judged by the snapshot the transaction started from: a row it inserted
      cannot be named, a row it deleted may be deleted again but not updated. A row of the snapshot that is
      neither deleted nor there does not occur in a transaction; the case keeps the function total. */
  function Step(schema: Schema, snapshot: map<nat, Row>, t: Transaction, m: Mutation): Result<Transaction> {
    match m
    case Delete(id) =>
      if id !in snapshot then Err(InvalidInput)
      else Ok(t.(rows := t.rows - {id}, updated := t.updated - {id}, deleted := t.deleted + {id}))
    case Update(id, values) =>
      if id !in snapshot || id in t.deleted || values == map[] || !Patchable(schema, values) then Err(InvalidInput)
      else if id !in t.rows then Ok(t)
      else Ok(t.(rows := t.rows[id := Patched(schema, t.rows[id], values)], updated := t.updated + {id}))
    case Insert(values) =>
      if !Insertable(schema, values) then Err(InvalidInput)
      else Ok(t.(rows := t.rows[t.next := NewRow(schema, values)], next := t.next + 1))
  }

  /** Every value goes to a column of the schema, and NULL only to a nullable one. */
  ghost predicate Fits(schema: Schema, values: map<string, Value>) {
    forall name :: name in values ==>
      exists c :: 0 <= c < |schema| && schema[c].name == name && (values[name].None? ==> schema[c].nullable)
  }

  /** When each mutation succeeds, and what it leaves. An insertion needs known columns, and its row, NULL
      wherever no value is given, must be one of the schema. */
  lemma InsertWhen(schema: Schema, snapshot: map<nat, Row>, t: Transaction, values: map<string, Value>)
    requires ValidSchema(schema)
    ensures var after := Step(schema, snapshot, t, Insert(values));
            && (after.Ok? <==>
                  && ValidRow(schema, NewRow(schema, values))
                  && forall name :: name in values ==> exists c :: 0 <= c < |schema| && schema[c].name == name)
            && (after.Ok? ==> after.value == t.(rows := t.rows[t.next := NewRow(schema, values)], next := t.next + 1))
  {
    InsertableWhen(schema, values);
    hide Insertable, NewRow, ValidRow;
  }

  lemma InsertableWhen(schema: Schema, values: map<string, Value>)
    requires ValidSchema(schema)
    ensures Insertable(schema, values) <==>
            && ValidRow(schema, NewRow(schema, values))
            && forall name :: name in values ==> exists c :: 0 <= c < |schema| && schema[c].name == name
  {
    forall c | 0 <= c < |schema| ensures ColumnIndex(schema, schema[c].name) == Some(c) {
      IndexOfName(schema, c);
    }
    if Insertable(schema, values) {
      forall name | name in values ensures exists c :: 0 <= c < |schema| && schema[c].name == name {
        assert PatchableOne(schema, name, values[name]);
        assert schema[ColumnIndex(schema, name).value].name == name;
      }
      forall c | 0 <= c < |schema| && NewRow(schema, values)[c].None? ensures schema[c].nullable {
        if schema[c].name in values {
          assert PatchableOne(schema, schema[c].name, values[schema[c].name]);
        }
      }
    }
    if ValidRow(schema, NewRow(schema, values)) && forall name :: name in values ==> exists c :: 0 <= c < |schema| && schema[c].name == name {
      forall name | name in values ensures PatchableOne(schema, name, values[name]) {
        var c :| 0 <= c < |schema| && schema[c].name == name;
        assert NewRow(schema, values)[c] == values[name];
      }
    }
  }

  /** An update needs a row of the snapshot that has not been deleted, and a value; every value must fit. */
  lemma UpdateWhen(schema: Schema, snapshot: map<nat, Row>, t: Transaction, id: nat, values: map<string, Value>)
    requires ValidSchema(schema)
    ensures var after := Step(schema, snapshot, t, Update(id, values));
            && (after.Ok? <==> id in snapshot && id !in t.deleted && values.Keys != {} && Fits(schema, values))
            && (after.Ok? && id in t.rows ==>
                  after.value == t.(rows := t.rows[id := Patched(schema, t.rows[id], values)], updated := t.updated + {id}))
  {
    forall name | name in values
      ensures PatchableOne(schema, name, values[name]) <==>
              exists c :: 0 <= c < |schema| && schema[c].name == name && (values[name].None? ==> schema[c].nullable)
    {
      KnownName(schema, name);
      if PatchableOne(schema, name, values[name]) {
        assert schema[ColumnIndex(schema, name).value].name == name;
      }
    }
    hide PatchableOne;
    assert values == map[] <==> values.Keys == {};
  }

  /** A deletion needs a row of the snapshot, deleted already or not. */
  lemma DeleteWhen(schema: Schema, snapshot: map<nat, Row>, t: Transaction, id: nat)
    ensures var after := Step(schema, snapshot, t, Delete(id));
            && (after.Ok? <==> id in snapshot)
            && (after.Ok? ==> after.value == t.(rows := t.rows - {id}, updated := t.updated - {id}, deleted := t.deleted + {id}))
  {
  }

  function Steps(schema: Schema, snapshot: map<nat, Row>, mutations: seq<Mutation>, first: nat): Result<Transaction> {
    if mutations == [] then Ok(Transaction(snapshot, {}, {}, first))
    else
      var before := Steps(schema, snapshot, mutations[..|mutations| - 1], first);
      if before.Err? then before else Step(schema, snapshot, before.value, mutations[|mutations| - 1])
  }

  /** Whatever mutations succeed, every row stays one of the schema. */
  lemma {:induction false} StepsValid(schema: Schema, snapshot: map<nat, Row>, mutations: seq<Mutation>, first: nat)
    requires ValidSchema(schema) && forall id :: id in snapshot ==> ValidRow(schema, snapshot[id])
    requires Steps(schema, snapshot, mutations, first).Ok?
    ensures var t := Steps(schema, snapshot, mutations, first).value;
            forall id :: id in t.rows ==> ValidRow(schema, t.rows[id])
  {
    if mutations != [] {
      var before, last := mutations[..|mutations| - 1], mutations[|mutations| - 1];
      StepsValid(schema, snapshot, before, first);
      StepValid(schema, snapshot, Steps(schema, snapshot, before, first).value, last);
      hide ValidRow, Step;
    }
  }

  lemma StepValid(schema: Schema, snapshot: map<nat, Row>, t: Transaction, m: Mutation)
    requires ValidSchema(schema) && (forall id :: id in t.rows ==> ValidRow(schema, t.rows[id])) && Step(schema, snapshot, t, m).Ok?
    ensures var after := Step(schema, snapshot, t, m).value; forall id :: id in after.rows ==> ValidRow(schema, after.rows[id])
  {
    match m {
      case Insert(values) =>
        InsertWhen(schema, snapshot, t, values);
        hide ValidRow, Step;
      case Update(id, values) =>
        if id in t.rows {
          PatchedValid(schema, t.rows[id], values);
        }
        hide ValidRow, Patchable;
      case Delete(_) => hide ValidRow;
    }
  }

  lemma PatchedValid(schema: Schema, row: Row, values: map<string, Value>)
    requires ValidSchema(schema) && ValidRow(schema, row)
    ensures Patchable(schema, values) ==> ValidRow(schema, Patched(schema, row, values))
  {
    if Patchable(schema, values) {
      forall c | 0 <= c < |schema| && Patched(schema, row, values)[c].None? ensures schema[c].nullable {
        IndexOfName(schema, c);
        assert schema[c].name in values ==> PatchableOne(schema, schema[c].name, values[schema[c].name]);
      }
    }
  }

  lemma {:induction false} StepsFail(schema: Schema, snapshot: map<nat, Row>, mutations: seq<Mutation>, first: nat, k: nat)
    requires k <= |mutations| && Steps(schema, snapshot, mutations[..k], first).Err?
    ensures Steps(schema, snapshot, mutations, first).Err?
  {
    if k < |mutations| {
      assert mutations[..|mutations| - 1][..k] == mutations[..k];
      StepsFail(schema, snapshot, mutations[..|mutations| - 1], first, k);
    } else {
      assert mutations[..k] == mutations;
    }
  }

  // ------------------------------------------------------------------------------ preparation

  datatype Prepared = Prepared(updates: map<nat, map<nat, Value>>, deletes: set<nat>, inserts: seq<Row>)

  function Patch(row: Row, patch: map<nat, Value>): (out: Row)
    ensures |out| == |row|
    ensures forall c :: 0 <= c < |row| ==> out[c] == if c in patch then patch[c] else row[c]
  {
    seq(|row|, c requires 0 <= c < |row| => if c in patch then patch[c] else row[c])
  }

  ghost function InsertedIds(p: Prepared, first: nat): set<nat> {
    Span(first, |p.inserts|)
  }

  /** The rows after the transaction: the snapshot without the deletions, patched, and the insertions
      from `first` on. */
  ghost function PreparedRows(snapshot: map<nat, Row>, p: Prepared, first: nat): map<nat, Row> {
    map id | id in (snapshot.Keys - p.deletes) + InsertedIds(p, first) ::
      if first <= id < first + |p.inserts| then p.inserts[id - first]
      else if id in snapshot then PatchedRow(snapshot[id], p, id) else []
  }

  /** The patch of a row so far. */
  function PatchOf(p: Prepared, id: nat): map<nat, Value> {
    if id in p.updates then p.updates[id] else map[]
  }

  function PatchedRow(row: Row, p: Prepared, id: nat): Row {
    if id in p.updates then Patch(row, p.updates[id]) else row
  }

  /** The patch has only columns of the schema, and NULL only where allowed. */
  ghost predicate ValidPatch(schema: Schema, patch: map<nat, Value>) {
    forall c :: c in patch ==> c < |schema| && (patch[c].None? ==> schema[c].nullable)
  }

  ghost predicate ValidPrepared(schema: Schema, snapshot: map<nat, Row>, p: Prepared) {
    && p.updates.Keys <= snapshot.Keys && p.deletes <= snapshot.Keys && p.updates.Keys !! p.deletes
    && (forall id :: id in p.updates ==> ValidPatch(schema, p.updates[id]))
    && (forall k :: 0 <= k < |p.inserts| ==> ValidRow(schema, p.inserts[k]))
  }

  /** The folded transaction means what the mutations mean one at a time. */
  ghost predicate Folds(schema: Schema, snapshot: map<nat, Row>, first: nat, p: Prepared, t: Transaction) {
    && ValidPrepared(schema, snapshot, p)
    && t.rows == PreparedRows(snapshot, p, first) && t.deleted == p.deletes && t.updated == p.updates.Keys && t.next == first + |p.inserts|
  }

  lemma FoldStart(schema: Schema, snapshot: map<nat, Row>, first: nat)
    ensures Folds(schema, snapshot, first, Prepared(map[], {}, []), Transaction(snapshot, {}, {}, first))
  {
    var p := Prepared(map[], {}, []);
    assert InsertedIds(p, first) == {};
    assert PreparedRows(snapshot, p, first) == snapshot;
  }

  ghost predicate IdsBelow(snapshot: map<nat, Row>, first: nat) {
    forall id :: id in snapshot ==> id < first
  }

  lemma FoldDelete(schema: Schema, snapshot: map<nat, Row>, first: nat, p: Prepared, t: Transaction, id: nat)
    requires Folds(schema, snapshot, first, p, t) && id in snapshot && IdsBelow(snapshot, first)
    ensures Folds(schema, snapshot, first, Prepared(p.updates - {id}, p.deletes + {id}, p.inserts),
              t.(rows := t.rows - {id}, updated := t.updated - {id}, deleted := t.deleted + {id}))
  {
    var q := Prepared(p.updates - {id}, p.deletes + {id}, p.inserts);
    assert InsertedIds(q, first) == InsertedIds(p, first);
    assert PreparedRows(snapshot, q, first) == PreparedRows(snapshot, p, first) - {id};
  }

  /** The columns a patch of named values sets. */
  ghost predicate Extends(schema: Schema, before: map<nat, Value>, values: map<string, Value>, after: map<nat, Value>) {
    && ValidPatch(schema, after)
    && forall c :: 0 <= c < |schema| ==>
         if schema[c].name in values then c in after && after[c] == values[schema[c].name]
         else (c in after <==> c in before) && (c in before ==> after[c] == before[c])
  }

  lemma PatchedTwice(schema: Schema, row: Row, before: map<nat, Value>, values: map<string, Value>, after: map<nat, Value>)
    requires |row| == |schema| && Extends(schema, before, values, after)
    ensures Patch(row, after) == Patched(schema, Patch(row, before), values)
    ensures before == map[] ==> Patch(row, before) == row
    ensures ValidPatch(schema, after)
  {
  }

  lemma FoldUpdate(schema: Schema, snapshot: map<nat, Row>, first: nat, p: Prepared, t: Transaction, id: nat,
                   values: map<string, Value>, patch: map<nat, Value>)
    requires Folds(schema, snapshot, first, p, t) && id in snapshot && id !in p.deletes && IdsBelow(snapshot, first)
    requires Extends(schema, PatchOf(p, id), values, patch)
    requires |snapshot[id]| == |schema|
    ensures id in t.rows
    ensures Folds(schema, snapshot, first, p.(updates := p.updates[id := patch]),
              t.(rows := t.rows[id := Patched(schema, t.rows[id], values)], updated := t.updated + {id}))
  {
    PatchedTwice(schema, snapshot[id], PatchOf(p, id), values, patch);
    RowsPatched(snapshot, p, first, id, patch);
    hide Extends, Patch, Patched, PreparedRows, ValidRow, ValidPatch;
  }

  lemma RowsPatched(snapshot: map<nat, Row>, p: Prepared, first: nat, id: nat, patch: map<nat, Value>)
    requires id in snapshot && id !in p.deletes && IdsBelow(snapshot, first)
    ensures var rows := PreparedRows(snapshot, p, first);
            && PreparedRows(snapshot, p.(updates := p.updates[id := patch]), first) == rows[id := Patch(snapshot[id], patch)]
            && id in rows && rows[id] == if id in p.updates then Patch(snapshot[id], p.updates[id]) else snapshot[id]
  {
    var q := p.(updates := p.updates[id := patch]);
    assert InsertedIds(q, first) == InsertedIds(p, first);
    hide Patch;
    assert PreparedRows(snapshot, q, first) == PreparedRows(snapshot, p, first)[id := Patch(snapshot[id], patch)];
  }

  lemma FoldInsert(schema: Schema, snapshot: map<nat, Row>, first: nat, p: Prepared, t: Transaction, row: Row)
    requires Folds(schema, snapshot, first, p, t) && ValidRow(schema, row) && IdsBelow(snapshot, first)
    ensures Folds(schema, snapshot, first, p.(inserts := p.inserts + [row]),
              t.(rows := t.rows[t.next := row], next := t.next + 1))
  {
    var q := p.(inserts := p.inserts + [row]);
    assert InsertedIds(q, first) == InsertedIds(p, first) + {t.next};
    assert PreparedRows(snapshot, q, first) == PreparedRows(snapshot, p, first)[t.next := row];
  }

  /** A patch from named values, over an earlier patch of the same row. */
  method PatchColumns(schema: Schema, values: map<string, Value>, before: map<nat, Value>) returns (r: Result<map<nat, Value>>)
    requires ValidSchema(schema) && ValidPatch(schema, before)
    ensures r.Ok? <==> Patchable(schema, values)
    ensures r.Ok? ==> Extends(schema, before, values, r.value)
  {
    var patch: map<nat, Value> := before;
    var left := values.Keys;
    while left != {}
      invariant left <= values.Keys && ValidPatch(schema, patch)
      invariant forall name :: name in values && name !in left ==> PatchableOne(schema, name, values[name])
      invariant forall c :: 0 <= c < |schema| ==>
        if schema[c].name in values && schema[c].name !in left then c in patch && patch[c] == values[schema[c].name]
        else (c in patch <==> c in before) && (c in before ==> patch[c] == before[c])
      decreases |left|
    {
      var name :| name in left;
      var c := ColumnIndex(schema, name);
      if c.None? || (values[name].None? && !schema[c.value].nullable) {
        assert !PatchableOne(schema, name, values[name]);
        return Err(InvalidInput);
      }
      patch := patch[c.value := values[name]];
      left := left - {name};
    }
    return Ok(patch);
  }

  method InsertRow(schema: Schema, values: map<string, Value>) returns (r: Result<Row>)
    requires ValidSchema(schema)
    ensures r.Ok? <==> Insertable(schema, values)
    ensures r.Ok? ==> r.value == NewRow(schema, values) && ValidRow(schema, r.value)
  {
    if exists name | name in values :: ColumnIndex(schema, name).None? {
      return Err(InvalidInput);
    }
    var row: Row := [];
    for c := 0 to |schema|
      invariant |row| == c
      invariant forall d :: 0 <= d < c ==> row[d] == NewRow(schema, values)[d] && (row[d].None? ==> schema[d].nullable)
    {
      IndexOfName(schema, c);
      var name := schema[c].name;
      if name in values {
        if values[name].None? && !schema[c].nullable {
          assert !PatchableOne(schema, name, values[name]);
          return Err(InvalidInput);
        }
        row := row + [values[name]];
      } else if schema[c].nullable {
        row := row + [None];
      } else {
        return Err(InvalidInput);
      }
    }
    forall name | name in values ensures PatchableOne(schema, name, values[name]) {
      var c := ColumnIndex(schema, name).value;
      assert row[c] == values[name];
    }
    assert row == NewRow(schema, values);
    return Ok(row);
  }

  /** Folds the mutations of a transaction; fails exactly when there are none or one of them fails. */
  method Prepare(v: Versioned, mutations: seq<Mutation>, ghost first: nat) returns (r: Result<Prepared>)
    requires v.Valid() && ValidSchema(v.schema) && IdsBelow(v.Rows(), first)
    requires forall id :: id in v.Rows() ==> ValidRow(v.schema, v.Rows()[id])
    ensures r.Ok? <==> mutations != [] && Steps(v.schema, v.Rows(), mutations, first).Ok?
    ensures r.Ok? ==> Folds(v.schema, v.Rows(), first, r.value, Steps(v.schema, v.Rows(), mutations, first).value)
  {
    hide *;
    if mutations == [] {
      return Err(InvalidInput);
    }
    ghost var schema, snapshot := v.schema, v.Rows();
    var p := Prepared(map[], {}, []);
    FoldStart(schema, snapshot, first);
    StepsPrefix(schema, snapshot, mutations, first, 0);
    for k := 0 to |mutations|
      invariant Steps(schema, snapshot, mutations[..k], first).Ok?
      invariant Folds(schema, snapshot, first, p, Steps(schema, snapshot, mutations[..k], first).value)
    {
      ghost var t := Steps(schema, snapshot, mutations[..k], first).value;
      StepsPrefix(schema, snapshot, mutations, first, k + 1);
      var next := PrepareOne(v, mutations[k], p, first, t);
      if next.Err? {
        StepsFail(schema, snapshot, mutations, first, k + 1);
        return Err(next.error);
      }
      p := next.value;
    }
    assert mutations[..|mutations|] == mutations;
    return Ok(p);
  }

  lemma StepsPrefix(schema: Schema, snapshot: map<nat, Row>, mutations: seq<Mutation>, first: nat, k: nat)
    requires k <= |mutations|
    ensures k == 0 ==> Steps(schema, snapshot, mutations[..k], first) == Ok(Transaction(snapshot, {}, {}, first))
    ensures k > 0 && Steps(schema, snapshot, mutations[..k - 1], first).Ok? ==>
              Steps(schema, snapshot, mutations[..k], first) ==
              Step(schema, snapshot, Steps(schema, snapshot, mutations[..k - 1], first).value, mutations[k - 1])
  {
    if k > 0 {
      assert mutations[..k][..k - 1] == mutations[..k - 1];
    }
  }

  method PrepareOne(v: Versioned, m: Mutation, p: Prepared, ghost first: nat, ghost t: Transaction) returns (r: Result<Prepared>)
    requires v.Valid() && ValidSchema(v.schema) && IdsBelow(v.Rows(), first)
    requires forall id :: id in v.Rows() ==> ValidRow(v.schema, v.Rows()[id])
    requires Folds(v.schema, v.Rows(), first, p, t)
    ensures r.Ok? <==> Step(v.schema, v.Rows(), t, m).Ok?
    ensures r.Ok? ==> Folds(v.schema, v.Rows(), first, r.value, Step(v.schema, v.Rows(), t, m).value)
  {
    hide *;
    Folded(v.schema, v.Rows(), first, p, t, m);
    match m {
      case Delete(id) =>
        var row := v.RowValues(id);
        if row.value.None? {
          return Err(InvalidInput);
        }
        FoldDelete(v.schema, v.Rows(), first, p, t, id);
        return Ok(Prepared(p.updates - {id}, p.deletes + {id}, p.inserts));
      case Update(id, values) =>
        var row := v.RowValues(id);
        if row.value.None? || id in p.deletes || values == map[] {
          return Err(InvalidInput);
        }
        var patch := PatchColumns(v.schema, values, PatchOf(p, id));
        if patch.Err? {
          return Err(patch.error);
        }
        FoldUpdate(v.schema, v.Rows(), first, p, t, id, values, patch.value);
        return Ok(p.(updates := p.updates[id := patch.value]));
      case Insert(values) =>
        var row := InsertRow(v.schema, values);
        if row.Err? {
          return Err(row.error);
        }
        FoldInsert(v.schema, v.Rows(), first, p, t, row.value);
        return Ok(p.(inserts := p.inserts + [row.value]));
    }
  }

  lemma Folded(schema: Schema, snapshot: map<nat, Row>, first: nat, p: Prepared, t: Transaction, m: Mutation)
    requires Folds(schema, snapshot, first, p, t)
    requires forall id :: id in snapshot ==> ValidRow(schema, snapshot[id])
    ensures match m
            case Delete(id) =>
              Step(schema, snapshot, t, m) ==
              if id !in snapshot then Err(InvalidInput)
              else Ok(t.(rows := t.rows - {id}, updated := t.updated - {id}, deleted := t.deleted + {id}))
            case Update(id, values) =>
              && ValidPatch(schema, PatchOf(p, id))
              && (id in snapshot ==> |snapshot[id]| == |schema|)
              && (id in snapshot && id !in p.deletes ==> id in t.rows)
              && Step(schema, snapshot, t, m) ==
                 if id !in snapshot || id in p.deletes || values == map[] || !Patchable(schema, values) then Err(InvalidInput)
                 else Ok(t.(rows := t.rows[id := Patched(schema, t.rows[id], values)], updated := t.updated + {id}))
            case Insert(values) =>
              Step(schema, snapshot, t, m) ==
              if !Insertable(schema, values) then Err(InvalidInput)
              else Ok(t.(rows := t.rows[t.next := NewRow(schema, values)], next := t.next + 1))
  {
  }
}

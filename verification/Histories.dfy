/** Whole runs: what any sequence of transactions, appends and compactions leaves behind. */
module Histories {
  import opened Wrappers
  import opened Schemas
  import opened SchemaUnions
  import opened VisibilityMaps
  import opened VersionedDatasets
  import opened Mutations
  import opened DeltaWrites
  import opened Appends
  import opened Compactions

  datatype Operation =
    | Transact(mutations: seq<Mutation>)
    | AppendRows(incoming: Schema, rows: seq<Row>)
    | Compact

  /** The plain table: a schema, a row for each ID, and the next ID. */
  datatype Table = Table(schema: Schema, rows: map<nat, Row>, next: nat)

  ghost function TableOf(v: Versioned): Table
    requires v.ValidLayers()
  {
    Table(v.schema, v.Rows(), FirstNewId(v))
  }

  /** What an operation means on a table. Compaction forgets IDs that are no longer in use, so the next
      ID may fall. */
  ghost predicate Means(a: Table, op: Operation, b: Table) {
    match op
    case Transact(mutations) =>
      && Steps(a.schema, a.rows, mutations, a.next).Ok?
      && var t := Steps(a.schema, a.rows, mutations, a.next).value;
      b == Table(a.schema, t.rows, t.next)
    case AppendRows(incoming, rows) =>
      && |a.schema| <= |b.schema| && (forall c :: 0 <= c < |a.schema| ==> b.schema[c].name == a.schema[c].name)
      && AppendedRows(a.rows, b.rows, |b.schema| - |a.schema|, SchemaMap(b.schema, incoming), rows, a.next)
      && b.next == a.next + |rows|
    case Compact =>
      && b.schema == a.schema && b.rows == a.rows
      && (forall id :: id in b.rows ==> id < b.next) && (b.next == 0 || b.next - 1 in b.rows)
  }

  /** What the operation's method promises about the generation it leaves. */
  ghost predicate Evolves(v: Versioned, op: Operation, w: Versioned)
    requires v.ValidLayers()
  {
    match op
    case Transact(mutations) => Applied(v, mutations, w)
    case AppendRows(incoming, rows) =>
      && w.Valid() && Appended(v, incoming, rows, w)
      && rows != [] && w.maxRowId == Some(FirstNewId(v) + |rows| - 1)
      && LastNumber(w.layers) == LastNumber(v.layers) + 1
    case Compact =>
      && w.Valid() && w.Rows() == v.Rows() && w.schema == v.schema
      && LastNumber(w.layers) == 0 && IsGreatest(w.maxRowId, v.Rows())
  }

  /** One operation: the generation stays well formed and means what it should. */
  lemma OperationMeans(v: Versioned, op: Operation, w: Versioned)
    requires v.Valid() && Evolves(v, op, w) && LastNumber(v.layers) + 1 < DELETED_LAYER
    ensures w.Valid() && Means(TableOf(v), op, TableOf(w))
    ensures LastNumber(w.layers) <= LastNumber(v.layers) + 1
  {
    hide v.Valid, v.ValidLayers, w.Valid, w.ValidLayers, v.Rows, w.Rows, Steps, AppendedRows;
    match op {
      case Transact(mutations) =>
        NextIdRises(v.schema, v.Rows(), mutations, FirstNewId(v));
      case AppendRows(_, _) =>
      case Compact =>
    }
  }

  /** A run: each generation evolves into the next. */
  ghost predicate Run(vs: seq<Versioned>, ops: seq<Operation>) {
    && |vs| == |ops| + 1
    && forall i :: 0 <= i < |ops| ==> vs[i].ValidLayers() && Evolves(vs[i], ops[i], vs[i + 1])
  }

  ghost predicate WellFormedTo(vs: seq<Versioned>, n: nat) {
    n < |vs| && forall i :: 0 <= i <= n ==> vs[i].Valid()
  }

  ghost predicate MeansTo(vs: seq<Versioned>, ops: seq<Operation>, n: nat)
    requires WellFormedTo(vs, n) && n <= |ops|
  {
    forall i :: 0 <= i < n ==> Means(TableOf(vs[i]), ops[i], TableOf(vs[i + 1]))
  }

  /** Along a run, every generation is well formed and every step means what the operation means on the
      table, as long as layer numbers stay below the tombstone's. */
  lemma {:induction false} RunMeans(vs: seq<Versioned>, ops: seq<Operation>, n: nat)
    requires Run(vs, ops) && vs[0].Valid() && n <= |ops|
    requires forall i :: 0 <= i < |ops| ==> LastNumber(vs[i].layers) + 1 < DELETED_LAYER
    ensures WellFormedTo(vs, n) && MeansTo(vs, ops, n)
  {
    hide *;
    RunStarts(vs, ops);
    if n > 0 {
      RunMeans(vs, ops, n - 1);
      RunStep(vs, ops, n - 1);
      OperationMeans(vs[n - 1], ops[n - 1], vs[n]);
      OneMore(vs, ops, n - 1);
    }
  }

  lemma RunStarts(vs: seq<Versioned>, ops: seq<Operation>)
    requires Run(vs, ops) && vs[0].Valid()
    ensures |vs| == |ops| + 1 && WellFormedTo(vs, 0) && MeansTo(vs, ops, 0)
  {
  }

  lemma RunStep(vs: seq<Versioned>, ops: seq<Operation>, i: nat)
    requires Run(vs, ops) && i < |ops| && WellFormedTo(vs, i)
    ensures |vs| == |ops| + 1 && vs[i].Valid() && Evolves(vs[i], ops[i], vs[i + 1])
  {
    hide Evolves;
  }

  lemma OneMore(vs: seq<Versioned>, ops: seq<Operation>, n: nat)
    requires WellFormedTo(vs, n) && n < |ops| && MeansTo(vs, ops, n) && n + 1 < |vs| && vs[n].Valid() && vs[n + 1].Valid()
    requires Means(TableOf(vs[n]), ops[n], TableOf(vs[n + 1]))
    ensures WellFormedTo(vs, n + 1) && MeansTo(vs, ops, n + 1)
  {
    hide Means, TableOf, Versioned.Valid;
  }
}

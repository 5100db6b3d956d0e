/** Where the range route misreads rows, and exactly which hit counts and pages are right. */
module RangeTroubles {
  import opened Wrappers
  import opened RowSets
  import opened Dictionaries
  import opened Schemas
  import opened QueryFilters
  import opened Decimals
  import opened StreamMerges
  import opened RangeRoute
  import opened Mutations

  /** A null literal among the texts of a range. */
  ghost predicate SpellsLiteral(column: Column, values: seq<string>) {
    exists k :: 0 <= k < |values| && IsNullLiteral(column, values[k])
  }

  predicate HoldsLiteral(column: Column, value: Value, values: seq<string>) {
    value.Some? && value.value in values && IsNullLiteral(column, value.value)
  }

  /** The rows a range misreads: NULL rows, which it takes in, and rows that store one of the literals it
      spells, which it leaves out. */
  ghost function Troubled(column: Column, rows: map<nat, Row>, c: nat, values: seq<string>): set<nat> {
    set id | id in rows && c < |rows[id]| &&
             ((rows[id][c].None? && SpellsLiteral(column, values)) || HoldsLiteral(column, rows[id][c], values))
  }

  /** The rows that store one of the first n texts, a null literal. */
  ghost function StoredLiterals(column: Column, rows: map<nat, Row>, c: nat, values: seq<string>, n: nat): set<nat>
    requires n <= |values|
  {
    set id | id in rows && c < |rows[id]| && HoldsLiteral(column, rows[id][c], values[..n])
  }

  /** How many of the first n texts are null literals. */
  ghost function Literals(column: Column, values: seq<string>, n: nat): nat
    requires n <= |values|
  {
    if n == 0 then 0 else Literals(column, values, n - 1) + if IsNullLiteral(column, values[n - 1]) then 1 else 0
  }

  /** A range filter, its test, and the texts it spells. */
  ghost predicate RangeOver(schema: Schema, f: Filter, t: Test, values: seq<string>) {
    && ValidSchema(schema) && Decides(schema, f, t) && t.RangeTest? && t.gte.Some? && t.lte.Some? && t.column < |schema|
    && Numeric(schema[t.column].kind) && Spells(schema[t.column].kind, t.gte.value, t.lte.value, values)
  }

  // ------------------------------------------------------------------------------------ pages

  /** One row: in which streams it is, and whether it is in range. */
  lemma RowStreams(schema: Schema, rows: map<nat, Row>, f: Filter, t: Test, values: seq<string>, id: nat)
    requires RangeOver(schema, f, t, values) && CanonicalRows(schema, rows) && id in rows
    ensures t.column < |rows[id]|
    ensures id in Selected(schema, rows, [f]) <==> rows[id][t.column].Some? && rows[id][t.column].value in values
    ensures forall k :: 0 <= k < |values| ==>
              (id in Stream(schema, rows, t.column, values[k]) <==>
                 if IsNullLiteral(schema[t.column], values[k]) then rows[id][t.column] == None else rows[id][t.column] == Some(values[k]))
  {
    RangeParts(schema, f, t, values);
    CanonicalAt(schema, rows, id);
    hide *;
    TextInRange(schema, rows[id], f, t, values);
    SelectedOne(schema, rows, f, id);
    forall k: nat | k < |values|
      ensures id in Stream(schema, rows, t.column, values[k]) <==>
              if IsNullLiteral(schema[t.column], values[k]) then rows[id][t.column] == None else rows[id][t.column] == Some(values[k])
    {
      StreamIs(schema, rows, t.column, values[k]);
      LiteralWanted(schema[t.column], values[k]);
    }
  }

  lemma RangeParts(schema: Schema, f: Filter, t: Test, values: seq<string>)
    requires RangeOver(schema, f, t, values)
    ensures ValidSchema(schema) && Decides(schema, f, t) && t.RangeTest? && t.gte.Some? && t.lte.Some? && t.column < |schema|
    ensures Numeric(schema[t.column].kind) && Spells(schema[t.column].kind, t.gte.value, t.lte.value, values)
    ensures forall i, j :: 0 <= i < j < |values| ==> values[i] != values[j]
  {
    forall i, j | 0 <= i < j < |values| ensures values[i] != values[j] {
      TextsDistinct(schema[t.column].kind, t.gte.value, t.lte.value, values, i, j);
    }
  }

  lemma CanonicalAt(schema: Schema, rows: map<nat, Row>, id: nat)
    requires CanonicalRows(schema, rows) && id in rows
    ensures CanonicalRow(schema, rows[id])
  {
  }

  lemma SelectedOne(schema: Schema, rows: map<nat, Row>, f: Filter, id: nat)
    requires id in rows
    ensures id in Selected(schema, rows, [f]) <==> Passes(schema, rows[id], f)
  {
    assert PassesAll(schema, rows[id], [f]) <==> Passes(schema, rows[id], [f][0]);
  }

  lemma LiteralWanted(column: Column, value: string)
    ensures Wanted(column, Some(value)) == if IsNullLiteral(column, value) then None else Some(value)
  {
  }

  ghost predicate InStreams(schema: Schema, rows: map<nat, Row>, c: nat, values: seq<string>, id: nat)
    requires c < |schema|
  {
    exists k :: 0 <= k < |values| && id in Stream(schema, rows, c, values[k])
  }

  /** A row that is not troubled is in a stream exactly when it is in range, and then in one; a troubled one
      exactly when it is not in range. */
  lemma RowTrouble(schema: Schema, rows: map<nat, Row>, f: Filter, t: Test, values: seq<string>, id: nat)
    requires RangeOver(schema, f, t, values) && CanonicalRows(schema, rows) && id in rows
    ensures InStreams(schema, rows, t.column, values, id) <==>
              (id in Selected(schema, rows, [f]) <==> id !in Troubled(schema[t.column], rows, t.column, values))
    ensures id !in Troubled(schema[t.column], rows, t.column, values) ==>
              forall i, j :: 0 <= i < j < |values| && id in Stream(schema, rows, t.column, values[i]) ==>
                id !in Stream(schema, rows, t.column, values[j])
  {
    RowStreams(schema, rows, f, t, values, id);
    RangeParts(schema, f, t, values);
    hide Stream, Selected, CanonicalRows, IsNullLiteral, RangeOver, Decides, Spells;
    var value, column := rows[id][t.column], schema[t.column];
    if value.Some? && value.value in values {
      var k :| 0 <= k < |values| && values[k] == value.value;
      assert IsNullLiteral(column, values[k]) || id in Stream(schema, rows, t.column, values[k]);
    }
    if value.None? && SpellsLiteral(column, values) {
      var k :| 0 <= k < |values| && IsNullLiteral(column, values[k]);
      assert id in Stream(schema, rows, t.column, values[k]);
    }
  }

  /** The streams of a range, against the rows in range. */
  lemma StreamsTrouble(schema: Schema, rows: map<nat, Row>, f: Filter, t: Test, values: seq<string>, after: Option<nat>) returns (A: set<nat>)
    requires RangeOver(schema, f, t, values) && CanonicalRows(schema, rows)
    ensures Troubles(A, Streams(schema, rows, t.column, values, after), After(Selected(schema, rows, [f]), after),
              After(Troubled(schema[t.column], rows, t.column, values), after))
  {
    RangeParts(schema, f, t, values);
    var streams := Streams(schema, rows, t.column, values, after);
    var S, T := After(Selected(schema, rows, [f]), after), After(Troubled(schema[t.column], rows, t.column, values), after);
    A := set id | id in rows && InSome(streams, id);
    forall x
      ensures InSome(streams, x) <==> x in rows && Past(after, x) && InStreams(schema, rows, t.column, values, x)
    {
      StreamRows(schema, rows, t.column, values, after, x);
    }
    forall x
      ensures x !in T ==> (x in A <==> x in S) && !Shared(streams, x)
      ensures x in T ==> (x in A <==> x !in S)
    {
      if x in rows {
        RowTrouble(schema, rows, f, t, values, x);
        OnceShared(schema, rows, t.column, values, after, x);
      } else {
        OnceShared(schema, rows, t.column, values, after, x);
      }
    }
  }

  lemma StreamRows(schema: Schema, rows: map<nat, Row>, c: nat, values: seq<string>, after: Option<nat>, x: nat)
    requires c < |schema|
    ensures InSome(Streams(schema, rows, c, values, after), x) <==> x in rows && Past(after, x) && InStreams(schema, rows, c, values, x)
  {
    var streams := Streams(schema, rows, c, values, after);
    if InSome(streams, x) {
      var s :| 0 <= s < |streams| && x in streams[s];
      assert x in Stream(schema, rows, c, values[s]);
    }
    if x in rows && Past(after, x) && InStreams(schema, rows, c, values, x) {
      var k :| 0 <= k < |values| && x in Stream(schema, rows, c, values[k]);
      assert x in streams[k];
    }
  }

  /** A row shared between streams is in two of the texts' streams. */
  lemma OnceShared(schema: Schema, rows: map<nat, Row>, c: nat, values: seq<string>, after: Option<nat>, x: nat)
    requires c < |schema|
    ensures Shared(Streams(schema, rows, c, values, after), x) ==>
              && x in rows && Past(after, x)
              && exists i, j :: 0 <= i < j < |values| && x in Stream(schema, rows, c, values[i]) && x in Stream(schema, rows, c, values[j])
  {
    var streams := Streams(schema, rows, c, values, after);
    if Shared(streams, x) {
      var s, t :| 0 <= s < t < |streams| && x in streams[s] && x in streams[t];
      assert x in Stream(schema, rows, c, values[s]) && x in Stream(schema, rows, c, values[t]);
    }
  }

  /** A page of the range route is right exactly when no troubled row lies on the page of the rows in range
      and the troubled ones together; and otherwise such a row spoils it. */
  lemma PageExact(rows: seq<LogicalRow>, schema: Schema, visible: map<nat, Row>, f: Filter, t: Test, values: seq<string>, after: Option<nat>,
                  limit: nat, projection: seq<nat>)
    requires RangeOver(schema, f, t, values) && CanonicalRows(schema, visible)
    requires Merges(RowIds(rows), Streams(schema, visible, t.column, values, after), limit) && ShowsValues(rows, schema, visible, projection)
    ensures var S, T := After(Selected(schema, visible, [f]), after), After(Troubled(schema[t.column], visible, t.column, values), after);
            && (Shows(rows, schema, visible, Top(S, limit), projection) <==> Top(S + T, limit) !! T)
            && (!(Top(S + T, limit) !! T) ==> Spoilt(RowIds(rows), S, T, limit))
  {
    var streams := Streams(schema, visible, t.column, values, after);
    var S, T := After(Selected(schema, visible, [f]), after), After(Troubled(schema[t.column], visible, t.column, values), after);
    var A := StreamsTrouble(schema, visible, f, t, values, after);
    hide *;
    if Top(S + T, limit) !! T {
      CleanPage(RowIds(rows), streams, limit, A, S, T);
      ShowsWhen(rows, schema, visible, Top(S, limit), projection);
    } else {
      TroubledPage(RowIds(rows), streams, limit, A, S, T);
      SpoiltPage(RowIds(rows), S, T, limit);
      ShowsWhen(rows, schema, visible, Top(S, limit), projection);
    }
  }

  lemma ShowsWhen(rows: seq<LogicalRow>, schema: Schema, visible: map<nat, Row>, ids: set<nat>, projection: seq<nat>)
    requires ShowsValues(rows, schema, visible, projection)
    ensures Shows(rows, schema, visible, ids, projection) <==> Lists(RowIds(rows), ids)
  {
  }

  // ------------------------------------------------------------------------------------- hits

  /** The rows that hold one of the first n texts. */
  ghost function InTexts(rows: map<nat, Row>, c: nat, values: seq<string>, n: nat): set<nat>
    requires n <= |values|
  {
    set id | id in rows && c < |rows[id]| && rows[id][c].Some? && rows[id][c].value in values[..n]
  }

  /** Every literal in the range counts the NULL rows once, and fails to count the rows that store it. */
  lemma {:induction false} HitsBalance(schema: Schema, rows: map<nat, Row>, f: Filter, t: Test, values: seq<string>, n: nat)
    requires RangeOver(schema, f, t, values) && n <= |values|
    ensures StreamHits(schema, rows, t.column, values, n) + |StoredLiterals(schema[t.column], rows, t.column, values, n)| ==
            |InTexts(rows, t.column, values, n)| + Literals(schema[t.column], values, n) * |Holding(rows, t.column, None)|
  {
    RangeParts(schema, f, t, values);
    hide *;
    if n > 0 {
      HitsBalance(schema, rows, f, t, values, n - 1);
      NextText(rows, t.column, values, n);
      NextLiteral(schema[t.column], rows, t.column, values, n);
      LiteralsStep(schema[t.column], values, n, |Holding(rows, t.column, None)|);
      NextHits(schema, rows, t.column, values, n);
    } else {
      NoHits(schema, rows, t.column, values);
    }
  }

  lemma NoHits(schema: Schema, rows: map<nat, Row>, c: nat, values: seq<string>)
    requires c < |schema|
    ensures StreamHits(schema, rows, c, values, 0) == 0 == Literals(schema[c], values, 0) * |Holding(rows, c, None)|
    ensures |InTexts(rows, c, values, 0)| == |StoredLiterals(schema[c], rows, c, values, 0)| == 0
  {
    assert InTexts(rows, c, values, 0) == {} == StoredLiterals(schema[c], rows, c, values, 0);
  }

  lemma NextText(rows: map<nat, Row>, c: nat, values: seq<string>, n: nat)
    requires 0 < n <= |values| && forall i, j :: 0 <= i < j < |values| ==> values[i] != values[j]
    ensures |InTexts(rows, c, values, n)| == |InTexts(rows, c, values, n - 1)| + |Holding(rows, c, Some(values[n - 1]))|
  {
    assert values[..n] == values[..n - 1] + [values[n - 1]];
    var before, more := InTexts(rows, c, values, n - 1), Holding(rows, c, Some(values[n - 1]));
    assert values[n - 1] !in values[..n - 1];
    assert before !! more && InTexts(rows, c, values, n) == before + more;
  }

  lemma NextLiteral(column: Column, rows: map<nat, Row>, c: nat, values: seq<string>, n: nat)
    requires 0 < n <= |values| && forall i, j :: 0 <= i < j < |values| ==> values[i] != values[j]
    ensures |StoredLiterals(column, rows, c, values, n)| ==
            |StoredLiterals(column, rows, c, values, n - 1)| +
            if IsNullLiteral(column, values[n - 1]) then |Holding(rows, c, Some(values[n - 1]))| else 0
  {
    hide IsNullLiteral;
    assert values[..n] == values[..n - 1] + [values[n - 1]];
    var before, more := StoredLiterals(column, rows, c, values, n - 1), Holding(rows, c, Some(values[n - 1]));
    assert values[n - 1] !in values[..n - 1];
    if IsNullLiteral(column, values[n - 1]) {
      assert before !! more && StoredLiterals(column, rows, c, values, n) == before + more;
    } else {
      assert StoredLiterals(column, rows, c, values, n) == before;
    }
  }

  lemma LiteralsStep(column: Column, values: seq<string>, n: nat, nulls: nat)
    requires 0 < n <= |values|
    ensures Literals(column, values, n) * nulls ==
            Literals(column, values, n - 1) * nulls + if IsNullLiteral(column, values[n - 1]) then nulls else 0
  {
    var L := Literals(column, values, n - 1);
    assert (L + 1) * nulls == L * nulls + nulls;
  }

  lemma NextHits(schema: Schema, rows: map<nat, Row>, c: nat, values: seq<string>, n: nat)
    requires ValidSchema(schema) && c < |schema| && 0 < n <= |values|
    ensures StreamHits(schema, rows, c, values, n) == StreamHits(schema, rows, c, values, n - 1) +
            if IsNullLiteral(schema[c], values[n - 1]) then |Holding(rows, c, None)| else |Holding(rows, c, Some(values[n - 1]))|
  {
    var S := Stream(schema, rows, c, values[n - 1]);
    StreamIs(schema, rows, c, values[n - 1]);
    LiteralWanted(schema[c], values[n - 1]);
    hide Stream, IsNullLiteral, Wanted;
    assert S == if IsNullLiteral(schema[c], values[n - 1]) then Holding(rows, c, None) else Holding(rows, c, Some(values[n - 1]));
  }

  /** The summed hits are right exactly when the NULL rows, counted once a literal in range, are as many as
      the rows that store such a literal. */
  lemma HitsExact(schema: Schema, rows: map<nat, Row>, f: Filter, t: Test, values: seq<string>)
    requires RangeOver(schema, f, t, values) && CanonicalRows(schema, rows) && |rows| <= U64_MAX
    ensures Min(StreamHits(schema, rows, t.column, values, |values|), U64_MAX) == |Selected(schema, rows, [f])| <==>
            Literals(schema[t.column], values, |values|) * |Holding(rows, t.column, None)| ==
            |StoredLiterals(schema[t.column], rows, t.column, values, |values|)|
  {
    HitsBalance(schema, rows, f, t, values, |values|);
    TextsSelect(schema, rows, f, t, values);
    NullsOutside(rows, t.column, values);
    hide *;
    Saturates(StreamHits(schema, rows, t.column, values, |values|), |Selected(schema, rows, [f])|,
      Literals(schema[t.column], values, |values|), |Holding(rows, t.column, None)|,
      |StoredLiterals(schema[t.column], rows, t.column, values, |values|)|);
  }

  lemma TextsSelect(schema: Schema, rows: map<nat, Row>, f: Filter, t: Test, values: seq<string>)
    requires RangeOver(schema, f, t, values) && CanonicalRows(schema, rows)
    ensures InTexts(rows, t.column, values, |values|) == Selected(schema, rows, [f])
  {
    assert values[..|values|] == values;
    forall id | id in rows
      ensures t.column < |rows[id]|
      ensures id in Selected(schema, rows, [f]) <==> rows[id][t.column].Some? && rows[id][t.column].value in values
    {
      RowStreams(schema, rows, f, t, values, id);
    }
  }

  lemma NullsOutside(rows: map<nat, Row>, c: nat, values: seq<string>)
    ensures |InTexts(rows, c, values, |values|)| + |Holding(rows, c, None)| <= |rows|
  {
    SubsetSize(InTexts(rows, c, values, |values|) + Holding(rows, c, None), rows.Keys);
    assert InTexts(rows, c, values, |values|) !! Holding(rows, c, None);
    assert |rows.Keys| == |rows|;
  }

  lemma Saturates(hits: nat, selected: nat, literals: nat, nulls: nat, stored: nat)
    requires hits + stored == selected + literals * nulls && selected + nulls <= U64_MAX
    ensures Min(hits, U64_MAX) == selected <==> literals * nulls == stored
  {
    if nulls == 0 {
      assert literals * nulls == 0;
    }
  }

  // --------------------------------------------------------------------- when all is right

  /** Every page, wherever it starts and however long, is right exactly when no row is troubled. */
  lemma EveryPage(S: set<nat>, T: set<nat>)
    ensures (forall after: Option<nat>, limit: nat :: Top(After(S, after) + After(T, after), limit) !! After(T, after)) <==> T == {}
  {
    if T != {} {
      TopSize(After(S, None) + After(T, None), |S + T|);
      assert After(S, None) + After(T, None) == S + T;
      assert After(T, None) == T;
      assert Top(After(S, None) + After(T, None), |S + T|) == S + T;
    } else {
      forall after: Option<nat> ensures After(T, after) == {} {
      }
    }
  }

  /** One NULL row and the range from 0 to 0, where 0 is a null literal: one hit, and nothing in range. */
  lemma ZeroCountsNull()
    ensures var column := Column("n", Unsigned, AsIs, true, ["0"]);
            var rows: map<nat, Row> := map[0 := [None]];
            && ValidSchema([column]) && StreamHits([column], rows, 0, ["0"], 1) == 1
            && Selected([column], rows, [Range("n", Some("0"), Some("0"))]) == {}
  {
    var column := Column("n", Unsigned, AsIs, true, ["0"]);
    var schema, f := [column], Range("n", Some("0"), Some("0"));
    var rows: map<nat, Row> := map[0 := [None]];
    assert !WhiteSpace("n"[0]);
    assert ValidSchema(schema) && schema[0] == column;
    assert IsNullLiteral(column, "0");
    StreamIs(schema, rows, 0, "0");
    assert Stream(schema, rows, 0, "0") == {0};
    assert StreamHits(schema, rows, 0, ["0"], 1) == StreamHits(schema, rows, 0, ["0"], 0) + |Stream(schema, rows, 0, ["0"][0])|;
    IndexOfName(schema, 0);
    hide Parse;
    assert !Passes(schema, rows[0], [f][0]);
  }

  /** The same range over a row that an insertion stored as 0: no hit, and the row is in range. */
  lemma ZeroLosesRow()
    ensures var column := Column("n", Unsigned, AsIs, true, ["0"]);
            var values: map<string, Value> := map["n" := Some("0")];
            var rows: map<nat, Row> := map[0 := [Some("0")]];
            && ValidSchema([column]) && Insertable([column], values) && rows[0] == NewRow([column], values)
            && StreamHits([column], rows, 0, ["0"], 1) == 0
            && Selected([column], rows, [Range("n", Some("0"), Some("0"))]) == {0}
  {
    var column := Column("n", Unsigned, AsIs, true, ["0"]);
    var schema, f := [column], Range("n", Some("0"), Some("0"));
    var values: map<string, Value> := map["n" := Some("0")];
    var rows: map<nat, Row> := map[0 := [Some("0")]];
    assert !WhiteSpace("n"[0]);
    assert ValidSchema(schema) && schema[0] == column;
    IndexOfName(schema, 0);
    assert NewRow(schema, values) == [Some("0")];
    assert IsNullLiteral(column, "0");
    StreamIs(schema, rows, 0, "0");
    assert Stream(schema, rows, 0, "0") == {};
    assert StreamHits(schema, rows, 0, ["0"], 1) == StreamHits(schema, rows, 0, ["0"], 0) + |Stream(schema, rows, 0, ["0"][0])|;
    assert Parse(Unsigned, "0").Some?;
    assert Passes(schema, rows[0], [f][0]);
  }
}

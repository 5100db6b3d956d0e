/** Query filters: equality, membership and integer ranges; how they are prepared, and what it means for
    a row to pass them. NULL passes no range, and passes an equality or membership filter that asks for
    it, which a null literal of the column does. */
module QueryFilters {
  import opened Wrappers
  import opened Texts
  import opened RunMerges
  import opened Dictionaries
  import opened Schemas
  import opened Decimals

  datatype Filter =
    | Eq(column: string, value: Value)
    | In(column: string, values: seq<Value>)
    | Range(column: string, gte: Value, lte: Value)

  /** A filter with its column found and its values canonical. */
  datatype Test =
    | EqTest(column: nat, value: Value)
    | InTest(column: nat, values: seq<Value>)
    | RangeTest(column: nat, gte: Value, lte: Value)

  // ----------------------------------------------------------------------------- specification

  /** NULL may be asked for. */
  predicate Askable(column: Column, value: Value) {
    value.None? ==> column.nullable
  }

  predicate ValidBound(kind: Kind, bound: Value) {
    bound.Some? ==> Parse(kind, bound.value).Some?
  }

  predicate Ordered(kind: Kind, gte: Value, lte: Value)
    requires ValidBound(kind, gte) && ValidBound(kind, lte)
  {
    gte.Some? && lte.Some? ==> Parse(kind, gte.value).value <= Parse(kind, lte.value).value
  }

  predicate ValidFilter(schema: Schema, f: Filter) {
    var c := ColumnIndex(schema, f.column);
    && c.Some?
    && match f
       case Eq(_, value) => Askable(schema[c.value], value)
       case In(_, values) => values != [] && forall i :: 0 <= i < |values| ==> Askable(schema[c.value], values[i])
       case Range(_, gte, lte) =>
         var kind := schema[c.value].kind;
         && (gte.Some? || lte.Some?) && Numeric(kind)
         && ValidBound(kind, gte) && ValidBound(kind, lte) && Ordered(kind, gte, lte)
  }

  predicate ValidFilters(schema: Schema, filters: seq<Filter>) {
    forall i :: 0 <= i < |filters| ==> ValidFilter(schema, filters[i])
  }

  predicate AtLeast(kind: Kind, n: int, bound: Value) {
    bound.Some? && Parse(kind, bound.value).Some? ==> Parse(kind, bound.value).value <= n
  }

  predicate AtMost(kind: Kind, n: int, bound: Value) {
    bound.Some? && Parse(kind, bound.value).Some? ==> n <= Parse(kind, bound.value).value
  }

  /** A value lies in an integer range; NULL lies in none. */
  predicate Between(kind: Kind, value: Value, gte: Value, lte: Value) {
    && value.Some? && Parse(kind, value.value).Some?
    && var n := Parse(kind, value.value).value;
    AtLeast(kind, n, gte) && AtMost(kind, n, lte)
  }

  ghost predicate Passes(schema: Schema, row: Row, f: Filter) {
    var c := ColumnIndex(schema, f.column);
    && c.Some? && c.value < |row|
    && match f
       case Eq(_, value) => row[c.value] == Wanted(schema[c.value], value)
       case In(_, values) => exists i :: 0 <= i < |values| && row[c.value] == Wanted(schema[c.value], values[i])
       case Range(_, gte, lte) => Between(schema[c.value].kind, row[c.value], gte, lte)
  }

  ghost predicate PassesAll(schema: Schema, row: Row, filters: seq<Filter>) {
    forall i :: 0 <= i < |filters| ==> Passes(schema, row, filters[i])
  }

  /** The IDs whose rows pass every filter: what a query is about. */
  ghost function Selected(schema: Schema, rows: map<nat, Row>, filters: seq<Filter>): set<nat> {
    set id | id in rows && PassesAll(schema, rows[id], filters)
  }

  /** Integer columns hold canonical integer text. */
  ghost predicate CanonicalValue(kind: Kind, value: Value) {
    Numeric(kind) && value.Some? ==> Parse(kind, value.value).Some? && value.value == IntText(Parse(kind, value.value).value)
  }

  ghost predicate CanonicalRow(schema: Schema, row: Row) {
    |row| == |schema| && forall c :: 0 <= c < |row| ==> CanonicalValue(schema[c].kind, row[c])
  }

  ghost predicate CanonicalRows(schema: Schema, rows: map<nat, Row>) {
    forall id :: id in rows ==> CanonicalRow(schema, rows[id])
  }

  // --------------------------------------------------------------------- what the filters mean

  /** The text of an integer bound. */
  function BoundText(n: Option<int>): Value {
    if n.Some? then Some(IntText(n.value)) else None
  }

  /** A range is about integers: a row that holds n passes exactly when no bound given excludes n. NULL passes
      none. */
  lemma RangeReads(schema: Schema, row: Row, c: nat, n: int, lo: Option<int>, hi: Option<int>)
    requires ValidSchema(schema) && c < |schema| && |row| == |schema| && InRange(schema[c].kind, n)
    requires (lo.Some? ==> InRange(schema[c].kind, lo.value)) && (hi.Some? ==> InRange(schema[c].kind, hi.value))
    ensures row[c] == Some(IntText(n)) ==>
              (Passes(schema, row, Range(schema[c].name, BoundText(lo), BoundText(hi))) <==>
                 (lo.Some? ==> lo.value <= n) && (hi.Some? ==> n <= hi.value))
    ensures row[c] == None ==> !Passes(schema, row, Range(schema[c].name, BoundText(lo), BoundText(hi)))
  {
    IndexOfName(schema, c);
    TextReads(schema[c].kind, n);
    if lo.Some? {
      TextReads(schema[c].kind, lo.value);
    }
    if hi.Some? {
      TextReads(schema[c].kind, hi.value);
    }
    hide Parse, IntText, InRange;
  }

  /** Numeric columns of canonical rows hold NULL or the text of a 64-bit integer; other columns hold anything. */
  lemma CanonicalMeans(kind: Kind, value: Value)
    ensures CanonicalValue(kind, value) <==>
            (kind == Unsigned || kind == Signed ==> value.None? || exists n: int :: InRange(kind, n) && value == Some(IntText(n)))
  {
    if value.Some? && Parse(kind, value.value).Some? {
      assert InRange(kind, Parse(kind, value.value).value);
    }
    forall n: int | InRange(kind, n) ensures Parse(kind, IntText(n)) == Some(n) {
      TextReads(kind, n);
    }
  }

  /** Filters select what each of them selects. */
  lemma SelectedEach(schema: Schema, rows: map<nat, Row>, filters: seq<Filter>, f: Filter)
    ensures Selected(schema, rows, []) == rows.Keys
    ensures Selected(schema, rows, filters + [f]) == Selected(schema, rows, filters) * Selected(schema, rows, [f])
  {
    hide Passes;
    forall id | id in rows
      ensures PassesAll(schema, rows[id], filters + [f]) <==> PassesAll(schema, rows[id], filters) && Passes(schema, rows[id], f)
      ensures PassesAll(schema, rows[id], [f]) <==> Passes(schema, rows[id], f)
    {
      var all := filters + [f];
      assert [f][0] == f;
      assert forall i :: 0 <= i < |all| ==> all[i] == if i < |filters| then filters[i] else f;
      if PassesAll(schema, rows[id], all) {
        assert all[|filters|] == f;
        assert forall i :: 0 <= i < |filters| ==> all[i] == filters[i];
      }
    }
  }

  /** An equality selects what the predicate of the same column and value matches. */
  lemma EqSelects(schema: Schema, rows: map<nat, Row>, name: string, value: Value)
    ensures Selected(schema, rows, [Eq(name, value)]) == Matching(schema, rows, [LogicalPredicate(name, value)])
  {
    var p, f := LogicalPredicate(name, value), Eq(name, value);
    forall id | id in rows ensures PassesAll(schema, rows[id], [f]) <==> Satisfies(schema, rows[id], [p]) {
      assert [f][0] == f && [p][0] == p;
      assert Passes(schema, rows[id], f) <==> SatisfiesOne(schema, rows[id], p);
    }
  }

  /** A membership selects what one of its equalities selects. */
  lemma InSelects(schema: Schema, rows: map<nat, Row>, name: string, values: seq<Value>, id: nat)
    ensures id in Selected(schema, rows, [In(name, values)]) <==>
            exists i :: 0 <= i < |values| && id in Selected(schema, rows, [Eq(name, values[i])])
  {
    if id in rows {
      OneFilter(schema, rows[id], In(name, values));
      forall i | 0 <= i < |values| ensures PassesAll(schema, rows[id], [Eq(name, values[i])]) <==> Passes(schema, rows[id], Eq(name, values[i])) {
        OneFilter(schema, rows[id], Eq(name, values[i]));
      }
      hide PassesAll, Wanted;
      if i :| 0 <= i < |values| && Passes(schema, rows[id], Eq(name, values[i])) {
        assert Passes(schema, rows[id], In(name, values));
      }
      if Passes(schema, rows[id], In(name, values)) {
        var c := ColumnIndex(schema, name).value;
        var i :| 0 <= i < |values| && rows[id][c] == Wanted(schema[c], values[i]);
        assert Passes(schema, rows[id], Eq(name, values[i]));
      }
    }
  }

  lemma OneFilter(schema: Schema, row: Row, f: Filter)
    ensures PassesAll(schema, row, [f]) <==> Passes(schema, row, f)
  {
    assert [f][0] == f;
  }

  /** Null literals in filters: each asks for NULL, on its own or among the values of a membership. */
  lemma LiteralSelectsNull(schema: Schema, rows: map<nat, Row>, c: nat, i: nat)
    requires ValidSchema(schema) && c < |schema| && schema[c].nullable && i < |schema[c].nullValues|
    ensures Selected(schema, rows, [Eq(schema[c].name, Some(schema[c].nullValues[i]))]) == Holding(rows, c, None)
    ensures Selected(schema, rows, [Eq(schema[c].name, None)]) == Holding(rows, c, None)
  {
    EqSelects(schema, rows, schema[c].name, Some(schema[c].nullValues[i]));
    EqSelects(schema, rows, schema[c].name, None);
    LiteralAsksNull(schema, rows, c, i);
  }

  /** Any other text selects the rows that hold it. */
  lemma TextSelectsItself(schema: Schema, rows: map<nat, Row>, c: nat, text: string)
    requires ValidSchema(schema) && c < |schema| && (schema[c].nullable ==> forall i :: 0 <= i < |schema[c].nullValues| ==> schema[c].nullValues[i] != text)
    ensures Selected(schema, rows, [Eq(schema[c].name, Some(text))]) == Holding(rows, c, Some(text))
  {
    EqSelects(schema, rows, schema[c].name, Some(text));
    TextAsksItself(schema, rows, c, text);
  }

  /** Which filters are valid. A range must have a bound, bounds in the column's range, and not the greater
      one first. */
  lemma ValidRange(schema: Schema, c: nat, lo: Option<int>, hi: Option<int>)
    requires ValidSchema(schema) && c < |schema|
    ensures ValidFilter(schema, Range(schema[c].name, BoundText(lo), BoundText(hi))) <==>
            && (lo.Some? || hi.Some?) && (schema[c].kind == Unsigned || schema[c].kind == Signed)
            && (lo.Some? ==> InRange(schema[c].kind, lo.value)) && (hi.Some? ==> InRange(schema[c].kind, hi.value))
            && (lo.Some? && hi.Some? ==> lo.value <= hi.value)
  {
    IndexOfName(schema, c);
    if lo.Some? {
      TextReads(schema[c].kind, lo.value);
    }
    if hi.Some? {
      TextReads(schema[c].kind, hi.value);
    }
    hide Parse, IntText, InRange;
  }

  /** An equality is valid where the predicate is well formed; a membership where it has a value and each of
      its equalities is valid; nothing is on an unknown column. */
  lemma ValidElse(schema: Schema, name: string, value: Value, values: seq<Value>, lo: Value, hi: Value)
    ensures ValidFilter(schema, Eq(name, value)) <==> WellFormed(schema, [LogicalPredicate(name, value)])
    ensures ValidFilter(schema, In(name, values)) <==>
            |values| > 0 && forall i :: 0 <= i < |values| ==> ValidFilter(schema, Eq(name, values[i]))
    ensures (forall c :: 0 <= c < |schema| ==> schema[c].name != name) ==> !ValidFilter(schema, Range(name, lo, hi))
  {
    var one := [LogicalPredicate(name, value)];
    assert WellFormed(schema, one) <==> WellFormedOne(schema, one[0]);
    if |values| > 0 && forall i :: 0 <= i < |values| ==> ValidFilter(schema, Eq(name, values[i])) {
      assert ValidFilter(schema, Eq(name, values[0]));
    }
  }

  // ------------------------------------------------------------------------------- preparation

  /** NULL comes first, then texts in order. */
  predicate ValueBefore(a: Value, b: Value) {
    b.Some? && (a.None? || Before(a.value, b.value))
  }

  ghost predicate ValuesAscend(values: seq<Value>) {
    forall i, j :: 0 <= i < j < |values| ==> ValueBefore(values[i], values[j])
  }

  /** The values sorted, repetitions dropped. */
  method SortValues(values: seq<Value>) returns (out: seq<Value>)
    ensures ValuesAscend(out) && forall v :: v in out <==> v in values
  {
    hide Before;
    var texts: seq<string> := [];
    for k := 0 to |values|
      invariant forall t :: t in texts <==> Some(t) in values[..k]
    {
      assert values[..k + 1] == values[..k] + [values[k]];
      if values[k].Some? {
        texts := texts + [values[k].value];
      }
    }
    assert values[..|values|] == values;
    TextsOrdered();
    var sorted := SortDedup(texts, TextOrder());
    var head := if None in values then [None] else [];
    out := head + seq(|sorted|, i requires 0 <= i < |sorted| => Some(sorted[i]));
    Merged(values, sorted, out);
  }

  lemma Merged(values: seq<Value>, sorted: seq<string>, out: seq<Value>)
    requires Ascending(sorted) && forall t :: t in sorted <==> Some(t) in values
    requires out == (if None in values then [None] else []) + seq(|sorted|, i requires 0 <= i < |sorted| => Some(sorted[i]))
    ensures ValuesAscend(out) && forall v :: v in out <==> v in values
  {
    hide Before;
    var n := if None in values then 1 else 0;
    assert forall i :: n <= i < |out| ==> out[i] == Some(sorted[i - n]);
    forall v ensures v in out <==> v in values {
      if v.Some? && v in values {
        var i :| 0 <= i < |sorted| && sorted[i] == v.value;
        assert out[i + n] == v;
      }
      if v.Some? && v in out {
        var i :| 0 <= i < |out| && out[i] == v;
        assert sorted[i - n] == v.value;
      }
      if v.None? && v in values {
        assert out[0] == None;
      }
    }
  }

  /** Binary search in sorted values. */
  method ContainsValue(values: seq<Value>, v: Value) returns (found: bool)
    requires ValuesAscend(values)
    ensures found <==> v in values
  {
    hide Before;
    var lo, hi := 0, |values|;
    while lo < hi
      invariant 0 <= lo <= hi <= |values|
      invariant forall i :: 0 <= i < lo ==> values[i] != v
      invariant forall i :: hi <= i < |values| ==> values[i] != v
    {
      var mid := lo + (hi - lo) / 2;
      if values[mid] == v {
        return true;
      }
      SearchSide(values, v, mid);
      if ValueBefore(values[mid], v) {
        lo := mid + 1;
      } else {
        hi := mid;
      }
    }
    return false;
  }

  lemma SearchSide(values: seq<Value>, v: Value, mid: nat)
    requires ValuesAscend(values) && mid < |values| && values[mid] != v
    ensures ValueBefore(values[mid], v) ==> forall i :: 0 <= i <= mid ==> values[i] != v
    ensures !ValueBefore(values[mid], v) ==> forall i :: mid <= i < |values| ==> values[i] != v
  {
    hide Before;
    if v.Some? {
      BeforeIrreflexive(v.value);
      forall i | 0 <= i < mid && values[i] == v ensures !ValueBefore(values[mid], v) {
        if values[mid].Some? && Before(values[mid].value, v.value) {
          BeforeTransitive(v.value, values[mid].value, v.value);
        }
      }
    }
  }

  function CanonicalOptional(column: Column, value: Value): Result<Value> {
    if value.None? then (if column.nullable then Ok(None) else Err(InvalidInput))
    else if IsNullLiteral(column, value.value) then Ok(None)
    else Ok(value)
  }

  function CanonicalBound(kind: Kind, bound: Value): Result<Value> {
    if bound.None? then Ok(None)
    else
      var text := Canonical(kind, bound.value);
      if text.Err? then Err(text.error) else Ok(Some(text.value))
  }

  /** A test that decides the filter. */
  ghost predicate Decides(schema: Schema, f: Filter, t: Test) {
    var c := ColumnIndex(schema, f.column);
    && c.Some?
    && match f
       case Eq(_, value) => t == EqTest(c.value, Wanted(schema[c.value], value)) && Askable(schema[c.value], value)
       case In(_, values) =>
         && t.InTest? && t.column == c.value && ValuesAscend(t.values)
         && forall v :: v in t.values <==> exists i :: 0 <= i < |values| && v == Wanted(schema[c.value], values[i])
       case Range(_, gte, lte) =>
         && t.RangeTest? && t.column == c.value && (gte.None? <==> t.gte.None?) && (lte.None? <==> t.lte.None?)
         && Numeric(schema[c.value].kind)
         && SameBound(schema[c.value].kind, gte, t.gte) && SameBound(schema[c.value].kind, lte, t.lte)
  }

  predicate SameBound(kind: Kind, a: Value, b: Value) {
    a.Some? && b.Some? ==> Parse(kind, a.value).Some? && Parse(kind, b.value) == Parse(kind, a.value)
  }

  ghost predicate DecidesAll(schema: Schema, filters: seq<Filter>, tests: seq<Test>) {
    && |tests| == |filters|
    && forall i :: 0 <= i < |filters| ==> Decides(schema, filters[i], tests[i])
  }

  /** Prepares every filter; an error exactly when one of them is invalid. */
  method PrepareFilters(schema: Schema, filters: seq<Filter>) returns (r: Result<seq<Test>>)
    ensures r.Ok? <==> ValidFilters(schema, filters)
    ensures r.Ok? ==> DecidesAll(schema, filters, r.value)
  {
    hide Decides, ValidFilter;
    var tests: seq<Test> := [];
    for i := 0 to |filters|
      invariant |tests| == i
      invariant forall k :: 0 <= k < i ==> ValidFilter(schema, filters[k]) && Decides(schema, filters[k], tests[k])
    {
      var test := PrepareOne(schema, filters[i]);
      if test.Err? {
        return Err(test.error);
      }
      tests := tests + [test.value];
    }
    return Ok(tests);
  }

  method PrepareOne(schema: Schema, f: Filter) returns (r: Result<Test>)
    ensures r.Ok? <==> ValidFilter(schema, f)
    ensures r.Ok? ==> Decides(schema, f, r.value)
  {
    match f {
      case Eq(name, value) =>
        var c := ColumnIndex(schema, name);
        if c.None? {
          return Err(InvalidInput);
        }
        var canonical := CanonicalOptional(schema[c.value], value);
        if canonical.Err? {
          return Err(canonical.error);
        }
        return Ok(EqTest(c.value, canonical.value));
      case In(name, values) =>
        if values == [] {
          return Err(InvalidInput);
        }
        var c := ColumnIndex(schema, name);
        if c.None? {
          return Err(InvalidInput);
        }
        var canonical: seq<Value> := [];
        for k := 0 to |values|
          invariant |canonical| == k
          invariant forall j :: 0 <= j < k ==> Askable(schema[c.value], values[j]) && canonical[j] == Wanted(schema[c.value], values[j])
        {
          var one := CanonicalOptional(schema[c.value], values[k]);
          if one.Err? {
            return Err(one.error);
          }
          canonical := canonical + [one.value];
        }
        var sorted := SortValues(canonical);
        forall v ensures v in sorted <==> exists i :: 0 <= i < |values| && v == Wanted(schema[c.value], values[i]) {
          if v in canonical {
            var i :| 0 <= i < |canonical| && canonical[i] == v;
            assert v == Wanted(schema[c.value], values[i]);
          }
          if i :| 0 <= i < |values| && v == Wanted(schema[c.value], values[i]) {
            assert canonical[i] == v;
          }
        }
        return Ok(InTest(c.value, sorted));
      case Range(name, gte, lte) =>
        r := PrepareRange(schema, name, gte, lte);
    }
  }

  method PrepareRange(schema: Schema, name: string, gte: Value, lte: Value) returns (r: Result<Test>)
    ensures r.Ok? <==> ValidFilter(schema, Range(name, gte, lte))
    ensures r.Ok? ==> Decides(schema, Range(name, gte, lte), r.value)
  {
    if gte.None? && lte.None? {
      return Err(InvalidInput);
    }
    var c := ColumnIndex(schema, name);
    if c.None? || !Numeric(schema[c.value].kind) {
      return Err(InvalidInput);
    }
    var kind := schema[c.value].kind;
    var lo, hi := CanonicalBound(kind, gte), CanonicalBound(kind, lte);
    BoundReads(kind, gte);
    BoundReads(kind, lte);
    hide Parse, IntText;
    if lo.Err? || hi.Err? {
      return Err(InvalidData);
    }
    if lo.value.Some? && hi.value.Some? && Parse(kind, lo.value.value).value > Parse(kind, hi.value.value).value {
      return Err(InvalidInput);
    }
    return Ok(RangeTest(c.value, lo.value, hi.value));
  }

  lemma BoundReads(kind: Kind, bound: Value)
    ensures CanonicalBound(kind, bound).Ok? <==> ValidBound(kind, bound)
    ensures CanonicalBound(kind, bound).Ok? ==>
              var b := CanonicalBound(kind, bound).value;
              (b.None? <==> bound.None?) && (b.Some? ==> Parse(kind, b.value).Some? && SameBound(kind, bound, b))
  {
    if bound.Some? && Parse(kind, bound.value).Some? {
      assert InRange(kind, Parse(kind, bound.value).value);
      TextReads(kind, Parse(kind, bound.value).value);
    }
  }

  // --------------------------------------------------------------------------------- matching

  /** Whether a row passes every prepared filter; an error only for text that is no integer. */
  method MatchesFilters(schema: Schema, values: Row, tests: seq<Test>, ghost filters: seq<Filter>) returns (r: Result<bool>)
    requires DecidesAll(schema, filters, tests)
    ensures CanonicalRow(schema, values) ==> r.Ok?
    ensures r.Ok? ==> (r.value <==> PassesAll(schema, values, filters))
  {
    for i := 0 to |tests|
      invariant forall k :: 0 <= k < i ==> Passes(schema, values, filters[k])
    {
      hide Passes, Decides;
      assert Decides(schema, filters[i], tests[i]);
      var one := MatchesOne(schema, values, tests[i], filters[i]);
      if one.Err? {
        return Err(one.error);
      }
      if !one.value {
        return Ok(false);
      }
    }
    return Ok(true);
  }

  method MatchesOne(schema: Schema, values: Row, test: Test, ghost f: Filter) returns (r: Result<bool>)
    requires Decides(schema, f, test)
    ensures CanonicalRow(schema, values) ==> r.Ok?
    ensures r.Ok? ==> (r.value <==> Passes(schema, values, f))
  {
    match test {
      case EqTest(column, value) =>
        return Ok(column < |values| && values[column] == value);
      case InTest(column, accepted) =>
        if column >= |values| {
          return Ok(false);
        }
        var found := ContainsValue(accepted, values[column]);
        return Ok(found);
      case RangeTest(column, gte, lte) =>
        if column >= |values| || values[column].None? {
          return Ok(false);
        }
        var kind := schema[column].kind;
        assert CanonicalRow(schema, values) ==> CanonicalValue(kind, values[column]);
        hide Parse, IntText;
        var n := Parse(kind, values[column].value);
        if n.None? {
          return Err(InvalidInput);
        }
        if gte.Some? && n.value < Parse(kind, gte.value).value {
          return Ok(false);
        }
        if lte.Some? && n.value > Parse(kind, lte.value).value {
          return Ok(false);
        }
        return Ok(true);
    }
  }
}

/** Compound index keys: a tuple of tokens packed into one mixed-radix number. */
module MixedRadix {
  import opened Wrappers
  import opened Postings

  /** One column of a key and its token. */
  datatype Digit = Digit(column: nat, value: nat)

  ghost predicate InRange(digits: seq<Digit>, cards: seq<nat>) {
    forall i :: 0 <= i < |digits| ==> digits[i].column < |cards| && digits[i].value < cards[digits[i].column]
  }

  /** The number the digits denote, the last one least significant. */
  ghost function Value(digits: seq<Digit>, cards: seq<nat>): nat
    requires InRange(digits, cards)
  {
    if digits == [] then 0
    else
      var last := digits[|digits| - 1];
      Value(digits[..|digits| - 1], cards) * cards[last.column] + last.value
  }

  /** How many tuples the columns have. */
  ghost function Space(columns: seq<nat>, cards: seq<nat>): nat
    requires forall i :: 0 <= i < |columns| ==> columns[i] < |cards|
  {
    if columns == [] then 1 else Space(columns[..|columns| - 1], cards) * cards[columns[|columns| - 1]]
  }

  ghost function Columns(digits: seq<Digit>): seq<nat> {
    seq<nat>(|digits|, i requires 0 <= i < |digits| => digits[i].column)
  }

  /** Packs the digits; none when a token is out of range or the number leaves 64 bits. */
  method Pack(digits: seq<Digit>, cards: seq<nat>) returns (key: Option<nat>)
    ensures key.Some? ==> InRange(digits, cards) && key.value == Value(digits, cards) <= U64_MAX
    ensures InRange(digits, cards) && Value(digits, cards) <= U64_MAX ==> key.Some?
  {
    var acc: nat := 0;
    for i := 0 to |digits|
      invariant InRange(digits[..i], cards) && acc == Value(digits[..i], cards) <= U64_MAX
    {
      var digit := digits[i];
      assert digits[..i + 1] == digits[..i] + [digit];
      if digit.column >= |cards| || digit.value >= cards[digit.column] {
        return None;
      }
      assert digits[..i + 1][..i] == digits[..i];
      assert InRange(digits[..i + 1], cards);
      var next: nat := acc * cards[digit.column] + digit.value;
      assert next == Value(digits[..i + 1], cards);
      if next > U64_MAX {
        if InRange(digits, cards) {
          PrefixBelow(digits, cards, i + 1);
        }
        return None;
      }
      acc := next;
    }
    assert digits[..|digits|] == digits;
    return Some(acc);
  }

  /** Dropping low digits never makes the number larger. */
  lemma {:induction false} PrefixBelow(digits: seq<Digit>, cards: seq<nat>, n: nat)
    requires InRange(digits, cards) && n <= |digits|
    ensures Value(digits[..n], cards) <= Value(digits, cards)
  {
    if n < |digits| {
      var rest, last := digits[..|digits| - 1], digits[|digits| - 1];
      PrefixBelow(rest, cards, n);
      assert rest[..n] == digits[..n];
      Grows(Value(rest, cards), cards[last.column]);
    } else {
      assert digits[..n] == digits;
    }
  }

  lemma Grows(x: nat, radix: nat)
    requires radix > 0
    ensures x <= x * radix
  {
  }

  lemma {:induction false} ValueBelowSpace(digits: seq<Digit>, cards: seq<nat>)
    requires InRange(digits, cards)
    ensures Value(digits, cards) < Space(Columns(digits), cards)
  {
    if digits != [] {
      var rest, last := digits[..|digits| - 1], digits[|digits| - 1];
      ValueBelowSpace(rest, cards);
      assert Columns(digits)[..|digits| - 1] == Columns(rest);
      StepBelow(Value(rest, cards), last.value, cards[last.column], Space(Columns(rest), cards));
    }
  }

  lemma StepBelow(high: nat, low: nat, radix: nat, space: nat)
    requires low < radix && high < space
    ensures high * radix + low < space * radix
  {
    assert (high + 1) * radix <= space * radix;
    assert (high + 1) * radix == high * radix + radix;
  }

  /** Different token tuples of the same columns never share a key. */
  lemma {:induction false} Injective(a: seq<Digit>, b: seq<Digit>, cards: seq<nat>)
    requires InRange(a, cards) && InRange(b, cards) && Columns(a) == Columns(b)
    requires Value(a, cards) == Value(b, cards)
    ensures a == b
  {
    assert |a| == |Columns(a)| == |b|;
    if a != [] {
      var n := |a| - 1;
      assert Columns(a)[n] == Columns(b)[n];
      assert Columns(a[..n]) == Columns(a)[..n] == Columns(b[..n]);
      SameDigit(cards[a[n].column], Value(a[..n], cards), a[n].value, Value(b[..n], cards), b[n].value);
      Injective(a[..n], b[..n], cards);
      assert a == a[..n] + [a[n]] && b == b[..n] + [b[n]];
    }
  }

  lemma SameDigit(radix: nat, x: nat, a: nat, y: nat, b: nat)
    requires a < radix && b < radix && x * radix + a == y * radix + b
    ensures a == b && x == y
  {
    HighNotBelow(radix, x, a, y, b);
    HighNotBelow(radix, y, b, x, a);
  }

  lemma HighNotBelow(radix: nat, x: nat, a: nat, y: nat, b: nat)
    requires a < radix && x * radix + a == y * radix + b
    ensures x >= y
  {
    ProductOrder(x + 1, y, radix);
    assert (x + 1) * radix == x * radix + radix;
  }

  /** Every number below the keyspace is the key of some tuple, so the keyspace is exactly how many tuples the
      columns have. */
  lemma {:induction false} EveryKey(columns: seq<nat>, cards: seq<nat>, key: nat) returns (digits: seq<Digit>)
    requires ColumnsOf(columns, cards) && key < Space(columns, cards)
    ensures InRange(digits, cards) && Columns(digits) == columns && Value(digits, cards) == key
  {
    if columns == [] {
      digits := [];
      assert Columns(digits) == [];
    } else {
      var rest, last := columns[..|columns| - 1], columns[|columns| - 1];
      var radix := cards[last];
      HighBelow(key, radix, Space(rest, cards));
      var high := EveryKey(rest, cards, key / radix);
      digits := high + [Digit(last, key % radix)];
      assert digits[..|digits| - 1] == high;
      assert |high| == |Columns(high)| == |rest|;
      assert columns == rest + [last];
      forall i | 0 <= i < |columns| ensures digits[i].column == columns[i] && digits[i].value < cards[columns[i]] {
        if i < |high| {
          assert Columns(high)[i] == columns[i];
        }
      }
      assert Columns(digits) == columns;
      assert key == (key / radix) * radix + key % radix;
    }
  }

  lemma HighBelow(key: nat, radix: nat, space: nat)
    requires key < space * radix
    ensures radix > 0 && key / radix < space
  {
    assert space * 0 == 0;
    assert radix > 0;
    var high := key / radix;
    assert key == high * radix + key % radix;
    ProductOrder(high + 1, space, radix);
    ProductOrder(space, high, radix);
  }

  // ----------------------------------------------------------------------- the key of every row

  /** A token table: every row has a token below its column's cardinality in every column. */
  ghost predicate Tokens(table: seq<seq<nat>>, cards: seq<nat>) {
    forall r :: 0 <= r < |table| ==> RowTokens(table[r], cards)
  }

  ghost predicate RowTokens(row: seq<nat>, cards: seq<nat>) {
    |row| == |cards| && forall c :: 0 <= c < |cards| ==> row[c] < cards[c]
  }

  function Digits(row: seq<nat>, columns: seq<nat>): seq<Digit>
    requires forall i :: 0 <= i < |columns| ==> columns[i] < |row|
  {
    seq(|columns|, i requires 0 <= i < |columns| => Digit(columns[i], row[columns[i]]))
  }

  ghost predicate ColumnsOf(columns: seq<nat>, cards: seq<nat>) {
    forall i :: 0 <= i < |columns| ==> columns[i] < |cards|
  }

  /** The row has a token in range in every indexed column. */
  ghost predicate Keyed(row: seq<nat>, columns: seq<nat>, cards: seq<nat>) {
    |row| == |cards| && ColumnsOf(columns, cards) && InRange(Digits(row, columns), cards)
  }

  ghost predicate TableKeyed(table: seq<seq<nat>>, columns: seq<nat>, cards: seq<nat>) {
    forall r :: 0 <= r < |table| ==> Keyed(table[r], columns, cards)
  }

  ghost predicate Wide(rows: seq<seq<nat>>, width: nat) {
    forall i :: 0 <= i < |rows| ==> |rows[i]| == width
  }

  ghost function KeyOf(row: seq<nat>, columns: seq<nat>, cards: seq<nat>): nat {
    if Keyed(row, columns, cards) then Value(Digits(row, columns), cards) else 0
  }

  /** The key column an index over `columns` is built from. */
  ghost function KeysOf(table: seq<seq<nat>>, columns: seq<nat>, cards: seq<nat>): (keys: seq<nat>)
    ensures |keys| == |table| && forall r :: 0 <= r < |table| ==> keys[r] == KeyOf(table[r], columns, cards)
  {
    seq<nat>(|table|, r requires 0 <= r < |table| => KeyOf(table[r], columns, cards))
  }

  lemma KeyBelowSpace(row: seq<nat>, columns: seq<nat>, cards: seq<nat>)
    requires Keyed(row, columns, cards)
    ensures KeyOf(row, columns, cards) < Space(columns, cards)
  {
    ValueBelowSpace(Digits(row, columns), cards);
    assert Columns(Digits(row, columns)) == columns;
  }

  /** Tokens in range in every column are so in the indexed ones. */
  lemma TokensKeyed(table: seq<seq<nat>>, columns: seq<nat>, cards: seq<nat>)
    requires Tokens(table, cards)
    ensures Wide(table, |cards|) && (ColumnsOf(columns, cards) ==> TableKeyed(table, columns, cards))
  {
    forall r | 0 <= r < |table| ensures |table[r]| == |cards| && (ColumnsOf(columns, cards) ==> Keyed(table[r], columns, cards)) {
      assert RowTokens(table[r], cards);
    }
  }

  /** The rows under a query's key are the rows that agree with the query on every indexed column. */
  lemma KeyRows(table: seq<seq<nat>>, columns: seq<nat>, cards: seq<nat>, query: map<nat, nat>, digits: seq<Digit>, r: nat)
    requires r < |table| && Keyed(table[r], columns, cards)
    requires |digits| == |columns| && InRange(digits, cards)
    requires forall i :: 0 <= i < |columns| ==> columns[i] in query && digits[i] == Digit(columns[i], query[columns[i]])
    ensures r in RowsWith(KeysOf(table, columns, cards), Value(digits, cards)) <==>
            forall i :: 0 <= i < |columns| ==> table[r][columns[i]] == query[columns[i]]
  {
    var mine := Digits(table[r], columns);
    assert Columns(mine) == columns == Columns(digits);
    if Value(mine, cards) == Value(digits, cards) {
      Injective(mine, digits, cards);
      forall i | 0 <= i < |columns| ensures table[r][columns[i]] == query[columns[i]] {
        assert mine[i] == digits[i];
      }
    }
    if forall i :: 0 <= i < |columns| ==> table[r][columns[i]] == query[columns[i]] {
      assert mine == digits;
    }
  }
}

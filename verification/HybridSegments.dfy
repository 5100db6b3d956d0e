/** A segment whose hot columns are stored row by row and whose cold columns are in the sidecar, read
    through a cache of one block of rows. Reads replace the cache, and whatever it holds, a read returns
    the token the rows have. */
module HybridSegments {
  import opened Wrappers
  import opened RowSets
  import opened ColdSegments

  /** Tokens of chosen columns, row after row. */
  function Flatten(rows: seq<seq<nat>>, columns: seq<nat>): seq<nat>
    requires forall r :: 0 <= r < |rows| ==> forall k :: 0 <= k < |columns| ==> columns[k] < |rows[r]|
  {
    if rows == [] then [] else Flatten(rows[..|rows| - 1], columns) + Pick(rows[|rows| - 1], columns)
  }

  function Pick(row: seq<nat>, columns: seq<nat>): (out: seq<nat>)
    requires forall k :: 0 <= k < |columns| ==> columns[k] < |row|
    ensures |out| == |columns| && forall k :: 0 <= k < |columns| ==> out[k] == row[columns[k]]
  {
    seq(|columns|, k requires 0 <= k < |columns| && columns[k] < |row| => row[columns[k]])
  }

  lemma {:induction false} FlattenAt(rows: seq<seq<nat>>, columns: seq<nat>, r: nat, k: nat)
    requires forall r :: 0 <= r < |rows| ==> forall k :: 0 <= k < |columns| ==> columns[k] < |rows[r]|
    requires r < |rows| && k < |columns|
    ensures r * |columns| + k < |Flatten(rows, columns)| == |rows| * |columns|
    ensures Flatten(rows, columns)[r * |columns| + k] == rows[r][columns[k]]
  {
    var n := |rows| - 1;
    FlattenLength(rows[..n], columns);
    FlattenLength(rows, columns);
    if r < n {
      FlattenAt(rows[..n], columns, r, k);
    }
    RowFits(r, |rows|, k, |columns|);
  }

  lemma {:induction false} FlattenLength(rows: seq<seq<nat>>, columns: seq<nat>)
    requires forall r :: 0 <= r < |rows| ==> forall k :: 0 <= k < |columns| ==> columns[k] < |rows[r]|
    ensures |Flatten(rows, columns)| == |rows| * |columns|
  {
    if rows != [] {
      FlattenLength(rows[..|rows| - 1], columns);
      assert |rows| * |columns| == (|rows| - 1) * |columns| + |columns|;
    }
  }

  lemma RowFits(r: nat, rows: nat, k: nat, columns: nat)
    requires r < rows && k < columns
    ensures r * columns + k < rows * columns
    ensures r + 1 < rows ==> r * columns + k < (rows - 1) * columns
    ensures r + 1 == rows ==> r * columns + k - (rows - 1) * columns == k
  {
    ProductOrder(r + 1, rows, columns);
    ProductOrder(r + 1, rows - 1, columns);
    assert (r + 1) * columns == r * columns + columns;
  }

  /** The hot columns beside the cold ones. */
  method Partition(columns: nat, cold: seq<nat>) returns (r: Result<seq<nat>>)
    ensures r.Ok? <==>
              && cold != [] && Increasing(cold) && (forall i :: 0 <= i < |cold| ==> cold[i] < columns)
              && exists c :: 0 <= c < columns && c !in cold
    ensures r.Ok? ==> Increasing(r.value) && r.value != [] && forall c: nat :: c in r.value <==> c < columns && c !in cold
  {
    if cold == [] {
      return Err(InvalidInput);
    }
    if exists i | 0 <= i < |cold| - 1 :: cold[i] >= cold[i + 1] {
      return Err(InvalidInput);
    }
    Neighbours(cold);
    if exists i | 0 <= i < |cold| :: cold[i] >= columns {
      return Err(InvalidInput);
    }
    var hot: seq<nat> := [];
    for c := 0 to columns
      invariant Increasing(hot) && forall x: nat :: x in hot <==> x < c && x !in cold
    {
      if c !in cold {
        assert forall i :: 0 <= i < |hot| ==> hot[i] in hot;
        hot := hot + [c];
      }
    }
    if hot == [] {
      return Err(InvalidInput);
    }
    assert hot[0] in hot;
    return Ok(hot);
  }

  lemma Neighbours(s: seq<nat>)
    ensures Increasing(s) <==> forall i :: 0 <= i < |s| - 1 ==> s[i] < s[i + 1]
  {
    if forall i :: 0 <= i < |s| - 1 ==> s[i] < s[i + 1] {
      forall i, j | 0 <= i < j < |s| ensures s[i] < s[j] {
        Chain(s, i, j);
      }
    }
  }

  lemma {:induction false} Chain(s: seq<nat>, i: nat, j: nat)
    requires i < j < |s| && forall k :: 0 <= k < |s| - 1 ==> s[k] < s[k + 1]
    ensures s[i] < s[j]
  {
    if i + 1 < j {
      Chain(s, i, j - 1);
    }
    assert s[j - 1] < s[j];
  }

  datatype ColdCache = ColdCache(rowStart: nat, values: seq<seq<nat>>)

  class HybridSegment {
    const rows: nat
    const cols: nat
    const hot: seq<nat>
    const cold: seq<nat>
    const hotData: seq<nat>
    const payload: Payload
    const rowGroupRows: nat
    var cache: Option<ColdCache>
    /** The rows the segment was written from. */
    ghost const table: seq<seq<nat>>

    ghost predicate Shape() {
      && rows == |table| && rowGroupRows > 0
      && (forall r :: 0 <= r < |table| ==> |table[r]| == cols)
      && (forall c :: c in hot || c in cold <==> 0 <= c < cols)
      && (forall k :: 0 <= k < |hot| ==> hot[k] < cols) && (forall k :: 0 <= k < |cold| ==> cold[k] < cols)
    }

    ghost predicate Stores() {
      && Shape()
      && hotData == Flatten(table, hot)
      && payload.columns == cold && ValidGroups(payload.groups, |cold|)
      && (forall k :: 0 <= k < |cold| ==> HoldsColumn(payload, k, table, cold[k]))
    }

    /** The cache, if filled, holds tokens of the table. */
    ghost predicate Valid()
      reads this
    {
      Stores() && (cache.Some? ==> CacheHolds(cache.value, table, cold))
    }

    constructor (rowData: seq<seq<nat>>, columnCount: nat, hotColumns: seq<nat>, coldColumns: seq<nat>, sidecar: Payload, groupRows: nat)
      requires groupRows > 0 && forall r :: 0 <= r < |rowData| ==> |rowData[r]| == columnCount
      requires forall c :: c in hotColumns || c in coldColumns <==> 0 <= c < columnCount
      requires sidecar.columns == coldColumns && ValidGroups(sidecar.groups, |coldColumns|)
      requires forall k :: 0 <= k < |coldColumns| ==> HoldsColumn(sidecar, k, rowData, coldColumns[k])
      ensures Valid() && fresh(this) && table == rowData && cols == columnCount && rows == |rowData| && cache.None?
    {
      InColumns(hotColumns, coldColumns, columnCount);
      rows, cols, hot, cold := |rowData|, columnCount, hotColumns, coldColumns;
      hotData, payload, rowGroupRows, cache := Flatten(rowData, hotColumns), sidecar, groupRows, None;
      table := rowData;
    }

    /** A token, from the row-wise part, from the cache, or from the sidecar: then the block of the row is
        read and replaces the cache. None outside the segment. */
    method ValueChecked(row: nat, col: nat) returns (r: Result<Option<nat>>)
      requires Valid()
      modifies this`cache
      ensures Valid()
      ensures r == Ok(if row < rows && col < cols then Some(table[row][col]) else None)
    {
      if row >= rows || col >= cols {
        return Ok(None);
      }
      assert col in hot || col in cold;
      var hotPosition := Position(hot, col);
      if hotPosition.Some? {
        FlattenAt(table, hot, row, hotPosition.value);
        return Ok(Some(hotData[row * |hot| + hotPosition.value]));
      }
      var coldSlot := Position(cold, col);
      if coldSlot.None? {
        assert false;
      }
      var slot := coldSlot.value;
      if cache.Some? && cache.value.rowStart <= row < cache.value.rowStart + |cache.value.values| {
        var group := cache.value;
        assert CachedRow(group.values[row - group.rowStart], table[group.rowStart + (row - group.rowStart)], cold);
        return Ok(Some(group.values[row - group.rowStart][slot]));
      }
      var groupStart := BlockStart(row, rowGroupRows);
      BlockOf(row, rowGroupRows);
      var groupEnd := Min(groupStart + rowGroupRows, rows);
      var values := ReadBlock(groupStart, groupEnd);
      assert CachedRow(values[row - groupStart], table[groupStart + (row - groupStart)], cold);
      cache := Some(ColdCache(groupStart, values));
      return Ok(Some(values[row - groupStart][slot]));
    }

    /** The cold columns of a block of rows. */
    method ReadBlock(start: nat, end: nat) returns (values: seq<seq<nat>>)
      requires Stores() && start < end <= rows && cold != []
      ensures |values| == end - start && CacheHolds(ColdCache(start, values), table, cold)
    {
      var requested := seq<nat>(end - start, i requires 0 <= i => start + i);
      ColumnLength(payload.groups, |cold|, 0);
      assert HoldsColumn(payload, 0, table, cold[0]);
      FirstPositions(cold);
      var read := ReadTokenProjection(payload, requested, cold);
      values := read.value;
      forall i | 0 <= i < |values| ensures CachedRow(values[i], table[start + i], cold) {
        forall k | 0 <= k < |cold| ensures cold[k] < |table[start + i]| && values[i][k] == table[start + i][cold[k]] {
          var p := Position(cold, cold[k]).value;
          assert IsToken(payload, p, requested[i], values[i][k]);
          assert HoldsColumn(payload, p, table, cold[p]);
        }
      }
    }

    /** Whether a row matches every predicate. */
    method Matches(row: nat, predicates: seq<(nat, nat)>) returns (matched: bool)
      requires Valid()
      modifies this`cache
      ensures Valid()
      ensures matched <==> row < rows && RowMatches(table[row], predicates)
    {
      if row >= rows {
        return false;
      }
      for i := 0 to |predicates|
        invariant Valid() && forall k :: 0 <= k < i ==> predicates[k].0 < |table[row]| && table[row][predicates[k].0] == predicates[k].1
      {
        var value := ValueChecked(row, predicates[i].0);
        if value.value != Some(predicates[i].1) {
          return false;
        }
      }
      return true;
    }

    /** The number of matching rows of a page. */
    method CountPage(start: nat, end: nat, predicates: seq<(nat, nat)>) returns (count: nat)
      requires Valid()
      modifies this`cache
      ensures Valid()
      ensures count == |MatchingIn(table, start, Min(end, rows), predicates)|
    {
      count := 0;
      var last := Min(end, rows);
      if start >= last {
        assert MatchingIn(table, start, last, predicates) == {};
        return;
      }
      assert MatchingIn(table, start, start, predicates) == {};
      for row := start to last
        invariant Valid() && count == |MatchingIn(table, start, row, predicates)|
      {
        var matched := Matches(row, predicates);
        assert MatchingIn(table, start, row + 1, predicates) ==
               MatchingIn(table, start, row, predicates) + if RowMatches(table[row], predicates) then {row} else {};
        if matched {
          count := count + 1;
        }
      }
    }
  }

  predicate RowMatches(row: seq<nat>, predicates: seq<(nat, nat)>) {
    forall k :: 0 <= k < |predicates| ==> predicates[k].0 < |row| && row[predicates[k].0] == predicates[k].1
  }

  ghost function MatchingIn(table: seq<seq<nat>>, start: nat, end: nat, predicates: seq<(nat, nat)>): set<nat>
    requires end <= |table|
  {
    set r | start <= r < end && RowMatches(table[r], predicates)
  }

  /** The first row of the block that holds a row. */
  function BlockStart(row: nat, blockRows: nat): nat
    requires blockRows > 0
  {
    row / blockRows * blockRows
  }

  lemma BlockOf(row: nat, blockRows: nat)
    requires blockRows > 0
    ensures BlockStart(row, blockRows) <= row < BlockStart(row, blockRows) + blockRows
  {
    assert row == row / blockRows * blockRows + row % blockRows;
  }

  lemma InColumns(hot: seq<nat>, cold: seq<nat>, columns: nat)
    requires forall c :: c in hot || c in cold <==> 0 <= c < columns
    ensures forall k :: 0 <= k < |hot| ==> hot[k] < columns
    ensures forall k :: 0 <= k < |cold| ==> cold[k] < columns
  {
    forall k | 0 <= k < |hot| ensures hot[k] < columns {
      assert hot[k] in hot;
    }
    forall k | 0 <= k < |cold| ensures cold[k] < columns {
      assert cold[k] in cold;
    }
  }

  lemma FirstPositions(cold: seq<nat>)
    ensures forall k :: 0 <= k < |cold| ==> Position(cold, cold[k]).Some?
  {
    forall k | 0 <= k < |cold| ensures Position(cold, cold[k]).Some? {
      assert cold[k] in cold;
    }
  }

  /** Writes the cold columns of the rows as a sidecar. */
  method WriteSidecar(table: seq<seq<nat>>, cold: seq<nat>, groupRows: nat) returns (r: Result<Payload>)
    requires cold != [] && groupRows > 0
    requires forall i :: 0 <= i < |table| ==> forall k :: 0 <= k < |cold| ==> cold[k] < |table[i]| && table[i][cold[k]] <= U32_MAX
    ensures r.Ok? && r.value.columns == cold && ValidGroups(r.value.groups, |cold|)
    ensures forall k :: 0 <= k < |cold| ==> HoldsColumn(r.value, k, table, cold[k])
  {
    var writer := new TokenWriter(cold, groupRows);
    var batch: seq<seq<nat>> := [];
    for k := 0 to |cold|
      invariant |batch| == k && forall j :: 0 <= j < k ==> IsColumn(batch[j], table, cold[j])
    {
      var column := seq<nat>(|table|, i requires 0 <= i < |table| && cold[k] < |table[i]| => table[i][cold[k]]);
      assert IsColumn(column, table, cold[k]);
      batch := batch + [column];
    }
    assert forall j :: 0 <= j < |cold| ==> IsColumn(batch[j], table, cold[j]);
    var wrote := writer.WriteColumns(batch);
    var payload, count := writer.Finish();
    forall k | 0 <= k < |cold| ensures HoldsColumn(payload, k, table, cold[k]) {
      assert IsColumn(batch[k], table, cold[k]);
      assert ColumnOf(payload.groups, k) == Sign(batch[k]);
    }
    if count != |table| {
      return Err(InvalidData);
    }
    return Ok(payload);
  }

  ghost predicate IsColumn(column: seq<nat>, table: seq<seq<nat>>, c: nat) {
    && |column| == |table|
    && forall i :: 0 <= i < |table| ==> c < |table[i]| && column[i] == table[i][c] <= U32_MAX
  }

  /** Column p of the sidecar is column c of the table. */
  ghost predicate HoldsColumn(payload: Payload, p: nat, table: seq<seq<nat>>, c: nat) {
    && |ColumnOf(payload.groups, p)| == |table|
    && forall r :: 0 <= r < |table| ==> c < |table[r]| && Loaded(ColumnOf(payload.groups, p)[r]) == table[r][c]
  }

  ghost predicate CacheHolds(cache: ColdCache, table: seq<seq<nat>>, cold: seq<nat>) {
    && cache.rowStart + |cache.values| <= |table|
    && forall i :: 0 <= i < |cache.values| ==> CachedRow(cache.values[i], table[cache.rowStart + i], cold)
  }

  ghost predicate CachedRow(values: seq<nat>, row: seq<nat>, cold: seq<nat>) {
    && |values| == |cold|
    && forall k :: 0 <= k < |cold| ==> cold[k] < |row| && values[k] == row[cold[k]]
  }
}

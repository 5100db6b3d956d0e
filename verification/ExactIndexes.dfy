/** Building an exact index: a key for every row, an external sort, and the representation the sizes
    favour. */
module ExactIndexes {
  import opened Wrappers
  import opened Postings
  import opened MixedRadix
  import opened RowIndexes
  import ExternalSort
  import SortedIndexes
  import DeltaPostings
  import BitSlices

  const BITSLICE_STORAGE_BUDGET_MULTIPLIER: nat := 2

  function SaturatingU64(x: nat): nat { Min(x, U64_MAX) }

  /** A bit-slice must not cost over eight times the average posting in plane words. */
  function BitSliceQueryOk(keyspace: nat, rows: nat): bool {
    if keyspace == 0 then false
    else
      var words := SaturatingU64(rows + 63) / 64;
      var average := SaturatingU64(rows + (keyspace - 1)) / keyspace;
      SaturatingU64(words * BitSlices.BitsForKeyspace(keyspace)) <= SaturatingU64(average * 8)
  }

  function OrMax(x: nat): nat { if x <= U64_MAX then x else U64_MAX }

  /** Each row's key record, in row order. */
  ghost predicate RecordsOf(records: seq<Record>, keys: seq<nat>, n: nat) {
    && |records| == n <= |keys|
    && forall r :: 0 <= r < n ==> records[r] == Record(keys[r], r)
  }

  lemma RecordsTabulate(records: seq<Record>, sorted: seq<Record>, keys: seq<nat>)
    requires RecordsOf(records, keys, |keys|)
    requires StrictlySorted(sorted) && forall x :: x in sorted <==> x in records
    ensures Tabulates(sorted, keys) && |sorted| == |keys|
    ensures forall i :: 0 <= i < |sorted| ==> sorted[i] == Record(keys[sorted[i].row], sorted[i].row) && sorted[i].row < |keys|
  {
    forall i | 0 <= i < |sorted|
      ensures sorted[i].row < |keys| && sorted[i] == Record(keys[sorted[i].row], sorted[i].row)
    {
      assert sorted[i] in records;
    }
    forall r | 0 <= r < |keys| ensures Record(keys[r], r) in sorted {
      assert records[r] in records;
    }
    var S := set i | 0 <= i < |sorted| :: sorted[i];
    var T := set r | 0 <= r < |records| :: records[r];
    assert S == T;
    DistinctSize(sorted);
    RecordsSize(records, keys, |keys|);
  }

  lemma {:induction false} DistinctSize(rs: seq<Record>)
    requires StrictlySorted(rs)
    ensures |set i | 0 <= i < |rs| :: rs[i]| == |rs|
  {
    if rs != [] {
      var rest, last := rs[..|rs| - 1], rs[|rs| - 1];
      DistinctSize(rest);
      var R := set i | 0 <= i < |rest| :: rest[i];
      assert forall i :: 0 <= i < |rest| ==> Less(rs[i], last);
      assert (set i | 0 <= i < |rs| :: rs[i]) == R + {last};
    }
  }

  lemma {:induction false} RecordsSize(records: seq<Record>, keys: seq<nat>, n: nat)
    requires RecordsOf(records, keys, n)
    ensures |set i | 0 <= i < |records| :: records[i]| == n
  {
    if n > 0 {
      var rest, last := records[..n - 1], records[n - 1];
      RecordsSize(rest, keys, n - 1);
      var R := set i | 0 <= i < |rest| :: rest[i];
      assert (set i | 0 <= i < |records| :: records[i]) == R + {last};
    }
  }

  /** The key record of every row. A token out of range in an indexed column is an error; a key cannot
      overflow when the keyspace fits. */
  method SpoolKeys(table: seq<seq<nat>>, columns: seq<nat>, cards: seq<nat>) returns (r: Result<seq<Record>>)
    requires ColumnsOf(columns, cards) && Wide(table, |cards|)
    ensures r.Ok? ==> TableKeyed(table, columns, cards) && RecordsOf(r.value, KeysOf(table, columns, cards), |table|)
    ensures TableKeyed(table, columns, cards) && Space(columns, cards) <= U64_MAX ==> r.Ok?
  {
    var records: seq<Record> := [];
    for row := 0 to |table|
      invariant forall k :: 0 <= k < row ==> Keyed(table[k], columns, cards)
      invariant RecordsOf(records, KeysOf(table, columns, cards), row)
    {
      var digits := Digits(table[row], columns);
      var key := Pack(digits, cards);
      if key.None? {
        if Keyed(table[row], columns, cards) {
          KeyBelowSpace(table[row], columns, cards);
        }
        return Err(InvalidData);
      }
      records := records + [Record(key.value, row)];
    }
    return Ok(records);
  }

  /** The number of keys the columns span; fails past 64 bits. */
  method Keyspace(columns: seq<nat>, cards: seq<nat>) returns (r: Result<nat>)
    requires ColumnsOf(columns, cards) && forall c :: 0 <= c < |cards| ==> cards[c] > 0
    ensures r.Ok? <==> Space(columns, cards) <= U64_MAX
    ensures r.Ok? ==> r.value == Space(columns, cards)
  {
    var space: nat := 1;
    for i := 0 to |columns|
      invariant space == Space(columns[..i], cards) <= U64_MAX
    {
      assert columns[..i + 1][..i] == columns[..i];
      var next: nat := space * cards[columns[i]];
      assert next == Space(columns[..i + 1], cards);
      if next > U64_MAX {
        SpacePrefix(columns, cards, i + 1);
        return Err(InvalidInput);
      }
      space := next;
    }
    assert columns[..|columns|] == columns;
    return Ok(space);
  }

  lemma {:induction false} SpacePrefix(columns: seq<nat>, cards: seq<nat>, n: nat)
    requires ColumnsOf(columns, cards) && forall c :: 0 <= c < |cards| ==> cards[c] > 0
    requires n <= |columns|
    ensures Space(columns[..n], cards) <= Space(columns, cards)
  {
    if n < |columns| {
      var rest := columns[..|columns| - 1];
      SpacePrefix(rest, cards, n);
      assert rest[..n] == columns[..n];
      Grows(Space(rest, cards), cards[columns[|columns| - 1]]);
    } else {
      assert columns[..n] == columns;
    }
  }

  function DeltaFileBytes(d: DeltaPostings.Delta): nat {
    48 + 20 * |d.groups| + |d.body|
  }

  method CountUnique(sorted: seq<Record>) returns (unique: nat) {
    unique := 0;
    for i := 0 to |sorted| {
      if i == 0 || sorted[i - 1].key != sorted[i].key {
        unique := unique + 1;
      }
    }
  }

  /** Picks by size; the choice changes the work of a lookup and nothing else. */
  method Choose(sorted: seq<Record>, single: bool, space: nat, rows: nat, ghost keys: seq<nat>)
    returns (r: Result<RowIndex>)
    requires StrictlySorted(sorted) && Tabulates(sorted, keys) && |sorted| == |keys| == rows <= U32_MAX
    requires forall i :: 0 <= i < |sorted| ==> sorted[i].key < space && sorted[i].row < rows
    ensures r.Ok? && r.value.Holds(keys)
  {
    var unique := CountUnique(sorted);
    var sparseBytes := SaturatingU64(40 + unique * 24 + rows * 4);
    var denseBytes := OrMax(40 + (space + 1) * 4 + rows * 4);
    var flatBytes := OrMax(24 + rows * 12);
    var estimate := BitSlices.EstimatedBytes(space, rows);
    var bitBytes := if single && BitSliceQueryOk(space, rows) && estimate.Some? then estimate.value else U64_MAX;

    assert forall i, j :: 0 <= i < j < |sorted| ==> Less(sorted[i], sorted[j]);
    assert DeltaPostings.RowsAscend(sorted, |sorted|);
    var built := DeltaPostings.BuildDelta(sorted);
    var delta := built.value;
    var deltaBytes := DeltaFileBytes(delta);
    var best := Min(Min(Min(deltaBytes, denseBytes), sparseBytes), flatBytes);

    if bitBytes != U64_MAX && bitBytes <= SaturatingU64(best * BITSLICE_STORAGE_BUDGET_MULTIPLIER) {
      var bits := BitSlices.BuildBitSlice(sorted, space, rows, keys);
      return Ok(RowIndex.BitSlice(bits.value));
    } else if flatBytes <= deltaBytes && flatBytes <= denseBytes && flatBytes <= sparseBytes {
      var flat := SortedIndexes.BuildFlat(sorted, rows);
      return Ok(RowIndex.Flat(flat.value));
    } else if deltaBytes <= denseBytes && deltaBytes <= sparseBytes {
      return Ok(RowIndex.Delta(delta));
    } else if denseBytes < sparseBytes {
      var dense := SortedIndexes.BuildDense(sorted, space, rows);
      return Ok(RowIndex.Dense(dense.value));
    } else {
      var sparse := SortedIndexes.BuildSparse(sorted, rows);
      return Ok(RowIndex.Sparse(sparse.value));
    }
  }

  /** An exact index over the given columns of a token table. */
  method BuildExact(table: seq<seq<nat>>, columns: seq<nat>, cards: seq<nat>, maxSortRecords: nat)
    returns (r: Result<RowIndex>)
    requires Wide(table, |cards|) && forall c :: 0 <= c < |cards| ==> cards[c] > 0
    ensures r.Ok? <==>
            && maxSortRecords > 0 && |table| <= U32_MAX
            && columns != [] && ColumnsOf(columns, cards) && Space(columns, cards) <= U64_MAX
            && TableKeyed(table, columns, cards)
    ensures r.Ok? ==> r.value.Holds(KeysOf(table, columns, cards))
  {
    if maxSortRecords == 0 || |table| > U32_MAX {
      return Err(InvalidInput);
    }
    if columns == [] || exists i | 0 <= i < |columns| :: columns[i] >= |cards| {
      return Err(InvalidInput);
    }
    var space := Keyspace(columns, cards);
    var spooled := SpoolKeys(table, columns, cards);
    if spooled.Err? {
      return Err(InvalidData);
    }
    var sorted, entries := ExternalSort.Sort(spooled.value, maxSortRecords);
    if space.Err? {
      return Err(InvalidInput);
    }
    ghost var keys := KeysOf(table, columns, cards);
    forall r | 0 <= r < |table| ensures keys[r] < space.value {
      KeyBelowSpace(table[r], columns, cards);
    }
    RecordsTabulate(spooled.value, sorted.value, keys);
    if entries != |table| {
      assert false;
    }
    r := Choose(sorted.value, |columns| == 1, space.value, |table|, keys);
  }
}

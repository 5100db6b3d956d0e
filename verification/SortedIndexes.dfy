/** The three uncompressed row indexes: flat records, a dense offset table, a sparse key directory. */
module SortedIndexes {
  import opened Wrappers
  import opened RowSets
  import opened Postings

  // ---------------------------------------------------------------------------- flat records

  datatype Flat = Flat(keys: seq<nat>, rows: seq<nat>) {
    ghost predicate Holds(rs: seq<Record>) {
      && StrictlySorted(rs)
      && |keys| == |rows| == |rs|
      && (forall i :: 0 <= i < |rs| ==> keys[i] == rs[i].key)
      && (forall i :: 0 <= i < |rs| ==> rows[i] == rs[i].row)
    }

    /** The first position whose key is at least (`strict`: above) the given key. */
    method Bound(key: nat, strict: bool, ghost rs: seq<Record>) returns (lo: nat)
      requires Holds(rs)
      ensures lo <= |rs|
      ensures forall i :: 0 <= i < lo ==> rs[i].key < key || (strict && rs[i].key == key)
      ensures forall i :: lo <= i < |rs| ==> key < rs[i].key || (!strict && rs[i].key == key)
    {
      lo := 0;
      var hi := |keys|;
      while lo < hi
        invariant 0 <= lo <= hi <= |rs|
        invariant forall i :: 0 <= i < lo ==> rs[i].key < key || (strict && rs[i].key == key)
        invariant forall i :: hi <= i < |rs| ==> key < rs[i].key || (!strict && rs[i].key == key)
      {
        var mid := lo + (hi - lo) / 2;
        assert forall i :: 0 <= i < mid ==> Less(rs[i], rs[mid]);
        assert forall i :: mid < i < |rs| ==> Less(rs[mid], rs[i]);
        if keys[mid] < key || (strict && keys[mid] == key) {
          lo := mid + 1;
        } else {
          hi := mid;
        }
      }
    }

    method Bounds(key: nat, ghost rs: seq<Record>) returns (start: nat, end: nat)
      requires Holds(rs)
      ensures Slice(rs, rows, key, start, end)
    {
      start := Bound(key, false, rs);
      if start == |keys| || keys[start] != key {
        end := start;
      } else {
        end := Bound(key, true, rs);
      }
    }
  }

  method BuildFlat(sorted: seq<Record>, rows: nat) returns (r: Result<Flat>)
    ensures r.Ok? <==> rows <= U32_MAX && StrictlySorted(sorted) && |sorted| == rows
    ensures r.Ok? ==> r.value.Holds(sorted)
  {
    if rows > U32_MAX {
      return Err(InvalidInput);
    }
    var keys, body := [], [];
    for seen := 0 to |sorted|
      invariant |keys| == |body| == seen
      invariant forall i :: 0 <= i < seen ==> keys[i] == sorted[i].key && body[i] == sorted[i].row
      invariant forall i, j :: 0 <= i < j < seen ==> Less(sorted[i], sorted[j])
    {
      var record := sorted[seen];
      if seen > 0 && !Less(sorted[seen - 1], record) {
        return Err(InvalidData);
      }
      keys := keys + [record.key];
      body := body + [record.row];
    }
    if |keys| != rows {
      return Err(InvalidData);
    }
    return Ok(Flat(keys, body));
  }

  // ---------------------------------------------------------------------- dense offset table

  datatype Dense = Dense(keyspace: nat, offsets: seq<nat>, rows: seq<nat>) {
    ghost predicate Holds(rs: seq<Record>) {
      && StrictlySorted(rs)
      && |rows| == |rs|
      && (forall i :: 0 <= i < |rs| ==> rows[i] == rs[i].row && rs[i].key < keyspace)
      && |offsets| == keyspace + 1
      && (forall k :: 0 <= k <= keyspace ==> Offset(rs, k, offsets[k]))
    }

    method Bounds(key: nat, ghost rs: seq<Record>) returns (start: nat, end: nat)
      requires Holds(rs)
      ensures key < keyspace ==> Slice(rs, rows, key, start, end)
      ensures key >= keyspace ==> start == end == 0 && RowsOf(rs, key) == {}
    {
      if key >= keyspace {
        return 0, 0;
      }
      start, end := offsets[key], offsets[key + 1];
      assert Offset(rs, key, start) && Offset(rs, key + 1, end);
      assert end < |rs| ==> (end < start <==> rs[end].key < key);
    }
  }

  /** Exactly the first `offset` records have a key below k. */
  ghost predicate Offset(rs: seq<Record>, k: nat, offset: nat) {
    && offset <= |rs|
    && (forall i :: 0 <= i < |rs| ==> (i < offset <==> rs[i].key < k))
  }

  /** The offsets emitted so far, `n` of the records read: every key up to the last one read has its
      offset. */
  ghost predicate Offsets(rs: seq<Record>, offsets: seq<nat>, current: Option<nat>, n: nat) {
    && n <= |rs|
    && (n == 0 ==> current == None && offsets == [])
    && (n > 0 ==> current == Some(rs[n - 1].key) && |offsets| == rs[n - 1].key + 1)
    && forall k :: 0 <= k < |offsets| ==> Offset(rs, k, offsets[k])
  }

  /** Keys up to the next record's get the next record's position. */
  lemma OffsetsNext(rs: seq<Record>, offsets: seq<nat>, current: Option<nat>, n: nat, emitted: seq<nat>)
    requires StrictlySorted(rs) && Offsets(rs, offsets, current, n) && n < |rs|
    requires current == Some(rs[n].key) ==> emitted == offsets
    requires current != Some(rs[n].key) ==> Emitted(offsets, emitted, n, rs[n].key + 1)
    ensures Offsets(rs, emitted, Some(rs[n].key), n + 1)
  {
    assert forall i :: 0 <= i < n ==> Less(rs[i], rs[n]);
    assert forall i :: n < i < |rs| ==> Less(rs[n], rs[i]);
    if n > 0 {
      assert forall i :: 0 <= i < n - 1 ==> Less(rs[i], rs[n - 1]);
    }
    forall k | 0 <= k < |emitted| ensures Offset(rs, k, emitted[k]) {
    }
  }

  lemma OffsetsEnd(rs: seq<Record>, offsets: seq<nat>, current: Option<nat>, keyspace: nat, emitted: seq<nat>)
    requires StrictlySorted(rs) && Offsets(rs, offsets, current, |rs|)
    requires Emitted(offsets, emitted, |rs|, keyspace + 1) && forall i :: 0 <= i < |rs| ==> rs[i].key < keyspace
    ensures |emitted| == keyspace + 1 && forall k :: 0 <= k <= keyspace ==> Offset(rs, k, emitted[k])
  {
    if rs != [] {
      assert forall i :: 0 <= i < |rs| - 1 ==> Less(rs[i], rs[|rs| - 1]);
    }
  }

  /** The offsets, filled up with a position. */
  ghost predicate Emitted(offsets: seq<nat>, emitted: seq<nat>, position: nat, size: nat) {
    && |offsets| <= |emitted| && (|emitted| == size || emitted == offsets)
    && (|offsets| <= size ==> |emitted| == size)
    && (forall k :: 0 <= k < |offsets| ==> emitted[k] == offsets[k])
    && (forall k :: |offsets| <= k < |emitted| ==> emitted[k] == position)
  }

  /** Fills the offsets up to a size, if they are not there yet. */
  method EmitOffsets(offsets: seq<nat>, position: nat, size: nat) returns (emitted: seq<nat>)
    ensures Emitted(offsets, emitted, position, size)
  {
    emitted := offsets;
    while |emitted| < size
      invariant |offsets| <= |emitted| && (|emitted| <= size || emitted == offsets)
      invariant forall k :: 0 <= k < |offsets| ==> emitted[k] == offsets[k]
      invariant forall k :: |offsets| <= k < |emitted| ==> emitted[k] == position
      decreases size - |emitted|
    {
      emitted := emitted + [position];
    }
  }

  /** The builder checks the keys and the number of records; order is for the sort before it to provide. */
  method BuildDense(sorted: seq<Record>, keyspace: nat, rows: nat) returns (r: Result<Dense>)
    ensures r.Ok? <==>
            && rows <= U32_MAX
            && (forall i :: 0 <= i < |sorted| ==> sorted[i].key < keyspace)
            && |sorted| == rows
    ensures r.Ok? && StrictlySorted(sorted) ==> r.value.Holds(sorted) && r.value.keyspace == keyspace
  {
    if rows > U32_MAX {
      return Err(InvalidInput);
    }
    var offsets: seq<nat> := [];
    var rowIndex := 0;
    var current: Option<nat> := None;
    while rowIndex < |sorted|
      invariant 0 <= rowIndex <= |sorted|
      invariant forall i :: 0 <= i < rowIndex ==> sorted[i].key < keyspace
      invariant StrictlySorted(sorted) ==> Offsets(sorted, offsets, current, rowIndex)
    {
      hide Offsets, Emitted, StrictlySorted;
      var key := sorted[rowIndex].key;
      if key >= keyspace {
        return Err(InvalidData);
      }
      ghost var before, last := offsets, current;
      if current != Some(key) {
        offsets := EmitOffsets(offsets, rowIndex, key + 1);
        current := Some(key);
      }
      if StrictlySorted(sorted) {
        OffsetsNext(sorted, before, last, rowIndex, offsets);
      }
      if rowIndex + 1 > U32_MAX {
        return Err(InvalidData);
      }
      rowIndex := rowIndex + 1;
    }
    if rowIndex != rows {
      return Err(InvalidData);
    }
    var all := EmitOffsets(offsets, rowIndex, keyspace + 1);
    if StrictlySorted(sorted) {
      OffsetsEnd(sorted, offsets, current, keyspace, all);
    }
    var body := seq(|sorted|, i requires 0 <= i < |sorted| => sorted[i].row);
    return Ok(Dense(keyspace, all, body));
  }

  // ------------------------------------------------------------------------ sparse directory

  datatype Entry = Entry(key: nat, start: nat, len: nat)

  datatype Sparse = Sparse(directory: seq<Entry>, rows: seq<nat>) {
    ghost predicate Holds(rs: seq<Record>) {
      && StrictlySorted(rs)
      && DirectoryOf(rs, directory, |rs|)
      && |rows| == |rs|
      && (forall i :: 0 <= i < |rs| ==> rows[i] == rs[i].row)
    }

    method Bounds(key: nat, ghost rs: seq<Record>) returns (start: nat, end: nat)
      requires Holds(rs)
      ensures Slice(rs, rows, key, start, end) || (start == end == 0 && RowsOf(rs, key) == {})
    {
      var l, r := 0, |directory|;
      while l < r
        invariant 0 <= l <= r <= |directory|
        invariant forall i :: 0 <= i < l ==> directory[i].key < key
        invariant forall i :: r <= i < |directory| ==> key <= directory[i].key
      {
        var m := l + (r - l) / 2;
        if directory[m].key < key {
          l := m + 1;
        } else {
          r := m;
        }
      }
      if l < |directory| && directory[l].key == key {
        start, end := directory[l].start, directory[l].start + directory[l].len;
        DirectoryEntry(rs, directory, |rs|, l);
      } else {
        start, end := 0, 0;
        forall i | 0 <= i < |rs| ensures rs[i].key != key {
          DirectoryCovers(rs, directory, |rs|, i);
        }
      }
    }
  }

  /** The directory of the first n records: one entry a distinct key, back to back. */
  ghost predicate DirectoryOf(rs: seq<Record>, dir: seq<Entry>, n: nat) {
    && n <= |rs|
    && (forall e, f :: 0 <= e < f < |dir| ==> dir[e].key < dir[f].key)
    && (forall e :: 0 <= e < |dir| ==> dir[e].len > 0)
    && (dir != [] ==> dir[0].start == 0)
    && (forall e, f :: 0 <= e < f < |dir| && f == e + 1 ==> dir[f].start == dir[e].start + dir[e].len)
    && (n == if dir == [] then 0 else dir[|dir| - 1].start + dir[|dir| - 1].len)
    && (forall e, i :: 0 <= e < |dir| && dir[e].start <= i < dir[e].start + dir[e].len && i < n
          ==> rs[i].key == dir[e].key)
  }

  /** Every record lies in the range of the entry with its key. */
  lemma DirectoryCovers(rs: seq<Record>, dir: seq<Entry>, n: nat, i: nat)
    requires DirectoryOf(rs, dir, n) && i < n
    ensures exists e :: 0 <= e < |dir| && dir[e].start <= i < dir[e].start + dir[e].len && dir[e].key == rs[i].key
  {
    CoveredUpTo(rs, dir, n, |dir| - 1, i);
  }

  lemma {:induction false} CoveredUpTo(rs: seq<Record>, dir: seq<Entry>, n: nat, e: nat, i: nat)
    requires DirectoryOf(rs, dir, n) && i < n && e < |dir| && i < dir[e].start + dir[e].len
    ensures exists f :: 0 <= f < |dir| && dir[f].start <= i < dir[f].start + dir[f].len && dir[f].key == rs[i].key
  {
    if i < dir[e].start {
      assert dir[e].start == dir[e - 1].start + dir[e - 1].len;
      CoveredUpTo(rs, dir, n, e - 1, i);
    }
  }

  lemma DirectoryEntry(rs: seq<Record>, dir: seq<Entry>, n: nat, e: nat)
    requires DirectoryOf(rs, dir, n) && e < |dir|
    ensures dir[e].start + dir[e].len <= n
    ensures forall i :: 0 <= i < n ==> (rs[i].key == dir[e].key <==> dir[e].start <= i < dir[e].start + dir[e].len)
  {
    DirectoryEnd(rs, dir, n, e);
    forall i | 0 <= i < n && rs[i].key == dir[e].key
      ensures dir[e].start <= i < dir[e].start + dir[e].len
    {
      DirectoryCovers(rs, dir, n, i);
    }
  }

  lemma DirectorySnoc(rs: seq<Record>, dir: seq<Entry>, start: nat, end: nat)
    requires DirectoryOf(rs, dir, start) && start < end <= |rs|
    requires forall i :: start <= i < end ==> rs[i].key == rs[end - 1].key
    requires dir != [] ==> dir[|dir| - 1].key < rs[end - 1].key
    ensures DirectoryOf(rs, dir + [Entry(rs[end - 1].key, start, end - start)], end)
  {
    var entry := Entry(rs[end - 1].key, start, end - start);
    var more := dir + [entry];
    KeysBelow(rs, dir, start, entry.key);
    forall e, i | 0 <= e < |more| && more[e].start <= i < more[e].start + more[e].len && i < end
      ensures rs[i].key == more[e].key
    {
      if e < |dir| {
        DirectoryEnd(rs, dir, start, e);
        assert dir[e].start <= i < dir[e].start + dir[e].len;
      }
    }
  }

  lemma KeysBelow(rs: seq<Record>, dir: seq<Entry>, n: nat, key: nat)
    requires DirectoryOf(rs, dir, n) && (dir != [] ==> dir[|dir| - 1].key < key)
    ensures forall e :: 0 <= e < |dir| ==> dir[e].key < key
  {
  }

  lemma DirectoryEnd(rs: seq<Record>, dir: seq<Entry>, n: nat, e: nat)
    requires DirectoryOf(rs, dir, n) && e < |dir|
    ensures dir[e].start + dir[e].len <= n
    decreases |dir| - e
  {
    if e + 1 < |dir| {
      DirectoryEnd(rs, dir, n, e + 1);
      assert dir[e + 1].start == dir[e].start + dir[e].len;
    }
  }

  /** Building the directory after n records: `current` is the open key, begun at `start`. */
  ghost predicate Grouped(rs: seq<Record>, dir: seq<Entry>, current: Option<nat>, start: nat, n: nat) {
    && start <= n <= |rs|
    && DirectoryOf(rs, dir, start)
    && (n == 0 ==> start == 0 && current == None)
    && (n > 0 ==> start < n && current == Some(rs[n - 1].key))
    && (forall i :: start <= i < n ==> Some(rs[i].key) == current)
    && (dir != [] ==> n > 0 && dir[|dir| - 1].key < rs[n - 1].key)
  }

  /** The next record extends the open entry, or closes it and opens the next. */
  lemma GroupedNext(rs: seq<Record>, dir: seq<Entry>, current: Option<nat>, start: nat, n: nat)
    requires Grouped(rs, dir, current, start, n) && n < |rs|
    requires n > 0 ==> rs[n - 1].key <= rs[n].key
    ensures current == Some(rs[n].key) ==> Grouped(rs, dir, current, start, n + 1)
    ensures current != Some(rs[n].key) ==> Grouped(rs, Closed(dir, current, start, n), Some(rs[n].key), n, n + 1)
  {
    if current != Some(rs[n].key) {
      GroupedAnew(rs, dir, current, start, n);
    }
    hide DirectoryOf, Closed;
  }

  lemma GroupedAnew(rs: seq<Record>, dir: seq<Entry>, current: Option<nat>, start: nat, n: nat)
    requires Grouped(rs, dir, current, start, n) && n < |rs| && current != Some(rs[n].key)
    requires n > 0 ==> rs[n - 1].key <= rs[n].key
    ensures Grouped(rs, Closed(dir, current, start, n), Some(rs[n].key), n, n + 1)
  {
    if current.Some? {
      DirectorySnoc(rs, dir, start, n);
    }
    hide DirectoryOf;
  }

  function Closed(dir: seq<Entry>, current: Option<nat>, start: nat, n: nat): seq<Entry>
    requires start <= n
  {
    if current.Some? then dir + [Entry(current.value, start, n - start)] else dir
  }

  lemma GroupedAll(rs: seq<Record>, dir: seq<Entry>, current: Option<nat>, start: nat)
    requires Grouped(rs, dir, current, start, |rs|)
    ensures start <= |rs| && DirectoryOf(rs, Closed(dir, current, start, |rs|), |rs|)
  {
    if current.Some? {
      DirectorySnoc(rs, dir, start, |rs|);
    }
  }

  lemma GroupedNone(rs: seq<Record>)
    ensures Grouped(rs, [], None, 0, 0)
  {
  }

  /** The builder checks only the number of records; order is for the sort before it to provide. */
  method BuildSparse(sorted: seq<Record>, rows: nat) returns (r: Result<Sparse>)
    ensures r.Ok? <==> |sorted| == rows
    ensures r.Ok? && StrictlySorted(sorted) ==> r.value.Holds(sorted)
  {
    if |sorted| != rows {
      return Err(InvalidData);
    }
    assert StrictlySorted(sorted) ==> forall i :: 0 < i < |sorted| ==> Less(sorted[i - 1], sorted[i]);
    GroupedNone(sorted);
    var dir: seq<Entry>, body: seq<nat> := [], [];
    var current: Option<nat>, start: nat := None, 0;
    for rowIndex := 0 to |sorted|
      invariant start <= rowIndex && (StrictlySorted(sorted) ==> Grouped(sorted, dir, current, start, rowIndex))
      invariant |body| == rowIndex && forall i :: 0 <= i < rowIndex ==> body[i] == sorted[i].row
    {
      hide DirectoryOf, Grouped, StrictlySorted;
      var key := sorted[rowIndex].key;
      if StrictlySorted(sorted) {
        GroupedNext(sorted, dir, current, start, rowIndex);
      }
      if current != Some(key) {
        dir := Closed(dir, current, start, rowIndex);
        current := Some(key);
        start := rowIndex;
      }
      body := body + [sorted[rowIndex].row];
    }
    if StrictlySorted(sorted) {
      GroupedAll(sorted, dir, current, start);
    }
    return Ok(Sparse(Closed(dir, current, start, |sorted|), body));
  }

  // ------------------------------------------------------------ lookups shared by the three

  /** The slice of a sorted index that answers for a key. */
  ghost predicate Answers(rs: seq<Record>, body: seq<nat>, key: nat, start: nat, end: nat) {
    || (StrictlySorted(rs) && Slice(rs, body, key, start, end))
    || (start == end == 0 && RowsOf(rs, key) == {})
  }

  lemma AnswersLists(rs: seq<Record>, body: seq<nat>, key: nat, start: nat, end: nat)
    requires Answers(rs, body, key, start, end)
    ensures start <= end <= |body|
    ensures Lists(body[start..end], RowsOf(rs, key))
    ensures end - start == |RowsOf(rs, key)|
  {
    if start == end == 0 && RowsOf(rs, key) == {} {
      assert body[start..end] == [];
    } else {
      SliceLists(rs, body, key, start, end);
    }
  }
}

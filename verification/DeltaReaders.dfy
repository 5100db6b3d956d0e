/** Lookups over delta postings. Paging and intersecting skip blocks by the next block's first row. */
module DeltaReaders {
  import opened Wrappers
  import opened RowSets
  import opened Postings
  import opened SortedIndexes
  import opened BitPacking
  import opened DeltaPostings

  // ------------------------------------------------------------------------------ finding a key

  lemma EntryLists(rs: seq<Record>, dir: seq<Entry>, e: nat)
    requires StrictlySorted(rs) && DirectoryOf(rs, dir, |rs|) && e < |dir|
    ensures dir[e].start + dir[e].len <= |rs|
    ensures Lists(RowsBetween(rs, dir[e].start, dir[e].start + dir[e].len), RowsOf(rs, dir[e].key))
  {
    hide *;
    DirectoryEntry(rs, dir, |rs|, e);
    var start, end: nat := dir[e].start, dir[e].start + dir[e].len;
    EntrySlice(rs, dir[e].key, start, end);
    SliceLists(rs, RowsBetween(rs, 0, |rs|), dir[e].key, start, end);
  }

  lemma EntrySlice(rs: seq<Record>, key: nat, start: nat, end: nat)
    requires start <= end <= |rs| && forall i :: 0 <= i < |rs| ==> (rs[i].key == key <==> start <= i < end)
    ensures Slice(rs, RowsBetween(rs, 0, |rs|), key, start, end)
    ensures RowsBetween(rs, 0, |rs|)[start..end] == RowsBetween(rs, start, end)
  {
  }

  lemma AbsentKey(rs: seq<Record>, dir: seq<Entry>, l: nat, key: nat)
    requires DirectoryOf(rs, dir, |rs|)
    requires forall e :: 0 <= e < |dir| ==> (e < l ==> dir[e].key < key) && (e >= l ==> dir[e].key > key)
    ensures RowsOf(rs, key) == {}
  {
    forall i | 0 <= i < |rs| ensures rs[i].key != key {
      DirectoryCovers(rs, dir, |rs|, i);
    }
  }

  lemma GroupKeys(d: Delta, rs: seq<Record>, dir: seq<Entry>)
    requires d.Indexes(rs, dir, |rs|)
    ensures |d.groups| == |dir|
    ensures forall e :: 0 <= e < |dir| ==> d.groups[e].key == dir[e].key
    ensures forall e, f :: 0 <= e < f < |dir| ==> d.groups[e].key < d.groups[f].key
  {
    assert forall e :: 0 <= e < |dir| ==> Stores(d.body, d.groups[e], rs, dir[e]);
  }

  lemma GroupRows(d: Delta, rs: seq<Record>, dir: seq<Entry>, e: nat) returns (rows: seq<nat>)
    requires StrictlySorted(rs) && d.Indexes(rs, dir, |rs|) && e < |d.groups|
    ensures AtRow(d.body, d.groups[e].offset, rows, 0) && |rows| == d.groups[e].count
    ensures Lists(rows, RowsOf(rs, d.groups[e].key)) && Increasing(rows)
  {
    assert Stores(d.body, d.groups[e], rs, dir[e]);
    EntryLists(rs, dir, e);
    rows := RowsBetween(rs, dir[e].start, dir[e].start + dir[e].len);
    assert rows[0..] == rows;
  }

  lemma Directory(d: Delta, rs: seq<Record>) returns (dir: seq<Entry>)
    requires d.Holds(rs)
    ensures StrictlySorted(rs) && d.Indexes(rs, dir, |rs|) && DirectoryOf(rs, dir, |rs|)
    ensures |d.groups| == |dir|
    ensures forall e :: 0 <= e < |dir| ==> d.groups[e].key == dir[e].key
    ensures forall e, f :: 0 <= e < f < |dir| ==> d.groups[e].key < d.groups[f].key
  {
    dir :| d.Indexes(rs, dir, |rs|);
    GroupKeys(d, rs, dir);
  }

  /** The blocks from p on hold the rows from the k-th on. */
  ghost predicate AtRow(body: seq<Byte>, p: nat, rows: seq<nat>, k: nat) {
    k <= |rows| && Chain(body, p, rows[k..])
  }

  /** The chain of a key, with the rows it holds; none when no record has the key. */
  method Find(d: Delta, key: nat, ghost rs: seq<Record>)
    returns (found: Option<(nat, nat)>, ghost rows: seq<nat>)
    requires d.Holds(rs)
    ensures found.None? ==> RowsOf(rs, key) == {}
    ensures found.Some? ==>
              && AtRow(d.body, found.value.0, rows, 0) && |rows| == found.value.1
              && Lists(rows, RowsOf(rs, key)) && Increasing(rows)
  {
    hide *;
    ghost var dir := Directory(d, rs);
    var l, r := 0, |d.groups|;
    while l < r
      invariant 0 <= l <= r <= |d.groups|
      invariant forall i :: 0 <= i < l ==> d.groups[i].key < key
      invariant forall i :: r <= i < |d.groups| ==> key <= d.groups[i].key
    {
      var m := (l + r) / 2;
      if d.groups[m].key < key {
        l := m + 1;
      } else {
        r := m;
      }
    }
    if l < |d.groups| && d.groups[l].key == key {
      rows := GroupRows(d, rs, dir, l);
      return Some((d.groups[l].offset, d.groups[l].count)), rows;
    }
    AbsentKey(rs, dir, l, key);
    return None, [];
  }

  // ---------------------------------------------------------------------------- walking the chain

  /** The block at p holds the n rows from the k-th on. */
  ghost predicate BlockOf(body: seq<Byte>, p: nat, rows: seq<nat>, k: nat, n: nat, width: nat) {
    && 0 < n && k + n <= |rows|
    && BlockAt(body, p, rows[k..k + n]) && width == body[p + 6]
  }

  ghost predicate GapsAt(gaps: seq<nat>, rows: seq<nat>, k: nat) {
    && k + |gaps| < |rows|
    && forall i :: 0 <= i < |gaps| ==> rows[k + i] + gaps[i] == rows[k + i + 1] <= U32_MAX
  }

  /** The header at p, and where the next block starts. A body cut short or a header out of range
      makes the program answer with no rows; a chain has neither. */
  method Header(body: seq<Byte>, p: nat, ghost rows: seq<nat>, ghost k: nat)
    returns (base: nat, n: nat, width: nat, next: nat)
    requires AtRow(body, p, rows, k) && k < |rows|
    ensures 0 < n && k + n <= |rows| && base == rows[k]
    ensures BlockOf(body, p, rows, k, n, width)
    ensures AtRow(body, next, rows, k + n)
  {
    ghost var rest := rows[k..];
    if p + 8 > |body| {
      assert false;
    }
    base := Digits(body[p..p + 4], 8);
    n := Digits(body[p + 4..p + 6], 8);
    width := body[p + 6];
    if n == 0 || n > BLOCK {
      assert false;
    }
    assert rest[..n] == rows[k..k + n] && rest[n..] == rows[k + n..];
    next := p + 8 + PackedBytes(n - 1, width);
    if next > |body| {
      assert false;
    }
  }

  /** The first row of the block after this one. */
  method NextBase(body: seq<Byte>, next: nat, ghost rows: seq<nat>, ghost k: nat) returns (base: nat)
    requires AtRow(body, next, rows, k) && k < |rows|
    ensures base == rows[k]
  {
    if next + 8 > |body| {
      assert false;
    }
    base := Digits(body[next..next + 4], 8);
  }

  /** The gaps of the block at p. */
  method BlockGaps(body: seq<Byte>, p: nat, n: nat, width: nat, ghost rows: seq<nat>, ghost k: nat)
    returns (gaps: seq<nat>)
    requires BlockOf(body, p, rows, k, n, width)
    ensures |gaps| == n - 1 && GapsAt(gaps, rows, k)
  {
    var unpacked, next := Unpack(body, p + 8, n - 1, width);
    if unpacked.None? {
      assert false;
    }
    gaps := unpacked.value;
    UnpackInvertsPack(body[p + 8..next], Gaps(rows[k..k + n]), gaps, width);
  }

  /** Following one gap reaches the next row, and never overflows. */
  lemma NextRow(gaps: seq<nat>, rows: seq<nat>, k: nat, g: nat)
    requires GapsAt(gaps, rows, k) && g < |gaps|
    ensures k + g + 1 < |rows| && rows[k + g] + gaps[g] == rows[k + g + 1] <= U32_MAX
  {
  }

  lemma NothingListed()
    ensures Lists([], {})
  {
  }

  method RowCount(d: Delta, key: nat, ghost rs: seq<Record>) returns (count: nat)
    requires d.Holds(rs)
    ensures count == |RowsOf(rs, key)|
  {
    hide *;
    var found, rows := Find(d, key, rs);
    if found.None? {
      return 0;
    }
    ListsSize(rows, RowsOf(rs, key));
    return found.value.1;
  }

  method Rows(d: Delta, key: nat, ghost rs: seq<Record>) returns (out: seq<nat>)
    requires d.Holds(rs)
    ensures Lists(out, RowsOf(rs, key))
  {
    hide *;
    out := [];
    NothingListed();
    var found, rows := Find(d, key, rs);
    if found.None? {
      return;
    }
    var p: nat, count: nat := found.value.0, found.value.1;
    while |out| < count
      invariant |out| <= count && out == rows[..|out|]
      invariant AtRow(d.body, p, rows, |out|)
      decreases count - |out|
    {
      ghost var k := |out|;
      var base, n, width, next := Header(d.body, p, rows, k);
      var gaps := BlockGaps(d.body, p, n, width, rows, k);
      out := out + [base];
      var row := base;
      for g := 0 to |gaps|
        invariant k + g < |rows| && row == rows[k + g] && out == rows[..k + g + 1]
      {
        NextRow(gaps, rows, k, g);
        row := row + gaps[g];
        out := out + [row];
      }
      p := next;
    }
    assert out == rows;
  }

  // ------------------------------------------------------------------------------ a bounded page

  /** The rows at or above `first` among the leading k. */
  ghost predicate Read(out: seq<nat>, rows: seq<nat>, k: nat, first: nat) {
    k <= |rows| && Lists(out, From(Elements(rows[..k]), first))
  }

  lemma EmptyPage(S: set<nat>, first: nat, limit: nat)
    ensures S == {} || limit == 0 ==> Lists([], Top(From(S, first), limit))
  {
  }

  lemma ReadNothing(rows: seq<nat>, first: nat)
    ensures Read([], rows, 0, first)
  {
  }

  lemma ReadStep(out: seq<nat>, rows: seq<nat>, k: nat, first: nat)
    requires Increasing(rows) && k < |rows| && Read(out, rows, k, first)
    ensures Read(if rows[k] >= first then out + [rows[k]] else out, rows, k + 1, first)
  {
    var row := rows[k];
    assert rows[..k + 1] == rows[..k] + [row];
    if row >= first {
      ListsSnoc(out, From(Elements(rows[..k]), first), row);
      assert From(Elements(rows[..k + 1]), first) == From(Elements(rows[..k]), first) + {row};
    } else {
      assert From(Elements(rows[..k + 1]), first) == From(Elements(rows[..k]), first);
    }
  }

  /** A later row at most `first` puts every row before it out of the page. */
  lemma ReadSkip(out: seq<nat>, rows: seq<nat>, k: nat, m: nat, first: nat)
    requires Increasing(rows) && k <= m < |rows| && rows[m] <= first && Read(out, rows, k, first)
    ensures Read(out, rows, m, first)
  {
    assert From(Elements(rows[..m]), first) == {};
    assert From(Elements(rows[..k]), first) == {};
  }

  /** A full page read from the front, or everything read with room to spare, is the page asked for. */
  lemma ReadDone(out: seq<nat>, rows: seq<nat>, k: nat, first: nat, limit: nat, S: set<nat>)
    requires Lists(rows, S) && Read(out, rows, k, first)
    requires |out| == limit || (k == |rows| && |out| <= limit)
    ensures Lists(out, Top(From(S, first), limit))
  {
    var read, all := From(Elements(rows[..k]), first), From(S, first);
    ListsSize(out, read);
    assert forall x :: x in read ==> x in all;
    if k == |rows| {
      assert rows[..k] == rows;
      assert read == all;
      TopSize(all, limit);
    } else {
      assert read == Below(all, rows[k]) by {
        assert forall x :: x in rows[..k] ==> x in rows && x < rows[k];
        forall x | x in Below(all, rows[k]) ensures x in read {
          var i :| 0 <= i < |rows| && rows[i] == x;
          assert rows[..k][i] == x;
        }
      }
      TopSplit(all, limit, rows[k]);
      assert Top(From(all, rows[k]), 0) == {};
    }
  }

  /** Decodes a block behind its first row, until the page is full. */
  method ScanGaps(base: nat, gaps: seq<nat>, first: nat, limit: nat, given: seq<nat>,
                  ghost rows: seq<nat>, ghost seen: nat)
    returns (out: seq<nat>, ghost read: nat)
    requires Increasing(rows) && GapsAt(gaps, rows, seen) && seen < |rows| && base == rows[seen]
    requires Read(given, rows, seen + 1, first) && |given| < limit
    ensures |out| <= limit && Read(out, rows, read, first)
    ensures |out| < limit ==> read == seen + |gaps| + 1
  {
    hide *;
    out, read := given, seen + 1;
    var row := base;
    for g := 0 to |gaps|
      invariant read == seen + g + 1 && read <= |rows| && row == rows[seen + g]
      invariant |out| < limit && Read(out, rows, read, first)
    {
      NextRow(gaps, rows, seen, g);
      row := row + gaps[g];
      ReadStep(out, rows, read, first);
      read := read + 1;
      if row >= first {
        out := out + [row];
        if |out| == limit {
          return;
        }
      }
    }
  }

  method RowsFrom(d: Delta, key: nat, first: nat, limit: nat, ghost rs: seq<Record>) returns (out: seq<nat>)
    requires d.Holds(rs)
    ensures Lists(out, Top(From(RowsOf(rs, key), first), limit))
  {
    hide *;
    out := [];
    EmptyPage(RowsOf(rs, key), first, limit);
    if limit == 0 {
      return;
    }
    var found, rows := Find(d, key, rs);
    if found.None? {
      return;
    }
    var p: nat, count: nat := found.value.0, found.value.1;
    var seen: nat := 0;
    ghost var S := RowsOf(rs, key);
    ReadNothing(rows, first);
    while seen < count && |out| < limit
      invariant seen <= count && |out| < limit && Read(out, rows, seen, first)
      invariant AtRow(d.body, p, rows, seen)
      decreases count - seen
    {
      var base, n, width, next := Header(d.body, p, rows, seen);
      if seen + n < count {
        var nextBase := NextBase(d.body, next, rows, seen + n);
        if nextBase <= first {
          ReadSkip(out, rows, seen, seen + n, first);
          p, seen := next, seen + n;
          continue;
        }
      }
      var row := base;
      ReadStep(out, rows, seen, first);
      if row >= first {
        out := out + [row];
        if |out| == limit {
          ReadDone(out, rows, seen + 1, first, limit, S);
          return;
        }
      }
      var gaps := BlockGaps(d.body, p, n, width, rows, seen);
      ghost var read;
      out, read := ScanGaps(row, gaps, first, limit, out, rows, seen);
      if |out| == limit {
        ReadDone(out, rows, read, first, limit, S);
        return;
      }
      p, seen := next, seen + n;
    }
    ReadDone(out, rows, seen, first, limit, S);
  }

  // -------------------------------------------------------------------------------- intersection

  /** The seed rows before si are settled, and the leading k rows lie below the rest of the seed. */
  ghost predicate Settled(out: seq<nat>, rows: seq<nat>, k: nat, seed: seq<nat>, si: nat) {
    && k <= |rows| && si <= |seed|
    && Lists(out, Elements(rows) * Elements(seed[..si]))
    && (si < |seed| && k > 0 ==> rows[k - 1] < seed[si])
  }

  lemma EmptySeed(S: set<nat>, seed: seq<nat>)
    ensures S == {} || seed == [] ==> Lists([], S * Elements(seed))
  {
  }

  lemma SettleNothing(rows: seq<nat>, seed: seq<nat>, S: set<nat>)
    requires Lists(rows, S)
    ensures Settled([], rows, 0, seed, 0) && Elements(rows) == S
  {
  }

  /** A seed row below the next row, and above the last one passed, is not in the posting. */
  lemma DropSeed(out: seq<nat>, rows: seq<nat>, k: nat, seed: seq<nat>, si: nat)
    requires Increasing(rows) && Increasing(seed)
    requires Settled(out, rows, k, seed, si) && si < |seed| && (k < |rows| ==> seed[si] < rows[k])
    ensures Settled(out, rows, k, seed, si + 1)
  {
    assert seed[..si + 1] == seed[..si] + [seed[si]];
    assert seed[si] !in rows;
    assert Elements(rows) * Elements(seed[..si + 1]) == Elements(rows) * Elements(seed[..si]);
  }

  lemma TakeSeed(out: seq<nat>, rows: seq<nat>, k: nat, seed: seq<nat>, si: nat)
    requires Increasing(rows) && Increasing(seed)
    requires Settled(out, rows, k, seed, si) && si < |seed| && k < |rows| && seed[si] == rows[k]
    ensures Settled(out + [rows[k]], rows, k + 1, seed, si + 1)
  {
    assert seed[..si + 1] == seed[..si] + [seed[si]];
    ListsSnoc(out, Elements(rows) * Elements(seed[..si]), rows[k]);
    assert Elements(rows) * Elements(seed[..si + 1]) == Elements(rows) * Elements(seed[..si]) + {rows[k]};
  }

  lemma PassRows(out: seq<nat>, rows: seq<nat>, k: nat, m: nat, seed: seq<nat>, si: nat)
    requires Increasing(rows) && Settled(out, rows, k, seed, si) && k <= m <= |rows|
    requires si < |seed| && k < m ==> rows[m - 1] < seed[si] || (m < |rows| && rows[m] <= seed[si])
    ensures Settled(out, rows, m, seed, si)
  {
  }

  lemma {:induction false} DropSeeds(out: seq<nat>, rows: seq<nat>, k: nat, seed: seq<nat>, si: nat)
    requires Increasing(rows) && Increasing(seed) && Settled(out, rows, k, seed, si)
    requires k < |rows| && si < |seed| ==> seed[|seed| - 1] < rows[k]
    ensures Lists(out, Elements(rows) * Elements(seed))
    decreases |seed| - si
  {
    if si < |seed| {
      DropSeed(out, rows, k, seed, si);
      DropSeeds(out, rows, k, seed, si + 1);
    } else {
      assert seed[..si] == seed;
    }
  }

  /** Moves the seed up to a row that has been decoded. */
  method SeekSeed(ghost rows: seq<nat>, ghost k: nat, row: nat, seed: seq<nat>, start: nat, ghost out: seq<nat>)
    returns (si: nat)
    requires Increasing(rows) && Increasing(seed) && k < |rows| && row == rows[k]
    requires Settled(out, rows, k, seed, start)
    ensures Settled(out, rows, k, seed, si) && si <= |seed|
    ensures si < |seed| ==> row <= seed[si]
  {
    si := start;
    while si < |seed| && seed[si] < row
      invariant Settled(out, rows, k, seed, si)
      decreases |seed| - si
    {
      DropSeed(out, rows, k, seed, si);
      si := si + 1;
    }
  }

  method MatchSeed(ghost rows: seq<nat>, ghost k: nat, row: nat, seed: seq<nat>, start: nat, given: seq<nat>)
    returns (out: seq<nat>, si: nat)
    requires Increasing(rows) && Increasing(seed) && k < |rows| && row == rows[k]
    requires Settled(given, rows, k, seed, start) && start < |seed| && row <= seed[start]
    ensures Settled(out, rows, k + 1, seed, si) && si <= |seed|
  {
    out, si := given, start;
    if seed[si] == row {
      TakeSeed(out, rows, k, seed, si);
      out, si := out + [row], si + 1;
    } else {
      PassRows(out, rows, k, k + 1, seed, si);
    }
  }

  method MatchGaps(base: nat, gaps: seq<nat>, seed: seq<nat>, start: nat, given: seq<nat>,
                   ghost rows: seq<nat>, ghost seen: nat)
    returns (out: seq<nat>, si: nat)
    requires Increasing(rows) && Increasing(seed)
    requires GapsAt(gaps, rows, seen) && seen + |gaps| < |rows| && base == rows[seen]
    requires Settled(given, rows, seen + 1, seed, start) && start <= |seed|
    ensures Settled(out, rows, seen + |gaps| + 1, seed, si) && si <= |seed|
  {
    hide *;
    out, si := given, start;
    var row := base;
    for g := 0 to |gaps|
      invariant row == rows[seen + g] && si <= |seed| && Settled(out, rows, seen + g + 1, seed, si)
    {
      NextRow(gaps, rows, seen, g);
      row := row + gaps[g];
      si := SeekSeed(rows, seen + g + 1, row, seed, si, out);
      if si >= |seed| {
        PassRows(out, rows, seen + g + 1, seen + |gaps| + 1, seed, si);
        return;
      }
      out, si := MatchSeed(rows, seen + g + 1, row, seed, si, out);
    }
  }

  method IntersectRows(d: Delta, key: nat, seed: seq<nat>, ghost rs: seq<Record>) returns (out: seq<nat>)
    requires d.Holds(rs) && Increasing(seed)
    ensures Lists(out, RowsOf(rs, key) * Elements(seed))
  {
    hide *;
    out := [];
    EmptySeed(RowsOf(rs, key), seed);
    if seed == [] {
      return;
    }
    var found, rows := Find(d, key, rs);
    if found.None? {
      return;
    }
    var p: nat, count: nat := found.value.0, found.value.1;
    SettleNothing(rows, seed, RowsOf(rs, key));
    var seen: nat, si: nat := 0, 0;
    while seen < count && si < |seed|
      invariant seen <= count && si <= |seed| && Settled(out, rows, seen, seed, si)
      invariant AtRow(d.body, p, rows, seen)
      decreases count - seen
    {
      var base, n, width, next := Header(d.body, p, rows, seen);
      if base > seed[|seed| - 1] {
        break;
      }
      si := SeekSeed(rows, seen, base, seed, si, out);
      if si >= |seed| {
        break;
      }
      if seen + n < count {
        var nextBase := NextBase(d.body, next, rows, seen + n);
        if seed[si] >= nextBase {
          PassRows(out, rows, seen, seen + n, seed, si);
          p, seen := next, seen + n;
          continue;
        }
      }
      out, si := MatchSeed(rows, seen, base, seed, si, out);
      var gaps := BlockGaps(d.body, p, n, width, rows, seen);
      out, si := MatchGaps(base, gaps, seed, si, out, rows, seen);
      p, seen := next, seen + n;
    }
    DropSeeds(out, rows, seen, seed, si);
  }
}

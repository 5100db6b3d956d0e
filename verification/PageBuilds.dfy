/** The engine builder with page routing: batches are cut into page-aligned segments, every page leaves
    one record a key it holds, and the sorted records become a sparse index or a bitmap. The engine it
    leaves meets what the query theorems require of one. */
module PageBuilds {
  import opened Wrappers
  import opened RowSets
  import opened Postings
  import opened MixedRadix
  import opened Tables
  import opened StreamBuilders
  import opened PageIndexes
  import opened Planner
  import ExternalSort
  import ExactIndexes
  import SortedIndexes

  const MAX_AUTO_BITMAP_BYTES: nat := 256 * 1024 * 1024

  // ------------------------------------------------------------------------------ page keys

  ghost predicate AllKeyed(rows: seq<seq<nat>>, columns: seq<nat>, cards: seq<nat>) {
    forall i :: 0 <= i < |rows| ==> Keyed(rows[i], columns, cards) && KeyOf(rows[i], columns, cards) <= U64_MAX
  }

  /** The distinct keys of a page in order. A token out of range or a key past 64 bits is an error. */
  method PageKeys(page: seq<seq<nat>>, columns: seq<nat>, cards: seq<nat>) returns (r: Result<seq<nat>>)
    requires ColumnsOf(columns, cards) && Wide(page, |cards|)
    ensures r.Ok? <==> AllKeyed(page, columns, cards)
    ensures r.Ok? ==> Lists(r.value, Elements(KeysOf(page, columns, cards)))
  {
    var keys: set<nat> := {};
    for row := 0 to |page|
      invariant AllKeyed(page[..row], columns, cards)
      invariant keys == Elements(KeysOf(page[..row], columns, cards))
    {
      assert page[..row + 1] == page[..row] + [page[row]];
      var digits := Digits(page[row], columns);
      var key := Pack(digits, cards);
      if key.None? {
        assert !(Keyed(page[row], columns, cards) && KeyOf(page[row], columns, cards) <= U64_MAX);
        return Err(InvalidData);
      }
      assert KeysOf(page[..row + 1], columns, cards) == KeysOf(page[..row], columns, cards) + [key.value];
      keys := keys + {key.value};
    }
    assert page[..|page|] == page;
    var sorted := Enumerate(keys);
    return Ok(sorted);
  }

  // ------------------------------------------------------------------------- spooling records

  /** The records of the first n rows: one for every key a page holds. */
  ghost predicate Spooled(records: seq<Record>, keys: seq<nat>, pageOf: seq<nat>, n: nat) {
    && n <= |keys| == |pageOf|
    && (forall i :: 0 <= i < |records| ==> FromRow(records[i], keys, pageOf, n))
    && (forall r :: 0 <= r < n ==> Record(keys[r], pageOf[r]) in records)
  }

  ghost predicate FromRow(record: Record, keys: seq<nat>, pageOf: seq<nat>, n: nat)
    requires n <= |keys| == |pageOf|
  {
    exists r :: 0 <= r < n && keys[r] == record.key && pageOf[r] == record.row
  }

  function PageRecordsOf(keys: seq<nat>, page: nat): (records: seq<Record>)
    ensures |records| == |keys| && forall k :: 0 <= k < |keys| ==> records[k] == Record(keys[k], page)
  {
    seq(|keys|, k requires 0 <= k < |keys| => Record(keys[k], page))
  }

  lemma SpoolNext(records: seq<Record>, keys: seq<nat>, pageOf: seq<nat>, n: nat, m: nat, found: seq<nat>, page: nat)
    requires Spooled(records, keys, pageOf, n) && n <= m <= |keys|
    requires forall r :: n <= r < m ==> pageOf[r] == page
    requires forall k :: k in found <==> k in keys[n..m]
    ensures Spooled(records + PageRecordsOf(found, page), keys, pageOf, m)
  {
    var added := PageRecordsOf(found, page);
    forall i | 0 <= i < |records| + |added| ensures FromRow((records + added)[i], keys, pageOf, m) {
      if i < |records| {
        assert FromRow(records[i], keys, pageOf, n);
      } else {
        assert found[i - |records|] in keys[n..m];
      }
    }
    forall r | 0 <= r < m ensures Record(keys[r], pageOf[r]) in records + added {
      if n <= r {
        assert keys[n..m][r - n] == keys[r] && keys[r] in found;
        var k :| 0 <= k < |found| && found[k] == keys[r];
        assert added[k] == Record(keys[r], page);
      }
    }
  }

  /** The whole table is known, cut into contiguous segments. */
  ghost predicate Stored(segments: seq<Segment>, pageRows: nat, pages: nat, cards: seq<nat>) {
    && pageRows > 0 && Contiguous(segments, Concat(segments), pageRows, pages) && Wide(Concat(segments), |cards|)
    && |PageOf(segments, pageRows)| == |Concat(segments)|
  }

  /** The rows of a page are rows of the table, all on that page. */
  lemma PageIsSlice(segments: seq<Segment>, pageRows: nat, pages: nat, cards: seq<nat>, columns: seq<nat>, i: nat, page: nat, start: nat, end: nat)
    requires Stored(segments, pageRows, pages, cards) && i < |segments|
    requires page * pageRows <= start <= end <= |segments[i].rows| && end <= (page + 1) * pageRows
    ensures Wide(segments[i].rows[start..end], |cards|)
    ensures var from := segments[i].rowStart;
            && from + end <= |Concat(segments)|
            && (forall r :: from + start <= r < from + end ==> PageOf(segments, pageRows)[r] == segments[i].firstPage + page)
            && segments[i].rows[start..end] == Concat(segments)[from + start..from + end]
            && KeysOf(segments[i].rows[start..end], columns, cards) == KeysOf(Concat(segments), columns, cards)[from + start..from + end]
  {
    hide *;
    SegmentIsSlice(segments, pageRows, pages, cards, i);
    var table, s := Concat(segments), segments[i];
    assert s.rows[start..end] == table[s.rowStart + start..s.rowStart + end];
    KeysSlice(table, columns, cards, s.rowStart + start, s.rowStart + end);
    WideSlice(table, |cards|, s.rowStart + start, s.rowStart + end);
    forall r | s.rowStart + start <= r < s.rowStart + end
      ensures PageOf(segments, pageRows)[r] == s.firstPage + page
    {
      OnPage(segments, pageRows, pages, cards, i, page, r - s.rowStart);
    }
  }

  lemma SegmentIsSlice(segments: seq<Segment>, pageRows: nat, pages: nat, cards: seq<nat>, i: nat)
    requires Stored(segments, pageRows, pages, cards) && i < |segments|
    ensures var table, s := Concat(segments), segments[i];
            && s.rowStart + |s.rows| <= |table| == |PageOf(segments, pageRows)|
            && s.rows == table[s.rowStart..s.rowStart + |s.rows|] && Wide(table, |cards|)
  {
    SegmentRows(segments, Concat(segments), pageRows, pages, i);
  }

  lemma WideSlice(table: seq<seq<nat>>, width: nat, from: nat, to: nat)
    requires Wide(table, width) && from <= to <= |table|
    ensures Wide(table[from..to], width)
  {
  }

  lemma OnPage(segments: seq<Segment>, pageRows: nat, pages: nat, cards: seq<nat>, i: nat, page: nat, local: nat)
    requires Stored(segments, pageRows, pages, cards) && i < |segments|
    requires page * pageRows <= local < (page + 1) * pageRows && local < |segments[i].rows|
    ensures segments[i].rowStart + local < |Concat(segments)|
    ensures PageOf(segments, pageRows)[segments[i].rowStart + local] == segments[i].firstPage + page
  {
    PageOfRow(segments, Concat(segments), pageRows, pages, i, local);
    PageBetween(local, pageRows, page, page + 1);
  }

  lemma KeysSlice(table: seq<seq<nat>>, columns: seq<nat>, cards: seq<nat>, from: nat, to: nat)
    requires from <= to <= |table|
    ensures KeysOf(table[from..to], columns, cards) == KeysOf(table, columns, cards)[from..to]
  {
  }

  /** The records of one segment's pages, after those of the rows before it. */
  method SpoolSegment(segments: seq<Segment>, pageRows: nat, columns: seq<nat>, cards: seq<nat>, i: nat, given: seq<Record>, ghost pages: nat)
    returns (r: Result<seq<Record>>)
    requires Stored(segments, pageRows, pages, cards) && ColumnsOf(columns, cards) && i < |segments|
    requires Spooled(given, KeysOf(Concat(segments), columns, cards), PageOf(segments, pageRows), segments[i].rowStart)
    ensures r.Ok? <==> AllKeyed(segments[i].rows, columns, cards)
    ensures r.Ok? ==> Spooled(r.value, KeysOf(Concat(segments), columns, cards), PageOf(segments, pageRows),
                        segments[i].rowStart + |segments[i].rows|)
  {
    hide *;
    StoredParts(segments, pageRows, pages, cards);
    var s := segments[i];
    var records: seq<Record> := given;
    var start: nat, page: nat := 0, 0;
    KeyedPrefix(s.rows, columns, cards, 0, 0);
    while start < |s.rows|
      invariant start == Min(page * pageRows, |s.rows|) <= |s.rows|
      invariant AllKeyed(s.rows[..start], columns, cards)
      invariant Spooled(records, KeysOf(Concat(segments), columns, cards), PageOf(segments, pageRows), s.rowStart + start)
      decreases |s.rows| - start
    {
      PageSteps(page, pageRows, |s.rows|, start);
      var end := Min(start + pageRows, |s.rows|);
      PageIsSlice(segments, pageRows, pages, cards, columns, i, page, start, end);
      var keys := PageKeys(s.rows[start..end], columns, cards);
      KeyedPrefix(s.rows, columns, cards, start, end);
      if keys.Err? {
        return Err(keys.error);
      }
      SameKeys(keys.value, s.rows[start..end], columns, cards);
      SpoolNext(records, KeysOf(Concat(segments), columns, cards), PageOf(segments, pageRows),
        s.rowStart + start, s.rowStart + end, keys.value, s.firstPage + page);
      records := records + PageRecordsOf(keys.value, s.firstPage + page);
      start, page := end, page + 1;
    }
    AtEnd(start, page * pageRows, |s.rows|);
    assert s.rows[..start] == s.rows;
    return Ok(records);
  }

  lemma StoredParts(segments: seq<Segment>, pageRows: nat, pages: nat, cards: seq<nat>)
    requires Stored(segments, pageRows, pages, cards)
    ensures pageRows > 0 && |PageOf(segments, pageRows)| == |Concat(segments)|
    ensures forall n: nat :: Min(0 * pageRows, n) == 0
  {
  }

  lemma AtEnd(start: nat, edge: nat, rows: nat)
    ensures start == Min(edge, rows) && start >= rows ==> start == rows
  {
  }

  lemma PageSteps(page: nat, pageRows: nat, rows: nat, start: nat)
    requires start == Min(page * pageRows, rows) < rows && pageRows > 0
    ensures start == page * pageRows && start < Min(start + pageRows, rows) <= rows
    ensures Min(start + pageRows, rows) == Min((page + 1) * pageRows, rows) <= (page + 1) * pageRows
  {
    assert (page + 1) * pageRows == page * pageRows + pageRows;
  }

  lemma KeyedPrefix(rows: seq<seq<nat>>, columns: seq<nat>, cards: seq<nat>, a: nat, b: nat)
    requires a <= b <= |rows|
    ensures AllKeyed(rows[..0], columns, cards)
    ensures AllKeyed(rows[..b], columns, cards) <==> AllKeyed(rows[..a], columns, cards) && AllKeyed(rows[a..b], columns, cards)
    ensures AllKeyed(rows, columns, cards) ==> AllKeyed(rows[..b], columns, cards)
  {
    hide Keyed, KeyOf;
    if AllKeyed(rows[..b], columns, cards) {
      forall i | 0 <= i < b - a ensures Keyed(rows[a..b][i], columns, cards) && KeyOf(rows[a..b][i], columns, cards) <= U64_MAX {
        assert rows[a..b][i] == rows[..b][a + i];
      }
      forall i | 0 <= i < a ensures Keyed(rows[..a][i], columns, cards) && KeyOf(rows[..a][i], columns, cards) <= U64_MAX {
        assert rows[..a][i] == rows[..b][i];
      }
    }
    if AllKeyed(rows[..a], columns, cards) && AllKeyed(rows[a..b], columns, cards) {
      forall i | 0 <= i < b ensures Keyed(rows[..b][i], columns, cards) && KeyOf(rows[..b][i], columns, cards) <= U64_MAX {
        assert rows[..b][i] == if i < a then rows[..a][i] else rows[a..b][i - a];
      }
    }
  }

  lemma SameKeys(found: seq<nat>, rows: seq<seq<nat>>, columns: seq<nat>, cards: seq<nat>)
    requires Lists(found, Elements(KeysOf(rows, columns, cards)))
    ensures forall k :: k in found <==> k in KeysOf(rows, columns, cards)
  {
  }

  // -------------------------------------------------------------------------------- the index

  /** The records of every page under one specification. */
  method Spool(segments: seq<Segment>, pageRows: nat, columns: seq<nat>, cards: seq<nat>, ghost pages: nat) returns (r: Result<seq<Record>>)
    requires Stored(segments, pageRows, pages, cards) && ColumnsOf(columns, cards)
    ensures r.Ok? <==> AllKeyed(Concat(segments), columns, cards)
    ensures r.Ok? ==> |PageOf(segments, pageRows)| == |Concat(segments)|
    ensures r.Ok? ==> PageRecords(r.value, KeysOf(Concat(segments), columns, cards), PageOf(segments, pageRows))
  {
    hide *;
    StoredParts(segments, pageRows, pages, cards);
    var records: seq<Record> := [];
    ghost var table := Concat(segments);
    NothingSpooled(segments, pageRows, pages, cards, columns);
    for i := 0 to |segments|
      invariant Boundary(segments, i) <= |table| && AllKeyed(table[..Boundary(segments, i)], columns, cards)
      invariant Spooled(records, KeysOf(table, columns, cards), PageOf(segments, pageRows), Boundary(segments, i))
    {
      SegmentIsNext(segments, pageRows, pages, cards, i);
      KeyedPrefix(table, columns, cards, Boundary(segments, i), Boundary(segments, i + 1));
      var spooled := SpoolSegment(segments, pageRows, columns, cards, i, records, pages);
      if spooled.Err? {
        return Err(spooled.error);
      }
      records := spooled.value;
    }
    LastSegment(segments, pageRows, pages, cards);
    assert table[..|table|] == table;
    AllSpooled(records, KeysOf(table, columns, cards), PageOf(segments, pageRows));
    return Ok(records);
  }

  lemma NothingSpooled(segments: seq<Segment>, pageRows: nat, pages: nat, cards: seq<nat>, columns: seq<nat>)
    requires Stored(segments, pageRows, pages, cards)
    ensures Boundary(segments, 0) == 0 && AllKeyed(Concat(segments)[..0], columns, cards)
    ensures Spooled([], KeysOf(Concat(segments), columns, cards), PageOf(segments, pageRows), 0)
  {
  }

  lemma SegmentIsNext(segments: seq<Segment>, pageRows: nat, pages: nat, cards: seq<nat>, i: nat)
    requires Stored(segments, pageRows, pages, cards) && i < |segments|
    ensures Boundary(segments, i) == segments[i].rowStart && Boundary(segments, i + 1) == segments[i].rowStart + |segments[i].rows|
    ensures segments[i].rowStart + |segments[i].rows| <= |Concat(segments)|
    ensures segments[i].rows == Concat(segments)[segments[i].rowStart..segments[i].rowStart + |segments[i].rows|]
  {
    SegmentRows(segments, Concat(segments), pageRows, pages, i);
  }

  lemma LastSegment(segments: seq<Segment>, pageRows: nat, pages: nat, cards: seq<nat>)
    requires Stored(segments, pageRows, pages, cards)
    ensures Boundary(segments, |segments|) == |Concat(segments)|
  {
  }

  lemma AllSpooled(records: seq<Record>, keys: seq<nat>, pageOf: seq<nat>)
    requires Spooled(records, keys, pageOf, |keys|)
    ensures |keys| == |pageOf| && PageRecords(records, keys, pageOf)
  {
    forall i | 0 <= i < |records| ensures records[i].row in PagesWith(keys, pageOf, records[i].key) {
      assert FromRow(records[i], keys, pageOf, |keys|);
    }
  }

  /** What a routing index can be built over: the keyspace fits 64 bits, and so every key does. */
  ghost predicate Routable(table: seq<seq<nat>>, columns: seq<nat>, cards: seq<nat>) {
    && ColumnsOf(columns, cards) && Space(columns, cards) <= U64_MAX
    && TableKeyed(table, columns, cards)
  }

  lemma RoutableKeys(table: seq<seq<nat>>, columns: seq<nat>, cards: seq<nat>)
    requires ColumnsOf(columns, cards) && Space(columns, cards) <= U64_MAX
    ensures Routable(table, columns, cards) <==> AllKeyed(table, columns, cards)
    ensures Routable(table, columns, cards) ==> forall r :: 0 <= r < |table| ==> KeysOf(table, columns, cards)[r] < Space(columns, cards)
  {
    forall r | 0 <= r < |table| && Keyed(table[r], columns, cards)
      ensures KeyOf(table[r], columns, cards) < Space(columns, cards)
    {
      KeyBelowSpace(table[r], columns, cards);
    }
  }

  function SaturatingBytes(entries: nat): nat { Min(entries * 12, U64_MAX) }

  /** One routing index: records sorted outside memory, kept as they are or turned into a bitmap when
      that is smaller. */
  method BuildPageIndex(segments: seq<Segment>, pageRows: nat, pages: nat, columns: seq<nat>, cards: seq<nat>, maxSortRecords: nat)
    returns (r: Result<PageIndex>)
    requires Stored(segments, pageRows, pages, cards) && ColumnsOf(columns, cards) && maxSortRecords > 0
    requires forall c :: 0 <= c < |cards| ==> cards[c] > 0
    ensures r.Ok? <==> Routable(Concat(segments), columns, cards)
    ensures r.Ok? ==> |PageOf(segments, pageRows)| == |Concat(segments)|
    ensures r.Ok? ==> r.value.Holds(KeysOf(Concat(segments), columns, cards), PageOf(segments, pageRows))
  {
    hide *;
    StoredParts(segments, pageRows, pages, cards);
    var space := ExactIndexes.Keyspace(columns, cards);
    var spooled := Spool(segments, pageRows, columns, cards, pages);
    RoutableParts(Concat(segments), columns, cards);
    if spooled.Err? {
      if space.Ok? {
        RoutableKeys(Concat(segments), columns, cards);
      }
      return Err(spooled.error);
    }
    var sorted, entries := ExternalSort.Sort(spooled.value, maxSortRecords);
    if space.Err? {
      return Err(space.error);
    }
    RoutableKeys(Concat(segments), columns, cards);
    SortedRecords(sorted.value, spooled.value, KeysOf(Concat(segments), columns, cards), PageOf(segments, pageRows));
    RecordsInBounds(sorted.value, segments, pageRows, pages, cards, columns);
    var sparseBytes := SaturatingBytes(entries);
    var bytes := BitmapBytes(space.value, pages);
    var bitmapBytes := if bytes.Some? then bytes.value else U64_MAX;
    if bitmapBytes < sparseBytes && bitmapBytes <= MAX_AUTO_BITMAP_BYTES {
      BitmapSmall(entries, bytes);
      var bitmap := BuildBitmap(sorted.value, space.value, pages);
      BitmapHolds(bitmap.value, sorted.value, KeysOf(Concat(segments), columns, cards), PageOf(segments, pageRows));
      BitsHold(bitmap.value, KeysOf(Concat(segments), columns, cards), PageOf(segments, pageRows));
      return Ok(Bits(bitmap.value));
    }
    var sparse := SparseOf(sorted.value);
    SparseHolds(sparse, sorted.value, KeysOf(Concat(segments), columns, cards), PageOf(segments, pageRows));
    return Ok(Sparse(sparse));
  }

  lemma RoutableParts(table: seq<seq<nat>>, columns: seq<nat>, cards: seq<nat>)
    ensures Routable(table, columns, cards) ==> ColumnsOf(columns, cards) && Space(columns, cards) <= U64_MAX
  {
  }

  lemma SortedRecords(sorted: seq<Record>, spooled: seq<Record>, keys: seq<nat>, pageOf: seq<nat>)
    requires |keys| == |pageOf| && PageRecords(spooled, keys, pageOf) && forall x :: x in sorted <==> x in spooled
    ensures PageRecords(sorted, keys, pageOf)
  {
    forall i | 0 <= i < |sorted| ensures sorted[i].row in PagesWith(keys, pageOf, sorted[i].key) {
      assert sorted[i] in spooled;
    }
  }

  lemma RecordsInBounds(records: seq<Record>, segments: seq<Segment>, pageRows: nat, pages: nat, cards: seq<nat>, columns: seq<nat>)
    requires Stored(segments, pageRows, pages, cards) && ColumnsOf(columns, cards)
    requires PageRecords(records, KeysOf(Concat(segments), columns, cards), PageOf(segments, pageRows))
    requires forall r :: 0 <= r < |Concat(segments)| ==> KeysOf(Concat(segments), columns, cards)[r] < Space(columns, cards)
    ensures forall i :: 0 <= i < |records| ==> records[i].key < Space(columns, cards) && records[i].row < pages
  {
    forall r | 0 <= r < |Concat(segments)| ensures PageOf(segments, pageRows)[r] < pages {
      PageOfBound(segments, Concat(segments), pageRows, pages, r);
    }
    forall i | 0 <= i < |records| ensures records[i].key < Space(columns, cards) && records[i].row < pages {
      assert records[i].row in PagesWith(KeysOf(Concat(segments), columns, cards), PageOf(segments, pageRows), records[i].key);
    }
  }

  lemma BitmapSmall(entries: nat, bytes: Option<nat>)
    ensures (if bytes.Some? then bytes.value else U64_MAX) < SaturatingBytes(entries) ==> bytes.Some?
  {
  }

  lemma BitsHold(bitmap: Bitmap, keys: seq<nat>, pageOf: seq<nat>)
    requires |keys| == |pageOf| && bitmap.Holds(keys, pageOf)
    ensures Bits(bitmap).Holds(keys, pageOf)
  {
  }

  function SparseOf(records: seq<Record>): SortedIndexes.Flat {
    SortedIndexes.Flat(seq(|records|, i requires 0 <= i < |records| => records[i].key),
                       seq(|records|, i requires 0 <= i < |records| => records[i].row))
  }

  lemma SparseHolds(x: SortedIndexes.Flat, records: seq<Record>, keys: seq<nat>, pageOf: seq<nat>)
    requires |keys| == |pageOf| && PageRecords(records, keys, pageOf) && StrictlySorted(records) && x == SparseOf(records)
    ensures Sparse(x).Holds(keys, pageOf)
  {
    assert x.Holds(records);
  }

  // ------------------------------------------------------------------------------- the engine

  datatype BuildConfig = BuildConfig(pageRows: nat, cards: seq<nat>, maxCardinality: nat, hierarchies: seq<seq<nat>>, maxSortRecords: nat)

  predicate ValidConfig(cfg: BuildConfig) {
    && cfg.cards != [] && cfg.pageRows > 0 && cfg.maxSortRecords > 0
    && (forall c :: 0 <= c < |cfg.cards| ==> 0 < cfg.cards[c] <= cfg.maxCardinality)
    && (forall h :: 0 <= h < |cfg.hierarchies| ==> ValidSpec(cfg.hierarchies[h], |cfg.cards|))
  }

  predicate ValidSpec(columns: seq<nat>, width: nat) {
    columns != [] && forall i :: 0 <= i < |columns| ==> columns[i] < width
  }

  ghost function Flatten(batches: seq<seq<seq<nat>>>): seq<seq<nat>> {
    if batches == [] then [] else Flatten(batches[..|batches| - 1]) + batches[|batches| - 1]
  }

  /** Cuts the batches into segments; whatever the batches, the segments are the rows. */
  method CutSegments(batches: seq<seq<seq<nat>>>, pageRows: nat) returns (r: Result<(seq<Segment>, nat)>)
    requires pageRows > 0
    ensures r.Ok? <==> PagesIn(|Flatten(batches)|, pageRows) <= U32_MAX
    ensures r.Ok? ==>
              && Concat(r.value.0) == Flatten(batches)
              && Contiguous(r.value.0, Concat(r.value.0), pageRows, r.value.1)
              && AlignedButLast(r.value.0, pageRows)
  {
    hide *;
    var builder := new StreamBuilder(pageRows);
    BuilderStarts(builder, pageRows);
    for i := 0 to |batches|
      invariant fresh(builder) && builder.Ready() && builder.pageRows == pageRows
      invariant builder.Written() == Flatten(batches[..i])
    {
      FlattenNext(batches, i, pageRows);
      var pushed := builder.PushBatch(batches[i]);
      if pushed.Err? {
        return Err(pushed.error);
      }
    }
    assert batches[..|batches|] == batches;
    BuilderEnds(builder);
    ghost var before := builder.segments;
    var rest := builder.carry;
    var emitted := builder.EmitSegment(rest, true);
    if emitted.Err? {
      return Err(emitted.error);
    }
    CutAligned(before, builder.segments, pageRows, rest);
    BuilderCut(builder);
    return Ok((builder.segments, builder.pageId));
  }

  lemma BuilderStarts(b: StreamBuilder, pageRows: nat)
    requires b.Valid() && b.carry == [] && b.segments == []
    ensures b.Ready() && b.Written() == Flatten([])
  {
  }

  lemma FlattenNext(batches: seq<seq<seq<nat>>>, i: nat, pageRows: nat)
    requires i < |batches| && pageRows > 0
    ensures Flatten(batches[..i + 1]) == Flatten(batches[..i]) + batches[i]
    ensures FullPages(|Flatten(batches[..i + 1])|, pageRows) <= PagesIn(|Flatten(batches)|, pageRows)
  {
    assert batches[..i + 1][..i] == batches[..i];
    FlattenGrows(batches, i + 1);
    QuotientBelow(|Flatten(batches[..i + 1])|, |Flatten(batches)| + pageRows - 1, pageRows);
  }

  lemma {:induction false} FlattenGrows(batches: seq<seq<seq<nat>>>, i: nat)
    requires i <= |batches|
    ensures |Flatten(batches[..i])| <= |Flatten(batches)|
  {
    if i < |batches| {
      FlattenGrows(batches[..|batches| - 1], i);
      assert batches[..|batches| - 1][..i] == batches[..i];
    } else {
      assert batches[..i] == batches;
    }
  }

  /** The carry is the last partial page. */
  lemma BuilderEnds(b: StreamBuilder)
    requires b.Ready()
    ensures b.Valid() && Aligned(b.segments, b.pageRows) && b.Written() == Concat(b.segments) + b.carry
    ensures PagesIn(|b.Written()|, b.pageRows) == b.pageId + if b.carry == [] then 0 else PagesIn(|b.carry|, b.pageRows)
    ensures b.pageId <= U32_MAX
  {
    PagesCut(b.segments, Concat(b.segments), b.pageRows, b.pageId, b.carry);
    PagesOfRest(|Concat(b.segments)|, |b.carry|, b.pageRows, b.pageId);
  }

  lemma CutAligned(before: seq<Segment>, after: seq<Segment>, pageRows: nat, rest: seq<seq<nat>>)
    requires pageRows > 0 && Aligned(before, pageRows)
    requires after == before || (rest != [] && |after| == |before| + 1 && after[..|before|] == before && after[|before|].rows == rest)
    ensures AlignedButLast(after, pageRows)
  {
    forall i | 0 <= i < |after|
      ensures |after[i].rows| > 0 && (i < |after| - 1 ==> |after[i].rows| % pageRows == 0)
    {
      assert i < |before| ==> after[i] == before[i];
    }
  }

  lemma BuilderCut(b: StreamBuilder)
    requires b.Valid()
    ensures Contiguous(b.segments, Concat(b.segments), b.pageRows, b.pageId)
  {
  }

  /** The engine over the batches' rows, with a routing index a specification. */
  method BuildEngine(batches: seq<seq<seq<nat>>>, cfg: BuildConfig) returns (r: Result<Engine>)
    requires Wide(Flatten(batches), |cfg.cards|)
    ensures r.Ok? <==>
            && ValidConfig(cfg) && PagesIn(|Flatten(batches)|, cfg.pageRows) <= U32_MAX
            && forall h :: 0 <= h < |cfg.hierarchies| ==> Routable(Flatten(batches), cfg.hierarchies[h], cfg.cards)
    ensures r.Ok? ==> r.value.Table() == Flatten(batches) && |r.value.pageHier| == |cfg.hierarchies|
    ensures r.Ok? ==> r.value.Valid()
  {
    hide *;
    ConfigMeans(cfg);
    if !ValidConfig(cfg) {
      return Err(InvalidInput);
    }
    var cut := CutSegments(batches, cfg.pageRows);
    if cut.Err? {
      return Err(cut.error);
    }
    var segments, pages := cut.value.0, cut.value.1;
    SegmentsStored(segments, cfg.pageRows, pages, cfg.cards);
    ghost var table := Concat(segments);
    var out: seq<PageHierarchy> := [];
    NothingRouted(table, segments, cfg);
    for h := 0 to |cfg.hierarchies|
      invariant RoutesHold(out, table, segments, cfg, h)
      invariant forall k :: 0 <= k < h ==> Routable(table, cfg.hierarchies[k], cfg.cards)
    {
      SpecMeans(cfg, h);
      var built := BuildPageIndex(segments, cfg.pageRows, pages, cfg.hierarchies[h], cfg.cards, cfg.maxSortRecords);
      if built.Err? {
        return Err(built.error);
      }
      MoreRouted(out, table, segments, cfg, h, built.value);
      out := out + [PageHierarchy(cfg.hierarchies[h], built.value)];
    }
    var rows := SegmentsRows(segments);
    var e := Engine(rows, cfg.pageRows, pages, cfg.cards, out, [], segments);
    EngineBuilt(e, cfg, table);
    return Ok(e);
  }

  lemma ConfigMeans(cfg: BuildConfig)
    ensures ValidConfig(cfg) <==>
            && |cfg.cards| > 0 && cfg.pageRows > 0 && cfg.maxSortRecords > 0
            && (forall c :: 0 <= c < |cfg.cards| ==> cfg.cards[c] > 0 && cfg.cards[c] <= cfg.maxCardinality)
            && (forall h :: 0 <= h < |cfg.hierarchies| ==> cfg.hierarchies[h] != [])
            && forall h, i :: 0 <= h < |cfg.hierarchies| && 0 <= i < |cfg.hierarchies[h]| ==> cfg.hierarchies[h][i] < |cfg.cards|
  {
  }

  lemma SpecMeans(cfg: BuildConfig, h: nat)
    requires ValidConfig(cfg) && h < |cfg.hierarchies|
    ensures cfg.hierarchies[h] != [] && ColumnsOf(cfg.hierarchies[h], cfg.cards)
  {
    assert ValidSpec(cfg.hierarchies[h], |cfg.cards|);
  }

  lemma SegmentsStored(segments: seq<Segment>, pageRows: nat, pages: nat, cards: seq<nat>)
    requires pageRows > 0 && Contiguous(segments, Concat(segments), pageRows, pages) && Wide(Concat(segments), |cards|)
    ensures Stored(segments, pageRows, pages, cards)
  {
    PageOfLength(segments, Concat(segments), pageRows, pages);
  }

  /** The first n routing indexes answer for the rows. */
  ghost predicate RoutesHold(out: seq<PageHierarchy>, table: seq<seq<nat>>, segments: seq<Segment>, cfg: BuildConfig, n: nat) {
    && |out| == n <= |cfg.hierarchies| && cfg.pageRows > 0 && |PageOf(segments, cfg.pageRows)| == |table|
    && forall h :: 0 <= h < n ==>
         && out[h].columns == cfg.hierarchies[h] && Routable(table, cfg.hierarchies[h], cfg.cards)
         && out[h].data.Holds(KeysOf(table, cfg.hierarchies[h], cfg.cards), PageOf(segments, cfg.pageRows))
  }

  lemma NothingRouted(table: seq<seq<nat>>, segments: seq<Segment>, cfg: BuildConfig)
    requires cfg.pageRows > 0 && exists pages :: Stored(segments, cfg.pageRows, pages, cfg.cards) && table == Concat(segments)
    ensures RoutesHold([], table, segments, cfg, 0)
  {
  }

  lemma MoreRouted(out: seq<PageHierarchy>, table: seq<seq<nat>>, segments: seq<Segment>, cfg: BuildConfig, h: nat, data: PageIndex)
    requires RoutesHold(out, table, segments, cfg, h) && h < |cfg.hierarchies|
    requires |PageOf(segments, cfg.pageRows)| == |table|
    requires Routable(table, cfg.hierarchies[h], cfg.cards)
    requires data.Holds(KeysOf(table, cfg.hierarchies[h], cfg.cards), PageOf(segments, cfg.pageRows))
    ensures RoutesHold(out + [PageHierarchy(cfg.hierarchies[h], data)], table, segments, cfg, h + 1)
  {
    hide PageIndex.Holds, Routable, KeysOf, PageOf;
  }

  method SegmentsRows(segments: seq<Segment>) returns (rows: nat)
    ensures rows == |Concat(segments)|
  {
    rows := 0;
    for i := 0 to |segments|
      invariant rows == |Concat(segments[..i])|
    {
      assert segments[..i + 1][..i] == segments[..i];
      rows := rows + |segments[i].rows|;
    }
    assert segments[..|segments|] == segments;
  }

  /** The built engine is a valid one, whatever the tokens of the columns it does not route by. */
  lemma EngineBuilt(e: Engine, cfg: BuildConfig, table: seq<seq<nat>>)
    requires ValidConfig(cfg) && table == Concat(e.segments) && e.rows == |table| && Wide(table, |cfg.cards|)
    requires e.pageRows == cfg.pageRows && e.cards == cfg.cards && e.rowHier == []
    requires Stored(e.segments, e.pageRows, e.pages, e.cards) && RoutesHold(e.pageHier, table, e.segments, cfg, |cfg.hierarchies|)
    ensures e.Table() == table && |e.pageHier| == |cfg.hierarchies| && e.Valid()
  {
    assert e.ValidTable();
    hide PageIndex.Holds, Contiguous;
    forall h | 0 <= h < |e.pageHier| ensures e.ValidPageHier(e.pageHier[h]) {
      SpecMeans(cfg, h);
    }
  }
}

/** Delta postings: the rows of a key as a chain of blocks, each an absolute first row and bit-packed
    gaps. Lookups walk the chain and skip whole blocks on the first row of the next one. */
module DeltaPostings {
  import opened Wrappers
  import opened Postings
  import opened SortedIndexes
  import opened BitPacking

  const BLOCK: nat := 128

  datatype Group = Group(key: nat, offset: nat, count: nat)

  // ------------------------------------------------------------------------------ block layout

  ghost predicate Ascends(rows: seq<nat>) {
    && (forall i :: 0 <= i < |rows| ==> rows[i] <= U32_MAX)
    && (forall i :: 0 <= i < |rows| - 1 ==> rows[i] <= rows[i + 1])
  }

  function Gaps(rows: seq<nat>): (gaps: seq<nat>)
    requires Ascends(rows) && rows != []
    ensures |gaps| == |rows| - 1
  {
    seq(|rows| - 1, i requires 0 <= i < |rows| - 1 && Ascends(rows) => rows[i + 1] - rows[i])
  }

  function BlockBytes(n: nat, width: nat): nat
    requires n > 0
  {
    8 + PackedBytes(n - 1, width)
  }

  /** The block at position p: first row, row count, gap width, packed gaps. */
  ghost predicate BlockAt(body: seq<Byte>, p: nat, rows: seq<nat>) {
    && Ascends(rows) && 0 < |rows| <= BLOCK
    && p + 8 <= |body|
    && Digits(body[p..p + 4], 8) == rows[0]
    && Digits(body[p + 4..p + 6], 8) == |rows|
    && body[p + 6] <= 32
    && p + BlockBytes(|rows|, body[p + 6]) <= |body|
    && Encodes(body[p + 8..p + BlockBytes(|rows|, body[p + 6])], Gaps(rows), body[p + 6])
  }

  /** The blocks from position p hold the rows, 128 to a block. */
  ghost predicate Chain(body: seq<Byte>, p: nat, rows: seq<nat>)
    decreases |rows|
  {
    && p <= |body|
    && (rows != [] ==>
          var n := Min(BLOCK, |rows|);
          BlockAt(body, p, rows[..n]) && Chain(body, p + BlockBytes(n, body[p + 6]), rows[n..]))
  }

  lemma BlockMoved(pre: seq<Byte>, body: seq<Byte>, post: seq<Byte>, p: nat, rows: seq<nat>)
    requires BlockAt(body, p, rows)
    ensures BlockAt(pre + body + post, |pre| + p, rows)
    ensures (pre + body + post)[|pre| + p + 6] == body[p + 6]
  {
    var all, q := pre + body + post, |pre| + p;
    assert all[q + 6] == body[p + 6];
    var end := BlockBytes(|rows|, body[p + 6]);
    assert all[q..q + 4] == body[p..p + 4];
    assert all[q + 4..q + 6] == body[p + 4..p + 6];
    assert all[q + 8..q + end] == body[p + 8..p + end];
  }

  lemma {:induction false} ChainMoved(pre: seq<Byte>, body: seq<Byte>, post: seq<Byte>, p: nat, rows: seq<nat>)
    requires Chain(body, p, rows)
    ensures Chain(pre + body + post, |pre| + p, rows)
    decreases |rows|
  {
    if rows != [] {
      var n := Min(BLOCK, |rows|);
      BlockMoved(pre, body, post, p, rows[..n]);
      ChainMoved(pre, body, post, p + BlockBytes(n, body[p + 6]), rows[n..]);
    }
  }

  // ---------------------------------------------------------------------------------- building

  function Bits(x: nat): nat {
    if x == 0 then 0 else 1 + Bits(x / 2)
  }

  lemma {:induction false} BitsHold(x: nat)
    ensures x < Pow2(Bits(x))
  {
    if x > 0 {
      BitsHold(x / 2);
    }
  }

  lemma {:induction false} BitsLeast(x: nat, width: nat)
    requires x < Pow2(width)
    ensures Bits(x) <= width
  {
    if x > 0 && width > 0 {
      BitsLeast(x / 2, width - 1);
    }
  }

  lemma Pow2Word()
    ensures Pow2(32) == U32_MAX + 1
    ensures Pow2(16) == 0x1_0000
  {
    Pow2Byte();
    Pow2Add(8, 8);
    Pow2Add(16, 16);
  }

  /** The width of the widest gap. */
  method GapWidth(gaps: seq<nat>) returns (width: nat)
    requires forall i :: 0 <= i < |gaps| ==> gaps[i] <= U32_MAX
    ensures width <= 32 && Fits(gaps, width)
  {
    width := 0;
    Pow2Word();
    NoneFits(gaps);
    for i := 0 to |gaps|
      invariant width <= 32 && Fits(gaps[..i], width)
    {
      hide *;
      BitsHold(gaps[i]);
      BitsLeast(gaps[i], 32);
      var wider := if Bits(gaps[i]) > width then Bits(gaps[i]) else width;
      FitsWider(gaps, i, width, wider);
      width := wider;
    }
    assert gaps[..|gaps|] == gaps;
  }

  lemma NoneFits(gaps: seq<nat>)
    ensures Fits(gaps[..0], 0)
  {
  }

  lemma FitsWider(gaps: seq<nat>, i: nat, width: nat, wider: nat)
    requires i < |gaps| && Fits(gaps[..i], width) && width <= wider && Bits(gaps[i]) <= wider
    ensures Fits(gaps[..i + 1], wider)
  {
    Pow2Monotone(width, wider);
    BitsHold(gaps[i]);
    Pow2Monotone(Bits(gaps[i]), wider);
    hide Pow2, Bits;
    assert gaps[..i + 1] == gaps[..i] + [gaps[i]];
  }

  method WriteBlock(rows: seq<nat>) returns (out: seq<Byte>)
    requires Ascends(rows) && 0 < |rows| <= BLOCK
    ensures BlockAt(out, 0, rows)
    ensures |out| == BlockBytes(|rows|, out[6])
  {
    var gaps := Gaps(rows);
    var width := GapWidth(gaps);
    var packed := Pack(gaps, width);
    out := LeBytes(rows[0], 4) + LeBytes(|rows|, 2) + [width, 0] + packed;
    BlockWritten(rows, width, packed);
  }

  lemma ConcatParts<T>(a: seq<T>, b: seq<T>, c: seq<T>, d: seq<T>)
    ensures var s := a + b + c + d;
            && s[0..|a|] == a && s[|a|..|a| + |b|] == b
            && (forall i :: 0 <= i < |c| ==> s[|a| + |b| + i] == c[i])
            && s[|a| + |b| + |c|..] == d
  {
  }

  lemma HeaderFields(rows: seq<nat>)
    requires Ascends(rows) && 0 < |rows| <= BLOCK
    ensures Digits(LeBytes(rows[0], 4), 8) == rows[0]
    ensures Digits(LeBytes(|rows|, 2), 8) == |rows|
  {
    Pow2Word();
    hide Pow2;
    LeRoundTrip(rows[0], 4);
    LeRoundTrip(|rows|, 2);
  }

  lemma BlockWritten(rows: seq<nat>, width: nat, packed: seq<Byte>)
    requires Ascends(rows) && 0 < |rows| <= BLOCK && width <= 32 && Encodes(packed, Gaps(rows), width)
    ensures var out: seq<Byte> := LeBytes(rows[0], 4) + LeBytes(|rows|, 2) + [width, 0] + packed;
            BlockAt(out, 0, rows) && |out| == BlockBytes(|rows|, out[6])
  {
    hide *;
    HeaderFields(rows);
    var base, count, head: seq<Byte> := LeBytes(rows[0], 4), LeBytes(|rows|, 2), [width, 0];
    ConcatParts(base, count, head, packed);
    BlockFrom(base + count + head + packed, rows, width, packed);
  }

  lemma BlockFrom(out: seq<Byte>, rows: seq<nat>, width: nat, packed: seq<Byte>)
    requires Ascends(rows) && 0 < |rows| <= BLOCK && width <= 32 && Encodes(packed, Gaps(rows), width)
    requires |out| == 8 + |packed| && out[6] == width && out[8..] == packed
    requires Digits(out[0..4], 8) == rows[0] && Digits(out[4..6], 8) == |rows|
    ensures BlockAt(out, 0, rows) && |out| == BlockBytes(|rows|, out[6])
  {
    EncodesLength(packed, Gaps(rows), width);
    hide Pow2, Digits, PackedBytes, Encodes, Gaps, Ascends, Fits;
    assert out[8..8 + |packed|] == out[8..];
  }

  lemma EncodesLength(bytes: seq<Byte>, gaps: seq<nat>, width: nat)
    requires Encodes(bytes, gaps, width)
    ensures |bytes| == PackedBytes(|gaps|, width)
  {
  }

  /** Flushing one key: its rows cut into blocks. */
  method WriteChain(rows: seq<nat>) returns (out: seq<Byte>)
    requires Ascends(rows)
    ensures Chain(out, 0, rows)
    decreases |rows|
  {
    out := [];
    if rows != [] {
      var n := Min(BLOCK, |rows|);
      var block := WriteBlock(rows[..n]);
      var rest := WriteChain(rows[n..]);
      BlockMoved([], block, rest, 0, rows[..n]);
      ChainMoved(block, rest, [], 0, rows[n..]);
      assert [] + block + rest == block + rest + [] == block + rest;
      out := block + rest;
    }
  }

  function RowsBetween(rs: seq<Record>, start: nat, end: nat): (rows: seq<nat>)
    requires start <= end <= |rs|
    ensures |rows| == end - start
    ensures forall i :: 0 <= i < |rows| ==> rows[i] == rs[start + i].row
  {
    seq<nat>(end - start, i requires 0 <= i < end - start => rs[start + i].row)
  }

  /** The group's chain holds the rows of one directory entry. */
  ghost predicate Stores(body: seq<Byte>, g: Group, rs: seq<Record>, e: Entry) {
    && g.key == e.key && g.count == e.len
    && e.start + e.len <= |rs|
    && Chain(body, g.offset, RowsBetween(rs, e.start, e.start + e.len))
  }

  datatype Delta = Delta(groups: seq<Group>, body: seq<Byte>) {
    /** One group a key of the first n records. */
    ghost predicate Indexes(rs: seq<Record>, dir: seq<Entry>, n: nat) {
      && DirectoryOf(rs, dir, n)
      && |groups| == |dir|
      && (forall e :: 0 <= e < |dir| ==> Stores(body, groups[e], rs, dir[e]))
    }

    ghost predicate Holds(rs: seq<Record>) {
      StrictlySorted(rs) && exists dir :: Indexes(rs, dir, |rs|)
    }

    function Flush(key: nat, count: nat, chain: seq<Byte>): Delta {
      Delta(groups + [Group(key, |body|, count)], body + chain)
    }
  }

  /** Within a key, the rows never step down: all the builder checks. */
  ghost predicate RowsAscend(rs: seq<Record>, n: nat) {
    n <= |rs| && forall i :: 0 < i < n && rs[i - 1].key == rs[i].key ==> rs[i - 1].row <= rs[i].row
  }

  lemma StoresGrown(body: seq<Byte>, more: seq<Byte>, g: Group, rs: seq<Record>, e: Entry)
    requires Stores(body, g, rs, e)
    ensures Stores(body + more, g, rs, e)
  {
    ChainMoved([], body, more, g.offset, RowsBetween(rs, e.start, e.start + e.len));
    assert [] + body + more == body + more;
  }

  lemma StoresNew(body: seq<Byte>, chain: seq<Byte>, rs: seq<Record>, e: Entry)
    requires e.start + e.len <= |rs| && Chain(chain, 0, RowsBetween(rs, e.start, e.start + e.len))
    ensures Stores(body + chain, Group(e.key, |body|, e.len), rs, e)
  {
    ChainMoved(body, chain, [], 0, RowsBetween(rs, e.start, e.start + e.len));
    assert body + chain + [] == body + chain;
  }

  lemma FlushGroup(d: Delta, rs: seq<Record>, dir: seq<Entry>, start: nat, end: nat, chain: seq<Byte>)
    requires d.Indexes(rs, dir, start) && start < end <= |rs|
    requires forall i :: start <= i < end ==> rs[i].key == rs[end - 1].key
    requires dir != [] ==> dir[|dir| - 1].key < rs[end - 1].key
    requires Chain(chain, 0, RowsBetween(rs, start, end))
    ensures DirectoryOf(rs, dir + [Entry(rs[end - 1].key, start, end - start)], end)
    ensures d.Flush(rs[end - 1].key, end - start, chain)
            .Indexes(rs, dir + [Entry(rs[end - 1].key, start, end - start)], end)
  {
    DirectorySnoc(rs, dir, start, end);
    hide DirectoryOf, Chain, RowsBetween, Stores;
    StoresNew(d.body, chain, rs, Entry(rs[end - 1].key, start, end - start));
    forall e | 0 <= e < |dir| ensures Stores(d.body + chain, d.groups[e], rs, dir[e]) {
      StoresGrown(d.body, chain, d.groups[e], rs, dir[e]);
    }
  }

  /** The rows of the key being read, not yet flushed. */
  ghost predicate Pending(rs: seq<Record>, rows: seq<nat>, i: nat) {
    && |rows| <= i <= |rs|
    && rows == RowsBetween(rs, i - |rows|, i)
    && Ascends(rows)
    && RowsAscend(rs, i)
  }

  lemma PendingStep(rs: seq<Record>, rows: seq<nat>, i: nat)
    requires Pending(rs, rows, i) && i < |rs| && rs[i].row <= U32_MAX
    requires rows == [] ==> i == 0 || rs[i - 1].key != rs[i].key
    requires rows != [] ==> rs[i - 1].key == rs[i].key
    ensures rows != [] && rs[i].row < rows[|rows| - 1] ==> !RowsAscend(rs, |rs|)
    ensures rows == [] || rows[|rows| - 1] <= rs[i].row ==> Pending(rs, rows + [rs[i].row], i + 1)
  {
    var grown := rows + [rs[i].row];
    assert rows != [] ==> rows[|rows| - 1] == rs[i - 1].row;
    assert grown == RowsBetween(rs, i - |rows|, i + 1);
    hide RowsBetween;
    if rows == [] || rows[|rows| - 1] <= rs[i].row {
      AscendsSnoc(rows, rs[i].row);
      RowsAscendNext(rs, i);
    }
  }

  lemma AscendsSnoc(rows: seq<nat>, row: nat)
    requires Ascends(rows) && row <= U32_MAX && (rows == [] || rows[|rows| - 1] <= row)
    ensures Ascends(rows + [row])
  {
  }

  lemma RowsAscendNext(rs: seq<Record>, i: nat)
    requires RowsAscend(rs, i) && i < |rs| && (i == 0 || rs[i - 1].key != rs[i].key || rs[i - 1].row <= rs[i].row)
    ensures RowsAscend(rs, i + 1)
  {
  }

  lemma StartsEmpty(rs: seq<Record>)
    ensures Pending(rs, [], 0) && Grouped(rs, [], None, 0, 0)
    ensures Delta([], []).Indexes(rs, [], 0)
  {
  }

  lemma HoldsWhenSorted(d: Delta, rs: seq<Record>, dir: seq<Entry>)
    requires d.Indexes(rs, dir, |rs|)
    ensures StrictlySorted(rs) ==> d.Holds(rs)
  {
  }

  lemma PendingRows(rs: seq<Record>, rows: seq<nat>, i: nat)
    requires Pending(rs, rows, i)
    ensures Ascends(rows) && |rows| <= i <= |rs| && rows == RowsBetween(rs, i - |rows|, i)
    ensures i <= |rs| && Pending(rs, [], i)
    ensures i == |rs| ==> RowsAscend(rs, |rs|)
  {
  }

  ghost predicate KeysAscend(rs: seq<Record>) {
    forall i, j :: 0 <= i < j < |rs| ==> rs[i].key <= rs[j].key
  }

  lemma KeysStep(rs: seq<Record>, i: nat)
    requires KeysAscend(rs) && 0 < i < |rs|
    ensures rs[i - 1].key <= rs[i].key
  {
  }

  lemma SortedKeys(rs: seq<Record>)
    ensures StrictlySorted(rs) ==> KeysAscend(rs)
  {
  }

  method BuildDelta(sorted: seq<Record>) returns (r: Result<Delta>)
    requires |sorted| <= U32_MAX && forall i :: 0 <= i < |sorted| ==> sorted[i].row <= U32_MAX
    ensures r.Ok? <==> RowsAscend(sorted, |sorted|)
    ensures r.Ok? && StrictlySorted(sorted) ==> r.value.Holds(sorted)
  {
    StartsEmpty(sorted);
    hide KeysAscend, DirectoryOf, Chain, Delta.Indexes, RowsAscend, StrictlySorted, Delta.Holds, Pending, RowsBetween, Ascends;
    var d := Delta([], []);
    ghost var dir: seq<Entry> := [];
    var current: Option<nat> := None;
    var rows: seq<nat> := [];
    for i := 0 to |sorted|
      invariant Pending(sorted, rows, i)
      invariant |rows| <= i && (rows == [] <==> i == 0)
      invariant rows != [] ==> current == Some(sorted[i - 1].key)
      invariant KeysAscend(sorted) ==> Grouped(sorted, dir, current, i - |rows|, i) && d.Indexes(sorted, dir, i - |rows|)
    {
      var record := sorted[i];
      PendingRows(sorted, rows, i);
      if current.Some? && current.value != record.key {
        var chain := WriteChain(rows);
        if KeysAscend(sorted) {
          KeysStep(sorted, i);
          FlushGroup(d, sorted, dir, i - |rows|, i, chain);
        }
        d := d.Flush(current.value, |rows|, chain);
        dir := dir + [Entry(current.value, i - |rows|, |rows|)];
        rows := [];
      }
      current := Some(record.key);
      PendingStep(sorted, rows, i);
      if rows != [] && record.row < rows[|rows| - 1] {
        return Err(InvalidData);
      }
      rows := rows + [record.row];
    }
    PendingRows(sorted, rows, |sorted|);
    if current.Some? {
      var chain := WriteChain(rows);
      if KeysAscend(sorted) {
        FlushGroup(d, sorted, dir, |sorted| - |rows|, |sorted|, chain);
      }
      d := d.Flush(current.value, |rows|, chain);
      dir := dir + [Entry(current.value, |sorted| - |rows|, |rows|)];
    }
    if StrictlySorted(sorted) {
      SortedKeys(sorted);
      HoldsWhenSorted(d, sorted, dir);
    }
    return Ok(d);
  }
}

/** Lookups in a slice of a sorted posting body: seeking, taking, probing and merging. */
module Postings {
  import opened Wrappers
  import opened RowSets

  datatype Record = Record(key: nat, row: nat)

  predicate Less(a: Record, b: Record) {
    a.key < b.key || (a.key == b.key && a.row < b.row)
  }

  ghost predicate StrictlySorted(rs: seq<Record>) {
    forall i, j :: 0 <= i < j < |rs| ==> Less(rs[i], rs[j])
  }

  /** The rows recorded under a key: what every index answers about. */
  ghost function RowsOf(rs: seq<Record>, key: nat): set<nat> {
    set i | 0 <= i < |rs| && rs[i].key == key :: rs[i].row
  }

  lemma RowsOfSnoc(rs: seq<Record>, record: Record, key: nat)
    ensures RowsOf(rs + [record], key) == RowsOf(rs, key) + if record.key == key then {record.row} else {}
  {
    var grown := rs + [record];
    forall x | x in RowsOf(rs, key) ensures x in RowsOf(grown, key) {
      var i :| 0 <= i < |rs| && rs[i].key == key && rs[i].row == x;
      assert grown[i] == rs[i];
    }
    assert grown[|rs|] == record;
  }

  /** The rows of a key column that hold the key. */
  ghost function RowsWith(keys: seq<nat>, key: nat): set<nat> {
    set r | 0 <= r < |keys| && keys[r] == key
  }

  /** The records list every row of the column once, under its key. */
  ghost predicate Tabulates(rs: seq<Record>, keys: seq<nat>) {
    && (forall i :: 0 <= i < |rs| ==> rs[i].row < |keys| && keys[rs[i].row] == rs[i].key)
    && (forall r :: 0 <= r < |keys| ==> Record(keys[r], r) in rs)
  }

  lemma TabulatedRows(rs: seq<Record>, keys: seq<nat>, key: nat)
    requires Tabulates(rs, keys)
    ensures RowsOf(rs, key) == RowsWith(keys, key)
  {
    forall r | r in RowsWith(keys, key) ensures r in RowsOf(rs, key) {
      var i :| 0 <= i < |rs| && rs[i] == Record(keys[r], r);
    }
  }

  ghost function Elements(s: seq<nat>): set<nat> {
    set x | x in s
  }

  lemma ElementsListed(s: seq<nat>)
    requires Increasing(s)
    ensures Lists(s, Elements(s))
  {
  }

  // ---------------------------------------------------------------- a slice of the sorted body

  /** Positions start..end of the body hold exactly the rows of one key. */
  ghost predicate Slice(rs: seq<Record>, body: seq<nat>, key: nat, start: nat, end: nat) {
    && start <= end <= |rs| == |body|
    && (forall i :: 0 <= i < |rs| ==> body[i] == rs[i].row)
    && (forall i :: 0 <= i < |rs| ==> (rs[i].key == key <==> start <= i < end))
  }

  lemma SliceLists(rs: seq<Record>, body: seq<nat>, key: nat, start: nat, end: nat)
    requires StrictlySorted(rs) && Slice(rs, body, key, start, end)
    ensures Lists(body[start..end], RowsOf(rs, key))
    ensures end - start == |RowsOf(rs, key)|
  {
    var s := body[start..end];
    forall i, j | 0 <= i < j < |s| ensures s[i] < s[j] {
      assert Less(rs[start + i], rs[start + j]);
    }
    forall x ensures x in s <==> x in RowsOf(rs, key) {
      if x in s {
        var i :| 0 <= i < |s| && s[i] == x;
        assert rs[start + i].key == key;
      }
      if x in RowsOf(rs, key) {
        var i :| 0 <= i < |rs| && rs[i].key == key && rs[i].row == x;
        assert s[i - start] == x;
      }
    }
    ListsSize(s, RowsOf(rs, key));
  }

  lemma SliceMember(body: seq<nat>, start: nat, end: nat, S: set<nat>, x: nat)
    requires start <= end <= |body| && Lists(body[start..end], S)
    ensures x in S <==> exists i :: start <= i < end && body[i] == x
  {
    var s := body[start..end];
    assert forall i :: start <= i < end ==> body[i] == s[i - start];
    if x in S {
      var k :| 0 <= k < |s| && s[k] == x;
      assert body[start + k] == x;
    }
  }

  method LowerBoundRow(body: seq<nat>, start: nat, end: nat, target: nat) returns (lo: nat)
    requires start <= end <= |body| && Increasing(body[start..end])
    ensures start <= lo <= end
    ensures forall i :: start <= i < lo ==> body[i] < target
    ensures forall i :: lo <= i < end ==> target <= body[i]
  {
    lo := start;
    var hi := end;
    ghost var s := body[start..end];
    assert forall i :: start <= i < end ==> body[i] == s[i - start];
    while lo < hi
      invariant start <= lo <= hi <= end
      invariant forall i :: start <= i < lo ==> body[i] < target
      invariant forall i :: hi <= i < end ==> target <= body[i]
    {
      var mid := lo + (hi - lo) / 2;
      assert body[mid] == s[mid - start];
      if body[mid] < target {
        lo := mid + 1;
      } else {
        hi := mid;
      }
    }
  }

  method TakeFrom(body: seq<nat>, start: nat, end: nat, first: nat, limit: nat, ghost S: set<nat>)
    returns (out: seq<nat>)
    requires start <= end <= |body| && Lists(body[start..end], S)
    ensures Lists(out, Top(From(S, first), limit))
  {
    var lo := LowerBoundRow(body, start, end, first);
    ghost var s := body[start..end];
    hide *;
    assert forall i :: start <= i < end ==> body[i] == s[i - start];
    SuffixFrom(s, S, lo - start, first);
    assert body[lo..end] == s[lo - start..];
    TakeListsTop(body[lo..end], From(S, first), limit);
    MinWithin(limit, end - lo);
    out := body[lo..lo + Min(limit, end - lo)];
    assert out == body[lo..end][..Min(limit, end - lo)];
  }

  lemma MinWithin(a: nat, b: nat)
    ensures Min(a, b) <= b
  {
  }

  /** Merge with a sorted seed, or probe each seed row when the slice is over 16 times longer. */
  method IntersectSlice(body: seq<nat>, start: nat, end: nat, seed: seq<nat>, ghost S: set<nat>)
    returns (out: seq<nat>)
    requires start <= end <= |body| && Lists(body[start..end], S)
    requires Increasing(seed)
    ensures Lists(out, S * Elements(seed))
  {
    out := [];
    if seed == [] {
      return;
    }
    if end - start > |seed| * 16 {
      out := Probe(body, start, end, seed, S);
    } else {
      var from := LowerBoundRow(body, start, end, seed[0]);
      out := Merge(body, start, end, from, seed, S);
    }
  }

  method Probe(body: seq<nat>, start: nat, end: nat, seed: seq<nat>, ghost S: set<nat>)
    returns (out: seq<nat>)
    requires start <= end <= |body| && Lists(body[start..end], S)
    requires Increasing(seed)
    ensures Lists(out, S * Elements(seed))
  {
    out := [];
    for k := 0 to |seed|
      invariant Lists(out, S * Elements(seed[..k]))
    {
      var row := seed[k];
      var pos := LowerBoundRow(body, start, end, row);
      SliceMember(body, start, end, S, row);
      assert seed[..k + 1] == seed[..k] + [row];
      assert S * Elements(seed[..k + 1]) ==
             S * Elements(seed[..k]) + if row in S then {row} else {};
      if pos < end && body[pos] == row {
        ListsSnoc(out, S * Elements(seed[..k]), row);
        out := out + [row];
      }
    }
    assert seed[..|seed|] == seed;
  }

  /** Merges the slice, from a position with nothing useful before it, with the seed. */
  method Merge(body: seq<nat>, start: nat, end: nat, from: nat, seed: seq<nat>, ghost S: set<nat>)
    returns (out: seq<nat>)
    requires start <= from <= end <= |body| && Lists(body[start..end], S)
    requires Increasing(seed) && forall i :: start <= i < from ==> seed == [] || body[i] < seed[0]
    ensures Lists(out, S * Elements(seed))
  {
    out := [];
    var i: nat, j: nat := 0, from;
    MergeStarts(body, start, end, from, seed, S);
    hide *;
    while i < |seed| && j < end
      invariant MergedTo(body, start, end, seed, S, i, j, out)
      decreases |seed| - i + end - j
    {
      MergeSteps(body, start, end, seed, S, i, j, out);
      var row := body[j];
      if seed[i] < row {
        i := i + 1;
      } else if seed[i] > row {
        j := j + 1;
      } else {
        out := out + [row];
        i := i + 1;
        j := j + 1;
      }
    }
    MergeEnds(body, start, end, seed, S, i, j, out);
  }

  /** The common rows among the first i of the seed and the body up to j. */
  ghost predicate MergedTo(body: seq<nat>, start: nat, end: nat, seed: seq<nat>, S: set<nat>, i: nat, j: nat, out: seq<nat>) {
    && i <= |seed| && start <= j <= end <= |body| && Increasing(seed) && Lists(body[start..end], S)
    && (forall k :: start <= k < j ==> i == |seed| || body[k] < seed[i])
    && (forall k :: 0 <= k < i ==> j == end || seed[k] < body[j])
    && Lists(out, S * Elements(seed[..i]))
  }

  lemma MergeStarts(body: seq<nat>, start: nat, end: nat, from: nat, seed: seq<nat>, S: set<nat>)
    requires start <= from <= end <= |body| && Lists(body[start..end], S)
    requires Increasing(seed) && forall i :: start <= i < from ==> seed == [] || body[i] < seed[0]
    ensures MergedTo(body, start, end, seed, S, 0, from, [])
  {
    assert S * Elements(seed[..0]) == {};
  }

  lemma MergeSteps(body: seq<nat>, start: nat, end: nat, seed: seq<nat>, S: set<nat>, i: nat, j: nat, out: seq<nat>)
    requires MergedTo(body, start, end, seed, S, i, j, out) && i < |seed| && j < end
    ensures j < |body|
    ensures seed[i] < body[j] ==> MergedTo(body, start, end, seed, S, i + 1, j, out)
    ensures seed[i] > body[j] ==> MergedTo(body, start, end, seed, S, i, j + 1, out)
    ensures seed[i] == body[j] ==> MergedTo(body, start, end, seed, S, i + 1, j + 1, out + [body[j]])
  {
    var before, after := Elements(seed[..i]), Elements(seed[..i + 1]);
    assert seed[..i + 1] == seed[..i] + [seed[i]];
    assert after == before + {seed[i]};
    SliceAscends(body, start, end, S);
    SliceMember(body, start, end, S, seed[i]);
    if seed[i] < body[j] {
      assert S * after == S * before;
    } else if seed[i] == body[j] {
      assert S * after == S * before + {seed[i]};
      ListsSnoc(out, S * before, seed[i]);
    }
  }

  lemma SliceAscends(body: seq<nat>, start: nat, end: nat, S: set<nat>)
    requires start <= end <= |body| && Lists(body[start..end], S)
    ensures forall a, b :: start <= a < b < end ==> body[a] < body[b]
  {
    var s := body[start..end];
    assert forall i :: start <= i < end ==> body[i] == s[i - start];
  }

  lemma MergeEnds(body: seq<nat>, start: nat, end: nat, seed: seq<nat>, S: set<nat>, i: nat, j: nat, out: seq<nat>)
    requires MergedTo(body, start, end, seed, S, i, j, out) && (i == |seed| || j == end)
    ensures Lists(out, S * Elements(seed))
  {
    forall x | x in S && x in seed ensures x in seed[..i] {
      var k :| 0 <= k < |seed| && seed[k] == x;
      SliceMember(body, start, end, S, x);
      assert k < i;
      assert seed[..i][k] == x;
    }
    assert S * Elements(seed) == S * Elements(seed[..i]);
  }
}

/** Merging sorted runs through a heap, under any strict total order, dropping repetitions. */
module RunMerges {
  import opened Wrappers

  ghost predicate Order<T(!new)>(less: (T, T) -> bool) {
    && (forall a :: !less(a, a))
    && (forall a, b, c :: less(a, b) && less(b, c) ==> less(a, c))
    && (forall a, b :: a == b || less(a, b) || less(b, a))
  }

  ghost predicate Ascends<T>(s: seq<T>, less: (T, T) -> bool) {
    forall i, j :: 0 <= i < j < |s| ==> less(s[i], s[j])
  }

  datatype Head<T> = Head(record: T, run: nat)

  predicate HeadLess<T(==)>(a: Head<T>, b: Head<T>, less: (T, T) -> bool) {
    less(a.record, b.record) || (a.record == b.record && a.run < b.run)
  }

  // ------------------------------------------------------------------------------ the runs

  /** Stands for the library's `sort_unstable` followed by `dedup`. */
  method SortDedup<T(==, !new)>(chunk: seq<T>, less: (T, T) -> bool) returns (out: seq<T>)
    requires Order(less)
    ensures Ascends(out, less)
    ensures forall x :: x in out <==> x in chunk
  {
    out := [];
    for i := 0 to |chunk|
      invariant Ascends(out, less)
      invariant forall x :: x in out <==> x in chunk[..i]
    {
      assert chunk[..i + 1] == chunk[..i] + [chunk[i]];
      out := Insert(out, chunk[i], less);
    }
    assert chunk[..|chunk|] == chunk;
  }

  method Insert<T(==, !new)>(s: seq<T>, x: T, less: (T, T) -> bool) returns (out: seq<T>)
    requires Order(less)
    requires Ascends(s, less)
    ensures Ascends(out, less)
    ensures forall y :: y in out <==> y in s || y == x
  {
    var at := 0;
    while at < |s| && less(s[at], x)
      invariant at <= |s| && forall i :: 0 <= i < at ==> less(s[i], x)
    {
      at := at + 1;
    }
    if at < |s| && s[at] == x {
      return s;
    }
    Inserted(s, at, x, less);
    out := s[..at] + [x] + s[at..];
  }

  lemma Inserted<T(!new)>(s: seq<T>, at: nat, x: T, less: (T, T) -> bool)
    requires Order(less)
    requires Ascends(s, less) && at <= |s|
    requires forall i :: 0 <= i < at ==> less(s[i], x)
    requires at < |s| ==> !less(s[at], x) && s[at] != x
    ensures Ascends(s[..at] + [x] + s[at..], less)
    ensures forall y :: y in s[..at] + [x] + s[at..] <==> y in s || y == x
  {
    assert s == s[..at] + s[at..];
    var below, above := s[..at], s[at..];
    forall i | 0 <= i < |above| ensures less(x, above[i]) {
      assert above[i] == s[at + i];
      if i > 0 {
        assert less(s[at], s[at + i]);
      }
    }
    Joined(below, x, above, less);
  }

  lemma Joined<T(!new)>(below: seq<T>, x: T, above: seq<T>, less: (T, T) -> bool)
    requires Ascends(below + above, less)
    requires forall i :: 0 <= i < |below| ==> less(below[i], x)
    requires forall i :: 0 <= i < |above| ==> less(x, above[i])
    ensures Ascends(below + [x] + above, less)
  {
    var out, s := below + [x] + above, below + above;
    forall i, j | 0 <= i < j < |out| ensures less(out[i], out[j]) {
      var from, to := if i <= |below| then i else i - 1, if j <= |below| then j else j - 1;
      if i != |below| && j != |below| {
        assert less(s[from], s[to]);
      }
    }
  }

  ghost predicate Runs<T(!new)>(runs: seq<seq<T>>, less: (T, T) -> bool) {
    forall i :: 0 <= i < |runs| ==> Ascends(runs[i], less)
  }

  ghost predicate InSome<T(!new)>(runs: seq<seq<T>>, x: T) {
    exists i :: 0 <= i < |runs| && x in runs[i]
  }

  lemma InSomeSnoc<T(!new)>(runs: seq<seq<T>>, run: seq<T>)
    ensures forall x :: InSome(runs + [run], x) <==> InSome(runs, x) || x in run
  {
    forall x ensures InSome(runs + [run], x) <==> InSome(runs, x) || x in run {
      if InSome(runs, x) {
        var i :| 0 <= i < |runs| && x in runs[i];
        assert x in (runs + [run])[i];
      }
      assert (runs + [run])[|runs|] == run;
    }
  }

  // ----------------------------------------------------------------------------- the merge

  /** Each run's next unread record waits in the heap. */
  ghost predicate Heads<T(!new)>(heap: set<Head<T>>, runs: seq<seq<T>>, pos: seq<nat>) {
    && |pos| == |runs|
    && (forall i :: 0 <= i < |runs| ==> pos[i] <= |runs[i]|)
    && (forall h :: h in heap <==>
          h.run < |runs| && pos[h.run] < |runs[h.run]| && h.record == runs[h.run][pos[h.run]])
  }

  ghost predicate Merged<T(!new)>(out: seq<T>, runs: seq<seq<T>>, pos: seq<nat>, less: (T, T) -> bool)
    requires |pos| == |runs| && forall i :: 0 <= i < |runs| ==> pos[i] <= |runs[i]|
  {
    && Ascends(out, less)
    && (forall x :: x in out <==> ReadSoFar(runs, pos, x))
    && (forall i, k :: 0 <= i < |runs| && pos[i] <= k < |runs[i]| && out != []
          ==> !less(runs[i][k], out[|out| - 1]))
  }

  ghost function Unread<T(!new)>(runs: seq<seq<T>>, pos: seq<nat>): int
    requires |pos| == |runs|
  {
    if runs == [] then 0
    else |runs[|runs| - 1]| - pos[|runs| - 1] + Unread(runs[..|runs| - 1], pos[..|runs| - 1])
  }

  lemma {:induction false} UnreadStep<T(!new)>(runs: seq<seq<T>>, pos: seq<nat>, i: nat)
    requires |pos| == |runs| && i < |runs|
    ensures Unread(runs, pos[i := pos[i] + 1]) == Unread(runs, pos) - 1
  {
    var n := |runs| - 1;
    if i < n {
      assert pos[i := pos[i] + 1][..n] == pos[..n][i := pos[i] + 1];
      UnreadStep(runs[..n], pos[..n], i);
    } else {
      assert pos[i := pos[i] + 1][..n] == pos[..n];
    }
  }

  lemma {:induction false} UnreadNonNegative<T(!new)>(runs: seq<seq<T>>, pos: seq<nat>)
    requires |pos| == |runs| && forall i :: 0 <= i < |runs| ==> pos[i] <= |runs[i]|
    ensures Unread(runs, pos) >= 0
  {
    if runs != [] {
      UnreadNonNegative(runs[..|runs| - 1], pos[..|runs| - 1]);
    }
  }

  lemma {:induction false} LeastHead<T(!new)>(heap: set<Head<T>>, less: (T, T) -> bool)
    requires Order(less)
    requires heap != {}
    ensures exists h :: h in heap && forall o :: o in heap && o != h ==> HeadLess(h, o, less)
  {
    var x :| x in heap;
    if heap == {x} {
    } else {
      hide HeadLess;
      var rest := heap - {x};
      LeastHead(rest, less);
      var m :| m in rest && forall o :: o in rest && o != m ==> HeadLess(m, o, less);
      var least := if HeadLess(x, m, less) then x else m;
      forall o | o in heap && o != least ensures HeadLess(least, o, less) {
        if o != x && o != m {
          assert o in rest && HeadLess(m, o, less);
        }
      }
    }
  }

  /** Nothing unread is below the least head, since every run is sorted. */
  lemma LeastIsNext<T(!new)>(heap: set<Head<T>>, runs: seq<seq<T>>, pos: seq<nat>, h: Head<T>, i: nat, k: nat, less: (T, T) -> bool)
    requires Order(less)
    requires Runs(runs, less) && Heads(heap, runs, pos)
    requires h in heap && forall o :: o in heap && o != h ==> HeadLess(h, o, less)
    requires i < |runs| && pos[i] <= k < |runs[i]|
    ensures !less(runs[i][k], h.record)
  {
    var o := Head(runs[i][pos[i]], i);
    assert o in heap;
    if pos[i] < k {
      assert less(runs[i][pos[i]], runs[i][k]);
    }
  }

  /** Adding a record no smaller than the last, unless it is the last, keeps the list sorted. */
  lemma AppendSorted<T(!new)>(out: seq<T>, x: T, less: (T, T) -> bool)
    requires Order(less)
    requires Ascends(out, less) && (out != [] ==> !less(x, out[|out| - 1]))
    ensures Ascends(Append(out, x), less)
    ensures forall y :: y in Append(out, x) <==> y in out || y == x
    ensures Append(out, x)[|Append(out, x)| - 1] == x
  {
    var next := Append(out, x);
    if next != out {
      forall i, j | 0 <= i < j < |next| ensures less(next[i], next[j]) {
        if j == |out| && i < |out| - 1 {
          assert less(out[i], out[|out| - 1]);
        }
      }
    }
  }

  ghost predicate ReadSoFar<T(!new)>(runs: seq<seq<T>>, pos: seq<nat>, x: T)
    requires |pos| == |runs| && forall i :: 0 <= i < |runs| ==> pos[i] <= |runs[i]|
  {
    exists i :: 0 <= i < |runs| && x in runs[i][..pos[i]]
  }

  lemma ReadOne<T(!new)>(runs: seq<seq<T>>, pos: seq<nat>, i: nat, x: T)
    requires |pos| == |runs| && forall j :: 0 <= j < |runs| ==> pos[j] <= |runs[j]|
    requires i < |runs| && pos[i] < |runs[i]|
    ensures ReadSoFar(runs, pos[i := pos[i] + 1], x) <==> ReadSoFar(runs, pos, x) || x == runs[i][pos[i]]
  {
    var after, run := pos[i := pos[i] + 1], runs[i];
    assert run[..after[i]] == run[..pos[i]] + [run[pos[i]]];
    if ReadSoFar(runs, pos, x) {
      var j :| 0 <= j < |runs| && x in runs[j][..pos[j]];
      assert x in runs[j][..after[j]];
    }
    if x == run[pos[i]] {
      assert x in runs[i][..after[i]];
    }
    if ReadSoFar(runs, after, x) {
      var j :| 0 <= j < |runs| && x in runs[j][..after[j]];
      assert j != i ==> x in runs[j][..pos[j]];
    }
  }

  /** Reading the least head keeps the output sorted, distinct and complete. */
  lemma MergeStep<T(!new)>(heap: set<Head<T>>, runs: seq<seq<T>>, pos: seq<nat>, out: seq<T>, h: Head<T>, less: (T, T) -> bool)
    requires Order(less)
    requires Runs(runs, less) && Heads(heap, runs, pos) && Merged(out, runs, pos, less)
    requires h in heap && forall o :: o in heap && o != h ==> HeadLess(h, o, less)
    ensures var after := pos[h.run := pos[h.run] + 1];
            (forall i :: 0 <= i < |runs| ==> after[i] <= |runs[i]|) && Merged(Append(out, h.record), runs, after, less)
  {
    var next, after := Append(out, h.record), pos[h.run := pos[h.run] + 1];
    if out != [] {
      assert !less(runs[h.run][pos[h.run]], out[|out| - 1]);
    }
    AppendSorted(out, h.record, less);
    forall x ensures x in next <==> ReadSoFar(runs, after, x) {
      ReadOne(runs, pos, h.run, x);
    }
    forall i, k | 0 <= i < |runs| && after[i] <= k < |runs[i]| ensures !less(runs[i][k], next[|next| - 1]) {
      LeastIsNext(heap, runs, pos, h, i, k, less);
    }
  }

  ghost predicate Merging<T(!new)>(heap: set<Head<T>>, runs: seq<seq<T>>, pos: seq<nat>, out: seq<T>, less: (T, T) -> bool) {
    Heads(heap, runs, pos) && Merged(out, runs, pos, less)
  }

  /** The heap after the head of a run is read: the run's next record takes its place. */
  function Refill<T(==, !new)>(heap: set<Head<T>>, runs: seq<seq<T>>, pos: seq<nat>, h: Head<T>): set<Head<T>>
    requires |pos| == |runs| && h.run < |runs| && pos[h.run] < |runs[h.run]|
  {
    var next := pos[h.run] + 1;
    heap - {h} + if next < |runs[h.run]| then {Head(runs[h.run][next], h.run)} else {}
  }

  function Append<T(==, !new)>(out: seq<T>, record: T): seq<T> {
    if out == [] || out[|out| - 1] != record then out + [record] else out
  }

  lemma MergingStep<T(!new)>(heap: set<Head<T>>, runs: seq<seq<T>>, pos: seq<nat>, out: seq<T>, h: Head<T>, less: (T, T) -> bool)
    requires Order(less)
    requires Runs(runs, less) && Merging(heap, runs, pos, out, less)
    requires h in heap && forall o :: o in heap && o != h ==> HeadLess(h, o, less)
    ensures |pos| == |runs| && h.run < |runs| && pos[h.run] < |runs[h.run]|
    ensures Merging(Refill(heap, runs, pos, h), runs, pos[h.run := pos[h.run] + 1], Append(out, h.record), less)
    ensures 0 <= Unread(runs, pos[h.run := pos[h.run] + 1]) < Unread(runs, pos)
  {
    hide *;
    HeadRead(heap, runs, pos, out, h, less);
    MergeStep(heap, runs, pos, out, h, less);
    UnreadStep(runs, pos, h.run);
    UnreadNonNegative(runs, pos[h.run := pos[h.run] + 1]);
    Refilled(heap, runs, pos, h);
    StillMerging(Refill(heap, runs, pos, h), runs, pos[h.run := pos[h.run] + 1], Append(out, h.record), less);
  }

  lemma HeadRead<T(!new)>(heap: set<Head<T>>, runs: seq<seq<T>>, pos: seq<nat>, out: seq<T>, h: Head<T>, less: (T, T) -> bool)
    requires Merging(heap, runs, pos, out, less) && h in heap
    ensures Heads(heap, runs, pos) && Merged(out, runs, pos, less)
    ensures |pos| == |runs| && h.run < |runs| && pos[h.run] < |runs[h.run]|
  {
  }

  lemma StillMerging<T(!new)>(heap: set<Head<T>>, runs: seq<seq<T>>, pos: seq<nat>, out: seq<T>, less: (T, T) -> bool)
    requires Heads(heap, runs, pos) && Merged(out, runs, pos, less)
    ensures Merging(heap, runs, pos, out, less)
  {
  }

  lemma Refilled<T(!new)>(heap: set<Head<T>>, runs: seq<seq<T>>, pos: seq<nat>, h: Head<T>)
    requires Heads(heap, runs, pos) && h in heap && |pos| == |runs| && h.run < |runs| && pos[h.run] < |runs[h.run]|
    ensures Heads(Refill(heap, runs, pos, h), runs, pos[h.run := pos[h.run] + 1])
  {
  }

  method MergeRuns<T(==, !new)>(runs: seq<seq<T>>, less: (T, T) -> bool) returns (out: seq<T>, count: nat)
    requires Order(less)
    requires Runs(runs, less)
    ensures Ascends(out, less) && count == |out|
    ensures forall x :: x in out <==> InSome(runs, x)
  {
    var pos: seq<nat> := seq<nat>(|runs|, _ => 0);
    var heap: set<Head<T>> := {};
    for i := 0 to |runs|
      invariant forall h :: h in heap <==> h.run < i && 0 < |runs[h.run]| && h.record == runs[h.run][0]
    {
      if |runs[i]| > 0 {
        heap := heap + {Head(runs[i][0], i)};
      }
    }
    out, count := [], 0;
    var last: Option<T> := None;
    UnreadNonNegative(runs, pos);
    assert Merging(heap, runs, pos, out, less);
    while heap != {}
      invariant Merging(heap, runs, pos, out, less)
      invariant last == if out == [] then None else Some(out[|out| - 1])
      invariant count == |out| && Unread(runs, pos) >= 0
      decreases Unread(runs, pos)
    {
      hide Merging, Heads, Merged, Refill, Runs, Unread, HeadLess;
      LeastHead(heap, less);
      var h :| h in heap && forall o :: o in heap && o != h ==> HeadLess(h, o, less);
      MergingStep(heap, runs, pos, out, h, less);
      if last != Some(h.record) {
        out := out + [h.record];
        last := Some(h.record);
        count := count + 1;
      }
      heap := Refill(heap, runs, pos, h);
      pos := pos[h.run := pos[h.run] + 1];
    }
    AllRead(heap, runs, pos, out, less);
  }

  lemma HeadThere<T(!new)>(heap: set<Head<T>>, runs: seq<seq<T>>, pos: seq<nat>, i: nat)
    requires Heads(heap, runs, pos) && i < |runs|
    ensures i < |pos| && pos[i] <= |runs[i]| && (pos[i] < |runs[i]| ==> heap != {})
  {
    if pos[i] < |runs[i]| {
      assert Head(runs[i][pos[i]], i) in heap;
    }
  }

  lemma AllRead<T(!new)>(heap: set<Head<T>>, runs: seq<seq<T>>, pos: seq<nat>, out: seq<T>, less: (T, T) -> bool)
    requires heap == {} && Merging(heap, runs, pos, out, less)
    ensures Ascends(out, less) && forall x :: x in out <==> InSome(runs, x)
  {
    forall i | 0 <= i < |runs| ensures runs[i][..pos[i]] == runs[i] {
      HeadThere(heap, runs, pos, i);
    }
  }
}

/** Text in dictionary order, sorted lists of distinct texts, and the bounded-memory sort that makes
    them. */
module Texts {
  import opened Wrappers
  import opened RunMerges

  /** Byte-wise lexicographic order; a proper prefix comes first. */
  predicate Before(a: string, b: string) {
    && b != []
    && (a == [] || a[0] < b[0] || (a[0] == b[0] && Before(a[1..], b[1..])))
  }

  lemma {:induction false} BeforeTransitive(a: string, b: string, c: string)
    requires Before(a, b) && Before(b, c)
    ensures Before(a, c)
  {
    if a != [] && a[0] == b[0] == c[0] {
      BeforeTransitive(a[1..], b[1..], c[1..]);
    }
  }

  lemma {:induction false} BeforeIrreflexive(a: string)
    ensures !Before(a, a)
  {
    if a != [] {
      BeforeIrreflexive(a[1..]);
    }
  }

  lemma {:induction false} BeforeTotal(a: string, b: string)
    ensures a == b || Before(a, b) || Before(b, a)
  {
    if a != [] && b != [] && a[0] == b[0] {
      BeforeTotal(a[1..], b[1..]);
      assert a == [a[0]] + a[1..] && b == [b[0]] + b[1..];
    }
  }

  /** The order is decided where the texts first differ; a text comes before its continuations. */
  lemma {:induction false} BeforeMeans(a: string, b: string)
    ensures Before(a, b) <==> exists k: nat :: DecidedAt(a, b, k)
  {
    if a != [] && b != [] && a[0] == b[0] {
      BeforeMeans(a[1..], b[1..]);
      assert a == [a[0]] + a[1..] && b == [b[0]] + b[1..];
      if k: nat :| DecidedAt(a[1..], b[1..], k) {
        assert DecidedAt(a, b, k + 1);
      }
      if k: nat :| DecidedAt(a, b, k) {
        assert k > 0;
        assert DecidedAt(a[1..], b[1..], k - 1);
      }
    } else {
      assert Before(a, b) ==> DecidedAt(a, b, 0);
      if k: nat :| DecidedAt(a, b, k) {
        assert k == 0;
      }
    }
  }

  ghost predicate DecidedAt(a: string, b: string, k: nat) {
    && k <= |a| && k < |b| && (forall i :: 0 <= i < k ==> a[i] == b[i])
    && (k < |a| ==> a[k] < b[k])
  }

  ghost predicate Ascending(ts: seq<string>) {
    forall i, j :: 0 <= i < j < |ts| ==> Before(ts[i], ts[j])
  }

  /** Sorted, repetitions allowed: what a dictionary is built from. */
  ghost predicate Sorted(ts: seq<string>) {
    forall i, j :: 0 <= i < j < |ts| ==> ts[i] == ts[j] || Before(ts[i], ts[j])
  }

  lemma AscendingSnoc(ts: seq<string>, t: string)
    requires Ascending(ts) && (ts == [] || Before(ts[|ts| - 1], t))
    ensures Ascending(ts + [t])
  {
    hide Before;
    forall i | 0 <= i < |ts| ensures Before(ts[i], t) {
      if i < |ts| - 1 {
        BeforeTransitive(ts[i], ts[|ts| - 1], t);
      }
    }
  }

  lemma AscendingDistinct(ts: seq<string>, i: nat, j: nat)
    requires Ascending(ts) && i < |ts| && j < |ts| && ts[i] == ts[j]
    ensures i == j
  {
    BeforeIrreflexive(ts[i]);
  }

  /** A neighbour check finds every disorder. */
  lemma {:induction false} SortedSnoc(ts: seq<string>, t: string)
    requires Sorted(ts)
    ensures Sorted(ts + [t]) <==> ts == [] || ts[|ts| - 1] == t || Before(ts[|ts| - 1], t)
  {
    hide Before;
    var u := ts + [t];
    if ts != [] && (ts[|ts| - 1] == t || Before(ts[|ts| - 1], t)) {
      forall i | 0 <= i < |ts| ensures u[i] == t || Before(u[i], t) {
        if i < |ts| - 1 && ts[i] != ts[|ts| - 1] && ts[|ts| - 1] != t {
          BeforeTransitive(ts[i], ts[|ts| - 1], t);
        }
      }
    } else if ts != [] {
      assert u[|ts| - 1] != u[|ts|];
    }
  }

  function TextOrder(): (string, string) -> bool {
    (a: string, b: string) => Before(a, b)
  }

  lemma TextsOrdered()
    ensures Order(TextOrder())
    ensures forall s: seq<string> :: Ascends(s, TextOrder()) <==> Ascending(s)
  {
    forall a: string ensures !Before(a, a) {
      BeforeIrreflexive(a);
    }
    forall a: string, b: string, c: string | Before(a, b) && Before(b, c) ensures Before(a, c) {
      BeforeTransitive(a, b, c);
    }
    forall a: string, b: string ensures a == b || Before(a, b) || Before(b, a) {
      BeforeTotal(a, b);
    }
    hide Before;
  }

  // ------------------------------------------------------------------- the sort of dictionary texts

  /** Runs of at least `maxRunBytes` bytes, each text counted with its length field; the last is the rest. */
  method MakeTextRuns(values: seq<string>, maxRunBytes: nat) returns (runs: seq<seq<string>>)
    ensures Runs(runs, TextOrder())
    ensures forall t :: InSome(runs, t) <==> t in values
  {
    TextsOrdered();
    runs := [];
    var records: seq<string>, bytes: nat := [], 0;
    for k := 0 to |values|
      invariant Runs(runs, TextOrder())
      invariant forall t :: InSome(runs, t) || t in records <==> t in values[..k]
    {
      hide Before, Ascending;
      assert values[..k + 1] == values[..k] + [values[k]];
      bytes := bytes + |values[k]| + 4;
      records := records + [values[k]];
      if bytes >= maxRunBytes {
        var run := SortDedup(records, TextOrder());
        InSomeSnoc(runs, run);
        runs := runs + [run];
        records, bytes := [], 0;
      }
    }
    assert values[..|values|] == values;
    if records != [] {
      var run := SortDedup(records, TextOrder());
      InSomeSnoc(runs, run);
      runs := runs + [run];
    }
  }

  /** The distinct texts in order, whatever the run size. */
  method SortTexts(values: seq<string>, maxRunBytes: nat) returns (r: Result<seq<string>>)
    ensures r.Ok? <==> maxRunBytes > 0
    ensures r.Ok? ==> Ascending(r.value) && forall t :: t in r.value <==> t in values
  {
    if maxRunBytes == 0 {
      return Err(InvalidInput);
    }
    TextsOrdered();
    var runs := MakeTextRuns(values, maxRunBytes);
    if runs == [] {
      assert forall t :: t in values ==> InSome(runs, t);
      return Ok([]);
    }
    var out, count := MergeRuns(runs, TextOrder());
    return Ok(out);
  }
}

/** The bounded-memory sort behind every index: chunks of key records are sorted and deduplicated into
    runs, and the runs are merged. */
module ExternalSort {
  import opened Wrappers
  import opened Postings
  import opened RunMerges

  function RecordOrder(): (Record, Record) -> bool {
    (a: Record, b: Record) => Less(a, b)
  }

  lemma RecordsOrdered()
    ensures Order(RecordOrder())
    ensures forall s: seq<Record> :: Ascends(s, RecordOrder()) <==> StrictlySorted(s)
  {
  }

  method MakeRuns(input: seq<Record>, maxRecords: nat) returns (runs: seq<seq<Record>>)
    requires maxRecords > 0
    ensures Runs(runs, RecordOrder())
    ensures forall x :: InSome(runs, x) <==> x in input
  {
    RecordsOrdered();
    runs := [];
    var at := 0;
    while true
      invariant at <= |input| && Runs(runs, RecordOrder())
      invariant forall x :: InSome(runs, x) <==> x in input[..at]
      decreases |input| - at
    {
      var end := at + Min(maxRecords, |input| - at);
      var chunk := input[at..end];
      if chunk == [] {
        break;
      }
      var run := SortDedup(chunk, RecordOrder());
      assert input[..end] == input[..at] + chunk;
      InSomeSnoc(runs, run);
      runs := runs + [run];
      at := end;
    }
    assert input[..at] == input;
  }

  /** The distinct records of the input in order, whatever the chunk size. */
  method Sort(input: seq<Record>, maxRecords: nat) returns (r: Result<seq<Record>>, count: nat)
    ensures r.Ok? <==> maxRecords > 0
    ensures r.Ok? ==>
              && StrictlySorted(r.value) && count == |r.value|
              && (forall x :: x in r.value <==> x in input)
  {
    if maxRecords == 0 {
      return Err(InvalidInput), 0;
    }
    RecordsOrdered();
    var runs := MakeRuns(input, maxRecords);
    if runs == [] {
      assert forall x :: x in input ==> InSome(runs, x);
      return Ok([]), 0;
    }
    var out, n := MergeRuns(runs, RecordOrder());
    return Ok(out), n;
  }
}

/** A column dictionary: the distinct texts of a column in order, packed end to end, with NULL as
    token 0 of a nullable column. Tokens and values determine each other, and a text is found by binary
    search. */
module Dictionaries {
  import opened Wrappers
  import opened Texts

  /** A column value; None is NULL. */
  type Value = Option<string>

  /** The packed form holds these texts. */
  ghost predicate Lays(offsets: seq<nat>, data: string, texts: seq<string>) {
    && |offsets| == |texts| + 1 && offsets[0] == 0 && offsets[|texts|] == |data|
    && forall i :: 0 <= i < |texts| ==> LaysAt(offsets, data, i, texts[i])
  }

  predicate LaysAt(offsets: seq<nat>, data: string, i: nat, text: string)
    requires i + 1 < |offsets|
  {
    offsets[i] <= offsets[i + 1] <= |data| && data[offsets[i]..offsets[i + 1]] == text
  }

  lemma LaysSnoc(offsets: seq<nat>, data: string, texts: seq<string>, t: string)
    requires Lays(offsets, data, texts)
    ensures Lays(offsets + [|data| + |t|], data + t, texts + [t])
  {
    var o, d, u := offsets + [|data| + |t|], data + t, texts + [t];
    forall i | 0 <= i < |u| ensures LaysAt(o, d, i, u[i]) {
      if i < |texts| {
        assert LaysAt(offsets, data, i, texts[i]);
        assert d[o[i]..o[i + 1]] == data[offsets[i]..offsets[i + 1]];
      }
    }
  }

  datatype Dictionary = Dictionary(offsets: seq<nat>, data: string, nullable: bool) {
    function ValueCount(): nat {
      if offsets == [] then 0 else |offsets| - 1
    }

    /** Token 0 is NULL when the column is nullable. */
    function Shift(): nat {
      if nullable then 1 else 0
    }

    function Cardinality(): nat {
      ValueCount() + Shift()
    }

    function TextAt(i: nat): Option<string> {
      if i >= ValueCount() then None
      else
        var start, end := offsets[i], offsets[i + 1];
        if start > end || end > |data| then None else Some(data[start..end])
    }

    ghost function Texts(): (ts: seq<string>)
      ensures |ts| == ValueCount()
    {
      seq(ValueCount(), i requires 0 <= i < ValueCount() =>
        if offsets[i] <= offsets[i + 1] <= |data| then data[offsets[i]..offsets[i + 1]] else [])
    }

    ghost predicate Valid() {
      && Lays(offsets, data, Texts())
      && Ascending(Texts())
      && Cardinality() <= U32_MAX + 1
    }

    function Decode(token: nat): Option<Value> {
      if nullable && token == 0 then Some(None)
      else
        var text := TextAt(token - Shift());
        if text.Some? then Some(text) else None
    }

    /** The value each token of the column stands for. */
    ghost function Meaning(token: nat): Value {
      if nullable && token == 0 then None
      else if token - Shift() < ValueCount() then Some(Texts()[token - Shift()])
      else None
    }

    lemma DecodeDefined(token: nat)
      requires Valid()
      ensures Decode(token) == if token < Cardinality() then Some(Meaning(token)) else None
    {
    }

    /** Different tokens stand for different values. */
    lemma MeaningInjective(a: nat, b: nat)
      requires Valid() && a < Cardinality() && b < Cardinality() && Meaning(a) == Meaning(b)
      ensures a == b
    {
      hide Lays, Ascending, Texts;
      if !(nullable && (a == 0 || b == 0)) {
        AscendingDistinct(Texts(), a - Shift(), b - Shift());
      }
    }

    /** The token of a text, by binary search: present exactly when some token decodes to it. */
    method Token(value: string) returns (token: Option<nat>)
      requires Valid()
      ensures token.Some? <==> exists i :: 0 <= i < ValueCount() && Texts()[i] == value
      ensures token.Some? ==> token.value < Cardinality() && Meaning(token.value) == Some(value)
      ensures token.None? ==> forall t :: 0 <= t < Cardinality() ==> Meaning(t) != Some(value)
    {
      hide Before, Lays, Ascending, Texts;
      var lo, hi := 0, ValueCount();
      while lo < hi
        invariant 0 <= lo <= hi <= ValueCount()
        invariant forall i :: 0 <= i < lo ==> Before(Texts()[i], value)
        invariant forall i :: hi <= i < ValueCount() ==> !Before(Texts()[i], value)
      {
        var mid := (lo + hi) / 2;
        SearchStep(mid, value);
        var current := TextAt(mid);
        if current.None? {
          assert false;
        }
        if Before(current.value, value) {
          lo := mid + 1;
        } else {
          hi := mid;
        }
      }
      NotBelow(lo, value);
      if lo < ValueCount() && TextAt(lo) == Some(value) {
        return Some(lo + Shift());
      }
      return None;
    }

    lemma SearchStep(mid: nat, value: string)
      requires Valid() && mid < ValueCount()
      ensures TextAt(mid) == Some(Texts()[mid])
      ensures Before(Texts()[mid], value) ==> forall i :: 0 <= i <= mid ==> Before(Texts()[i], value)
      ensures !Before(Texts()[mid], value) ==> forall i :: mid <= i < ValueCount() ==> !Before(Texts()[i], value)
    {
      hide Before;
      if Before(Texts()[mid], value) {
        forall i | 0 <= i < mid ensures Before(Texts()[i], value) {
          BeforeTransitive(Texts()[i], Texts()[mid], value);
        }
      } else {
        forall i | mid < i < ValueCount() ensures !Before(Texts()[i], value) {
          if Before(Texts()[i], value) {
            BeforeTransitive(Texts()[mid], Texts()[i], value);
          }
        }
      }
    }

    lemma NotBelow(lo: nat, value: string)
      requires Valid() && lo <= ValueCount()
      requires forall i :: 0 <= i < lo ==> Before(Texts()[i], value)
      requires forall i :: lo <= i < ValueCount() ==> !Before(Texts()[i], value)
      ensures lo < ValueCount() ==> TextAt(lo) == Some(Texts()[lo])
      ensures (exists i :: 0 <= i < ValueCount() && Texts()[i] == value) <==> lo < ValueCount() && Texts()[lo] == value
    {
      hide Before;
      BeforeIrreflexive(value);
      assert forall i :: lo < i < ValueCount() ==> Before(Texts()[lo], Texts()[i]);
    }
  }

  // -------------------------------------------------------------------------------- building

  ghost function Members(ts: seq<string>): set<string> { set t | t in ts }

  lemma {:induction false} AscendingSize(ts: seq<string>)
    requires Ascending(ts)
    ensures |Members(ts)| == |ts|
  {
    if ts != [] {
      var rest, last := ts[..|ts| - 1], ts[|ts| - 1];
      AscendingSize(rest);
      assert ts == rest + [last];
      if last in rest {
        var i :| 0 <= i < |rest| && rest[i] == last;
        AscendingDistinct(ts, i, |ts| - 1);
      }
      assert Members(ts) == Members(rest) + {last};
    }
  }

  lemma LaysTexts(d: Dictionary, texts: seq<string>)
    requires Lays(d.offsets, d.data, texts)
    ensures d.Texts() == texts
  {
  }

  /** Streams sorted records into a dictionary, dropping repetitions. Fails on disorder and when the
      tokens would pass 32 bits. */
  method BuildFromSortedRecords(records: seq<string>, nullable: bool) returns (r: Result<Dictionary>)
    ensures r.Ok? <==> Sorted(records) && |Members(records)| + (if nullable then 1 else 0) <= U32_MAX + 1
    ensures r.Ok? ==>
              && r.value.Valid() && r.value.nullable == nullable
              && Members(r.value.Texts()) == Members(records)
              && r.value.Cardinality() == |Members(records)| + (if nullable then 1 else 0)
  {
    hide Before, Sorted, Ascending, Lays;
    var offsets: seq<nat>, data: string, count: nat := [0], "", 0;
    ghost var texts: seq<string> := [];
    NothingWritten();
    for k := 0 to |records|
      invariant Written(offsets, data, texts, records[..k]) && count == |texts|
    {
      var value := records[k];
      Prefix(records, k);
      NextRecord(offsets, data, texts, records[..k], value);
      if k > 0 {
        assert records[..k][k - 1] == records[k - 1];
        if Before(value, records[k - 1]) {
          Disorder(records, k);
          return Err(InvalidData);
        }
        if value == records[k - 1] {
          continue;
        }
      }
      data := data + value;
      offsets := offsets + [|data|];
      texts := texts + [value];
      count := count + 1;
    }
    assert records[..|records|] == records;
    var cardinality := count + if nullable then 1 else 0;
    var d := Dictionary(offsets, data, nullable);
    Finished(d, texts, records);
    if cardinality > U32_MAX + 1 {
      return Err(InvalidData);
    }
    return Ok(d);
  }

  /** What has been streamed so far: the distinct records, in order. */
  ghost predicate Written(offsets: seq<nat>, data: string, texts: seq<string>, records: seq<string>) {
    && Sorted(records) && Ascending(texts) && Lays(offsets, data, texts)
    && Members(texts) == Members(records)
    && (texts == [] <==> records == [])
    && (texts != [] ==> texts[|texts| - 1] == records[|records| - 1])
  }

  lemma NothingWritten()
    ensures Written([0], "", [], [])
  {
  }

  lemma Prefix(records: seq<string>, k: nat)
    requires k < |records|
    ensures records[..k + 1] == records[..k] + [records[k]]
  {
  }

  lemma NextRecord(offsets: seq<nat>, data: string, texts: seq<string>, records: seq<string>, value: string)
    requires Written(offsets, data, texts, records)
    ensures records != [] && value == records[|records| - 1] ==> Written(offsets, data, texts, records + [value])
    ensures records == [] || (value != records[|records| - 1] && !Before(value, records[|records| - 1])) ==>
              Written(offsets + [|data + value|], data + value, texts + [value], records + [value])
  {
    hide Before;
    SortedSnoc(records, value);
    assert Members(records + [value]) == Members(records) + {value};
    if records != [] && value == records[|records| - 1] {
      assert value in Members(records);
    } else if records == [] || !Before(value, records[|records| - 1]) {
      if records != [] {
        BeforeTotal(value, records[|records| - 1]);
      }
      AscendingSnoc(texts, value);
      LaysSnoc(offsets, data, texts, value);
      assert Members(texts + [value]) == Members(texts) + {value};
    }
  }

  lemma Disorder(records: seq<string>, k: nat)
    requires 0 < k < |records| && Before(records[k], records[k - 1])
    ensures !Sorted(records)
  {
    hide Before;
    if Sorted(records) {
      BeforeIrreflexive(records[k]);
      if Before(records[k - 1], records[k]) {
        BeforeTransitive(records[k], records[k - 1], records[k]);
      }
    }
  }

  lemma Finished(d: Dictionary, texts: seq<string>, records: seq<string>)
    requires Written(d.offsets, d.data, texts, records)
    ensures Sorted(records)
    ensures |texts| == |Members(records)|
    ensures d.Cardinality() == |texts| + d.Shift()
    ensures d.Cardinality() <= U32_MAX + 1 ==> d.Valid()
    ensures d.Texts() == texts && Members(d.Texts()) == Members(records)
  {
    AscendingSize(texts);
    LaysTexts(d, texts);
  }

  /** A dictionary of any column's values: each non-NULL value has a token, and the tokens decode to
      those values and NULL. */
  method BuildColumn(values: seq<string>, nullable: bool, maxRunBytes: nat) returns (r: Result<Dictionary>)
    ensures r.Ok? <==> maxRunBytes > 0 && |Members(values)| + (if nullable then 1 else 0) <= U32_MAX + 1
    ensures r.Ok? ==>
              && r.value.Valid() && r.value.nullable == nullable
              && Members(r.value.Texts()) == Members(values)
              && r.value.Cardinality() == |Members(values)| + (if nullable then 1 else 0)
  {
    hide Before;
    var sorted := SortTexts(values, maxRunBytes);
    if sorted.Err? {
      return Err(sorted.error);
    }
    assert Members(sorted.value) == Members(values);
    assert Sorted(sorted.value);
    r := BuildFromSortedRecords(sorted.value, nullable);
  }
}

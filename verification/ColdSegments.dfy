/** Hybrid segments. Some columns of a segment are kept in a columnar sidecar cut into row groups, and
    read back a block at a time through a one-block cache. Whatever the batches and row groups were, and
    whatever was read before, a read returns the token that was written. */
module ColdSegments {
  import opened Wrappers

  // ------------------------------------------------------------------------- 32-bit columns

  /** A token as the signed 32-bit integer the sidecar stores. */
  function Stored(token: nat): int
    requires token <= U32_MAX
  {
    if token < 0x8000_0000 then token else token - 0x1_0000_0000
  }

  function Loaded(value: int): nat
    requires -0x8000_0000 <= value < 0x8000_0000
  {
    if value >= 0 then value else value + 0x1_0000_0000
  }

  lemma StoredLoads(token: nat)
    requires token <= U32_MAX
    ensures -0x8000_0000 <= Stored(token) < 0x8000_0000 && Loaded(Stored(token)) == token
    ensures Stored(token) == token || Stored(token) == token - 0x1_0000_0000
  {
  }

  type Signed = x: int | -0x8000_0000 <= x < 0x8000_0000

  /** One column's values. */
  function Sign(values: seq<nat>): (out: seq<Signed>)
    requires forall i :: 0 <= i < |values| ==> values[i] <= U32_MAX
    ensures |out| == |values| && forall i :: 0 <= i < |values| ==> Loaded(out[i]) == values[i]
  {
    seq(|values|, i requires 0 <= i < |values| && values[i] <= U32_MAX => StoredLoads(values[i]); Stored(values[i]))
  }

  // --------------------------------------------------------------------------- the sidecar

  /** Row groups, each column by column. */
  datatype Payload = Payload(columns: seq<nat>, groups: seq<seq<seq<Signed>>>)

  ghost function GroupRows(group: seq<seq<Signed>>): nat {
    if group == [] then 0 else |group[0]|
  }

  /** Every group has all columns, of one length. */
  ghost predicate ValidGroup(group: seq<seq<Signed>>, columns: nat) {
    |group| == columns && forall j :: 0 <= j < columns ==> |group[j]| == GroupRows(group)
  }

  ghost function RowsBefore(groups: seq<seq<seq<Signed>>>): nat {
    if groups == [] then 0 else RowsBefore(groups[..|groups| - 1]) + GroupRows(groups[|groups| - 1])
  }

  /** A column read through all groups. */
  ghost function ColumnOf(groups: seq<seq<seq<Signed>>>, j: nat): seq<Signed> {
    if groups == [] then []
    else
      var last := groups[|groups| - 1];
      ColumnOf(groups[..|groups| - 1], j) + if j < |last| then last[j] else []
  }

  ghost predicate ValidGroups(groups: seq<seq<seq<Signed>>>, columns: nat) {
    forall g :: 0 <= g < |groups| ==> ValidGroup(groups[g], columns)
  }

  lemma {:induction false} ColumnLength(groups: seq<seq<seq<Signed>>>, columns: nat, j: nat)
    requires ValidGroups(groups, columns) && j < columns
    ensures |ColumnOf(groups, j)| == RowsBefore(groups)
  {
    if groups != [] {
      assert ValidGroup(groups[|groups| - 1], columns);
      ColumnLength(groups[..|groups| - 1], columns, j);
    }
  }

  /** A value is found in its group, past the groups before. */
  lemma {:induction false} ColumnAt(groups: seq<seq<seq<Signed>>>, columns: nat, j: nat, g: nat, local: nat)
    requires ValidGroups(groups, columns) && j < columns && g < |groups| && local < GroupRows(groups[g])
    ensures RowsBefore(groups[..g]) + local < |ColumnOf(groups, j)|
    ensures |groups[g]| == columns && |groups[g][j]| == GroupRows(groups[g])
    ensures ColumnOf(groups, j)[RowsBefore(groups[..g]) + local] == groups[g][j][local]
  {
    var n := |groups| - 1;
    assert ValidGroup(groups[g], columns) && ValidGroup(groups[n], columns);
    ColumnLength(groups[..n], columns, j);
    if g < n {
      assert groups[..n][..g] == groups[..g];
      ColumnAt(groups[..n], columns, j, g, local);
    }
  }

  /** Writes columns batch by batch, cutting a row group whenever enough rows are pending. */
  class TokenWriter {
    const columns: seq<nat>
    const rowGroupRows: nat
    var pending: seq<seq<nat>>
    var groups: seq<seq<seq<Signed>>>
    var rows: nat

    ghost function Pending(): nat
      reads this
    {
      if pending == [] then 0 else |pending[0]|
    }

    ghost predicate Valid()
      reads this
    {
      && columns != [] && rowGroupRows > 0 && |pending| == |columns|
      && Pending() < rowGroupRows
      && (forall j :: 0 <= j < |pending| ==> |pending[j]| == Pending() && forall i :: 0 <= i < |pending[j]| ==> pending[j][i] <= U32_MAX)
      && ValidGroups(groups, |columns|)
    }

    /** Everything written to a column so far. */
    ghost function Column(j: nat): seq<Signed>
      reads this
      requires Valid() && j < |columns|
    {
      ColumnOf(groups, j) + Sign(pending[j])
    }

    ghost function Columns(): (all: seq<seq<Signed>>)
      reads this
      requires Valid()
      ensures |all| == |columns| && forall j :: 0 <= j < |columns| ==> all[j] == Column(j)
    {
      seq(|columns|, j requires 0 <= j < |columns| && Valid() reads this => Column(j))
    }

    constructor (coldColumns: seq<nat>, groupRows: nat)
      requires coldColumns != [] && groupRows > 0
      ensures Valid() && fresh(this) && columns == coldColumns && rowGroupRows == groupRows && rows == 0
      ensures forall j :: 0 <= j < |columns| ==> Column(j) == []
    {
      columns, rowGroupRows, rows, groups := coldColumns, groupRows, 0, [];
      pending := seq(|coldColumns|, _ => []);
    }

    /** Cuts the pending rows into a group; nothing pending, nothing cut. */
    method FlushRowGroup()
      requires columns != [] && rowGroupRows > 0 && |pending| == |columns| && ValidGroups(groups, |columns|)
      requires forall j :: 0 <= j < |pending| ==> |pending[j]| == Pending() && forall i :: 0 <= i < |pending[j]| ==> pending[j][i] <= U32_MAX
      modifies this`pending, this`groups
      ensures Valid() && Pending() == 0
      ensures forall j :: 0 <= j < |columns| ==> Column(j) == old(ColumnOf(groups, j)) + Sign(old(pending[j]))
    {
      if |pending[0]| == 0 {
        return;
      }
      var group: seq<seq<Signed>> := [];
      for j := 0 to |pending|
        invariant |group| == j
        invariant forall k :: 0 <= k < j ==> group[k] == Sign(pending[k])
      {
        group := group + [Sign(pending[j])];
      }
      ghost var before := groups;
      groups := groups + [group];
      assert groups[..|groups| - 1] == before;
      assert ValidGroup(group, |columns|);
      pending := seq(|columns|, _ => []);
    }

    /** Adds rows to what is pending. */
    method Extend(batch: seq<seq<nat>>, offset: nat, take: nat)
      requires Valid() && |batch| == |columns| && Pending() + take <= rowGroupRows
      requires forall j :: 0 <= j < |batch| ==> offset + take <= |batch[j]| && forall i :: 0 <= i < |batch[j]| ==> batch[j][i] <= U32_MAX
      modifies this`pending
      ensures |pending| == |columns|
      ensures forall j :: 0 <= j < |columns| ==> pending[j] == old(pending[j]) + batch[j][offset..offset + take]
      ensures Pending() == old(Pending()) + take
      ensures forall j :: 0 <= j < |pending| ==> |pending[j]| == Pending() && forall i :: 0 <= i < |pending[j]| ==> pending[j][i] <= U32_MAX
    {
      var more: seq<seq<nat>> := [];
      for j := 0 to |pending|
        invariant |more| == j
        invariant forall k :: 0 <= k < j ==> more[k] == pending[k] + batch[k][offset..offset + take]
      {
        more := more + [pending[j] + batch[j][offset..offset + take]];
      }
      pending := more;
    }

    /** Appends a batch given column by column. Columns must be as many as expected and of one length;
        an empty first column means an empty batch. */
    method WriteColumns(batch: seq<seq<nat>>) returns (r: Result<()>)
      requires Valid() && forall j :: 0 <= j < |batch| ==> forall i :: 0 <= i < |batch[j]| ==> batch[j][i] <= U32_MAX
      modifies this
      ensures Valid()
      ensures r.Ok? <==> |batch| == |columns| && (|batch[0]| == 0 || forall j :: 0 <= j < |batch| ==> |batch[j]| == |batch[0]|)
      ensures r.Ok? ==>
                && rows == old(rows) + |batch[0]|
                && forall j :: 0 <= j < |columns| ==> Column(j) == old(Column(j)) + if |batch[0]| == 0 then [] else Sign(batch[j])
      ensures r.Err? ==> pending == old(pending) && groups == old(groups) && rows == old(rows)
    {
      if |batch| != |columns| {
        return Err(InvalidInput);
      }
      var count := |batch[0]|;
      if count == 0 {
        return Ok(());
      }
      if exists j | 0 <= j < |batch| :: |batch[j]| != count {
        return Err(InvalidInput);
      }
      var offset: nat := 0;
      ghost var start := Columns();
      WrittenNothing(start, batch);
      while offset < count
        invariant offset <= count && Valid() && rows == old(rows)
        invariant Progress(Columns(), start, batch, offset)
      {
        ghost var before := Columns();
        ghost var from := offset;
        offset := WriteSome(batch, offset, count);
        WrittenMore(Columns(), before, start, batch, from, offset);
      }
      WrittenAll(Columns(), start, batch);
      rows := rows + count;
      return Ok(());
    }

    /** Fills the pending rows up to a row group, and cuts it when it is full. */
    method WriteSome(batch: seq<seq<nat>>, offset: nat, count: nat) returns (next: nat)
      requires Valid() && |batch| == |columns| && offset < count
      requires forall j :: 0 <= j < |batch| ==> |batch[j]| == count && forall i :: 0 <= i < |batch[j]| ==> batch[j][i] <= U32_MAX
      modifies this`pending, this`groups
      ensures Valid() && offset < next <= count
      ensures forall j :: 0 <= j < |columns| ==> Column(j) == old(Column(j)) + Sign(batch[j][offset..next])
    {
      var take := Min(rowGroupRows - |pending[0]|, count - offset);
      next := offset + take;
      ghost var was, before := pending, groups;
      Extend(batch, offset, take);
      SignAppended(was, pending, batch, offset, next);
      if |pending[0]| == rowGroupRows {
        FlushRowGroup();
      }
      hide Sign, ColumnOf;
      forall j | 0 <= j < |columns| ensures Column(j) == ColumnOf(before, j) + Sign(was[j]) + Sign(batch[j][offset..next]) {
        Associate(ColumnOf(before, j), Sign(was[j]), Sign(batch[j][offset..next]));
      }
    }

    /** Cuts the last group. */
    method Finish() returns (payload: Payload, count: nat)
      requires Valid()
      modifies this
      ensures Valid() && payload.columns == columns && payload.groups == groups && ValidGroups(payload.groups, |columns|)
      ensures forall j :: 0 <= j < |columns| ==> ColumnOf(payload.groups, j) == old(Column(j))
      ensures count == old(rows)
    {
      FlushRowGroup();
      payload, count := Payload(columns, groups), rows;
    }
  }

  lemma SignConcat(a: seq<nat>, b: seq<nat>)
    requires (forall i :: 0 <= i < |a| ==> a[i] <= U32_MAX) && forall i :: 0 <= i < |b| ==> b[i] <= U32_MAX
    ensures (forall i :: 0 <= i < |a + b| ==> (a + b)[i] <= U32_MAX) && Sign(a + b) == Sign(a) + Sign(b)
  {
  }

  /** So many rows of the batch have been written to every column. */
  ghost predicate Progress(now: seq<seq<Signed>>, start: seq<seq<Signed>>, batch: seq<seq<nat>>, offset: nat) {
    && |now| == |start| == |batch|
    && forall j :: 0 <= j < |batch| ==> WroteTo(now[j], start[j], batch[j], offset)
  }

  ghost predicate WroteTo(now: seq<Signed>, start: seq<Signed>, column: seq<nat>, offset: nat) {
    && offset <= |column| && (forall i :: 0 <= i < |column| ==> column[i] <= U32_MAX)
    && now == start + Sign(column[..offset])
  }

  lemma WrittenNothing(start: seq<seq<Signed>>, batch: seq<seq<nat>>)
    requires |start| == |batch| && forall j :: 0 <= j < |batch| ==> forall i :: 0 <= i < |batch[j]| ==> batch[j][i] <= U32_MAX
    ensures Progress(start, start, batch, 0)
  {
    forall j | 0 <= j < |batch| ensures WroteTo(start[j], start[j], batch[j], 0) {
      assert start[j] == start[j] + Sign(batch[j][..0]);
    }
  }

  lemma WrittenMore(now: seq<seq<Signed>>, before: seq<seq<Signed>>, start: seq<seq<Signed>>, batch: seq<seq<nat>>, from: nat, to: nat)
    requires Progress(before, start, batch, from) && |now| == |batch| && from <= to
    requires forall j :: 0 <= j < |batch| ==> to <= |batch[j]| && forall i :: 0 <= i < |batch[j]| ==> batch[j][i] <= U32_MAX
    requires forall j :: 0 <= j < |batch| ==> now[j] == before[j] + Sign(batch[j][from..to])
    ensures Progress(now, start, batch, to)
  {
    hide Sign;
    forall j | 0 <= j < |batch| ensures WroteTo(now[j], start[j], batch[j], to) {
      assert WroteTo(before[j], start[j], batch[j], from);
      WroteMore(now[j], before[j], start[j], batch[j], from, to);
    }
  }

  lemma WroteMore(now: seq<Signed>, before: seq<Signed>, start: seq<Signed>, column: seq<nat>, from: nat, to: nat)
    requires WroteTo(before, start, column, from) && from <= to <= |column| && now == before + Sign(column[from..to])
    ensures WroteTo(now, start, column, to)
  {
    var a, b := column[..from], column[from..to];
    assert a + b == column[..to];
    SignConcat(a, b);
    hide Sign;
    Associate(start, Sign(a), Sign(b));
  }

  lemma Associate<T>(a: seq<T>, b: seq<T>, c: seq<T>)
    ensures a + b + c == a + (b + c)
  {
  }

  lemma WrittenAll(now: seq<seq<Signed>>, start: seq<seq<Signed>>, batch: seq<seq<nat>>)
    requires forall j :: 0 <= j < |batch| ==> |batch[j]| == |batch[0]|
    requires |batch| > 0 && Progress(now, start, batch, |batch[0]|)
    ensures |now| == |start| == |batch|
    ensures forall j :: 0 <= j < |batch| ==>
              (forall i :: 0 <= i < |batch[j]| ==> batch[j][i] <= U32_MAX) && now[j] == start[j] + Sign(batch[j])
  {
    forall j | 0 <= j < |batch| ensures (forall i :: 0 <= i < |batch[j]| ==> batch[j][i] <= U32_MAX) && now[j] == start[j] + Sign(batch[j]) {
      assert WroteTo(now[j], start[j], batch[j], |batch[0]|);
      assert batch[j][..|batch[0]|] == batch[j];
    }
  }

  lemma SignAppended(was: seq<seq<nat>>, now: seq<seq<nat>>, batch: seq<seq<nat>>, offset: nat, next: nat)
    requires |was| == |now| == |batch| && offset <= next
    requires forall j :: 0 <= j < |was| ==> forall i :: 0 <= i < |was[j]| ==> was[j][i] <= U32_MAX
    requires forall j :: 0 <= j < |batch| ==> next <= |batch[j]| && forall i :: 0 <= i < |batch[j]| ==> batch[j][i] <= U32_MAX
    requires forall j :: 0 <= j < |now| ==> now[j] == was[j] + batch[j][offset..next]
    ensures forall j :: 0 <= j < |now| ==>
              (forall i :: 0 <= i < |now[j]| ==> now[j][i] <= U32_MAX) && Sign(now[j]) == Sign(was[j]) + Sign(batch[j][offset..next])
  {
    forall j | 0 <= j < |now|
      ensures (forall i :: 0 <= i < |now[j]| ==> now[j][i] <= U32_MAX) && Sign(now[j]) == Sign(was[j]) + Sign(batch[j][offset..next])
    {
      SignConcat(was[j], batch[j][offset..next]);
    }
  }

  // -------------------------------------------------------------------------------- reading

  /** The position of a column in the sidecar. */
  function Position(columns: seq<nat>, c: nat): (p: Option<nat>)
    ensures p.Some? ==> p.value < |columns| && columns[p.value] == c
    ensures p.None? ==> c !in columns
  {
    if columns == [] then None
    else if columns[0] == c then Some(0)
    else
      var rest := Position(columns[1..], c);
      if rest.None? then None else Some(rest.value + 1)
  }

  /** A token of the sidecar, by column position and row. */
  ghost predicate IsToken(payload: Payload, p: nat, row: nat, token: nat) {
    row < |ColumnOf(payload.groups, p)| && token == Loaded(ColumnOf(payload.groups, p)[row])
  }

  /** The row at which each group starts, and the number of rows. */
  method GroupStarts(groups: seq<seq<seq<Signed>>>) returns (starts: seq<nat>, total: nat)
    ensures |starts| == |groups| && total == RowsBefore(groups)
    ensures forall g :: 0 <= g < |groups| ==> starts[g] == RowsBefore(groups[..g])
  {
    starts, total := [], 0;
    for g := 0 to |groups|
      invariant |starts| == g && total == RowsBefore(groups[..g])
      invariant forall k :: 0 <= k < g ==> starts[k] == RowsBefore(groups[..k])
    {
      assert groups[..g + 1][..g] == groups[..g];
      starts := starts + [total];
      total := total + if groups[g] == [] then 0 else |groups[g][0]|;
    }
    assert groups[..|groups|] == groups;
  }

  lemma {:induction false} StartsAscend(groups: seq<seq<seq<Signed>>>, a: nat, b: nat)
    requires a <= b <= |groups|
    ensures RowsBefore(groups[..a]) <= RowsBefore(groups[..b])
  {
    if a < b {
      StartsAscend(groups, a, b - 1);
      assert groups[..b][..b - 1] == groups[..b - 1];
    }
  }

  lemma SomeGroup(groups: seq<seq<seq<Signed>>>)
    ensures RowsBefore(groups) > 0 ==> groups != []
  {
  }

  /** The last group that starts at or before the row. */
  method GroupOf(starts: seq<nat>, row: nat, ghost groups: seq<seq<seq<Signed>>>) returns (g: nat)
    requires |starts| == |groups| && forall k :: 0 <= k < |groups| ==> starts[k] == RowsBefore(groups[..k])
    requires row < RowsBefore(groups)
    ensures g < |groups| && starts[g] <= row < starts[g] + GroupRows(groups[g])
  {
    var lo, hi := 0, |starts|;
    while lo < hi
      invariant 0 <= lo <= hi <= |starts|
      invariant forall k :: 0 <= k < lo ==> starts[k] <= row
      invariant forall k :: hi <= k < |starts| ==> row < starts[k]
    {
      var mid := lo + (hi - lo) / 2;
      if starts[mid] <= row {
        forall k | 0 <= k <= mid ensures starts[k] <= row {
          StartsAscend(groups, k, mid);
        }
        lo := mid + 1;
      } else {
        forall k | mid <= k < |starts| ensures row < starts[k] {
          StartsAscend(groups, mid, k);
        }
        hi := mid;
      }
    }
    assert groups[..|groups|] == groups;
    SomeGroup(groups);
    assert groups[..0] == [];
    assert starts[0] == 0;
    g := lo - 1;
    assert groups[..lo][..g] == groups[..g];
    assert RowsBefore(groups[..lo]) == starts[g] + GroupRows(groups[g]);
  }

  /** The positions of the requested columns. */
  method Positions(payload: Payload, columns: seq<nat>) returns (r: Result<seq<nat>>)
    ensures r.Ok? <==> forall k :: 0 <= k < |columns| ==> Position(payload.columns, columns[k]).Some?
    ensures r.Ok? ==> |r.value| == |columns| && forall k :: 0 <= k < |columns| ==> Position(payload.columns, columns[k]) == Some(r.value[k])
  {
    var out: seq<nat> := [];
    for k := 0 to |columns|
      invariant |out| == k && forall j :: 0 <= j < k ==> Position(payload.columns, columns[j]) == Some(out[j])
    {
      var p := Position(payload.columns, columns[k]);
      if p.None? {
        return Err(InvalidInput);
      }
      out := out + [p.value];
    }
    return Ok(out);
  }

  /** Where each requested row is: its group and its place in it. */
  ghost predicate Located(payload: Payload, rows: seq<nat>, places: seq<(nat, nat)>, n: nat) {
    && |places| == n <= |rows|
    && forall i :: 0 <= i < n ==> LocatedOne(payload, rows[i], places[i])
  }

  ghost predicate LocatedOne(payload: Payload, row: nat, place: (nat, nat)) {
    && place.0 < |payload.groups| && place.1 < GroupRows(payload.groups[place.0])
    && row == RowsBefore(payload.groups[..place.0]) + place.1
  }

  method Locate(payload: Payload, rows: seq<nat>) returns (r: Result<seq<(nat, nat)>>)
    ensures r.Ok? <==> forall i :: 0 <= i < |rows| ==> rows[i] < RowsBefore(payload.groups)
    ensures r.Ok? ==> Located(payload, rows, r.value, |rows|)
  {
    var starts, total := GroupStarts(payload.groups);
    var places: seq<(nat, nat)> := [];
    for i := 0 to |rows|
      invariant Located(payload, rows, places, i) && forall k :: 0 <= k < i ==> rows[k] < total
    {
      if rows[i] >= total {
        return Err(InvalidInput);
      }
      var g := GroupOf(starts, rows[i], payload.groups);
      assert LocatedOne(payload, rows[i], (g, rows[i] - starts[g]));
      places := places + [(g, rows[i] - starts[g])];
    }
    return Ok(places);
  }

  /** Requested rows and columns from the sidecar: group by group, each requested column of a group read
      once and its values put where they belong. Rows may come in any order, more than once. */
  method ReadTokenProjection(payload: Payload, rows: seq<nat>, columns: seq<nat>) returns (r: Result<seq<seq<nat>>>)
    requires ValidGroups(payload.groups, |payload.columns|)
    ensures r.Ok? <==>
              || rows == [] || columns == []
              || ((forall k :: 0 <= k < |columns| ==> Position(payload.columns, columns[k]).Some?)
                  && forall i :: 0 <= i < |rows| ==> rows[i] < RowsBefore(payload.groups))
    ensures r.Ok? ==>
              && |r.value| == |rows| && (forall i :: 0 <= i < |rows| ==> |r.value[i]| == |columns|)
              && forall i, k :: 0 <= i < |rows| && 0 <= k < |columns| ==>
                   && Position(payload.columns, columns[k]).Some?
                   && IsToken(payload, Position(payload.columns, columns[k]).value, rows[i], r.value[i][k])
  {
    if rows == [] {
      return Ok([]);
    }
    if columns == [] {
      return Ok(seq(|rows|, _ => []));
    }
    var positions := Positions(payload, columns);
    if positions.Err? {
      return Err(positions.error);
    }
    var places := Locate(payload, rows);
    if places.Err? {
      return Err(places.error);
    }
    var output: seq<seq<nat>> := seq(|rows|, _ => seq(|columns|, _ => 0));
    for g := 0 to |payload.groups|
      invariant Filled(payload, rows, positions.value, places.value, output, g)
    {
      output := FillGroup(payload, rows, positions.value, places.value, output, g);
    }
    AllFilled(payload, rows, positions.value, places.value, output);
    return Ok(output);
  }

  /** The rows of the groups before g are in place. */
  ghost predicate Filled(payload: Payload, rows: seq<nat>, positions: seq<nat>, places: seq<(nat, nat)>, output: seq<seq<nat>>, g: nat) {
    && |output| == |rows| == |places|
    && (forall i :: 0 <= i < |output| ==> |output[i]| == |positions|)
    && forall i, k :: 0 <= i < |output| && 0 <= k < |positions| && places[i].0 < g ==> IsToken(payload, positions[k], rows[i], output[i][k])
  }

  /** Reached in the walk over groups, then columns, then rows. */
  predicate Reached(group: nat, k: nat, j: nat, g: nat, slot: nat, i: nat) {
    group < g || (group == g && (k < slot || (k == slot && j < i)))
  }

  method FillGroup(payload: Payload, rows: seq<nat>, positions: seq<nat>, places: seq<(nat, nat)>, given: seq<seq<nat>>, g: nat)
    returns (output: seq<seq<nat>>)
    requires ValidGroups(payload.groups, |payload.columns|) && g < |payload.groups|
    requires forall k :: 0 <= k < |positions| ==> positions[k] < |payload.columns|
    requires Located(payload, rows, places, |rows|) && Filled(payload, rows, positions, places, given, g)
    ensures Filled(payload, rows, positions, places, output, g + 1)
  {
    output := given;
    for slot := 0 to |positions|
      invariant |output| == |rows| && forall i :: 0 <= i < |output| ==> |output[i]| == |positions|
      invariant forall i, k :: 0 <= i < |output| && 0 <= k < |positions| && Reached(places[i].0, k, 0, g, slot, 0) ==>
                  IsToken(payload, positions[k], rows[i], output[i][k])
    {
      hide IsToken;
      var values := payload.groups[g][positions[slot]];
      for i := 0 to |output|
        invariant |output| == |rows| && forall j :: 0 <= j < |output| ==> |output[j]| == |positions|
        invariant forall j, k :: 0 <= j < |output| && 0 <= k < |positions| && Reached(places[j].0, k, j, g, slot, i) ==>
                    IsToken(payload, positions[k], rows[j], output[j][k])
      {
        if places[i].0 == g {
          assert LocatedOne(payload, rows[i], places[i]);
          TokenRead(payload, positions[slot], rows[i], places[i]);
          output := output[i := output[i][slot := Loaded(values[places[i].1])]];
        }
      }
    }
  }

  lemma TokenRead(payload: Payload, p: nat, row: nat, place: (nat, nat))
    requires ValidGroups(payload.groups, |payload.columns|) && p < |payload.columns| && LocatedOne(payload, row, place)
    ensures p < |payload.groups[place.0]| && place.1 < |payload.groups[place.0][p]|
    ensures IsToken(payload, p, row, Loaded(payload.groups[place.0][p][place.1]))
  {
    assert ValidGroup(payload.groups[place.0], |payload.columns|);
    ColumnAt(payload.groups, |payload.columns|, p, place.0, place.1);
  }

  lemma AllFilled(payload: Payload, rows: seq<nat>, positions: seq<nat>, places: seq<(nat, nat)>, output: seq<seq<nat>>)
    requires Filled(payload, rows, positions, places, output, |payload.groups|) && Located(payload, rows, places, |rows|)
    ensures |output| == |rows| && forall i :: 0 <= i < |rows| ==> |output[i]| == |positions|
    ensures forall i, k :: 0 <= i < |rows| && 0 <= k < |positions| ==> IsToken(payload, positions[k], rows[i], output[i][k])
  {
    forall i, k | 0 <= i < |rows| && 0 <= k < |positions| ensures IsToken(payload, positions[k], rows[i], output[i][k]) {
      assert LocatedOne(payload, rows[i], places[i]);
    }
  }
}

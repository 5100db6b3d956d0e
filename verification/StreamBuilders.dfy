/** The streaming writer: however rows are batched, page-aligned segments that are the rows. */
module StreamBuilders {
  import opened Wrappers
  import opened Tables

  ghost predicate Aligned(segments: seq<Segment>, pageRows: nat)
    requires pageRows > 0
  {
    forall i :: 0 <= i < |segments| ==> |segments[i].rows| > 0 && |segments[i].rows| % pageRows == 0
  }

  /** As Aligned, except that the last segment may be short. */
  ghost predicate AlignedButLast(segments: seq<Segment>, pageRows: nat)
    requires pageRows > 0
  {
    forall i :: 0 <= i < |segments| ==> |segments[i].rows| > 0 && (i < |segments| - 1 ==> |segments[i].rows| % pageRows == 0)
  }

  class StreamBuilder {
    const pageRows: nat
    var carry: seq<seq<nat>>
    var segments: seq<Segment>
    var pageId: nat
    var rowStart: nat

    ghost predicate Valid()
      reads this
    {
      && pageRows > 0
      && Contiguous(segments, Concat(segments), pageRows, pageId)
      && rowStart == |Concat(segments)| && pageId <= U32_MAX
    }

    /** Between batches: what is cut is whole pages, what is carried is less than one. */
    ghost predicate Ready()
      reads this
    {
      Valid() && Aligned(segments, pageRows) && |carry| < pageRows
    }

    /** Every row pushed so far. */
    ghost function Written(): seq<seq<nat>>
      reads this
    {
      Concat(segments) + carry
    }

    constructor (rowsPerPage: nat)
      requires rowsPerPage > 0
      ensures Valid() && fresh(this) && pageRows == rowsPerPage
      ensures carry == [] && segments == [] && Written() == []
    {
      pageRows, carry, segments, pageId, rowStart := rowsPerPage, [], [], 0, 0;
    }

    /** Cuts a segment; refuses one that is neither final nor page-aligned, and page numbers past 32 bits. */
    method EmitSegment(data: seq<seq<nat>>, finalPartial: bool) returns (r: Result<()>)
      requires Valid()
      modifies this`segments, this`pageId, this`rowStart
      ensures r.Ok? <==> data == [] || ((finalPartial || |data| % pageRows == 0) && old(pageId) + PagesIn(|data|, pageRows) <= U32_MAX)
      ensures r.Ok? ==> Valid()
      ensures r.Ok? ==> segments == if data == [] then old(segments) else old(segments) + [Segment(old(pageId), old(rowStart), data)]
      ensures r.Ok? ==> Concat(segments) == old(Concat(segments)) + data
      ensures r.Ok? ==> pageId == old(pageId) + if data == [] then 0 else PagesIn(|data|, pageRows)
    {
      if data == [] {
        return Ok(());
      }
      if !finalPartial && |data| % pageRows != 0 {
        return Err(InvalidData);
      }
      var pages := PagesIn(|data|, pageRows);
      if pages > U32_MAX || pageId + pages > U32_MAX {
        return Err(InvalidInput);
      }
      ContiguousSnoc(segments, Concat(segments), pageRows, pageId, data);
      segments := segments + [Segment(pageId, rowStart, data)];
      pageId := pageId + pages;
      rowStart := rowStart + |data|;
      return Ok(());
    }

    /** Takes a batch; whole pages leave the carry as one segment. */
    method PushBatch(batch: seq<seq<nat>>) returns (r: Result<()>)
      requires Ready()
      modifies this
      ensures r.Ok? <==> FullPages(|old(Written()) + batch|, pageRows) <= U32_MAX
      ensures r.Ok? ==> Ready()
      ensures r.Ok? ==> Written() == old(Written()) + batch
    {
      hide Contiguous, Concat, PagesIn, WholeRows, Aligned;
      PagesCut(segments, Concat(segments), pageRows, pageId, carry + batch);
      assert Written() + batch == Concat(segments) + (carry + batch);
      if batch == [] {
        assert carry + batch == carry;
        WholePages(|carry|, pageRows);
        return Ok(());
      }
      carry := carry + batch;
      var full := WholeRows(|carry|, pageRows);
      WholePages(|carry|, pageRows);
      if full > 0 {
        var ready := carry[..full];
        AlignedSnoc(segments, pageRows, Segment(pageId, rowStart, ready));
        assert ready + carry[full..] == carry;
        carry := carry[full..];
        r := EmitSegment(ready, false);
        return;
      }
      return Ok(());
    }

    /** Flushes the carry and hands over the segments; an empty dataset is refused. */
    method Finish() returns (r: Result<(seq<Segment>, nat, nat)>)
      requires Ready()
      modifies this
      ensures r.Ok? <==> 0 < |old(Written())| && PagesIn(|old(Written())|, pageRows) <= U32_MAX
      ensures r.Ok? ==>
                && Concat(r.value.0) == old(Written()) && r.value.2 == |old(Written())|
                && Contiguous(r.value.0, old(Written()), pageRows, r.value.1)
                && AlignedButLast(r.value.0, pageRows)
    {
      PagesCut(segments, Concat(segments), pageRows, pageId, carry);
      PagesOfRest(|Concat(segments)|, |carry|, pageRows, pageId);
      if carry != [] {
        var ready := carry;
        carry := [];
        var emitted := EmitSegment(ready, true);
        if emitted.Err? {
          return Err(emitted.error);
        }
      }
      if rowStart == 0 {
        return Err(InvalidData);
      }
      return Ok((segments, pageId, rowStart));
    }
  }

  lemma ContiguousSnoc(segments: seq<Segment>, table: seq<seq<nat>>, pageRows: nat, pages: nat, data: seq<seq<nat>>)
    requires pageRows > 0 && Contiguous(segments, table, pageRows, pages) && table == Concat(segments)
    ensures var more := segments + [Segment(pages, |table|, data)];
            Contiguous(more, table + data, pageRows, pages + PagesIn(|data|, pageRows)) && Concat(more) == table + data
  {
    var more := segments + [Segment(pages, |table|, data)];
    assert more[..|more| - 1] == segments;
    assert (table + data)[..|table|] == table;
    assert (table + data)[|table|..] == data;
  }

  function FullPages(n: nat, pageRows: nat): nat
    requires pageRows > 0
  {
    n / pageRows
  }

  /** The rows that fill whole pages. */
  function WholeRows(n: nat, pageRows: nat): nat
    requires pageRows > 0
  {
    n / pageRows * pageRows
  }

  lemma AlignedSnoc(segments: seq<Segment>, pageRows: nat, s: Segment)
    requires pageRows > 0 && Aligned(segments, pageRows)
    ensures |s.rows| > 0 && |s.rows| % pageRows == 0 ==> Aligned(segments + [s], pageRows)
  {
  }

  lemma WholePages(n: nat, pageRows: nat)
    requires pageRows > 0
    ensures WholeRows(n, pageRows) <= n < WholeRows(n, pageRows) + pageRows
    ensures WholeRows(n, pageRows) % pageRows == 0
    ensures WholeRows(n, pageRows) == 0 <==> n < pageRows
    ensures PagesIn(WholeRows(n, pageRows), pageRows) == n / pageRows
    ensures n < pageRows ==> n / pageRows == 0
  {
    var q := n / pageRows;
    assert n == q * pageRows + n % pageRows;
    Quotient(q * pageRows, pageRows, q, 0);
    Quotient(q * pageRows + pageRows - 1, pageRows, q, pageRows - 1);
    if q > 0 {
      assert q * pageRows >= pageRows;
    }
  }

  /** Page-aligned segments fill whole pages, so rows after them start a page. */
  lemma PagesCut(segments: seq<Segment>, table: seq<seq<nat>>, pageRows: nat, pages: nat, carry: seq<seq<nat>>)
    requires pageRows > 0 && Contiguous(segments, table, pageRows, pages) && Aligned(segments, pageRows)
    ensures |table| == pages * pageRows
    ensures |table + carry| / pageRows == pages + |carry| / pageRows
  {
    WholeTable(segments, table, pageRows, pages);
    DivideRest(pages, |carry|, pageRows);
  }

  lemma {:induction false} WholeTable(segments: seq<Segment>, table: seq<seq<nat>>, pageRows: nat, pages: nat)
    requires pageRows > 0 && Contiguous(segments, table, pageRows, pages) && Aligned(segments, pageRows)
    ensures |table| == pages * pageRows
  {
    if segments != [] {
      var last := segments[|segments| - 1];
      WholeTable(segments[..|segments| - 1], table[..last.rowStart], pageRows, last.firstPage);
      hide Contiguous, Aligned;
      var k, p := PagesIn(|last.rows|, pageRows), last.firstPage;
      WholeSegment(|last.rows|, pageRows);
      assert (p + k) * pageRows == p * pageRows + k * pageRows;
    }
  }

  lemma WholeSegment(n: nat, pageRows: nat)
    requires pageRows > 0 && n % pageRows == 0
    ensures n == PagesIn(n, pageRows) * pageRows
  {
    var q := n / pageRows;
    assert n == q * pageRows;
    WholePages(n, pageRows);
  }

  lemma DivideRest(pages: nat, rest: nat, pageRows: nat)
    requires pageRows > 0
    ensures (pages * pageRows + rest) / pageRows == pages + rest / pageRows
  {
    var q := rest / pageRows;
    assert rest == q * pageRows + rest % pageRows;
    assert (pages + q) * pageRows == pages * pageRows + q * pageRows;
    Quotient(pages * pageRows + rest, pageRows, pages + q, rest % pageRows);
  }

  lemma PagesOfRest(n: nat, rest: nat, pageRows: nat, pages: nat)
    requires pageRows > 0 && n == pages * pageRows && rest < pageRows
    ensures PagesIn(n + rest, pageRows) == pages + if rest == 0 then 0 else 1
    ensures PagesIn(rest, pageRows) == if rest == 0 then 0 else 1
  {
    if rest == 0 {
      Quotient(n + pageRows - 1, pageRows, pages, pageRows - 1);
      Quotient(pageRows - 1, pageRows, 0, pageRows - 1);
    } else {
      assert (pages + 1) * pageRows == pages * pageRows + pageRows;
      Quotient(n + rest + pageRows - 1, pageRows, pages + 1, rest - 1);
      Quotient(rest + pageRows - 1, pageRows, 1, rest - 1);
    }
  }

  // ------------------------------------------------------------------------------ verification

  /** The structural check of a dataset's segments: row and page numbers run on without a gap. */
  method VerifySegments(segments: seq<Segment>, pageRows: nat, rows: nat, pages: nat) returns (errors: nat)
    requires pageRows > 0
    ensures errors == 0 <==> |Concat(segments)| == rows && Contiguous(segments, Concat(segments), pageRows, pages)
  {
    var expectedRow: nat, expectedPage: nat := 0, 0;
    errors := 0;
    for i := 0 to |segments|
      invariant expectedRow == |Concat(segments[..i])| && expectedPage == PageCount(segments[..i], pageRows)
      invariant errors == 0 <==> Contiguous(segments[..i], Concat(segments[..i]), pageRows, PageCount(segments[..i], pageRows))
    {
      VerifyStep(segments, pageRows, i);
      if segments[i].rowStart != expectedRow {
        errors := errors + 1;
      }
      if segments[i].firstPage != expectedPage {
        errors := errors + 1;
      }
      expectedRow := expectedRow + |segments[i].rows|;
      expectedPage := expectedPage + if |segments[i].rows| == 0 then 0 else PagesIn(|segments[i].rows|, pageRows);
    }
    assert segments[..|segments|] == segments;
    PagesDetermined(segments, Concat(segments), pageRows, pages);
    if expectedRow != rows {
      errors := errors + 1;
    }
    if expectedPage != pages {
      errors := errors + 1;
    }
  }

  ghost function PageCount(segments: seq<Segment>, pageRows: nat): nat
    requires pageRows > 0
  {
    if segments == [] then 0
    else PageCount(segments[..|segments| - 1], pageRows) + PagesIn(|segments[|segments| - 1].rows|, pageRows)
  }

  lemma {:induction false} PagesDetermined(segments: seq<Segment>, table: seq<seq<nat>>, pageRows: nat, pages: nat)
    requires pageRows > 0
    ensures Contiguous(segments, table, pageRows, pages) ==> pages == PageCount(segments, pageRows)
  {
    if segments != [] && Contiguous(segments, table, pageRows, pages) {
      var last := segments[|segments| - 1];
      PagesDetermined(segments[..|segments| - 1], table[..last.rowStart], pageRows, last.firstPage);
    }
  }

  lemma VerifyStep(segments: seq<Segment>, pageRows: nat, i: nat)
    requires pageRows > 0 && i < |segments|
    ensures var before, after, s := segments[..i], segments[..i + 1], segments[i];
            && |Concat(after)| == |Concat(before)| + |s.rows|
            && PageCount(after, pageRows) == PageCount(before, pageRows) + PagesIn(|s.rows|, pageRows)
            && PagesIn(0, pageRows) == 0
            && (Contiguous(after, Concat(after), pageRows, PageCount(after, pageRows)) <==>
                  && s.rowStart == |Concat(before)| && s.firstPage == PageCount(before, pageRows)
                  && Contiguous(before, Concat(before), pageRows, PageCount(before, pageRows)))
  {
    var before, after, s := segments[..i], segments[..i + 1], segments[i];
    assert after[..|after| - 1] == before;
    assert Concat(after) == Concat(before) + s.rows;
    assert Concat(after)[..|Concat(before)|] == Concat(before);
    assert Concat(after)[|Concat(before)|..] == s.rows;
    PagesDetermined(before, Concat(before), pageRows, s.firstPage);
  }
}

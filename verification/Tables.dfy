/** The canonical token table, cut into segments and pages, and what it means for a row to match. */
module Tables {
  import opened Wrappers

  datatype Predicate = Predicate(column: nat, value: nat)

  datatype Segment = Segment(firstPage: nat, rowStart: nat, rows: seq<seq<nat>>)

  function PagesIn(rows: nat, pageRows: nat): nat
    requires pageRows > 0
  {
    (rows + pageRows - 1) / pageRows
  }

  /** As few pages as hold the rows. */
  lemma PagesHold(rows: nat, pageRows: nat)
    requires pageRows > 0
    ensures rows <= PagesIn(rows, pageRows) * pageRows
    ensures PagesIn(rows, pageRows) > 0 ==> (PagesIn(rows, pageRows) - 1) * pageRows < rows
  {
    var p := PagesIn(rows, pageRows);
    assert rows + pageRows - 1 == p * pageRows + (rows + pageRows - 1) % pageRows;
    assert p > 0 ==> (p - 1) * pageRows == p * pageRows - pageRows;
  }

  lemma Quotient(x: nat, n: nat, q: nat, r: nat)
    requires n > 0 && r < n && x == q * n + r
    ensures x / n == q && x % n == r
  {
    var p := x / n;
    assert x == p * n + x % n;
    ProductOrder(p + 1, q, n);
    ProductOrder(q + 1, p, n);
    assert (p + 1) * n == p * n + n && (q + 1) * n == q * n + n;
  }

  ghost function Concat(segments: seq<Segment>): seq<seq<nat>> {
    if segments == [] then [] else Concat(segments[..|segments| - 1]) + segments[|segments| - 1].rows
  }

  /** Segments laid end to end: rows and pages are contiguous from zero. */
  ghost predicate Contiguous(segments: seq<Segment>, table: seq<seq<nat>>, pageRows: nat, pages: nat)
    requires pageRows > 0
  {
    if segments == [] then table == [] && pages == 0
    else
      var rest, last := segments[..|segments| - 1], segments[|segments| - 1];
      && last.rowStart + |last.rows| == |table|
      && table[last.rowStart..] == last.rows
      && last.firstPage + PagesIn(|last.rows|, pageRows) == pages
      && Contiguous(rest, table[..last.rowStart], pageRows, last.firstPage)
  }

  lemma {:induction false} SegmentRows(segments: seq<Segment>, table: seq<seq<nat>>, pageRows: nat, pages: nat, i: nat)
    requires pageRows > 0 && Contiguous(segments, table, pageRows, pages) && i < |segments|
    ensures segments[i].rowStart + |segments[i].rows| <= |table|
    ensures segments[i].rows == table[segments[i].rowStart..segments[i].rowStart + |segments[i].rows|]
    ensures segments[i].firstPage + PagesIn(|segments[i].rows|, pageRows) <= pages
    ensures segments[i].rowStart == if i == 0 then 0 else segments[i - 1].rowStart + |segments[i - 1].rows|
    ensures segments[i].firstPage ==
            if i == 0 then 0 else segments[i - 1].firstPage + PagesIn(|segments[i - 1].rows|, pageRows)
  {
    var n := |segments| - 1;
    var rest, last := segments[..n], segments[n];
    if i < n {
      SegmentRows(rest, table[..last.rowStart], pageRows, last.firstPage, i);
    } else if n > 0 {
      assert rest[n - 1] == segments[n - 1];
    }
  }

  ghost function Boundary(segments: seq<Segment>, i: nat): nat
    requires i <= |segments|
  {
    if i == 0 then 0 else segments[i - 1].rowStart + |segments[i - 1].rows|
  }

  /** The page of each row. */
  ghost function PageOf(segments: seq<Segment>, pageRows: nat): seq<nat>
    requires pageRows > 0
  {
    if segments == [] then []
    else
      var last := segments[|segments| - 1];
      PageOf(segments[..|segments| - 1], pageRows) + SegmentPages(last, pageRows)
  }

  ghost function SegmentPages(s: Segment, pageRows: nat): (pages: seq<nat>)
    requires pageRows > 0
    ensures |pages| == |s.rows| && forall r :: 0 <= r < |pages| ==> pages[r] == s.firstPage + r / pageRows
  {
    seq<nat>(|s.rows|, r requires 0 <= r && pageRows > 0 => s.firstPage + r / pageRows)
  }

  lemma {:induction false} PageOfRow(segments: seq<Segment>, table: seq<seq<nat>>, pageRows: nat, pages: nat, i: nat, r: nat)
    requires pageRows > 0 && Contiguous(segments, table, pageRows, pages)
    requires i < |segments| && r < |segments[i].rows|
    ensures |PageOf(segments, pageRows)| == |table|
    ensures segments[i].rowStart + r < |table|
    ensures PageOf(segments, pageRows)[segments[i].rowStart + r] == segments[i].firstPage + r / pageRows
  {
    SegmentRows(segments, table, pageRows, pages, i);
    var n := |segments| - 1;
    var rest, last := segments[..n], segments[n];
    PageOfLength(rest, table[..last.rowStart], pageRows, last.firstPage);
    if i < n {
      SegmentRows(rest, table[..last.rowStart], pageRows, last.firstPage, i);
      PageOfRow(rest, table[..last.rowStart], pageRows, last.firstPage, i, r);
    }
  }

  lemma {:induction false} PageOfLength(segments: seq<Segment>, table: seq<seq<nat>>, pageRows: nat, pages: nat)
    requires pageRows > 0 && Contiguous(segments, table, pageRows, pages)
    ensures |PageOf(segments, pageRows)| == |table|
  {
    if segments != [] {
      var last := segments[|segments| - 1];
      PageOfLength(segments[..|segments| - 1], table[..last.rowStart], pageRows, last.firstPage);
    }
  }

  lemma PageBetween(local: nat, pageRows: nat, p: nat, q: nat)
    requires pageRows > 0 && p * pageRows <= local < q * pageRows
    ensures p <= local / pageRows < q
  {
    var d := local / pageRows;
    assert local == d * pageRows + local % pageRows;
    ProductOrder(d + 1, p, pageRows);
    ProductOrder(q, d, pageRows);
    assert (d + 1) * pageRows == d * pageRows + pageRows;
  }

  lemma {:induction false} PageOfBound(segments: seq<Segment>, table: seq<seq<nat>>, pageRows: nat, pages: nat, r: nat)
    requires pageRows > 0 && Contiguous(segments, table, pageRows, pages) && r < |table|
    ensures |PageOf(segments, pageRows)| == |table| && PageOf(segments, pageRows)[r] < pages
  {
    PageOfLength(segments, table, pageRows, pages);
    var last := segments[|segments| - 1];
    var rest := segments[..|segments| - 1];
    PageOfLength(rest, table[..last.rowStart], pageRows, last.firstPage);
    if r < last.rowStart {
      PageOfBound(rest, table[..last.rowStart], pageRows, last.firstPage, r);
    } else {
      PageWithin(r - last.rowStart, |last.rows|, pageRows);
    }
  }

  lemma PageWithin(local: nat, rows: nat, pageRows: nat)
    requires pageRows > 0 && local < rows
    ensures local / pageRows < PagesIn(rows, pageRows)
  {
    QuotientBelow(local + pageRows, rows + pageRows - 1, pageRows);
    assert (local + pageRows) / pageRows == local / pageRows + 1 by { AddOne(local, pageRows); }
  }

  lemma AddOne(x: nat, n: nat)
    requires n > 0
    ensures (x + n) / n == x / n + 1
  {
    var q := x / n;
    assert x == q * n + x % n;
    assert x + n == (q + 1) * n + x % n;
    Quotient(x + n, n, q + 1, x % n);
  }

  lemma QuotientBelow(x: nat, y: nat, n: nat)
    requires n > 0 && x <= y
    ensures x / n <= y / n
  {
    var p, q := x / n, y / n;
    ProductOrder(q + 1, p, n);
    assert (q + 1) * n == q * n + n;
  }

  // --------------------------------------------------------------------------------- matching

  predicate RowMatches(row: seq<nat>, predicates: seq<Predicate>) {
    forall i :: 0 <= i < |predicates| ==>
      predicates[i].column < |row| && row[predicates[i].column] == predicates[i].value
  }

  /** The rows a predicate list selects, by a plain scan. */
  ghost function Matches(table: seq<seq<nat>>, predicates: seq<Predicate>): set<nat> {
    set r | 0 <= r < |table| && RowMatches(table[r], predicates)
  }

  /** The rows that agree with a query on some columns. */
  ghost function Agree(table: seq<seq<nat>>, columns: set<nat>, query: map<nat, nat>): set<nat>
    requires columns <= query.Keys
  {
    set r | 0 <= r < |table| && forall c :: c in columns ==> c < |table[r]| && table[r][c] == query[c]
  }
}

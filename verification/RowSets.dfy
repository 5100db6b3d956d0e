/** Ascending row lists, described by the sets they hold: `Lists` ties the two and determines the list. */
module RowSets {
  import opened Wrappers

  ghost predicate Increasing(s: seq<nat>) {
    forall i, j :: 0 <= i < j < |s| ==> s[i] < s[j]
  }

  /** s is the ascending enumeration of S. */
  ghost predicate Lists(s: seq<nat>, S: set<nat>) {
    && Increasing(s)
    && (forall x :: x in s <==> x in S)
  }

  ghost function Below(S: set<nat>, bound: nat): set<nat> {
    set x | x in S && x < bound
  }

  ghost function From(S: set<nat>, first: nat): set<nat> {
    set x | x in S && first <= x
  }

  predicate Past(cursor: Option<nat>, id: nat) {
    cursor.None? || cursor.value < id
  }

  /** From position `at` on, an ascending list is past the cursor. */
  ghost predicate Starts(ids: seq<nat>, cursor: Option<nat>, at: nat) {
    forall i :: 0 <= i < |ids| ==> (at <= i <==> Past(cursor, ids[i]))
  }

  /** The members past a cursor; every member when there is no cursor. */
  ghost function After(S: set<nat>, cursor: Option<nat>): set<nat> {
    set x | x in S && (cursor.None? || cursor.value < x)
  }

  /** The n smallest members of S. */
  ghost function Top(S: set<nat>, n: nat): set<nat> {
    set x | x in S && |Below(S, x)| < n
  }

  predicate Within(x: nat, first: nat, k: nat) { first <= x < first + k }

  /** The k numbers from `first` on. */
  ghost function Span(first: nat, k: nat): set<nat> {
    set x: nat | x < first + k && Within(x, first, k)
  }

  lemma SpanNext(first: nat, k: nat)
    ensures Span(first, k + 1) == Span(first, k) + {first + k}
  {
  }

  lemma {:induction false} SpanSize(first: nat, n: nat)
    ensures |Span(first, n)| == n
  {
    if n > 0 {
      SpanSize(first, n - 1);
      SpanNext(first, n - 1);
    }
  }

  lemma SubsetSize<T>(A: set<T>, B: set<T>)
    requires A <= B
    ensures |A| <= |B|
    ensures |A| == |B| ==> A == B
  {
    assert B == A + (B - A);
    assert |B| == |A| + |B - A|;
  }

  lemma {:induction false} ListsSize(s: seq<nat>, S: set<nat>)
    requires Lists(s, S)
    ensures |s| == |S|
  {
    if s == [] {
      assert S == {};
    } else {
      var last := s[|s| - 1];
      var rest := s[..|s| - 1];
      assert s == rest + [last];
      assert last !in rest;
      forall x ensures x in rest <==> x in S - {last} {
      }
      ListsSize(rest, S - {last});
    }
  }

  /** The i-th element of an ascending list has exactly i members below it. */
  lemma RankOfElement(s: seq<nat>, S: set<nat>, i: nat)
    requires Lists(s, S) && i < |s|
    ensures s[i] in S
    ensures Lists(s[..i], Below(S, s[i]))
    ensures |Below(S, s[i])| == i
  {
    var head, B := s[..i], Below(S, s[i]);
    forall x ensures x in head <==> x in B {
      if x in B {
        var k :| 0 <= k < |s| && s[k] == x;
        assert k < i;
        assert head[k] == x;
      }
    }
    ListsSize(head, B);
  }

  /** Members are told apart by how many members lie below them. */
  lemma RankStrict(S: set<nat>, x: nat, y: nat)
    requires x in S && x < y
    ensures |Below(S, x)| < |Below(S, y)|
  {
    SubsetSize(Below(S, x) + {x}, Below(S, y));
  }

  /** A set has one ascending enumeration. */
  lemma ListsUnique(s: seq<nat>, t: seq<nat>, S: set<nat>)
    requires Lists(s, S) && Lists(t, S)
    ensures s == t
  {
    ListsSize(s, S);
    ListsSize(t, S);
    forall i | 0 <= i < |s| ensures s[i] == t[i] {
      RankOfElement(s, S, i);
      RankOfElement(t, S, i);
      var x, y := s[i], t[i];
      if x < y {
        RankStrict(S, x, y);
      } else if y < x {
        RankStrict(S, y, x);
      }
    }
  }

  /** Truncating an ascending list keeps the smallest members. */
  lemma TakeListsTop(s: seq<nat>, S: set<nat>, n: nat)
    requires Lists(s, S)
    ensures Lists(s[..Min(n, |s|)], Top(S, n))
  {
    var t := s[..Min(n, |s|)];
    forall x ensures x in t <==> x in Top(S, n) {
      if x in S {
        var i :| 0 <= i < |s| && s[i] == x;
        RankOfElement(s, S, i);
        if i < |t| {
          assert t[i] == x;
        }
      }
    }
  }

  /** From the first member at or above a bound on, an ascending list lists the members at or above it. */
  lemma SuffixFrom(rows: seq<nat>, C: set<nat>, start: nat, first: nat)
    requires Lists(rows, C) && start <= |rows|
    requires forall i :: 0 <= i < start ==> rows[i] < first
    requires forall i :: start <= i < |rows| ==> first <= rows[i]
    ensures Lists(rows[start..], From(C, first))
  {
    forall x: nat ensures x in rows[start..] <==> x in From(C, first) {
      if x in From(C, first) {
        var i :| 0 <= i < |rows| && rows[i] == x;
        assert rows[start..][i - start] == x;
      }
    }
  }

  /** Every finite set of row IDs has an ascending enumeration. */
  lemma {:induction false} Enumerable(S: set<nat>) returns (s: seq<nat>)
    ensures Lists(s, S)
  {
    if S == {} {
      s := [];
    } else {
      var m := MaxOf(S);
      var rest := Enumerable(S - {m});
      ListsSnoc(rest, S - {m}, m);
      assert S == S - {m} + {m};
      s := rest + [m];
    }
  }

  lemma {:induction false} MaxOf(S: set<nat>) returns (m: nat)
    requires S != {}
    ensures m in S && forall x :: x in S ==> x <= m
  {
    var x :| x in S;
    if S == {x} {
      m := x;
    } else {
      assert S == {x} + (S - {x});
      var rest := MaxOf(S - {x});
      m := if x > rest then x else rest;
    }
  }

  /** No member left out is smaller than one taken. */
  lemma TopLeast(S: set<nat>, n: nat)
    ensures Top(S, n) <= S && forall x, y :: x in Top(S, n) && y in S && y !in Top(S, n) ==> x < y
  {
    forall x, y | x in Top(S, n) && y in S && y !in Top(S, n) ensures x < y {
      if y <= x {
        SubsetSize(Below(S, y), Below(S, x));
      }
    }
  }

  lemma TopSize(S: set<nat>, n: nat)
    ensures |Top(S, n)| == Min(n, |S|)
    ensures |S| <= n ==> Top(S, n) == S
  {
    var s := Enumerable(S);
    ListsSize(s, S);
    TakeListsTop(s, S, n);
    ListsSize(s[..Min(n, |s|)], Top(S, n));
    if |S| <= n {
      assert Top(S, n) <= S;
      SubsetSize(Top(S, n), S);
    }
  }

  /** Any set between the n smallest members and the whole has the same n smallest members. */
  lemma TopSandwich(S: set<nat>, W: set<nat>, n: nat)
    requires Top(S, n) <= W <= S
    ensures Top(W, n) == Top(S, n)
  {
    forall x | x in Top(S, n) ensures x in Top(W, n) {
      SubsetSize(Below(W, x), Below(S, x));
    }
    TopSize(W, n);
    TopSize(S, n);
    SubsetSize(W, S);
    SubsetSize(Top(S, n), Top(W, n));
  }

  /** Reading on past a prefix: if fewer than n members lie below `cut`, the n smallest are those
      and the smallest of the rest. */
  lemma TopSplit(S: set<nat>, n: nat, cut: nat)
    requires |Below(S, cut)| <= n
    ensures Top(S, n) == Below(S, cut) + Top(From(S, cut), n - |Below(S, cut)|)
  {
    var head, tail := Below(S, cut), From(S, cut);
    forall x ensures x in Top(S, n) <==> x in head + Top(tail, n - |head|) {
      if x in head {
        SubsetSize(Below(S, x) + {x}, head);
      } else if x in tail {
        assert Below(S, x) == head + Below(tail, x);
        assert head !! Below(tail, x);
      }
    }
  }

  /** Appending a larger block to a list. */
  lemma ListsConcat(s: seq<nat>, S: set<nat>, t: seq<nat>, T: set<nat>)
    requires Lists(s, S) && Lists(t, T)
    requires forall x, y :: x in S && y in T ==> x < y
    ensures Lists(s + t, S + T)
  {
    var u := s + t;
    forall i, j | 0 <= i < j < |u| ensures u[i] < u[j] {
      if i < |s| <= j {
        assert s[i] in S && t[j - |s|] in T;
      }
    }
  }

  lemma ListsSnoc(s: seq<nat>, S: set<nat>, x: nat)
    requires Lists(s, S)
    requires forall y :: y in S ==> y < x
    ensures Lists(s + [x], S + {x})
  {
    assert Lists([x], {x});
    ListsConcat(s, S, [x], {x});
  }

  /** The members of a set in order, as an ordered container iterates them. */
  method Enumerate(S: set<nat>) returns (s: seq<nat>)
    ensures Lists(s, S)
  {
    s := [];
    var left := S;
    while left != {}
      invariant left <= S && Lists(s, S - left)
      invariant forall x, y :: x in S - left && y in left ==> x < y
      decreases |left|
    {
      var least := Least(left);
      ListsSnoc(s, S - left, least);
      assert S - (left - {least}) == (S - left) + {least};
      s := s + [least];
      left := left - {least};
    }
    assert S - left == S;
  }

  method Least(S: set<nat>) returns (least: nat)
    requires S != {}
    ensures least in S && forall x :: x in S ==> least <= x
  {
    least :| least in S;
    var rest := S - {least};
    while rest != {}
      invariant rest <= S && least in S
      invariant forall x :: x in S && x !in rest ==> least <= x
      decreases |rest|
    {
      var x :| x in rest;
      if x < least {
        least := x;
      }
      rest := rest - {x};
    }
  }
}

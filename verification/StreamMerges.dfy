/** What merging ascending streams gives when a member may be in several of them, and how a page cut from
    such a merge compares with the page that was wanted. */
module StreamMerges {
  import opened RowSets

  ghost predicate InSome(streams: seq<set<nat>>, x: nat) {
    exists s :: 0 <= s < |streams| && x in streams[s]
  }

  ghost predicate Shared(streams: seq<set<nat>>, x: nat) {
    exists s, t :: 0 <= s < t < |streams| && x in streams[s] && x in streams[t]
  }

  ghost predicate Rising(ids: seq<nat>) {
    forall i, j :: 0 <= i < j < |ids| ==> ids[i] <= ids[j]
  }

  /** A page of the merge: members of the streams in order, only shared ones repeated, and none left out
      but past the end of a full page. */
  ghost predicate Merges(ids: seq<nat>, streams: seq<set<nat>>, limit: nat) {
    && |ids| <= limit && Rising(ids)
    && (forall i :: 0 <= i < |ids| ==> InSome(streams, ids[i]))
    && (forall i, j :: 0 <= i < j < |ids| && ids[i] == ids[j] ==> Shared(streams, ids[i]))
    && (forall x :: InSome(streams, x) ==> x in ids || (|ids| == limit && AllUpTo(ids, x)))
  }

  ghost predicate AllUpTo(ids: seq<nat>, x: nat) {
    forall i :: 0 <= i < |ids| ==> ids[i] <= x
  }

  // ---------------------------------------------------------------------------------- reading

  /** Between two reads: stream s has been read below pos[s], `from` says which stream each row came from,
      and nothing unread is below what has been read. */
  ghost predicate Reading(ids: seq<nat>, from: seq<nat>, streams: seq<set<nat>>, pos: seq<nat>) {
    && |from| == |ids| && |pos| == |streams| && Rising(ids)
    && (forall i :: 0 <= i < |ids| ==> from[i] < |streams| && ids[i] in streams[from[i]] && ids[i] < pos[from[i]])
    && (forall i, j :: 0 <= i < j < |ids| && ids[i] == ids[j] ==> from[i] != from[j])
    && (forall s, x :: 0 <= s < |streams| && x in streams[s] ==> if x < pos[s] then x in ids else AllUpTo(ids, x))
  }

  lemma ReadNothing(streams: seq<set<nat>>, pos: seq<nat>)
    requires |pos| == |streams| && forall s :: 0 <= s < |pos| ==> pos[s] == 0
    ensures Reading([], [], streams, pos)
  {
  }

  /** Reading the least unread row, from one of the streams that have it. */
  lemma ReadNext(ids: seq<nat>, from: seq<nat>, streams: seq<set<nat>>, pos: seq<nat>, id: nat, s: nat)
    requires Reading(ids, from, streams, pos) && s < |streams| && id in streams[s] && pos[s] <= id
    requires forall t, x :: 0 <= t < |streams| && x in From(streams[t], pos[t]) ==> id <= x
    ensures Reading(ids + [id], from + [s], streams, pos[s := id + 1])
  {
    var more, after := ids + [id], pos[s := id + 1];
    assert AllUpTo(ids, id);
    forall t, x | 0 <= t < |streams| && x in streams[t]
      ensures if x < after[t] then x in more else AllUpTo(more, x)
    {
      if pos[t] <= x {
        assert x in From(streams[t], pos[t]);
        assert AllUpTo(ids, x);
      } else {
        assert x in ids;
      }
    }
  }

  /** Reading stops when nothing is left or the page is full. */
  lemma ReadDone(ids: seq<nat>, from: seq<nat>, streams: seq<set<nat>>, pos: seq<nat>, limit: nat)
    requires Reading(ids, from, streams, pos) && |ids| <= limit
    requires |ids| == limit || forall s :: 0 <= s < |streams| ==> From(streams[s], pos[s]) == {}
    ensures Merges(ids, streams, limit)
  {
    forall i, j | 0 <= i < j < |ids| && ids[i] == ids[j] ensures Shared(streams, ids[i]) {
      var s, t := if from[i] < from[j] then from[i] else from[j], if from[i] < from[j] then from[j] else from[i];
      assert 0 <= s < t < |streams| && ids[i] in streams[s] && ids[i] in streams[t];
    }
    forall x | InSome(streams, x) ensures x in ids || (|ids| == limit && AllUpTo(ids, x)) {
      var s :| 0 <= s < |streams| && x in streams[s];
      if pos[s] <= x {
        assert x in From(streams[s], pos[s]);
      }
    }
  }

  // ------------------------------------------------------------------------- the page wanted

  ghost predicate UnionOf(A: set<nat>, streams: seq<set<nat>>) {
    forall x :: x in A <==> InSome(streams, x)
  }

  /** The streams hold what is wanted, save for the troubled members: of these they hold exactly the
      unwanted ones, and no other member is shared. */
  ghost predicate Troubles(A: set<nat>, streams: seq<set<nat>>, S: set<nat>, T: set<nat>) {
    && UnionOf(A, streams)
    && (forall x :: x !in T ==> (x in A <==> x in S) && !Shared(streams, x))
    && (forall x :: x in T ==> (x in A <==> x !in S))
  }

  /** A list is spoilt by a troubled member that should have been on the page, or that came before its end:
      an unwanted one is there, or a wanted one is not and never will be. */
  ghost predicate Spoils(x: nat, ids: seq<nat>, S: set<nat>, T: set<nat>, limit: nat) {
    && x in T && x in Top(S + T, limit)
    && if x in S then x !in ids && (|ids| < limit || (ids != [] && x < ids[|ids| - 1])) else x in ids
  }

  ghost predicate Spoilt(ids: seq<nat>, S: set<nat>, T: set<nat>, limit: nat) {
    exists x :: Spoils(x, ids, S, T, limit)
  }

  /** Without a troubled member on it, the page is the wanted one. */
  lemma CleanPage(ids: seq<nat>, streams: seq<set<nat>>, limit: nat, A: set<nat>, S: set<nat>, T: set<nat>)
    requires Merges(ids, streams, limit) && Troubles(A, streams, S, T) && Top(S + T, limit) !! T
    ensures Lists(ids, Top(S + T, limit)) && Top(S, limit) == Top(S + T, limit)
  {
    var P := Top(S + T, limit);
    assert P <= S <= S + T;
    TopSandwich(S + T, S, limit);
    assert P <= A <= S + T;
    TopSandwich(S + T, A, limit);
    assert Top(A, limit) == P;
    MergedPage(ids, streams, limit, A);
  }

  /** Where the page of the union has no shared member, the merge is that page. */
  lemma MergedPage(ids: seq<nat>, streams: seq<set<nat>>, limit: nat, A: set<nat>)
    requires Merges(ids, streams, limit) && UnionOf(A, streams)
    requires forall x :: x in Top(A, limit) ==> !Shared(streams, x)
    ensures Lists(ids, Top(A, limit))
  {
    var P := Top(A, limit);
    TopSize(A, limit);
    forall x | x in P ensures x in ids {
      if x !in ids {
        MissedRow(ids, streams, limit, A, x);
      }
    }
    forall i | 0 <= i < |ids| ensures ids[i] in P {
      if ids[i] !in P {
        ExtraRow(ids, streams, limit, A, i);
      }
    }
  }

  /** A full page that ends before a member of the wanted page would hold too many rows below it. */
  lemma MissedRow(ids: seq<nat>, streams: seq<set<nat>>, limit: nat, A: set<nat>, x: nat)
    requires Merges(ids, streams, limit) && UnionOf(A, streams) && x in Top(A, limit)
    requires forall y :: y in Top(A, limit) ==> !Shared(streams, y)
    ensures x in ids
  {
    if x !in ids {
      assert AllUpTo(ids, x);
      forall i | 0 <= i < |ids| ensures ids[i] in RowSets.Below(A, x) && !Shared(streams, ids[i]) {
        SubsetSize(RowSets.Below(A, ids[i]), RowSets.Below(A, x));
      }
      DistinctWithin(ids, RowSets.Below(A, x));
    }
  }

  /** A row past the wanted page on a page would make it too long. */
  lemma ExtraRow(ids: seq<nat>, streams: seq<set<nat>>, limit: nat, A: set<nat>, i: nat)
    requires Merges(ids, streams, limit) && UnionOf(A, streams) && i < |ids|
    requires forall x :: x in Top(A, limit) ==> x in ids
    ensures ids[i] in Top(A, limit)
  {
    var P := Top(A, limit);
    TopSize(A, limit);
    if ids[i] !in P {
      var members := set k | 0 <= k < |ids| :: ids[k];
      SubsetSize(P + {ids[i]}, members);
      MembersSize(ids);
    }
  }

  lemma {:induction false} MembersSize(ids: seq<nat>)
    ensures |set k | 0 <= k < |ids| :: ids[k]| <= |ids|
  {
    if ids != [] {
      var rest, last := ids[..|ids| - 1], ids[|ids| - 1];
      MembersSize(rest);
      var R := set k | 0 <= k < |rest| :: rest[k];
      assert (set k | 0 <= k < |ids| :: ids[k]) == R + {last};
    }
  }

  lemma {:induction false} DistinctWithin(ids: seq<nat>, S: set<nat>)
    requires forall i :: 0 <= i < |ids| ==> ids[i] in S
    requires forall i, j :: 0 <= i < j < |ids| ==> ids[i] != ids[j]
    ensures |ids| <= |S|
  {
    if ids != [] {
      var rest, last := ids[..|ids| - 1], ids[|ids| - 1];
      DistinctWithin(rest, S - {last});
    }
  }

  lemma {:induction false} LeastOf(S: set<nat>) returns (m: nat)
    requires S != {}
    ensures m in S && forall x :: x in S ==> m <= x
  {
    var x :| x in S;
    if S == {x} {
      m := x;
    } else {
      assert S == {x} + (S - {x});
      var rest := LeastOf(S - {x});
      m := if x < rest then x else rest;
    }
  }

  /** With a troubled member on it, the page is spoilt by the least one. */
  lemma TroubledPage(ids: seq<nat>, streams: seq<set<nat>>, limit: nat, A: set<nat>, S: set<nat>, T: set<nat>)
    requires Merges(ids, streams, limit) && Troubles(A, streams, S, T) && !(Top(S + T, limit) !! T)
    ensures Spoilt(ids, S, T, limit)
  {
    var bad := Top(S + T, limit) * T;
    assert bad != {} by {
      var y :| y in Top(S + T, limit) && y in T;
      assert y in bad;
    }
    var x := LeastOf(bad);
    assert forall y :: y in Top(S + T, limit) && y in T ==> y in bad;
    EndsBelow(ids, streams, limit, A, S, T, x);
    if x in S {
      assert x !in ids;
    }
    assert ids != [] && ids[|ids| - 1] <= x ==> AllUpTo(ids, x);
    assert Spoils(x, ids, S, T, limit);
  }

  /** A full page cannot end before the least troubled member of the wanted page. */
  lemma EndsBelow(ids: seq<nat>, streams: seq<set<nat>>, limit: nat, A: set<nat>, S: set<nat>, T: set<nat>, x: nat)
    requires Merges(ids, streams, limit) && Troubles(A, streams, S, T) && x in Top(S + T, limit)
    requires forall y :: y in Top(S + T, limit) && y in T ==> x <= y
    ensures x in ids || |ids| < limit || !AllUpTo(ids, x)
  {
    var U := S + T;
    if AllUpTo(ids, x) && x !in ids {
      forall i | 0 <= i < |ids| ensures ids[i] in RowSets.Below(U, x) && !Shared(streams, ids[i]) {
        var y := ids[i];
        assert InSome(streams, y) && y in A && y in U;
        SubsetSize(RowSets.Below(U, y), RowSets.Below(U, x));
      }
      DistinctWithin(ids, RowSets.Below(U, x));
    }
  }

  /** A spoilt list is not the wanted page. */
  lemma SpoiltPage(ids: seq<nat>, S: set<nat>, T: set<nat>, limit: nat)
    requires Spoilt(ids, S, T, limit)
    ensures !Lists(ids, Top(S, limit)) && !(Top(S + T, limit) !! T)
  {
    var x :| Spoils(x, ids, S, T, limit);
    if x in S {
      SubsetSize(RowSets.Below(S, x), RowSets.Below(S + T, x));
      assert x in Top(S, limit);
    }
  }
}

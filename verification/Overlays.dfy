/** What a stack of layers and a visibility map denote: one finite map from row ID to row. */
module Overlays {
  import opened Wrappers
  import opened RowSets
  import opened Schemas
  import opened VisibilityMaps

  /** What each layer holds under the union schema, the layers' numbers, and the overrides. */
  datatype Stack = Stack(held: seq<map<nat, Row>>, numbers: seq<nat>, over: map<nat, Target>)

  /** Layer numbers ascend from the base and fit 32 bits. */
  ghost predicate Numbered(numbers: seq<nat>) {
    && numbers != [] && numbers[0] == 0
    && (forall i, j :: 0 <= i < j < |numbers| ==> numbers[i] < numbers[j])
    && (forall i :: 0 <= i < |numbers| ==> numbers[i] <= U32_MAX)
  }

  /** The layer shows the row: no override takes it elsewhere. */
  predicate ShowsIn(over: map<nat, Target>, id: nat, number: nat) {
    id in over ==> over[id] == InLayer(number)
  }

  ghost function VisibleIn(s: Stack, i: nat): set<nat>
    requires |s.held| == |s.numbers| && i < |s.held|
  {
    set id | id in s.held[i] && ShowsIn(s.over, id, s.numbers[i])
  }

  /** A row without an override is in at most one layer. */
  ghost predicate Exclusive(s: Stack) {
    forall i, j, id :: 0 <= i < j < |s.held| && id in s.held[i] && id in s.held[j] ==> id in s.over
  }

  ghost predicate HasLayer(s: Stack, number: nat, id: nat)
    requires |s.held| == |s.numbers|
  {
    exists i :: 0 <= i < |s.held| && s.numbers[i] == number && id in s.held[i]
  }

  /** An override names a layer that holds the row. */
  ghost predicate Targeted(s: Stack)
    requires |s.held| == |s.numbers|
  {
    forall id :: id in s.over && s.over[id].InLayer? ==> HasLayer(s, s.over[id].layer, id)
  }

  /** No layer and no override mentions a row above the greatest ID. */
  ghost predicate Bounded(s: Stack, max: Option<nat>) {
    && (max.Some? ==> max.value <= U64_MAX)
    && (forall i, id :: 0 <= i < |s.held| && id in s.held[i] ==> max.Some? && id <= max.value)
    && (forall id :: id in s.over ==> max.Some? && id <= max.value)
  }

  ghost predicate WellFormedStack(s: Stack) {
    && |s.held| == |s.numbers| && Numbered(s.numbers) && Exclusive(s) && Targeted(s)
  }

  lemma OneOwner(s: Stack, i: nat, j: nat, id: nat)
    requires WellFormedStack(s) && i < |s.held| && j < |s.held|
    requires id in VisibleIn(s, i) && id in VisibleIn(s, j)
    ensures i == j
  {
  }

  /** The visible rows of the first n layers. */
  ghost function VisibleBelow(s: Stack, n: nat): set<nat>
    requires |s.held| == |s.numbers| && n <= |s.held|
  {
    if n == 0 then {} else VisibleBelow(s, n - 1) + VisibleIn(s, n - 1)
  }

  lemma {:induction false} VisibleBelowHas(s: Stack, n: nat, id: nat)
    requires |s.held| == |s.numbers| && n <= |s.held|
    ensures id in VisibleBelow(s, n) <==> exists i :: 0 <= i < n && id in VisibleIn(s, i)
  {
    if n > 0 {
      VisibleBelowHas(s, n - 1, id);
    }
  }

  ghost function VisibleIds(s: Stack): set<nat>
    requires |s.held| == |s.numbers|
  {
    VisibleBelow(s, |s.held|)
  }

  ghost function OwnerOf(s: Stack, id: nat): (i: nat)
    requires |s.held| == |s.numbers| && id in VisibleIds(s)
    ensures i < |s.held| && id in VisibleIn(s, i)
  {
    VisibleBelowHas(s, |s.held|, id);
    var i :| 0 <= i < |s.held| && id in VisibleIn(s, i);
    i
  }

  /** The map a stack denotes. */
  ghost function Visible(s: Stack): (rows: map<nat, Row>)
    requires |s.held| == |s.numbers|
    ensures rows.Keys == VisibleIds(s)
  {
    map id | id in VisibleIds(s) :: s.held[OwnerOf(s, id)][id]
  }

  /** A visible row of a layer is that layer's row. */
  lemma VisibleAt(s: Stack, i: nat, id: nat)
    requires WellFormedStack(s) && i < |s.held| && id in VisibleIn(s, i)
    ensures id in Visible(s) && Visible(s)[id] == s.held[i][id]
  {
    VisibleBelowHas(s, |s.held|, id);
    OneOwner(s, i, OwnerOf(s, id), id);
  }

  lemma NotVisible(s: Stack, id: nat)
    requires |s.held| == |s.numbers|
    requires forall i :: 0 <= i < |s.held| ==> id !in VisibleIn(s, i)
    ensures id !in Visible(s)
  {
    VisibleBelowHas(s, |s.held|, id);
  }

  /** The three ways an ID is looked up. */
  lemma LookupDeleted(s: Stack, id: nat)
    requires |s.held| == |s.numbers| && id in s.over && s.over[id].Deleted?
    ensures id !in Visible(s)
  {
    NotVisible(s, id);
  }

  lemma LookupTarget(s: Stack, id: nat, i: nat)
    requires WellFormedStack(s) && id in s.over && s.over[id].InLayer?
    requires i < |s.held| && s.numbers[i] == s.over[id].layer
    ensures id in s.held[i] && id in Visible(s) && Visible(s)[id] == s.held[i][id]
  {
    assert HasLayer(s, s.over[id].layer, id);
    VisibleAt(s, i, id);
  }

  lemma LookupHeld(s: Stack, id: nat, i: nat)
    requires WellFormedStack(s) && id !in s.over && i < |s.held| && id in s.held[i]
    ensures id in Visible(s) && Visible(s)[id] == s.held[i][id]
  {
    VisibleAt(s, i, id);
  }

  lemma LookupNowhere(s: Stack, id: nat)
    requires |s.held| == |s.numbers| && forall i :: 0 <= i < |s.held| ==> id !in s.held[i]
    ensures id !in Visible(s)
  {
    NotVisible(s, id);
  }

  // -------------------------------------------------------------------------- matching by layer

  ghost function MatchIn(s: Stack, i: nat, schema: Schema, predicates: seq<LogicalPredicate>): set<nat>
    requires |s.held| == |s.numbers| && i < |s.held|
  {
    set id | id in VisibleIn(s, i) && Satisfies(schema, s.held[i][id], predicates)
  }

  ghost function MatchBelow(s: Stack, n: nat, schema: Schema, predicates: seq<LogicalPredicate>): set<nat>
    requires |s.held| == |s.numbers| && n <= |s.held|
  {
    if n == 0 then {} else MatchBelow(s, n - 1, schema, predicates) + MatchIn(s, n - 1, schema, predicates)
  }

  lemma {:induction false} MatchBelowHas(s: Stack, n: nat, schema: Schema, predicates: seq<LogicalPredicate>, id: nat)
    requires |s.held| == |s.numbers| && n <= |s.held|
    ensures id in MatchBelow(s, n, schema, predicates) <==> exists i :: 0 <= i < n && id in MatchIn(s, i, schema, predicates)
  {
    if n > 0 {
      MatchBelowHas(s, n - 1, schema, predicates, id);
    }
  }

  /** The layers' matches are disjoint, and together they are the matches of the map. */
  lemma MatchesByLayer(s: Stack, schema: Schema, predicates: seq<LogicalPredicate>)
    requires WellFormedStack(s)
    ensures MatchBelow(s, |s.held|, schema, predicates) == Matching(schema, Visible(s), predicates)
  {
    forall id ensures id in MatchBelow(s, |s.held|, schema, predicates) <==> id in Matching(schema, Visible(s), predicates) {
      MatchBelowHas(s, |s.held|, schema, predicates, id);
      if id in MatchBelow(s, |s.held|, schema, predicates) {
        var i :| 0 <= i < |s.held| && id in MatchIn(s, i, schema, predicates);
        VisibleAt(s, i, id);
      }
      if id in Visible(s) {
        var i := OwnerOf(s, id);
        assert Satisfies(schema, Visible(s)[id], predicates) ==> id in MatchIn(s, i, schema, predicates);
      }
    }
  }

  lemma NextLayer(s: Stack, n: nat, schema: Schema, predicates: seq<LogicalPredicate>)
    requires WellFormedStack(s) && n < |s.held|
    ensures MatchBelow(s, n + 1, schema, predicates) == MatchBelow(s, n, schema, predicates) + MatchIn(s, n, schema, predicates)
    ensures MatchBelow(s, n, schema, predicates) !! MatchIn(s, n, schema, predicates)
  {
    forall id | id in MatchIn(s, n, schema, predicates) ensures id !in MatchBelow(s, n, schema, predicates) {
      MatchBelowHas(s, n, schema, predicates, id);
      forall i | 0 <= i < n ensures id !in MatchIn(s, i, schema, predicates) {
        if id in VisibleIn(s, i) {
          OneOwner(s, i, n, id);
        }
      }
    }
  }

  // ------------------------------------------------------------------------- pages over layers

  /** A page of a union comes from pages of its parts. */
  lemma TopOfUnion(A: set<nat>, B: set<nat>, n: nat)
    ensures Top(A + B, n) <= Top(A, n) + Top(B, n)
  {
    forall x | x in Top(A + B, n) ensures x in Top(A, n) + Top(B, n) {
      SubsetSize(RowSets.Below(A, x), RowSets.Below(A + B, x));
      SubsetSize(RowSets.Below(B, x), RowSets.Below(A + B, x));
    }
  }

  /** Fetching as many more as are hidden loses nothing when the hidden ones are dropped. */
  lemma OverFetch(M: set<nat>, H: set<nat>, n: nat, hidden: nat)
    requires |H| <= hidden
    ensures Top(M - H, n) <= Top(M, n + hidden) - H
    ensures Top(M, n + hidden) - H <= M - H
  {
    forall x | x in Top(M - H, n) ensures x in Top(M, n + hidden) {
      assert RowSets.Below(M, x) <= RowSets.Below(M - H, x) + H;
      SubsetSize(RowSets.Below(M, x), RowSets.Below(M - H, x) + H);
      assert |RowSets.Below(M - H, x) + H| <= |RowSets.Below(M - H, x)| + |H|;
    }
  }

  /** The rows gathered so far contain the page of what has been searched, and nothing unmatched. */
  ghost predicate Gathers(W: set<nat>, M: set<nat>, cursor: Option<nat>, limit: nat) {
    Top(After(M, cursor), limit) <= W <= After(M, cursor)
  }

  lemma GatherMore(W: set<nat>, M: set<nat>, V: set<nat>, N: set<nat>, cursor: Option<nat>, limit: nat)
    requires Gathers(W, M, cursor, limit) && Gathers(V, N, cursor, limit)
    ensures Gathers(W + V, M + N, cursor, limit)
  {
    assert After(M + N, cursor) == After(M, cursor) + After(N, cursor);
    TopOfUnion(After(M, cursor), After(N, cursor), limit);
  }

  lemma GatheredPage(W: set<nat>, M: set<nat>, cursor: Option<nat>, limit: nat)
    requires Gathers(W, M, cursor, limit)
    ensures Top(W, limit) == Top(After(M, cursor), limit)
  {
    TopSandwich(After(M, cursor), W, limit);
  }

  lemma GatherNothing(cursor: Option<nat>, limit: nat)
    ensures Gathers({}, {}, cursor, limit)
  {
  }

  // ------------------------------------------------------------------------------- new layers

  /** A transaction's new layer: new versions of some rows, and new rows; and the rows it deletes. */
  datatype Change = Change(number: nat, layer: map<nat, Row>, updated: set<nat>, deleted: set<nat>)

  /** The override an updated row gets, as it is read back. */
  function UpdateTarget(number: nat): Target {
    if number == DELETED_LAYER then Deleted else InLayer(number)
  }

  ghost function Overridden(over: map<nat, Target>, c: Change): map<nat, Target> {
    map id | id in over.Keys + c.updated + c.deleted ::
      if id in c.deleted then Deleted else if id in c.updated then UpdateTarget(c.number) else over[id]
  }

  /** The stack with the new layer on top; no layer is added for deletions alone. */
  ghost function Extended(s: Stack, c: Change): Stack {
    if c.layer == map[] then s.(over := Overridden(s.over, c))
    else Stack(s.held + [c.layer], s.numbers + [c.number], Overridden(s.over, c))
  }

  /** A change of visible rows, whose new rows are unknown to the stack. */
  ghost predicate Applies(s: Stack, c: Change)
    requires |s.held| == |s.numbers|
  {
    && c.updated <= VisibleIds(s) && c.deleted <= VisibleIds(s) && c.updated !! c.deleted
    && c.updated <= c.layer.Keys
    && (c.layer != map[] ==> (forall i :: 0 <= i < |s.numbers| ==> s.numbers[i] < c.number) && 0 < c.number <= U32_MAX)
    && forall id :: id in c.layer && id !in c.updated ==>
         && id !in s.over && id !in c.deleted
         && forall i :: 0 <= i < |s.held| ==> id !in s.held[i]
  }

  /** The rows after a change; `lost` rows are those whose new version no one can see. */
  ghost function Changed(rows: map<nat, Row>, c: Change, lost: set<nat>): map<nat, Row> {
    map id | id in (rows.Keys - c.deleted - lost) + (c.layer.Keys - c.updated) ::
      if id in c.layer then c.layer[id] else if id in rows then rows[id] else []
  }

  ghost function Lost(c: Change): set<nat> {
    if c.number == DELETED_LAYER then c.updated else {}
  }

  lemma ExtendedWellFormed(s: Stack, c: Change)
    requires WellFormedStack(s) && Applies(s, c)
    ensures WellFormedStack(Extended(s, c))
  {
    var t := Extended(s, c);
    forall id | id in t.over && t.over[id].InLayer? ensures HasLayer(t, t.over[id].layer, id) {
      if id in c.updated {
        assert t.numbers[|s.held|] == c.number && id in t.held[|s.held|];
      } else {
        assert HasLayer(s, s.over[id].layer, id);
        var i :| 0 <= i < |s.held| && s.numbers[i] == s.over[id].layer && id in s.held[i];
        assert t.numbers[i] == s.numbers[i] && t.held[i] == s.held[i];
      }
    }
    assert Exclusive(t) by {
      forall i, j, id | 0 <= i < j < |t.held| && id in t.held[i] && id in t.held[j] ensures id in t.over {
        assert t.held[i] == s.held[i];
      }
    }
  }

  lemma StackParts(s: Stack, c: Change)
    requires WellFormedStack(s) && WellFormedStack(Extended(s, c))
    ensures |s.held| == |s.numbers| && |Extended(s, c).held| == |Extended(s, c).numbers|
  {
  }

  /** Where each ID is found after the change. */
  lemma ExtendedShows(s: Stack, c: Change, id: nat)
    requires WellFormedStack(s) && Applies(s, c)
    ensures var t := Extended(s, c);
            && (id in Visible(t) <==> id in Changed(Visible(s), c, Lost(c)))
            && (id in Visible(t) ==> Visible(t)[id] == Changed(Visible(s), c, Lost(c))[id])
  {
    var t := Extended(s, c);
    ExtendedWellFormed(s, c);
    if id in c.deleted || id in Lost(c) {
      LookupDeleted(t, id);
    } else if id in c.layer {
      assert t.held[|s.held|] == c.layer;
      VisibleAt(t, |s.held|, id);
    } else if id in VisibleIds(s) {
      UntouchedShown(s, c, id);
    } else {
      UntouchedHidden(s, c, id);
    }
  }

  lemma UntouchedShown(s: Stack, c: Change, id: nat)
    requires WellFormedStack(s) && Applies(s, c) && id !in c.deleted && id !in c.layer && id in VisibleIds(s)
    ensures id in Visible(Extended(s, c)) && Visible(Extended(s, c))[id] == Visible(s)[id]
  {
    var t := Extended(s, c);
    ExtendedWellFormed(s, c);
    var i := OwnerOf(s, id);
    VisibleAt(s, i, id);
    assert t.held[i] == s.held[i] && t.numbers[i] == s.numbers[i];
    hide WellFormedStack, VisibleIds, Visible, Applies;
    assert id in VisibleIn(t, i);
    VisibleAt(t, i, id);
  }

  lemma UntouchedHidden(s: Stack, c: Change, id: nat)
    requires WellFormedStack(s) && Applies(s, c) && id !in c.deleted && id !in c.layer && id !in VisibleIds(s)
    ensures id !in Visible(Extended(s, c))
  {
    var t := Extended(s, c);
    forall i | 0 <= i < |t.held| ensures id !in VisibleIn(t, i) {
      if i < |s.held| && id in VisibleIn(t, i) {
        assert id in VisibleIn(s, i);
        VisibleAt(s, i, id);
      }
    }
    hide VisibleIn;
    NotVisible(t, id);
  }

  /** The map after a change: deletions gone, updates replaced, new rows added; except that a layer
      numbered like a tombstone hides the rows it updates. */
  lemma ExtendedVisible(s: Stack, c: Change)
    requires WellFormedStack(s) && Applies(s, c)
    ensures WellFormedStack(Extended(s, c))
    ensures Visible(Extended(s, c)) == Changed(Visible(s), c, Lost(c))
  {
    hide *;
    ExtendedWellFormed(s, c);
    StackParts(s, c);
    var A, B := Visible(Extended(s, c)), Changed(Visible(s), c, Lost(c));
    forall id ensures (id in A <==> id in B) && (id in A ==> A[id] == B[id]) {
      ExtendedShows(s, c, id);
    }
  }

  /** One row, updated in the layer numbered 2^32 - 1: the row is gone. */
  lemma TombstoneLayer()
    ensures var s := Stack([map[0 := [Some("a")]]], [0], map[]);
            var c := Change(DELETED_LAYER, map[0 := [Some("b")]], {0}, {});
            && WellFormedStack(s) && Applies(s, c) && 0 in Visible(s)
            && 0 in Changed(Visible(s), c, {}) && 0 !in Visible(Extended(s, c))
  {
    var s := Stack([map[0 := [Some("a")]]], [0], map[]);
    var c := Change(DELETED_LAYER, map[0 := [Some("b")]], {0}, {});
    assert WellFormedStack(s);
    assert 0 in VisibleIn(s, 0);
    VisibleAt(s, 0, 0);
    ExtendedVisible(s, c);
  }

  lemma KeptSize(all: set<nat>, removed: set<nat>, added: set<nat>)
    requires removed <= all && all !! added
    ensures |(all - removed) + added| == |all| - |removed| + |added|
  {
    assert all == (all - removed) + removed;
  }

  /** Rewriting every row the same way rewrites the map. */
  ghost predicate Widened(a: map<nat, Row>, b: map<nat, Row>, nulls: nat) {
    && a.Keys == b.Keys
    && forall id :: id in a ==> b[id] == a[id] + seq(nulls, _ => None)
  }

  lemma WidenedVisible(s: Stack, t: Stack, nulls: nat)
    requires WellFormedStack(s) && t.numbers == s.numbers && t.over == s.over && |t.held| == |s.held|
    requires forall i :: 0 <= i < |s.held| ==> Widened(s.held[i], t.held[i], nulls)
    ensures WellFormedStack(t) && Widened(Visible(s), Visible(t), nulls)
  {
    forall id | id in t.over && t.over[id].InLayer? ensures HasLayer(t, t.over[id].layer, id) {
      assert HasLayer(s, s.over[id].layer, id);
      var i :| 0 <= i < |s.held| && s.numbers[i] == s.over[id].layer && id in s.held[i];
      assert Widened(s.held[i], t.held[i], nulls);
      assert id in t.held[i];
    }
    forall i, j, id | 0 <= i < j < |t.held| && id in t.held[i] && id in t.held[j] ensures id in t.over {
      assert Widened(s.held[i], t.held[i], nulls) && Widened(s.held[j], t.held[j], nulls);
      assert id in s.held[i] && id in s.held[j];
    }
    forall id ensures (id in Visible(s) <==> id in Visible(t))
                      && (id in Visible(s) ==> Visible(t)[id] == Visible(s)[id] + seq(nulls, _ => None)) {
      if id in VisibleIds(s) {
        var i := OwnerOf(s, id);
        assert Widened(s.held[i], t.held[i], nulls);
        VisibleAt(s, i, id);
        VisibleAt(t, i, id);
      }
      if id in VisibleIds(t) {
        var i := OwnerOf(t, id);
        assert Widened(s.held[i], t.held[i], nulls);
        VisibleAt(s, i, id);
      }
    }
  }
}

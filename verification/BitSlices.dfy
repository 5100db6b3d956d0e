/** Bit-sliced row index: a plane of row bits for each bit of the key, read a word at a time. */
module BitSlices {
  import opened Wrappers
  import opened RowSets
  import opened Postings
  import opened BitPacking
  import opened Words
  import DeltaPostings

  /** The planes hold the key column: bit b of the key of row 64w+r is bit r of plane b, word w. */
  datatype BitSlice = BitSlice(keyspace: nat, rows: nat, bits: nat, words: nat,
                               counts: seq<nat>, planes: seq<seq<nat>>) {
    ghost predicate Holds(keys: seq<nat>) {
      && Shaped(keyspace, rows, bits, words, planes)
      && rows == |keys|
      && (forall r :: 0 <= r < rows ==> keys[r] < keyspace)
      && |counts| == keyspace
      && (forall k :: 0 <= k < keyspace ==> counts[k] == |RowsWith(keys, k)|)
      && (forall b, w, r :: 0 <= b < bits && 0 <= w < words && 0 <= r < WORD ==>
            (Bit(planes[b][w], r) <==> WORD * w + r < rows && Bit(keys[WORD * w + r], b)))
    }
  }

  ghost predicate Shaped(keyspace: nat, rows: nat, bits: nat, words: nat, planes: seq<seq<nat>>) {
    && keyspace > 0 && rows <= U32_MAX
    && bits == BitsForKeyspace(keyspace)
    && words == (rows + 63) / WORD
    && |planes| == bits
    && (forall b :: 0 <= b < bits ==> |planes[b]| == words)
    && (forall b, w :: 0 <= b < bits && 0 <= w < words ==> IsWord(planes[b][w]))
  }

  function BitsForKeyspace(keyspace: nat): nat {
    if keyspace <= 1 then 0 else DeltaPostings.Bits(keyspace - 1)
  }

  lemma KeyFits(keyspace: nat, key: nat)
    requires key < keyspace
    ensures key < Pow2(BitsForKeyspace(keyspace))
  {
    if keyspace > 1 {
      DeltaPostings.BitsHold(keyspace - 1);
    }
  }

  // ------------------------------------------------------------------------------ equality masks

  /** Bit r of the mask says whether row 64w+r holds the key. */
  ghost predicate MaskOf(mask: nat, keys: seq<nat>, key: nat, word: nat) {
    && IsWord(mask)
    && (forall r :: 0 <= r < WORD ==>
          (Bit(mask, r) <==> WORD * word + r < |keys| && keys[WORD * word + r] == key))
  }

  /** The bits of a word that stand for rows of the table. */
  ghost predicate TailMask(mask: nat, rows: nat, word: nat) {
    && IsWord(mask)
    && (forall r :: 0 <= r < WORD ==> (Bit(mask, r) <==> WORD * word + r < rows))
  }

  lemma OnesTail(n: nat, rows: nat, word: nat)
    requires n == Min(WORD, SaturatingSub(rows, WORD * word))
    ensures TailMask(Pow2(n) - 1, rows, word)
  {
    Pow2Monotone(n, WORD);
    hide Pow2, Bit;
    var ones := Pow2(n) - 1;
    forall r | 0 <= r < WORD ensures Bit(ones, r) <==> WORD * word + r < rows {
      BitOfOnes(n, r);
    }
  }

  method LastMask(x: BitSlice, word: nat) returns (mask: nat)
    requires x.words == (x.rows + 63) / WORD && word < x.words
    ensures TailMask(mask, x.rows, word)
  {
    hide Pow2, TailMask;
    if word + 1 != x.words || x.rows % WORD == 0 {
      mask := Pow2(WORD) - 1;
      OnesTail(WORD, x.rows, word);
    } else {
      mask := Pow2(x.rows % WORD) - 1;
      OnesTail(x.rows % WORD, x.rows, word);
    }
  }

  /** The bits of the mask where every plane so far agrees with the key. */
  ghost predicate Agrees(mask: nat, x: BitSlice, key: nat, word: nat, n: nat)
    requires word < x.words && n <= |x.planes| && forall b :: 0 <= b < |x.planes| ==> |x.planes[b]| == x.words
  {
    && IsWord(mask)
    && (forall r :: 0 <= r < WORD ==>
          (Bit(mask, r) <==> forall b :: 0 <= b < n ==> (Bit(x.planes[b][word], r) <==> Bit(key, b))))
  }

  lemma AgreesStep(mask: nat, x: BitSlice, key: nat, word: nat, n: nat)
    requires word < x.words && n < |x.planes| && forall b :: 0 <= b < |x.planes| ==> |x.planes[b]| == x.words
    requires Agrees(mask, x, key, word, n)
    ensures Agrees(And(mask, if Bit(key, n) then x.planes[n][word] else Not(x.planes[n][word], WORD)), x, key, word, n + 1)
  {
    hide Pow2, And, Not, Bit;
    var plane := x.planes[n][word];
    var chosen := if Bit(key, n) then plane else Not(plane, WORD);
    AndBound(mask, chosen);
    forall r | 0 <= r < WORD
      ensures Bit(And(mask, chosen), r) <==> forall b :: 0 <= b < n + 1 ==> (Bit(x.planes[b][word], r) <==> Bit(key, b))
    {
      BitAnd(mask, chosen, r);
      BitNot(plane, WORD, r);
    }
  }

  /** Keys of the keyspace that agree on every plane bit are equal. */
  lemma AgreeIsEqual(x: BitSlice, keys: seq<nat>, key: nat, word: nat, mask: nat, last: nat)
    requires x.Holds(keys) && key < x.keyspace && word < x.words
    requires Agrees(mask, x, key, word, x.bits)
    requires TailMask(last, x.rows, word)
    ensures MaskOf(And(mask, last), keys, key, word)
  {
    AndBound(mask, last);
    forall r | 0 <= r < WORD
      ensures Bit(And(mask, last), r) <==> WORD * word + r < |keys| && keys[WORD * word + r] == key
    {
      BitAnd(mask, last, r);
      var row := WORD * word + r;
      if row < |keys| {
        KeyFits(x.keyspace, key);
        KeyFits(x.keyspace, keys[row]);
        assert forall b :: 0 <= b < x.bits ==> (Bit(x.planes[b][word], r) <==> Bit(keys[row], b));
        if Bit(mask, r) {
          BitsDetermine(keys[row], key, x.bits);
        }
      }
    }
  }

  method EqualityWord(x: BitSlice, key: nat, word: nat, ghost keys: seq<nat>) returns (mask: nat)
    requires x.Holds(keys) && key < x.keyspace
    ensures MaskOf(mask, keys, key, word)
  {
    if word >= x.words {
      forall r | 0 <= r < WORD ensures !Bit(0, r) {
        BitZero(r);
      }
      return 0;
    }
    hide Pow2, And, Not, Bit;
    mask := Pow2(WORD) - 1;
    forall r | 0 <= r < WORD ensures Bit(mask, r) {
      BitOfOnes(WORD, r);
    }
    for b := 0 to x.bits
      invariant Agrees(mask, x, key, word, b)
    {
      var plane := x.planes[b][word];
      AgreesStep(mask, x, key, word, b);
      if Bit(key, b) {
        mask := And(mask, plane);
      } else {
        mask := And(mask, Not(plane, WORD));
      }
    }
    var last := LastMask(x, word);
    AgreeIsEqual(x, keys, key, word, mask, last);
    mask := And(mask, last);
  }

  // ------------------------------------------------------------------------------ draining masks

  /** The rows a mask stands for at a word. */
  ghost function MaskRows(mask: nat, word: nat): set<nat> {
    set r | 0 <= r < WORD && Bit(mask, r) :: WORD * word + r
  }

  lemma MaskRowsBits(mask: nat, word: nat, x: nat)
    ensures x in MaskRows(mask, word) <==> WORD * word <= x < WORD * (word + 1) && Bit(mask, x - WORD * word)
  {
    if WORD * word <= x < WORD * (word + 1) && Bit(mask, x - WORD * word) {
      assert WORD * word + (x - WORD * word) == x;
    }
  }

  lemma PeelRows(mask: nat, word: nat)
    requires mask > 0 && IsWord(mask)
    ensures TrailingZeros(mask) < WORD
    ensures And(mask, mask - 1) < mask
    ensures var low := WORD * word + TrailingZeros(mask);
            && low in MaskRows(mask, word)
            && (forall x :: x in MaskRows(mask, word) ==> low <= x)
            && MaskRows(And(mask, mask - 1), word) == MaskRows(mask, word) - {low}
  {
    hide Pow2, And, Bit, TrailingZeros;
    var t := TrailingZeros(mask);
    var low := WORD * word + t;
    LowestBit(mask, 0);
    BitBound(mask, WORD, t);
    Peel(mask, 0);
    MaskRowsBits(mask, word, low);
    forall x: nat ensures x in MaskRows(mask, word) ==> low <= x
                  ensures x in MaskRows(And(mask, mask - 1), word) <==> x in MaskRows(mask, word) - {low}
    {
      MaskRowsBits(mask, word, x);
      MaskRowsBits(And(mask, mask - 1), word, x);
      if WORD * word <= x {
        LowestBit(mask, x - WORD * word);
        Peel(mask, x - WORD * word);
      }
    }
  }

  lemma NoMaskRows(word: nat)
    ensures MaskRows(0, word) == {}
  {
    forall r | 0 <= r < WORD ensures !Bit(0, r) {
      BitZero(r);
    }
  }

  /** Pushes the rows of a mask in ascending order, up to a limit when there is one. */
  method Drain(given: seq<nat>, start: nat, word: nat, limit: Option<nat>, ghost G: set<nat>)
    returns (out: seq<nat>)
    requires IsWord(start) && Lists(given, G)
    requires forall x, y :: x in G && y in MaskRows(start, word) ==> x < y
    requires limit.Some? ==> |given| < limit.value
    ensures limit.Some? ==> |out| <= limit.value
    ensures limit.None? || |out| < limit.value ==> Lists(out, G + MaskRows(start, word))
    ensures limit.Some? && |out| == limit.value ==>
              exists cut :: Lists(out, Below(G + MaskRows(start, word), cut))
  {
    hide MaskRows, Lists, TrailingZeros, And, Bit, IsWord;
    out := given;
    var mask := start;
    ghost var done: set<nat> := G;
    assert G + MaskRows(start, word) == done + MaskRows(mask, word);
    while mask != 0
      invariant IsWord(mask) && Lists(out, done)
      invariant done + MaskRows(mask, word) == G + MaskRows(start, word)
      invariant forall x, y :: x in done && y in MaskRows(mask, word) ==> x < y
      invariant limit.Some? ==> |out| < limit.value
      decreases mask
    {
      PeelRows(mask, word);
      PeeledWord(mask);
      ghost var low: nat := WORD * word + TrailingZeros(mask);
      ListsSnoc(out, done, low);
      out := out + [WORD * word + TrailingZeros(mask)];
      done := done + {low};
      mask := And(mask, mask - 1);
      assert done + MaskRows(mask, word) == G + MaskRows(start, word);
      if limit.Some? && |out| == limit.value {
        assert done == Below(G + MaskRows(start, word), low + 1);
        return;
      }
    }
    NoMaskRows(word);
    assert done == G + MaskRows(start, word);
  }

  lemma PeeledWord(mask: nat)
    requires mask > 0 && IsWord(mask)
    ensures IsWord(And(mask, mask - 1))
  {
    hide Pow2;
    AndBound(mask, mask - 1);
  }

  // ------------------------------------------------------------------------------------- lookups

  /** The matches of a mask are the members of S in its word. */
  lemma MaskCovers(mask: nat, keys: seq<nat>, key: nat, word: nat)
    requires MaskOf(mask, keys, key, word)
    ensures forall x :: x in MaskRows(mask, word) <==>
              x in RowsWith(keys, key) && WORD * word <= x < WORD * (word + 1)
  {
    forall x: nat ensures x in MaskRows(mask, word) <==>
                          x in RowsWith(keys, key) && WORD * word <= x < WORD * (word + 1)
    {
      MaskRowsBits(mask, word, x);
      if WORD * word <= x < WORD * (word + 1) {
        var r := x - WORD * word;
        assert 0 <= r < WORD && WORD * word + r == x;
        assert Bit(mask, r) <==> WORD * word + r < |keys| && keys[WORD * word + r] == key;
      }
    }
  }

  /** A word further, the matches below it grow by the mask. */
  lemma NextWord(S: set<nat>, mask: nat, word: nat)
    requires forall x :: x in MaskRows(mask, word) <==> x in S && WORD * word <= x < WORD * (word + 1)
    ensures Below(S, WORD * word) + MaskRows(mask, word) == Below(S, WORD * (word + 1))
    ensures forall x, y :: x in Below(S, WORD * word) && y in MaskRows(mask, word) ==> x < y
  {
  }

  lemma AllWords(S: set<nat>, x: BitSlice, keys: seq<nat>)
    requires x.Holds(keys) && forall r :: r in S ==> r < |keys|
    ensures Below(S, WORD * x.words) == S
  {
  }

  method RowCount(x: BitSlice, key: nat, ghost keys: seq<nat>) returns (count: nat)
    requires x.Holds(keys)
    ensures count == |RowsWith(keys, key)|
  {
    if key >= x.keyspace {
      assert RowsWith(keys, key) == {};
      return 0;
    }
    return x.counts[key];
  }

  method Rows(x: BitSlice, key: nat, ghost keys: seq<nat>) returns (out: seq<nat>)
    requires x.Holds(keys)
    ensures Lists(out, RowsWith(keys, key))
  {
    out := [];
    if key >= x.keyspace {
      assert RowsWith(keys, key) == {};
      return;
    }
    ghost var S := RowsWith(keys, key);
    assert Below(S, WORD * 0) == {};
    for word := 0 to x.words
      invariant Lists(out, Below(S, WORD * word))
    {
      hide Lists, MaskRows, BitSlice.Holds, MaskOf, RowsWith;
      var mask := EqualityWord(x, key, word, keys);
      MaskCovers(mask, keys, key, word);
      MaskIsWord(mask, keys, key, word);
      NextWord(S, mask, word);
      out := Drain(out, mask, word, None, Below(S, WORD * word));
    }
    AllWords(S, x, keys);
  }

  lemma MaskIsWord(mask: nat, keys: seq<nat>, key: nat, word: nat)
    requires MaskOf(mask, keys, key, word)
    ensures IsWord(mask)
  {
  }

  /** In the word of the first row, the rows before it are masked off. */
  method MaskFrom(start: nat, word: nat, first: nat) returns (mask: nat)
    requires IsWord(start) && first / WORD <= word
    ensures IsWord(mask)
    ensures MaskRows(mask, word) == From(MaskRows(start, word), first)
  {
    hide Pow2, And, Not, Bit;
    var bit := first % WORD;
    mask := start;
    if word == first / WORD && bit != 0 {
      var low := Not(Pow2(bit) - 1, WORD);
      mask := And(start, low);
      AndBound(start, low);
      forall r | 0 <= r < WORD ensures Bit(mask, r) <==> Bit(start, r) && r >= bit {
        BitAnd(start, low, r);
        BitNot(Pow2(bit) - 1, WORD, r);
        BitOfOnes(bit, r);
      }
      forall x: nat ensures x in MaskRows(mask, word) <==> x in From(MaskRows(start, word), first) {
        MaskRowsBits(mask, word, x);
        MaskRowsBits(start, word, x);
      }
    } else {
      forall x: nat | x in MaskRows(start, word) ensures first <= x {
        MaskRowsBits(start, word, x);
      }
    }
  }

  lemma FromNextWord(S: set<nat>, W: set<nat>, first: nat, word: nat)
    requires forall x :: x in W <==> x in S && WORD * word <= x < WORD * (word + 1)
    ensures forall x :: x in From(W, first) <==> x in From(S, first) && WORD * word <= x < WORD * (word + 1)
  {
  }

  lemma FullPage(S: set<nat>, out: seq<nat>, limit: nat, top: nat)
    requires |out| == limit && exists cut :: Lists(out, Below(Below(S, top), cut))
    ensures Lists(out, Top(S, limit))
  {
    var cut :| Lists(out, Below(Below(S, top), cut));
    var m := Min(top, cut);
    assert Below(Below(S, top), cut) == Below(S, m);
    ListsSize(out, Below(S, m));
    TopSplit(S, limit, m);
    assert Top(From(S, m), 0) == {};
  }

  lemma ShortPage(S: set<nat>, out: seq<nat>, limit: nat)
    requires Lists(out, S) && |out| <= limit
    ensures Lists(out, Top(S, limit))
  {
    ListsSize(out, S);
    TopSize(S, limit);
  }

  method RowsFrom(x: BitSlice, key: nat, first: nat, limit: nat, ghost keys: seq<nat>) returns (out: seq<nat>)
    requires x.Holds(keys)
    ensures Lists(out, Top(From(RowsWith(keys, key), first), limit))
  {
    out := [];
    ghost var S := From(RowsWith(keys, key), first);
    if key >= x.keyspace || limit == 0 || first >= x.rows {
      assert limit == 0 || S == {};
      return;
    }
    assert Below(S, WORD * (first / WORD)) == {};
    for word := first / WORD to x.words
      invariant Lists(out, Below(S, WORD * word)) && |out| < limit
    {
      hide Lists, MaskRows, BitSlice.Holds, MaskOf, RowsWith, From, Below, And, Not, Bit;
      var equal := EqualityWord(x, key, word, keys);
      MaskCovers(equal, keys, key, word);
      MaskIsWord(equal, keys, key, word);
      var mask := MaskFrom(equal, word, first);
      FromNextWord(RowsWith(keys, key), MaskRows(equal, word), first, word);
      NextWord(S, mask, word);
      out := Drain(out, mask, word, Some(limit), Below(S, WORD * word));
      if |out| == limit {
        FullPage(S, out, limit, WORD * (word + 1));
        return;
      }
    }
    AllWords(S, x, keys);
    ShortPage(S, out, limit);
  }

  method IntersectRows(x: BitSlice, key: nat, seed: seq<nat>, ghost keys: seq<nat>) returns (out: seq<nat>)
    requires x.Holds(keys) && Increasing(seed)
    ensures Lists(out, RowsWith(keys, key) * Elements(seed))
  {
    hide *;
    out := [];
    ghost var S := RowsWith(keys, key);
    NoSeedRows(x, key, keys, seed);
    if key >= x.keyspace || seed == [] {
      return;
    }
    var cachedWord: Option<nat>, cachedMask: nat := None, 0;
    for i := 0 to |seed|
      invariant Lists(out, S * Elements(seed[..i]))
      invariant cachedWord.Some? ==> MaskOf(cachedMask, keys, key, cachedWord.value)
    {
      var row := seed[i];
      SeedStep(x, key, keys, seed, i);
      if row >= x.rows {
        continue;
      }
      var word := row / WORD;
      if cachedWord != Some(word) {
        cachedWord := Some(word);
        cachedMask := EqualityWord(x, key, word, keys);
      }
      MaskDecides(x, cachedMask, keys, key, row);
      if Bit(cachedMask, row % WORD) {
        ListsSnoc(out, S * Elements(seed[..i]), row);
        out := out + [row];
      }
    }
    assert seed[..|seed|] == seed;
  }

  lemma NoSeedRows(x: BitSlice, key: nat, keys: seq<nat>, seed: seq<nat>)
    requires x.Holds(keys)
    ensures key >= x.keyspace || seed == [] ==> Lists([], RowsWith(keys, key) * Elements(seed))
    ensures Lists([], RowsWith(keys, key) * Elements(seed[..0]))
    ensures WORD > 0
  {
  }

  /** One more seed row: a hit or not; past the rows, never one. */
  lemma SeedStep(x: BitSlice, key: nat, keys: seq<nat>, seed: seq<nat>, i: nat)
    requires x.Holds(keys) && Increasing(seed) && i < |seed|
    ensures var S, before, after := RowsWith(keys, key), Elements(seed[..i]), Elements(seed[..i + 1]);
            S * after == if seed[i] in S then S * before + {seed[i]} else S * before
    ensures seed[i] >= x.rows ==> seed[i] !in RowsWith(keys, key)
    ensures forall r :: r in RowsWith(keys, key) * Elements(seed[..i]) ==> r < seed[i]
  {
    assert seed[..i + 1] == seed[..i] + [seed[i]];
  }

  lemma MaskDecides(x: BitSlice, mask: nat, keys: seq<nat>, key: nat, row: nat)
    requires MaskOf(mask, keys, key, row / WORD)
    ensures 0 < WORD && (Bit(mask, row % WORD) <==> row in RowsWith(keys, key))
  {
    assert WORD * (row / WORD) + row % WORD == row;
  }

  /** Two bit-sliced indexes of the same rows are intersected mask by mask. */
  method IntersectHierarchy(x: BitSlice, key: nat, other: BitSlice, otherKey: nat,
                            ghost keys: seq<nat>, ghost otherKeys: seq<nat>)
    returns (out: seq<nat>)
    requires x.Holds(keys) && other.Holds(otherKeys) && |keys| == |otherKeys|
    ensures Lists(out, RowsWith(keys, key) * RowsWith(otherKeys, otherKey))
  {
    out := [];
    ghost var S := RowsWith(keys, key) * RowsWith(otherKeys, otherKey);
    if key >= x.keyspace || otherKey >= other.keyspace {
      assert S == {};
      return;
    }
    assert Below(S, WORD * 0) == {};
    for word := 0 to x.words
      invariant Lists(out, Below(S, WORD * word))
    {
      hide Lists, MaskRows, BitSlice.Holds, MaskOf, RowsWith, Below, And, Bit;
      var mine := EqualityWord(x, key, word, keys);
      var theirs := EqualityWord(other, otherKey, word, otherKeys);
      MaskIsWord(mine, keys, key, word);
      MaskCovers(mine, keys, key, word);
      MaskCovers(theirs, otherKeys, otherKey, word);
      AndRows(mine, theirs, word);
      NextWord(S, And(mine, theirs), word);
      out := Drain(out, And(mine, theirs), word, None, Below(S, WORD * word));
    }
    AllWords(S, x, keys);
  }

  lemma AndRows(a: nat, b: nat, word: nat)
    requires IsWord(a)
    ensures IsWord(And(a, b))
    ensures MaskRows(And(a, b), word) == MaskRows(a, word) * MaskRows(b, word)
  {
    AndBound(a, b);
    forall x: nat ensures x in MaskRows(And(a, b), word) <==> x in MaskRows(a, word) * MaskRows(b, word) {
      MaskRowsBits(And(a, b), word, x);
      MaskRowsBits(a, word, x);
      MaskRowsBits(b, word, x);
      if WORD * word <= x {
        BitAnd(a, b, x - WORD * word);
      }
    }
  }

  // ------------------------------------------------------------------------------------ building

  ghost predicate HasBit(rs: seq<Record>, row: nat, b: nat) {
    exists i :: 0 <= i < |rs| && rs[i].row == row && Bit(rs[i].key, b)
  }

  /** The planes after some records: a bit is set when a record put it there. */
  ghost predicate PlanesOf(planes: seq<seq<nat>>, rs: seq<Record>, bits: nat, words: nat) {
    && |planes| == bits
    && (forall b :: 0 <= b < bits ==> |planes[b]| == words)
    && (forall b, w :: 0 <= b < bits && 0 <= w < words ==> PlaneWord(planes[b][w], rs, b, w))
  }

  ghost predicate PlaneWord(plane: nat, rs: seq<Record>, b: nat, w: nat) {
    && IsWord(plane)
    && (forall r :: 0 <= r < WORD ==> (Bit(plane, r) <==> HasBit(rs, WORD * w + r, b)))
  }

  lemma SetBit(plane: nat, rs: seq<Record>, record: Record, b: nat, w: nat)
    requires PlaneWord(plane, rs, b, w)
    ensures PlaneWord(
              if w == record.row / WORD && Bit(record.key, b) then Or(plane, Pow2(record.row % WORD)) else plane,
              rs + [record], b, w)
  {
    hide Pow2, Or, Bit;
    var bit := record.row % WORD;
    var grown := rs + [record];
    Pow2Strict(bit, WORD);
    OrBound(plane, Pow2(bit), WORD);
    forall r | 0 <= r < WORD
      ensures HasBit(grown, WORD * w + r, b) <==>
              HasBit(rs, WORD * w + r, b) || (record.row == WORD * w + r && Bit(record.key, b))
      ensures Bit(Or(plane, Pow2(bit)), r) <==> Bit(plane, r) || r == bit
    {
      BitOr(plane, Pow2(bit), r);
      BitOfPow2(bit, r);
      if HasBit(rs, WORD * w + r, b) {
        var i :| 0 <= i < |rs| && rs[i].row == WORD * w + r && Bit(rs[i].key, b);
        assert grown[i] == rs[i];
      }
      assert grown[|rs|] == record;
    }
  }

  method SetRow(planes: seq<seq<nat>>, record: Record, bits: nat, words: nat, ghost rs: seq<Record>)
    returns (out: seq<seq<nat>>)
    requires PlanesOf(planes, rs, bits, words) && record.row / WORD < words
    ensures PlanesOf(out, rs + [record], bits, words)
  {
    out := planes;
    var word := record.row / WORD;
    for b := 0 to bits
      invariant |out| == bits && forall c :: 0 <= c < bits ==> |out[c]| == words
      invariant forall c :: b <= c < bits ==> out[c] == planes[c]
      invariant forall c, w :: 0 <= c < b && 0 <= w < words ==> PlaneWord(out[c][w], rs + [record], c, w)
    {
      hide PlaneWord, Or, Bit, Pow2;
      assert forall w :: 0 <= w < words ==> PlaneWord(planes[b][w], rs, b, w);
      forall w | 0 <= w < words
        ensures PlaneWord(
                  if w == word && Bit(record.key, b) then Or(planes[b][w], Pow2(record.row % WORD)) else planes[b][w],
                  rs + [record], b, w)
      {
        SetBit(planes[b][w], rs, record, b, w);
      }
      if Bit(record.key, b) {
        var marked: nat := Or(out[b][word], Pow2(record.row % WORD));
        var plane: seq<nat> := out[b][word := marked];
        out := out[b := plane];
      }
    }
  }

  function EstimatedBytes(keyspace: nat, rows: nat): (r: Option<nat>) {
    if keyspace == 0 || rows > U32_MAX then None
    else
      var bytes := 48 + keyspace * 4 + BitsForKeyspace(keyspace) * ((rows + 63) / WORD) * 8;
      if bytes <= U64_MAX then Some(bytes) else None
  }

  lemma CountStep(rs: seq<Record>, n: nat, k: nat)
    requires StrictlySorted(rs) && n < |rs|
    ensures |RowsOf(rs[..n + 1], k)| == |RowsOf(rs[..n], k)| + if rs[n].key == k then 1 else 0
  {
    assert rs[..n + 1] == rs[..n] + [rs[n]];
    RowsOfSnoc(rs[..n], rs[n], k);
    forall i | 0 <= i < n ensures rs[..n][i] != rs[n] {
      assert Less(rs[i], rs[n]);
    }
    assert rs[n].key == k ==> rs[n].row !in RowsOf(rs[..n], k);
  }

  lemma PlanesHold(x: BitSlice, rs: seq<Record>, keys: seq<nat>)
    requires Tabulates(rs, keys) && |keys| == x.rows && x.rows <= U32_MAX
    requires x.keyspace > 0 && x.bits == BitsForKeyspace(x.keyspace) && x.words == (x.rows + 63) / WORD
    requires forall i :: 0 <= i < |rs| ==> rs[i].key < x.keyspace
    requires PlanesOf(x.planes, rs, x.bits, x.words)
    requires |x.counts| == x.keyspace && forall k :: 0 <= k < x.keyspace ==> x.counts[k] == |RowsOf(rs, k)|
    ensures x.Holds(keys)
  {
    forall k | 0 <= k < x.keyspace ensures x.counts[k] == |RowsWith(keys, k)| {
      TabulatedRows(rs, keys, k);
    }
    forall r | 0 <= r < x.rows ensures keys[r] < x.keyspace {
      assert Record(keys[r], r) in rs;
    }
    forall b, w, r | 0 <= b < x.bits && 0 <= w < x.words && 0 <= r < WORD
      ensures Bit(x.planes[b][w], r) <==> WORD * w + r < x.rows && Bit(keys[WORD * w + r], b)
    {
      assert PlaneWord(x.planes[b][w], rs, b, w);
      var row := WORD * w + r;
      if row < x.rows {
        assert Record(keys[row], row) in rs;
      }
    }
    forall b, w | 0 <= b < x.bits && 0 <= w < x.words ensures IsWord(x.planes[b][w]) {
      assert PlaneWord(x.planes[b][w], rs, b, w);
    }
  }

  /** Each key's count is the number of its rows among the first n records. */
  ghost predicate Counted(counts: seq<nat>, rs: seq<Record>, n: nat) {
    n <= |rs| && forall k :: 0 <= k < |counts| ==> counts[k] == |RowsOf(rs[..n], k)|
  }

  lemma CountNext(counts: seq<nat>, rs: seq<Record>, n: nat)
    requires StrictlySorted(rs) && Counted(counts, rs, n) && n < |rs| && rs[n].key < |counts|
    ensures Counted(counts[rs[n].key := counts[rs[n].key] + 1], rs, n + 1)
  {
    hide RowsOf;
    forall k | 0 <= k < |counts|
      ensures |RowsOf(rs[..n + 1], k)| == |RowsOf(rs[..n], k)| + if rs[n].key == k then 1 else 0
    {
      CountStep(rs, n, k);
    }
  }

  method BuildBitSlice(sorted: seq<Record>, keyspace: nat, rows: nat, ghost keys: seq<nat>)
    returns (r: Result<BitSlice>)
    ensures r.Ok? <==>
            && EstimatedBytes(keyspace, rows).Some?
            && (forall i :: 0 <= i < |sorted| ==> sorted[i].key < keyspace && sorted[i].row < rows)
            && |sorted| == rows
    ensures r.Ok? && StrictlySorted(sorted) && Tabulates(sorted, keys) && |keys| == rows ==> r.value.Holds(keys)
  {
    if EstimatedBytes(keyspace, rows).None? {
      return Err(InvalidInput);
    }
    var bits, words := BitsForKeyspace(keyspace), (rows + 63) / WORD;
    var counts: seq<nat> := seq<nat>(keyspace, _ => 0);
    var planes := seq<seq<nat>>(bits, _ => seq<nat>(words, _ => 0));
    EmptyPlanes(bits, words);
    assert sorted[..0] == [];
    for seen := 0 to |sorted|
      invariant |counts| == keyspace
      invariant StrictlySorted(sorted) ==> Counted(counts, sorted, seen)
      invariant PlanesOf(planes, sorted[..seen], bits, words)
      invariant forall i :: 0 <= i < seen ==> sorted[i].key < keyspace && sorted[i].row < rows
    {
      hide RowsOf, PlanesOf, Counted, StrictlySorted;
      var record := sorted[seen];
      if record.key >= keyspace || record.row >= rows {
        return Err(InvalidData);
      }
      if StrictlySorted(sorted) {
        CountNext(counts, sorted, seen);
      }
      counts := counts[record.key := counts[record.key] + 1];
      assert sorted[..seen + 1] == sorted[..seen] + [record];
      planes := SetRow(planes, record, bits, words, sorted[..seen]);
    }
    assert sorted[..|sorted|] == sorted;
    if |sorted| != rows {
      return Err(InvalidData);
    }
    var built := BitSlice(keyspace, rows, bits, words, counts, planes);
    if StrictlySorted(sorted) && Tabulates(sorted, keys) && |keys| == rows {
      PlanesHold(built, sorted, keys);
    }
    return Ok(built);
  }

  lemma EmptyPlanes(bits: nat, words: nat)
    ensures PlanesOf(seq<seq<nat>>(bits, _ => seq<nat>(words, _ => 0)), [], bits, words)
    ensures forall k :: RowsOf([], k) == {}
  {
    forall r | 0 <= r < WORD ensures !Bit(0, r) {
      BitZero(r);
    }
  }
}

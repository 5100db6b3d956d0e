/** Routing indexes: which pages hold a row with a key, as sorted records or as one bitmap a key. */
module PageIndexes {
  import opened Wrappers
  import opened RowSets
  import opened Postings
  import opened SortedIndexes
  import opened BitPacking
  import opened Words
  import opened BitSlices

  /** The pages with a row under the key, given each row's key and page. */
  ghost function PagesWith(keys: seq<nat>, pageOf: seq<nat>, key: nat): set<nat>
    requires |keys| == |pageOf|
  {
    set r | 0 <= r < |keys| && keys[r] == key :: pageOf[r]
  }

  datatype Bitmap = Bitmap(keyspace: nat, pages: nat, wordsPerKey: nat, words: seq<seq<nat>>) {
    ghost predicate Holds(keys: seq<nat>, pageOf: seq<nat>)
      requires |keys| == |pageOf|
    {
      && wordsPerKey == (pages + 63) / WORD
      && |words| == keyspace
      && (forall r :: 0 <= r < |keys| ==> keys[r] < keyspace && pageOf[r] < pages)
      && (forall k :: 0 <= k < keyspace ==> |words[k]| == wordsPerKey)
      && (forall k, w :: 0 <= k < keyspace && 0 <= w < wordsPerKey ==>
            IsWord(words[k][w])
            && forall b :: 0 <= b < WORD ==> (Bit(words[k][w], b) <==> WORD * w + b in PagesWith(keys, pageOf, k)))
    }

    /** The seed pages whose bit is set. */
    method Keep(key: nat, seed: seq<nat>, ghost keys: seq<nat>, ghost pageOf: seq<nat>) returns (out: seq<nat>)
      requires |keys| == |pageOf| && Holds(keys, pageOf) && Increasing(seed)
      ensures Lists(out, PagesWith(keys, pageOf, key) * Elements(seed))
    {
      out := [];
      ghost var S := PagesWith(keys, pageOf, key);
      BitmapPages(this, keys, pageOf, key);
      if key >= keyspace {
        return;
      }
      for i := 0 to |seed|
        invariant Lists(out, S * Elements(seed[..i]))
      {
        var page := seed[i];
        assert seed[..i + 1] == seed[..i] + [page];
        assert S * Elements(seed[..i + 1]) == S * Elements(seed[..i]) + if page in S then {page} else {};
        assert page < pages ==> (page in S <==> Bit(words[key][page / WORD], page % WORD)) by {
          assert WORD * (page / WORD) + page % WORD == page;
        }
        if page < pages && Bit(words[key][page / WORD], page % WORD) {
          ListsSnoc(out, S * Elements(seed[..i]), page);
          out := out + [page];
        }
      }
      assert seed[..|seed|] == seed;
    }
  }

  /** Sorted (key, page) records: one for every key a page holds. */
  ghost predicate PageRecords(rs: seq<Record>, keys: seq<nat>, pageOf: seq<nat>)
    requires |keys| == |pageOf|
  {
    && (forall i :: 0 <= i < |rs| ==> rs[i].row in PagesWith(keys, pageOf, rs[i].key))
    && (forall r :: 0 <= r < |keys| ==> Record(keys[r], pageOf[r]) in rs)
  }

  lemma PageRecordRows(rs: seq<Record>, keys: seq<nat>, pageOf: seq<nat>, key: nat)
    requires |keys| == |pageOf| && PageRecords(rs, keys, pageOf)
    ensures RowsOf(rs, key) == PagesWith(keys, pageOf, key)
  {
    forall p | p in PagesWith(keys, pageOf, key) ensures p in RowsOf(rs, key) {
      var r :| 0 <= r < |keys| && keys[r] == key && pageOf[r] == p;
      var i :| 0 <= i < |rs| && rs[i] == Record(keys[r], pageOf[r]);
    }
  }

  lemma BitmapMask(x: Bitmap, keys: seq<nat>, pageOf: seq<nat>, key: nat, w: nat)
    requires |keys| == |pageOf| && x.Holds(keys, pageOf) && key < x.keyspace && w < x.wordsPerKey
    ensures IsWord(x.words[key][w])
    ensures forall p :: p in MaskRows(x.words[key][w], w) <==>
              p in PagesWith(keys, pageOf, key) && WORD * w <= p < WORD * (w + 1)
  {
    var mask := x.words[key][w];
    assert IsWord(mask);
    forall p: nat ensures p in MaskRows(mask, w) <==>
                          p in PagesWith(keys, pageOf, key) && WORD * w <= p < WORD * (w + 1)
    {
      MaskRowsBits(mask, w, p);
      if WORD * w <= p < WORD * (w + 1) {
        var b := p - WORD * w;
        assert 0 <= b < WORD && WORD * w + b == p;
        assert Bit(mask, b) <==> WORD * w + b in PagesWith(keys, pageOf, key);
      }
    }
  }

  lemma BitmapPages(x: Bitmap, keys: seq<nat>, pageOf: seq<nat>, key: nat)
    requires |keys| == |pageOf| && x.Holds(keys, pageOf)
    ensures forall p :: p in PagesWith(keys, pageOf, key) ==> p < x.pages
    ensures key >= x.keyspace ==> PagesWith(keys, pageOf, key) == {}
    ensures Below(PagesWith(keys, pageOf, key), WORD * x.wordsPerKey) == PagesWith(keys, pageOf, key)
  {
  }

  // -------------------------------------------------------------------------- building a bitmap

  function BitmapBytes(keyspace: nat, pages: nat): Option<nat> {
    var bytes := keyspace * ((pages + 63) / WORD) * 8 + 32;
    if bytes <= U64_MAX then Some(bytes) else None
  }

  /** The key's words have exactly the bits of the pages recorded under it. */
  ghost predicate KeyWords(words: seq<nat>, rs: seq<Record>, key: nat) {
    forall w :: 0 <= w < |words| ==> KeyWord(words[w], rs, key, w)
  }

  ghost predicate KeyWord(word: nat, rs: seq<Record>, key: nat, w: nat) {
    && IsWord(word)
    && forall b :: 0 <= b < WORD ==> (Bit(word, b) <==> WORD * w + b in RowsOf(rs, key))
  }

  lemma MarkPage(word: nat, rs: seq<Record>, record: Record, key: nat, w: nat)
    requires KeyWord(word, rs, key, w)
    ensures KeyWord(if key == record.key && w == record.row / WORD then Or(word, Pow2(record.row % WORD)) else word,
              rs + [record], key, w)
  {
    hide Pow2, Or, Bit;
    var bit := record.row % WORD;
    var grown := rs + [record];
    Pow2Strict(bit, WORD);
    OrBound(word, Pow2(bit), WORD);
    RowsOfSnoc(rs, record, key);
    forall b | 0 <= b < WORD ensures Bit(Or(word, Pow2(bit)), b) <==> Bit(word, b) || b == bit {
      BitOr(word, Pow2(bit), b);
      BitOfPow2(bit, b);
    }
  }

  /** One row of words a key, with the bits of the records. */
  ghost predicate WordsOf(words: seq<seq<nat>>, rs: seq<Record>, keyspace: nat, wordsPerKey: nat) {
    && |words| == keyspace
    && forall k :: 0 <= k < keyspace ==> |words[k]| == wordsPerKey && KeyWords(words[k], rs, k)
  }

  /** One bitmap a key, from (key, page) records. */
  method BuildBitmap(records: seq<Record>, keyspace: nat, pages: nat) returns (r: Result<Bitmap>)
    ensures r.Ok? <==>
            && BitmapBytes(keyspace, pages).Some?
            && forall i :: 0 <= i < |records| ==> records[i].key < keyspace && records[i].row < pages
    ensures r.Ok? ==>
              && r.value.keyspace == keyspace && r.value.pages == pages && r.value.wordsPerKey == (pages + 63) / WORD
              && WordsOf(r.value.words, records, keyspace, r.value.wordsPerKey)
  {
    if BitmapBytes(keyspace, pages).None? {
      return Err(InvalidInput);
    }
    var wordsPerKey := (pages + 63) / WORD;
    var words: seq<seq<nat>> := seq<seq<nat>>(keyspace, _ => seq<nat>(wordsPerKey, _ => 0));
    NoBits(words, keyspace, wordsPerKey);
    assert records[..0] == [];
    for seen := 0 to |records|
      invariant forall i :: 0 <= i < seen ==> records[i].key < keyspace && records[i].row < pages
      invariant WordsOf(words, records[..seen], keyspace, wordsPerKey)
    {
      var key, page := records[seen].key, records[seen].row;
      if key >= keyspace || page >= pages {
        return Err(InvalidData);
      }
      assert page / WORD < wordsPerKey;
      hide KeyWords, Marked;
      assert records[..seen + 1] == records[..seen] + [records[seen]];
      MarkKeys(words, records[..seen], records[seen], keyspace, wordsPerKey);
      words := words[key := Marked(words[key], page)];
    }
    assert records[..|records|] == records;
    return Ok(Bitmap(keyspace, pages, wordsPerKey, words));
  }

  function Marked(words: seq<nat>, page: nat): (out: seq<nat>)
    requires page / WORD < |words|
    ensures |out| == |words|
  {
    words[page / WORD := Or(words[page / WORD], Pow2(page % WORD))]
  }

  lemma MarkKeys(words: seq<seq<nat>>, rs: seq<Record>, record: Record, keyspace: nat, wordsPerKey: nat)
    requires WordsOf(words, rs, keyspace, wordsPerKey) && record.key < keyspace && record.row / WORD < wordsPerKey
    ensures |words[record.key]| == wordsPerKey
    ensures WordsOf(words[record.key := Marked(words[record.key], record.row)], rs + [record], keyspace, wordsPerKey)
  {
    hide KeyWords, Marked;
    forall k | 0 <= k < keyspace
      ensures KeyWords(if k == record.key then Marked(words[k], record.row) else words[k], rs + [record], k)
    {
      MarkKey(words[k], rs, record, k);
    }
  }

  lemma MarkKey(words: seq<nat>, rs: seq<Record>, record: Record, key: nat)
    requires KeyWords(words, rs, key) && record.row / WORD < |words|
    ensures KeyWords(if key == record.key then Marked(words, record.row) else words, rs + [record], key)
  {
    hide KeyWord, Or, Pow2;
    forall w | 0 <= w < |words|
      ensures KeyWord(if key == record.key && w == record.row / WORD then Or(words[w], Pow2(record.row % WORD)) else words[w],
                rs + [record], key, w)
    {
      MarkPage(words[w], rs, record, key, w);
    }
  }

  lemma NoBits(words: seq<seq<nat>>, keyspace: nat, wordsPerKey: nat)
    requires |words| == keyspace
    requires forall k :: 0 <= k < keyspace ==> |words[k]| == wordsPerKey && forall w :: 0 <= w < wordsPerKey ==> words[k][w] == 0
    ensures WordsOf(words, [], keyspace, wordsPerKey)
  {
    forall b: nat ensures !Bit(0, b) {
      BitZero(b);
    }
    assert IsWord(0);
  }

  /** A bitmap built from the pages' records answers for the pages. */
  lemma BitmapHolds(x: Bitmap, records: seq<Record>, keys: seq<nat>, pageOf: seq<nat>)
    requires |keys| == |pageOf| && PageRecords(records, keys, pageOf)
    requires x.wordsPerKey == (x.pages + 63) / WORD && WordsOf(x.words, records, x.keyspace, x.wordsPerKey)
    requires forall i :: 0 <= i < |records| ==> records[i].key < x.keyspace && records[i].row < x.pages
    ensures x.Holds(keys, pageOf)
  {
    forall r | 0 <= r < |keys| ensures keys[r] < x.keyspace && pageOf[r] < x.pages {
      var i :| 0 <= i < |records| && records[i] == Record(keys[r], pageOf[r]);
    }
    forall k, w | 0 <= k < x.keyspace && 0 <= w < x.wordsPerKey
      ensures IsWord(x.words[k][w])
      ensures forall b :: 0 <= b < WORD ==> (Bit(x.words[k][w], b) <==> WORD * w + b in PagesWith(keys, pageOf, k))
    {
      PageRecordRows(records, keys, pageOf, k);
      assert KeyWord(x.words[k][w], records, k, w);
    }
  }

  function CountOnes(w: nat): nat {
    if w == 0 then 0 else w % 2 + CountOnes(w / 2)
  }

  lemma {:induction false} PeelCounts(m: nat)
    requires m > 0
    ensures CountOnes(And(m, m - 1)) == CountOnes(m) - 1
  {
    if m % 2 == 1 {
      assert (m - 1) / 2 == m / 2;
      AndSelf(m / 2);
      AndHalves(m, m - 1);
    } else {
      assert (m - 1) / 2 == m / 2 - 1;
      PeelCounts(m / 2);
      AndHalves(m, m - 1);
    }
  }

  lemma {:induction false} CountsRows(mask: nat, word: nat)
    requires IsWord(mask)
    ensures CountOnes(mask) == |MaskRows(mask, word)|
    decreases mask
  {
    hide MaskRows, Pow2, And, Bit;
    if mask == 0 {
      NoMaskRows(word);
    } else {
      PeelRows(mask, word);
      PeeledWord(mask);
      PeelCounts(mask);
      CountsRows(And(mask, mask - 1), word);
    }
  }

  datatype PageIndex = Sparse(records: Flat) | Bits(bitmap: Bitmap) {
    ghost predicate Holds(keys: seq<nat>, pageOf: seq<nat>)
      requires |keys| == |pageOf|
    {
      match this
      case Sparse(x) => exists rs :: PageRecords(rs, keys, pageOf) && x.Holds(rs)
      case Bits(x) => x.Holds(keys, pageOf)
    }

    method PageCount(key: nat, ghost keys: seq<nat>, ghost pageOf: seq<nat>) returns (count: nat)
      requires |keys| == |pageOf| && Holds(keys, pageOf)
      ensures count == |PagesWith(keys, pageOf, key)|
    {
      match this {
        case Sparse(x) =>
          ghost var rs :| PageRecords(rs, keys, pageOf) && x.Holds(rs);
          var start, end := x.Bounds(key, rs);
          SliceLists(rs, x.rows, key, start, end);
          PageRecordRows(rs, keys, pageOf, key);
          count := end - start;
        case Bits(x) =>
          ghost var S := PagesWith(keys, pageOf, key);
          BitmapPages(x, keys, pageOf, key);
          count := 0;
          if key >= x.keyspace {
            return;
          }
          assert Below(S, WORD * 0) == {};
          for w := 0 to x.wordsPerKey
            invariant count == |Below(S, WORD * w)|
          {
            hide MaskRows, PagesWith;
            BitmapMask(x, keys, pageOf, key, w);
            CountsRows(x.words[key][w], w);
            NextWord(S, x.words[key][w], w);
            assert Below(S, WORD * w) !! MaskRows(x.words[key][w], w);
            count := count + CountOnes(x.words[key][w]);
          }
      }
    }

    method Pages(key: nat, ghost keys: seq<nat>, ghost pageOf: seq<nat>) returns (out: seq<nat>)
      requires |keys| == |pageOf| && Holds(keys, pageOf)
      ensures Lists(out, PagesWith(keys, pageOf, key))
    {
      match this {
        case Sparse(x) =>
          ghost var rs :| PageRecords(rs, keys, pageOf) && x.Holds(rs);
          var start, end := x.Bounds(key, rs);
          SliceLists(rs, x.rows, key, start, end);
          PageRecordRows(rs, keys, pageOf, key);
          out := x.rows[start..end];
        case Bits(x) =>
          ghost var S := PagesWith(keys, pageOf, key);
          BitmapPages(x, keys, pageOf, key);
          out := [];
          if key >= x.keyspace {
            return;
          }
          assert Below(S, WORD * 0) == {};
          for w := 0 to x.wordsPerKey
            invariant Lists(out, Below(S, WORD * w))
          {
            hide MaskRows, PagesWith, Lists;
            BitmapMask(x, keys, pageOf, key, w);
            NextWord(S, x.words[key][w], w);
            out := Drain(out, x.words[key][w], w, None, Below(S, WORD * w));
          }
      }
    }

    method IntersectPages(key: nat, seed: seq<nat>, ghost keys: seq<nat>, ghost pageOf: seq<nat>)
      returns (out: seq<nat>)
      requires |keys| == |pageOf| && Holds(keys, pageOf) && Increasing(seed)
      ensures Lists(out, PagesWith(keys, pageOf, key) * Elements(seed))
    {
      match this {
        case Sparse(x) =>
          ghost var rs :| PageRecords(rs, keys, pageOf) && x.Holds(rs);
          var start, end := x.Bounds(key, rs);
          SliceLists(rs, x.rows, key, start, end);
          PageRecordRows(rs, keys, pageOf, key);
          out := Merge(x.rows, start, end, start, seed, RowsOf(rs, key));
        case Bits(x) =>
          out := x.Keep(key, seed, keys, pageOf);
      }
    }
  }
}

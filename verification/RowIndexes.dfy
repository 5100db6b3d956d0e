/** Exact row indexes behind one interface. Whichever of the five representations an index has, its
    lookups answer for one key column: the rows with a key, in order. */
module RowIndexes {
  import opened RowSets
  import opened Postings
  import SortedIndexes
  import DeltaPostings
  import DeltaReaders
  import BitSlices

  datatype RowIndex =
    | Sparse(sparse: SortedIndexes.Sparse)
    | Dense(dense: SortedIndexes.Dense)
    | Delta(delta: DeltaPostings.Delta)
    | Flat(flat: SortedIndexes.Flat)
    | BitSlice(bits: BitSlices.BitSlice)
  {
    /** Built from the sorted records of the key column. */
    ghost predicate Built(rs: seq<Record>)
      requires !BitSlice?
    {
      match this
      case Sparse(x) => x.Holds(rs)
      case Dense(x) => x.Holds(rs)
      case Delta(x) => x.Holds(rs)
      case Flat(x) => x.Holds(rs)
    }

    ghost predicate Holds(keys: seq<nat>) {
      if BitSlice? then bits.Holds(keys)
      else exists rs :: Tabulates(rs, keys) && Built(rs)
    }

    lemma Source(keys: seq<nat>, key: nat) returns (rs: seq<Record>)
      requires Holds(keys) && !BitSlice?
      ensures Built(rs) && RowsOf(rs, key) == RowsWith(keys, key)
    {
      rs :| Tabulates(rs, keys) && Built(rs);
      TabulatedRows(rs, keys, key);
    }

    /** The slice of the sorted body that answers for a key. */
    method Bounds(key: nat, ghost rs: seq<Record>) returns (body: seq<nat>, start: nat, end: nat)
      requires !BitSlice? && !Delta? && Built(rs)
      ensures start <= end <= |body|
      ensures Lists(body[start..end], RowsOf(rs, key)) && end - start == |RowsOf(rs, key)|
    {
      match this {
        case Sparse(x) =>
          body := x.rows;
          start, end := x.Bounds(key, rs);
        case Dense(x) =>
          body := x.rows;
          start, end := x.Bounds(key, rs);
        case Flat(x) =>
          body := x.rows;
          start, end := x.Bounds(key, rs);
      }
      SortedIndexes.AnswersLists(rs, body, key, start, end);
    }

    method RowCount(key: nat, ghost keys: seq<nat>) returns (count: nat)
      requires Holds(keys)
      ensures count == |RowsWith(keys, key)|
    {
      if BitSlice? {
        count := BitSlices.RowCount(bits, key, keys);
      } else {
        ghost var rs := Source(keys, key);
        if Delta? {
          count := DeltaReaders.RowCount(delta, key, rs);
        } else {
          var body, start, end := Bounds(key, rs);
          count := end - start;
        }
      }
    }

    method Rows(key: nat, ghost keys: seq<nat>) returns (out: seq<nat>)
      requires Holds(keys)
      ensures Lists(out, RowsWith(keys, key))
    {
      if BitSlice? {
        out := BitSlices.Rows(bits, key, keys);
      } else {
        ghost var rs := Source(keys, key);
        if Delta? {
          out := DeltaReaders.Rows(delta, key, rs);
        } else {
          var body, start, end := Bounds(key, rs);
          out := body[start..end];
        }
      }
    }

    /** The first `limit` rows at or above `first`. */
    method RowsFrom(key: nat, first: nat, limit: nat, ghost keys: seq<nat>) returns (out: seq<nat>)
      requires Holds(keys)
      ensures Lists(out, Top(From(RowsWith(keys, key), first), limit))
    {
      if BitSlice? {
        out := BitSlices.RowsFrom(bits, key, first, limit, keys);
      } else {
        ghost var rs := Source(keys, key);
        if Delta? {
          out := DeltaReaders.RowsFrom(delta, key, first, limit, rs);
        } else {
          var body, start, end := Bounds(key, rs);
          out := TakeFrom(body, start, end, first, limit, RowsOf(rs, key));
        }
      }
    }

    method IntersectRows(key: nat, seed: seq<nat>, ghost keys: seq<nat>) returns (out: seq<nat>)
      requires Holds(keys) && Increasing(seed)
      ensures Lists(out, RowsWith(keys, key) * Elements(seed))
    {
      if BitSlice? {
        out := BitSlices.IntersectRows(bits, key, seed, keys);
      } else {
        ghost var rs := Source(keys, key);
        if Delta? {
          out := DeltaReaders.IntersectRows(delta, key, seed, rs);
        } else {
          var body, start, end := Bounds(key, rs);
          out := IntersectSlice(body, start, end, seed, RowsOf(rs, key));
        }
      }
    }
  }
}

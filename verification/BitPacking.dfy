/** Fixed-width bit packing of posting gaps into little-endian bytes.
    A byte string and a gap list are both read as numbers, with digits of 8 and of `width` bits, least
    significant first; packing keeps the number. */
module BitPacking {
  import opened Wrappers

  type Byte = b: nat | b < 256

  function Pow2(n: nat): (r: nat)
    ensures r > 0
  {
    if n == 0 then 1 else 2 * Pow2(n - 1)
  }

  /** The number whose `width`-bit digits are s, least significant first. */
  function Digits(s: seq<nat>, width: nat): nat {
    if s == [] then 0 else s[0] + Pow2(width) * Digits(s[1..], width)
  }

  ghost predicate Fits(s: seq<nat>, width: nat) {
    forall i :: 0 <= i < |s| ==> s[i] < Pow2(width)
  }

  function PackedBytes(n: nat, width: nat): nat {
    (n * width + 7) / 8
  }

  /** bytes hold the gaps, packed `width` bits each. */
  ghost predicate Encodes(bytes: seq<Byte>, gaps: seq<nat>, width: nat) {
    && Fits(gaps, width)
    && |bytes| == PackedBytes(|gaps|, width)
    && Digits(bytes, 8) == Digits(gaps, width)
  }

  // ------------------------------------------------------------------------- digit arithmetic

  lemma {:induction false} Pow2Add(a: nat, b: nat)
    ensures Pow2(a + b) == Pow2(a) * Pow2(b)
  {
    if a > 0 {
      Pow2Add(a - 1, b);
      MulAssoc(2, Pow2(a - 1), Pow2(b));
    }
  }

  lemma MulAssoc(a: int, b: int, c: int)
    ensures a * b * c == a * (b * c)
  {
  }

  lemma Pow2Byte()
    ensures Pow2(8) == 256
  {
    assert Pow2(4) == 16;
    Pow2Add(4, 4);
  }

  lemma {:induction false} Pow2Monotone(a: nat, b: nat)
    requires a <= b
    ensures Pow2(a) <= Pow2(b)
  {
    if a < b {
      Pow2Monotone(a, b - 1);
    }
  }

  lemma PushDigit(base: int, low: int, place: int, x: int)
    ensures base * (low + place * x) == base * low + base * place * x
  {
  }

  lemma Pow2Strict(a: nat, b: nat)
    requires a < b
    ensures Pow2(a) < Pow2(b)
  {
    Pow2Monotone(a, b - 1);
  }

  lemma {:induction false} DigitsSnoc(s: seq<nat>, x: nat, width: nat)
    ensures Digits(s + [x], width) == Digits(s, width) + Pow2(width * |s|) * x
  {
    if s == [] {
      assert Pow2(width * 0) == 1;
      assert (s + [x])[1..] == [];
    } else {
      var rest := s[1..];
      assert (s + [x])[1..] == rest + [x];
      DigitsSnoc(rest, x, width);
      PlaceStep(width, |rest|);
      PushDigit(Pow2(width), Digits(rest, width), Pow2(width * |rest|), x);
    }
  }

  lemma PlaceStep(width: nat, n: nat)
    ensures Pow2(width * (n + 1)) == Pow2(width) * Pow2(width * n)
  {
    hide Pow2;
    assert width * (n + 1) == width + width * n;
    Pow2Add(width, width * n);
  }

  lemma {:induction false} DigitsBound(s: seq<nat>, width: nat)
    requires Fits(s, width)
    ensures Digits(s, width) < Pow2(width * |s|)
  {
    if s == [] {
      assert width * |s| == 0;
    } else {
      var rest, base := s[1..], Pow2(width);
      DigitsBound(rest, width);
      PlaceStep(width, |rest|);
      PlaceBound(base, s[0], Digits(rest, width), Pow2(width * |rest|));
    }
  }

  lemma PlaceBound(base: nat, low: nat, high: nat, bound: nat)
    requires low < base && high < bound
    ensures low + base * high < base * bound
  {
    ProductOrder(high + 1, bound, base);
    assert (high + 1) * base == high * base + base;
  }

  /** Quotient and remainder are determined. */
  lemma DivModUnique(base: nat, a: nat, x: nat, b: nat, y: nat)
    requires a < base && b < base && a + base * x == b + base * y
    ensures a == b && x == y
  {
    QuotientNotBelow(base, a, x, b, y);
    QuotientNotBelow(base, b, y, a, x);
  }

  lemma QuotientNotBelow(base: nat, a: nat, x: nat, b: nat, y: nat)
    requires a < base && a + base * x == b + base * y
    ensures x >= y
  {
    assert base * (x + 1) == base * x + base;
    if x + 1 <= y {
      ProductOrder(x + 1, y, base);
    }
  }

  lemma {:induction false} DigitsUnique(s: seq<nat>, t: seq<nat>, width: nat)
    requires |s| == |t| && Fits(s, width) && Fits(t, width)
    requires Digits(s, width) == Digits(t, width)
    ensures s == t
  {
    if s != [] {
      DivModUnique(Pow2(width), s[0], Digits(s[1..], width), t[0], Digits(t[1..], width));
      DigitsUnique(s[1..], t[1..], width);
      assert s == [s[0]] + s[1..] && t == [t[0]] + t[1..];
    }
  }

  /** Moving the low `cut` bits out of an accumulator that sits `place` bits up. */
  lemma SplitAccumulator(place: nat, cut: nat, acc: nat)
    ensures Pow2(place) * acc == Pow2(place) * (acc % Pow2(cut)) + Pow2(place + cut) * (acc / Pow2(cut))
  {
    Pow2Add(place, cut);
    var low, high := acc % Pow2(cut), acc / Pow2(cut);
    hide Pow2;
    assert acc == low + Pow2(cut) * high;
    MulAssoc(Pow2(place), Pow2(cut), high);
  }

  /** An accumulator of `have + cut` bits keeps `have` bits after dropping `cut`. */
  lemma AccumulatorBound(acc: nat, have: nat, cut: nat)
    requires acc < Pow2(have + cut)
    ensures acc / Pow2(cut) < Pow2(have)
  {
    Pow2Add(have, cut);
    var q := acc / Pow2(cut);
    if q >= Pow2(have) {
      ProductOrder(Pow2(have), q, Pow2(cut));
    }
  }

  lemma PushBound(acc: nat, have: nat, v: nat, width: nat)
    requires acc < Pow2(have) && v < Pow2(width)
    ensures acc + v * Pow2(have) < Pow2(have + width)
  {
    Pow2Add(width, have);
    ProductOrder(v + 1, Pow2(width), Pow2(have));
    assert Pow2(have) * (v + 1) == v * Pow2(have) + Pow2(have);
  }

  /** Adding v above the `have` bits of an accumulator that sits `place` bits up. */
  lemma PushAccumulator(place: nat, have: nat, acc: nat, v: nat)
    ensures Pow2(place) * (acc + v * Pow2(have)) == Pow2(place) * acc + Pow2(place + have) * v
  {
    Pow2Add(place, have);
    hide Pow2;
    PushDigit(Pow2(place), acc, Pow2(have), v);
  }

  // ------------------------------------------------------------------------ the accumulator

  /** `acc | v << have` for an accumulator of `have` bits: the bits are disjoint, so or-ing adds. */
  function OrAbove(acc: nat, have: nat, v: nat): nat { acc + v * Pow2(have) }

  function LowBits(acc: nat, n: nat): nat { acc % Pow2(n) }

  function LowByte(acc: nat): (r: Byte)
    ensures r == LowBits(acc, 8)
  {
    Pow2Byte();
    acc % 256
  }

  function ShiftRight(acc: nat, n: nat): nat { Quotient(acc, Pow2(n)) }

  function Quotient(a: nat, d: nat): nat
    requires d > 0
  {
    a / d
  }

  /** Re-grouping a stream of b-bit digits into a-bit digits: of the digits taken in, `low` have been
      put out and `have` bits wait in the accumulator. Packing and unpacking are this in the two
      directions. */
  ghost predicate Carries(low: seq<nat>, a: nat, acc: nat, have: nat, whole: seq<nat>, b: nat) {
    && acc < Pow2(have)
    && a * |low| + have == b * |whole|
    && Digits(low, a) + Pow2(a * |low|) * acc == Digits(whole, b)
  }

  lemma CarriesNothing(a: nat, b: nat)
    ensures Carries([], a, 0, 0, [], b)
  {
  }

  /** Or-ing v in above the `have` bits of the accumulator adds it there. */
  lemma TakeIn(low: seq<nat>, a: nat, acc: nat, have: nat, whole: seq<nat>, b: nat, v: nat)
    requires Carries(low, a, acc, have, whole, b) && v < Pow2(b)
    ensures Carries(low, a, OrAbove(acc, have, v), have + b, whole + [v], b)
  {
    hide Pow2, Digits;
    PushBound(acc, have, v, b);
    DigitsSnoc(whole, v, b);
    PushAccumulator(a * |low|, have, acc, v);
    assert b * |whole + [v]| == b * |whole| + b by { MulSucc(b, |whole|); }
  }

  lemma PutOut(low: seq<nat>, a: nat, acc: nat, have: nat, whole: seq<nat>, b: nat)
    requires Carries(low, a, acc, have, whole, b) && have >= a
    ensures Carries(low + [LowBits(acc, a)], a, ShiftRight(acc, a), have - a, whole, b)
  {
    hide Pow2, Digits;
    SplitAccumulator(a * |low|, a, acc);
    DigitsSnoc(low, acc % Pow2(a), a);
    AccumulatorBound(acc, have - a, a);
    MulSucc(a, |low|);
  }

  lemma MulSucc(a: nat, n: nat)
    ensures a * (n + 1) == a * n + a
  {
  }

  // ---------------------------------------------------------------------------------- packing

  method Pack(vals: seq<nat>, width: nat) returns (out: seq<Byte>)
    requires width <= 32 && Fits(vals, width)
    ensures Encodes(out, vals, width)
  {
    out := [];
    if width == 0 {
      DigitsBound(vals, 0);
      return;
    }
    Pow2Byte();
    CarriesNothing(8, width);
    var acc: nat, have: nat := 0, 0;
    for i := 0 to |vals|
      invariant have < 8 && Carries(out, 8, acc, have, vals[..i], width)
    {
      hide Pow2, Digits, Carries, OrAbove, LowBits, ShiftRight;
      TakeIn(out, 8, acc, have, vals[..i], width, vals[i]);
      assert vals[..i + 1] == vals[..i] + [vals[i]];
      acc := OrAbove(acc, have, vals[i]);
      have := have + width;
      AccumulatorFits(out, 8, acc, have, vals[..i + 1], width);
      out, acc, have := DrainBytes(out, acc, have, vals[..i + 1], width);
    }
    assert vals[..|vals|] == vals;
    FlushByte(out, acc, have, vals, width);
    if have > 0 {
      Pow2Monotone(have, 8);
      out := out + [acc];
    }
  }

  /** Puts whole bytes out of the accumulator. */
  method DrainBytes(given: seq<Byte>, acc0: nat, have0: nat, ghost whole: seq<nat>, ghost width: nat)
    returns (out: seq<Byte>, acc: nat, have: nat)
    requires Carries(given, 8, acc0, have0, whole, width)
    ensures have < 8 && Carries(out, 8, acc, have, whole, width)
  {
    hide *;
    out, acc, have := given, acc0, have0;
    while have >= 8
      invariant Carries(out, 8, acc, have, whole, width)
      decreases have
    {
      PutOut(out, 8, acc, have, whole, width);
      out := out + [LowByte(acc)];
      acc := ShiftRight(acc, 8);
      have := have - 8;
    }
  }

  /** The accumulator never outgrows the 64 bits the program gives it. */
  lemma AccumulatorFits(low: seq<nat>, a: nat, acc: nat, have: nat, whole: seq<nat>, b: nat)
    requires Carries(low, a, acc, have, whole, b) && have < 40
    ensures acc < Pow2(64)
  {
    Pow2Monotone(have, 64);
  }

  lemma FlushByte(out: seq<Byte>, acc: nat, have: nat, vals: seq<nat>, width: nat)
    requires Carries(out, 8, acc, have, vals, width) && have < 8 && Fits(vals, width)
    ensures have == 0 ==> Encodes(out, vals, width)
    ensures have > 0 ==> acc < 256 && Encodes(out + [acc], vals, width)
  {
    Pow2Byte();
    Pow2Monotone(have, 8);
    DigitsSnoc(out, acc, 8);
    assert width * |vals| == |vals| * width;
    if have == 0 {
      assert Pow2(0) == 1;
    }
  }

  /** Reads n values of `width` bits from position p; fails when the bytes run out. */
  method Unpack(buf: seq<Byte>, p: nat, n: nat, width: nat) returns (r: Option<seq<nat>>, next: nat)
    requires width <= 32 && p <= |buf|
    ensures r.Some? <==> p + PackedBytes(n, width) <= |buf|
    ensures r.Some? ==>
              && next == p + PackedBytes(n, width)
              && |r.value| == n && Fits(r.value, width)
              && Digits(r.value, width) == Digits(buf[p..next], 8) % Pow2(width * n)
  {
    hide *;
    next := p;
    if width == 0 {
      var zeros := seq(n, _ => 0);
      NoWidth(zeros, width, Digits(buf[p..p], 8));
      return Some(zeros), p;
    }
    CarriesNothing(width, 8);
    assert buf[p..next] == [];
    var out: seq<nat>, acc: nat, have: nat := [], 0, 0;
    NothingRead(width);
    for j := 0 to n
      invariant |out| == j && Fits(out, width) && have < 8
      invariant p <= next <= |buf| && Carries(out, width, acc, have, buf[p..next], 8)
    {
      var filled: Option<(nat, nat)>;
      filled, next := FillTo(buf, p, next, acc, have, width, n, out);
      if filled.None? {
        return None, next;
      }
      acc, have := filled.value.0, filled.value.1;
      // The mask is all ones at width 32, where the cast to u32 does the truncation.
      var masked := if width == 32 then acc else LowBits(acc, width);
      var value := LowBits(masked, 32);
      MaskedValue(acc, width);
      PutOut(out, width, acc, have, buf[p..next], 8);
      FitsSnoc(out, value, width);
      out := out + [value];
      acc := ShiftRight(acc, width);
      have := have - width;
    }
    ReadsDigits(out, width, acc, have, buf[p..next], n);
    return Some(out), next;
  }

  /** Values of no bits take no bytes and are zeros. */
  lemma NoWidth(zeros: seq<nat>, width: nat, y: nat)
    requires width == 0 && forall i :: 0 <= i < |zeros| ==> zeros[i] == 0
    ensures Fits(zeros, width) && PackedBytes(|zeros|, width) == 0
    ensures Digits(zeros, width) == y % Pow2(width * |zeros|)
  {
    ZeroDigits(zeros);
    hide *;
    ZeroTimes(|zeros|);
    ModOne(y, width * |zeros|);
  }

  lemma {:induction false} ZeroDigits(zeros: seq<nat>)
    requires forall i :: 0 <= i < |zeros| ==> zeros[i] == 0
    ensures Fits(zeros, 0) && Digits(zeros, 0) == 0
  {
    if zeros != [] {
      ZeroDigits(zeros[1..]);
    }
  }

  lemma ZeroTimes(n: nat)
    ensures 0 * n == 0 && PackedBytes(n, 0) == 0
  {
  }

  lemma ModOne(y: nat, bits: nat)
    requires bits == 0
    ensures y % Pow2(bits) == 0
  {
  }

  lemma NothingRead(width: nat)
    ensures Fits([], width)
  {
  }

  lemma FitsSnoc(s: seq<nat>, x: nat, width: nat)
    requires Fits(s, width) && x < Pow2(width)
    ensures Fits(s + [x], width)
  {
    hide Pow2;
  }

  /** Takes bytes in until a value's bits are there; none when the bytes run out first. */
  method FillTo(buf: seq<Byte>, p: nat, from: nat, acc0: nat, have0: nat, width: nat, n: nat, ghost out: seq<nat>)
    returns (r: Option<(nat, nat)>, next: nat)
    requires width <= 32 && p <= from <= |buf| && have0 < width + 8 && |out| < n
    requires Carries(out, width, acc0, have0, buf[p..from], 8)
    ensures r.None? ==> p + PackedBytes(n, width) > |buf|
    ensures r.Some? ==>
              && width <= r.value.1 < width + 8 && p <= next <= |buf|
              && Carries(out, width, r.value.0, r.value.1, buf[p..next], 8)
  {
    Pow2Byte();
    var acc, have := acc0, have0;
    next := from;
    while have < width
      invariant have < width + 8
      invariant p <= next <= |buf| && Carries(out, width, acc, have, buf[p..next], 8)
      decreases width + 8 - have
    {
      hide Pow2, Digits, Carries, OrAbove, PackedBytes;
      if next >= |buf| {
        RunsOut(out, width, acc, have, buf[p..next], n);
        return None, next;
      }
      TakeIn(out, width, acc, have, buf[p..next], 8, buf[next]);
      assert buf[p..next + 1] == buf[p..next] + [buf[next]];
      acc := OrAbove(acc, have, buf[next]);
      next := next + 1;
      have := have + 8;
      AccumulatorFits(out, width, acc, have, buf[p..next], 8);
    }
    return Some((acc, have)), next;
  }

  lemma MaskedValue(acc: nat, width: nat)
    requires width <= 32
    ensures LowBits(if width == 32 then acc else LowBits(acc, width), 32) == LowBits(acc, width) < Pow2(width)
  {
    Pow2Monotone(width, 32);
    hide Pow2;
    if width < 32 {
      SmallMod(acc % Pow2(width), Pow2(32));
    }
  }

  lemma RunsOut(out: seq<nat>, width: nat, acc: nat, have: nat, bytes: seq<Byte>, n: nat)
    requires Carries(out, width, acc, have, bytes, 8) && have < width && |out| < n
    ensures PackedBytes(n, width) > |bytes|
  {
    MulSucc(width, |out|);
    ProductOrder(|out| + 1, n, width);
    assert n * width == width * n;
  }

  lemma ReadsDigits(out: seq<nat>, width: nat, acc: nat, have: nat, bytes: seq<Byte>, n: nat)
    requires Carries(out, width, acc, have, bytes, 8) && have < 8 && |out| == n && Fits(out, width)
    ensures |bytes| == PackedBytes(n, width)
    ensures Digits(out, width) == Digits(bytes, 8) % Pow2(width * n)
  {
    hide *;
    CarriedParts(out, width, acc, have, bytes, 8);
    BytesUsed(n, width, have, |bytes|);
    ReadsRemainder(out, width, acc, Digits(bytes, 8));
  }

  lemma ReadsRemainder(out: seq<nat>, width: nat, acc: nat, total: nat)
    requires Fits(out, width) && Digits(out, width) + Pow2(width * |out|) * acc == total
    ensures Digits(out, width) == total % Pow2(width * |out|)
  {
    DigitsBound(out, width);
    hide *;
    Remainder(Pow2(width * |out|), Digits(out, width), acc, total);
  }

  lemma CarriedParts(low: seq<nat>, a: nat, acc: nat, have: nat, whole: seq<nat>, b: nat)
    requires Carries(low, a, acc, have, whole, b)
    ensures a * |low| + have == b * |whole|
    ensures Digits(low, a) + Pow2(a * |low|) * acc == Digits(whole, b)
  {
  }

  lemma BytesUsed(n: nat, width: nat, have: nat, bytes: nat)
    requires width * n + have == 8 * bytes && have < 8
    ensures bytes == PackedBytes(n, width)
  {
    assert n * width == width * n;
  }

  lemma Remainder(m: nat, low: nat, high: nat, total: nat)
    requires low < m && low + m * high == total
    ensures low == total % m
  {
    assert total == total % m + m * (total / m);
    DivModUnique(m, low, high, total % m, total / m);
  }

  lemma SmallMod(x: nat, m: nat)
    requires x < m
    ensures x % m == x
  {
  }

  /** Reading back what was packed gives the gaps. */
  lemma UnpackInvertsPack(bytes: seq<Byte>, gaps: seq<nat>, out: seq<nat>, width: nat)
    requires Encodes(bytes, gaps, width)
    requires |out| == |gaps| && Fits(out, width)
    requires Digits(out, width) == Digits(bytes, 8) % Pow2(width * |gaps|)
    ensures out == gaps
  {
    hide Pow2;
    DigitsBound(gaps, width);
    SmallMod(Digits(gaps, width), Pow2(width * |gaps|));
    DigitsUnique(out, gaps, width);
  }

  // -------------------------------------------------------------------- fixed-width integers

  function LeBytes(x: nat, n: nat): (r: seq<Byte>)
    ensures |r| == n
  {
    if n == 0 then [] else [x % 256] + LeBytes(x / 256, n - 1)
  }

  /** A little-endian integer reads back as it was written. */
  lemma {:induction false} LeRoundTrip(x: nat, n: nat)
    requires x < Pow2(8 * n)
    ensures Digits(LeBytes(x, n), 8) == x
  {
    Pow2Byte();
    if n > 0 {
      AccumulatorBound(x, 8 * (n - 1), 8);
      LeRoundTrip(x / 256, n - 1);
      assert LeBytes(x, n)[1..] == LeBytes(x / 256, n - 1);
    }
  }
}

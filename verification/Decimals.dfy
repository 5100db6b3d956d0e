/** Decimal text of 64-bit integers: written without leading zeros, read back to the same number. */
module Decimals {
  import opened Wrappers
  import opened Schemas

  const I64_MAX: int := 0x7FFF_FFFF_FFFF_FFFF

  function DigitOf(d: nat): char
    requires d < 10
  {
    '0' + d as char
  }

  predicate IsDigit(c: char) { '0' <= c <= '9' }

  function DigitValue(c: char): nat
    requires IsDigit(c)
  {
    c as nat - '0' as nat
  }

  /** No leading zero. */
  function Decimal(n: nat): (s: string)
    ensures s != [] && forall i :: 0 <= i < |s| ==> IsDigit(s[i])
  {
    if n < 10 then [DigitOf(n)] else Decimal(n / 10) + [DigitOf(n % 10)]
  }

  predicate AllDigits(s: string) {
    s != [] && forall i :: 0 <= i < |s| ==> IsDigit(s[i])
  }

  function NumberOf(s: string): nat
    requires forall i :: 0 <= i < |s| ==> IsDigit(s[i])
  {
    if s == [] then 0 else NumberOf(s[..|s| - 1]) * 10 + DigitValue(s[|s| - 1])
  }

  lemma {:induction false} DecimalReads(n: nat)
    ensures NumberOf(Decimal(n)) == n
  {
    var s := Decimal(n);
    if n >= 10 {
      DecimalReads(n / 10);
      assert s[..|s| - 1] == Decimal(n / 10);
    } else {
      assert s[..|s| - 1] == [];
    }
  }

  /** Signed decimal text. */
  function IntText(n: int): string {
    if n < 0 then "-" + Decimal(-n) else Decimal(n)
  }

  predicate Numeric(kind: Kind) { kind.Unsigned? || kind.Signed? }

  predicate InRange(kind: Kind, n: int) {
    match kind
    case Unsigned => 0 <= n <= U64_MAX as int
    case Signed => 0 - I64_MAX - 1 <= n <= I64_MAX
    case _ => false
  }

  /** The integer a text denotes in a numeric column: an optional plus sign, or a minus sign in a signed
      column, and decimal digits. */
  function Parse(kind: Kind, s: string): Option<int> {
    var minus := s != [] && s[0] == '-';
    var digits := if s != [] && (s[0] == '-' || s[0] == '+') then s[1..] else s;
    if !AllDigits(digits) || (minus && !kind.Signed?) then None
    else
      var n: int := if minus then 0 - NumberOf(digits) else NumberOf(digits);
      if InRange(kind, n) then Some(n) else None
  }

  /** Canonical text reads back as the number it was written from, and as none past the column's bounds. */
  lemma TextReads(kind: Kind, n: int)
    ensures Parse(kind, IntText(n)) == if InRange(kind, n) then Some(n) else None
  {
    var digits := Decimal(if n < 0 then -n else n);
    DecimalReads(if n < 0 then -n else n);
    hide Decimal, NumberOf;
    assert IsDigit(digits[0]);
    if n < 0 {
      assert IntText(n) == "-" + digits;
      assert IntText(n)[1..] == digits;
    }
  }

  /** The bounds of a 64-bit unsigned and of a 64-bit signed integer; no other column holds numbers. */
  lemma BoundsAre(kind: Kind, n: int)
    ensures InRange(kind, n) <==> (kind == Unsigned && 0 <= n < 0x1_0000_0000_0000_0000) ||
                                  (kind == Signed && -0x8000_0000_0000_0000 <= n < 0x8000_0000_0000_0000)
  {
  }

  /** The digits are the decimal ones, the last of a number's digits is its remainder by ten, and a minus
      sign comes first. */
  lemma DigitsAre(n: nat)
    ensures n < 10 ==> IntText(n) == ["0123456789"[n]]
    ensures n >= 10 ==> IntText(n) == IntText(n / 10) + IntText(n % 10)
    ensures n > 0 ==> IntText(0 - n) == "-" + IntText(n)
  {
  }

  /** Leading zeros and a plus sign change nothing; a minus sign is for signed columns; there must be a digit. */
  lemma SignsRead(kind: Kind, digits: string)
    requires AllDigits(digits)
    ensures Parse(kind, "+" + digits) == Parse(kind, digits) == Parse(kind, "0" + digits)
    ensures Parse(Unsigned, "-" + digits) == None
    ensures Parse(Signed, digits).Some? ==> Parse(Signed, "-" + digits) == Some(-Parse(Signed, digits).value)
    ensures Parse(kind, "") == Parse(kind, "+") == Parse(kind, "-") == None
  {
    var plus, minus, zero := "+" + digits, "-" + digits, "0" + digits;
    assert plus[1..] == digits && minus[1..] == digits;
    assert AllDigits(zero);
    ZeroLeads(digits);
    hide NumberOf;
    assert IsDigit(digits[0]);
  }

  lemma {:induction false} ZeroLeads(digits: string)
    requires forall i :: 0 <= i < |digits| ==> IsDigit(digits[i])
    ensures forall i :: 0 <= i < |digits| + 1 ==> IsDigit(("0" + digits)[i])
    ensures NumberOf("0" + digits) == NumberOf(digits)
  {
    var zero := "0" + digits;
    if digits != [] {
      ZeroLeads(digits[..|digits| - 1]);
      assert zero[..|zero| - 1] == "0" + digits[..|digits| - 1];
    } else {
      assert zero == ['0'] && zero[..0] == [];
    }
  }

  lemma TextInjective(kind: Kind, a: int, b: int)
    requires InRange(kind, a) && InRange(kind, b) && IntText(a) == IntText(b)
    ensures a == b
  {
    TextReads(kind, a);
    TextReads(kind, b);
  }

  /** The canonical spelling of a number given as text. */
  function Canonical(kind: Kind, s: string): Result<string> {
    var n := Parse(kind, s);
    if n.None? then Err(InvalidData) else Ok(IntText(n.value))
  }
}

/** Option and Result, shared by every module of the model. */
module Wrappers {
  datatype Option<+T> = None | Some(value: T)

  datatype Result<+T> = Ok(value: T) | Err(error: Error)

  /** The kinds of failure the modelled operations report. */
  datatype Error =
    | InvalidInput
    | InvalidData
    | AlreadyExists
    | NotFound
    | WouldBlock
    | Overflow

  const U32_MAX: nat := 0xFFFF_FFFF
  const U64_MAX: nat := 0xFFFF_FFFF_FFFF_FFFF

  function Min(a: nat, b: nat): nat { if a <= b then a else b }

  function SaturatingAdd(a: nat, b: nat): nat { Min(a + b, U64_MAX) }

  /** The numbers below n, in order. */
  function Iota(n: nat): (s: seq<nat>)
    ensures |s| == n && forall i :: 0 <= i < n ==> s[i] == i
  {
    seq<nat>(n, i requires 0 <= i => i)
  }

  function SaturatingSub(a: nat, b: nat): nat { if a >= b then a - b else 0 }

  lemma ProductOrder(a: nat, b: nat, n: nat)
    ensures a <= b ==> a * n <= b * n
  {
    if a <= b {
      assert b * n == a * n + (b - a) * n;
    }
  }
}

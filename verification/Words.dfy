/** Machine words as numbers, their bits, and draining a mask from its lowest bit. */
module Words {
  import opened BitPacking

  const WORD: nat := 64

  ghost predicate IsWord(w: nat) { w < Pow2(WORD) }

  predicate Bit(w: nat, i: nat)
    decreases i
  {
    if i == 0 then w % 2 == 1 else Bit(w / 2, i - 1)
  }

  function And(a: nat, b: nat): nat {
    if a == 0 || b == 0 then 0
    else (if a % 2 == 1 && b % 2 == 1 then 1 else 0) + 2 * And(a / 2, b / 2)
  }

  function Or(a: nat, b: nat): nat {
    if a == 0 && b == 0 then 0
    else (if a % 2 == 1 || b % 2 == 1 then 1 else 0) + 2 * Or(a / 2, b / 2)
  }

  /** The complement of the low n bits. */
  function Not(w: nat, n: nat): nat
    decreases n
  {
    if n == 0 then 0 else (1 - w % 2) + 2 * Not(w / 2, n - 1)
  }

  function TrailingZeros(w: nat): nat
    requires w > 0
  {
    if w % 2 == 1 then 0 else 1 + TrailingZeros(w / 2)
  }

  lemma {:induction false} BitZero(i: nat)
    ensures !Bit(0, i)
  {
    if i > 0 {
      BitZero(i - 1);
    }
  }

  lemma AndHalves(a: nat, b: nat)
    ensures And(a, b) / 2 == And(a / 2, b / 2)
    ensures And(a, b) % 2 == 1 <==> a % 2 == 1 && b % 2 == 1
  {
  }

  lemma OrHalves(a: nat, b: nat)
    ensures Or(a, b) / 2 == Or(a / 2, b / 2)
    ensures Or(a, b) % 2 == 1 <==> a % 2 == 1 || b % 2 == 1
  {
  }

  lemma {:induction false} BitAnd(a: nat, b: nat, i: nat)
    ensures Bit(And(a, b), i) <==> Bit(a, i) && Bit(b, i)
    decreases i
  {
    hide And;
    AndHalves(a, b);
    if i > 0 {
      BitAnd(a / 2, b / 2, i - 1);
    }
  }

  lemma {:induction false} BitOr(a: nat, b: nat, i: nat)
    ensures Bit(Or(a, b), i) <==> Bit(a, i) || Bit(b, i)
    decreases i
  {
    hide Or;
    OrHalves(a, b);
    if i > 0 {
      BitOr(a / 2, b / 2, i - 1);
    }
  }

  lemma {:induction false} BitNot(w: nat, n: nat, i: nat)
    ensures Bit(Not(w, n), i) <==> i < n && !Bit(w, i)
    decreases n
  {
    if n == 0 {
      BitZero(i);
    } else if i > 0 {
      assert Not(w, n) / 2 == Not(w / 2, n - 1);
      BitNot(w / 2, n - 1, i - 1);
    }
  }

  lemma {:induction false} BitOfPow2(k: nat, i: nat)
    ensures Bit(Pow2(k), i) <==> i == k
    decreases k
  {
    if k > 0 && i > 0 {
      BitOfPow2(k - 1, i - 1);
    } else if i > 0 {
      BitZero(i - 1);
    }
  }

  /** 2^n - 1 has exactly the low n bits. */
  lemma {:induction false} BitOfOnes(n: nat, i: nat)
    ensures Bit(Pow2(n) - 1, i) <==> i < n
    decreases n
  {
    if n == 0 {
      BitZero(i);
    } else if i > 0 {
      assert (Pow2(n) - 1) / 2 == Pow2(n - 1) - 1;
      BitOfOnes(n - 1, i - 1);
    }
  }

  lemma {:induction false} BitBound(w: nat, n: nat, i: nat)
    requires w < Pow2(n) && Bit(w, i)
    ensures i < n
    decreases n
  {
    if n == 0 {
      BitZero(i);
    } else if i > 0 {
      BitBound(w / 2, n - 1, i - 1);
    }
  }

  /** Numbers below 2^n that agree on n bits are equal. */
  lemma {:induction false} BitsDetermine(a: nat, b: nat, n: nat)
    requires a < Pow2(n) && b < Pow2(n)
    requires forall i :: 0 <= i < n ==> (Bit(a, i) <==> Bit(b, i))
    ensures a == b
    decreases n
  {
    if n > 0 {
      assert Bit(a, 0) <==> Bit(b, 0);
      forall i | 0 <= i < n - 1 ensures Bit(a / 2, i) <==> Bit(b / 2, i) {
        assert Bit(a, i + 1) <==> Bit(b, i + 1);
      }
      BitsDetermine(a / 2, b / 2, n - 1);
    }
  }

  lemma {:induction false} AndSelf(a: nat)
    ensures And(a, a) == a
  {
    if a > 0 {
      AndSelf(a / 2);
    }
  }

  lemma {:induction false} AndBound(a: nat, b: nat)
    ensures And(a, b) <= a
  {
    if a > 0 && b > 0 {
      AndBound(a / 2, b / 2);
    }
  }

  lemma {:induction false} OrBound(a: nat, b: nat, n: nat)
    requires a < Pow2(n) && b < Pow2(n)
    ensures Or(a, b) < Pow2(n)
    decreases n
  {
    if n > 0 {
      OrBound(a / 2, b / 2, n - 1);
    }
  }

  lemma {:induction false} LowestBit(m: nat, i: nat)
    requires m > 0
    ensures Bit(m, TrailingZeros(m))
    ensures i < TrailingZeros(m) ==> !Bit(m, i)
  {
    if m % 2 == 0 {
      LowestBit(m / 2, if i > 0 then i - 1 else 0);
    }
  }

  /** m & (m - 1) drops the lowest bit and nothing else. */
  lemma {:induction false} Peel(m: nat, i: nat)
    requires m > 0
    ensures And(m, m - 1) < m
    ensures Bit(And(m, m - 1), i) <==> Bit(m, i) && i != TrailingZeros(m)
    decreases m
  {
    var h := m / 2;
    if m % 2 == 1 {
      assert (m - 1) / 2 == h;
      AndSelf(h);
      if m == 1 {
        BitZero(i);
        if i > 0 { BitZero(i - 1); }
      } else {
        assert And(m, m - 1) == 2 * h;
      }
    } else {
      assert (m - 1) / 2 == h - 1;
      AndBound(h, h - 1);
      if i > 0 {
        Peel(h, i - 1);
      } else {
        Peel(h, 0);
      }
      assert And(m, m - 1) == 2 * And(h, h - 1);
    }
  }
}

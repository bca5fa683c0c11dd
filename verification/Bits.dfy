/** Bitwise or and and on numbers. */
module Bits {
  import opened Arithmetic

  function Or(a: nat, b: nat): nat {
    if a == 0 then b
    else if b == 0 then a
    else (if a % 2 == 1 || b % 2 == 1 then 1 else 0) + 2 * Or(a / 2, b / 2)
  }

  lemma {:induction false} OrBelow(a: nat, b: nat, n: nat)
    requires a < Pow2(n) && b < Pow2(n)
    ensures Or(a, b) < Pow2(n)
    decreases n
  {
    if a != 0 && b != 0 {
      OrBelow(a / 2, b / 2, n - 1);
    }
  }

  /** Bits that do not overlap add up. */
  lemma {:induction false} OrDisjoint(a: nat, b: nat, n: nat)
    requires b < Pow2(n)
    ensures Or(a * Pow2(n), b) == a * Pow2(n) + b
    decreases n
  {
    if a != 0 && b != 0 {
      var h := a * Pow2(n - 1);
      assert a * Pow2(n) == 2 * h;
      FarMultiple(a, Pow2(n - 1));
      OrDisjoint(a, b / 2, n - 1);
    }
  }

  function And(a: nat, b: nat): (r: nat)
    ensures r <= a
  {
    if a == 0 || b == 0 then 0 else (if a % 2 == 1 && b % 2 == 1 then 1 else 0) + 2 * And(a / 2, b / 2)
  }

  /** A mask put together from two that do not overlap. */
  lemma {:induction false} AndSplit(a: nat, b: nat, c: nat)
    requires And(b, c) == 0
    ensures And(a, b + c) == And(a, b) + And(a, c)
    decreases a
  {
    if a != 0 && b != 0 && c != 0 {
      assert (b + c) / 2 == b / 2 + c / 2 && (b + c) % 2 == b % 2 + c % 2;
      AndSplit(a / 2, b / 2, c / 2);
    }
  }

  /** A single bit is there or it is not. */
  lemma {:induction false} OneBit(a: nat, k: nat)
    ensures And(a, Pow2(k)) == 0 || And(a, Pow2(k)) == Pow2(k)
    decreases k
  {
    if a != 0 && k > 0 {
      OneBit(a / 2, k - 1);
    }
  }

  lemma {:induction false} AndSwap(a: nat, b: nat)
    ensures And(a, b) == And(b, a)
  {
    if a != 0 && b != 0 {
      AndSwap(a / 2, b / 2);
    }
  }

  /** A bit above a number is not in it. */
  lemma {:induction false} BitAbove(a: nat, k: nat)
    requires a < Pow2(k)
    ensures And(a, Pow2(k)) == 0
    decreases k
  {
    if a != 0 && k > 0 {
      BitAbove(a / 2, k - 1);
    }
  }

  lemma {:induction false} AndSame(a: nat)
    ensures And(a, a) == a
  {
    if a != 0 {
      AndSame(a / 2);
    }
  }

  type Byte = c: nat | c < 256

  function OrByte(a: Byte, b: Byte): Byte {
    OrBelow(a, b, 8);
    assert Pow2(8) == 256;
    Or(a, b)
  }

  /** A bit of either is a bit of the or, a bit of both one of the and. */
  lemma {:induction false} BitByBit(a: nat, b: nat, k: nat)
    ensures Or(a, b) / Pow2(k) % 2 == 1 <==> a / Pow2(k) % 2 == 1 || b / Pow2(k) % 2 == 1
    ensures And(a, b) / Pow2(k) % 2 == 1 <==> a / Pow2(k) % 2 == 1 && b / Pow2(k) % 2 == 1
    decreases k
  {
    if a == 0 || b == 0 {
      DivModUnique(0, 0, Pow2(k));
    } else if k > 0 {
      BitByBit(a / 2, b / 2, k - 1);
      Halves(a, k);
      Halves(b, k);
      Halves(Or(a, b), k);
      Halves(And(a, b), k);
    }
  }

  lemma Halves(x: nat, k: nat)
    requires k > 0
    ensures x / Pow2(k) == x / 2 / Pow2(k - 1)
  {
    ShrTwice(x, 1, k - 1);
    assert Pow2(1) == 2;
  }

  lemma {:induction false} OrSwap(a: nat, b: nat)
    ensures Or(a, b) == Or(b, a)
  {
    if a != 0 && b != 0 {
      OrSwap(a / 2, b / 2);
    }
  }
}

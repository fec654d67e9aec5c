/** Bit operations on naturals, bit by bit: what |, & and ~ with one-bit masks do to a word. */
module Bits {

  /** w & (1 << k) is not zero. */
  predicate Bit(w: nat, k: nat)
    decreases k
  {
    if k == 0 then w % 2 == 1 else Bit(w / 2, k - 1)
  }

  /** w | (1 << k) */
  function SetBit(w: nat, k: nat): nat
    decreases k
  {
    if k == 0 then (if w % 2 == 1 then w else w + 1)
    else 2 * SetBit(w / 2, k - 1) + w % 2
  }

  /** w & ~(1 << k) */
  function ClearBit(w: nat, k: nat): nat
    decreases k
  {
    if k == 0 then w - w % 2
    else 2 * ClearBit(w / 2, k - 1) + w % 2
  }

  /** a & ~b */
  function AndNot(a: nat, b: nat): nat {
    if a == 0 then 0
    else 2 * AndNot(a / 2, b / 2) + if a % 2 == 1 && b % 2 == 0 then 1 else 0
  }

  /** Index of the lowest set bit (__builtin_ctz). */
  function LowestBit(w: nat): nat
    requires w > 0
  {
    if w % 2 == 1 then 0 else 1 + LowestBit(w / 2)
  }

  function Pow2(n: nat): nat {
    if n == 0 then 1 else 2 * Pow2(n - 1)
  }

  lemma {:induction false} BitOfSetBit(w: nat, k: nat, j: nat)
    ensures Bit(SetBit(w, k), j) <==> j == k || Bit(w, j)
    decreases k
  {
    if k > 0 {
      var h := SetBit(w / 2, k - 1);
      assert (2 * h + w % 2) / 2 == h && (2 * h + w % 2) % 2 == w % 2;
      if j > 0 {
        BitOfSetBit(w / 2, k - 1, j - 1);
      }
    } else if j > 0 {
      assert SetBit(w, 0) / 2 == w / 2;
    }
  }

  lemma {:induction false} BitOfClearBit(w: nat, k: nat, j: nat)
    ensures Bit(ClearBit(w, k), j) <==> j != k && Bit(w, j)
    decreases k
  {
    if k > 0 {
      var h := ClearBit(w / 2, k - 1);
      assert (2 * h + w % 2) / 2 == h && (2 * h + w % 2) % 2 == w % 2;
      if j > 0 {
        BitOfClearBit(w / 2, k - 1, j - 1);
      }
    } else if j > 0 {
      assert ClearBit(w, 0) / 2 == w / 2;
    }
  }

  lemma {:induction false} BitOfAndNot(a: nat, b: nat, j: nat)
    ensures Bit(AndNot(a, b), j) <==> Bit(a, j) && !Bit(b, j)
    decreases j
  {
    if a == 0 {
      ZeroHasNoBits(j);
    } else {
      var h := AndNot(a / 2, b / 2);
      var low := if a % 2 == 1 && b % 2 == 0 then 1 else 0;
      assert (2 * h + low) / 2 == h && (2 * h + low) % 2 == low;
      if j > 0 {
        BitOfAndNot(a / 2, b / 2, j - 1);
      }
    }
  }

  lemma {:induction false} ZeroHasNoBits(j: nat)
    ensures !Bit(0, j)
  {
    if j > 0 {
      ZeroHasNoBits(j - 1);
    }
  }

  lemma {:induction false} LowestBitIsLowest(w: nat)
    requires w > 0
    ensures Bit(w, LowestBit(w)) && forall j :: 0 <= j < LowestBit(w) ==> !Bit(w, j)
  {
    if w % 2 == 0 {
      LowestBitIsLowest(w / 2);
    }
  }

  /** Words keep their width. */
  lemma {:induction false} WidthKept(w: nat, k: nat, n: nat)
    requires w < Pow2(n) && k < n
    ensures SetBit(w, k) < Pow2(n) && ClearBit(w, k) < Pow2(n)
    decreases n
  {
    var half := Pow2(n - 1);
    assert Pow2(n) == 2 * half && w / 2 < half;
    if k > 0 {
      WidthKept(w / 2, k - 1, n - 1);
      assert SetBit(w, k) == 2 * SetBit(w / 2, k - 1) + w % 2;
      assert ClearBit(w, k) == 2 * ClearBit(w / 2, k - 1) + w % 2;
    }
  }

  /** A word of n bits that is not zero has a set bit below n. */
  lemma {:induction false} SomeBitSet(w: nat, n: nat)
    requires 0 < w < Pow2(n)
    ensures LowestBit(w) < n
    decreases n
  {
    if w % 2 == 0 {
      SomeBitSet(w / 2, n - 1);
    }
  }

  lemma {:induction false} AndNotWithin(a: nat, b: nat)
    ensures AndNot(a, b) <= a
    decreases a
  {
    if a > 0 {
      AndNotWithin(a / 2, b / 2);
    }
  }

  /** Clearing a bit and putting back what it was restores the word. */
  lemma {:induction false} ClearThenRestore(w: nat, k: nat)
    ensures Bit(w, k) ==> SetBit(ClearBit(w, k), k) == w
    ensures !Bit(w, k) ==> ClearBit(ClearBit(w, k), k) == w
    decreases k
  {
    if k > 0 {
      var h := ClearBit(w / 2, k - 1);
      assert (2 * h + w % 2) / 2 == h && (2 * h + w % 2) % 2 == w % 2;
      ClearThenRestore(w / 2, k - 1);
    }
  }

  lemma Pow2Of32()
    ensures Pow2(32) == 0x1_0000_0000
  {
    assert Pow2(8) == 256;
    assert Pow2(16) == 65536;
    assert Pow2(24) == 16777216;
  }

  lemma WordWidthKept(w: nat, k: nat)
    requires w < 0x1_0000_0000 && k < 32
    ensures SetBit(w, k) < 0x1_0000_0000 && ClearBit(w, k) < 0x1_0000_0000
  {
    Pow2Of32();
    WidthKept(w, k, 32);
  }
}

/**
 * Bit tests on non-negative integers, used for the battery's error and mode bitmasks
 * and the charge/discharge status flags. Bit k of x is read by halving k times, and
 * bitwise AND (`&` on unsigned operands) is defined bit by bit from the low end.
 */
module Bits {

  function Pow2(k: nat): (r: nat)
    ensures r >= 1
  {
    if k == 0 then 1 else 2 * Pow2(k - 1)
  }

  /** Bit k of x, counting from the least significant bit. */
  predicate BitSet(x: nat, k: nat)
    decreases k
  {
    if k == 0 then x % 2 == 1 else BitSet(x / 2, k - 1)
  }

  /** Unsigned bitwise AND. */
  function And(a: nat, b: nat): nat
    decreases a
  {
    if a == 0 || b == 0 then 0
    else 2 * And(a / 2, b / 2) + (if a % 2 == 1 && b % 2 == 1 then 1 else 0)
  }

  /** A bit of a & b is set exactly when it is set in both operands. */
  lemma {:induction false} AndBit(a: nat, b: nat, k: nat)
    ensures BitSet(And(a, b), k) <==> BitSet(a, k) && BitSet(b, k)
    decreases k
  {
    if a == 0 || b == 0 {
      ZeroHasNoBits(k);
      if a == 0 { ZeroBitsOf(a, k); } else { ZeroBitsOf(b, k); }
    } else {
      var q, d := And(a / 2, b / 2), if a % 2 == 1 && b % 2 == 1 then 1 else 0;
      assert And(a, b) == 2 * q + d;
      if k == 0 {
        assert (2 * q + d) % 2 == d;
      } else {
        assert (2 * q + d) / 2 == q;
        AndBit(a / 2, b / 2, k - 1);
      }
    }
  }

  /** No bit of 0 is set. */
  lemma {:induction false} ZeroHasNoBits(k: nat)
    ensures !BitSet(0, k)
    decreases k
  {
    if k > 0 { ZeroHasNoBits(k - 1); }
  }

  /** Restatement of ZeroHasNoBits for a variable known to be 0. */
  lemma ZeroBitsOf(x: nat, k: nat)
    requires x == 0
    ensures !BitSet(x, k)
  {
    ZeroHasNoBits(k);
  }

  /** Pow2(k) has bit k set and no other. */
  lemma {:induction false} Pow2Bits(k: nat, j: nat)
    ensures BitSet(Pow2(k), j) <==> j == k
    decreases k
  {
    if k == 0 {
      if j > 0 { assert Pow2(0) / 2 == 0; ZeroBitsOf(Pow2(0) / 2, j - 1); }
    } else if j == 0 {
    } else {
      assert Pow2(k) / 2 == Pow2(k - 1);
      Pow2Bits(k - 1, j - 1);
    }
  }

  /** Numbers with the same bits are equal. */
  lemma {:induction false} SameBitsEqual(x: nat, y: nat)
    requires forall k: nat :: BitSet(x, k) <==> BitSet(y, k)
    ensures x == y
    decreases x + y
  {
    if x + y > 0 {
      forall k: nat
        ensures BitSet(x / 2, k) <==> BitSet(y / 2, k)
      {
        assert BitSet(x, k + 1) <==> BitSet(y, k + 1);
      }
      assert BitSet(x, 0) <==> BitSet(y, 0);
      SameBitsEqual(x / 2, y / 2);
    }
  }

  /** `x & (1 << k)` is nonzero exactly when bit k of x is set. */
  lemma AndPow2(x: nat, k: nat)
    ensures And(x, Pow2(k)) != 0 <==> BitSet(x, k)
  {
    AndBit(x, Pow2(k), k);
    Pow2Bits(k, k);
    if And(x, Pow2(k)) == 0 { ZeroHasNoBits(k); }
    if BitSet(And(x, Pow2(k)), k) { ZeroBitsOf(0, k); }
  }
}

/** Shifts and single bits of natural numbers, as the tree code uses them on leaf indices. */
module Bits {

  /** n >> k */
  function Shr(n: nat, k: nat): nat {
    if k == 0 then n else Shr(n, k - 1) / 2
  }

  /** (n >> k) & 1 */
  function Bit(n: nat, k: nat): nat {
    Shr(n, k) % 2
  }

  function Pow2(k: nat): (p: nat)
    ensures p >= 1
  {
    if k == 0 then 1 else 2 * Pow2(k - 1)
  }

  /** The shift can be peeled off at the low end as well. */
  lemma {:induction false} ShrFromBelow(n: nat, k: nat)
    ensures Shr(n, k + 1) == Shr(n / 2, k)
  {
    if k > 0 {
      ShrFromBelow(n, k - 1);
    }
  }

  /** A shift by k leaves nothing exactly when the number has at most k digits. */
  lemma {:induction false} ShrIsZero(n: nat, k: nat)
    ensures Shr(n, k) == 0 <==> n < Pow2(k)
  {
    if k > 0 {
      ShrFromBelow(n, k - 1);
      ShrIsZero(n / 2, k - 1);
    }
  }

  /** Adding one carries through the trailing ones of n and stops at its lowest zero digit. */
  lemma {:induction false} ShrSucc(n: nat, low: nat, k: nat)
    requires forall i :: 0 <= i < low ==> Bit(n, i) == 1
    requires Bit(n, low) == 0
    ensures Shr(n + 1, k) == if k <= low then Shr(n, k) + 1 else Shr(n, k)
  {
    if k > 0 {
      ShrSucc(n, low, k - 1);
      if k <= low {
        assert Bit(n, k - 1) == 1;
      }
    }
  }

  /** Adding one carries out of k ones. */
  lemma {:induction false} ShrCarry(n: nat, k: nat)
    requires forall i :: 0 <= i < k ==> Bit(n, i) == 1
    ensures Shr(n + 1, k) == Shr(n, k) + 1
  {
    if k > 0 {
      ShrCarry(n, k - 1);
      assert Bit(n, k - 1) == 1;
    }
  }

  /** Among the numbers below 2^k, only the last one has no zero digit. */
  lemma AllOnes(n: nat, k: nat)
    requires n < Pow2(k)
    requires forall i :: 0 <= i < k ==> Bit(n, i) == 1
    ensures n == Pow2(k) - 1
  {
    ShrCarry(n, k);
    ShrIsZero(n, k);
    ShrIsZero(n + 1, k);
  }

  lemma LowestZero(n: nat, low: nat, k: nat)
    requires n < Pow2(k) && low < k
    requires forall i :: 0 <= i < low ==> Bit(n, i) == 1
    requires Bit(n, low) == 0
    ensures n + 1 < Pow2(k)
  {
    ShrSucc(n, low, k);
    ShrIsZero(n, k);
    ShrIsZero(n + 1, k);
  }
}

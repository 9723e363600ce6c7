/** Machine words as natural numbers, and the bit operations the loss bitmap and
    the NACK encoding perform on them. Shifting by the width or more yields 0,
    as in Go. */
module Bits {

  function Bit(x: nat, k: nat): bool {
    if k == 0 then x % 2 == 1 else Bit(x / 2, k - 1)
  }

  /** x >> n */
  function Shr(x: nat, n: nat): nat {
    if n == 0 then x else Shr(x / 2, n - 1)
  }

  function Pow2(n: nat): (p: nat)
    ensures p >= 1
  {
    if n == 0 then 1 else 2 * Pow2(n - 1)
  }

  /** x | 1 << k, in a word wide enough for bit k. */
  function SetBit(x: nat, k: nat): nat {
    if k == 0 then x + 1 - x % 2 else 2 * SetBit(x / 2, k - 1) + x % 2
  }

  /** x | 1 << k in a word of width bits: nothing is set beyond the width. */
  function SetBitIn(x: nat, k: nat, width: nat): nat {
    if k < width then SetBit(x, k) else x
  }

  /** ^x & ^(^0 << n): the zeros among the n lowest bits. */
  function LowZeros(x: nat, n: nat): nat {
    if n == 0 then 0 else 2 * LowZeros(x / 2, n - 1) + (1 - x % 2)
  }

  /** The number of ones below the lowest zero: TrailingZeros of ^x. */
  function TrailingOnes(x: nat): nat {
    if x % 2 == 1 then 1 + TrailingOnes(x / 2) else 0
  }

  function TrailingZeros(x: nat): nat
    requires x > 0
  {
    if x % 2 == 1 then 0 else 1 + TrailingZeros(x / 2)
  }

  lemma {:induction false} BitOfShr(x: nat, n: nat, k: nat)
    ensures Bit(Shr(x, n), k) == Bit(x, n + k)
  {
    if n > 0 {
      BitOfShr(x / 2, n - 1, k);
    }
  }

  lemma {:induction false} BitOfSetBit(x: nat, k: nat, j: nat)
    ensures Bit(SetBit(x, k), j) == (j == k || Bit(x, j))
  {
    if k == 0 {
      assert SetBit(x, k) / 2 == x / 2;
    } else {
      assert SetBit(x, k) / 2 == SetBit(x / 2, k - 1);
      if j > 0 {
        BitOfSetBit(x / 2, k - 1, j - 1);
      }
    }
  }

  lemma {:induction false} BitOfLowZeros(x: nat, n: nat, j: nat)
    ensures Bit(LowZeros(x, n), j) == (j < n && !Bit(x, j))
    decreases j
  {
    if j == 0 {
      if n > 0 {
        assert LowZeros(x, n) % 2 == 1 - x % 2;
      }
    } else {
      if n > 0 {
        assert LowZeros(x, n) / 2 == LowZeros(x / 2, n - 1);
        BitOfLowZeros(x / 2, n - 1, j - 1);
      } else {
        BitOfLowZeros(0, 0, j - 1);
      }
    }
  }

  lemma {:induction false} OnesBelowZero(x: nat, j: nat)
    ensures j < TrailingOnes(x) ==> Bit(x, j)
    ensures j == TrailingOnes(x) ==> !Bit(x, j)
  {
    if x % 2 == 1 && j > 0 {
      OnesBelowZero(x / 2, j - 1);
    }
  }

  lemma {:induction false} ZerosBelowOne(x: nat, j: nat)
    requires x > 0
    ensures j < TrailingZeros(x) ==> !Bit(x, j)
    ensures j == TrailingZeros(x) ==> Bit(x, j)
  {
    if x % 2 == 0 && j > 0 {
      ZerosBelowOne(x / 2, j - 1);
    }
  }

  lemma {:induction false} ZeroHasNoBit(j: nat)
    ensures !Bit(0, j)
  {
    if j > 0 {
      ZeroHasNoBit(j - 1);
    }
  }

  /** A positive word has a bit set. */
  lemma PositiveHasBit(x: nat)
    requires x > 0
    ensures Bit(x, TrailingZeros(x))
  {
    ZerosBelowOne(x, TrailingZeros(x));
  }

  ghost predicate NoBitFrom(x: nat, n: nat) {
    forall j: nat :: j >= n ==> !Bit(x, j)
  }

  /** A word is below 2^n exactly when it has no bit at n or beyond. */
  lemma {:induction false} FitsIff(x: nat, n: nat)
    ensures x < Pow2(n) <==> NoBitFrom(x, n)
  {
    if n == 0 {
      if x == 0 {
        forall j: nat ensures !Bit(0, j) { ZeroHasNoBit(j); }
      } else {
        PositiveHasBit(x);
      }
    } else {
      FitsIff(x / 2, n - 1);
      if NoBitFrom(x / 2, n - 1) {
        forall j: nat | j >= n ensures !Bit(x, j) {
          assert !Bit(x / 2, j - 1);
        }
      }
      if NoBitFrom(x, n) {
        forall j: nat | j >= n - 1 ensures !Bit(x / 2, j) {
          assert !Bit(x, j + 1);
        }
      }
    }
  }
}

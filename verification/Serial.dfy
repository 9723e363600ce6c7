/** 16-bit serial numbers: wrap-around, the modular comparison used on every
    packet path, and when that comparison agrees with the unbounded order. */
module Serial {

  const MODULUS := 0x1_0000

  type U16 = x: int | 0 <= x < MODULUS

  /** Go's conversion to uint16: wrap until the number fits. (Recursive, so
      that the verifier does not reason about division unless a lemma asks.) */
  function W(x: int): U16
    decreases if x < 0 then MODULUS - x else x
  {
    if x < 0 then W(x + MODULUS)
    else if x >= MODULUS then W(x - MODULUS)
    else x
  }

  lemma WrapSelf(s: U16)
    ensures W(s) == s
  {
  }

  /** W(x) differs from x by whole turns. */
  lemma {:induction false} Turns(x: int) returns (q: int)
    ensures x == W(x) + q * MODULUS
    decreases if x < 0 then MODULUS - x else x
  {
    if x < 0 {
      q := Turns(x + MODULUS) ;
      q := q - 1;
    } else if x >= MODULUS {
      q := Turns(x - MODULUS);
      q := q + 1;
    } else {
      q := 0;
    }
  }

  lemma {:induction false} WrapTurn(x: int)
    ensures W(x + MODULUS) == W(x) == W(x - MODULUS)
    decreases if x < 0 then MODULUS - x else x
  {
    if x < 0 {
      WrapTurn(x + MODULUS);
    } else if x >= MODULUS {
      WrapTurn(x - MODULUS);
    }
  }

  /** Numbers that differ by whole turns wrap to the same number. */
  lemma {:induction false} Congruent(x: int, y: int, q: int)
    requires x == y + q * MODULUS
    ensures W(x) == W(y)
    decreases if q < 0 then -q else q
  {
    WrapTurn(x);
    if q > 0 {
      Congruent(x - MODULUS, y, q - 1);
    } else if q < 0 {
      Congruent(x + MODULUS, y, q + 1);
    }
  }

  /** Wrapping may be done before or after adding. */
  lemma WrapAdd(x: int, y: int)
    ensures W(W(x) + y) == W(x + y) == W(x + W(y)) == W(W(x) + W(y))
  {
    var p := Turns(x);
    var q := Turns(y);
    Congruent(x + y, W(x) + y, p);
    Congruent(x + y, x + W(y), q);
    Congruent(x + y, W(x) + W(y), p + q);
  }

  lemma WrapSub(x: int, y: int)
    ensures W(W(x) - y) == W(x - y) == W(x - W(y)) == W(W(x) - W(y))
  {
    var p := Turns(x);
    var q := Turns(y);
    Congruent(x - y, W(x) - y, p);
    Congruent(x - y, x - W(y), -q);
    Congruent(x - y, W(x) - W(y), p - q);
  }

  /** The source's compare: the sign of s1 - s2 modulo 2^16, with bit 15 of
      s2 - s1 deciding (so numbers exactly 2^15 apart compare as greater). */
  function Compare(s1: U16, s2: U16): int {
    if s1 == s2 then 0
    else if W(s2 - s1) >= 0x8000 then 1
    else -1
  }

  /** The two distances between numbers add up to a turn, and the comparison looks at the first. */
  lemma Distances(x: U16, y: U16)
    ensures Compare(x, y) < 0 <==> 0 < W(y - x) < 0x8000
    ensures Compare(x, y) > 0 <==> W(y - x) >= 0x8000
    ensures W(y - x) + W(x - y) == if x == y then 0 else MODULUS
    ensures W(y - x) == 0 <==> x == y
  {
  }

  /** Compare decides the unbounded order of two numbers that lie within 2^15 of each other. */
  lemma CompareExact(x: int, y: int)
    requires -0x8000 < x - y <= 0x8000
    ensures Compare(W(x), W(y)) == if x < y then -1 else if x == y then 0 else 1
  {
    WrapSub(y, x);
    if W(x) == W(y) {
      SameResidue(x, y);
    }
  }

  /** Two congruent numbers less than 2^16 apart are the same number. */
  lemma SameResidue(x: int, y: int)
    requires W(x) == W(y) && -MODULUS < x - y < MODULUS
    ensures x == y
  {
    var p := Turns(x);
    var q := Turns(y);
  }

  /** The number congruent to s that is closest at or above x. */
  function Above(x: int, s: U16): (r: int)
    ensures x <= r < x + MODULUS && W(r) == s
  {
    WrapAdd(x, s - x);
    x + W(s - x)
  }

  /** The number congruent to s that is closest at or below x. */
  function Below(x: int, s: U16): (r: int)
    ensures x - MODULUS < r <= x && W(r) == s
  {
    WrapSub(x, x - s);
    x - W(x - s)
  }

  /** The number congruent to s that the modular comparison takes it for, seen from x. */
  function Nearest(x: int, s: U16): int {
    if W(s - W(x)) < 0x8000 then Above(x, s) else Below(x, s)
  }

  /** More than 256 behind the reference: too late to be taken for a late packet. */
  predicate SeqnoInvalid(seqno: U16, reference: U16) {
    if Compare(reference, seqno) < 0 then false else W(reference - seqno) > 0x100
  }

  /** The 16-bit tests on s, read as tests on the number meant. */
  lemma NearestPosition(x: int, s: U16)
    ensures W(s - W(x)) < 0x8000 ==> Nearest(x, s) - x == W(s - W(x))
    ensures W(s - W(x)) >= 0x8000 ==> x - Nearest(x, s) == W(W(x) - s)
    ensures Compare(W(x), s) > 0 <==> W(s - W(x)) >= 0x8000
    ensures Compare(W(x), s) == 0 <==> W(s - W(x)) == 0
    ensures Compare(W(x), s) < 0 <==> Nearest(x, s) > x
    ensures Compare(W(x), s) > 0 <==> Nearest(x, s) < x
    ensures SeqnoInvalid(s, W(x)) <==> Nearest(x, s) < x - 0x100
  {
    WrapSub(s, x);
    WrapSub(x, s);
    if W(s - W(x)) == 0 {
      SameResidue(s, W(x));
    }
  }
}

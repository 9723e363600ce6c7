/** Types that several parts of the program share. */
module Basics {

  datatype Option<+T> = None | Some(value: T)

  /** A computation that may panic. */
  datatype Outcome<+T> = Panic | Value(value: T)

  const TWO_32 := 0x1_0000_0000

  type Byte = x: int | 0 <= x < 256
  type U32 = x: int | 0 <= x < TWO_32

  function Concat<T>(ss: seq<seq<T>>): seq<T> {
    if ss == [] then [] else Concat(ss[..|ss| - 1]) + ss[|ss| - 1]
  }

  lemma {:induction false} ConcatSum<T>(a: seq<seq<T>>, b: seq<seq<T>>)
    ensures Concat(a + b) == Concat(a) + Concat(b)
  {
    if b == [] {
      assert a + b == a;
    } else {
      ConcatSum(a, b[..|b| - 1]);
      assert (a + b)[..|a + b| - 1] == a + b[..|b| - 1];
    }
  }

  lemma ConcatOne<T>(s: seq<T>)
    ensures Concat([s]) == s
  {
    assert [s][..0] == [];
  }

  lemma Splits<T>(s: seq<T>, n: nat)
    requires n <= |s|
    ensures s[..n] + s[n..] == s
  {
  }

  lemma ConcatPrefix<T>(a: seq<seq<T>>, b: seq<seq<T>>)
    requires a <= b
    ensures Concat(a) <= Concat(b)
  {
    ConcatSum(a, b[|a|..]);
    assert a + b[|a|..] == b;
  }
}

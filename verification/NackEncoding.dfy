/** Packing a sorted list of lost sequence numbers into NACK pairs (section
    6.2.1 of RFC 4585): the packing is exact, in order, and as short as possible. */
module NackEncoding {
  import opened Serial
  import opened Bits

  datatype NackPair = NackPair(pid: U16, blp: nat)

  const MAX_PAIRS := 240

  // ---------------------------------------------------------------- decoding

  /** The numbers base + j for the bits j of blp, lowest first. */
  function Offsets(blp: nat, base: int): seq<U16> {
    if blp == 0 then []
    else (if blp % 2 == 1 then [W(base)] else []) + Offsets(blp / 2, base + 1)
  }

  /** The numbers a pair asks for. */
  function Decode(p: NackPair): seq<U16> {
    [p.pid] + Offsets(p.blp, Next(p.pid))
  }

  function Next(pid: int): int {
    pid + 1
  }

  function DecodeAll(ps: seq<NackPair>): seq<U16> {
    if ps == [] then [] else Decode(ps[0]) + DecodeAll(ps[1..])
  }

  // ---------------------------------------------------------------- sorted lists

  /** How far y is ahead of x, modulo 2^16. */
  function Gap(x: U16, y: U16): U16 {
    W(y - x)
  }

  /** The list is strictly increasing modulo 2^16, seen from its first element. */
  predicate Sorted(l: seq<U16>) {
    forall i, j :: 0 <= i < j < |l| ==> Gap(l[0], l[i]) < Gap(l[0], l[j])
  }

  predicate SortedFrom(cutoff: U16, l: seq<U16>) {
    forall i, j :: 0 <= i < j < |l| ==> Gap(cutoff, l[i]) < Gap(cutoff, l[j])
  }

  /** Distance from the first element to a later one. */
  lemma Distance(cutoff: U16, x: U16, y: U16)
    requires Gap(cutoff, x) <= Gap(cutoff, y)
    ensures Gap(x, y) == Gap(cutoff, y) - Gap(cutoff, x)
  {
    WrapSub(y - cutoff, x - cutoff);
    WrapSelf(Gap(cutoff, y) - Gap(cutoff, x));
  }

  lemma SortedFromCutoff(cutoff: U16, l: seq<U16>)
    requires SortedFrom(cutoff, l)
    ensures Sorted(l)
  {
    forall i, j | 0 <= i < j < |l|
      ensures Gap(l[0], l[i]) < Gap(l[0], l[j])
    {
      Distance(cutoff, l[0], l[i]);
      Distance(cutoff, l[0], l[j]);
    }
  }

  lemma SortedTail(l: seq<U16>, k: nat)
    requires Sorted(l) && k <= |l|
    ensures Sorted(l[k..])
  {
    if k < |l| {
      assert SortedFrom(l[0], l[k..]) by {
        forall i, j | 0 <= i < j < |l| - k
          ensures Gap(l[0], l[k..][i]) < Gap(l[0], l[k..][j])
        {
          assert l[k..][i] == l[k + i] && l[k..][j] == l[k + j];
        }
      }
      SortedFromCutoff(l[0], l[k..]);
    }
  }

  // ---------------------------------------------------------------- one pair

  /** Position of the bit for l[i] in a pair that starts at l[0]. */
  function Delta(l: seq<U16>, i: nat): U16
    requires i < |l|
  {
    After(l[0], l[i])
  }

  /** Position of the bit for s in a pair that starts at first. */
  function After(first: U16, s: U16): U16 {
    W(s - first - 1)
  }

  lemma AfterIsGap(x: U16, y: U16)
    ensures Gap(x, x) == 0
    ensures Gap(x, y) > 0 ==> After(x, y) == Gap(x, y) - 1
  {
    WrapSub(y - x, 1);
    WrapSelf(0);
    WrapSelf(if Gap(x, y) > 0 then Gap(x, y) - 1 else 0);
  }

  lemma DeltaOfSorted(l: seq<U16>, i: nat)
    requires Sorted(l) && 0 < i < |l|
    ensures Delta(l, i) == Gap(l[0], l[i]) - 1
    ensures i > 1 ==> Delta(l, i - 1) < Delta(l, i)
  {
    AfterIsGap(l[0], l[i]);
    AfterIsGap(l[0], l[i - 1]);
    assert Gap(l[0], l[0]) < Gap(l[0], l[i]);
    if i > 1 {
      assert Gap(l[0], l[0]) < Gap(l[0], l[i - 1]);
      assert Gap(l[0], l[i - 1]) < Gap(l[0], l[i]);
    }
  }

  /** How many elements a pair starting at l[0] covers, of which n are known. */
  function Covered(l: seq<U16>, n: nat): (m: nat)
    requires 0 < n <= |l|
    ensures n <= m <= |l|
    ensures forall i :: n <= i < m ==> Delta(l, i) < 16
    ensures m < |l| ==> Delta(l, m) >= 16
    decreases |l| - n
  {
    if n < |l| && Delta(l, n) < 16 then Covered(l, n + 1) else n
  }

  /** The bitmap with the bits for l[1..n]. */
  function Mask(l: seq<U16>, n: nat): nat
    requires 0 < n <= |l|
  {
    if n == 1 then 0 else SetBit(Mask(l, n - 1), Delta(l, n - 1))
  }

  function Pair(l: seq<U16>): NackPair
    requires l != []
  {
    NackPair(l[0], Mask(l, Covered(l, 1)))
  }

  lemma {:induction false} HighestBit(m: nat, d: nat, base: int)
    requires m < Pow2(d)
    ensures Offsets(SetBit(m, d), base) == Offsets(m, base) + [W(base + d)]
    ensures SetBit(m, d) < Pow2(d + 1)
  {
    if d > 0 {
      HighestBit(m / 2, d - 1, base + 1);
      var x := SetBit(m, d);
      assert x / 2 == SetBit(m / 2, d - 1) && x % 2 == m % 2;
      assert W(base + 1 + (d - 1)) == W(base + d);
      if m == 0 {
        assert Offsets(m / 2, base + 1) == [];
      }
    }
  }

  lemma {:induction false} PowMonotone(m: nat, n: nat)
    requires m <= n
    ensures Pow2(m) <= Pow2(n)
    decreases n
  {
    if m < n {
      PowMonotone(m, n - 1);
    }
  }

  lemma AfterRestores(first: U16, s: U16)
    ensures W(Next(first) + After(first, s)) == s
  {
    WrapAdd(first + 1, s - first - 1);
    WrapSelf(s);
  }

  /** The mask decodes to the elements it was built from. */
  lemma {:induction false} MaskDecodes(l: seq<U16>, n: nat)
    requires Sorted(l) && 0 < n <= |l|
    requires forall i :: 0 < i < n ==> Delta(l, i) < 16
    ensures Offsets(Mask(l, n), Next(l[0])) == l[1..n]
    ensures n > 1 ==> Mask(l, n) < Pow2(Delta(l, n - 1) + 1)
  {
    hide W, Offsets, SetBit, Pow2, Sorted, Delta;
    if n == 1 {
      NoOffsets(Next(l[0]));
    } else {
      MaskDecodes(l, n - 1);
      var d := Delta(l, n - 1);
      if n > 2 {
        DeltaOfSorted(l, n - 1);
        PowMonotone(Delta(l, n - 2) + 1, d);
      }
      FirstFits(d);
      HighestBit(Mask(l, n - 1), d, Next(l[0]));
      DeltaRestores(l, n - 1);
    }
  }

  lemma NoOffsets(base: int)
    ensures Offsets(0, base) == []
  {
  }

  lemma FirstFits(d: nat)
    ensures 0 < Pow2(d)
  {
  }

  lemma DeltaRestores(l: seq<U16>, i: nat)
    requires i < |l|
    ensures W(Next(l[0]) + Delta(l, i)) == l[i]
  {
    hide W;
    AfterRestores(l[0], l[i]);
  }

  lemma PairDecodes(l: seq<U16>)
    requires Sorted(l) && l != []
    ensures Decode(Pair(l)) == l[..Covered(l, 1)]
    ensures Pair(l).blp < 0x1_0000
  {
    var n := Covered(l, 1);
    MaskDecodes(l, n);
    if n > 1 {
      PowMonotone(Delta(l, n - 1) + 1, 16);
    }
    assert Pow2(16) == 0x1_0000 by { assert Pow2(4) == 16; assert Pow2(8) == 256; assert Pow2(12) == 4096; }
  }

  // ---------------------------------------------------------------- the whole list

  /** The pairs that repeated packing produces. */
  function Greedy(l: seq<U16>): seq<NackPair>
    decreases |l|
  {
    if l == [] then [] else [Pair(l)] + Greedy(l[Covered(l, 1)..])
  }

  lemma GreedyStep(l: seq<U16>)
    requires l != []
    ensures Greedy(l) == [Pair(l)] + Greedy(l[Covered(l, 1)..])
  {
    hide Pair;
  }

  lemma GreedyOfNothing()
    ensures Greedy([]) == []
  {
  }

  lemma DecodeStep(p: NackPair, ps: seq<NackPair>)
    ensures DecodeAll([p] + ps) == Decode(p) + DecodeAll(ps)
  {
    assert ([p] + ps)[1..] == ps;
  }

  /** The packing is exact and keeps the order. */
  lemma {:induction false} GreedyIsExact(l: seq<U16>)
    requires Sorted(l)
    ensures DecodeAll(Greedy(l)) == l
    ensures forall i :: 0 <= i < |Greedy(l)| ==> Greedy(l)[i].blp < 0x1_0000
    decreases |l|
  {
    hide Pair, Sorted, Decode, W;
    if l != [] {
      hide Greedy, DecodeAll;
      var n := Covered(l, 1);
      PairDecodes(l);
      SortedTail(l, n);
      GreedyIsExact(l[n..]);
      GreedyStep(l);
      DecodeStep(Pair(l), Greedy(l[n..]));
    }
  }

  /** Cut after n pairs, it decodes to an exact prefix of the list. */
  lemma {:induction false} CutIsPrefix(ps: seq<NackPair>, n: nat)
    requires n <= |ps|
    ensures DecodeAll(ps[..n]) <= DecodeAll(ps)
  {
    if n > 0 {
      CutIsPrefix(ps[1..], n - 1);
      assert ps[..n][1..] == ps[1..][..n - 1];
    }
  }

  /** Every pair cut off asked for something. */
  lemma {:induction false} CutIsShorter(ps: seq<NackPair>, n: nat)
    requires n <= |ps|
    ensures |DecodeAll(ps[..n])| == |DecodeAll(ps)| <==> n == |ps|
    ensures |DecodeAll(ps[..n])| + |ps| - n <= |DecodeAll(ps)|
  {
    if n > 0 {
      CutIsShorter(ps[1..], n - 1);
      assert ps[..n][1..] == ps[1..][..n - 1];
    } else {
      DecodesEach(ps);
    }
  }

  lemma {:induction false} DecodesEach(ps: seq<NackPair>)
    ensures |ps| <= |DecodeAll(ps)|
  {
    if ps != [] {
      DecodesEach(ps[1..]);
    }
  }

  /** Takes a non-empty sorted list, and packs a prefix of it into a pair. */
  method ToBitmap(seqnos: seq<U16>) returns (first: U16, bitmap: nat, remain: seq<U16>)
    requires seqnos != [] && Sorted(seqnos)
    ensures NackPair(first, bitmap) == Pair(seqnos) && bitmap < 0x1_0000
    ensures Decode(NackPair(first, bitmap)) + remain == seqnos
    ensures remain == seqnos[Covered(seqnos, 1)..]
    ensures remain != [] ==> Gap(first, remain[0]) > 16
  {
    hide W, Sorted, Offsets;
    first := seqnos[0];
    bitmap := 0;
    remain := seqnos[1..];
    ghost var n := 1;
    while |remain| > 0
      invariant 0 < n <= |seqnos| && remain == seqnos[n..]
      invariant bitmap == Mask(seqnos, n) && Covered(seqnos, n) == Covered(seqnos, 1)
      decreases |remain|
    {
      var delta := After(first, remain[0]);
      if delta >= 16 {
        break;
      }
      bitmap := SetBit(bitmap, delta);
      remain := remain[1..];
      n := n + 1;
    }
    PairDecodes(seqnos);
    if remain != [] {
      DeltaOfSorted(seqnos, n);
    }
  }

  /** The pairs of one NACK packet, at most 240 of them. */
  method Pack(seqnos: seq<U16>) returns (nacks: seq<NackPair>)
    requires Sorted(seqnos)
    ensures nacks == Greedy(seqnos)[..if |Greedy(seqnos)| < 240 then |Greedy(seqnos)| else 240]
    ensures DecodeAll(nacks) <= seqnos
    ensures |nacks| < 240 ==> DecodeAll(nacks) == seqnos
  {
    hide W, Sorted, Mask, DecodeAll, Greedy, Pair, Decode, Covered;
    nacks := [];
    GreedyOfNothing();
    var rest := seqnos;
    while |rest| > 0
      invariant Sorted(rest) && nacks + Greedy(rest) == Greedy(seqnos) && |nacks| <= MAX_PAIRS
      decreases |rest|
    {
      if |nacks| >= MAX_PAIRS {
        break;
      }
      var f, b;
      ghost var before := rest;
      f, b, rest := ToBitmap(rest);
      SortedTail(before, Covered(before, 1));
      GreedyStep(before);
      nacks := nacks + [NackPair(f, b)];
    }
    GreedyIsExact(seqnos);
    CutIsPrefix(Greedy(seqnos), |nacks|);
    assert Greedy(seqnos)[..|Greedy(seqnos)|] == Greedy(seqnos);
  }

  // ---------------------------------------------------------------- no packing is shorter

  /** Every number of the list is asked for by some pair. */
  ghost predicate Covers(ps: seq<NackPair>, l: seq<U16>) {
    forall s :: s in l ==> exists k :: 0 <= k < |ps| && s in Decode(ps[k])
  }

  ghost function CoverIndex(ps: seq<NackPair>, l: seq<U16>, s: U16): (k: nat)
    requires Covers(ps, l) && s in l
    ensures k < |ps| && s in Decode(ps[k])
  {
    var k :| 0 <= k < |ps| && s in Decode(ps[k]);
    k
  }

  lemma {:induction false} OffsetsAreNear(blp: nat, n: nat, base: int, s: U16)
    requires blp < Pow2(n) && s in Offsets(blp, base)
    ensures exists j :: 0 <= j < n && IsAt(s, base, j)
  {
    if blp % 2 == 1 && s == W(base) {
      assert IsAt(s, base, 0);
    } else {
      OffsetsAreNear(blp / 2, n - 1, base + 1, s);
      var j :| 0 <= j < n - 1 && IsAt(s, base + 1, j);
      assert IsAt(s, base, j + 1);
    }
  }

  predicate IsAt(s: U16, base: int, j: int) {
    s == W(base + j)
  }

  /** A pair reaches at most 16 numbers past its first. */
  lemma DecodeIsNear(p: NackPair, s: U16)
    requires p.blp < 0x1_0000 && s in Decode(p)
    ensures Gap(p.pid, s) <= 16
  {
    if s == p.pid {
      WrapSelf(0);
    } else {
      assert Pow2(16) == 0x1_0000 by { assert Pow2(4) == 16; assert Pow2(8) == 256; assert Pow2(12) == 4096; }
      OffsetsAreNear(p.blp, 16, Next(p.pid), s);
      var j :| 0 <= j < 16 && IsAt(s, Next(p.pid), j);
      WrapSub(p.pid + 1 + j, p.pid);
      WrapSelf(1 + j);
    }
  }

  /** What a pair does not cover is more than 16 past its first number. */
  lemma TailIsApart(l: seq<U16>, y: U16)
    requires l != [] && Sorted(l) && y in l[Covered(l, 1)..]
    ensures Gap(l[0], y) > 16
  {
    var n := Covered(l, 1);
    var k :| n <= k < |l| && l[k] == y;
    DeltaOfSorted(l, n);
    assert k == n || Gap(l[0], l[n]) < Gap(l[0], l[k]);
  }

  /** The first numbers of two pairs are more than 16 apart. */
  lemma {:induction false} StartsAreApart(l: seq<U16>, i: nat, j: nat)
    requires Sorted(l) && i < j < |Greedy(l)|
    ensures Gap(l[0], Greedy(l)[i].pid) + 16 < Gap(l[0], Greedy(l)[j].pid)
    decreases |l|
  {
    hide W, Sorted, Mask;
    var n := Covered(l, 1);
    var rest := l[n..];
    SortedTail(l, n);
    assert Greedy(l)[j] == Greedy(rest)[j - 1];
    StartIsListed(rest, j - 1);
    var y := Greedy(rest)[j - 1].pid;
    if i == 0 {
      TailIsApart(l, y);
      AfterIsGap(l[0], l[0]);
    } else {
      StartsAreApart(rest, i - 1, j - 1);
      StartIsListed(rest, i - 1);
      DistanceInTail(l, n, Greedy(rest)[i - 1].pid);
      DistanceInTail(l, n, y);
    }
  }

  lemma {:induction false} StartIsListed(l: seq<U16>, i: nat)
    requires i < |Greedy(l)|
    ensures Greedy(l)[i].pid in l
    decreases |l|
  {
    if i > 0 {
      StartIsListed(l[Covered(l, 1)..], i - 1);
    }
  }

  lemma DistanceInTail(l: seq<U16>, n: nat, x: U16)
    requires Sorted(l) && n < |l| && x in l[n..]
    ensures Gap(l[n], x) == Gap(l[0], x) - Gap(l[0], l[n])
  {
    var k :| n <= k < |l| && l[k] == x;
    assert k == n || Gap(l[0], l[n]) < Gap(l[0], l[k]);
    Distance(l[0], l[n], x);
  }

  /** Two numbers of one pair are at most 16 apart, one way or the other. */
  lemma SharedPairIsNear(p: NackPair, x: U16, y: U16)
    requires p.blp < 0x1_0000 && x in Decode(p) && y in Decode(p)
    ensures Gap(x, y) <= 16 || Gap(x, y) >= MODULUS - 16
  {
    DecodeIsNear(p, x);
    DecodeIsNear(p, y);
    WrapSub(y - p.pid, x - p.pid);
  }

  lemma {:induction false} Pigeons(f: seq<nat>, m: nat)
    requires forall i :: 0 <= i < |f| ==> f[i] < m
    requires forall i, j :: 0 <= i < j < |f| ==> f[i] != f[j]
    ensures |f| <= m
  {
    if f != [] {
      assert f[0] < m;
      if m - 1 in f {
        var k :| 0 <= k < |f| && f[k] == m - 1;
        Pigeons(f[..k] + f[k + 1..], m - 1);
      } else {
        Pigeons(f, m - 1);
      }
    }
  }

  /** The list does not reach around to within 16 of its own start. */
  predicate DoesNotReachAround(l: seq<U16>) {
    l != [] ==> Gap(l[0], l[|l| - 1]) < MODULUS - 16
  }

  lemma ReachesLess(l: seq<U16>, y: U16)
    requires Sorted(l) && DoesNotReachAround(l) && y in l
    ensures Gap(l[0], y) < MODULUS - 16
  {
    var k :| 0 <= k < |l| && l[k] == y;
    assert k == |l| - 1 || Gap(l[0], l[k]) < Gap(l[0], l[|l| - 1]);
  }

  /** No pair asks for the first numbers of two greedy pairs. */
  lemma StartsShareNoPair(l: seq<U16>, i: nat, j: nat, p: NackPair)
    requires Sorted(l) && DoesNotReachAround(l) && i < j < |Greedy(l)| && p.blp < 0x1_0000
    ensures !(Greedy(l)[i].pid in Decode(p) && Greedy(l)[j].pid in Decode(p))
  {
    hide Sorted, W, Gap, Greedy, Decode;
    var x, y := Greedy(l)[i].pid, Greedy(l)[j].pid;
    StartsAreApart(l, i, j);
    StartIsListed(l, j);
    Distance(l[0], x, y);
    ReachesLess(l, y);
    if x in Decode(p) && y in Decode(p) {
      SharedPairIsNear(p, x, y);
    }
  }

  /** No set of pairs that asks for the whole list is smaller than the greedy
      one, provided the list does not reach around to its own start. */
  lemma GreedyIsOptimal(l: seq<U16>, ps: seq<NackPair>)
    requires Sorted(l) && DoesNotReachAround(l)
    requires Covers(ps, l) && forall k :: 0 <= k < |ps| ==> ps[k].blp < 0x1_0000
    ensures |Greedy(l)| <= |ps|
  {
    hide Sorted, DoesNotReachAround, Greedy, Decode, Covers;
    var g := Greedy(l);
    forall i | 0 <= i < |g| ensures g[i].pid in l {
      StartIsListed(l, i);
    }
    var f := seq(|g|, i requires 0 <= i < |g| => CoverIndex(ps, l, g[i].pid));
    forall i, j | 0 <= i < j < |f|
      ensures f[i] != f[j]
    {
      StartsShareNoPair(l, i, j, ps[f[i]]);
    }
    Pigeons(f, |ps|);
  }

  /** The proviso cannot be weakened: for every larger reach there is a list of
      two numbers, that far apart, that one pair asks for but the greedy packing
      splits. */
  lemma OptimalityBoundIsTight(c: U16, reach: int)
    requires MODULUS - 16 <= reach < MODULUS
    ensures var l := [c, W(c + reach)];
            && Sorted(l) && Gap(l[0], l[1]) == reach
            && |Greedy(l)| == 2
            && exists p: NackPair :: p.blp < 0x1_0000 && Covers([p], l)
  {
    hide W, Mask, Offsets, Greedy, Sorted, Decode, Covers;
    FarApart(c, reach);
    GreedySplits(c, W(c + reach));
    var p := OnePairCovers(c, reach);
  }

  lemma FarApart(c: U16, reach: int)
    requires 16 < reach < MODULUS
    ensures Gap(c, W(c + reach)) == reach && Sorted([c, W(c + reach)])
  {
    WrapSub(c + reach, c);
    WrapSelf(reach);
    WrapSelf(0);
  }

  /** Two numbers more than 16 apart take two pairs. */
  lemma GreedySplits(x: U16, y: U16)
    requires Sorted([x, y]) && Gap(x, y) > 16
    ensures |Greedy([x, y])| == 2
  {
    hide W, Mask, Offsets, Sorted, Greedy, Pair;
    var l := [x, y];
    DeltaOfSorted(l, 1);
    assert Covered(l, 1) == 1 && l[1..] == [y];
    GreedyStep(l);
    GreedyStep([y]);
    assert [y][1..] == [];
    GreedyOfNothing();
  }

  /** But one pair covers them if it starts with the second, and the first is at most 16 further on. */
  lemma OnePairCovers(c: U16, reach: int) returns (p: NackPair)
    requires MODULUS - 16 <= reach < MODULUS
    ensures p.blp < 0x1_0000 && Covers([p], [c, W(c + reach)])
  {
    hide W, Offsets, SetBit;
    var y, d := W(c + reach), MODULUS - reach - 1;
    p := NackPair(y, SetBit(0, d));
    FirstFits(d);
    HighestBit(0, d, Next(y));
    NoOffsets(Next(y));
    assert Pow2(16) == 0x1_0000 by { assert Pow2(4) == 16; assert Pow2(8) == 256; assert Pow2(12) == 4096; }
    PowMonotone(d + 1, 16);
    WrapAdd(c + reach, 1 + d);
    WrapTurn(c);
    WrapSelf(c);
    assert W(Next(y) + d) == c;
    assert Decode(p) == [y, c];
    assert [p][0] == p;
  }

  /** No set of pairs that asks for the list is smaller than the greedy packing. */
  ghost predicate IsShortest(l: seq<U16>) {
    forall ps: seq<NackPair> | Covers(ps, l) && (forall k :: 0 <= k < |ps| ==> ps[k].blp < 0x1_0000) :: |Greedy(l)| <= |ps|
  }

  ghost predicate Reaches(l: seq<U16>, reach: U16) {
    Sorted(l) && l != [] && Gap(l[0], l[|l| - 1]) == reach
  }

  /** How far a list may reach for the greedy packing to be the shortest, whatever the list: to within 17 of its
      own start. */
  lemma ShortestIffReach(reach: U16)
    ensures (forall l :: Reaches(l, reach) ==> IsShortest(l)) <==> reach < MODULUS - 16
  {
    hide Sorted, Greedy, Covers, Gap, W;
    if reach < MODULUS - 16 {
      forall l, ps: seq<NackPair> | Reaches(l, reach) && Covers(ps, l) && (forall k :: 0 <= k < |ps| ==> ps[k].blp < 0x1_0000)
        ensures |Greedy(l)| <= |ps|
      {
        GreedyIsOptimal(l, ps);
      }
    } else {
      OptimalityBoundIsTight(0, reach);
      var l := [0, W(0 + reach)];
      var p: NackPair :| p.blp < 0x1_0000 && Covers([p], l);
      assert Reaches(l, reach) && !IsShortest(l);
    }
  }

  // ---------------------------------------------------------------- lists too long for a packet

  /** The numbers c, c + 17, c + 34, and so on: no two share a pair. */
  function Spaced(c: U16, n: nat): seq<U16>
    decreases n
  {
    if n == 0 then [] else [c] + Spaced(W(c + 17), n - 1)
  }

  lemma {:induction false} SpacedIsSorted(c: U16, n: nat)
    requires n * 17 < MODULUS
    ensures |Spaced(c, n)| == n
    ensures forall i :: 0 <= i < n ==> Spaced(c, n)[i] == W(c + 17 * i)
    ensures Sorted(Spaced(c, n))
    decreases n
  {
    hide W;
    var l := Spaced(c, n);
    if n > 0 {
      SpacedIsSorted(W(c + 17), n - 1);
      forall i | 0 <= i < n ensures l[i] == W(c + 17 * i) && W(c + 17 * i - c) == 17 * i && Gap(c, l[i]) == 17 * i {
        WrapSelf(c);
        WrapSelf(17 * i);
        WrapSub(c + 17 * i, c);
        WrapAdd(c + 17, 17 * (i - 1));
      }
      assert l[0] == c;
    }
  }

  /** Each number takes a pair of its own, so that a packet holds 240 of them. */
  lemma {:induction false} SpacedIsLong(c: U16, n: nat)
    requires n * 17 < MODULUS
    ensures |Greedy(Spaced(c, n))| == n
    decreases n
  {
    hide W;
    var l := Spaced(c, n);
    SpacedIsSorted(c, n);
    if n > 0 {
      if n > 1 {
        assert l[1] == W(c + 17);
        AfterIsFar(c);
      }
      assert Covered(l, 1) == 1;
      assert l[1..] == Spaced(W(c + 17), n - 1);
      SpacedIsLong(W(c + 17), n - 1);
    }
  }

  lemma AfterIsFar(c: U16)
    ensures After(c, W(c + 17)) == 16
  {
    WrapSub(c + 17, c + 1);
    WrapSelf(16);
  }
}

/** Requests for retransmission that the cache cannot answer are buffered, and a
    writer started by the first of them asks the sender for what is still
    missing when it runs. */
module NackPipeline {
  import opened Basics
  import opened Serial
  import opened NackEncoding
  import opened PacketCache
  import opened RingQueue

  // ---------------------------------------------------------------- the buffer, under every interleaving

  /** The buffer, the writers that were started and have not yet taken it, and
      for the record the batches taken and the numbers accepted so far. */
  datatype Buffer = Buffer(pending: seq<U16>, writers: nat, batches: seq<seq<U16>>, accepted: seq<U16>)

  const EMPTY := Buffer([], 0, [], [])

  /** A request for s, which the cache could not answer. */
  function Request(b: Buffer, s: U16): Buffer {
    if s in b.pending then b
    else Buffer(b.pending + [s], if b.pending == [] then b.writers + 1 else b.writers, b.batches, b.accepted + [s])
  }

  /** A writer takes the whole buffer. */
  function Take(b: Buffer): Buffer
    requires b.writers > 0
  {
    Buffer([], b.writers - 1, b.batches + [b.pending], b.accepted)
  }

  predicate Distinct(l: seq<U16>) {
    forall i, j :: 0 <= i < j < |l| ==> l[i] != l[j]
  }

  /** The buffer has no duplicates; a writer is waiting for it exactly when it
      is not empty; the batches and the buffer together are everything accepted, in order. */
  ghost predicate Inv(b: Buffer) {
    && Distinct(b.pending)
    && b.writers == (if b.pending == [] then 0 else 1)
    && Concat(b.batches) + b.pending == b.accepted
    && forall i :: 0 <= i < |b.batches| ==> b.batches[i] != [] && Distinct(b.batches[i])
  }

  datatype Event = Requested(s: U16) | Taken

  ghost predicate Step(b: Buffer, ev: Event, b': Buffer) {
    match ev
    case Requested(s) => b' == Request(b, s)
    case Taken => b.writers > 0 && b' == Take(b)
  }

  ghost predicate IsRun(bs: seq<Buffer>, evs: seq<Event>) {
    && |bs| == |evs| + 1 && bs[0] == EMPTY
    && forall i :: 0 <= i < |evs| ==> Step(bs[i], evs[i], bs[i + 1])
  }

  lemma StepKeepsInv(b: Buffer, ev: Event, b': Buffer)
    requires Inv(b) && Step(b, ev, b')
    ensures Inv(b')
  {
    match ev
    case Requested(s) =>
      assert b'.batches == b.batches;
      assert Concat(b.batches) + (b.pending + [s]) == (Concat(b.batches) + b.pending) + [s];
    case Taken =>
      assert b'.batches[..|b.batches|] == b.batches;
  }

  lemma {:induction false} RunKeepsInv(bs: seq<Buffer>, evs: seq<Event>, i: nat)
    requires IsRun(bs, evs) && i < |bs|
    ensures Inv(bs[i])
  {
    if i > 0 {
      RunKeepsInv(bs, evs, i - 1);
      assert Step(bs[i - 1], evs[i - 1], bs[i]);
      StepKeepsInv(bs[i - 1], evs[i - 1], bs[i]);
    }
  }

  /** Number s is in batch i or in a later one. */
  ghost predicate Batched(batches: seq<seq<U16>>, i: nat, s: U16) {
    exists j :: i <= j < |batches| && s in batches[j]
  }

  /** After a request the number is in the buffer until a writer takes it. */
  lemma {:induction false} RequestsAreTaken(bs: seq<Buffer>, evs: seq<Event>, i: nat, k: nat)
    requires IsRun(bs, evs) && i < k < |bs| && evs[i].Requested?
    ensures |bs[i].batches| <= |bs[k].batches|
    ensures evs[i].s in bs[k].pending || Batched(bs[k].batches, |bs[i].batches|, evs[i].s)
    decreases k
  {
    assert Step(bs[k - 1], evs[k - 1], bs[k]);
    if k > i + 1 {
      RequestsAreTaken(bs, evs, i, k - 1);
      StaysBatched(bs[k - 1], evs[k - 1], bs[k], |bs[i].batches|, evs[i].s);
    }
  }

  lemma StaysBatched(b: Buffer, ev: Event, b': Buffer, i: nat, s: U16)
    requires Step(b, ev, b') && i <= |b.batches| && (s in b.pending || Batched(b.batches, i, s))
    ensures s in b'.pending || Batched(b'.batches, i, s)
  {
    if Batched(b.batches, i, s) {
      var j :| i <= j < |b.batches| && s in b.batches[j];
      assert s in b'.batches[j];
    } else if ev.Taken? {
      assert s in b'.batches[|b.batches|];
    }
  }

  // ---------------------------------------------------------------- what a batch becomes

  /** A number worth asking for: not before the cutoff, and not found in the cache. */
  predicate IsMissing(s: U16, cutoff: U16, r: Ring<Packet>) {
    Gap(cutoff, s) < 0x8000 && SizeIn(r.slots, s) == 0
  }

  /** Number k of the list is missing at the moment it is looked up. */
  ghost predicate MissingAt(l: seq<U16>, k: nat, cutoff: U16, r: Ring<Packet>, others: Schedule)
    requires k < |l| && Wf(r) && Proper(others)
  {
    IsMissing(l[k], cutoff, Moment(r, others, k))
  }

  /** The numbers of the list that are missing when they are looked up one after the other, in request order, while
      others use the cache. */
  ghost function Missing(l: seq<U16>, cutoff: U16, r: Ring<Packet>, others: Schedule): seq<U16>
    requires Wf(r) && Proper(others)
  {
    if l == [] then []
    else
      var n := |l| - 1;
      Missing(l[..n], cutoff, r, others) + (if MissingAt(l, n, cutoff, r, others) then [l[n]] else [])
  }

  lemma {:induction false} MissingIsExact(l: seq<U16>, cutoff: U16, r: Ring<Packet>, others: Schedule, s: U16)
    requires Wf(r) && Proper(others)
    ensures s in Missing(l, cutoff, r, others) <==> exists k :: 0 <= k < |l| && l[k] == s && MissingAt(l, k, cutoff, r, others)
  {
    hide Proper, Moment, IsMissing;
    if l != [] {
      var n := |l| - 1;
      MissingIsExact(l[..n], cutoff, r, others, s);
      assert forall k :: 0 <= k < n ==> l[..n][k] == l[k];
      if k :| 0 <= k < n && l[..n][k] == s && MissingAt(l[..n], k, cutoff, r, others) {
        assert l[k] == s && MissingAt(l, k, cutoff, r, others);
      }
      if k :| 0 <= k < |l| && l[k] == s && MissingAt(l, k, cutoff, r, others) {
        if k < n {
          assert l[..n][k] == s && MissingAt(l[..n], k, cutoff, r, others);
        }
      }
    }
  }

  lemma {:induction false} MissingIsDistinct(l: seq<U16>, cutoff: U16, r: Ring<Packet>, others: Schedule)
    requires Wf(r) && Proper(others) && Distinct(l)
    ensures Distinct(Missing(l, cutoff, r, others))
  {
    hide Proper, MissingAt;
    if l != [] {
      var n := |l| - 1;
      MissingIsDistinct(l[..n], cutoff, r, others);
      MissingIsExact(l[..n], cutoff, r, others, l[n]);
      assert forall k :: 0 <= k < n ==> l[..n][k] == l[k];
    }
  }

  /** Sorting by distance from the cutoff, as the library's sort does. */
  function Insert(l: seq<U16>, cutoff: U16, s: U16): seq<U16> {
    if l == [] || Gap(cutoff, l[|l| - 1]) < Gap(cutoff, s) then l + [s]
    else Insert(l[..|l| - 1], cutoff, s) + [l[|l| - 1]]
  }

  function Sort(l: seq<U16>, cutoff: U16): seq<U16> {
    if l == [] then [] else Insert(Sort(l[..|l| - 1], cutoff), cutoff, l[|l| - 1])
  }

  lemma GapIsInjective(cutoff: U16, x: U16, y: U16)
    requires Gap(cutoff, x) == Gap(cutoff, y)
    ensures x == y
  {
    SameResidue(x - cutoff, y - cutoff);
  }

  lemma {:induction false} InsertKeeps(l: seq<U16>, cutoff: U16, s: U16)
    ensures multiset(Insert(l, cutoff, s)) == multiset(l) + multiset{s}
  {
    if l != [] {
      assert l == l[..|l| - 1] + [l[|l| - 1]];
      InsertKeeps(l[..|l| - 1], cutoff, s);
    }
  }

  /** Every number of the list is closer to the cutoff than x. */
  predicate AllBefore(l: seq<U16>, cutoff: U16, x: U16) {
    forall i :: 0 <= i < |l| ==> Gap(cutoff, l[i]) < Gap(cutoff, x)
  }

  lemma {:induction false} InsertStaysBefore(l: seq<U16>, cutoff: U16, s: U16, x: U16)
    requires AllBefore(l, cutoff, x) && Gap(cutoff, s) < Gap(cutoff, x)
    ensures AllBefore(Insert(l, cutoff, s), cutoff, x)
  {
    hide Gap;
    if l != [] {
      InsertStaysBefore(l[..|l| - 1], cutoff, s, x);
    }
  }

  lemma {:induction false} InsertSorts(l: seq<U16>, cutoff: U16, s: U16)
    requires SortedFrom(cutoff, l) && s !in l
    ensures SortedFrom(cutoff, Insert(l, cutoff, s))
  {
    hide Gap;
    if l != [] {
      var rest, last := l[..|l| - 1], l[|l| - 1];
      if Gap(cutoff, last) >= Gap(cutoff, s) {
        InsertSorts(rest, cutoff, s);
        if Gap(cutoff, s) == Gap(cutoff, last) {
          GapIsInjective(cutoff, s, last);
        }
        InsertStaysBefore(rest, cutoff, s, last);
      }
    }
  }

  lemma {:induction false} SortSorts(l: seq<U16>, cutoff: U16)
    requires Distinct(l)
    ensures SortedFrom(cutoff, Sort(l, cutoff))
    ensures multiset(Sort(l, cutoff)) == multiset(l)
  {
    if l != [] {
      var rest, s := l[..|l| - 1], l[|l| - 1];
      SortSorts(rest, cutoff);
      assert s !in rest;
      assert s in Sort(rest, cutoff) <==> s in multiset(Sort(rest, cutoff));
      InsertSorts(Sort(rest, cutoff), cutoff, s);
      InsertKeeps(Sort(rest, cutoff), cutoff, s);
      assert l == rest + [s];
    }
  }

  /** The list of numbers to ask for: exactly the missing ones, strictly sorted from the cutoff. */
  lemma BatchMeaning(l: seq<U16>, cutoff: U16, r: Ring<Packet>, others: Schedule)
    requires Wf(r) && Proper(others) && Distinct(l)
    ensures var batch := Sort(Missing(l, cutoff, r, others), cutoff);
            && SortedFrom(cutoff, batch) && Sorted(batch)
            && (forall s :: s in batch <==> exists k :: 0 <= k < |l| && l[k] == s && MissingAt(l, k, cutoff, r, others))
            && DoesNotReachAround(batch)
  {
    hide Proper, Moment, Sort, Missing, W, SizeIn;
    var missing := Missing(l, cutoff, r, others);
    var batch := Sort(missing, cutoff);
    MissingIsDistinct(l, cutoff, r, others);
    SortSorts(missing, cutoff);
    SortedFromCutoff(cutoff, batch);
    forall s: U16
      ensures s in batch <==> exists k :: 0 <= k < |l| && l[k] == s && MissingAt(l, k, cutoff, r, others)
    {
      MissingIsExact(l, cutoff, r, others, s);
      assert s in batch <==> s in multiset(batch);
      assert s in missing <==> s in multiset(missing);
    }
    if batch != [] {
      assert batch[0] in batch && batch[|batch| - 1] in batch;
      Distance(cutoff, batch[0], batch[|batch| - 1]);
    }
  }

  /** Number k of the list is not in the cache when it is looked up. */
  ghost predicate AbsentAt(l: seq<U16>, k: nat, r: Ring<Packet>, others: Schedule)
    requires k < |l| && Wf(r) && Proper(others)
  {
    SizeIn(Moment(r, others, k).slots, l[k]) == 0
  }

  /** Request k of the list is less than 2^15 after from, and is not in the cache when it is looked up. */
  ghost predicate Qualifies(l: seq<U16>, k: nat, from: int, r: Ring<Packet>, others: Schedule)
    requires k < |l| && Wf(r) && Proper(others)
  {
    W(l[k] - from) < 0x8000 && AbsentAt(l, k, r, others)
  }

  /** The batch is exactly the requests that qualify, in order from the cutoff. */
  ghost predicate IsBatch(batch: seq<U16>, nacks: seq<U16>, from: int, r: Ring<Packet>, others: Schedule)
    requires Wf(r) && Proper(others)
  {
    && (forall s :: s in batch <==> exists k :: 0 <= k < |nacks| && nacks[k] == s && Qualifies(nacks, k, from, r, others))
    && (forall i, j :: 0 <= i < j < |batch| ==> W(batch[i] - from) < W(batch[j] - from))
  }

  /** The packet asks for the batch in order, or for its first numbers when they do not fit in 240 pairs; and no packet
      asks for all of the batch with fewer pairs. */
  ghost predicate IsPacket(packet: seq<NackPair>, batch: seq<U16>) {
    && DecodeAll(packet) <= batch
    && |packet| <= 240 && (|packet| < 240 ==> DecodeAll(packet) == batch)
    && (forall ps: seq<NackPair> :: Covers(ps, batch) && (forall k :: 0 <= k < |ps| ==> ps[k].blp < 0x1_0000) ==>
          |packet| <= |ps|)
  }

  /** What the packet for some requests asks for. */
  ghost predicate AsksFor(packet: seq<NackPair>, batch: seq<U16>, nacks: seq<U16>, from: int, r: Ring<Packet>, others: Schedule)
    requires Wf(r) && Proper(others)
  {
    IsBatch(batch, nacks, from, r, others) && IsPacket(packet, batch)
  }

  /** A number counts as not before another if it is less than 2^15 after it, and as before it if it is up to 2^15
      before it; from is the other number or differs from it by whole turns. */
  lemma WhichQualify(x: int, y: int, from: int)
    requires W(from) == W(y)
    ensures y <= x < y + 0x8000 ==> W(W(x) - from) < 0x8000
    ensures y - 0x8000 <= x < y ==> W(W(x) - from) >= 0x8000
  {
    hide W;
    WrapSub(W(x), from);
    WrapSub(x, y);
    if y <= x < y + 0x8000 {
      WrapSelf(x - y);
    }
    if y - 0x8000 <= x < y {
      WrapTurn(x - y);
      WrapSelf(x - y + MODULUS);
    }
  }

  /** A request for x is in the batch if it is less than 2^15 after the cutoff y and x was missing when looked up; if it is
      up to 2^15 before the cutoff, it is not. */
  lemma BatchReaches(batch: seq<U16>, nacks: seq<U16>, from: int, r: Ring<Packet>, others: Schedule, y: int, x: int)
    requires Wf(r) && Proper(others) && IsBatch(batch, nacks, from, r, others) && W(from) == W(y)
    ensures y <= x < y + 0x8000 ==>
              (W(x) in batch <==> exists k :: 0 <= k < |nacks| && nacks[k] == W(x) && AbsentAt(nacks, k, r, others))
    ensures y - 0x8000 <= x < y ==> W(x) !in batch
  {
    hide W, Proper, Moment, AbsentAt;
    WhichQualify(x, y, from);
    if k :| 0 <= k < |nacks| && nacks[k] == W(x) && AbsentAt(nacks, k, r, others) {
      if y <= x < y + 0x8000 {
        assert Qualifies(nacks, k, from, r, others);
      }
    }
  }

  /** Nothing is asked for exactly if no request qualifies. */
  lemma BatchIsEmptyIff(batch: seq<U16>, nacks: seq<U16>, from: int, r: Ring<Packet>, others: Schedule)
    requires Wf(r) && Proper(others) && IsBatch(batch, nacks, from, r, others)
    ensures batch == [] <==> forall k :: 0 <= k < |nacks| ==> !Qualifies(nacks, k, from, r, others)
  {
    hide W, Proper, Moment, Qualifies;
    if batch != [] {
      assert batch[0] in batch;
    }
    forall k | 0 <= k < |nacks| && Qualifies(nacks, k, from, r, others) ensures nacks[k] in batch {
    }
  }

  /** Seen from a number that differs by whole turns, the list is sorted and the numbers are missing as before. */
  lemma SeenFrom(l: seq<U16>, from: int)
    requires SortedFrom(W(from), l)
    ensures forall i, j :: 0 <= i < j < |l| ==> W(l[i] - from) < W(l[j] - from)
  {
    hide W;
    forall s: U16 ensures Gap(W(from), s) == W(s - from) {
      WrapSub(s, from);
    }
  }

  lemma MissingQualifies(nacks: seq<U16>, k: nat, from: int, r: Ring<Packet>, others: Schedule)
    requires Wf(r) && Proper(others) && k < |nacks|
    ensures MissingAt(nacks, k, W(from), r, others) <==> Qualifies(nacks, k, from, r, others)
  {
    hide W, Proper, Moment, SizeIn;
    WrapSub(nacks[k], from);
  }

  lemma MissingIsBatch(nacks: seq<U16>, from: int, r: Ring<Packet>, others: Schedule)
    requires Wf(r) && Proper(others) && Distinct(nacks)
    ensures IsBatch(Sort(Missing(nacks, W(from), r, others), W(from)), nacks, from, r, others)
  {
    hide Proper, Moment, W, Sort, Missing, MissingAt, Qualifies, Sorted, SortedFrom;
    BatchMeaning(nacks, W(from), r, others);
    var batch := Sort(Missing(nacks, W(from), r, others), W(from));
    SeenFrom(batch, from);
    forall k | 0 <= k < |nacks|
      ensures MissingAt(nacks, k, W(from), r, others) <==> Qualifies(nacks, k, from, r, others)
    {
      MissingQualifies(nacks, k, from, r, others);
    }
  }

  lemma GreedyIsPacket(packet: seq<NackPair>, batch: seq<U16>)
    requires Sorted(batch) && DoesNotReachAround(batch)
    requires packet <= Greedy(batch) && DecodeAll(packet) <= batch
    requires |packet| <= 240 && (|packet| < 240 ==> DecodeAll(packet) == batch)
    ensures IsPacket(packet, batch)
  {
    hide W, Gap, Greedy, DecodeAll, Sorted, DoesNotReachAround;
    forall ps: seq<NackPair> | Covers(ps, batch) && (forall k :: 0 <= k < |ps| ==> ps[k].blp < 0x1_0000)
      ensures |packet| <= |ps|
    {
      GreedyIsOptimal(batch, ps);
    }
  }

  lemma PacketMeaning(packet: seq<NackPair>, nacks: seq<U16>, from: int, r: Ring<Packet>, others: Schedule)
    requires Wf(r) && Proper(others) && Distinct(nacks)
    requires var batch := Sort(Missing(nacks, W(from), r, others), W(from));
             && packet <= Greedy(batch) && DecodeAll(packet) <= batch
             && |packet| <= 240 && (|packet| < 240 ==> DecodeAll(packet) == batch)
    ensures AsksFor(packet, Sort(Missing(nacks, W(from), r, others), W(from)), nacks, from, r, others)
  {
    hide Proper, Moment, W, Sort, Missing, MissingAt, Greedy, DecodeAll, Sorted, SortedFrom, DoesNotReachAround,
         IsBatch, IsPacket;
    BatchMeaning(nacks, W(from), r, others);
    MissingIsBatch(nacks, from, r, others);
    GreedyIsPacket(packet, Sort(Missing(nacks, W(from), r, others), W(from)));
  }

  lemma NothingAskedFor(from: int, r: Ring<Packet>, others: Schedule)
    requires Wf(r) && Proper(others)
    ensures AsksFor([], [], [], from, r, others)
  {
  }

  /** The deletion loop: the first i numbers are those missing among the first k of the list, the others are
      still to be looked at. */
  ghost predicate Progress(nacks: seq<U16>, i: nat, all: seq<U16>, k: nat, cutoff: U16, r: Ring<Packet>, others: Schedule)
    requires Wf(r) && Proper(others)
  {
    && i <= |nacks| && k <= |all|
    && nacks[..i] == Missing(all[..k], cutoff, r, others)
    && nacks[i..] == all[k..]
  }

  lemma ProgressBegins(all: seq<U16>, cutoff: U16, r: Ring<Packet>, others: Schedule)
    requires Wf(r) && Proper(others)
    ensures Progress(all, 0, all, 0, cutoff, r, others)
  {
    assert all[..0] == [];
  }

  lemma ProgressEnds(nacks: seq<U16>, all: seq<U16>, cutoff: U16, r: Ring<Packet>, others: Schedule)
    requires Wf(r) && Proper(others) && Progress(nacks, |nacks|, all, |all|, cutoff, r, others)
    ensures nacks == Missing(all, cutoff, r, others)
  {
    assert all[..|all|] == all && nacks[..|nacks|] == nacks;
  }

  lemma SizeIsRead(ps: seq<Packet>, s: U16)
    ensures ReadIn(ps, s, 0) == Value(SizeIn(ps, s))
  {
  }

  lemma ProgressStep(nacks: seq<U16>, i: nat, all: seq<U16>, k: nat, cutoff: U16, r: Ring<Packet>, others: Schedule)
    requires Wf(r) && Proper(others)
    requires Progress(nacks, i, all, k, cutoff, r, others) && i < |nacks|
    ensures k < |all| && nacks[i] == all[k]
    ensures if IsMissing(nacks[i], cutoff, Moment(r, others, k)) then Progress(nacks, i + 1, all, k + 1, cutoff, r, others)
            else Progress(nacks[..i] + nacks[i + 1..], i, all, k + 1, cutoff, r, others)
  {
    hide Proper, Moment, IsMissing;
    assert nacks[i] == nacks[i..][0] == all[k];
    assert all[..k + 1][..k] == all[..k] && all[..k + 1][k] == all[k];
    assert nacks[i + 1..] == nacks[i..][1..] == all[k + 1..];
    var deleted := nacks[..i] + nacks[i + 1..];
    assert deleted[..i] == nacks[..i] && deleted[i..] == nacks[i + 1..];
    assert nacks[..i + 1] == nacks[..i] + [nacks[i]];
  }

  // ---------------------------------------------------------------- the track

  class UpTrack {
    var bufferedNACKs: seq<U16>
    const cache: Cache
    const nackSupported: bool       // the sender accepts NACKs

    ghost var buffer: Buffer        // the buffer with its history

    ghost predicate Valid()
      reads this, cache, cache.entries, cache.bitmap
    {
      && cache.Valid()
      && Inv(buffer) && buffer.pending == bufferedNACKs
    }

    constructor (cache: Cache, nackSupported: bool)
      requires cache.Valid()
      ensures Valid() && buffer == EMPTY && this.cache == cache && this.nackSupported == nackSupported
    {
      this.cache := cache;
      this.nackSupported := nackSupported;
      bufferedNACKs := [];
      buffer := EMPTY;
    }

    /** Reads a packet from the cache; if it is not there and was asked for by a
        receiver, the request is buffered and, if it is the first, a writer is started. */
    method GetPacket(seqno: U16, result: array<Byte>, nack: bool) returns (r: Outcome<nat>, started: bool)
      requires Valid()
      modifies this, result
      ensures Valid()
      ensures r == ReadIn(cache.Slots().slots, seqno, result.Length)
      ensures buffer == if r == Value(0) && nack then Request(old(buffer), seqno) else old(buffer)
      ensures started == (buffer.writers > old(buffer).writers)
    {
      hide ReadIn;
      r := cache.Get(seqno, result);
      if r.Panic? || r.value > 0 || !nack {
        return r, false;
      }
      StepKeepsInv(buffer, Requested(seqno), Request(buffer, seqno));

      var doit := |bufferedNACKs| == 0;
      var i := 0;
      while i < |bufferedNACKs|
        invariant 0 <= i <= |bufferedNACKs| && seqno !in bufferedNACKs[..i]
      {
        if bufferedNACKs[i] == seqno {
          return r, false;
        }
        i := i + 1;
      }
      buffer := Request(buffer, seqno);
      bufferedNACKs := bufferedNACKs + [seqno];
      return r, doit;
    }

    /** A started writer takes the buffer. */
    method TakeBuffer() returns (nacks: seq<U16>)
      requires Valid() && buffer.writers > 0
      modifies this
      ensures Valid() && buffer == Take(old(buffer))
      ensures nacks == old(bufferedNACKs) && Distinct(nacks) && nacks != []
    {
      StepKeepsInv(buffer, Taken, Take(buffer));
      nacks := bufferedNACKs;
      bufferedNACKs := [];
      buffer := Take(buffer);
    }

    /** The oldest number worth asking for: the last keyframe or, failing that, 256 before the last packet. */
    method Cutoff() returns (cutoff: Option<U16>)
      requires Valid()
      ensures cutoff == if cache.keyframeValid then Some(cache.keyframe)
                        else if cache.lastValid then Some(W(cache.last as int - 256)) else None
    {
      var seqno, found := cache.Keyframe();
      if found {
        return Some(seqno);
      }
      var lastSeqno, last := cache.Last();
      if !last {
        return None;
      }
      return Some(W(lastSeqno as int - 256));
    }

    /** Deletes from the list, in place, what is before the cutoff or is found in the cache; before each lookup
        others use the cache. */
    method DeleteFound(all: seq<U16>, cutoff: U16, others: Schedule) returns (nacks: seq<U16>)
      requires Valid() && Proper(others)
      modifies cache, cache.entries, cache.bitmap
      ensures Valid() && (cache.entries == old(cache.entries) || fresh(cache.entries))
      ensures nacks == Missing(all, cutoff, old(cache.Slots()), others)
      ensures cache.Stats() == CountedUntil(old(cache.Stats()), others, |all|)
    {
      hide W, Gap, Inv, SizeIn, ReadIn, FirstWith, HoldsNewest, Views, PerformedAll, CountedAll, Proper, Queue, Missing, Progress;
      ghost var ring := cache.Slots();
      var none := new Byte[0];
      nacks := all;
      var i := 0;
      ProgressBegins(all, cutoff, ring, others);
      var looked := 0;
      while i < |nacks|
        invariant Valid() && (cache.entries == old(cache.entries) || fresh(cache.entries))
        invariant bufferedNACKs == old(bufferedNACKs) && buffer == old(buffer)
        invariant Wf(ring) && Proper(others)
        invariant i <= |nacks| && looked <= |all| && looked == |all| - (|nacks| - i)
        invariant Progress(nacks, i, all, looked, cutoff, ring, others)
        invariant cache.Slots() == if looked == 0 then ring else Moment(ring, others, looked - 1)
        invariant cache.Stats() == CountedUntil(old(cache.Stats()), others, looked)
        decreases |nacks| - i
      {
        ProperAt(others, looked);
        cache.PerformAll(others(looked));
        assert cache.Slots() == Moment(ring, others, looked);
        ProgressStep(nacks, i, all, looked, cutoff, ring, others);
        looked := looked + 1;
        if Gap(cutoff, nacks[i]) >= 0x8000 {
          nacks := nacks[..i] + nacks[i + 1..];
          continue;
        }
        SizeIsRead(cache.Slots().slots, nacks[i]);
        var l := cache.Get(nacks[i], none);
        if l.Value? && l.value > 0 {
          nacks := nacks[..i] + nacks[i + 1..];
          continue;
        }
        i := i + 1;
      }
      ProgressEnds(nacks, all, cutoff, ring, others);
    }

    /** Ships the numbers in one packet, at most 240 pairs; if it could be sent, that many more packets are expected.
        They are the ones asked for exactly if the list fits. */
    method SendNACKs(seqnos: seq<U16>, sendOk: bool) returns (packet: seq<NackPair>)
      requires Valid() && Sorted(seqnos)
      modifies cache`expected
      ensures Valid() && DecodeAll(packet) <= seqnos
      ensures if nackSupported then packet <= Greedy(seqnos) else packet == []
      ensures |packet| <= 240 && (nackSupported && |packet| < 240 ==> DecodeAll(packet) == seqnos)
      ensures nackSupported ==> (|DecodeAll(packet)| == |seqnos| <==> |Greedy(seqnos)| <= 240)
      ensures cache.Stats() == if seqnos != [] && nackSupported && sendOk
                               then RS.OnExpect(old(cache.Stats()), |seqnos|) else old(cache.Stats())
    {
      var count := |seqnos|;
      if count == 0 || !nackSupported {
        return [];
      }
      packet := Pack(seqnos);
      GreedyIsExact(seqnos);
      CutIsShorter(Greedy(seqnos), |packet|);
      if sendOk {
        cache.Expect(count);
      }
    }

    /** Filters, sorts and ships a batch of requests, while others use the cache. */
    method Ship(nacks: seq<U16>, others: Schedule, sendOk: bool) returns (packet: seq<NackPair>, ghost batch: seq<U16>)
      requires Valid() && Distinct(nacks) && Proper(others)
      modifies cache, cache.entries, cache.bitmap
      ensures Valid() && (cache.entries == old(cache.entries) || fresh(cache.entries))
      ensures old(cache.keyframeValid) && nackSupported ==>
                AsksFor(packet, batch, nacks, old(cache.keyframe), old(cache.Slots()), others)
      ensures !old(cache.keyframeValid) && old(cache.lastValid) && nackSupported ==>
                AsksFor(packet, batch, nacks, old(cache.last) - 256, old(cache.Slots()), others)
      ensures !nackSupported || (!old(cache.keyframeValid) && !old(cache.lastValid)) ==> packet == [] && batch == []
      ensures cache.Stats() ==
              var s := if nackSupported && (old(cache.keyframeValid) || old(cache.lastValid))
                       then CountedUntil(old(cache.Stats()), others, |nacks|) else old(cache.Stats());
              if batch != [] && sendOk then RS.OnExpect(s, |batch|) else s
    {
      hide W, Gap, Inv, Missing, Sort, Greedy, DecodeAll, Distinct, Sorted, SortedFrom, AsksFor, HoldsNewest,
           Views, Queue, CountedAll, PerformedAll, Moment, Proper;
      packet, batch := [], [];
      ghost var ring := cache.Slots();
      ghost var from := if cache.keyframeValid then cache.keyframe as int else cache.last - 256;
      if |nacks| == 0 || !nackSupported {
        if nackSupported {
          NothingAskedFor(from, ring, others);
          assert nacks == [];
        }
        return;
      }
      var cutoff := Cutoff();
      if cutoff == None {
        return;
      }
      WrapSelf(cache.keyframe);
      assert cutoff.value == W(from);
      var missing := DeleteFound(nacks, cutoff.value, others);
      BatchMeaning(nacks, cutoff.value, ring, others);
      var sorted := Sort(missing, cutoff.value);
      batch := sorted;
      packet := SendNACKs(sorted, sendOk);
      PacketMeaning(packet, nacks, from, ring, others);
    }

    /** The life of a writer: it takes the buffer, and ships what is still missing. Others use the cache in between,
        and before every lookup. The requests to drop are those before the last keyframe that the cache has seen by then,
        or before the 256 numbers up to its newest packet. */
    method NackWriter(between: seq<CacheOp>, others: Schedule, sendOk: bool)
      returns (packet: seq<NackPair>, ghost batch: seq<U16>)
      requires Valid() && buffer.writers > 0 && AllAllowed(between) && Proper(others)
      modifies this, cache, cache.entries, cache.bitmap
      ensures Valid() && buffer == Take(old(buffer))
      ensures var s := CountedAll(old(cache.Stats()), between);
              var keyframe := KeyframeAfterAll(old(cache.LastKeyframe()), old(cache.Stats()), between);
              var ring := PerformedAll(old(cache.Slots()), between);
              if nackSupported && keyframe.Some? then AsksFor(packet, batch, old(bufferedNACKs), keyframe.value, ring, others)
              else if nackSupported && s.lastValid then AsksFor(packet, batch, old(bufferedNACKs), s.last - 256, ring, others)
              else packet == [] && batch == []
      ensures cache.Stats() ==
              var s := CountedAll(old(cache.Stats()), between);
              var keyframe := KeyframeAfterAll(old(cache.LastKeyframe()), old(cache.Stats()), between);
              var t := if nackSupported && (keyframe.Some? || s.lastValid) then CountedUntil(s, others, |old(bufferedNACKs)|)
                       else s;
              if batch != [] && sendOk then RS.OnExpect(t, |batch|) else t
    {
      hide W, Gap, Inv, Missing, Sort, Greedy, DecodeAll, Sorted, SortedFrom, AsksFor, HoldsNewest, Views,
           Queue, CountedAll, PerformedAll, Moment, Proper, KeyframeAfterAll;
      var nacks := TakeBuffer();
      cache.PerformAll(between);
      packet, batch := Ship(nacks, others, sendOk);
    }
  }
}

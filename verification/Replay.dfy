/** Bringing a new receiver up to date: the cached packets from the last
    keyframe to the newest are sent again, in order. */
module Replay {
  import opened Basics
  import opened Serial
  import opened PacketCache
  import opened RingQueue

  datatype Sent = Sent(seqno: U16, data: seq<Byte>)

  /** How many numbers there are from kf to last, none if last is behind. */
  function Steps(kf: U16, last: U16): nat {
    if W(last - kf) < 0x8000 then W(last - kf) + 1 else 0
  }

  /** The loop's test on the wrapped number counts the steps exactly. */
  lemma StepsLeft(kf: U16, last: U16, n: nat)
    requires n <= Steps(kf, last)
    ensures W(last - W(kf + n)) < 0x8000 <==> n < Steps(kf, last)
  {
    WrapSub(last, kf + n);
    WrapSub(last - kf, n);
    assert last - kf - n == last - (kf + n);
  }

  lemma StepsAre(kf: U16, last: U16)
    ensures Steps(kf, last) == if W(last - kf) < 0x8000 then W(last - kf) + 1 else 0
    ensures W(last - kf) < 0x8000 ==> W(kf + W(last - kf)) == last
  {
    WrapAdd(kf, last - kf);
    WrapSelf(last);
  }

  /** The bytes of the packet with that number that is in the ring. */
  ghost predicate IsIn(r: Ring<Packet>, s: Sent) {
    var j := FirstWith(r.slots, s.seqno, 0);
    j >= 0 && r.slots[j].data == s.data && r.slots[j].length <= BUF_SIZE
  }

  /** The packets are numbered from kf on, and each is the one in the cache when its turn comes. */
  ghost predicate InTurn(sent: seq<Sent>, kf: U16, r: Ring<Packet>, others: Schedule)
    requires Wf(r) && Proper(others)
  {
    forall i :: 0 <= i < |sent| ==>
      sent[i].seqno == W(kf + i) && sent[i].data != [] && IsIn(Moment(r, others, i), sent[i])
  }

  lemma OneMoreInTurn(sent: seq<Sent>, s: Sent, kf: U16, r: Ring<Packet>, others: Schedule)
    requires Wf(r) && Proper(others) && InTurn(sent, kf, r, others)
    requires s.seqno == W(kf + |sent|) && s.data != [] && IsIn(Moment(r, others, |sent|), s)
    ensures InTurn(sent + [s], kf, r, others)
  {
    hide Moment, IsIn, W, Proper;
  }

  /** Others use the cache, and then a packet is read. */
  method ReadNext(cache: Cache, others: seq<CacheOp>, seqno: U16, buf: array<Byte>) returns (r: Outcome<nat>, data: seq<Byte>)
    requires cache.Valid() && AllAllowed(others) && buf.Length == BUF_SIZE
    modifies cache, cache.entries, cache.bitmap, buf
    ensures cache.Valid() && (cache.entries == old(cache.entries) || fresh(cache.entries))
    ensures cache.Slots() == PerformedAll(old(cache.Slots()), others)
    ensures r == ReadIn(cache.Slots().slots, seqno, BUF_SIZE)
    ensures r.Value? && r.value > 0 ==> data != [] && IsIn(cache.Slots(), Sent(seqno, data))
  {
    hide FirstWith, HoldsNewest, PerformedAll, Views, Queue, Recent, AllAllowed;
    cache.PerformAll(others);
    r := cache.Get(seqno, buf);
    data := if r.Panic? then [] else buf[..Min(r.value, BUF_SIZE)];
  }

  /** While others use the cache; the writer takes the first accepted packets. What is sent is numbered from kf on
      without a hole, each packet as the cache has it when its turn comes, and stops at last; and before that only where
      a write fails, or where the cache has no such packet or one that is longer than a slot. */
  method SendSequence(kf: U16, last: U16, cache: Cache, accepted: nat, others: Schedule) returns (sent: seq<Sent>, panics: bool)
    requires cache.Valid() && Proper(others)
    modifies cache, cache.entries, cache.bitmap
    ensures cache.Valid()
    ensures |sent| <= accepted && InTurn(sent, kf, old(cache.Slots()), others)
    // nothing is sent if last is before kf; otherwise up to last itself, unless something goes wrong
    ensures W(last - kf) >= 0x8000 ==> sent == [] && !panics
    ensures W(last - kf) < 0x8000 ==>
              var n := |sent|;
              && n <= W(last - kf) + 1
              && (n == W(last - kf) + 1 ==> !panics && sent[n - 1].seqno == last)
              && (n <= W(last - kf) ==>
                  var r := ReadIn(Moment(old(cache.Slots()), others, n).slots, W(kf + n), BUF_SIZE);
                  panics == r.Panic? && (r.Panic? || r.value == 0 || n == accepted))
  {
    hide W, Steps, ReadIn, HoldsNewest, PerformedAll, Views, Queue, Proper, IsIn, InTurn;
    ghost var ring := cache.Slots();
    var buf := new Byte[BUF_SIZE](_ => 0);
    sent := [];
    panics := false;
    var seqno := kf;
    StepsAre(kf, last);
    StepsLeft(kf, last, 0);
    WrapSelf(kf);
    NothingInTurn(kf, ring, others);
    while W(last - seqno) < 0x8000
      invariant cache.Valid() && (cache.entries == old(cache.entries) || fresh(cache.entries))
      invariant Wf(ring) && Proper(others) && !panics
      invariant cache.Slots() == if |sent| == 0 then ring else Moment(ring, others, |sent| - 1)
      invariant seqno == W(kf + |sent|) && |sent| <= Steps(kf, last) && |sent| <= accepted
      invariant InTurn(sent, kf, ring, others)
      decreases Steps(kf, last) - |sent|
    {
      StepsLeft(kf, last, |sent|);
      ProperAt(others, |sent|);
      var bytes, data := ReadNext(cache, others(|sent|), seqno, buf);
      assert cache.Slots() == Moment(ring, others, |sent|);
      if bytes.Panic? {
        panics := true;
        return;
      }
      if bytes.value == 0 {
        return;
      }
      if |sent| == accepted {
        return;
      }
      OneMoreInTurn(sent, Sent(seqno, data), kf, ring, others);
      sent := sent + [Sent(seqno, data)];
      WrapAdd(kf + |sent| - 1, 1);
      StepsLeft(kf, last, |sent|);
      seqno := W(seqno as int + 1);
    }
    StepsLeft(kf, last, |sent|);
    if W(last - kf) < 0x8000 {
      EndsWithLast(sent, kf, last, ring, others);
    }
  }

  lemma EndsWithLast(sent: seq<Sent>, kf: U16, last: U16, r: Ring<Packet>, others: Schedule)
    requires Wf(r) && Proper(others) && InTurn(sent, kf, r, others) && |sent| == W(last - kf) + 1 <= 0x8000
    ensures sent[|sent| - 1].seqno == last
  {
    hide W, Moment, IsIn, Proper;
    StepsAre(kf, last);
    assert sent[|sent| - 1].seqno == W(kf + W(last - kf));
  }

  lemma NothingInTurn(kf: U16, r: Ring<Packet>, others: Schedule)
    requires Wf(r) && Proper(others)
    ensures InTurn([], kf, r, others)
  {
  }

  /** The way of a packet from the reader to a writer: it is stored, its number and index are passed on, others use the
      cache, and the writer looks at the index. As long as the slot is spared it finds the packet as it was kept. */
  method Relay(cache: Cache, seqno: U16, timestamp: U32, isKeyframe: bool, marker: bool, packet: seq<Byte>,
               others: seq<CacheOp>, buf: array<Byte>)
    returns (r: Outcome<nat>, ghost stored: Ring<Packet>, ghost index: nat)
    requires cache.Valid() && AllAllowed(others)
    modifies cache, cache.entries, cache.bitmap, buf
    ensures cache.Valid() && Wf(stored) && index < |stored.slots|
    ensures stored == Push(old(cache.Slots()), Kept(seqno, timestamp, marker, packet)) && index == old(cache.Slots()).tail
    ensures AllSpared(stored, others, index) ==>
              && r == Read(Kept(seqno, timestamp, marker, packet), buf.Length)
              && (|packet| <= BUF_SIZE && |packet| <= buf.Length ==> r == Value(|packet|) && buf[..|packet|] == packet)
  {
    hide HoldsNewest, PerformedAll, Views, View, Queue, Recent, AllAllowed, AllSpared, Kept;
    ghost var p := Kept(seqno, timestamp, marker, packet);
    var _, i := cache.Store(seqno, timestamp, isKeyframe, marker, packet);
    stored, index := cache.Slots(), i;
    cache.PerformAll(others);
    r := cache.GetAt(seqno, i, buf);
    if AllSpared(stored, others, index) {
      IndexOutlives(stored, others, index);
      KeptNumber(seqno, timestamp, marker, packet);
    }
  }

  lemma KeptNumber(seqno: U16, timestamp: U32, marker: bool, packet: seq<Byte>)
    ensures Kept(seqno, timestamp, marker, packet).seqno == seqno
  {
  }
}

/** How long the last keyframe of a track is remembered. */
module Keyframes {
  import opened Basics
  import opened Serial
  import opened PacketCache
  import RS = ReceiverStats

  /** Store i is of a keyframe, and no later one is. */
  ghost predicate IsLastKeyframe(ops: seq<CacheOp>, i: nat) {
    && i < |ops| && ops[i].DoStore? && ops[i].isKeyframe
    && forall j :: i < j < |ops| && ops[j].DoStore? ==> !ops[j].isKeyframe
  }

  /** Operation j stores a packet that is ahead of the newest one, and 2^15 or more ahead of keyframe k modulo 2^16. */
  predicate Outruns(s: RS.Stats, ops: seq<CacheOp>, j: nat, k: U16)
    requires j < |ops|
  {
    var before := CountedAll(s, ops[..j]);
    && ops[j].DoStore? && before.lastValid
    && 0 < W(ops[j].seqno - before.last) < 0x8000
    && W(ops[j].seqno - k) >= 0x8000
  }

  /** After any operations, the last keyframe stored is remembered exactly if no packet has outrun it since. */
  lemma {:induction false} KeptIffNotOutrun(k: Option<U16>, s: RS.Stats, ops: seq<CacheOp>, i: nat)
    requires IsLastKeyframe(ops, i)
    ensures KeyframeAfterAll(k, s, ops) == None || KeyframeAfterAll(k, s, ops) == Some(ops[i].seqno)
    ensures KeyframeAfterAll(k, s, ops) == None <==> exists j :: i < j < |ops| && Outruns(s, ops, j, ops[i].seqno)
  {
    hide W, CountedAll;
    var n := |ops| - 1;
    if i < n {
      assert forall j :: 0 <= j < n ==> ops[..n][j] == ops[j] && ops[..n][..j] == ops[..j];
      KeptIffNotOutrun(k, s, ops[..n], i);
      assert forall j :: i < j < n ==> Outruns(s, ops[..n], j, ops[i].seqno) == Outruns(s, ops, j, ops[i].seqno);
      var key, before := ops[i].seqno, KeyframeAfterAll(k, s, ops[..n]);
      assert KeyframeAfterAll(k, s, ops) == if before == None || Outruns(s, ops, n, key) then None else before;
      if before == None {
        var j :| i < j < n && Outruns(s, ops[..n], j, key);
        assert Outruns(s, ops, j, key);
      }
    }
  }

  // ---------------------------------------------------------------- in unbounded numbers

  /** The statistics of a run of stores, as events of the counters. */
  function EventsOf(ops: seq<CacheOp>): seq<RS.Event> {
    if ops == [] then []
    else
      var op := ops[|ops| - 1];
      EventsOf(ops[..|ops| - 1]) +
      match op
      case DoStore(seqno, _, _, _, _) => [RS.Store(seqno)]
      case DoResize(_) => []
      case DoResizeCond(_) => []
      case DoExpect(n) => [RS.Expect(n)]
      case DoGetStats(reset) => if reset then [RS.Reset] else []
  }

  lemma {:induction false} CountedIsCounters(ops: seq<CacheOp>)
    ensures CountedAll(RS.EMPTY, ops) == RS.Counters(EventsOf(ops))
  {
    if ops != [] {
      var before, op := ops[..|ops| - 1], ops[|ops| - 1];
      CountedIsCounters(before);
      var evs := EventsOf(ops);
      if |evs| > |EventsOf(before)| {
        assert evs[..|evs| - 1] == EventsOf(before);
      } else {
        assert evs == EventsOf(before);
      }
    }
  }

  /** The highest number received, and when the sender is taken to have restarted. */
  function Newest(ops: seq<CacheOp>): RS.Ideal {
    RS.Ideals(EventsOf(ops))
  }

  predicate RestartsAt(ops: seq<CacheOp>, j: nat)
    requires j < |ops|
  {
    ops[j].DoStore? && RS.FarPast(Newest(ops[..j]), RS.Store(ops[j].seqno))
  }

  lemma EventsOfMore(ops: seq<CacheOp>, op: CacheOp)
    ensures op.DoStore? ==> EventsOf(ops + [op]) == EventsOf(ops) + [RS.Store(op.seqno)]
    ensures !op.DoStore? ==>
              var evs, all := EventsOf(ops), EventsOf(ops + [op]);
              all == evs || all == evs + [RS.Reset] || (op.DoExpect? && all == evs + [RS.Expect(op.n)])
  {
    assert (ops + [op])[..|ops|] == ops;
  }

  /** Only stores move the highest number. */
  lemma OthersMoveNothing(i: RS.Ideal, ev: RS.Event)
    requires !ev.Store?
    ensures RS.Ideally(i, ev).max == i.max && RS.Ideally(i, ev).started == i.started
  {
  }

  lemma NewestIs(ops: seq<CacheOp>, op: CacheOp)
    ensures var i, i' := Newest(ops), Newest(ops + [op]);
            && (op.DoStore? ==> i' == RS.Ideally(i, RS.Store(op.seqno)))
            && (!op.DoStore? ==> i'.max == i.max && i'.started == i.started)
  {
    hide EventsOf, RS.Ideally, RS.Ideals;
    var evs := EventsOf(ops);
    EventsOfMore(ops, op);
    if op.DoStore? {
      RS.OneMore(evs, RS.Store(op.seqno));
    } else if EventsOf(ops + [op]) != evs {
      var ev := if EventsOf(ops + [op]) == evs + [RS.Reset] then RS.Reset else RS.Expect(op.n);
      RS.OneMore(evs, ev);
      OthersMoveNothing(RS.Ideals(evs), ev);
    }
  }

  lemma NewestIsLast(ops: seq<CacheOp>)
    ensures var i, s := Newest(ops), CountedAll(RS.EMPTY, ops);
            s.lastValid == i.started && (i.started ==> s.last == W(i.max))
  {
    hide W, CountedAll, EventsOf, RS.Counters, RS.Ideals, RS.Extends, RS.Total;
    CountedIsCounters(ops);
    RS.RunCounts(EventsOf(ops));
  }

  /** The unbounded number of the keyframe stored at i. */
  function Place(ops: seq<CacheOp>, i: nat): int
    requires i < |ops| && ops[i].DoStore?
  {
    RS.Number(Newest(ops[..i]), ops[i].seqno)
  }

  /** While the sender does not restart, the last keyframe is remembered exactly as long as the newest packet is less
      than 2^15 after it. */
  lemma {:induction false} KeptIffNear(ops: seq<CacheOp>, i: nat)
    requires IsLastKeyframe(ops, i) && forall j :: i <= j < |ops| ==> !RestartsAt(ops, j)
    ensures Newest(ops).started && Place(ops, i) <= Newest(ops).max
    ensures KeyframeAfterAll(None, RS.EMPTY, ops) ==
            if Newest(ops).max - Place(ops, i) < 0x8000 then Some(ops[i].seqno) else None
  {
    hide W, CountedAll, Newest, RS.FarPast, RS.Ideally;
    var n := |ops| - 1;
    assert ops[..n] + [ops[n]] == ops;
    NewestIs(ops[..n], ops[n]);
    NewestIsLast(ops[..n]);
    if i == n {
      assert !RestartsAt(ops, n);
      StoredIsNear(Newest(ops[..n]), ops[n].seqno);
    } else {
      assert forall j :: 0 <= j < n ==> ops[..n][j] == ops[j] && ops[..n][..j] == ops[..j];
      forall j | i <= j < n ensures !RestartsAt(ops[..n], j) {
        assert !RestartsAt(ops, j);
      }
      KeptIffNear(ops[..n], i);
      assert Place(ops[..n], i) == Place(ops, i);
      PlaceIsNumber(ops, i);
      if ops[n].DoStore? {
        assert !RestartsAt(ops, n);
        StepOn(Newest(ops[..n]), CountedAll(RS.EMPTY, ops[..n]), Place(ops, i), ops[n].seqno);
      }
    }
  }

  /** A packet that is stored is at most 256 before the newest then. */
  lemma StoredIsNear(i: RS.Ideal, seqno: U16)
    requires !RS.FarPast(i, RS.Store(seqno))
    ensures var i' := RS.Ideally(i, RS.Store(seqno));
            i'.started && RS.Number(i, seqno) <= i'.max <= RS.Number(i, seqno) + 0x100
  {
    hide W;
    if i.started {
      NearestPosition(i.max, seqno);
    }
  }

  lemma PlaceIsNumber(ops: seq<CacheOp>, i: nat)
    requires i < |ops| && ops[i].DoStore?
    ensures W(Place(ops, i)) == ops[i].seqno
  {
    hide W;
    WrapSelf(ops[i].seqno);
    assert W(Above(Newest(ops[..i]).max, ops[i].seqno)) == ops[i].seqno;
  }

  /** One more packet: whether it is ahead of the newest, and then how far after the keyframe at p. */
  lemma StepOn(i: RS.Ideal, s: RS.Stats, p: int, seqno: U16)
    requires i.started && s.lastValid && s.last == W(i.max) && p <= i.max && !RS.FarPast(i, RS.Store(seqno))
    ensures var i' := RS.Ideally(i, RS.Store(seqno));
            && i'.started && i'.max >= i.max
            && (i'.max > i.max <==> Advances(s, seqno))
            && (i'.max > i.max && i.max - p < 0x8000 ==> (W(seqno - W(p)) >= 0x8000 <==> i'.max - p >= 0x8000))
  {
    hide W;
    NearestPosition(i.max, seqno);
    Distances(s.last, seqno);
    var m := Nearest(i.max, seqno);
    if m > i.max {
      assert W(m) == seqno;
      WrapSub(m, p);
      if i.max - p < 0x8000 {
        WrapSelf(m - p);
      }
    }
  }
}

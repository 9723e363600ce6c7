/** What the packet map forgets, and what it does not: when it starts over, and how long it remembers a number that
    it forwarded. */
module PacketMapMemory {
  import opened Serial
  import opened Windows
  import opened RemapEpoch
  import opened PacketMap
  import opened PacketMapRuns

  // ---------------------------------------------------------------- starting over

  /** After a drop, the map starts over exactly at the numbers more than 8192 away from the next one. Then nothing is
      left of what it knew, and the number is forwarded as it is. */
  lemma StartsOverIff(e: Epoch, seqno: U16, pid: U16)
    requires Inv(e) && e.spans != []
    ensures var e' := AfterMap(e, seqno, pid);
            && (FarAway(W(e.next), seqno) <==> e'.spans == [])
            && (FarAway(W(e.next), seqno) ==>
                  && MapAnswer(e, seqno) == Answer(true, seqno, 0)
                  && e' == Epoch(seqno + 1, pid, 0, {}, [], map[seqno := Forwarded(seqno, 0)]))
  {
    hide Inv, W, Recall, Forward, MapAnswer;
    CanAlwaysForward(e);
    SpansAreFew(e);
    JumpsIsFarAway(e, seqno);
    if Jumps(e, seqno) {
      JumpAnswer(e, seqno);
    } else if IsAhead(e, seqno) {
      ForwardKeepsSpans(e, Ahead(e, seqno), pid);
    } else {
      RecallKeepsSpans(e, Behind(e, seqno));
    }
  }

  lemma JumpAnswer(e: Epoch, seqno: U16)
    requires Jumps(e, seqno)
    ensures MapAnswer(e, seqno) == Answer(true, seqno, 0)
  {
  }

  lemma JumpsIsFarAway(e: Epoch, seqno: U16)
    requires e.spans != []
    ensures Jumps(e, seqno) <==> FarAway(W(e.next), seqno)
  {
    hide W, Compare, Above, Below;
    Positions(e, seqno);
    Distances(W(e.next), seqno);
  }

  lemma ForwardKeepsSpans(e: Epoch, s: int, pid: U16)
    requires e.spans != [] && CanForward(e) && e.next <= s && |e.spans| <= 128
    ensures var e' := Forward(e, s, pid);
            && e'.dropped == e.dropped && e'.pid == e.pid && e'.spans != []
            && (forall j :: (if |e.spans| == 128 then 1 else 0) <= j < |e.spans| - 1 ==> e.spans[j] in e'.spans)
            && exists j :: 0 <= j < |e'.spans| && e'.spans[j].first == e.spans[|e.spans| - 1].first
  {
    hide W;
    var e', n := Forward(e, s, pid), |e.spans|;
    if Current(e) {
      assert e'.spans[n - 1].first == e.spans[n - 1].first;
      forall j | 0 <= j < n - 1 ensures e.spans[j] in e'.spans {
        assert e'.spans[j] == e.spans[j];
      }
    } else {
      var k := if n == 128 then 1 else 0;
      assert e'.spans[n - 1 - k].first == e.spans[n - 1].first;
      forall j | k <= j < n - 1 ensures e.spans[j] in e'.spans {
        assert e'.spans[j - k] == e.spans[j];
      }
    }
  }

  lemma RecallKeepsSpans(e: Epoch, s: int)
    ensures var e' := Recall(e, s); e' == e.(log := e'.log)
  {
  }

  /** At every other number no drop and no answer is forgotten, and no interval but the oldest of 128; the newest
      may get longer. */
  lemma OtherwiseNothingIsLost(e: Epoch, seqno: U16, pid: U16)
    requires Inv(e) && e.spans != [] && !FarAway(W(e.next), seqno)
    ensures var e' := AfterMap(e, seqno, pid);
            && e'.dropped == e.dropped && e'.pid == e.pid
            && (forall s :: s in e.log ==> s in e'.log && e'.log[s] == e.log[s])
            && (forall j :: (if |e.spans| == 128 then 1 else 0) <= j < |e.spans| - 1 ==> e.spans[j] in e'.spans)
            && exists j :: 0 <= j < |e'.spans| && e'.spans[j].first == e.spans[|e.spans| - 1].first
  {
    hide Inv, W, Recall, Forward;
    CanAlwaysForward(e);
    JumpsIsFarAway(e, seqno);
    var e' := AfterMap(e, seqno, pid);
    assert CallStep(e, Mapping(seqno, pid), e');
    forall s | s in e.log ensures s in e'.log && e'.log[s] == e.log[s] {
      StepKeepsAnswer(e, Mapping(seqno, pid), e', s);
    }
    SpansAreFew(e);
    if IsAhead(e, seqno) {
      ForwardKeepsSpans(e, Ahead(e, seqno), pid);
    } else {
      RecallKeepsSpans(e, Behind(e, seqno));
    }
  }

  lemma SpansAreFew(e: Epoch)
    requires Inv(e)
    ensures |e.spans| <= 128
  {
  }

  /** Numbers 0 dropped and 1 forwarded; then the sender restarts its numbering at 50000. */
  lemma SenderStartsOver(pid: U16)
    ensures var e := AfterMap(Discard(Fresh(0, pid), pid), 1, pid);
            MapAnswer(e, 50000) == Answer(true, 50000, 0) && AfterMap(e, 50000, pid).next == 50001
  {
    hide Inv, AfterMap, MapAnswer, Recall;
    var d := Discard(Fresh(0, pid), pid);
    FreshInv(0, pid);
    DiscardKeepsInv(Fresh(0, pid), pid);
    OneIsNear(pid);
    AfterMapInv(d, 1, pid);
    OtherwiseNothingIsLost(d, 1, pid);
    StartsOverIff(AfterMap(d, 1, pid), 50000, pid);
  }

  lemma OneIsNear(pid: U16)
    ensures var d := Discard(Fresh(0, pid), pid);
            d.spans != [] && !FarAway(W(d.next), 1) && FarAway(2, 50000)
            && CanForward(d) && AfterMap(d, 1, pid).next == 2 && W(2) == 2
  {
    var d := Discard(Fresh(0, pid), pid);
    SameResidue(1, Ahead(d, 1));
  }

  // ---------------------------------------------------------------- how long numbers are remembered

  /** Interval j holds s, and each interval after it, and the next one if it is due, was begun after a drop of its own:
      there are fewer of them than the d drops since. */
  ghost predicate HeldAt(e: Epoch, s: int, d: int, j: int) {
    0 <= j < |e.spans| && e.spans[j].Has(s) && |e.spans| - 1 - j + (if Current(e) then 0 else 1) <= d
  }

  /** s was forwarded d drops ago and is still remembered. */
  ghost predicate Held(e: Epoch, s: int, d: int) {
    s < e.next && if e.spans == [] then d == 0 else exists j :: HeldAt(e, s, d, j)
  }

  lemma ForwardHolds(e: Epoch, s: int, pid: U16)
    requires Inv(e) && e.next <= s
    ensures Held(Forward(e, s, pid), s, 0)
  {
    hide W;
    if e.spans != [] {
      var e' := Forward(e, s, pid);
      assert HeldAt(e', s, 0, |e'.spans| - 1);
    }
  }

  lemma ForwardKeepsHold(e: Epoch, t: int, pid: U16, s: int, d: nat)
    requires Inv(e) && e.next <= t && Held(e, s, d) && d < 128
    ensures Held(Forward(e, t, pid), s, d)
  {
    hide W, AllGapsAreDrops, Faithful, LogIsRank;
    if e.spans != [] {
      var e' := Forward(e, t, pid);
      var j :| HeldAt(e, s, d, j);
      if Current(e) {
        assert HeldAt(e', s, d, j);
      } else if |e.spans| < 128 {
        assert HeldAt(e', s, d, j);
      } else {
        assert j > 0;
        assert HeldAt(e', s, d, j - 1);
      }
    }
  }

  lemma DiscardKeepsHold(e: Epoch, pid: U16, s: int, d: nat)
    requires Inv(e) && Held(e, s, d) && e.next - 8192 <= s
    ensures Held(Discard(e, pid), s, d + 1)
  {
    hide W, AllGapsAreDrops, Faithful;
    var e' := Discard(e, pid);
    if e.spans == [] {
      assert HeldAt(e', s, d + 1, 0);
    } else {
      var j :| HeldAt(e, s, d, j);
      assert HeldAt(e', s, d + 1, j);
    }
  }

  lemma RecallKeepsHold(e: Epoch, t: int, s: int, d: nat)
    requires Held(e, s, d)
    ensures Held(Recall(e, t), s, d)
  {
    RecallKeepsSpans(e, t);
    if e.spans != [] {
      var j :| HeldAt(e, s, d, j);
      assert HeldAt(Recall(e, t), s, d, j);
    }
  }

  /** The drops of a run, counted from step i. */
  function DropsSince(es: seq<Epoch>, i: nat, k: nat): int
    requires i <= k < |es|
  {
    |es[k].dropped| - |es[i].dropped|
  }

  lemma CallKeepsHold(e: Epoch, c: Call, e': Epoch, s: int, d: nat)
    requires Inv(e) && CallStep(e, c, e') && Held(e, s, d) && e'.next - 8192 <= s
    requires d + |e'.dropped| - |e.dropped| < 128
    ensures e.next <= e'.next && |e.dropped| <= |e'.dropped|
    ensures d < 128 ==> Held(e', s, d + |e'.dropped| - |e.dropped|)
  {
    hide Inv, Recall, Forward, W, Held;
    match c
    case Mapping(seqno, pid) =>
      if IsAhead(e, seqno) {
        ForwardNext(e, Ahead(e, seqno), pid);
        if d < 128 {
          ForwardKeepsHold(e, Ahead(e, seqno), pid, s, d);
        }
      } else {
        RecallKeepsSpans(e, Behind(e, seqno));
        RecallKeepsHold(e, Behind(e, seqno), s, d);
      }
    case Dropping(seqno, pid) =>
      if seqno == W(e.next) {
        DropCounts(e, pid);
        DiscardKeepsHold(e, pid, s, d);
      }
  }

  lemma ForwardNext(e: Epoch, s: int, pid: U16)
    requires e.next <= s && CanForward(e)
    ensures Forward(e, s, pid).next == s + 1 && Forward(e, s, pid).dropped == e.dropped
  {
    hide W;
  }

  lemma DropCounts(e: Epoch, pid: U16)
    requires Inv(e)
    ensures |Discard(e, pid).dropped| == |e.dropped| + 1 && Discard(e, pid).next == e.next + 1
  {
    DropCount(e);
  }

  lemma CallsMoveOn(e: Epoch, c: Call, e': Epoch)
    requires Inv(e) && CallStep(e, c, e')
    ensures e.next <= e'.next && |e.dropped| <= |e'.dropped|
  {
    hide Inv, Recall, Forward, W;
    match c
    case Mapping(seqno, pid) =>
      if IsAhead(e, seqno) {
        ForwardNext(e, Ahead(e, seqno), pid);
      } else {
        RecallKeepsSpans(e, Behind(e, seqno));
      }
    case Dropping(seqno, pid) =>
      DropCounts(e, pid);
  }

  /** In every run of calls, a number that was forwarded in order at step i is still remembered at step k if it is at
      most 8192 before the next number, and fewer than 128 packets were dropped since. */
  lemma {:induction false} HeldSince(es: seq<Epoch>, cs: seq<Call>, i: nat, k: nat)
    requires IsCallRun(es, cs) && i < k < |es| && cs[i].Mapping? && IsAhead(es[i], cs[i].seqno)
    requires es[k].next - 8192 <= Ahead(es[i], cs[i].seqno) && DropsSince(es, i, k) < 128
    ensures DropsSince(es, i, k) >= 0 && Held(es[k], Ahead(es[i], cs[i].seqno), DropsSince(es, i, k))
    decreases k
  {
    hide Inv, Held, Recall, Forward, W, After;
    CallsKeepInv(es, cs, k - 1);
    assert CallStep(es[k - 1], cs[k - 1], es[k]);
    var s := Ahead(es[i], cs[i].seqno);
    if k == i + 1 {
      ForwardStep(es[i], cs[i], es[k]);
    } else {
      CallsMoveOn(es[k - 1], cs[k - 1], es[k]);
      HeldSince(es, cs, i, k - 1);
      CallKeepsHold(es[k - 1], cs[k - 1], es[k], s, DropsSince(es, i, k - 1));
    }
  }

  lemma ForwardStep(e: Epoch, c: Call, e': Epoch)
    requires Inv(e) && CallStep(e, c, e') && c.Mapping? && IsAhead(e, c.seqno)
    ensures Held(e', Ahead(e, c.seqno), 0) && e'.dropped == e.dropped
  {
    hide Inv, Held, Forward, W;
    ForwardNext(e, Ahead(e, c.seqno), c.pid);
    ForwardHolds(e, Ahead(e, c.seqno), c.pid);
  }

  /** So, unless the interval that holds it has become longer than 2^15, it is given the same answer again. */
  lemma AnsweredAgain(es: seq<Epoch>, cs: seq<Call>, i: nat, k: nat)
    requires IsCallRun(es, cs) && i < k < |es| && cs[i].Mapping? && IsAhead(es[i], cs[i].seqno)
    requires es[k].next - 8192 <= Ahead(es[i], cs[i].seqno) && DropsSince(es, i, k) < 128
    requires AllNear(es[k])
    ensures MapAnswer(es[k], cs[i].seqno) == MapAnswer(es[i], cs[i].seqno) && MapAnswer(es[i], cs[i].seqno).ok
  {
    hide Inv, After, MapAnswer, W, Held;
    var s := Ahead(es[i], cs[i].seqno);
    HeldSince(es, cs, i, k);
    CallsKeepInv(es, cs, i);
    CallsKeepInv(es, cs, k);
    assert CallStep(es[i], cs[i], es[i + 1]);
    InOrderIsAnswered(es[i], cs[i].seqno);
    AnsweredIsLogged(es[i], cs[i], es[i + 1]);
    CallsKeepAnswers(es, cs, i + 1, k, s);
    HeldIsRemembered(es[k], s, DropsSince(es, i, k));
    RetransmitMeaning(es[k], s, 0);
  }

  lemma InOrderIsAnswered(e: Epoch, seqno: U16)
    requires IsAhead(e, seqno)
    ensures MapAnswer(e, seqno).ok
  {
  }

  lemma HeldIsRemembered(e: Epoch, s: int, d: int)
    requires Held(e, s, d) && AllNear(e)
    ensures Remembers(e, s)
  {
    if e.spans != [] {
      var j :| HeldAt(e, s, d, j);
      assert Near(e, j) && e.spans[j].Has(s);
    }
  }

  /** When 128 intervals are remembered and a packet was dropped since the last one was forwarded, the next one takes the
      place of the oldest, whose numbers are then held by none. */
  lemma OldestOf128IsForgotten(e: Epoch, t: int, pid: U16, s: int)
    requires Inv(e) && |e.spans| == 128 && !Current(e) && e.next <= t && e.spans[0].Has(s)
    ensures Find(Sources(Forward(e, t, pid).spans), s) == -1
  {
    hide W, AllGapsAreDrops, Faithful;
    var e' := Forward(e, t, pid);
    forall j | 0 <= j < |e'.spans| ensures !e'.spans[j].Has(s) {
      if j < 127 {
        assert e'.spans[j] == e.spans[j + 1];
      }
    }
    assert forall j :: 0 <= j < |e'.spans| ==> Sources(e'.spans)[j] == e'.spans[j].Source();
  }

  /** A packet that is forwarded after a drop begins an interval. It takes in all the numbers that are missing since the
      drops, unless 8192 or more numbers were dropped since the last interval; then it begins with the packet itself. */
  lemma NewInterval(e: Epoch, s: int, pid: U16)
    requires Inv(e) && e.spans != [] && !Current(e) && e.next <= s
    ensures var spans, dropped := Forward(e, s, pid).spans, e.next - e.spans[|e.spans| - 1].End();
            && spans != []
            && (forall x :: e.next - dropped <= x < e.next ==> x in e.dropped)
            && (dropped < 0x1_0000 ==> spans[|spans| - 1].first == if dropped < 8192 then e.next else s)
            && spans[|spans| - 1].End() == s + 1 && spans[|spans| - 1].delta == 0 - |e.dropped|
            && spans[|spans| - 1].pid == e.pid
  {
    hide W, Faithful;
    var last := e.spans[|e.spans| - 1];
    if last.delta + |e.dropped| < 0x1_0000 {
      WrapSelf(last.delta + |e.dropped|);
    }
  }

  /** The first drop remembers the 8192 numbers before it, which were forwarded as they are; the number dropped is
      refused. */
  lemma FirstDropRemembers(e: Epoch, pid: U16, s: int)
    requires Inv(e) && e.spans == [] && e.next - 8192 <= s < e.next
    ensures ReverseAnswer(Discard(e, pid), W(s)) == Answer(true, W(s), 0)
    ensures s > e.next - 8192 ==> MapAnswer(Discard(e, pid), W(s)) == Answer(true, W(s), 0)
    ensures MapAnswer(Discard(e, pid), W(e.next)) == REFUSED
  {
    hide Inv, MapAnswer, ReverseAnswer, W, Answerer, Passes, Admits;
    var e' := Discard(e, pid);
    var w := Window(e.next - 8192, 8192);
    assert Sources(e'.spans) == [w] && Targets(e'.spans) == [w];
    OneWindow(w, s);
    OneWindow(w, e.next);
    ReverseAnswerIs(e', s);
    NoDelta(W(s));
    if s > e.next - 8192 {
      LateAnswerIs(e', s);
    }
    LateAnswerIs(e', e.next);
  }

  /** A window shorter than 2^15 answers for its own numbers, and not for the next. */
  lemma OneWindow(w: Window, s: int)
    requires 0 < w.count < 0x8000 && w.start <= s <= w.start + w.count
    ensures Answerer([w], s) == if w.Has(s) then 0 else -1
  {
    assert [w][..0] == [];
    NearWindow(w, s);
    assert !Passes(w, s) by { WrapSelf(s - w.start); }
  }
}

/** What becomes of lost packets: how the loss window is emptied, and when the reader of a track reports every loss. */
module LossReports {
  import opened Serial
  import opened Bits
  import opened LossBitmap

  // ---------------------------------------------------------------- emptying the window

  /** Get(next) moves the window on to next, but by no more than 17 numbers. */
  ghost predicate Polls(h: History, next: U16, h': History) {
    var d := Nearest(h.first, next) - h.first;
    Reports(h, if d <= 0 then 0 else if d < 17 then d else 17, h')
  }

  ghost predicate Polled(hs: seq<History>, next: U16) {
    hs != [] && forall i :: 0 <= i < |hs| - 1 ==> Polls(hs[i], next, hs[i + 1])
  }

  lemma NearestIsNear(x: int, s: U16)
    ensures W(Nearest(x, s)) == s && -0x8000 <= Nearest(x, s) - x < 0x8000
  {
    NearestPosition(x, s);
  }

  /** A number that is meant when seen from x is meant when seen from between x and it. */
  lemma NearestFromBetween(x: int, y: int, s: U16)
    requires x <= y <= Nearest(x, s)
    ensures Nearest(y, s) == Nearest(x, s)
  {
    hide W;
    var t := Nearest(x, s);
    NearestIsNear(x, s);
    WrapSub(t, y);
    WrapSelf(t - y);
    SameResidue(Above(y, s), t);
  }

  /** After k polls the window has moved on by 17 * k numbers, or has reached next. */
  lemma {:induction false} PollsAdvance(hs: seq<History>, next: U16, k: nat)
    requires Polled(hs, next) && k < |hs|
    requires Nearest(hs[0].first, next) >= hs[0].first
    ensures var d := Nearest(hs[0].first, next) - hs[0].first;
            && hs[k].first == hs[0].first + (if 17 * k <= d then 17 * k else d)
            && Nearest(hs[k].first, next) == Nearest(hs[0].first, next)
            && hs[k].received == hs[0].received
  {
    hide Nearest;
    if k > 0 {
      PollsAdvance(hs, next, k - 1);
      assert Polls(hs[k - 1], next, hs[k]);
      NearestFromBetween(hs[0].first, hs[k].first, next);
    }
  }

  /** Number x is in exactly one of the reports. */
  ghost predicate ReportedOnce(reported: seq<set<int>>, x: int) {
    exists i :: 0 <= i < |reported| && x in reported[i] && forall j :: 0 <= j < |reported| && j != i ==> x !in reported[j]
  }

  lemma {:induction false} PollsKeepInv(hs: seq<History>, next: U16, k: nat)
    requires Polled(hs, next) && k < |hs| && Inv(hs[0])
    ensures Inv(hs[k]) && hs[0].reported <= hs[k].reported
  {
    hide Inv, Nearest;
    if k > 0 {
      PollsKeepInv(hs, next, k - 1);
      assert Polls(hs[k - 1], next, hs[k]);
      var d := Nearest(hs[k - 1].first, next) - hs[k - 1].first;
      ReportKeepsInv(hs[k - 1], if d <= 0 then 0 else if d < 17 then d else 17, hs[k]);
    }
  }

  /** Number x is in report n or a later one. */
  ghost predicate ReportedFrom(reported: seq<set<int>>, n: nat, x: int) {
    exists i :: n <= i < |reported| && x in reported[i]
  }

  /** One poll reports what it leaves behind, and takes nothing back. */
  lemma PollReports(h: History, next: U16, h': History, n: nat, x: int)
    requires Polls(h, next, h') && n <= |h.reported| && h.first <= x < h'.first && x !in h.received
    ensures ReportedFrom(h'.reported, n, x)
  {
    hide Nearest;
    assert x in Lost(h, h'.first - h.first);
    assert x in h'.reported[|h.reported|];
  }

  lemma StaysReported(reported: seq<set<int>>, more: seq<set<int>>, n: nat, x: int)
    requires reported <= more && ReportedFrom(reported, n, x)
    ensures ReportedFrom(more, n, x)
  {
    var i :| n <= i < |reported| && x in reported[i];
    assert x in more[i];
  }

  /** What has left the window by then was reported if it was not received. */
  lemma {:induction false} PollsReport(hs: seq<History>, next: U16, k: nat, x: int)
    requires Polled(hs, next) && k < |hs| && hs[0].first <= x < hs[k].first && x !in hs[0].received
    ensures ReportedFrom(hs[k].reported, |hs[0].reported|, x)
  {
    hide Nearest, ReportedFrom, Reports;
    if k > 0 {
      PollsOnlyAdd(hs, next, k - 1);
      assert Polls(hs[k - 1], next, hs[k]);
      if x < hs[k - 1].first {
        PollsReport(hs, next, k - 1, x);
        PollAdds(hs[k - 1], next, hs[k]);
        StaysReported(hs[k - 1].reported, hs[k].reported, |hs[0].reported|, x);
      } else {
        PollReports(hs[k - 1], next, hs[k], |hs[0].reported|, x);
      }
    }
  }

  lemma PollAdds(h: History, next: U16, h': History)
    requires Polls(h, next, h')
    ensures h.reported <= h'.reported && h'.received == h.received && h.first <= h'.first
  {
    hide Nearest;
  }

  lemma {:induction false} PollsOnlyAdd(hs: seq<History>, next: U16, k: nat)
    requires Polled(hs, next) && k < |hs|
    ensures hs[0].reported <= hs[k].reported && hs[k].received == hs[0].received && hs[0].first <= hs[k].first
  {
    hide Nearest;
    if k > 0 {
      PollsOnlyAdd(hs, next, k - 1);
      PollAdds(hs[k - 1], next, hs[k]);
    }
  }

  /** As many polls as it takes to get to next in steps of 17 empty the window: it then starts at next, and every number
      before next that was in it and was not received is in exactly one report, a new one. */
  lemma PollsEmptyTheWindow(hs: seq<History>, next: U16, k: nat)
    requires Polled(hs, next) && k < |hs| && Inv(hs[0])
    requires 0 <= Nearest(hs[0].first, next) - hs[0].first <= 17 * k
    ensures hs[k].first == Nearest(hs[0].first, next)
    ensures forall x :: hs[0].first <= x < hs[k].first && x !in hs[0].received ==>
              ReportedOnce(hs[k].reported, x) && ReportedFrom(hs[k].reported, |hs[0].reported|, x)
  {
    hide Nearest, Polled;
    PollsAdvance(hs, next, k);
    PollsKeepInv(hs, next, k);
    forall x | hs[0].first <= x < hs[k].first && x !in hs[0].received
      ensures ReportedOnce(hs[k].reported, x) && ReportedFrom(hs[k].reported, |hs[0].reported|, x)
    {
      PollsReport(hs, next, k, x);
      var i :| |hs[0].reported| <= i < |hs[k].reported| && x in hs[k].reported[i];
      OnlyOnce(hs[k], i, x);
    }
  }

  lemma OnlyOnce(h: History, i: nat, x: int)
    requires Inv(h) && i < |h.reported| && x in h.reported[i]
    ensures ReportedOnce(h.reported, x)
  {
    forall j | 0 <= j < |h.reported| && j != i ensures x !in h.reported[j] {
      assert if i < j then h.reported[i] !! h.reported[j] else h.reported[j] !! h.reported[i];
    }
  }

  // ---------------------------------------------------------------- the reader

  /** How many packets late is too late: 20 ms of packets at the given rate, but at least 2 and at most 24. */
  function Patience(rate: nat): (p: nat)
    ensures 2 <= p <= 24
    ensures rate < 150 <==> p == 2
    ensures 150 <= rate < 1200 ==> 50 * p <= rate < 50 * (p + 1)
    ensures rate >= 1200 <==> p == 24
  {
    if rate / 50 > 24 then 24 else if rate / 50 < 2 then 2 else rate / 50
  }

  /** The reader receives packet s. If the window then starts more than packets numbers before s, it reports losses, but
      not among the 4 most recent packets, or not among as many as it waits for. */
  ghost predicate Reads(h: History, s: int, packets: nat, h': History) {
    exists mid: History :: ReadsBy(h, s, packets, mid, h')
  }

  ghost predicate ReadsBy(h: History, s: int, packets: nat, mid: History, h': History) {
    && Arrives(h, s, mid)
    && if s - mid.first > packets then
         var n := s - (if packets < 4 then packets else 4) - mid.first;
         Reports(mid, if n < 17 then n else 17, h')
       else h' == mid
  }

  /** The NACK pair asks for exactly what was reported last. */
  ghost predicate AsksForNewest(h: History, pid: U16, blp: nat) {
    && h.reported != [] && h.reported[|h.reported| - 1] != {}
    && exists first :: W(first) == pid && Asks(first, blp, h.reported[|h.reported| - 1])
  }

  lemma NewestReport(h: History, h': History, pid: U16, blp: nat)
    requires h.first <= h'.first && Reports(h, h'.first - h.first, h')
    requires exists x :: h.first <= x < h'.first && x !in h.received
    requires Asks(Above(h.first, pid), blp, set x | h.first <= x < h'.first && x !in h.received)
    ensures AsksForNewest(h', pid, blp)
  {
    hide Asks, W;
    var lost := Lost(h, h'.first - h.first);
    LostIs(h, h'.first - h.first);
    assert h'.reported == h.reported + [lost];
    assert W(Above(h.first, pid)) == pid;
  }

  /** One turn of the reader's loop: a packet is recorded, and a NACK may be due. */
  method Receive(window: Bitmap, seqno: U16, rate: nat) returns (nack: bool, pid: U16, blp: nat)
    requires window.Valid()
    modifies window
    ensures window.Valid() && window.valid
    ensures var h, s := old(window.history), Nearest(old(window.history).first, seqno);
            if !old(window.valid) || s < h.first - 256 then window.history == Started(seqno) && !nack
            else Reads(h, s, Patience(rate), window.history)
    ensures nack ==> AsksForNewest(window.history, pid, blp)
  {
    hide W, Inv, Shows, NoBitFrom, Asks, Arrives, Nearest, AsksForNewest;
    ghost var h, s := window.history, Nearest(window.history.first, seqno);
    NearestIsNear(h.first, seqno);
    ghost var restarts := !window.valid || s < h.first - 0x100;
    NearestPosition(h.first, seqno);
    ShowsNoFurther(window.bitmap, h.first, h.received);
    window.Set(seqno);
    ghost var mid := window.history;
    var delta := W(seqno - window.first);
    if delta >= 0x8000 {
      delta := 0;
    }
    var packets := rate / 50;
    if packets > 24 {
      packets := 24;
    }
    if packets < 2 {
      packets := 2;
    }
    assert packets == Patience(rate);
    var unnacked := 4;
    if unnacked > packets {
      unnacked := packets;
    }
    nack, pid, blp := false, 0, 0;
    if restarts {
      WrapSelf(0);
      assert seqno - window.first == 0 by { WrapSelf(seqno); }
    } else {
      SlidNotFar(h, s, mid);
      DeltaIs(h, s, mid, seqno);
    }
    if delta > packets {
      NearestBefore(mid.first, s, unnacked, seqno);
      nack, pid, blp := window.Get(W(seqno as int - unnacked));
      assert ReadsBy(h, s, packets, mid, window.history);
      if nack {
        NewestReport(mid, window.history, pid, blp);
      }
    } else if !restarts {
      assert ReadsBy(h, s, packets, mid, window.history);
    }
  }

  /** The window slides past at most the numbers that it shows. */
  lemma SlidNotFar(h: History, s: int, mid: History)
    requires Arrives(h, s, mid) && forall x :: x in h.received ==> x < h.first + WIDTH
    ensures h.first <= mid.first && (mid.first <= h.first + WIDTH || mid.first <= s)
  {
    var slid := if s - h.first >= WIDTH then s - (WIDTH - 1) else h.first;
    if s >= h.first && mid.first > slid {
      assert mid.first - 1 in h.received;
    }
  }

  /** The reader's distance, as a signed number. */
  lemma DeltaIs(h: History, s: int, mid: History, seqno: U16)
    requires W(s) == seqno && h.first <= mid.first && mid.first - s < 0x8000 && s - h.first < 0x8000
    ensures W(seqno - W(mid.first)) == if s >= mid.first then s - mid.first else s - mid.first + MODULUS
  {
    hide W;
    WrapSub(s, mid.first);
    WrapTurn(s - mid.first);
    WrapSelf(if s >= mid.first then s - mid.first else s - mid.first + MODULUS);
  }

  lemma NearestBefore(first: int, s: int, n: nat, seqno: U16)
    requires n <= s - first < 0x8000 && W(s) == seqno
    ensures Nearest(first, W(seqno - n)) == s - n
  {
    hide W;
    WrapSub(s, n);
    WrapSub(s - n, first);
    WrapSelf(s - n - first);
    SameResidue(Above(first, W(s - n)), s - n);
  }

  // ---------------------------------------------------------------- every loss is reported

  datatype Turn = Turn(s: int, packets: nat)

  function Max(x: nat, y: nat): nat {
    if x >= y then x else y
  }

  /** How far the window may start before the newest packet, between two turns. */
  function Lag(patience: nat): nat {
    Max(patience, 14)
  }

  /** A run of the reader since the record was last restarted. No packet is further ahead of the newest one than the
      window has room for. */
  ghost predicate IsReading(hs: seq<History>, turns: seq<Turn>, patience: nat) {
    && |hs| == |turns| + 1 && hs[0] == Started(hs[0].base)
    && 2 <= patience <= 24
    && forall i :: 0 <= i < |turns| ==>
         && turns[i].packets <= patience && turns[i].packets >= 2
         && turns[i].s <= hs[i].newest + 31 - Lag(patience)
         && Reads(hs[i], turns[i].s, turns[i].packets, hs[i + 1])
  }

  ghost predicate Reported(h: History, x: int) {
    exists i :: 0 <= i < |h.reported| && x in h.reported[i]
  }

  /** What has left the window was received or reported, and what is far behind the newest packet has left it. */
  ghost predicate KeepsUp(h: History, patience: nat) {
    && Inv(h)
    && h.newest - h.first <= Lag(patience)
    && forall x :: h.base <= x < h.first ==> x in h.received || Reported(h, x)
  }

  lemma ArrivalKeepsUp(h: History, s: int, h': History, patience: nat)
    requires KeepsUp(h, patience) && Arrives(h, s, h') && s <= h.newest + 31 - Lag(patience)
    ensures Inv(h') && h'.first >= h.first
    ensures forall x :: h'.base <= x < h'.first ==> x in h'.received || Reported(h', x)
    ensures h'.newest == s || h'.newest - h'.first <= Lag(patience)
    ensures s - h'.first <= 31
  {
    ArrivalKeepsInv(h, s, h');
    forall x | h'.base <= x < h'.first ensures x in h'.received || Reported(h', x) {
      if x < h.first && x !in h.received {
        assert Reported(h, x);
      }
    }
  }

  lemma ReportKeepsUp(h: History, n: nat, h': History)
    requires Inv(h) && Reports(h, n, h')
    requires forall x :: h.base <= x < h.first ==> x in h.received || Reported(h, x)
    ensures Inv(h')
    ensures forall x :: h'.base <= x < h'.first ==> x in h'.received || Reported(h', x)
  {
    ReportKeepsInv(h, n, h');
    forall x | h'.base <= x < h'.first ensures x in h'.received || Reported(h', x) {
      if x !in h.received {
        if x < h.first {
          assert Reported(h, x);
          var i :| 0 <= i < |h.reported| && x in h.reported[i];
          assert x in h'.reported[i];
        } else {
          assert x in Lost(h, n);
          assert x in h'.reported[|h.reported|];
        }
      }
    }
  }

  lemma ReadKeepsUp(h: History, s: int, packets: nat, h': History, patience: nat)
    requires KeepsUp(h, patience) && Reads(h, s, packets, h')
    requires 2 <= packets <= patience <= 24 && s <= h.newest + 31 - Lag(patience)
    ensures KeepsUp(h', patience)
  {
    hide Inv, Arrives, Reported;
    var mid :| ReadsBy(h, s, packets, mid, h');
    ArrivalKeepsUp(h, s, mid, patience);
    if s - mid.first > packets {
      var n := s - (if packets < 4 then packets else 4) - mid.first;
      ReportKeepsUp(mid, if n < 17 then n else 17, h');
    }
    ArrivesNewest(h, s, mid);
  }

  lemma ArrivesNewest(h: History, s: int, mid: History)
    requires Arrives(h, s, mid)
    ensures mid.newest >= s && mid.newest == if s > h.newest then s else h.newest
  {
  }

  lemma {:induction false} ReadingKeepsUp(hs: seq<History>, turns: seq<Turn>, patience: nat, i: nat)
    requires IsReading(hs, turns, patience) && i < |hs|
    ensures KeepsUp(hs[i], patience) && hs[i].base == hs[0].base
  {
    hide Inv, KeepsUp, Reads;
    if i == 0 {
      StartedKeepsUp(hs[0].base, patience);
    } else {
      ReadingKeepsUp(hs, turns, patience, i - 1);
      ReadKeepsUp(hs[i - 1], turns[i - 1].s, turns[i - 1].packets, hs[i], patience);
      ReadsKeepBase(hs[i - 1], turns[i - 1], hs[i]);
    }
  }

  lemma ReadsKeepBase(h: History, r: Turn, h': History)
    requires Reads(h, r.s, r.packets, h')
    ensures h'.base == h.base
  {
  }

  lemma StartedKeepsUp(s: int, patience: nat)
    ensures KeepsUp(Started(s), patience)
  {
  }

  /** While the reader waits for at most the given number of packets, and no packet is more than 31 - max(patience, 14)
      ahead of the newest before it, every loss is reported: a number that is more than max(patience, 14) behind the
      newest packet, and was not received, was reported exactly once. */
  lemma EveryLossIsReported(hs: seq<History>, turns: seq<Turn>, patience: nat, i: nat, x: int)
    requires IsReading(hs, turns, patience) && i < |hs|
    requires hs[0].base <= x < hs[i].newest - Lag(patience) && x !in hs[i].received
    ensures ReportedOnce(hs[i].reported, x)
  {
    hide Inv;
    ReadingKeepsUp(hs, turns, patience, i);
    var k :| 0 <= k < |hs[i].reported| && x in hs[i].reported[k];
    OnlyOnce(hs[i], k, x);
  }

  /** The bound is exact for the most patient reader. With packets 0, 7, 14, 21 and 25, and then one 8 ahead, packet 1
      leaves the window without having been received or reported. */
  lemma OneFurtherIsTooFar() returns (hs: seq<History>, turns: seq<Turn>)
    ensures |hs| == 6 && |turns| == 5 && hs[0] == Started(0)
    ensures forall i :: 0 <= i < 5 ==> turns[i].packets == 24 && Reads(hs[i], turns[i].s, 24, hs[i + 1])
    ensures forall i :: 0 <= i < 5 ==> turns[i].s <= hs[i].newest + 31 - Lag(24) + (if i == 4 then 1 else 0)
    ensures 1 !in hs[5].received && !Reported(hs[5], 1) && hs[5].first > 1
  {
    var h0 := Started(0);
    var h1 := History(0, 1, 7, {0, 7}, []);
    var h2 := History(0, 1, 14, {0, 7, 14}, []);
    var h3 := History(0, 1, 21, {0, 7, 14, 21}, []);
    var h4 := History(0, 1, 25, {0, 7, 14, 21, 25}, []);
    var mid := History(0, 2, 33, {0, 7, 14, 21, 25, 33}, []);
    var h5 := mid.(first := 19, reported := [Lost(mid, 17)]);
    hs := [h0, h1, h2, h3, h4, h5];
    turns := [Turn(7, 24), Turn(14, 24), Turn(21, 24), Turn(25, 24), Turn(33, 24)];
    assert ReadsBy(h0, 7, 24, h1, h1);
    assert ReadsBy(h1, 14, 24, h2, h2);
    assert ReadsBy(h2, 21, 24, h3, h3);
    assert ReadsBy(h3, 25, 24, h4, h4);
    assert 2 in Lost(mid, 17);
    assert ReadsBy(h4, 33, 24, mid, h5);
  }
}

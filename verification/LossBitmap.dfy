/** The 32-packet loss window of a received track: which numbers arrived, which
    were reported lost, and how the window slides. */
module LossBitmap {
  import opened Serial
  import opened Bits

  const WIDTH := 32

  /** What happened since the window was last restarted, over unbounded numbers. */
  datatype History = History(
    base: int,            // the first number of the epoch
    first: int,           // numbers below first have left the window
    newest: int,          // the highest number received
    received: set<int>,
    reported: seq<set<int>>   // the numbers reported lost, one set for each report
  )

  ghost function Lost(h: History, n: nat): set<int> {
    set x | h.first <= x < h.first + n && x !in h.received
  }

  /** Number s arrives. The window slides to end at s if s is beyond it, then past the numbers received at
      its start. */
  ghost predicate Arrives(h: History, s: int, h': History) {
    var slid := if s - h.first >= WIDTH then s - (WIDTH - 1) else h.first;
    && h'.base == h.base
    && h'.newest == (if s > h.newest then s else h.newest)
    && h'.received == h.received + {s}
    && h'.reported == h.reported
    && if s < h.first then h'.first == h.first
       else slid <= h'.first && h'.first !in h.received && forall x :: slid <= x < h'.first ==> x in h.received
  }

  /** Which number the window starts at once seqno was received: seqno itself, if the record begins or the number is more
      than 256 before the window; the same as before, if it is before the window; and otherwise the lowest, no more than
      31 before seqno, that had not been received. */
  ghost predicate Recorded(valid: bool, h: History, seqno: U16, h': History) {
    var s := Nearest(h.first, seqno);
    var least := if s - 31 > h.first then s - 31 else h.first;
    if !valid || s < h.first - 256 then h'.first == seqno && h'.received == {seqno}
    else
      && h'.received == h.received + {s}
      && if s < h.first then h'.first == h.first
         else least <= h'.first && h'.first !in h.received && forall x :: least <= x < h'.first ==> x in h.received
  }

  lemma RestartIsRecorded(valid: bool, h: History, seqno: U16)
    requires !valid || Nearest(h.first, seqno) < h.first - 256
    ensures Recorded(valid, h, seqno, Started(seqno))
  {
    hide Nearest;
  }

  lemma ArrivalIsRecorded(h: History, seqno: U16, h': History)
    requires Nearest(h.first, seqno) >= h.first - 256 && Arrives(h, Nearest(h.first, seqno), h')
    ensures Recorded(true, h, seqno, h')
  {
    hide Nearest;
  }

  /** A report shifts n numbers out of the window, and reports those that did not arrive. */
  ghost predicate Reports(h: History, n: nat, h': History) {
    && h'.base == h.base && h'.newest == h.newest && h'.received == h.received
    && h'.first == h.first + n
    && h'.reported == if Lost(h, n) == {} then h.reported else h.reported + [Lost(h, n)]
  }

  ghost predicate Inv(h: History) {
    && h.base <= h.first && h.newest in h.received
    && (forall x :: x in h.received ==> x <= h.newest)
    // nothing in the window is reported, and nothing is reported twice
    && (forall i, x :: 0 <= i < |h.reported| && x in h.reported[i] ==> h.base <= x < h.first)
    && (forall i, j :: 0 <= i < j < |h.reported| ==> h.reported[i] !! h.reported[j])
    // a number leaves the window received, reported, or at least 32 behind the newest
    && (forall x :: h.base <= x < h.first ==>
          x in h.received || x + WIDTH <= h.newest || exists i :: 0 <= i < |h.reported| && x in h.reported[i])
  }

  function Started(s: int): History {
    History(s, s, s, {s}, [])
  }

  lemma ArrivalKeepsInv(h: History, s: int, h': History)
    requires Inv(h) && Arrives(h, s, h') && s - h.first < 0x8000
    ensures Inv(h')
  {
    forall x | h'.base <= x < h'.first
      ensures x in h'.received || x + WIDTH <= h'.newest || exists i :: 0 <= i < |h'.reported| && x in h'.reported[i]
    {
      if x < h.first {
      } else if s < h.first {
      } else if x in h.received {
      } else {
        assert x < s - (WIDTH - 1);
      }
    }
  }

  lemma ReportKeepsInv(h: History, n: nat, h': History)
    requires Inv(h) && Reports(h, n, h')
    ensures Inv(h')
  {
    forall x | h'.base <= x < h'.first
      ensures x in h'.received || x + WIDTH <= h'.newest || exists i :: 0 <= i < |h'.reported| && x in h'.reported[i]
    {
      if x < h.first {
        if x !in h.received && x + WIDTH > h.newest {
          var i :| 0 <= i < |h.reported| && x in h.reported[i];
          assert x in h'.reported[i];
        }
      } else if x !in h.received {
        assert x in Lost(h, n);
        assert x in h'.reported[|h.reported|];
      }
    }
  }

  // ---------------------------------------------------------------- runs

  datatype Event = Arrival(s: int) | Report(n: nat)

  ghost predicate Step(h: History, ev: Event, h': History) {
    match ev
    case Arrival(s) => s - h.first < 0x8000 && Arrives(h, s, h')
    case Report(n) => Reports(h, n, h')
  }

  ghost predicate IsRun(hs: seq<History>, evs: seq<Event>) {
    && |hs| == |evs| + 1
    && hs[0] == Started(hs[0].base)
    && forall i :: 0 <= i < |evs| ==> Step(hs[i], evs[i], hs[i + 1])
  }

  /** In every run between restarts: no number is reported twice, a reported number has left the window,
      and a number leaves the window only received, reported, or when it is 32 or more behind the newest. */
  lemma {:induction false} RunKeepsInv(hs: seq<History>, evs: seq<Event>, i: nat)
    requires IsRun(hs, evs) && i < |hs|
    ensures Inv(hs[i])
  {
    if i > 0 {
      RunKeepsInv(hs, evs, i - 1);
      assert Step(hs[i - 1], evs[i - 1], hs[i]);
      match evs[i - 1]
      case Arrival(s) => ArrivalKeepsInv(hs[i - 1], s, hs[i]);
      case Report(n) => ReportKeepsInv(hs[i - 1], n, hs[i]);
    }
  }

  /** Reports are never withdrawn, and the window never moves back. */
  lemma {:induction false} ReportsAccumulate(hs: seq<History>, evs: seq<Event>, i: nat, k: nat)
    requires IsRun(hs, evs) && i <= k < |hs|
    ensures hs[i].reported <= hs[k].reported && hs[i].first <= hs[k].first && hs[i].received <= hs[k].received
    decreases k
  {
    if i < k {
      ReportsAccumulate(hs, evs, i, k - 1);
      assert Step(hs[k - 1], evs[k - 1], hs[k]);
    }
  }

  // ---------------------------------------------------------------- the word

  /** Bit k of the word is set exactly when first + k was received. */
  ghost predicate Shows(word: nat, first: int, received: set<int>) {
    forall k: nat :: Bit(word, k) <==> first + k in received
  }

  lemma ShiftShows(word: nat, first: int, received: set<int>, n: nat)
    requires Shows(word, first, received)
    ensures Shows(Shr(word, n), first + n, received)
    ensures NoBitFrom(word, WIDTH) ==> NoBitFrom(Shr(word, n), WIDTH)
  {
    forall k: nat ensures Bit(Shr(word, n), k) == Bit(word, n + k) {
      BitOfShr(word, n, k);
    }
  }

  /** Receiving a number that has left the window changes no bit. */
  lemma EarlierShows(word: nat, first: int, received: set<int>, s: int)
    requires Shows(word, first, received) && s < first
    ensures Shows(word, first, received + {s})
  {
  }

  lemma OnesShow(word: nat, first: int, received: set<int>)
    requires Shows(word, first, received)
    ensures forall x :: first <= x < first + TrailingOnes(word) ==> x in received
    ensures first + TrailingOnes(word) !in received
  {
    forall x | first <= x < first + TrailingOnes(word) ensures x in received {
      OnesBelowZero(word, x - first);
    }
    OnesBelowZero(word, TrailingOnes(word));
  }

  lemma OnesFit(word: nat)
    requires NoBitFrom(word, WIDTH)
    ensures TrailingOnes(word) <= WIDTH
  {
    if TrailingOnes(word) > WIDTH {
      OnesBelowZero(word, WIDTH);
    }
  }

  /** The window shows no number past its width. */
  lemma ShowsNoFurther(word: nat, first: int, received: set<int>)
    requires Shows(word, first, received) && NoBitFrom(word, WIDTH)
    ensures forall x :: x in received ==> x < first + WIDTH
  {
    forall x | x in received && x >= first ensures x < first + WIDTH {
      assert Bit(word, x - first);
    }
  }

  /** Setting the bit of s, at or after first; a number before first (a duplicate) sets nothing. */
  lemma MarkShows(word: nat, first: int, received: set<int>, s: int)
    requires Shows(word, first, received) && NoBitFrom(word, WIDTH)
    requires first - WIDTH <= s < first + WIDTH && (s < first ==> s in received)
    ensures Shows(SetBitIn(word, W(s - first), WIDTH), first, received + {s})
    ensures NoBitFrom(SetBitIn(word, W(s - first), WIDTH), WIDTH)
  {
    assert W(s - first) == if s >= first then s - first else s - first + MODULUS;
    var word' := SetBitIn(word, W(s - first), WIDTH);
    forall k: nat ensures Bit(word', k) == (Bit(word, k) || first + k == s) {
      BitOfSetBit(word, W(s - first), k);
    }
  }

  /** The NACK pair (pid, blp) asks for pid and for the numbers pid + 1 + j with bit j set
      (section 6.2.1 of RFC 4585). */
  ghost predicate Asks(pid: int, blp: nat, lost: set<int>) {
    forall x :: x in lost <==> x == pid || (x > pid && Bit(blp, x - pid - 1))
  }

  /** The zeros among the n lowest bits, shifted to start at the lowest, are a NACK pair for the lost numbers. */
  lemma ZerosAsk(word: nat, h: History, n: nat)
    requires Shows(word, h.first, h.received) && n <= 17
    ensures var bm := LowZeros(word, n);
            && (bm == 0 <==> Lost(h, n) == {})
            && (bm > 0 ==> var tz := TrailingZeros(bm);
                           tz < n && Shr(bm, tz) % 2 == 1 && Shr(bm, tz) / 2 < 0x1_0000
                           && Asks(h.first + tz, Shr(bm, tz) / 2, Lost(h, n)))
  {
    var bm := LowZeros(word, n);
    forall j: nat ensures Bit(bm, j) <==> h.first + j in Lost(h, n) {
      BitOfLowZeros(word, n, j);
    }
    if bm == 0 {
      forall x | x in Lost(h, n) ensures false {
        ZeroHasNoBit(x - h.first);
      }
    } else {
      PositiveHasBit(bm);
      var tz := TrailingZeros(bm);
      BitOfShr(bm, tz, 0);
      var pair := Shr(bm, tz);
      forall j: nat ensures Bit(pair / 2, j) <==> h.first + tz + 1 + j in Lost(h, n) {
        BitOfShr(bm, tz, j + 1);
        assert Bit(pair, j + 1) == Bit(pair / 2, j);
      }
      forall x | x in Lost(h, n) ensures x >= h.first + tz {
        ZerosBelowOne(bm, x - h.first);
      }
      assert NoBitFrom(pair / 2, 16);
      FitsIff(pair / 2, 16);
      assert Pow2(16) == 0x1_0000 by { assert Pow2(8) == 256; Pow2Add(8, 8); }
    }
  }

  lemma {:induction false} Pow2Add(m: nat, n: nat)
    ensures Pow2(m + n) == Pow2(m) * Pow2(n)
  {
    if m > 0 {
      Pow2Add(m - 1, n);
      calc {
        Pow2(m + n);
        2 * Pow2(m - 1 + n);
        2 * (Pow2(m - 1) * Pow2(n));
        (2 * Pow2(m - 1)) * Pow2(n);
      }
    }
  }

  // ---------------------------------------------------------------- the window

  class Bitmap {
    var valid: bool
    var first: U16
    var bitmap: nat   // 32 bits wide

    ghost var history: History

    ghost predicate Valid()
      reads this
    {
      && first == W(history.first)
      && NoBitFrom(bitmap, WIDTH)
      && Shows(bitmap, history.first, history.received)
      && (valid ==> Inv(history))
    }

    constructor ()
      ensures Valid() && !valid
    {
      valid, first, bitmap := false, 0, 0;
      history := History(0, 0, 0, {}, []);
      new;
      forall k: nat ensures !Bit(0, k) { ZeroHasNoBit(k); }
    }

    /** Records that seqno was received; a number more than 256 before the window restarts the record. */
    method Set(seqno: U16)
      requires Valid()
      modifies this
      ensures Valid() && valid
      ensures !old(valid) || Nearest(old(history).first, seqno) < old(history).first - 0x100 ==> history == Started(seqno)
      ensures old(valid) && Nearest(old(history).first, seqno) >= old(history).first - 0x100 ==>
                Arrives(old(history), Nearest(old(history).first, seqno), history)
      ensures Recorded(old(valid), old(history), seqno, history)
    {
      hide W, Inv, Shows, NoBitFrom, Recorded;
      ghost var h, s := history, Nearest(history.first, seqno);
      NearestPosition(h.first, seqno);
      if !valid || SeqnoInvalid(seqno, first) {
        first := seqno;
        bitmap := 1;
        valid := true;
        history := Started(seqno);
        OneShows(seqno);
        RestartIsRecorded(old(valid), h, seqno);
        return;
      }

      if Compare(first, seqno) > 0 {
        history := h.(newest := if s > h.newest then s else h.newest, received := h.received + {s});
        EarlierShows(bitmap, h.first, h.received, s);
        ArrivalKeepsInv(h, s, history);
        ArrivalIsRecorded(h, seqno, history);
        return;
      }

      ghost var slid := h.first;
      if W(seqno - first) >= 32 {
        var shift := W(seqno - first) - 31;
        ShiftShows(bitmap, h.first, h.received, shift);
        WrapAdd(h.first, shift);
        slid := h.first + shift;
        bitmap := Shr(bitmap, shift);
        first := W(first + shift);
      }

      OnesShow(bitmap, slid, h.received);
      OnesFit(bitmap);
      ghost var after := slid + TrailingOnes(bitmap);
      ShiftShows(bitmap, slid, h.received, TrailingOnes(bitmap));
      WrapAdd(slid, TrailingOnes(bitmap));
      if bitmap % 2 == 1 {
        var ones := TrailingOnes(bitmap);
        bitmap := Shr(bitmap, ones);
        first := W(first + ones);
      }

      MarkShows(bitmap, after, h.received, s);
      WrapSub(s, after);
      bitmap := SetBitIn(bitmap, W(seqno - first), WIDTH);
      history := History(h.base, after, if s > h.newest then s else h.newest, h.received + {s}, h.reported);
      ArrivalKeepsInv(h, s, history);
      ArrivalIsRecorded(h, seqno, history);
    }

    /** Shifts up to 17 numbers before next out of the window. Returns whether any of them was lost and, if so,
        the NACK pair for exactly the lost ones. */
    method Get(next: U16) returns (found: bool, pid: U16, blp: nat)
      requires Valid()
      modifies this
      ensures Valid() && valid == old(valid)
      // the window moves on to next, but by no more than 17
      ensures var h, d := old(history), Nearest(old(history).first, next) - old(history).first;
              history.first == h.first + if d <= 0 then 0 else if d < 17 then d else 17
      // and the pair asks for what it leaves behind without having received it
      ensures var h := old(history);
              var n := history.first - h.first;
              && Reports(h, n, history)
              && (found <==> exists x :: h.first <= x < history.first && x !in h.received)
              && (found ==> blp < 0x1_0000
                            && Asks(Above(h.first, pid), blp, set x | h.first <= x < history.first && x !in h.received))
              && (!found ==> pid == old(first) && blp == 0)
    {
      hide W, Inv, Shows, NoBitFrom, Lost, Asks, LowZeros, Above, Compare, Shr, TrailingZeros;
      ghost var h := history;
      NearestPosition(h.first, next);
      pid := first;
      if Compare(pid, next) >= 0 {
        NoneLost(h);
        LostIs(h, 0);
        return false, pid, 0;
      }
      var count := W(next - pid);
      if count > 17 {
        count := 17;
      }
      var bm := LowZeros(bitmap, count);
      LostIs(h, count);
      ZerosAsk(bitmap, h, count);
      ShiftShows(bitmap, h.first, h.received, count);
      WrapAdd(h.first, count);
      bitmap := Shr(bitmap, count);
      first := W(first + count);
      history := h.(first := h.first + count,
                    reported := if Lost(h, count) == {} then h.reported else h.reported + [Lost(h, count)]);
      if valid {
        ReportKeepsInv(h, count, history);
      }

      if bm == 0 {
        return false, pid, 0;
      }
      ghost var start := h.first + TrailingZeros(bm);
      if bm % 2 == 1 {
        NoShift(bm);
      }
      WrapAdd(h.first, TrailingZeros(bm));
      SameResidue(start, Above(h.first, W(start)));
      if bm % 2 == 0 {
        var zeros := TrailingZeros(bm);
        bm := Shr(bm, zeros);
        pid := W(pid + zeros);
      }
      found, blp := true, bm / 2;
    }
  }

  lemma NoShift(bm: nat)
    requires bm > 0 && bm % 2 == 1
    ensures TrailingZeros(bm) == 0 && Shr(bm, 0) == bm
  {
  }

  lemma NoneLost(h: History)
    ensures Lost(h, 0) == {}
  {
  }

  lemma LostIs(h: History, n: nat)
    ensures Lost(h, n) == set x | h.first <= x < h.first + n && x !in h.received
    ensures Lost(h, n) != {} <==> exists x :: h.first <= x < h.first + n && x !in h.received
  {
    if x :| h.first <= x < h.first + n && x !in h.received {
      assert x in Lost(h, n);
    }
  }

  lemma OneShows(s: U16)
    ensures Shows(1, s, {s}) && NoBitFrom(1, WIDTH)
    ensures Inv(Started(s)) && W(s) == s
  {
    forall k: nat ensures Bit(1, k) == (k == 0) {
      if k > 0 {
        ZeroHasNoBit(k - 1);
      }
    }
  }
}

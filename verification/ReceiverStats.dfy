/** The counters behind receiver reports (section 6.4.1 and appendix A.3 of
    RFC 3550), in 32-bit arithmetic, and what they count. */
module ReceiverStats {
  import opened Basics
  import opened Division
  import opened Serial

  function Add32(x: U32, y: U32): U32 {
    if x + y < TWO_32 then x + y else x + y - TWO_32
  }

  datatype Stats = Stats(
    last: U16, cycle: U16, lastValid: bool,
    expected: U32, totalExpected: U32,
    received: U32, totalReceived: U32)

  datatype Report = Report(
    received: U32, totalReceived: U32, expected: U32, totalExpected: U32, eseqno: U32)

  const EMPTY := Stats(0, 0, false, 0, 0, 0, 0)

  predicate Restarts(s: Stats, seqno: U16) {
    !s.lastValid || SeqnoInvalid(seqno, s.last)
  }

  function OnStore(s: Stats, seqno: U16): Stats {
    if Restarts(s, seqno) then
      s.(last := seqno, lastValid := true, expected := Add32(s.expected, 1), received := Add32(s.received, 1))
    else if Compare(s.last, seqno) < 0 then
      s.(received := Add32(s.received, 1),
         expected := Add32(s.expected, W(seqno - s.last)),
         cycle := if seqno < s.last then W(s.cycle + 1) else s.cycle,
         last := seqno)
    else if Compare(s.last, seqno) > 0 && s.received < s.expected then
      s.(received := Add32(s.received, 1))
    else s
  }

  function OnExpect(s: Stats, n: int): Stats {
    if n <= 0 then s else s.(expected := Add32(s.expected, n % TWO_32))
  }

  function Eseqno(s: Stats): U32 {
    s.cycle * 0x1_0000 + s.last
  }

  function Get(s: Stats): Report {
    Report(s.received, Add32(s.totalReceived, s.received),
           s.expected, Add32(s.totalExpected, s.expected),
           Eseqno(s))
  }

  function OnReset(s: Stats): Stats {
    s.(totalExpected := Add32(s.totalExpected, s.expected), expected := 0,
       totalReceived := Add32(s.totalReceived, s.received), received := 0)
  }

  /** Resetting moves the counters into the totals; the totals that are reported do not change. */
  lemma ResetConserves(s: Stats)
    ensures var (before, after) := (Get(s), Get(OnReset(s)));
            && after.totalExpected == before.totalExpected
            && after.totalReceived == before.totalReceived
            && after.expected == 0 == after.received
            && after.eseqno == before.eseqno
  {
  }

  // ---------------------------------------------------------------- what is counted

  /** Unbounded bookkeeping: the first and the highest extended sequence number
      since reception (re)started, and the packets expected besides that range. */
  datatype Ideal = Ideal(
    started: bool, first: int, max: int,
    extra: nat,       // Expect increments, and the ranges before a restart
    settled: nat)     // what was expected when the counters were last reset

  const NOTHING := Ideal(false, 0, 0, 0, 0)

  function Range(i: Ideal): nat {
    if i.started && i.max >= i.first then i.max - i.first + 1 else 0
  }

  /** All packets expected since the beginning. */
  function Total(i: Ideal): nat {
    Range(i) + i.extra
  }

  datatype Event = Store(seqno: U16) | Expect(n: int) | Reset

  /** A packet more than 256 before the highest one: the sender is taken to have restarted. */
  predicate FarPast(i: Ideal, ev: Event) {
    ev.Store? && i.started && Nearest(i.max, ev.seqno) < i.max - 0x100
  }

  function Ideally(i: Ideal, ev: Event): Ideal {
    match ev
    case Store(seqno) =>
      if !i.started then Ideal(true, seqno, seqno, i.extra, i.settled)
      else if FarPast(i, ev) then
        var max := i.max - W(i.max) + seqno;
        Ideal(true, max, max, Total(i), i.settled)
      else i.(max := if Nearest(i.max, seqno) > i.max then Nearest(i.max, seqno) else i.max)
    case Expect(n) => if n <= 0 then i else i.(extra := i.extra + n)
    case Reset => i.(settled := Total(i))
  }

  function Concretely(s: Stats, ev: Event): Stats {
    match ev
    case Store(seqno) => OnStore(s, seqno)
    case Expect(n) => OnExpect(s, n)
    case Reset => OnReset(s)
  }

  function Ideals(evs: seq<Event>): Ideal {
    if evs == [] then NOTHING else Ideally(Ideals(evs[..|evs| - 1]), evs[|evs| - 1])
  }

  function Counters(evs: seq<Event>): Stats {
    if evs == [] then EMPTY else Concretely(Counters(evs[..|evs| - 1]), evs[|evs| - 1])
  }

  ghost predicate Turn(max: int, eseqno: U32, t: int) {
    max == eseqno + t * TWO_32
  }

  /** cycle and last are the highest extended sequence number, modulo 2^32. */
  ghost predicate Extends(s: Stats, i: Ideal) {
    exists t :: Turn(i.max, Eseqno(s), t)
  }

  /** As long as fewer than 2^32 packets were expected, the counters are exact, and nothing is received that was
      not expected. */
  ghost predicate Counts(s: Stats, i: Ideal) {
    && s.lastValid == i.started
    && i.settled <= Total(i)
    && (i.started ==> i.first <= i.max && s.last == W(i.max) && Extends(s, i))
    && (!i.started ==> s.cycle == 0)
    && (Total(i) < TWO_32 ==>
          && s.totalExpected == i.settled
          && s.expected == Total(i) - i.settled
          && s.received <= s.expected
          && s.totalReceived <= s.totalExpected)
  }

  /** Moving ahead by less than 2^15 keeps cycle and last in step with the extended number. */
  lemma AheadExtends(s: Stats, i: Ideal, seqno: U16)
    requires Extends(s, i) && s.last == W(i.max)
    requires 0 < Nearest(i.max, seqno) - i.max == W(seqno - s.last) < 0x8000
    ensures Extends(s.(cycle := if seqno < s.last then W(s.cycle + 1) else s.cycle, last := seqno),
                    i.(max := Nearest(i.max, seqno)))
  {
    var t :| Turn(i.max, Eseqno(s), t);
    var s' := s.(cycle := if seqno < s.last then W(s.cycle + 1) else s.cycle, last := seqno);
    var t' := if seqno < s.last && s.cycle == 0xFFFF then t + 1 else t;
    assert Turn(Nearest(i.max, seqno), Eseqno(s'), t');
  }

  lemma StoreCounts(s: Stats, i: Ideal, seqno: U16)
    requires Counts(s, i)
    ensures Counts(OnStore(s, seqno), Ideally(i, Store(seqno)))
  {
    hide W;
    var s', i' := OnStore(s, seqno), Ideally(i, Store(seqno));
    if !i.started {
      WrapSelf(seqno);
      assert Turn(i'.max, Eseqno(s'), 0);
    } else {
      NearestPosition(i.max, seqno);
      if FarPast(i, Store(seqno)) {
        var t :| Turn(i.max, Eseqno(s), t);
        assert Turn(i'.max, Eseqno(s'), t);
        var q := Turns(i.max);
        Congruent(i'.max, seqno, q);
        WrapSelf(seqno);
      } else if Nearest(i.max, seqno) > i.max {
        AheadExtends(s, i, seqno);
        var t :| Turn(i'.max, Eseqno(s.(cycle := s'.cycle, last := seqno)), t);
        assert Turn(i'.max, Eseqno(s'), t);
      } else {
        var t :| Turn(i.max, Eseqno(s), t);
        assert Turn(i'.max, Eseqno(s'), t);
      }
    }
  }

  lemma EventCounts(s: Stats, i: Ideal, ev: Event)
    requires Counts(s, i)
    ensures Counts(Concretely(s, ev), Ideally(i, ev))
  {
    match ev
    case Store(seqno) => StoreCounts(s, i, seqno);
    case Expect(n) =>
      if i.started {
        var t :| Turn(i.max, Eseqno(s), t);
        assert Turn(Ideally(i, ev).max, Eseqno(OnExpect(s, n)), t);
      }
    case Reset =>
      if i.started {
        var t :| Turn(i.max, Eseqno(s), t);
        assert Turn(Ideally(i, ev).max, Eseqno(OnReset(s)), t);
      }
  }

  lemma {:induction false} RunCounts(evs: seq<Event>)
    ensures Counts(Counters(evs), Ideals(evs))
  {
    if evs != [] {
      RunCounts(evs[..|evs| - 1]);
      EventCounts(Counters(evs[..|evs| - 1]), Ideals(evs[..|evs| - 1]), evs[|evs| - 1]);
    }
  }

  /** What a report says after any run in which fewer than 2^32 packets were expected. */
  lemma ReportMeaning(evs: seq<Event>)
    requires Total(Ideals(evs)) < TWO_32
    ensures var r, i := Get(Counters(evs)), Ideals(evs);
            && r.received <= r.expected
            && r.totalReceived <= r.totalExpected
            && r.totalExpected == Total(i)
            && r.expected == Total(i) - i.settled
            && (i.started ==> exists t :: Turn(i.max, r.eseqno, t))
  {
    RunCounts(evs);
  }

  /** The packets that Expect adds. */
  function Expected(ev: Event): nat {
    if ev.Expect? && ev.n > 0 then ev.n else 0
  }

  function Expects(evs: seq<Event>): nat {
    if evs == [] then 0 else Expects(evs[..|evs| - 1]) + Expected(evs[|evs| - 1])
  }

  lemma RangeStep(i: Ideal, ev: Event)
    requires !FarPast(i, ev) && (i.started ==> i.first <= i.max)
    ensures var i' := Ideally(i, ev);
            && i'.extra == i.extra + Expected(ev)
            && (i'.started ==> i'.first <= i'.max)
            && (i.started ==> i'.started && i'.first == i.first && i'.max >= i.max)
            && (ev.Store? && i.started ==> Nearest(i.max, ev.seqno) <= i'.max)
  {
  }

  /** Without far-past packets, what was expected is the range from the first to the highest extended number,
      plus all Expect increments. */
  lemma {:induction false} TotalIsRange(evs: seq<Event>)
    requires forall k :: 0 <= k < |evs| ==> !FarPast(Ideals(evs[..k]), evs[k])
    ensures var i := Ideals(evs);
            && (i.started ==> i.first <= i.max && Total(i) == (i.max - i.first + 1) + Expects(evs))
            && (!i.started ==> Total(i) == Expects(evs))
            && i.extra == Expects(evs)
  {
    hide Ideally, FarPast;
    if evs != [] {
      var n := |evs| - 1;
      forall k | 0 <= k < n ensures !FarPast(Ideals(evs[..n][..k]), evs[..n][k]) {
        assert evs[..n][..k] == evs[..k];
      }
      TotalIsRange(evs[..n]);
      RangeStep(Ideals(evs[..n]), evs[n]);
    }
  }

  // ---------------------------------------------------------------- what is received

  /** A late packet is not counted if it finds everything expected since the last reset received. */
  predicate Misses(s: Stats, ev: Event) {
    ev.Store? && !Restarts(s, ev.seqno) && Compare(s.last, ev.seqno) > 0 && s.received >= s.expected
  }

  /** The highest number once more. */
  predicate Repeats(s: Stats, ev: Event) {
    ev.Store? && !Restarts(s, ev.seqno) && ev.seqno == s.last
  }

  function One(b: bool): nat {
    if b then 1 else 0
  }

  function Missed(evs: seq<Event>): nat {
    if evs == [] then 0
    else
      var before, ev := evs[..|evs| - 1], evs[|evs| - 1];
      Missed(before) + One(Misses(Counters(before), ev))
  }

  function Repeated(evs: seq<Event>): nat {
    if evs == [] then 0
    else
      var before, ev := evs[..|evs| - 1], evs[|evs| - 1];
      Repeated(before) + One(Repeats(Counters(before), ev))
  }

  function Stored(evs: seq<Event>): nat {
    if evs == [] then 0 else Stored(evs[..|evs| - 1]) + One(evs[|evs| - 1].Store?)
  }

  lemma TotalGrows(i: Ideal, ev: Event)
    requires i.started ==> i.first <= i.max
    ensures Total(i) <= Total(Ideally(i, ev))
  {
    hide Nearest, W;
  }

  lemma EventIsCounted(s: Stats, i: Ideal, ev: Event)
    requires Counts(s, i) && Total(Ideally(i, ev)) < TWO_32
    ensures var s' := Concretely(s, ev);
            s'.totalReceived + s'.received + One(Misses(s, ev)) + One(Repeats(s, ev))
            == s.totalReceived + s.received + One(ev.Store?)
  {
    hide W, Extends;
    TotalGrows(i, ev);
    EventCounts(s, i, ev);
    if ev.Store? && i.started {
      NearestPosition(i.max, ev.seqno);
    }
  }

  /** In every run, resets and far-past packets included, every packet stored is counted as received, but for
      repetitions of the highest number and for the late ones that Misses describes. */
  lemma {:induction false} ReceivedIsExact(evs: seq<Event>)
    requires Total(Ideals(evs)) < TWO_32
    ensures var s := Counters(evs); s.totalReceived + s.received + Missed(evs) + Repeated(evs) == Stored(evs)
  {
    hide Ideally, Concretely, Counts, Total, Misses, Repeats;
    if evs != [] {
      var n := |evs| - 1;
      RunCounts(evs[..n]);
      RangeIsRange(evs[..n]);
      TotalGrows(Ideals(evs[..n]), evs[n]);
      ReceivedIsExact(evs[..n]);
      EventIsCounted(Counters(evs[..n]), Ideals(evs[..n]), evs[n]);
    }
  }

  lemma RangeIsRange(evs: seq<Event>)
    ensures Ideals(evs).started ==> Ideals(evs).first <= Ideals(evs).max
  {
    RunCounts(evs);
  }

  /** No counters were reset after the first k events, but for the last of these. */
  predicate SinceReset(evs: seq<Event>, k: nat) {
    && k <= |evs| && (k > 0 ==> evs[k - 1].Reset?)
    && forall j :: k <= j < |evs| ==> !evs[j].Reset?
  }

  lemma NoResetStep(s: Stats, i: Ideal, ev: Event)
    requires !ev.Reset?
    ensures var s' := Concretely(s, ev);
            && s'.totalReceived == s.totalReceived && s'.totalExpected == s.totalExpected
            && Ideally(i, ev).settled == i.settled
  {
    hide W, Compare, Nearest, SeqnoInvalid;
  }

  lemma ResetStep(s: Stats, i: Ideal)
    ensures var s', i' := Concretely(s, Reset), Ideally(i, Reset);
            s'.received == 0 && s'.expected == 0 && i'.settled == Total(i) == Total(i')
  {
  }

  /** The counters that are kept over resets do not change, and the others count from 0. */
  lemma {:induction false} SettledAtReset(evs: seq<Event>, k: nat)
    requires SinceReset(evs, k)
    ensures var s, before := Counters(evs), Counters(evs[..k]);
            && s.totalReceived == before.totalReceived && s.totalExpected == before.totalExpected
            && before.received == 0 && before.expected == 0
            && Ideals(evs).settled == if k == 0 then 0 else Total(Ideals(evs[..k]))
  {
    hide Concretely, Ideally, Total;
    var n := |evs| - 1;
    if |evs| > k {
      assert evs[..n][..k] == evs[..k];
      SettledAtReset(evs[..n], k);
      NoResetStep(Counters(evs[..n]), Ideals(evs[..n]), evs[n]);
    } else {
      assert evs[..k] == evs;
      if k > 0 {
        ResetStep(Counters(evs[..n]), Ideals(evs[..n]));
      }
    }
  }

  lemma {:induction false} TotalOnlyGrows(evs: seq<Event>, k: nat)
    requires k <= |evs|
    ensures Total(Ideals(evs[..k])) <= Total(Ideals(evs))
  {
    hide Ideally, Total;
    if k == |evs| {
      assert evs[..k] == evs;
    } else {
      var n := |evs| - 1;
      assert evs[..n][..k] == evs[..k];
      TotalOnlyGrows(evs[..n], k);
      RangeIsRange(evs[..n]);
      TotalGrows(Ideals(evs[..n]), evs[n]);
    }
  }

  /** What a report says of the time since the last reset, which was event k - 1: as many packets are received as were
      stored since, but for the repetitions and the late ones described above, and as many are expected as were added
      since to all that is expected. */
  lemma ReportSinceReset(evs: seq<Event>, k: nat)
    requires SinceReset(evs, k) && Total(Ideals(evs)) < TWO_32
    ensures var r, before := Get(Counters(evs)), evs[..k];
            && r.received + (Missed(evs) - Missed(before)) + (Repeated(evs) - Repeated(before)) == Stored(evs) - Stored(before)
            && r.expected == Total(Ideals(evs)) - (if k == 0 then 0 else Total(Ideals(before)))
  {
    hide Ideally, Concretely, Extends, Counters, Ideals, Missed, Repeated, Stored;
    SettledAtReset(evs, k);
    TotalOnlyGrows(evs, k);
    ReceivedIsExact(evs);
    ReceivedIsExact(evs[..k]);
    RunCounts(evs);
  }

  // ---------------------------------------------------------------- packets that are stored once

  /** The unbounded number meant by seqno. */
  function Number(i: Ideal, seqno: U16): int {
    if i.started then Nearest(i.max, seqno) else seqno
  }

  /** The unbounded numbers of the packets stored. */
  function Arrived(evs: seq<Event>): set<int> {
    if evs == [] then {}
    else
      var before, ev := evs[..|evs| - 1], evs[|evs| - 1];
      Arrived(before) + if ev.Store? then {Number(Ideals(before), ev.seqno)} else {}
  }

  /** A packet that was not stored before, and is neither far in the past nor before the first one. */
  predicate IsNew(evs: seq<Event>, ev: Event) {
    ev.Store? ==>
      var i := Ideals(evs);
      && !FarPast(i, ev)
      && Number(i, ev.seqno) !in Arrived(evs)
      && (i.started ==> i.first <= Number(i, ev.seqno))
  }

  ghost predicate AllNew(evs: seq<Event>) {
    forall k :: 0 <= k < |evs| ==> IsNew(evs[..k], evs[k])
  }

  lemma AllNewBefore(evs: seq<Event>)
    requires AllNew(evs) && evs != []
    ensures AllNew(evs[..|evs| - 1]) && IsNew(evs[..|evs| - 1], evs[|evs| - 1])
  {
    hide IsNew;
    var n := |evs| - 1;
    forall k | 0 <= k < n ensures IsNew(evs[..n][..k], evs[..n][k]) {
      assert evs[..n][..k] == evs[..k];
    }
  }

  ghost predicate InRange(a: set<int>, i: Ideal) {
    && (forall x :: x in a ==> i.started && i.first <= x <= i.max)
    && (i.started ==> i.max in a)
  }

  lemma NewInRange(s: Stats, i: Ideal, a: set<int>, ev: Event)
    requires Counts(s, i) && InRange(a, i)
    requires ev.Store? ==> !FarPast(i, ev) && Number(i, ev.seqno) !in a && (i.started ==> i.first <= Number(i, ev.seqno))
    ensures var a' := a + if ev.Store? then {Number(i, ev.seqno)} else {};
            InRange(a', Ideally(i, ev)) && |a'| == |a| + One(ev.Store?) && !Repeats(s, ev)
  {
    hide W, Extends;
    if ev.Store? && i.started {
      NearestPosition(i.max, ev.seqno);
    }
  }

  /** What is new is stored once, and repeats nothing. */
  lemma {:induction false} NewIsDistinct(evs: seq<Event>)
    requires AllNew(evs)
    ensures InRange(Arrived(evs), Ideals(evs)) && |Arrived(evs)| == Stored(evs) && Repeated(evs) == 0
  {
    hide Ideally, Concretely, Counts, Number, InRange, FarPast, Repeats, AllNew;
    if evs == [] {
      NothingInRange();
    } else {
      var n := |evs| - 1;
      AllNewBefore(evs);
      NewIsDistinct(evs[..n]);
      RunCounts(evs[..n]);
      NewInRange(Counters(evs[..n]), Ideals(evs[..n]), Arrived(evs[..n]), evs[n]);
    }
  }

  lemma NothingInRange()
    ensures InRange({}, NOTHING)
  {
  }

  /** In every run where no packet is stored twice, none precedes the first and none is far in the past, resets
      included: what is reported as received falls short of the packets stored by the number of late ones that found
      received == expected. */
  lemma NewPacketsAreCounted(evs: seq<Event>)
    requires AllNew(evs) && Total(Ideals(evs)) < TWO_32
    ensures Get(Counters(evs)).totalReceived + Missed(evs) == |Arrived(evs)|
    ensures Get(Counters(evs)).totalReceived == |Arrived(evs)| <==>
            forall k :: 0 <= k < |evs| ==> !Misses(Counters(evs[..k]), evs[k])
  {
    hide Ideally, Concretely, Misses, Repeats, AllNew, Extends;
    NewIsDistinct(evs);
    ReceivedIsExact(evs);
    RunCounts(evs);
    NoneMissedIff(evs);
  }

  lemma {:induction false} NoneMissedIff(evs: seq<Event>)
    ensures Missed(evs) == 0 <==> forall k :: 0 <= k < |evs| ==> !Misses(Counters(evs[..k]), evs[k])
  {
    hide Misses, Counters;
    if evs != [] {
      var n := |evs| - 1;
      NoneMissedIff(evs[..n]);
      assert forall k :: 0 <= k < n ==> evs[..n][..k] == evs[..k] && evs[..n][k] == evs[k];
    }
  }

  lemma {:induction false} IntervalSize(a: set<int>, lo: int, hi: int)
    requires lo <= hi && forall x :: x in a ==> lo <= x < hi
    ensures |a| <= hi - lo
    decreases hi - lo
  {
    if lo == hi {
      assert a == {};
    } else {
      IntervalSize(a - {hi - 1}, lo, hi - 1);
    }
  }

  /** A new late packet is counted if nothing was reset before it. */
  lemma NewIsNotMissed(s: Stats, i: Ideal, a: set<int>, ev: Event)
    requires Counts(s, i) && Total(i) < TWO_32 && i.settled == 0 && InRange(a, i) && s.received <= |a|
    requires ev.Store? ==> !FarPast(i, ev) && Number(i, ev.seqno) !in a && (i.started ==> i.first <= Number(i, ev.seqno))
    ensures !Misses(s, ev)
  {
    hide W, Extends;
    if ev.Store? && i.started {
      NearestPosition(i.max, ev.seqno);
      if Number(i, ev.seqno) < i.max {
        IntervalSize(a + {Number(i, ev.seqno)}, i.first, i.max + 1);
      }
    }
  }

  /** So before the first reset every new packet is counted. */
  lemma {:induction false} NoneMissedBeforeReset(evs: seq<Event>)
    requires AllNew(evs) && Total(Ideals(evs)) < TWO_32
    requires forall k :: 0 <= k < |evs| ==> !evs[k].Reset?
    ensures Missed(evs) == 0 && Ideals(evs).settled == 0
  {
    hide Ideally, Concretely, Total, Misses, Repeats, AllNew, InRange, FarPast, Number, Counts;
    if evs != [] {
      var n := |evs| - 1;
      AllNewBefore(evs);
      RunCounts(evs[..n]);
      RangeIsRange(evs[..n]);
      TotalGrows(Ideals(evs[..n]), evs[n]);
      NoneMissedBeforeReset(evs[..n]);
      NewIsDistinct(evs[..n]);
      ReceivedIsExact(evs[..n]);
      NewIsNotMissed(Counters(evs[..n]), Ideals(evs[..n]), Arrived(evs[..n]), evs[n]);
      SettledUntilReset(Ideals(evs[..n]), evs[n]);
    }
  }

  lemma SettledUntilReset(i: Ideal, ev: Event)
    requires !ev.Reset?
    ensures Ideally(i, ev).settled == i.settled
  {
  }

  lemma OneMore(evs: seq<Event>, ev: Event)
    ensures Counters(evs + [ev]) == Concretely(Counters(evs), ev)
    ensures Ideals(evs + [ev]) == Ideally(Ideals(evs), ev)
    ensures Missed(evs + [ev]) == Missed(evs) + One(Misses(Counters(evs), ev))
    ensures Arrived(evs + [ev]) == Arrived(evs) + if ev.Store? then {Number(Ideals(evs), ev.seqno)} else {}
  {
    hide Concretely, Ideally, Misses, Number;
    assert (evs + [ev])[..|evs|] == evs;
  }

  lemma LateCounters()
    ensures Concretely(EMPTY, Store(1)) == Stats(1, 0, true, 1, 0, 1, 0)
    ensures Concretely(Stats(1, 0, true, 1, 0, 1, 0), Store(3)) == Stats(3, 0, true, 3, 0, 2, 0)
    ensures Concretely(Stats(3, 0, true, 3, 0, 2, 0), Reset) == Stats(3, 0, true, 0, 3, 0, 2)
    ensures Misses(Stats(3, 0, true, 0, 3, 0, 2), Store(2))
    ensures Concretely(Stats(3, 0, true, 0, 3, 0, 2), Store(2)) == Stats(3, 0, true, 0, 3, 0, 2)
  {
  }

  lemma LateNumbers()
    ensures Ideally(NOTHING, Store(1)) == Ideal(true, 1, 1, 0, 0) && Number(NOTHING, 1) == 1
    ensures Ideally(Ideal(true, 1, 1, 0, 0), Store(3)) == Ideal(true, 1, 3, 0, 0) && Number(Ideal(true, 1, 1, 0, 0), 3) == 3
    ensures Ideally(Ideal(true, 1, 3, 0, 0), Reset) == Ideal(true, 1, 3, 0, 3)
    ensures Number(Ideal(true, 1, 3, 0, 3), 2) == 2
  {
  }

  /** Three packets, the second of them delivered after a report: only two are ever counted. */
  lemma LateAfterReportIsMissed()
    ensures var evs := [Store(1)] + [Store(3)] + [Reset] + [Store(2)];
            && Arrived(evs) == {1, 2, 3} && Missed(evs) > 0
            && Get(Counters(evs)).totalReceived == 2
  {
    hide Concretely, Ideally, Misses, Number, Counters, Ideals, Arrived, Missed;
    var e0: seq<Event> := [];
    var e1, e2, e3 := [Store(1)], [Store(1)] + [Store(3)], [Store(1)] + [Store(3)] + [Reset];
    LateCounters();
    LateNumbers();
    NothingYet();
    assert e0 + e1 == e1;
    OneMore(e0, Store(1));
    OneMore(e1, Store(3));
    OneMore(e2, Reset);
    OneMore(e3, Store(2));
  }

  lemma NothingYet()
    ensures Counters([]) == EMPTY && Ideals([]) == NOTHING && Arrived([]) == {}
  {
  }

  // ---------------------------------------------------------------- the loss fraction of a receiver report

  /** The 8-bit loss fraction, computed in 32 bits. */
  function FractionLost(expected: U32, received: U32): (f: int)
    ensures 0 <= f <= 255
  {
    if expected > received then
      var lost := expected - received;
      var fraction := (lost * 256 % TWO_32) / expected;
      if fraction >= 255 then 255 else fraction
    else 0
  }

  /** The fraction that was lost, in 256ths rounded down, and at most 255; none if more was received than expected. */
  function TrueFraction(expected: U32, received: U32): (f: int)
    ensures 0 <= f <= 255
    ensures received >= expected ==> f == 0
    ensures received < expected && f < 255 ==> f * expected <= (expected - received) * 256 < (f + 1) * expected
    ensures received < expected && f == 255 ==> (expected - received) * 256 >= 255 * expected
  {
    if received >= expected then 0
    else
      var lost := expected - received;
      DivMod(lost * 256, expected);
      QuotientReaches(lost * 256, expected, 255);
      if lost * 256 / expected > 255 then 255 else lost * 256 / expected
  }

  lemma QuotientReaches(x: nat, d: nat, q: nat)
    requires d > 0
    ensures x / d >= q <==> x >= q * d
    ensures x / d * d <= x < (x / d + 1) * d
  {
    DivMod(x, d);
    var p := x / d;
    assert d * p == p * d;
    if p >= q {
      MulOrder(d, q, p);
    } else {
      MulOrder(d, p + 1, q);
    }
  }

  lemma FractionWraps(expected: U32, received: U32)
    requires received < expected
    ensures var lost := expected - received;
            var exact := lost * 256 / expected;
            FractionLost(expected, received) == (if exact >= 255 then 255 else exact) <==> lost < 0x100_0000
  {
    var lost := expected - received;
    if lost >= 0x100_0000 {
      var k := lost * 256 / TWO_32;
      var wrapped := lost * 256 % TWO_32;
      assert lost * 256 == k * TWO_32 + wrapped && k >= 1;
      assert wrapped <= lost * 256 - TWO_32 && TWO_32 > expected;
      QuotientDrops(lost * 256, wrapped, expected);
      QuotientMonotone(lost * 256, expected * 256, expected);
      QuotientIs(expected * 256, expected, 256);
    }
  }

  lemma TrueFractionIs(expected: U32, received: U32)
    ensures TrueFraction(expected, received) ==
            if received >= expected then 0
            else var exact := (expected - received) * 256 / expected; if exact >= 255 then 255 else exact
  {
  }

  lemma NothingLost(expected: U32, received: U32)
    requires expected <= received
    ensures FractionLost(expected, received) == 0
  {
  }

  /** What is computed is the true fraction exactly when fewer than 2^24 packets were lost; if none was lost, it is 0. */
  lemma FractionIsExactIff(expected: U32, received: U32)
    ensures FractionLost(expected, received) == TrueFraction(expected, received) <==> expected - received < 0x100_0000
    ensures expected <= received ==> FractionLost(expected, received) == 0
  {
    hide FractionLost, TrueFraction;
    TrueFractionIs(expected, received);
    if received < expected {
      FractionWraps(expected, received);
    } else {
      NothingLost(expected, received);
    }
  }

  /** A packet, and n more, each 32767 ahead of the one before. */
  function Strides(n: nat): seq<Event> {
    if n == 0 then [Store(0)] else Strides(n - 1) + [Store(W(n * 32767))]
  }

  lemma StrideCounts(s: Stats, n: nat)
    requires 0 < n < 0x1_0000
    requires s.lastValid && s.last == W((n - 1) * 32767) && s.expected == 1 + (n - 1) * 32767 && s.received == n
    ensures var s' := OnStore(s, W(n * 32767));
            && s'.lastValid && s'.last == W(n * 32767) && s'.expected == 1 + n * 32767 && s'.received == 1 + n
  {
    hide W, Compare;
    CompareExact((n - 1) * 32767, n * 32767);
    WrapSub(n * 32767, (n - 1) * 32767);
    WrapSelf(32767);
    assert n * 32767 - (n - 1) * 32767 == 32767;
  }

  lemma {:induction false} StridesCount(n: nat)
    requires n < 0x1_0000
    ensures var s := Counters(Strides(n));
            && s.lastValid && s.last == W(n * 32767) && s.expected == 1 + n * 32767 && s.received == 1 + n
  {
    hide W, OnStore, Counters, Missed, Arrived, Ideals;
    if n == 0 {
      FirstStride();
    } else {
      StridesCount(n - 1);
      OneMore(Strides(n - 1), Store(W(n * 32767)));
      StrideCounts(Counters(Strides(n - 1)), n);
    }
  }

  lemma FirstStride()
    ensures Counters([Store(0)]) == Stats(0, 0, true, 1, 0, 1, 0) && W(0) == 0
  {
    assert [Store(0)][..0] == [];
  }

  /** After 513 such strides nearly everything was lost, and the fraction reported is 0. */
  lemma FractionCanBeWrong()
    ensures var s := Counters(Strides(513));
            && s.received == 514 && s.expected == 16809472
            && FractionLost(s.expected, s.received) == 0
            && (s.expected - s.received) * 256 / s.expected == 255
  {
    hide W, Counters, Strides;
    StridesCount(513);
  }
}

/** What the bookkeeping of origins achieves: in every run, the origins of all
    tracks that have a sender report denote one remote instant. */
module Alignment {
  import opened Basics
  import opened Division
  import opened RtpTime
  import opened LipSync

  // ---------------------------------------------------------------- what being in sync means

  /** Timestamp rtp is y clock units after origin. */
  predicate After(rtp: U32, origin: U32, y: int) {
    Wrap32(rtp - y) == origin
  }

  predicate Close(y: int, d: int, hz: U32, slack: int) {
    -slack < y * SECOND - d * hz < slack
  }

  /** The timestamp rtp, which the sender says is remote time ntp, is as far from the track's origin as ntp is from
      originRemote, up to an error below slack (in units of 1/hz times a nanosecond: SECOND is one tick, and hz a
      nanosecond). */
  ghost predicate InSync(rtp: U32, ntp: U64, origin: U32, originRemote: U64, hz: U32, slack: int) {
    exists y :: After(rtp, origin, y) && Close(y, NTPToTime(ntp) - NTPToTime(originRemote), hz, slack)
  }

  /** The track has an origin and a sender report. */
  predicate Known(t: TrackState) {
    t.origin.Some? && t.remoteNTP != 0
  }

  ghost predicate Synced(t: TrackState, originRemote: U64, slack: int)
    requires Known(t)
  {
    InSync(t.remoteRTP, t.remoteNTP, t.origin.value, originRemote, t.hz, slack)
  }

  lemma MoreSlack(rtp: U32, ntp: U64, origin: U32, originRemote: U64, hz: U32, slack: int, more: int)
    requires InSync(rtp, ntp, origin, originRemote, hz, slack) && slack <= more
    ensures InSync(rtp, ntp, origin, originRemote, hz, more)
  {
    hide After, NTPToTime;
    var y :| After(rtp, origin, y) && Close(y, NTPToTime(ntp) - NTPToTime(originRemote), hz, slack);
    assert Close(y, NTPToTime(ntp) - NTPToTime(originRemote), hz, more);
  }

  /** A remote instant that the origin of track t denotes, times hz: that of its report minus y units. */
  function Instant(t: TrackState, y: int): int {
    NTPToTime(t.remoteNTP) * t.hz - y * SECOND
  }

  /** Two tracks in sync with one remote origin: their origins denote one remote instant, up to the slack of both. */
  lemma SyncedOriginsAgree(a: TrackState, b: TrackState, originRemote: U64, s1: int, s2: int)
    requires Known(a) && Known(b) && Synced(a, originRemote, s1) && Synced(b, originRemote, s2) && a.hz > 0 && b.hz > 0
    ensures Agree(a, b, s1 * b.hz + s2 * a.hz)
  {
    hide After;
    var o := NTPToTime(originRemote);
    var y :| After(a.remoteRTP, a.origin.value, y) && Close(y, NTPToTime(a.remoteNTP) - o, a.hz, s1);
    var z :| After(b.remoteRTP, b.origin.value, z) && Close(z, NTPToTime(b.remoteNTP) - o, b.hz, s2);
    InstantNear(a, y, o, s1);
    InstantNear(b, z, o, s2);
    Scale(Instant(a, y) - o * a.hz, s1, b.hz);
    Scale(Instant(b, z) - o * b.hz, s2, a.hz);
    assert (Instant(a, y) - o * a.hz) * b.hz - (Instant(b, z) - o * b.hz) * a.hz
        == Instant(a, y) * b.hz - Instant(b, z) * a.hz by {
      Cancel(Instant(a, y), Instant(b, z), o, a.hz, b.hz);
    }
    assert Apart(a, b, y, z, s1 * b.hz + s2 * a.hz);
  }

  /** The instants, brought to a common clock, are closer than slack. */
  predicate Apart(a: TrackState, b: TrackState, y: int, z: int, slack: int) {
    -slack < Instant(a, y) * b.hz - Instant(b, z) * a.hz < slack
  }

  ghost predicate Agree(a: TrackState, b: TrackState, slack: int)
    requires Known(a) && Known(b)
  {
    exists y, z :: After(a.remoteRTP, a.origin.value, y) && After(b.remoteRTP, b.origin.value, z) && Apart(a, b, y, z, slack)
  }

  lemma InstantNear(t: TrackState, y: int, o: int, slack: int)
    requires Close(y, NTPToTime(t.remoteNTP) - o, t.hz, slack)
    ensures -slack < Instant(t, y) - o * t.hz < slack
  {
    assert (NTPToTime(t.remoteNTP) - o) * t.hz == NTPToTime(t.remoteNTP) * t.hz - o * t.hz;
  }

  lemma Scale(x: int, bound: int, k: nat)
    requires -bound < x < bound && k > 0
    ensures -(bound * k) < x * k < bound * k
  {
    assert (bound - x) * k == bound * k - x * k;
    assert (bound + x) * k == bound * k + x * k;
    MulPositive(bound - x, k);
    MulPositive(bound + x, k);
  }

  lemma MulPositive(x: nat, k: nat)
    requires x > 0 && k > 0
    ensures x * k > 0
  {
    MulOrder(x, 1, k);
  }

  lemma Cancel(i: int, j: int, o: int, h: int, k: int)
    ensures (i - o * h) * k - (j - o * k) * h == i * k - j * h
  {
    assert (i - o * h) * k == i * k - o * h * k;
    assert (j - o * k) * h == j * h - o * k * h;
    assert o * h * k == o * k * h;
  }

  // ---------------------------------------------------------------- rounding a remote origin

  /** The times that survive the conversion to NTP time: it garbles others by 2^32 nanoseconds. */
  predicate Representable(tm: int) {
    -TWO_63 <= tm < TWO_63 && (tm >= 0 || tm % SECOND == 0)
  }

  lemma WrapSum(x: int, y: int, z: int)
    requires Wrap32(x) == Wrap32(y)
    ensures Wrap32(z + x) == Wrap32(z + y) && Wrap32(z - x) == Wrap32(z - y)
  {
    var q := x / TWO_32 - y / TWO_32;
    assert x == y + TWO_32 * q;
    QuotientIs(z + x, TWO_32, (z + y) / TWO_32 + q);
    QuotientIs(z - x, TWO_32, (z - y) / TWO_32 - q);
  }

  lemma AfterTurns(rtp: U32, origin: U32, y: int, k: int)
    requires After(rtp, origin, y)
    ensures After(rtp, origin, y - k * TWO_32)
  {
    QuotientIs(rtp - y + k * TWO_32, TWO_32, (rtp - y) / TWO_32 + k);
  }

  /** A track that is in sync with an exact remote time is in sync with it in NTP form, to a nanosecond more. */
  lemma SyncRounded(rtp: U32, ntp: U64, origin: U32, hz: U32, tm: Int64, y: int, slack: int)
    requires Representable(tm) && After(rtp, origin, y) && Close(y, NTPToTime(ntp) - tm, hz, slack)
    ensures InSync(rtp, ntp, origin, TimeToNTP(tm), hz, slack + hz)
  {
    hide After, NTPToTime, TimeToNTP;
    var q, loss := NTPRoundTripAnyTime(tm);
    var d, d' := NTPToTime(ntp) - tm, NTPToTime(ntp) - NTPToTime(TimeToNTP(tm));
    AfterTurns(rtp, origin, y, q * hz);
    ShiftedClose(y, d, d', hz, slack, q, loss);
  }

  lemma ShiftedClose(y: int, d: int, d': int, hz: U32, slack: int, q: int, loss: nat)
    requires Close(y, d, hz, slack) && d' == d + loss - q * ERA && loss <= 1
    ensures Close(y - q * hz * TWO_32, d', hz, slack + hz)
  {
    assert d' * hz == d * hz + loss * hz - q * ERA * hz;
    assert q * ERA * hz == q * hz * ERA;
    assert (y - q * hz * TWO_32) * SECOND == y * SECOND - q * hz * ERA;
  }

  // ---------------------------------------------------------------- the ways to get in sync

  lemma Int32IsIt(a: U32, b: U32)
    ensures Wrap32(Int32(a - b)) == Wrap32(a - b)
    ensures Wrap32(a) == a
  {
  }

  /** Seen from timestamp rtp, an origin delta before ts. */
  lemma AfterBack(ts: U32, rtp: U32, delta: int)
    ensures After(rtp, Wrap32(ts - delta), delta - Int32(ts - rtp))
  {
    hide Int32;
    Int32IsIt(ts, rtp);
    WrapSum(Int32(ts - rtp), ts - rtp, rtp - delta);
  }

  /** Moving the origin back moves every timestamp away from it. */
  lemma AfterShift(rtp: U32, origin: U32, delta: int)
    ensures After(rtp, Wrap32(origin - delta), Int32(rtp - origin) + delta)
  {
    hide Int32;
    Int32IsIt(rtp, origin);
    WrapSum(Int32(rtp - origin), rtp - origin, rtp - delta);
  }

  lemma AfterMove(rtp: U32, origin: U32, y: int, n: int)
    requires After(rtp, origin, y)
    ensures After(rtp, Wrap32(origin + n), y - n)
  {
    WrapSum(rtp - y, origin, n);
  }

  /** The report that fixes the remote origin. */
  lemma FirstSync(rtp: U32, ntp: U64, origin: U32, hz: U32)
    requires Clock(hz) && Representable(NTPToTime(ntp) - Elapsed(rtp, origin, hz))
    ensures InSync(rtp, ntp, origin, TimeToNTP(NTPToTime(ntp) - Elapsed(rtp, origin, hz)), hz, 2 * hz)
  {
    hide NTPToTime, TimeToNTP, Elapsed, Int32, Wrap32, After;
    Int32IsIt(origin, origin);
    AfterShift(rtp, origin, 0);
    SyncRounded(rtp, ntp, origin, hz, NTPToTime(ntp) - Elapsed(rtp, origin, hz), Int32(rtp - origin), hz);
  }

  /** A later report moves the track's origin. */
  lemma LaterSync(rtp: U32, ntp: U64, origin: U32, originRemote: U64, hz: U32)
    requires Clock(hz)
    requires 0 <= NTPToTime(ntp) < ERA && 0 <= NTPToTime(originRemote) < ERA
    ensures var d := NTPToTime(ntp) - NTPToTime(originRemote) - Elapsed(rtp, origin, hz);
            && -TWO_63 < d < TWO_63
            && InSync(rtp, ntp, Wrap32(origin - Units(d, hz)), originRemote, hz, hz + SECOND)
  {
    hide NTPToTime, Elapsed, Units, Int32, Wrap32, After;
    var remote := NTPToTime(ntp) - NTPToTime(originRemote);
    var local, x := Elapsed(rtp, origin, hz), Int32(rtp - origin);
    var delta := Units(remote - local, hz);
    assert (remote - local) * hz == remote * hz - local * hz;
    AfterShift(rtp, origin, delta);
    assert Close(x + delta, remote, hz, hz + SECOND);
  }

  /** The first packet of a recording, on a track that has a report. */
  lemma FirstOrigin(ts: U32, rtp: U32, ntp: U64, hz: U32)
    requires Clock(hz) && Representable(NTPToTime(ntp) + Elapsed(ts, rtp, hz))
    ensures InSync(rtp, ntp, ts, TimeToNTP(NTPToTime(ntp) + Elapsed(ts, rtp, hz)), hz, 2 * hz)
  {
    hide NTPToTime, TimeToNTP, Elapsed, Int32, Wrap32, After;
    var local, x := Elapsed(ts, rtp, hz), Int32(ts - rtp);
    Int32IsIt(ts, ts);
    AfterBack(ts, rtp, 0);
    NegateProduct(local, hz);
    SyncRounded(rtp, ntp, ts, hz, NTPToTime(ntp) + local, 0 - x, hz);
  }

  /** An origin computed from remote time. */
  lemma LaterOrigin(ts: U32, rtp: U32, ntp: U64, originRemote: U64, hz: U32)
    requires Clock(hz)
    requires 0 <= NTPToTime(ntp) < ERA && 0 <= NTPToTime(originRemote) < ERA
    ensures var d := NTPToTime(ntp) + Elapsed(ts, rtp, hz) - NTPToTime(originRemote);
            && -TWO_63 < d < TWO_63
            && InSync(rtp, ntp, Wrap32(ts - Units(d, hz)), originRemote, hz, hz + SECOND)
  {
    hide NTPToTime, Elapsed, Units, Int32, Wrap32, After;
    var remote := NTPToTime(ntp) - NTPToTime(originRemote);
    var local, x := Elapsed(ts, rtp, hz), Int32(ts - rtp);
    var delta := Units(remote + local, hz);
    assert (remote + local) * hz == remote * hz + local * hz;
    AfterBack(ts, rtp, delta);
    assert Close(delta - x, remote, hz, hz + SECOND);
  }

  /** An origin computed from local time, which then fixes the remote origin. */
  lemma LocalOrigin(ts: U32, rtp: U32, ntp: U64, d: Int64, hz: U32)
    requires Clock(hz) && d > -TWO_63 && Representable(NTPToTime(ntp) + Elapsed(ts, rtp, hz) - d)
    ensures InSync(rtp, ntp, Wrap32(ts - Units(d, hz)), TimeToNTP(NTPToTime(ntp) + Elapsed(ts, rtp, hz) - d), hz,
                   2 * hz + SECOND)
  {
    hide NTPToTime, TimeToNTP, Elapsed, Units, Int32, Wrap32, After;
    var local, x, delta := Elapsed(ts, rtp, hz), Int32(ts - rtp), Units(d, hz);
    assert (d - local) * hz == d * hz - local * hz;
    AfterBack(ts, rtp, delta);
    SyncRounded(rtp, ntp, Wrap32(ts - delta), hz, NTPToTime(ntp) + local - d, delta - x, hz + SECOND);
  }

  /** Moving the track's origin and the remote origin by the same time costs one tick and one nanosecond. */
  lemma AdjustmentKeepsSync(rtp: U32, ntp: U64, origin: U32, originRemote: U64, hz: U32, slack: int, offset: Int64)
    requires Clock(hz) && offset > -TWO_63
    requires InSync(rtp, ntp, origin, originRemote, hz, slack) && Representable(NTPToTime(originRemote) + offset)
    ensures InSync(rtp, ntp, Wrap32(origin + Units(offset, hz)), TimeToNTP(NTPToTime(originRemote) + offset), hz,
                   slack + SECOND + hz)
  {
    hide NTPToTime, TimeToNTP, Units, Wrap32, After;
    var o, n := NTPToTime(originRemote), Units(offset, hz);
    var d := NTPToTime(ntp) - o;
    var y :| After(rtp, origin, y) && Close(y, d, hz, slack);
    assert (d - offset) * hz == d * hz - offset * hz;
    AfterMove(rtp, origin, y, n);
    SyncRounded(rtp, ntp, Wrap32(origin + n), hz, o + offset, y - n, slack + SECOND);
  }

  // ---------------------------------------------------------------- when a computed remote origin is in sync

  /** All the distances from the origin to a timestamp differ by whole turns of the clock. */
  lemma AfterIsUnique(rtp: U32, origin: U32, y: int, z: int) returns (k: int)
    requires After(rtp, origin, y) && After(rtp, origin, z)
    ensures z == y + k * TWO_32
  {
    k := (rtp - y) / TWO_32 - (rtp - z) / TWO_32;
    DivMod(rtp - y, TWO_32);
    DivMod(rtp - z, TWO_32);
  }

  /** A garbled remote origin is 2^32 nanoseconds off, which no whole number of turns makes up for, but at 10^9 Hz. */
  lemma GarbledIsFar(y: int, d: int, d': int, hz: U32, slack0: int, slack: int, k: int, q: int, loss: nat)
    requires Clock(hz) && hz < SECOND && loss <= 1
    requires Close(y, d, hz, slack0) && d' == d - TWO_32 + loss - q * ERA
    requires slack + slack0 + hz <= TWO_32 * hz && slack + slack0 <= TWO_32 * (SECOND - hz)
    ensures !Close(y + k * TWO_32, d', hz, slack)
  {
    var m := k + q * hz;
    assert d' * hz == d * hz - TWO_32 * hz + loss * hz - q * ERA * hz;
    assert q * ERA * hz == q * hz * ERA;
    assert (y + k * TWO_32) * SECOND == y * SECOND + k * ERA;
    assert m * ERA == k * ERA + q * hz * ERA;
    assert 0 <= loss * hz <= hz;
    if m >= 0 {
      assert m * ERA >= 0;
    } else {
      assert m * ERA <= -ERA;
    }
  }

  /** A turn makes up for it at 10^9 Hz. */
  lemma GarbledIsATurn(y: int, d: int, d': int, slack0: int, q: int, loss: nat)
    requires loss <= 1 && Close(y, d, SECOND, slack0) && d' == d - TWO_32 + loss - q * ERA
    ensures Close(y - (1 + q * SECOND) * TWO_32, d', SECOND, slack0 + SECOND)
  {
    assert (y - (1 + q * SECOND) * TWO_32) * SECOND == y * SECOND - ERA - q * SECOND * ERA;
    assert d' * SECOND == d * SECOND - ERA + loss * SECOND - q * ERA * SECOND;
    assert q * ERA * SECOND == q * SECOND * ERA;
  }

  /** A remote origin computed exactly, and then converted to NTP time, is in sync, to any reasonable slack, exactly if the
      conversion does not garble it; but at 10^9 Hz it always is. */
  lemma SyncedIffRepresentable(rtp: U32, ntp: U64, origin: U32, hz: U32, tm: Int64, y: int, slack0: int, slack: int)
    requires Clock(hz) && After(rtp, origin, y) && Close(y, NTPToTime(ntp) - tm, hz, slack0)
    requires slack0 + hz <= slack && slack + slack0 + hz <= TWO_32 * hz
    requires hz == SECOND || slack + slack0 <= TWO_32 * (SECOND - hz)
    ensures InSync(rtp, ntp, origin, TimeToNTP(tm), hz, slack) <==> Representable(tm) || hz == SECOND
  {
    hide After, NTPToTime, TimeToNTP, Close;
    var q, loss := NTPRoundTripAnyTime(tm);
    var d, d' := NTPToTime(ntp) - tm, NTPToTime(ntp) - NTPToTime(TimeToNTP(tm));
    if Representable(tm) {
      SyncRounded(rtp, ntp, origin, hz, tm, y, slack0);
      MoreSlack(rtp, ntp, origin, TimeToNTP(tm), hz, slack0 + hz, slack);
    } else if hz == SECOND {
      GarbledIsATurn(y, d, d', slack0, q, loss);
      AfterTurns(rtp, origin, y, 1 + q * SECOND);
      MoreSlack(rtp, ntp, origin, TimeToNTP(tm), hz, slack0 + hz, slack);
    } else {
      forall z | After(rtp, origin, z)
        ensures !Close(z, d', hz, slack)
      {
        var k := AfterIsUnique(rtp, origin, y, z);
        GarbledIsFar(y, d, d', hz, slack0, slack, k, q, loss);
      }
    }
  }

  /** The report that fixes the remote origin syncs its track exactly if the remote origin is not garbled. */
  lemma FirstSyncIff(rtp: U32, ntp: U64, origin: U32, hz: U32)
    requires Clock(hz)
    ensures var tm := NTPToTime(ntp) - Elapsed(rtp, origin, hz);
            InSync(rtp, ntp, origin, TimeToNTP(tm), hz, Slack(hz, 0)) <==> Representable(tm) || hz == SECOND
  {
    hide NTPToTime, TimeToNTP, Elapsed, Int32, Wrap32, After, Representable;
    NTPRoundTripBack(ntp);
    Int32IsIt(origin, origin);
    AfterShift(rtp, origin, 0);
    SyncedIffRepresentable(rtp, ntp, origin, hz, NTPToTime(ntp) - Elapsed(rtp, origin, hz), Int32(rtp - origin), hz, Slack(hz, 0));
  }

  /** So does the first packet of a recording. */
  lemma FirstOriginIff(ts: U32, rtp: U32, ntp: U64, hz: U32)
    requires Clock(hz)
    ensures var tm := NTPToTime(ntp) + Elapsed(ts, rtp, hz);
            InSync(rtp, ntp, ts, TimeToNTP(tm), hz, Slack(hz, 0)) <==> Representable(tm) || hz == SECOND
  {
    hide NTPToTime, TimeToNTP, Elapsed, Int32, Wrap32, After, Representable;
    var local, x := Elapsed(ts, rtp, hz), Int32(ts - rtp);
    NTPRoundTripBack(ntp);
    Int32IsIt(ts, ts);
    AfterBack(ts, rtp, 0);
    NegateProduct(local, hz);
    SyncedIffRepresentable(rtp, ntp, ts, hz, NTPToTime(ntp) + local, 0 - x, hz, Slack(hz, 0));
  }

  /** And so does an origin computed from local time, but that 10^9 - 1 Hz is too close to a turn to tell. */
  lemma LocalOriginIff(ts: U32, rtp: U32, ntp: U64, d: Int64, hz: U32)
    requires Clock(hz) && hz != SECOND - 1 && d > -TWO_63
    requires -TWO_63 <= NTPToTime(ntp) + Elapsed(ts, rtp, hz) - d < TWO_63
    ensures var tm := NTPToTime(ntp) + Elapsed(ts, rtp, hz) - d;
            InSync(rtp, ntp, Wrap32(ts - Units(d, hz)), TimeToNTP(tm), hz, Slack(hz, 0)) <==> Representable(tm) || hz == SECOND
  {
    hide NTPToTime, TimeToNTP, Elapsed, Units, Int32, Wrap32, After, Representable;
    var local, x, delta := Elapsed(ts, rtp, hz), Int32(ts - rtp), Units(d, hz);
    assert (d - local) * hz == d * hz - local * hz;
    AfterBack(ts, rtp, delta);
    SyncedIffRepresentable(rtp, ntp, Wrap32(ts - delta), hz, NTPToTime(ntp) + local - d, delta - x, hz + SECOND, Slack(hz, 0));
  }

  // ---------------------------------------------------------------- runs

  datatype Event =
    | Reported(i: nat, ntp: U64, rtp: U32)
    | FirstPacket(i: nat, ts: U32, now: int)
    | Adjusted(i: nat, ts: U32)
    | Closed
    | Added(hz: U32)

  ghost predicate Enabled(s: State, ev: Event) {
    Clocks(s) && if ev.Added? then Clock(ev.hz) else ev.Closed? || ev.i < |s.tracks|
  }

  function Next(s: State, ev: Event): State
    requires Enabled(s, ev)
  {
    match ev
    case Reported(i, ntp, rtp) => AfterReport(s, i, ntp, rtp)
    case FirstPacket(i, ts, now) => AfterPacket(s, i, ts, now)
    case Adjusted(i, ts) => AfterAdjust(s, i, ts)
    case Closed => AfterClose(s)
    case Added(hz) => AfterAdd(s, hz)
  }

  /** The adjustments of each track since its origin or the remote origin was last computed from its report. */
  function Count(s: State, ev: Event, ks: seq<nat>): seq<nat>
    requires Enabled(s, ev) && |ks| == |s.tracks|
  {
    match ev
    case Reported(i, _, _) => if s.tracks[i].origin.Some? then ks[i := 0] else ks
    case FirstPacket(i, _, _) => ks[i := 0]
    case Adjusted(i, ts) => if Moves(s, i, ts) then seq(|ks|, k requires 0 <= k < |ks| => ks[k] + 1) else ks
    case Closed => ks
    case Added(_) => ks + [0]
  }

  /** The remote origin that an event computes for tracks with a report. */
  function Computes(s: State, ev: Event): Option<int>
    requires Enabled(s, ev)
  {
    match ev
    case Reported(i, ntp, rtp) =>
      var t := s.tracks[i];
      if t.origin.Some? && s.originRemote == 0 && ntp != 0 then Some(NTPToTime(ntp) - Elapsed(rtp, t.origin.value, t.hz))
      else None
    case FirstPacket(i, ts, now) =>
      var t := s.tracks[i];
      if t.remoteNTP == 0 then None
      else if s.originLocal == None then Some(RemoteTime(t, ts))
      else if s.originRemote == 0 then Some(RemoteTime(t, ts) + Negated(Sub(now, s.originLocal.value)))
      else None
    case Adjusted(i, ts) =>
      if Moves(s, i, ts) && s.originRemote != 0 then Some(NTPToTime(s.originRemote) + Offset(s, i, ts)) else None
    case Closed => None
    case Added(_) => None
  }

  /** The remote origin that is computed survives the conversion to NTP time, and is not the NTP time that stands
      for none. The local clock did not run backwards by 292 years. */
  ghost predicate Sound(s: State, ev: Event)
    requires Enabled(s, ev)
  {
    && (Computes(s, ev).Some? ==> Representable(Computes(s, ev).value) && TimeToNTP(Computes(s, ev).value) != 0)
    && (ev.FirstPacket? && s.originLocal.Some? ==> ev.now - s.originLocal.value > -TWO_63)
  }

  /** A track is synced to a tick and two nanoseconds, and a tick and a nanosecond for every adjustment since. */
  function Slack(hz: U32, k: nat): int {
    2 * hz + SECOND + k * (hz + SECOND)
  }

  ghost predicate Inv(s: State, ks: seq<nat>) {
    && Clocks(s) && |ks| == |s.tracks|
    && (s.originLocal == None ==> forall i :: 0 <= i < |s.tracks| ==> s.tracks[i].origin == None)
    && (s.originRemote == 0 ==> forall i :: 0 <= i < |s.tracks| ==> !Known(s.tracks[i]))
    && forall i :: 0 <= i < |s.tracks| && Known(s.tracks[i]) ==>
         Synced(s.tracks[i], s.originRemote, Slack(s.tracks[i].hz, ks[i]))
  }

  lemma ReportKeepsInv(s: State, ks: seq<nat>, ev: Event)
    requires Inv(s, ks) && ev.Reported? && Enabled(s, ev) && Sound(s, ev)
    ensures Inv(Next(s, ev), Count(s, ev, ks))
  {
    hide NTPToTime, TimeToNTP, Elapsed, Units, Wrap32, InSync;
    var t := s.tracks[ev.i];
    if t.origin.Some? && ev.ntp != 0 {
      NTPRoundTripBack(ev.ntp);
      NTPRoundTripBack(s.originRemote);
      var hz, o := t.hz, t.origin.value;
      if s.originRemote == 0 {
        FirstSync(ev.rtp, ev.ntp, o, hz);
        MoreSlack(ev.rtp, ev.ntp, o, Next(s, ev).originRemote, hz, 2 * hz, Slack(hz, 0));
      } else {
        LaterSync(ev.rtp, ev.ntp, o, s.originRemote, hz);
        MoreSlack(ev.rtp, ev.ntp, Next(s, ev).tracks[ev.i].origin.value, s.originRemote, hz, hz + SECOND, Slack(hz, 0));
      }
    }
  }

  lemma PacketKeepsInv(s: State, ks: seq<nat>, ev: Event)
    requires Inv(s, ks) && ev.FirstPacket? && Enabled(s, ev) && Sound(s, ev)
    ensures Inv(Next(s, ev), Count(s, ev, ks))
  {
    hide NTPToTime, TimeToNTP, Elapsed, Units, Wrap32, InSync;
    var t, s' := s.tracks[ev.i], Next(s, ev);
    if t.remoteNTP != 0 {
      NTPRoundTripBack(t.remoteNTP);
      NTPRoundTripBack(s.originRemote);
      var hz, o' := t.hz, s'.tracks[ev.i].origin.value;
      if s.originLocal == None {
        FirstOrigin(ev.ts, t.remoteRTP, t.remoteNTP, hz);
        MoreSlack(t.remoteRTP, t.remoteNTP, o', s'.originRemote, hz, 2 * hz, Slack(hz, 0));
      } else if s.originRemote != 0 {
        LaterOrigin(ev.ts, t.remoteRTP, t.remoteNTP, s.originRemote, hz);
        MoreSlack(t.remoteRTP, t.remoteNTP, o', s.originRemote, hz, hz + SECOND, Slack(hz, 0));
      } else {
        LocalOrigin(ev.ts, t.remoteRTP, t.remoteNTP, Sub(ev.now, s.originLocal.value), hz);
      }
    }
  }

  lemma AdjustKeepsInv(s: State, ks: seq<nat>, ev: Event)
    requires Inv(s, ks) && ev.Adjusted? && Enabled(s, ev) && Sound(s, ev)
    ensures Inv(Next(s, ev), Count(s, ev, ks))
  {
    hide NTPToTime, TimeToNTP, Elapsed, Units, Wrap32, InSync;
    if Moves(s, ev.i, ev.ts) {
      var s', offset := Next(s, ev), Offset(s, ev.i, ev.ts);
      forall k | 0 <= k < |s.tracks| && Known(s'.tracks[k])
        ensures s.originRemote != 0 && Synced(s'.tracks[k], s'.originRemote, Slack(s'.tracks[k].hz, ks[k] + 1))
      {
        var t := s.tracks[k];
        assert Known(t);
        AdjustmentKeepsSync(t.remoteRTP, t.remoteNTP, t.origin.value, s.originRemote, t.hz, Slack(t.hz, ks[k]), offset);
        assert (ks[k] + 1) * (t.hz + SECOND) == ks[k] * (t.hz + SECOND) + t.hz + SECOND;
      }
    }
  }

  lemma StepKeepsInv(s: State, ks: seq<nat>, ev: Event)
    requires Inv(s, ks) && Enabled(s, ev) && Sound(s, ev)
    ensures Inv(Next(s, ev), Count(s, ev, ks))
  {
    hide InSync;
    match ev
    case Reported(_, _, _) => ReportKeepsInv(s, ks, ev);
    case FirstPacket(_, _, _) => PacketKeepsInv(s, ks, ev);
    case Adjusted(_, _) => AdjustKeepsInv(s, ks, ev);
    case Closed =>
    case Added(_) =>
  }

  ghost predicate IsRun(ss: seq<State>, kss: seq<seq<nat>>, evs: seq<Event>) {
    && |ss| == |kss| == |evs| + 1
    && Clocks(ss[0]) && ss[0] == AfterClose(ss[0]) && |kss[0]| == |ss[0].tracks|
    && forall i :: 0 <= i < |evs| ==>
         && Enabled(ss[i], evs[i]) && Sound(ss[i], evs[i]) && |kss[i]| == |ss[i].tracks|
         && ss[i + 1] == Next(ss[i], evs[i]) && kss[i + 1] == Count(ss[i], evs[i], kss[i])
  }

  /** In every run of packets, reports and adjustments on any number of tracks, each track with an origin and a
      report is in sync with the remote origin. */
  lemma {:induction false} RunKeepsInv(ss: seq<State>, kss: seq<seq<nat>>, evs: seq<Event>, n: nat)
    requires IsRun(ss, kss, evs) && n < |ss|
    ensures Inv(ss[n], kss[n])
  {
    hide Next, Count, Synced, Sound;
    if n == 0 {
      ClosedInv(ss[0], kss[0]);
    } else {
      RunKeepsInv(ss, kss, evs, n - 1);
      StepKeepsInv(ss[n - 1], kss[n - 1], evs[n - 1]);
    }
  }

  lemma ClosedInv(s: State, ks: seq<nat>)
    requires Clocks(s) && s == AfterClose(s) && |ks| == |s.tracks|
    ensures Inv(s, ks)
  {
    assert forall i :: 0 <= i < |s.tracks| ==> s.tracks[i].origin == AfterClose(s).tracks[i].origin == None;
  }

  /** So the origins of any two of them denote one remote instant. */
  lemma OriginsAgree(ss: seq<State>, kss: seq<seq<nat>>, evs: seq<Event>, n: nat, i: nat, j: nat)
    requires IsRun(ss, kss, evs) && n < |ss| && i < |ss[n].tracks| == |kss[n]| && j < |ss[n].tracks|
    requires Known(ss[n].tracks[i]) && Known(ss[n].tracks[j])
    ensures var a, b := ss[n].tracks[i], ss[n].tracks[j];
            Agree(a, b, Slack(a.hz, kss[n][i]) * b.hz + Slack(b.hz, kss[n][j]) * a.hz)
  {
    hide InSync, Slack, Agree, Next, Count, Sound;
    RunKeepsInv(ss, kss, evs, n);
    var a, b := ss[n].tracks[i], ss[n].tracks[j];
    SyncedOriginsAgree(a, b, ss[n].originRemote, Slack(a.hz, kss[n][i]), Slack(b.hz, kss[n][j]));
  }

  /** Without that proviso the track can end up out of sync: a report for the very start of 1900 of a track whose
      origin is a millisecond earlier. */
  lemma GarbledOrigin()
    ensures var s := State(Some(0), 0, [TrackState(1000, Some(0), 0, 0)]);
            var s' := AfterReport(s, 0, 1, 1);
            && Inv(s, [0]) && Known(s'.tracks[0]) && !Synced(s'.tracks[0], s'.originRemote, Slack(1000, 0))
  {
    hide TimeToNTP, Elapsed;
    var s := State(Some(0), 0, [TrackState(1000, Some(0), 0, 0)]);
    assert Int32(1 - 0) == 1;
    assert Elapsed(1, 0, 1000) == 1_000_000;
    var q, loss := NTPRoundTripAnyTime(-1_000_000);
    var o := NTPToTime(TimeToNTP(-1_000_000));
    NTPRoundTripBack(TimeToNTP(-1_000_000));
    assert o == 4294967296 - 1_000_000 - loss + q * ERA;
    assert q == 0;
    forall y | After(1, 0, y)
      ensures !Close(y, NTPToTime(1) - o, 1000, Slack(1000, 0))
    {
      DivMod(1 - y, TWO_32);
    }
  }

  // ---------------------------------------------------------------- how close an adjustment gets

  /** x units, or one tick less in absolute value when x units are not a whole number of nanoseconds. */
  function Short(x: int, hz: U32): (n: int)
    requires Clock(hz)
    ensures x >= 0 ==> (if x == 0 then 0 else x - 1) <= n <= x
    ensures x <= 0 ==> x <= n <= (if x == 0 then 0 else x + 1)
  {
    var a := if x < 0 then -x else x;
    if a * SECOND % hz == 0 then x else if x > 0 then x - 1 else x + 1
  }

  /** The adjusted origin is the target itself exactly when the distance is a whole number of nanoseconds. */
  lemma ShortOfTarget(ts: U32, origin: U32, hz: U32)
    requires Clock(hz)
    ensures var x := Int32(ts - origin);
            && Units(Elapsed(ts, origin, hz), hz) == Short(x, hz)
            && (Wrap32(origin + Short(x, hz)) == ts <==> (if x < 0 then -x else x) * SECOND % hz == 0)
  {
    hide Int32, Wrap32, Elapsed, Units;
    var x := Int32(ts - origin);
    DurationRoundTrip(x, hz);
    FullDistance(ts, origin);
    if x == 0 {
      QuotientIs(0, hz, 0);
    }
    if Short(x, hz) != x {
      WrapDistinct(origin + x, origin + Short(x, hz));
    }
  }

  lemma FullDistance(ts: U32, origin: U32)
    ensures Wrap32(origin + Int32(ts - origin)) == ts
  {
    hide Int32;
    Int32IsIt(ts, origin);
    WrapSum(Int32(ts - origin), ts - origin, origin);
  }

  lemma WrapDistinct(x: int, y: int)
    requires x - y == 1 || y - x == 1
    ensures Wrap32(x) != Wrap32(y)
  {
  }

  /** Where an adjustment leaves the track it is for: between its old origin and the target, and at the target
      exactly when the distance is a whole number of nanoseconds. */
  lemma AdjustedOrigin(s: State, i: nat, ts: U32)
    requires i < |s.tracks| && Clocks(s) && s.tracks[i].origin.Some?
    ensures var t, t' := s.tracks[i], AfterAdjust(s, i, ts).tracks[i];
            var x := Int32(ts - t.origin.value);
            && t' == t.(origin := Some(Wrap32(t.origin.value + Short(x, t.hz))))
            && (t'.origin.value == ts <==> (if x < 0 then -x else x) * SECOND % t.hz == 0)
  {
    hide Int32, Wrap32, Elapsed, Units, Short;
    var t := s.tracks[i];
    ShortOfTarget(ts, t.origin.value, t.hz);
    if t.origin.value == ts {
      NoDistance(ts, t.hz);
    }
  }

  lemma NoDistance(ts: U32, hz: U32)
    requires Clock(hz)
    ensures Int32(ts - ts) == 0 && Wrap32(ts) == ts && Short(0, hz) == 0 && 0 % hz == 0
  {
    QuotientIs(0, hz, 0);
  }

  /** One tick of a 48 kHz clock is not a whole number of nanoseconds: an adjustment by one tick moves nothing. */
  lemma OneTickIsTooFar(ntp: U64, rtp: U32)
    ensures var t := TrackState(48000, Some(0), ntp, rtp);
            AfterAdjust(State(Some(0), 0, [t]), 0, 1).tracks[0].origin == Some(0)
  {
    var s := State(Some(0), 0, [TrackState(48000, Some(0), ntp, rtp)]);
    AdjustedOrigin(s, 0, 1);
    assert Int32(1 - 0) == 1 && 1 * SECOND % 48000 == 16000;
  }
}

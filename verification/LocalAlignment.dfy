/** Tracks without a sender report: their origins are as far apart as their first packets were when they arrived. */
module LocalAlignment {
  import opened Basics
  import opened Division
  import opened RtpTime
  import opened LipSync
  import opened Alignment

  // ---------------------------------------------------------------- origins set by local time

  /** Timestamp ts, which arrived at local time now, is as far from the origin as now is from originLocal, up to an error
      below slack (in units of 1/hz times a nanosecond: SECOND is one tick). */
  ghost predicate Placed(ts: U32, now: int, origin: U32, originLocal: int, hz: U32, slack: int) {
    exists y :: After(ts, origin, y) && Close(y, now - originLocal, hz, slack)
  }

  /** The origin of this track will be computed from its sender report and that of an earlier track. */
  predicate ByRemoteTime(s: State, i: nat)
    requires i < |s.tracks|
  {
    s.originLocal.Some? && s.originRemote != 0 && s.tracks[i].remoteNTP != 0
  }

  /** The local clock stayed within 292 years of the local origin. */
  predicate InTime(s: State, now: int) {
    s.originLocal.Some? ==> -TWO_63 < now - s.originLocal.value < TWO_63
  }

  /** The first packet of a track that has no report, or of the first track with one, places the origin by its time of
      arrival, to a tick. */
  lemma FirstPacketIsPlaced(s: State, i: nat, ts: U32, now: int)
    requires i < |s.tracks| && Clocks(s) && !ByRemoteTime(s, i) && InTime(s, now)
    ensures var s' := AfterPacket(s, i, ts, now);
            && s'.originLocal == (if s.originLocal == None then Some(now) else s.originLocal)
            && s'.tracks[i].origin.Some?
            && Placed(ts, now, s'.tracks[i].origin.value, s'.originLocal.value, s.tracks[i].hz, SECOND)
  {
    hide NTPToTime, TimeToNTP, Elapsed, Units, Int32;
    var s', hz := AfterPacket(s, i, ts, now), s.tracks[i].hz;
    if s.originLocal == None {
      assert After(ts, ts, 0) && Close(0, now - now, hz, SECOND);
    } else {
      var d := now - s.originLocal.value;
      assert After(ts, Wrap32(ts - Units(d, hz)), Units(d, hz)) && Close(Units(d, hz), d, hz, SECOND);
    }
  }

  /** An adjustment costs a tick more. */
  lemma AdjustmentKeepsPlace(ts: U32, now: int, origin: U32, originLocal: int, hz: U32, slack: int, offset: Int64)
    requires Clock(hz) && offset > -TWO_63 && Placed(ts, now, origin, originLocal, hz, slack)
    ensures Placed(ts, now, Wrap32(origin + Units(offset, hz)), originLocal + offset, hz, slack + SECOND)
  {
    hide After, Wrap32, Units;
    var n := Units(offset, hz);
    var y :| After(ts, origin, y) && Close(y, now - originLocal, hz, slack);
    assert (now - originLocal - offset) * hz == (now - originLocal) * hz - offset * hz;
    AfterMove(ts, origin, y, n);
    assert Close(y - n, now - (originLocal + offset), hz, slack + SECOND);
  }

  // ---------------------------------------------------------------- runs

  /** The first packet of a track whose origin was set by local time, and the adjustments since. */
  datatype Arrival = Arrival(ts: U32, now: int, moves: nat)

  /** What is known of each track after an event; nothing, once its origin is computed from remote time. */
  function Recorded(s: State, ev: Event, rs: seq<Option<Arrival>>): (rs': seq<Option<Arrival>>)
    requires Enabled(s, ev) && |rs| == |s.tracks|
    ensures |rs'| == |Next(s, ev).tracks|
  {
    match ev
    case Reported(i, _, _) => if s.tracks[i].origin.Some? && s.originRemote != 0 then rs[i := None] else rs
    case FirstPacket(i, ts, now) => rs[i := if ByRemoteTime(s, i) then None else Some(Arrival(ts, now, 0))]
    case Adjusted(i, ts) => if Moves(s, i, ts) then seq(|rs|, k requires 0 <= k < |rs| => MovedOn(rs[k])) else rs
    case Closed => seq(|rs|, _ => None)
    case Added(_) => rs + [None]
  }

  function MovedOn(r: Option<Arrival>): Option<Arrival> {
    if r == None then None else Some(r.value.(moves := r.value.moves + 1))
  }

  ghost predicate IsPlaced(s: State, k: nat, r: Option<Arrival>)
    requires k < |s.tracks|
  {
    r.Some? ==>
      && s.originLocal.Some? && s.tracks[k].origin.Some?
      && Placed(r.value.ts, r.value.now, s.tracks[k].origin.value, s.originLocal.value, s.tracks[k].hz,
                (r.value.moves + 1) * SECOND)
  }

  ghost predicate AllPlaced(s: State, rs: seq<Option<Arrival>>) {
    && Clocks(s) && |rs| == |s.tracks|
    && (s.originLocal == None ==> forall k :: 0 <= k < |s.tracks| ==> s.tracks[k].origin == None)
    && forall k :: 0 <= k < |rs| ==> IsPlaced(s, k, rs[k])
  }

  lemma ReportKeepsPlaces(s: State, rs: seq<Option<Arrival>>, ev: Event)
    requires AllPlaced(s, rs) && Enabled(s, ev) && ev.Reported?
    ensures AllPlaced(Next(s, ev), Recorded(s, ev, rs))
  {
    hide NTPToTime, TimeToNTP, Elapsed, Units, Wrap32, Placed;
    assert forall k :: 0 <= k < |rs| ==> IsPlaced(s, k, rs[k]);
  }

  lemma PacketKeepsPlaces(s: State, rs: seq<Option<Arrival>>, ev: Event)
    requires AllPlaced(s, rs) && Enabled(s, ev) && ev.FirstPacket? && InTime(s, ev.now)
    ensures AllPlaced(Next(s, ev), Recorded(s, ev, rs))
  {
    hide NTPToTime, TimeToNTP, Elapsed, Units, Wrap32, Placed;
    if !ByRemoteTime(s, ev.i) {
      FirstPacketIsPlaced(s, ev.i, ev.ts, ev.now);
    }
    var s', rs' := Next(s, ev), Recorded(s, ev, rs);
    forall k | 0 <= k < |rs'| ensures IsPlaced(s', k, rs'[k]) {
      assert IsPlaced(s, k, rs[k]);
    }
  }

  lemma AdjustKeepsPlaces(s: State, rs: seq<Option<Arrival>>, ev: Event)
    requires AllPlaced(s, rs) && Enabled(s, ev) && ev.Adjusted?
    ensures AllPlaced(Next(s, ev), Recorded(s, ev, rs))
  {
    hide NTPToTime, TimeToNTP, Elapsed, Units, Wrap32, Placed;
    if Moves(s, ev.i, ev.ts) {
      var s', rs', offset := Next(s, ev), Recorded(s, ev, rs), Offset(s, ev.i, ev.ts);
      forall k | 0 <= k < |rs'| ensures IsPlaced(s', k, rs'[k]) {
        assert IsPlaced(s, k, rs[k]);
        if rs[k].Some? {
          var t, r := s.tracks[k], rs[k].value;
          AdjustmentKeepsPlace(r.ts, r.now, t.origin.value, s.originLocal.value, t.hz, (r.moves + 1) * SECOND, offset);
        }
      }
    }
  }

  lemma StepKeepsPlaces(s: State, rs: seq<Option<Arrival>>, ev: Event)
    requires AllPlaced(s, rs) && Enabled(s, ev) && (ev.FirstPacket? ==> InTime(s, ev.now))
    ensures AllPlaced(Next(s, ev), Recorded(s, ev, rs))
  {
    hide Placed;
    match ev
    case Reported(_, _, _) => ReportKeepsPlaces(s, rs, ev);
    case FirstPacket(_, _, _) => PacketKeepsPlaces(s, rs, ev);
    case Adjusted(_, _) => AdjustKeepsPlaces(s, rs, ev);
    case Closed =>
    case Added(_) =>
      assert forall k :: 0 <= k < |rs| ==> IsPlaced(s, k, rs[k]);
  }

  /** A run of packets, reports, adjustments and closings, on any number of tracks. */
  ghost predicate IsRecording(ss: seq<State>, evs: seq<Event>) {
    && |ss| == |evs| + 1
    && Clocks(ss[0]) && ss[0] == AfterClose(ss[0])
    && forall i :: 0 <= i < |evs| ==>
         && Enabled(ss[i], evs[i]) && ss[i + 1] == Next(ss[i], evs[i])
         && (evs[i].FirstPacket? ==> InTime(ss[i], evs[i].now))
  }

  /** What is known of the tracks after n events. */
  ghost function Records(ss: seq<State>, evs: seq<Event>, n: nat): (rs: seq<Option<Arrival>>)
    requires IsRecording(ss, evs) && n <= |evs|
    ensures |rs| == |ss[n].tracks|
  {
    if n == 0 then seq(|ss[0].tracks|, _ => None) else Recorded(ss[n - 1], evs[n - 1], Records(ss, evs, n - 1))
  }

  lemma {:induction false} RunKeepsPlaces(ss: seq<State>, evs: seq<Event>, n: nat)
    requires IsRecording(ss, evs) && n <= |evs|
    ensures AllPlaced(ss[n], Records(ss, evs, n))
  {
    hide Next, Recorded, IsPlaced;
    if n == 0 {
      NothingPlaced(ss[0], Records(ss, evs, 0));
    } else {
      RunKeepsPlaces(ss, evs, n - 1);
      StepKeepsPlaces(ss[n - 1], Records(ss, evs, n - 1), evs[n - 1]);
    }
  }

  lemma NothingPlaced(s: State, rs: seq<Option<Arrival>>)
    requires Clocks(s) && s == AfterClose(s) && |rs| == |s.tracks| && forall k :: 0 <= k < |rs| ==> rs[k] == None
    ensures AllPlaced(s, rs)
  {
    assert forall k :: 0 <= k < |s.tracks| ==> s.tracks[k].origin == AfterClose(s).tracks[k].origin == None;
  }

  /** Timestamp p.ts is as much longer after the origin of track a than q.ts is after that of b, as p.now is later than
      q.now; slack is in units of 1/(a.hz * b.hz) times a nanosecond. */
  ghost predicate Spaced(a: TrackState, p: Arrival, b: TrackState, q: Arrival, slack: int) {
    a.origin.Some? && b.origin.Some? && exists y, z :: SpacedBy(a, p, b, q, y, z, slack)
  }

  ghost predicate SpacedBy(a: TrackState, p: Arrival, b: TrackState, q: Arrival, y: int, z: int, slack: int)
    requires a.origin.Some? && b.origin.Some?
  {
    && After(p.ts, a.origin.value, y) && After(q.ts, b.origin.value, z)
    && -slack < y * SECOND * b.hz - z * SECOND * a.hz - (p.now - q.now) * a.hz * b.hz < slack
  }

  lemma PlacedAreSpaced(a: TrackState, p: Arrival, b: TrackState, q: Arrival, local: int, s1: int, s2: int)
    requires Clock(a.hz) && Clock(b.hz) && a.origin.Some? && b.origin.Some?
    requires Placed(p.ts, p.now, a.origin.value, local, a.hz, s1) && Placed(q.ts, q.now, b.origin.value, local, b.hz, s2)
    ensures Spaced(a, p, b, q, s1 * b.hz + s2 * a.hz)
  {
    hide After;
    var y :| After(p.ts, a.origin.value, y) && Close(y, p.now - local, a.hz, s1);
    var z :| After(q.ts, b.origin.value, z) && Close(z, q.now - local, b.hz, s2);
    var e, f := y * SECOND - (p.now - local) * a.hz, z * SECOND - (q.now - local) * b.hz;
    Scale(e, s1, b.hz);
    Scale(f, s2, a.hz);
    Regroup(y * SECOND, p.now - local, a.hz, z * SECOND, q.now - local, b.hz);
    assert SpacedBy(a, p, b, q, y, z, s1 * b.hz + s2 * a.hz);
  }

  lemma Regroup(y: int, m: int, h: int, z: int, n: int, k: int)
    ensures (y - m * h) * k - (z - n * k) * h == y * k - z * h - (m - n) * h * k
  {
    assert (y - m * h) * k == y * k - m * h * k;
    assert (z - n * k) * h == z * h - n * k * h;
    assert n * k * h == n * h * k;
    assert (m - n) * h * k == m * h * k - n * h * k;
  }

  /** In every run, of any two tracks whose origins were set by local time: the distances of their first packets from
      their origins differ by the difference of the arrival times, to a tick each, and a tick more for every adjustment
      since. */
  lemma OriginsAreSpaced(ss: seq<State>, evs: seq<Event>, n: nat, i: nat, j: nat)
    requires IsRecording(ss, evs) && n <= |evs| && i < |ss[n].tracks| && j < |ss[n].tracks|
    requires var rs := Records(ss, evs, n); rs[i].Some? && rs[j].Some?
    ensures var a, b, p, q := ss[n].tracks[i], ss[n].tracks[j], Records(ss, evs, n)[i].value, Records(ss, evs, n)[j].value;
            Spaced(a, p, b, q, (p.moves + 1) * SECOND * b.hz + (q.moves + 1) * SECOND * a.hz)
  {
    hide Next, Recorded, Records, Placed, Spaced;
    RunKeepsPlaces(ss, evs, n);
    var rs := Records(ss, evs, n);
    assert IsPlaced(ss[n], i, rs[i]) && IsPlaced(ss[n], j, rs[j]);
    var p, q := rs[i].value, rs[j].value;
    PlacedAreSpaced(ss[n].tracks[i], p, ss[n].tracks[j], q, ss[n].originLocal.value,
                    (p.moves + 1) * SECOND, (q.moves + 1) * SECOND);
  }

  // ---------------------------------------------------------------- without reports

  ghost predicate NoneReported(s: State, rs: seq<Option<Arrival>>)
    requires |rs| == |s.tracks|
  {
    && s.originRemote == 0
    && forall k :: 0 <= k < |rs| ==> s.tracks[k].remoteNTP == 0 && (s.tracks[k].origin.Some? ==> rs[k].Some?)
  }

  /** In a run without reports, these are all the tracks that have an origin. */
  lemma {:induction false} WithoutReportsAllAreRecorded(ss: seq<State>, evs: seq<Event>, n: nat)
    requires IsRecording(ss, evs) && n <= |evs|
    requires forall k :: 0 <= k < |ss[0].tracks| ==> ss[0].tracks[k].remoteNTP == 0
    requires forall i :: 0 <= i < |evs| ==> !evs[i].Reported?
    ensures NoneReported(ss[n], Records(ss, evs, n))
  {
    hide Next, Recorded;
    if n == 0 {
      NothingPlaced(ss[0], Records(ss, evs, 0));
    } else {
      WithoutReportsAllAreRecorded(ss, evs, n - 1);
      StepReportsNone(ss[n - 1], Records(ss, evs, n - 1), evs[n - 1]);
    }
  }

  lemma StepReportsNone(s: State, rs: seq<Option<Arrival>>, ev: Event)
    requires Enabled(s, ev) && |rs| == |s.tracks| && NoneReported(s, rs) && !ev.Reported?
    ensures NoneReported(Next(s, ev), Recorded(s, ev, rs))
  {
    hide NTPToTime, TimeToNTP, Elapsed, Units, Wrap32;
  }

  /** A 90 kHz track that starts 3 s into a recording has an origin 3 s before its first packet. */
  lemma ThreeSecondsLate()
    ensures AfterPacket(State(Some(0), 0, [TrackState(90000, None, 0, 0)]), 0, 270000, 3 * SECOND).tracks[0].origin == Some(0)
  {
  }

  // ---------------------------------------------------------------- which tracks have an origin and a report

  /** The last report of track i: its remote time, and its timestamp. */
  function LastReport(evs: seq<Event>, i: nat, start: (U64, U32)): (U64, U32) {
    if evs == [] then start
    else
      var ev := evs[|evs| - 1];
      if ev.Reported? && ev.i == i then (ev.ntp, ev.rtp) else LastReport(evs[..|evs| - 1], i, start)
  }

  /** A packet of track i arrived since the recording was last closed. */
  predicate Begun(evs: seq<Event>, i: nat) {
    if evs == [] then false
    else
      var ev := evs[|evs| - 1];
      if ev.Closed? then false else (ev.FirstPacket? && ev.i == i) || Begun(evs[..|evs| - 1], i)
  }

  function InitialReport(s: State, i: nat): (U64, U32) {
    if i < |s.tracks| then (s.tracks[i].remoteNTP, s.tracks[i].remoteRTP) else (0, 0)
  }

  ghost predicate Remembered(s: State, i: nat, report: (U64, U32), begun: bool) {
    i < |s.tracks| ==>
      var t := s.tracks[i];
      (t.remoteNTP, t.remoteRTP) == report && (t.origin.Some? <==> begun)
  }

  /** In every run each track has the last report that it was sent, closed recordings included, and an origin exactly if
      a packet of it arrived since the recording was last closed. */
  lemma {:induction false} WhatTracksRemember(ss: seq<State>, evs: seq<Event>, n: nat, i: nat)
    requires IsRecording(ss, evs) && n <= |evs|
    ensures Remembered(ss[n], i, LastReport(evs[..n], i, InitialReport(ss[0], i)), Begun(evs[..n], i))
    ensures i >= |ss[n].tracks| ==> LastReport(evs[..n], i, InitialReport(ss[0], i)) == (0, 0) && !Begun(evs[..n], i)
  {
    hide Next, InTime;
    if n == 0 {
      NothingPlaced(ss[0], seq(|ss[0].tracks|, _ => None));
    } else {
      WhatTracksRemember(ss, evs, n - 1, i);
      assert evs[..n][..n - 1] == evs[..n - 1] && evs[..n][n - 1] == evs[n - 1];
      StepRemembers(ss[n - 1], evs[n - 1], i);
    }
  }

  /** What one event changes of it. */
  lemma StepRemembers(s: State, ev: Event, i: nat)
    requires Enabled(s, ev)
    ensures var s' := Next(s, ev);
            && |s.tracks| <= |s'.tracks|
            && (i < |s'.tracks| ==>
                  var t', report := s'.tracks[i], InitialReport(s, i);
                  && (t'.remoteNTP, t'.remoteRTP) == (if ev.Reported? && ev.i == i then (ev.ntp, ev.rtp) else report)
                  && (t'.origin.Some? <==>
                        !ev.Closed? && ((ev.FirstPacket? && ev.i == i) || (i < |s.tracks| && s.tracks[i].origin.Some?))))
  {
    hide NTPToTime, TimeToNTP, Elapsed, Units, Wrap32;
  }
}

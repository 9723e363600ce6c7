/** Keeping the tracks of a recording aligned: each track has an origin in its
    own clock, and the recording one in local and one in remote time. */
module LipSync {
  import opened Basics
  import opened Division
  import opened RtpTime

  function Wrap32(x: int): U32 {
    x % TWO_32
  }

  /** The signed reading of a 32-bit difference. */
  function Int32(x: int): (r: int)
    ensures -0x8000_0000 <= r < 0x8000_0000
    ensures Wrap32(r) == Wrap32(x)
  {
    var u := Wrap32(x);
    if u < 0x8000_0000 then u else u - TWO_32
  }

  predicate Clock(hz: U32) {
    1 <= hz <= SECOND
  }

  /** The time between two timestamps of a clock, at most 2^31 units. */
  function Elapsed(a: U32, b: U32, hz: U32): (d: int)
    requires Clock(hz)
    ensures -0x8000_0000 * SECOND <= d <= 0x8000_0000 * SECOND
    ensures ToDuration(Int32(a - b), hz) == Value(d)
    ensures var x := Int32(a - b);
            if x >= 0 then d >= 0 && d * hz <= x * SECOND < d * hz + hz
            else d <= 0 && d * hz - hz < x * SECOND <= d * hz
  {
    var x := Int32(a - b);
    ElapsedFacts(x, hz);
    Towards0(x * SECOND, hz)
  }

  lemma ElapsedFacts(x: int, hz: U32)
    requires Clock(hz) && -0x8000_0000 <= x < 0x8000_0000
    ensures ToDuration(x, hz) == Value(Towards0(x * SECOND, hz))
    ensures var d := Towards0(x * SECOND, hz);
            && -0x8000_0000 * SECOND <= d <= 0x8000_0000 * SECOND
            && (x >= 0 ==> d >= 0 && d * hz <= x * SECOND < d * hz + hz)
            && (x < 0 ==> d <= 0 && d * hz - hz < x * SECOND <= d * hz)
  {
    ToDurationMeaning(x, hz);
    var d := Towards0(x * SECOND, hz);
    Towards0Error(x * SECOND, hz);
    assert d * hz == hz * d;
    Shrinks(x * SECOND, hz);
  }

  lemma Shrinks(x: int, d: nat)
    requires d >= 1
    ensures x >= 0 ==> 0 <= Towards0(x, d) <= x
    ensures x <= 0 ==> x <= Towards0(x, d) <= 0
  {
    Towards0Error(x, d);
    var q := Towards0(x, d);
    if q > 0 {
      MulOrder(q, 1, d);
      assert q * d == d * q;
    } else if q < 0 {
      MulOrder(-q, 1, d);
      NegateProduct(q, d);
      assert q * d == d * q;
    }
  }

  /** A duration in units of a clock. */
  function Units(d: Int64, hz: U32): (n: int)
    requires Clock(hz)
    ensures FromDuration(d, hz) == Value(n)
    ensures d > -TWO_63 ==>
              if d >= 0 then n >= 0 && n * SECOND <= d * hz < n * SECOND + SECOND
              else n <= 0 && n * SECOND - SECOND < d * hz <= n * SECOND
  {
    UnitsFacts(d, hz);
    Towards0(Clamp(d) * hz, SECOND)
  }

  lemma UnitsFacts(d: Int64, hz: U32)
    requires Clock(hz)
    ensures FromDuration(d, hz) == Value(Towards0(Clamp(d) * hz, SECOND))
    ensures var n := Towards0(Clamp(d) * hz, SECOND);
            && (d >= 0 ==> n >= 0 && n * SECOND <= Clamp(d) * hz < n * SECOND + SECOND)
            && (d <= 0 ==> n <= 0 && n * SECOND - SECOND < Clamp(d) * hz <= n * SECOND)
  {
    FromDurationMeaning(d, hz);
    var c := Clamp(d);
    Towards0Error(c * hz, SECOND);
    if c >= 0 {
      MulNonNegative(c, hz);
    } else {
      MulNonNegative(-c, hz);
      NegateProduct(c, hz);
    }
  }

  // ---------------------------------------------------------------- the recording, as a value

  /** A track; remoteNTP is 0 when no sender report was received. */
  datatype TrackState = TrackState(hz: U32, origin: Option<U32>, remoteNTP: U64, remoteRTP: U32)

  /** A recording; originRemote is 0 when not known. */
  datatype State = State(originLocal: Option<int>, originRemote: U64, tracks: seq<TrackState>)

  predicate Clocks(s: State) {
    forall i :: 0 <= i < |s.tracks| ==> Clock(s.tracks[i].hz)
  }

  /** The remote time of timestamp ts, according to the last sender report. */
  function RemoteTime(t: TrackState, ts: U32): int
    requires Clock(t.hz)
  {
    NTPToTime(t.remoteNTP) + Elapsed(ts, t.remoteRTP, t.hz)
  }

  /** What negating a duration gives. */
  function Negated(d: Int64): Int64 {
    if d == -TWO_63 then d else -d
  }

  /** A sender report: remote time ntp is timestamp rtp of track i. The first for a track with an origin fixes the
      remote origin, later ones move the track's origin to it. */
  function AfterReport(s: State, i: nat, ntp: U64, rtp: U32): State
    requires i < |s.tracks| && Clocks(s)
  {
    var t := s.tracks[i];
    if t.origin == None then s.(tracks := s.tracks[i := t.(remoteNTP := ntp, remoteRTP := rtp)])
    else
      var local := Elapsed(rtp, t.origin.value, t.hz);
      if s.originRemote == 0 then
        State(s.originLocal, TimeToNTP(NTPToTime(ntp) - local), s.tracks[i := t.(remoteNTP := ntp, remoteRTP := rtp)])
      else
        NTPRoundTripBack(ntp);
        NTPRoundTripBack(s.originRemote);
        var remote := Sub(NTPToTime(ntp), NTPToTime(s.originRemote));
        var origin := Wrap32(t.origin.value - Units(remote - local, t.hz));
        s.(tracks := s.tracks[i := TrackState(t.hz, Some(origin), ntp, rtp)])
  }

  /** The first packet of track i, with timestamp ts, arrives at local time now. The first track fixes the origins of
      the recording; later ones are aligned in remote time if that is known, and in local time otherwise. */
  function AfterPacket(s: State, i: nat, ts: U32, now: int): State
    requires i < |s.tracks| && Clocks(s)
  {
    var t := s.tracks[i];
    if s.originLocal == None then
      State(Some(now), if t.remoteNTP != 0 then TimeToNTP(RemoteTime(t, ts)) else 0, s.tracks[i := t.(origin := Some(ts))])
    else if s.originRemote != 0 && t.remoteNTP != 0 then
      var delta := Units(Sub(RemoteTime(t, ts), NTPToTime(s.originRemote)), t.hz);
      s.(tracks := s.tracks[i := t.(origin := Some(Wrap32(ts - delta)))])
    else
      var d := Sub(now, s.originLocal.value);
      State(s.originLocal,
            if t.remoteNTP != 0 then TimeToNTP(RemoteTime(t, ts) + Negated(d)) else s.originRemote,
            s.tracks[i := t.(origin := Some(Wrap32(ts - Units(d, t.hz))))])
  }

  /** The origin of track i is to move. */
  predicate Moves(s: State, i: nat, ts: U32)
    requires i < |s.tracks|
  {
    s.tracks[i].origin != None && s.tracks[i].origin.value != ts
  }

  function Offset(s: State, i: nat, ts: U32): (d: Int64)
    requires i < |s.tracks| && Clocks(s) && Moves(s, i, ts)
  {
    Elapsed(ts, s.tracks[i].origin.value, s.tracks[i].hz)
  }

  /** A track's origin moved by a time. */
  function Moved(t: TrackState, offset: Int64): TrackState
    requires Clock(t.hz)
  {
    if t.origin == None then t else t.(origin := Some(Wrap32(t.origin.value + Units(offset, t.hz))))
  }

  /** All origins move by the same time, towards timestamp ts for that of track i. */
  function AfterAdjust(s: State, i: nat, ts: U32): State
    requires i < |s.tracks| && Clocks(s)
  {
    if !Moves(s, i, ts) then s
    else
      var offset := Offset(s, i, ts);
      State(if s.originLocal == None then None else Some(s.originLocal.value + offset),
            if s.originRemote == 0 then 0 else TimeToNTP(NTPToTime(s.originRemote) + offset),
            seq(|s.tracks|, k requires 0 <= k < |s.tracks| => Moved(s.tracks[k], offset)))
  }

  /** A track is added; it has no origin yet. */
  function AfterAdd(s: State, hz: U32): State {
    s.(tracks := s.tracks + [TrackState(hz, None, 0, 0)])
  }

  /** The recording is closed, and may begin again. */
  function AfterClose(s: State): State {
    State(None, 0, seq(|s.tracks|, k requires 0 <= k < |s.tracks| => s.tracks[k].(origin := None)))
  }

  // ---------------------------------------------------------------- the recording, as objects

  class Conn {
    var originLocal: Option<int>
    var originRemote: U64
    var tracks: seq<Track>

    /** The tracks are distinct, and have proper clocks. */
    ghost predicate Valid()
      reads this
    {
      && (forall i, j :: 0 <= i < j < |tracks| ==> tracks[i] != tracks[j])
      && (forall t :: t in tracks ==> Clock(t.hz) && t.conn == this)
    }

    ghost function View(): (s: State)
      reads this, tracks
      requires Valid()
      ensures Clocks(s) && |s.tracks| == |tracks|
    {
      State(originLocal, originRemote, Views(tracks))
    }

    constructor ()
      ensures Valid() && View() == State(None, 0, [])
    {
      originLocal, originRemote, tracks := None, 0, [];
    }

    method AddTrack(hz: U32) returns (t: Track)
      requires Valid() && Clock(hz)
      modifies this`tracks
      ensures Valid() && fresh(t) && tracks == old(tracks) + [t]
      ensures View() == AfterAdd(old(View()), hz)
    {
      t := new Track(this, hz);
      ghost var views := Views(tracks);
      tracks := tracks + [t];
      assert Views(tracks) == views + [t.View()];
    }

    /** Moves the origins of all tracks that have one. */
    method MoveAll(offset: Int64)
      requires Valid()
      modifies tracks
      ensures forall k :: 0 <= k < |tracks| ==> tracks[k].View() == Moved(old(tracks[k].View()), offset)
    {
      hide Units, Wrap32;
      var k := 0;
      while k < |tracks|
        invariant 0 <= k <= |tracks|
        invariant forall j :: 0 <= j < |tracks| ==>
                    tracks[j].View() == if j < k then Moved(old(tracks[j].View()), offset) else old(tracks[j].View())
      {
        var tt := tracks[k];
        if tt.origin.Some? {
          tt.origin := Some(Wrap32(tt.origin.value + Units(offset, tt.hz)));
        }
        k := k + 1;
      }
    }

    method Close()
      requires Valid()
      modifies this, tracks
      ensures Valid() && tracks == old(tracks) && View() == AfterClose(old(View()))
    {
      originLocal := None;
      originRemote := 0;
      var i := 0;
      while i < |tracks|
        invariant 0 <= i <= |tracks| && tracks == old(tracks) && originLocal == None && originRemote == 0
        invariant forall k :: 0 <= k < |tracks| ==>
                    tracks[k].View() == if k < i then old(tracks[k].View()).(origin := None) else old(tracks[k].View())
      {
        tracks[i].origin := None;
        i := i + 1;
      }
      assert View() == AfterClose(old(View()));
    }
  }

  ghost function Views(ts: seq<Track>): (vs: seq<TrackState>)
    reads ts
    ensures |vs| == |ts| && forall i :: 0 <= i < |ts| ==> vs[i] == ts[i].View()
  {
    if ts == [] then [] else Views(ts[..|ts| - 1]) + [ts[|ts| - 1].View()]
  }

  class Track {
    const conn: Conn
    const hz: U32
    var origin: Option<U32>
    var remoteNTP: U64
    var remoteRTP: U32

    ghost function View(): TrackState
      reads this
    {
      TrackState(hz, origin, remoteNTP, remoteRTP)
    }

    constructor (conn: Conn, hz: U32)
      ensures this.conn == conn && View() == TrackState(hz, None, 0, 0)
    {
      this.conn := conn;
      this.hz := hz;
      origin, remoteNTP, remoteRTP := None, 0, 0;
    }

    /** This is track i of its recording. */
    ghost predicate IsAt(i: nat)
      reads conn
    {
      conn.Valid() && i < |conn.tracks| && conn.tracks[i] == this
    }

    method SetTimeOffset(ghost i: nat, ntp: U64, rtp: U32)
      requires IsAt(i)
      modifies this, conn`originRemote
      ensures IsAt(i) && conn.View() == AfterReport(old(conn.View()), i, ntp, rtp)
    {
      hide NTPToTime, TimeToNTP, Elapsed, Units, Int32, Wrap32, Views, Sub, Negated;
      ghost var before := conn.View();
      if origin.Some? {
        var local := Elapsed(rtp, origin.value, hz);
        if conn.originRemote == 0 {
          conn.originRemote := TimeToNTP(NTPToTime(ntp) - local);
        } else {
          NTPRoundTripBack(ntp);
          NTPRoundTripBack(conn.originRemote);
          var remote := Sub(NTPToTime(ntp), NTPToTime(conn.originRemote));
          var delta := Units(remote - local, hz);
          origin := Some(Wrap32(origin.value - delta));
        }
      }
      remoteNTP := ntp;
      remoteRTP := rtp;
      assert conn.View().tracks == before.tracks[i := View()];
    }

    method SetOrigin(ghost i: nat, ts: U32, now: int)
      requires IsAt(i)
      modifies this`origin, conn`originLocal, conn`originRemote
      ensures IsAt(i) && conn.View() == AfterPacket(old(conn.View()), i, ts, now)
    {
      hide NTPToTime, TimeToNTP, Elapsed, Units, Int32, Wrap32, Views, Sub, Negated;
      ghost var before := conn.View();
      if conn.originLocal == None {
        origin := Some(ts);
        conn.originLocal := Some(now);
        if remoteNTP != 0 {
          var remote := NTPToTime(remoteNTP) + Elapsed(ts, remoteRTP, hz);
          conn.originRemote := TimeToNTP(remote);
        } else {
          conn.originRemote := 0;
        }
      } else if conn.originRemote != 0 && remoteNTP != 0 {
        var remote := NTPToTime(remoteNTP) + Elapsed(ts, remoteRTP, hz);
        var delta := Units(Sub(remote, NTPToTime(conn.originRemote)), hz);
        origin := Some(Wrap32(ts - delta));
      } else {
        var d := Sub(now, conn.originLocal.value);
        var delta := Units(d, hz);
        origin := Some(Wrap32(ts - delta));
        if remoteNTP != 0 {
          var remote := NTPToTime(remoteNTP) + Elapsed(ts, remoteRTP, hz);
          conn.originRemote := TimeToNTP(remote + Negated(d));
        }
      }
      assert conn.View().tracks == before.tracks[i := View()];
    }

    method AdjustOrigin(ghost i: nat, ts: U32)
      requires IsAt(i)
      modifies conn`originLocal, conn`originRemote, conn.tracks
      ensures IsAt(i) && conn.tracks == old(conn.tracks)
      ensures conn.View() == AfterAdjust(old(conn.View()), i, ts)
    {
      hide NTPToTime, TimeToNTP, Elapsed, Units, Int32, Wrap32, Views, Sub, Negated;
      ghost var before := conn.View();
      if origin == None || origin.value == ts {
        return;
      }
      var offset := Elapsed(ts, origin.value, hz);

      if conn.originLocal != None {
        conn.originLocal := Some(conn.originLocal.value + offset);
      }
      if conn.originRemote != 0 {
        conn.originRemote := TimeToNTP(NTPToTime(conn.originRemote) + offset);
      }

      conn.MoveAll(offset);
      assert conn.View().tracks == AfterAdjust(before, i, ts).tracks;
    }
  }
}

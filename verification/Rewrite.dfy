/** Renumbering a packet in place: marker, sequence number and, for VP8, the
    picture id (section 4.2 of RFC 7741). */
module Rewrite {
  import opened Basics
  import opened Division
  import opened Serial

  type Bytes = seq<Byte>

  const HEADER := 12

  /** Two bytes as a number, high byte first. */
  function Word(hi: Byte, lo: Byte): nat {
    (hi as int) * 256 + lo
  }

  // ---------------------------------------------------------------- where the picture id is

  /** Where it is, if the packet is long enough to tell; OutOfRange if looking for it reads past the end. */
  datatype Place = OutOfRange | Truncated | Absent | PictureId(at: nat, long: bool)

  datatype Result = Done | Failed | Panics

  /** The X bit and the length of the contributing sources, in the first byte of the header. */
  predicate XBit(b: Byte) {
    b / 16 % 2 == 1
  }

  function SourcesLength(b: Byte): nat {
    b % 16 * 4
  }

  predicate HasExtension(d: Bytes)
    requires |d| >= HEADER
  {
    XBit(d[0])
  }

  /** Offset of what follows the contributing sources. */
  function AfterSources(d: Bytes): nat
    requires |d| >= HEADER
  {
    HEADER + SourcesLength(d[0])
  }

  /** Offset of the payload. */
  function Payload(d: Bytes): nat
    requires |d| >= HEADER && AfterSources(d) < |d| && (HasExtension(d) ==> AfterSources(d) + 4 <= |d|)
  {
    var offset := AfterSources(d);
    if HasExtension(d) then offset + 4 + Word(d[offset + 2], d[offset + 3]) * 4 else offset
  }

  /** The length of an extension header is read without a check that it is there. */
  function Locate(d: Bytes, vp8: bool): Place
    requires |d| >= HEADER
  {
    if |d| <= AfterSources(d) then Truncated
    else if HasExtension(d) && |d| < AfterSources(d) + 4 then OutOfRange
    else if HasExtension(d) && |d| < Payload(d) + 4 then Truncated
    else if !vp8 then Absent
    else LocateVP8(d, Payload(d))
  }

  /** The VP8 payload descriptor: a picture id is there if bits X and I are set, and has 15 bits if M is. */
  function LocateVP8(d: Bytes, o: nat): Place
    requires o < |d|
  {
    if d[o] < 128 then Absent
    else if |d| <= o + 1 then Truncated
    else if d[o + 1] < 128 then Absent
    else if |d| <= o + 2 then Truncated
    else if d[o + 2] < 128 then PictureId(o + 2, false)
    else if |d| <= o + 3 then Truncated
    else PictureId(o + 2, true)
  }

  // ---------------------------------------------------------------- rewriting

  predicate Contains(d: Bytes, p: Place) {
    p.PictureId? ==>
      && HEADER + 2 <= p.at && p.at + (if p.long then 1 else 0) < |d|
      && (d[p.at] >= 128 <==> p.long)
  }

  /** The value of the picture id, of 15 or 7 bits. */
  function Pid(d: Bytes, p: Place): nat
    requires p.PictureId? && Contains(d, p)
  {
    if p.long then Word(d[p.at] - 128, d[p.at + 1]) else d[p.at]
  }

  function PidModulus(p: Place): nat
    requires p.PictureId?
  {
    if p.long then 0x8000 else 0x80
  }

  function SetPid(d: Bytes, p: Place, pid: nat): Bytes
    requires p.PictureId? && Contains(d, p) && pid < PidModulus(p)
  {
    if p.long then d[p.at := 128 + pid / 256][p.at + 1 := pid % 256] else d[p.at := pid]
  }

  function SetHeader(d: Bytes, setMarker: bool, seqno: U16): Bytes
    requires |d| >= HEADER
  {
    d[1 := if setMarker && d[1] < 128 then d[1] + 128 else d[1]][2 := seqno / 256][3 := seqno % 256]
  }

  /** What a packet becomes, and whether all of the rewriting could be done. */
  function Rewritten(d: Bytes, vp8: bool, setMarker: bool, seqno: U16, delta: U16): (Bytes, Result) {
    if |d| < HEADER then (d, Failed)
    else
      var h := SetHeader(d, setMarker, seqno);
      if delta == 0 then (h, Done)
      else
        PlaceIsContained(h, vp8);
        var p := Locate(h, vp8);
        match p
        case OutOfRange => (h, Panics)
        case Truncated => (h, Failed)
        case Absent => (h, Done)
        case PictureId(_, _) => (SetPid(h, p, (Pid(h, p) + delta) % PidModulus(p)), Done)
  }

  lemma HeaderKeepsPlace(d: Bytes, vp8: bool, setMarker: bool, seqno: U16)
    requires |d| >= HEADER
    ensures var h := SetHeader(d, setMarker, seqno);
            |h| == |d| && Locate(h, vp8) == Locate(d, vp8)
            && h[0] == d[0] && forall i :: 4 <= i < |d| ==> h[i] == d[i]
  {
    hide XBit, SourcesLength, Word;
    var h := SetHeader(d, setMarker, seqno);
    SetHeaderKeeps(d, setMarker, seqno);
    if |d| > AfterSources(d) && (HasExtension(d) ==> AfterSources(d) + 4 <= |d|) {
      assert Payload(h) == Payload(d);
    }
  }

  lemma SetHeaderKeeps(d: Bytes, setMarker: bool, seqno: U16)
    requires |d| >= HEADER
    ensures var h := SetHeader(d, setMarker, seqno);
            |h| == |d| && h[0] == d[0] && forall i :: 4 <= i < |d| ==> h[i] == d[i]
  {
  }

  lemma PlaceIsContained(d: Bytes, vp8: bool)
    requires |d| >= HEADER
    ensures Contains(d, Locate(d, vp8))
  {
  }

  /** The picture id is two bytes into the payload. */
  lemma PlaceIsInPayload(d: Bytes, vp8: bool)
    requires |d| >= HEADER && Locate(d, vp8).PictureId?
    ensures vp8 && AfterSources(d) < |d| && (HasExtension(d) ==> AfterSources(d) + 4 <= |d|)
    ensures Payload(d) >= AfterSources(d) + (if HasExtension(d) then 4 else 0)
    ensures Locate(d, vp8).at == Payload(d) + 2 < |d| && LocateVP8(d, Payload(d)) == Locate(d, vp8)
    ensures HasExtension(d) ==> |d| >= Payload(d) + 4
  {
  }

  /** The place depends on nothing but the header and the bytes before it. */
  lemma PlaceIsStable(d: Bytes, e: Bytes, vp8: bool)
    requires |d| >= HEADER && Locate(d, vp8).PictureId?
    requires |e| == |d| && forall i :: 0 <= i < Locate(d, vp8).at ==> e[i] == d[i]
    requires e[Locate(d, vp8).at] >= 128 <==> d[Locate(d, vp8).at] >= 128
    ensures Locate(e, vp8) == Locate(d, vp8)
  {
    hide Locate, LocateVP8;
    PlaceIsInPayload(d, vp8);
    var o := Payload(d);
    assert AfterSources(e) == AfterSources(d) && Payload(e) == o;
    PlaceFound(d, e, vp8);
  }

  lemma PlaceFound(d: Bytes, e: Bytes, vp8: bool)
    requires |d| == |e| >= HEADER && Locate(d, vp8).PictureId?
    requires AfterSources(e) == AfterSources(d) < |d| && HasExtension(e) == HasExtension(d)
    requires HasExtension(d) ==> AfterSources(d) + 4 <= |d|
    requires Payload(e) == Payload(d) && Locate(d, vp8).at == Payload(d) + 2 < |d|
    requires e[Payload(d)] == d[Payload(d)] && e[Payload(d) + 1] == d[Payload(d) + 1]
    requires e[Payload(d) + 2] >= 128 <==> d[Payload(d) + 2] >= 128
    ensures Locate(e, vp8) == Locate(d, vp8)
  {
    hide Payload, AfterSources, HasExtension;
  }

  /** Writing a picture id over another changes no other byte. */
  lemma SetPidMeaning(d: Bytes, p: Place, pid: nat)
    requires p.PictureId? && Contains(d, p) && pid < PidModulus(p)
    ensures var e := SetPid(d, p, pid);
            && |e| == |d| && Contains(e, p) && Pid(e, p) == pid
            && (e[p.at] >= 128 <==> d[p.at] >= 128)
            && (forall i :: 0 <= i < |d| && i != p.at && !(p.long && i == p.at + 1) ==> e[i] == d[i])
  {
    DivMod(pid, 256);
  }

  /** Changing the picture id moves nothing. */
  lemma SetPidKeepsPlace(d: Bytes, vp8: bool, pid: nat)
    requires |d| >= HEADER && Locate(d, vp8).PictureId?
    requires Contains(d, Locate(d, vp8)) && pid < PidModulus(Locate(d, vp8))
    ensures var e := SetPid(d, Locate(d, vp8), pid); |e| == |d| && Locate(e, vp8) == Locate(d, vp8)
  {
    hide Locate, SetPid, Pid;
    SetPidMeaning(d, Locate(d, vp8), pid);
    PlaceIsStable(d, SetPid(d, Locate(d, vp8), pid), vp8);
  }

  method RewritePacket(vp8: bool, data: array<Byte>, setMarker: bool, seqno: U16, delta: U16) returns (r: Result)
    modifies data
    ensures (data[..], r) == Rewritten(old(data[..]), vp8, setMarker, seqno, delta)
  {
    hide LocateVP8, SetPid, Pid, XBit, SourcesLength, Word, W;
    ghost var d := data[..];
    if data.Length < 12 {
      return Failed;
    }
    if setMarker && data[1] < 128 {
      data[1] := data[1] + 128;
    }
    data[2] := seqno / 256;
    data[3] := seqno % 256;
    ghost var h := SetHeader(d, setMarker, seqno);
    assert data[..] == h;
    if delta == 0 {
      return Done;
    }
    PlaceIsContained(h, vp8);

    var offset := 12;
    offset := offset + SourcesLength(data[0]);
    if data.Length <= offset {
      return Failed;
    }
    if XBit(data[0]) {
      if data.Length < offset + 4 {
        return Panics;
      }
      var length := Word(data[offset + 2], data[offset + 3]);
      offset := offset + 4 + length * 4;
      if data.Length < offset + 4 {
        return Failed;
      }
    }
    assert offset == Payload(h);

    if vp8 {
      var ok := RewriteVP8(data, offset, delta);
      return if ok then Done else Failed;
    }
    return Done;
  }

  /** The picture id of the payload at offset moves by delta. */
  method RewriteVP8(data: array<Byte>, offset0: nat, delta: U16) returns (ok: bool)
    requires HEADER <= offset0 < data.Length
    modifies data
    ensures var h, p := old(data[..]), LocateVP8(old(data[..]), offset0);
            && ok == !p.Truncated? && !p.OutOfRange?
            && Contains(h, p)
            && data[..] == if p.PictureId? then SetPid(h, p, (Pid(h, p) + delta) % PidModulus(p)) else h
  {
    hide W, Word;
    ghost var h := data[..];
    var offset := offset0;
    var x := data[offset] >= 128;
    if !x {
      return true;
    }
    offset := offset + 1;
    if data.Length <= offset {
      return false;
    }
    var i := data[offset] >= 128;
    if !i {
      return true;
    }
    offset := offset + 1;
    if data.Length <= offset {
      return false;
    }
    var m := data[offset] >= 128;
    if m {
      if data.Length <= offset + 1 {
        return false;
      }
      var pid := Word(data[offset] % 128, data[offset + 1]);
      WrapMod(pid + delta, 0x8000);
      LongPid(data[offset]);
      pid := W(pid + delta) % 0x8000;
      data[offset] := 128 + pid / 256;
      data[offset + 1] := pid % 256;
      assert data[..] == SetPid(h, PictureId(offset, true), pid);
    } else {
      ByteMod(data[offset], delta);
      data[offset] := (data[offset] + delta % 256) % 256 % 128;
      assert data[..] == SetPid(h, PictureId(offset, false), (h[offset] + delta) % 128);
    }
    return true;
  }

  /** Wrapping to 16 bits does not show in the low 15 or 7 bits. */
  lemma WrapMod(x: nat, m: nat)
    requires m == 0x8000 || m == 0x80
    ensures W(x) % m == x % m
  {
    var q := Turns(x);
    ModTurns(W(x), q, m);
  }

  lemma LongPid(hi: Byte)
    requires hi >= 128
    ensures hi % 128 == hi - 128
  {
  }

  lemma ByteMod(b: Byte, delta: U16)
    ensures (b + delta % 256) % 256 % 128 == (b as int + delta) % 128
  {
  }

  // ---------------------------------------------------------------- what rewriting means

  /** Packet e carries the number seqno; its picture id is that of d, moved by delta in its 15 or 7 bits; its marker is
      that of d, or set; and nothing else differs. */
  ghost predicate Shifts(d: Bytes, e: Bytes, p: Place, setMarker: bool, seqno: U16, delta: U16) {
    && |e| == |d| >= HEADER
    && Word(e[2], e[3]) == seqno
    && e[1] % 128 == d[1] % 128 && (e[1] >= 128 <==> setMarker || d[1] >= 128)
    && Contains(d, p) && Contains(e, p)
    && (p.PictureId? ==> Pid(e, p) == (Pid(d, p) + delta) % PidModulus(p))
    && (forall i :: 0 <= i < |d| && !(1 <= i <= 3) && !(p.PictureId? && (i == p.at || (p.long && i == p.at + 1)))
          ==> e[i] == d[i])
  }

  /** The rewritten packet carries the new number; its picture id, if it has one,
      moved by delta in its 15 or 7 bits; and nothing else changed but the marker. */
  lemma RewrittenMeaning(d: Bytes, vp8: bool, setMarker: bool, seqno: U16, delta: U16)
    requires |d| >= HEADER && Rewritten(d, vp8, setMarker, seqno, delta).1 == Done
    ensures var e, p := Rewritten(d, vp8, setMarker, seqno, delta).0, Locate(d, vp8);
            Locate(e, vp8) == p && Shifts(d, e, p, setMarker, seqno, delta)
  {
    hide Locate, SetPid, Pid;
    var h, p := SetHeader(d, setMarker, seqno), Locate(d, vp8);
    HeaderKeepsPlace(d, vp8, setMarker, seqno);
    PlaceIsContained(d, vp8);
    HeaderMeaning(d, p, setMarker, seqno);
    if p.PictureId? {
      PidIsSmall(d, p);
      if delta != 0 {
        SetPidMeaning(h, p, (Pid(h, p) + delta) % PidModulus(p));
        SetPidKeepsPlace(h, vp8, (Pid(h, p) + delta) % PidModulus(p));
      }
    }
  }

  /** Rewriting fails on a packet without a whole header, which stays as it was, or when the picture id has to move and
      the packet ends before its place is known; and it panics when the picture id has to move and an extension header
      begins, less than 4 bytes before the end. The number is written all the same. */
  lemma RewritingFails(d: Bytes, vp8: bool, setMarker: bool, seqno: U16, delta: U16)
    ensures var (e, r) := Rewritten(d, vp8, setMarker, seqno, delta);
            && (r == Panics <==> |d| >= HEADER && delta != 0 && HasExtension(d) && AfterSources(d) < |d| < AfterSources(d) + 4)
            && (r == Failed <==> |d| < HEADER || (delta != 0 && Locate(d, vp8).Truncated?))
            && (|d| < HEADER ==> e == d)
            && (r != Done && |d| >= HEADER ==> e == Rewritten(d, vp8, setMarker, seqno, 0).0)
  {
    hide SetPid, Pid, Locate, HasExtension, AfterSources;
    if |d| >= HEADER {
      HeaderKeepsPlace(d, vp8, setMarker, seqno);
      OutOfRangeIff(d, vp8);
    }
  }

  /** A packet of 13 bytes with the extension bit. */
  lemma RewritingCanPanic(vp8: bool, setMarker: bool, seqno: U16, delta: U16, rest: Bytes)
    requires delta != 0 && |rest| == 12
    ensures Rewritten([144] + rest, vp8, setMarker, seqno, delta).1 == Panics
  {
    hide Rewritten, Locate;
    RewritingFails([144] + rest, vp8, setMarker, seqno, delta);
  }

  lemma OutOfRangeIff(d: Bytes, vp8: bool)
    requires |d| >= HEADER
    ensures Locate(d, vp8).OutOfRange? <==> HasExtension(d) && AfterSources(d) < |d| < AfterSources(d) + 4
  {
    hide XBit, SourcesLength, Word;
  }

  lemma HeaderMeaning(d: Bytes, p: Place, setMarker: bool, seqno: U16)
    requires |d| >= HEADER && Contains(d, p)
    ensures var h := SetHeader(d, setMarker, seqno);
            && Contains(h, p) && (p.PictureId? ==> Pid(h, p) == Pid(d, p))
            && Word(h[2], h[3]) == seqno && h[0] == d[0]
            && h[1] % 128 == d[1] % 128 && (h[1] >= 128 <==> setMarker || d[1] >= 128)
  {
  }

  lemma PidIsSmall(d: Bytes, p: Place)
    requires p.PictureId? && Contains(d, p)
    ensures Pid(d, p) < PidModulus(p) && Pid(d, p) % PidModulus(p) == Pid(d, p)
  {
  }

  /** Two packets with the same header, place, picture id and other bytes are the same. */
  lemma SamePacket(d: Bytes, e: Bytes, p: Place)
    requires |d| == |e| && Contains(d, p) && Contains(e, p)
    requires p.PictureId? ==> Pid(d, p) == Pid(e, p)
    requires forall i :: 0 <= i < |d| && !(p.PictureId? && (i == p.at || (p.long && i == p.at + 1))) ==> e[i] == d[i]
    ensures d == e
  {
    if p.PictureId? && p.long {
      assert d[p.at] == e[p.at] && d[p.at + 1] == e[p.at + 1];
    }
  }

  /** Rewriting is a group action: rewriting twice is rewriting once to the
      second number, by the sum of the deltas. */
  lemma RewritingComposes(d: Bytes, vp8: bool, setMarker: bool, s1: U16, d1: U16, s2: U16, d2: U16)
    requires |d| >= HEADER && Rewritten(d, vp8, setMarker, s1, d1).1 == Done
    ensures var e := Rewritten(d, vp8, setMarker, s1, d1).0;
            Rewritten(e, vp8, setMarker, s2, d2).1 == Done ==>
              Rewritten(e, vp8, setMarker, s2, d2) == Rewritten(d, vp8, setMarker, s2, W(d1 + d2))
  {
    hide Locate, Shifts, Rewritten, W;
    var e := Rewritten(d, vp8, setMarker, s1, d1).0;
    RewrittenMeaning(d, vp8, setMarker, s1, d1);
    ShiftsLength(d, e, Locate(d, vp8), setMarker, s1, d1);
    if Rewritten(e, vp8, setMarker, s2, d2).1 == Done {
      RewrittenMeaning(e, vp8, setMarker, s2, d2);
      SumSucceeds(d, vp8, setMarker, s1, d1, s2, d2);
      RewrittenMeaning(d, vp8, setMarker, s2, W(d1 + d2));
      ShiftsCompose(d, e, Rewritten(e, vp8, setMarker, s2, d2).0, Rewritten(d, vp8, setMarker, s2, W(d1 + d2)).0,
                    Locate(d, vp8), setMarker, s1, d1, s2, d2);
    }
  }

  lemma ShiftsLength(d: Bytes, e: Bytes, p: Place, setMarker: bool, seqno: U16, delta: U16)
    requires Shifts(d, e, p, setMarker, seqno, delta)
    ensures |e| == |d|
  {
  }

  /** Two packets that a first one becomes, by two shifts and by their sum, are the same. */
  lemma ShiftsCompose(d: Bytes, e: Bytes, f: Bytes, g: Bytes, p: Place, setMarker: bool, s1: U16, d1: U16, s2: U16, d2: U16)
    requires Shifts(d, e, p, setMarker, s1, d1) && Shifts(e, f, p, setMarker, s2, d2)
    requires Shifts(d, g, p, setMarker, s2, W(d1 + d2))
    ensures f == g
  {
    hide Contains, Pid, W, Word, PidModulus;
    SameNumber(f, g);
    if p.PictureId? {
      ModulusIs(p);
      SumOfShifts(Pid(d, p), d1, d2, PidModulus(p));
    }
    SamePacket(f, g, p);
  }

  lemma SameNumber(f: Bytes, g: Bytes)
    requires |f| >= 4 && |g| >= 4 && Word(f[2], f[3]) == Word(g[2], g[3])
    ensures f[2] == g[2] && f[3] == g[3]
  {
  }

  lemma ModulusIs(p: Place)
    requires p.PictureId?
    ensures PidModulus(p) == 0x8000 || PidModulus(p) == 0x80
  {
  }

  lemma SumSucceeds(d: Bytes, vp8: bool, setMarker: bool, s1: U16, d1: U16, s2: U16, d2: U16)
    requires |d| >= HEADER && Rewritten(d, vp8, setMarker, s1, d1).1 == Done
    requires var e := Rewritten(d, vp8, setMarker, s1, d1).0;
             |e| == |d| && Locate(e, vp8) == Locate(d, vp8) && Rewritten(e, vp8, setMarker, s2, d2).1 == Done
    ensures Rewritten(d, vp8, setMarker, s2, W(d1 + d2)).1 == Done
  {
    hide Locate;
    HeaderKeepsPlace(d, vp8, setMarker, s1);
    HeaderKeepsPlace(Rewritten(d, vp8, setMarker, s1, d1).0, vp8, setMarker, s2);
    HeaderKeepsPlace(d, vp8, setMarker, s2);
  }

  lemma SumOfShifts(pid: nat, d1: U16, d2: U16, m: nat)
    requires m == 0x8000 || m == 0x80
    ensures ((pid + d1) % m + d2) % m == (pid + W(d1 + d2)) % m
  {
    var q := Turns(d1 + d2);
    ModSum(pid + d1, d2, m);
    ModTurns(pid + W(d1 + d2), q, m);
  }

  lemma ModSum(x: nat, y: nat, m: nat)
    requires m > 0
    ensures (x % m + y) % m == (x + y) % m
  {
    DivMod(x, m);
    DivMod(x % m + y, m);
    assert m * (x / m + (x % m + y) / m) == m * (x / m) + m * ((x % m + y) / m);
    QuotientIs(x + y, m, x / m + (x % m + y) / m);
  }

  lemma ModTurns(x: nat, q: int, m: nat)
    requires m == 0x8000 || m == 0x80
    ensures (x + q * MODULUS) % m == x % m
  {
    DivMod(x, m);
    var k := if m == 0x80 then q * 512 else q * 2;
    assert m * (x / m + k) == m * (x / m) + q * MODULUS;
    QuotientIs(x + q * MODULUS, m, x / m + k);
  }
}

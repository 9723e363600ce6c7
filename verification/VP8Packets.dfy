/** RTP packets built from their parts (sections 5.1 and 5.3.1 of RFC 3550), with a VP8 payload descriptor (section 4.2 of
    RFC 7741), and what rewriting their bytes does to the parts. */
module VP8Packets {
  import opened Basics
  import opened Division
  import opened Serial
  import opened Rewrite

  // ---------------------------------------------------------------- packets

  /** A header extension: the bits that the profile defines, and a number of 32-bit words. */
  datatype Extension = Extension(profile: U16, content: Bytes)

  /** An RTP packet. The version and padding bits, and the timestamp and source, are bytes that do not matter here. */
  datatype Packet = Packet(
    versionAndPadding: nat, marker: bool, payloadType: nat, seqno: U16, timestampAndSource: Bytes,
    contributors: Bytes, extension: Option<Extension>, payload: Bytes)

  predicate Proper(p: Packet) {
    && p.versionAndPadding < 8 && p.payloadType < 128 && |p.timestampAndSource| == 8
    && |p.contributors| % 4 == 0 && |p.contributors| < 64
    && (p.extension.Some? ==>
          |p.extension.value.content| % 4 == 0 && |p.extension.value.content| < 0x4_0000)
  }

  function PrintWord(x: U16): (s: Bytes)
    ensures |s| == 2 && Word(s[0], s[1]) == x
  {
    DivMod(x, 256);
    [x / 256, x % 256]
  }

  function PrintExtension(x: Option<Extension>): Bytes
    requires x.Some? ==> |x.value.content| < 0x4_0000
  {
    if x == None then []
    else PrintWord(x.value.profile) + PrintWord(|x.value.content| / 4) + x.value.content
  }

  /** The fixed part of the header, 12 bytes. */
  function PrintHead(p: Packet): (s: Bytes)
    requires Proper(p)
    ensures |s| == 12
  {
    [p.versionAndPadding * 32 + (if p.extension.Some? then 16 else 0) + |p.contributors| / 4,
     (if p.marker then 128 else 0) + p.payloadType]
    + PrintWord(p.seqno) + p.timestampAndSource
  }

  /** All that comes before the payload. */
  function PrintHeader(p: Packet): Bytes
    requires Proper(p)
  {
    PrintHead(p) + p.contributors + PrintExtension(p.extension)
  }

  function Print(p: Packet): Bytes
    requires Proper(p)
  {
    PrintHeader(p) + p.payload
  }

  // ---------------------------------------------------------------- VP8 payloads

  /** A picture id of 7 bits, or of 15. */
  datatype Picture = Short(id: nat) | Long(id: nat)

  /** What bit X announces: flags I, L, T and K with four reserved bits, and what they announce in turn. One byte serves T
      and K. */
  datatype Extended = Extended(reserved: nat, i: Option<Picture>, l: Option<Byte>, t: bool, k: bool, layer: Byte)

  /** The payload descriptor: the seven low bits of its first byte, and what bit X announces. */
  datatype Descriptor = Descriptor(low: nat, x: Option<Extended>)

  predicate ProperDescriptor(d: Descriptor) {
    && d.low < 128
    && (d.x.Some? ==>
          && d.x.value.reserved < 16
          && (d.x.value.i.Some? ==> d.x.value.i.value.id < if d.x.value.i.value.Short? then 0x80 else 0x8000))
  }

  function PrintPicture(p: Option<Picture>): Bytes
    requires p.Some? ==> p.value.id < if p.value.Short? then 0x80 else 0x8000
  {
    match p
    case None => []
    case Some(Short(id)) => [id]
    case Some(Long(id)) => [128 + id / 256, id % 256]
  }

  function PrintFlags(x: Extended): Byte
    requires x.reserved < 16
  {
    (if x.i.Some? then 128 else 0) + (if x.l.Some? then 64 else 0) + (if x.t then 32 else 0) + (if x.k then 16 else 0)
    + x.reserved
  }

  function PrintDescriptor(d: Descriptor): (s: Bytes)
    requires ProperDescriptor(d)
  {
    if d.x == None then [d.low]
    else
      var x := d.x.value;
      [128 + d.low, PrintFlags(x)] + PrintPicture(x.i) + (if x.l.Some? then [x.l.value] else [])
      + (if x.t || x.k then [x.layer] else [])
  }

  /** The picture id moved by delta, in its 7 or 15 bits. */
  function Moved(d: Descriptor, delta: U16): Descriptor {
    if d.x == None || d.x.value.i == None then d
    else
      var picture := match d.x.value.i.value
                     case Short(id) => Short((id + delta) % 0x80)
                     case Long(id) => Long((id + delta) % 0x8000);
      d.(x := Some(d.x.value.(i := Some(picture))))
  }

  // ---------------------------------------------------------------- where things are

  lemma Quarter(n: nat)
    requires n % 4 == 0
    ensures n / 4 * 4 == n
  {
  }

  /** The first byte says how long the list of contributing sources is, and whether there is an extension. */
  lemma FirstByte(v: nat, x: bool, n: nat)
    requires v < 8 && n < 16
    ensures var b := v * 32 + (if x then 16 else 0) + n; b < 256 && (XBit(b) <==> x) && SourcesLength(b) == 4 * n
  {
    var b := v * 32 + (if x then 16 else 0) + n;
    QuotientIs(b, 16, v * 2 + if x then 1 else 0);
  }

  lemma HeaderIs(p: Packet)
    requires Proper(p)
    ensures var d := Print(p);
            && |d| >= HEADER && (HasExtension(d) <==> p.extension.Some?)
            && AfterSources(d) == HEADER + |p.contributors|
            && (p.extension.Some? ==> |d| >= AfterSources(d) + 4)
  {
    hide XBit, SourcesLength, PrintExtension;
    FirstByte(p.versionAndPadding, p.extension.Some?, |p.contributors| / 4);
    Quarter(|p.contributors|);
    assert Print(p)[0] == PrintHead(p)[0];
    ExtensionIs(p.extension);
  }

  lemma ExtensionIs(x: Option<Extension>)
    requires x.Some? ==> |x.value.content| < 0x4_0000 && |x.value.content| % 4 == 0
    ensures x == None ==> PrintExtension(x) == []
    ensures x.Some? ==> var s := PrintExtension(x); |s| == 4 + |x.value.content| && Word(s[2], s[3]) * 4 == |x.value.content|
  {
    if x.Some? {
      Quarter(|x.value.content|);
      assert PrintExtension(x)[2..4] == PrintWord(|x.value.content| / 4);
    }
  }

  /** The payload begins where the header ends. */
  lemma PayloadIs(p: Packet)
    requires Proper(p) && |Print(p)| > AfterSources(Print(p))
    ensures HasExtension(Print(p)) ==> AfterSources(Print(p)) + 4 <= |Print(p)|
    ensures Payload(Print(p)) == |PrintHeader(p)|
  {
    hide XBit, SourcesLength, PrintExtension, Word;
    HeaderIs(p);
    ExtensionIs(p.extension);
    if p.extension.Some? {
      var d, o := Print(p), AfterSources(Print(p));
      assert d[o + 2] == PrintExtension(p.extension)[2] && d[o + 3] == PrintExtension(p.extension)[3];
    }
  }

  /** Long enough for the picture id to be looked for. */
  predicate LongEnough(p: Packet) {
    if p.extension.Some? then |p.payload| >= 4 else p.payload != []
  }

  lemma ShortIsTruncated(p: Packet, vp8: bool)
    requires Proper(p)
    ensures !LongEnough(p) ==> Locate(Print(p), vp8) == Truncated
    ensures LongEnough(p) ==>
              && |PrintHeader(p)| < |Print(p)|
              && Locate(Print(p), vp8) == if vp8 then LocateVP8(Print(p), |PrintHeader(p)|) else Absent
  {
    hide XBit, SourcesLength, PrintExtension, Word, LocateVP8, Payload;
    HeaderIs(p);
    ExtensionIs(p.extension);
    if |Print(p)| > AfterSources(Print(p)) {
      PayloadIs(p);
    }
  }

  /** The place of the picture id, if the descriptor has one. */
  lemma PlaceIs(p: Packet, d: Descriptor, rest: Bytes)
    requires Proper(p) && ProperDescriptor(d) && p.payload == PrintDescriptor(d) + rest
    ensures p.payload != []
    ensures var o := |PrintHeader(p)|;
            LocateVP8(Print(p), o) ==
            if d.x == None || d.x.value.i == None then Absent else PictureId(o + 2, d.x.value.i.value.Long?)
  {
    hide PrintHeader, Word;
    var s, o := Print(p), |PrintHeader(p)|;
    assert forall i :: 0 <= i < |p.payload| ==> s[o + i] == p.payload[i];
    if d.x.Some? {
      assert p.payload[1] == PrintFlags(d.x.value);
      if d.x.value.i.Some? {
        assert p.payload[2] == PrintPicture(d.x.value.i)[0];
      }
    }
  }

  // ---------------------------------------------------------------- what rewriting does

  lemma HeadIsSet(p: Packet, setMarker: bool, seqno: U16)
    requires Proper(p)
    ensures var p' := p.(marker := p.marker || setMarker, seqno := seqno);
            |Print(p)| >= HEADER && Proper(p') && SetHeader(Print(p), setMarker, seqno) == Print(p')
  {
    hide PrintExtension;
    var p' := p.(marker := p.marker || setMarker, seqno := seqno);
    var a, b := PrintHead(p), PrintHead(p');
    assert forall i :: 4 <= i < 12 ==> a[i] == b[i];
    assert b == a[1 := b[1]][2 := seqno / 256][3 := seqno % 256];
    var tail := p.contributors + PrintExtension(p.extension) + p.payload;
    assert Print(p) == a + tail && Print(p') == b + tail;
  }

  /** What follows the picture id. */
  function PrintAfter(x: Extended, rest: Bytes): Bytes {
    (if x.l.Some? then [x.l.value] else []) + (if x.t || x.k then [x.layer] else []) + rest
  }

  lemma Regroup(a: Bytes, b: Bytes, c: Bytes, d: Bytes, e: Bytes, f: Bytes)
    ensures a + (b + c + d + e + f) == (a + b) + c + (d + e + f)
  {
  }

  lemma PrintedAround(p: Packet, d: Descriptor, rest: Bytes)
    requires Proper(p) && ProperDescriptor(d) && d.x.Some? && p.payload == PrintDescriptor(d) + rest
    ensures var x := d.x.value;
            Print(p) == PrintHeader(p) + [128 + d.low, PrintFlags(x)] + PrintPicture(x.i) + PrintAfter(x, rest)
  {
    hide PrintFlags, PrintHeader, PrintPicture;
    var x := d.x.value;
    var l, layer := if x.l.Some? then [x.l.value] else [], if x.t || x.k then [x.layer] else [];
    Regroup(PrintHeader(p), [128 + d.low, PrintFlags(x)], PrintPicture(x.i), l, layer, rest);
  }

  lemma HeaderStays(p: Packet, payload: Bytes)
    requires Proper(p)
    ensures PrintHeader(p.(payload := payload)) == PrintHeader(p)
  {
  }

  /** Writing the picture id in the bytes is moving it in the descriptor. */
  lemma PictureIsSet(p: Packet, d: Descriptor, rest: Bytes, delta: U16)
    requires Proper(p) && ProperDescriptor(d) && p.payload == PrintDescriptor(d) + rest
    requires d.x.Some? && d.x.value.i.Some?
    ensures ProperDescriptor(Moved(d, delta))
    ensures var place := PictureId(|PrintHeader(p)| + 2, d.x.value.i.value.Long?);
            && Contains(Print(p), place) && Pid(Print(p), place) == d.x.value.i.value.id
            && SetPid(Print(p), place, (d.x.value.i.value.id + delta) % PidModulus(place))
               == Print(p.(payload := PrintDescriptor(Moved(d, delta)) + rest))
  {
    hide PrintExtension, PrintFlags, PrintDescriptor, PrintHead, Print, PrintPicture, SetPid, Pid, Contains;
    MovedPrints(d, delta);
    var x, y := d.x.value, Moved(d, delta).x.value;
    SameFlags(x, y);
    var before := PrintHeader(p) + [128 + d.low, PrintFlags(x)];
    HeaderStays(p, PrintDescriptor(Moved(d, delta)) + rest);
    PrintedAround(p, d, rest);
    PrintedAround(p.(payload := PrintDescriptor(Moved(d, delta)) + rest), Moved(d, delta), rest);
    PictureBytes(before, x.i.value, PrintAfter(x, rest), delta);
  }

  lemma SameFlags(x: Extended, y: Extended)
    requires x.reserved < 16 && y == x.(i := y.i) && x.i.Some? == y.i.Some?
    ensures PrintFlags(x) == PrintFlags(y)
  {
  }

  lemma MovedPrints(d: Descriptor, delta: U16)
    requires ProperDescriptor(d) && d.x.Some? && d.x.value.i.Some?
    ensures ProperDescriptor(Moved(d, delta))
  {
  }

  /** A picture id between other bytes. */
  lemma PictureBytes(before: Bytes, picture: Picture, after: Bytes, delta: U16)
    requires |before| >= HEADER + 2 && picture.id < (if picture.Short? then 0x80 else 0x8000)
    ensures var s, place := before + PrintPicture(Some(picture)) + after, PictureId(|before|, picture.Long?);
            var moved := if picture.Short? then Short((picture.id + delta) % 0x80) else Long((picture.id + delta) % 0x8000);
            && Contains(s, place) && Pid(s, place) == picture.id
            && SetPid(s, place, (picture.id + delta) % PidModulus(place)) == before + PrintPicture(Some(moved)) + after
  {
    DivMod(picture.id, 256);
  }

  /** A VP8 packet built from its parts, once rewritten, has the new number, the marker if it is to be set, and its
      picture id, if it has one, moved by delta; the other parts are as they were. */
  lemma RewritingVP8(p: Packet, d: Descriptor, rest: Bytes, setMarker: bool, seqno: U16, delta: U16)
    requires Proper(p) && ProperDescriptor(d) && p.payload == PrintDescriptor(d) + rest && LongEnough(p)
    ensures ProperDescriptor(Moved(d, delta))
    ensures var p' := p.(marker := p.marker || setMarker, seqno := seqno, payload := PrintDescriptor(Moved(d, delta)) + rest);
            Proper(p') && Rewritten(Print(p), true, setMarker, seqno, delta) == (Print(p'), Done)
  {
    hide Print, PrintDescriptor, Locate, LocateVP8, SetPid, Pid, SetHeader;
    var p1 := p.(marker := p.marker || setMarker, seqno := seqno);
    HeadIsSet(p, setMarker, seqno);
    ShortIsTruncated(p1, true);
    PlaceIs(p1, d, rest);
    if d.x.Some? && d.x.value.i.Some? {
      PictureIsSet(p1, d, rest, delta);
      if delta == 0 {
        MovedByNothing(d);
      }
    }
  }

  lemma MovedByNothing(d: Descriptor)
    requires ProperDescriptor(d)
    ensures Moved(d, 0) == d
  {
  }

  /** A packet of another codec has the new number, and the marker; its payload is as it was. */
  lemma RewritingOthers(p: Packet, setMarker: bool, seqno: U16, delta: U16)
    requires Proper(p) && LongEnough(p)
    ensures var p' := p.(marker := p.marker || setMarker, seqno := seqno);
            Proper(p') && Rewritten(Print(p), false, setMarker, seqno, delta) == (Print(p'), Done)
  {
    hide Print, Locate, LocateVP8, SetPid, Pid, SetHeader;
    HeadIsSet(p, setMarker, seqno);
    ShortIsTruncated(p.(marker := p.marker || setMarker, seqno := seqno), false);
  }

  /** A packet built from its parts, its VP8 payload whole, fails to be rewritten exactly if the picture id is to move and
      the packet is too short for the checks: one with an extension needs 4 bytes of payload, and any other one byte. */
  lemma RewritingFailsIff(p: Packet, vp8: bool, setMarker: bool, seqno: U16, delta: U16, d: Descriptor, rest: Bytes)
    requires Proper(p) && (vp8 ==> p.payload == [] || (ProperDescriptor(d) && p.payload == PrintDescriptor(d) + rest))
    ensures var r := Rewritten(Print(p), vp8, setMarker, seqno, delta).1;
            (r == Failed <==> delta != 0 && !LongEnough(p)) && r != Panics
  {
    hide Print, PrintDescriptor, Locate, LocateVP8, SetPid, Pid, SetHeader;
    var p1 := p.(marker := p.marker || setMarker, seqno := seqno);
    HeadIsSet(p, setMarker, seqno);
    ShortIsTruncated(p1, vp8);
    if LongEnough(p) {
      if vp8 {
        RewritingVP8(p, d, rest, setMarker, seqno, delta);
      } else {
        RewritingOthers(p, setMarker, seqno, delta);
      }
    }
  }

  /** Packet 7 with bits X and I, and the 7-bit picture id 5, becomes packet 8 with picture id 6. */
  lemma OneStep()
    ensures Rewritten([128, 96, 0, 7, 0, 0, 0, 0, 0, 0, 0, 0, 128, 128, 5, 0], true, false, 8, 1)
            == ([128, 96, 0, 8, 0, 0, 0, 0, 0, 0, 0, 0, 128, 128, 6, 0], Done)
  {
    hide Rewritten, Print, PrintDescriptor;
    PrintedSample(7, 5);
    PrintedSample(8, 6);
    RewritingVP8(Sample(7, 5), SampleDescriptor(5), [0], false, 8, 1);
  }

  function SampleDescriptor(id: nat): Descriptor {
    Descriptor(0, Some(Extended(0, Some(Short(id)), None, false, false, 0)))
  }

  function Sample(seqno: U16, id: nat): Packet
    requires id < 128
  {
    Packet(4, false, 96, seqno, [0, 0, 0, 0, 0, 0, 0, 0], [], None, PrintDescriptor(SampleDescriptor(id)) + [0])
  }

  lemma PrintedSample(seqno: U16, id: nat)
    requires id < 128 && seqno < 256
    ensures Proper(Sample(seqno, id)) && LongEnough(Sample(seqno, id))
    ensures Print(Sample(seqno, id)) == [128, 96, 0, seqno, 0, 0, 0, 0, 0, 0, 0, 0, 128, 128, id, 0]
  {
    assert PrintDescriptor(SampleDescriptor(id)) == [128, 128, id];
    assert PrintWord(seqno) == [0, seqno];
  }
}

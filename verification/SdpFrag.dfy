/** Trickle-ICE fragments (section 9 of RFC 8840): printing, parsing, and
    applying them to a session description. */
module SdpFrag {
  import opened Basics

  /** A candidate line, with what the parser adds to it. */
  datatype Candidate = Candidate(line: string, mid: Option<string>, mLineIndex: Option<nat>, ufrag: Option<string>)

  datatype Media = Media(mLine: string, mid: string, ufrag: string, pwd: string, candidates: seq<Candidate>)

  datatype Frag = Frag(ufrag: string, pwd: string, candidates: seq<Candidate>, medias: seq<Media>)

  const EMPTY := Frag("", "", [], [])

  const UFRAG := "a=ice-ufrag:"
  const PWD := "a=ice-pwd:"
  const M := "m="
  const MID := "a=mid:"
  const CANDIDATE := "a=candidate:"
  const CRLF := "\r\n"

  // ---------------------------------------------------------------- printing

  function Opt(prefix: string, value: string): seq<string> {
    if value == "" then [] else [prefix + value]
  }

  function CandidateLines(prefix: string, cs: seq<Candidate>): (ls: seq<string>)
    ensures |ls| == |cs|
  {
    if cs == [] then [] else CandidateLines(prefix, cs[..|cs| - 1]) + [prefix + cs[|cs| - 1].line]
  }

  function MediaLines(m: Media): seq<string> {
    [M + m.mLine, MID + m.mid] + Opt(UFRAG, m.ufrag) + Opt(PWD, m.pwd) + CandidateLines(CANDIDATE, m.candidates)
  }

  function AllMediaLines(ms: seq<Media>): seq<string> {
    if ms == [] then [] else AllMediaLines(ms[..|ms| - 1]) + MediaLines(ms[|ms| - 1])
  }

  /** The lines of a fragment; candidates at the session level are printed without their prefix. */
  function Lines(f: Frag): seq<string> {
    Opt(UFRAG, f.ufrag) + Opt(PWD, f.pwd) + CandidateLines("a=", f.candidates) + AllMediaLines(f.medias)
  }

  function Text(ls: seq<string>): string {
    if ls == [] then "" else Text(ls[..|ls| - 1]) + ls[|ls| - 1] + CRLF
  }

  lemma {:induction false} TextSum(a: seq<string>, b: seq<string>)
    ensures Text(a + b) == Text(a) + Text(b)
  {
    if b == [] {
      assert a + b == a;
    } else {
      var rest, l := b[..|b| - 1], b[|b| - 1];
      TextSum(a, rest);
      assert (a + b)[..|a + b| - 1] == a + rest;
      assert Text(a) + (Text(rest) + l + CRLF) == (Text(a) + Text(rest)) + l + CRLF;
    }
  }

  /** Prints a fragment line by line. */
  method Marshal(s: Frag) returns (w: string)
    ensures w == Text(Lines(s))
  {
    hide Opt, CandidateLines, MediaLines;
    ghost var ls := Opt(UFRAG, s.ufrag) + Opt(PWD, s.pwd);
    w := PrintOpt(UFRAG, s.ufrag, "", []);
    assert [] + Opt(UFRAG, s.ufrag) == Opt(UFRAG, s.ufrag);
    w := PrintOpt(PWD, s.pwd, w, Opt(UFRAG, s.ufrag));
    w := PrintCandidates("a=", s.candidates, w, ls);
    ls := ls + CandidateLines("a=", s.candidates);
    var i := 0;
    assert ls + AllMediaLines(s.medias[..0]) == ls;
    while i < |s.medias|
      invariant 0 <= i <= |s.medias| && w == Text(ls + AllMediaLines(s.medias[..i]))
    {
      w := PrintMedia(s.medias[i], w, ls + AllMediaLines(s.medias[..i]));
      assert s.medias[..i + 1][..i] == s.medias[..i];
      assert ls + AllMediaLines(s.medias[..i]) + MediaLines(s.medias[i]) == ls + AllMediaLines(s.medias[..i + 1]);
      i := i + 1;
    }
    assert s.medias[..i] == s.medias;
  }

  method PrintMedia(m: Media, w0: string, ghost ls: seq<string>) returns (w: string)
    requires w0 == Text(ls)
    ensures w == Text(ls + MediaLines(m))
  {
    hide Opt, CandidateLines, Text;
    w := w0 + M + m.mLine + CRLF;
    TextOfLine(ls, M + m.mLine);
    w := w + MID + m.mid + CRLF;
    TextOfLine(ls + [M + m.mLine], MID + m.mid);
    ghost var head := ls + [M + m.mLine] + [MID + m.mid];
    w := PrintOpt(UFRAG, m.ufrag, w, head);
    w := PrintOpt(PWD, m.pwd, w, head + Opt(UFRAG, m.ufrag));
    w := PrintCandidates(CANDIDATE, m.candidates, w, head + Opt(UFRAG, m.ufrag) + Opt(PWD, m.pwd));
    Regroup(ls, M + m.mLine, MID + m.mid, Opt(UFRAG, m.ufrag), Opt(PWD, m.pwd), CandidateLines(CANDIDATE, m.candidates));
  }

  lemma Regroup(ls: seq<string>, a: string, b: string, c: seq<string>, d: seq<string>, e: seq<string>)
    ensures ls + [a] + [b] + c + d + e == ls + ([a, b] + c + d + e)
  {
  }

  lemma TextOfLine(ls: seq<string>, l: string)
    ensures Text(ls + [l]) == Text(ls) + l + CRLF
  {
    assert (ls + [l])[..|ls|] == ls;
  }

  method PrintOpt(prefix: string, value: string, w0: string, ghost ls: seq<string>) returns (w: string)
    requires w0 == Text(ls)
    ensures w == Text(ls + Opt(prefix, value))
  {
    w := w0;
    if value != "" {
      w := w + prefix + value + CRLF;
      TextOfLine(ls, prefix + value);
    } else {
      assert ls + [] == ls;
    }
  }

  method PrintCandidates(prefix: string, cs: seq<Candidate>, w0: string, ghost ls: seq<string>) returns (w: string)
    requires w0 == Text(ls)
    ensures w == Text(ls + CandidateLines(prefix, cs))
  {
    hide Text;
    w := w0;
    var i := 0;
    assert ls + CandidateLines(prefix, cs[..0]) == ls;
    while i < |cs|
      invariant 0 <= i <= |cs| && w == Text(ls + CandidateLines(prefix, cs[..i]))
    {
      w := w + prefix + cs[i].line + CRLF;
      assert cs[..i + 1][..i] == cs[..i];
      TextOfLine(ls + CandidateLines(prefix, cs[..i]), prefix + cs[i].line);
      assert ls + CandidateLines(prefix, cs[..i]) + [prefix + cs[i].line] == ls + CandidateLines(prefix, cs[..i + 1]);
      i := i + 1;
    }
    assert cs[..i] == cs;
  }

  // ---------------------------------------------------------------- lines of a text

  /** The scanner's buffer: a line that, with its newline, is longer ends the scan. */
  const MAX_TOKEN := 65536

  function Newline(text: string): (n: nat)
    ensures n <= |text|
    ensures n < |text| ==> text[n] == '\n'
    ensures forall i :: 0 <= i < n ==> text[i] != '\n'
  {
    if text == "" || text[0] == '\n' then 0 else 1 + Newline(text[1..])
  }

  function DropCR(l: string): string {
    if l != "" && l[|l| - 1] == '\r' then l[..|l| - 1] else l
  }

  /** The lines that the scanner delivers. */
  function Scan(text: string): seq<string> {
    if text == "" then []
    else
      var n := Newline(text);
      if n >= MAX_TOKEN then []
      else if n == |text| then [DropCR(text)]
      else [DropCR(text[..n])] + Scan(text[n + 1..])
  }

  predicate PlainLine(l: string) {
    |l| + 2 <= MAX_TOKEN && '\n' !in l && '\r' !in l
  }

  lemma ScanFirstLine(l: string, rest: string)
    requires PlainLine(l)
    ensures Scan(l + CRLF + rest) == [l] + Scan(rest)
  {
    var text := l + CRLF + rest;
    var n := Newline(text);
    assert text[|l|] == '\r' && text[|l| + 1] == '\n';
    assert forall i :: 0 <= i < |l| ==> text[i] == l[i];
    assert forall i :: 0 <= i < |l| + 1 ==> text[i] != '\n';
    assert n == |l| + 1;
    assert text[..n] == l + "\r";
    assert text[n + 1..] == rest;
  }

  /** Scanning a printed text delivers the lines that were printed. */
  lemma {:induction false} ScanText(ls: seq<string>)
    requires forall i :: 0 <= i < |ls| ==> PlainLine(ls[i])
    ensures Scan(Text(ls)) == ls
  {
    if ls != [] {
      TextSum([ls[0]], ls[1..]);
      assert [ls[0]] + ls[1..] == ls;
      assert Text([ls[0]]) == ls[0] + CRLF by { TextOfLine([], ls[0]); assert [] + [ls[0]] == [ls[0]]; }
      ScanText(ls[1..]);
      ScanFirstLine(ls[0], Text(ls[1..]));
    }
  }

  // ---------------------------------------------------------------- parsing

  /** The fragment so far and the media section being read; or a mid outside any. */
  datatype Parse = Parse(s: Frag, media: Option<Media>) | UnexpectedMid

  function ParseLine(p: Parse, l: string): Parse {
    if p.UnexpectedMid? then p
    else if UFRAG <= l then
      var v := l[|UFRAG|..];
      if p.media == None then p.(s := p.s.(ufrag := v)) else p.(media := Some(p.media.value.(ufrag := v)))
    else if PWD <= l then
      var v := l[|PWD|..];
      if p.media == None then p.(s := p.s.(pwd := v)) else p.(media := Some(p.media.value.(pwd := v)))
    else if M <= l then
      Parse(Flush(p.s, p.media), Some(Media(l[|M|..], "", "", "", [])))
    else if MID <= l then
      if p.media == None then UnexpectedMid else p.(media := Some(p.media.value.(mid := l[|MID|..])))
    else if CANDIDATE <= l then
      var c := Candidate(l[|CANDIDATE|..], None, None, if p.s.ufrag == "" then None else Some(p.s.ufrag));
      if p.media == None then p.(s := p.s.(candidates := p.s.candidates + [c]))
      else
        var c' := c.(mLineIndex := Some(|p.s.medias| % 0x1_0000), mid := Some(p.media.value.mid));
        p.(media := Some(p.media.value.(candidates := p.media.value.candidates + [c'])))
    else p
  }

  /** The fragment with the media section that was being read. */
  function Flush(s: Frag, media: Option<Media>): Frag {
    if media == None then s else s.(medias := s.medias + [media.value])
  }

  function ParseLines(p: Parse, ls: seq<string>): Parse {
    if ls == [] then p else ParseLine(ParseLines(p, ls[..|ls| - 1]), ls[|ls| - 1])
  }

  lemma {:induction false} ParseSum(p: Parse, a: seq<string>, b: seq<string>)
    ensures ParseLines(p, a + b) == ParseLines(ParseLines(p, a), b)
  {
    if b == [] {
      assert a + b == a;
    } else {
      ParseSum(p, a, b[..|b| - 1]);
      assert (a + b)[..|a + b| - 1] == a + b[..|b| - 1];
    }
  }

  /** Parses into fragment s, line by line. */
  method Unmarshal(s: Frag, value: string) returns (r: Frag, ok: bool)
    ensures var p := ParseLines(Parse(s, None), Scan(value));
            && ok == p.Parse?
            && (ok ==> r == Flush(p.s, p.media))
  {
    r := s;
    var media := None;
    var lines := Scan(value);
    var i := 0;
    while i < |lines|
      invariant 0 <= i <= |lines| && ParseLines(Parse(s, None), lines[..i]) == Parse(r, media)
    {
      var l := lines[i];
      ghost var p := Parse(r, media);
      assert lines[..i + 1][..i] == lines[..i];
      if UFRAG <= l {
        if media == None {
          r := r.(ufrag := l[|UFRAG|..]);
        } else {
          media := Some(media.value.(ufrag := l[|UFRAG|..]));
        }
      } else if PWD <= l {
        if media == None {
          r := r.(pwd := l[|PWD|..]);
        } else {
          media := Some(media.value.(pwd := l[|PWD|..]));
        }
      } else if M <= l {
        if media != None {
          r := r.(medias := r.medias + [media.value]);
        }
        media := Some(Media(l[|M|..], "", "", "", []));
      } else if MID <= l {
        if media == None {
          UnexpectedStays(ParseLine(p, l), lines[i + 1..]);
          ParseSum(Parse(s, None), lines[..i + 1], lines[i + 1..]);
          Splits(lines, i + 1);
          return r, false;
        }
        media := Some(media.value.(mid := l[|MID|..]));
      } else if CANDIDATE <= l {
        var init := Candidate(l[|CANDIDATE|..], None, None, if |r.ufrag| > 0 then Some(r.ufrag) else None);
        if media != None {
          init := init.(mLineIndex := Some(|r.medias| % 0x1_0000), mid := Some(media.value.mid));
          media := Some(media.value.(candidates := media.value.candidates + [init]));
        } else {
          r := r.(candidates := r.candidates + [init]);
        }
      }
      i := i + 1;
    }
    assert lines[..i] == lines;
    if media != None {
      r := r.(medias := r.medias + [media.value]);
    }
    ok := true;
  }

  lemma {:induction false} UnexpectedStays(p: Parse, ls: seq<string>)
    requires p.UnexpectedMid?
    ensures ParseLines(p, ls) == p
  {
    if ls != [] {
      UnexpectedStays(p, ls[..|ls| - 1]);
    }
  }

  // ---------------------------------------------------------------- the round trip

  /** The candidates are as the parser would make them: with the mid and index of their media section and the
      fragment's ufrag. There are none at the session level. */
  predicate Canonical(f: Frag) {
    && f.candidates == []
    && forall i, k :: 0 <= i < |f.medias| && 0 <= k < |f.medias[i].candidates| ==>
         f.medias[i].candidates[k] == InSection(f, i, f.medias[i].candidates[k].line)
  }

  function InSection(f: Frag, i: nat, line: string): Candidate
    requires i < |f.medias|
  {
    Candidate(line, Some(f.medias[i].mid), Some(i % 0x1_0000), if f.ufrag == "" then None else Some(f.ufrag))
  }

  /** How the parser reads each kind of line. */
  lemma ReadUfrag(p: Parse, v: string)
    requires p.Parse?
    ensures ParseLine(p, UFRAG + v) ==
            if p.media == None then p.(s := p.s.(ufrag := v)) else p.(media := Some(p.media.value.(ufrag := v)))
  {
    assert (UFRAG + v)[|UFRAG|..] == v;
  }

  lemma ReadPwd(p: Parse, v: string)
    requires p.Parse?
    ensures ParseLine(p, PWD + v) ==
            if p.media == None then p.(s := p.s.(pwd := v)) else p.(media := Some(p.media.value.(pwd := v)))
  {
    assert (PWD + v)[|PWD|..] == v;
    assert (PWD + v)[6] == 'p' && UFRAG[6] == 'u';
  }

  lemma ReadM(p: Parse, v: string)
    requires p.Parse?
    ensures ParseLine(p, M + v) == Parse(Flush(p.s, p.media), Some(Media(v, "", "", "", [])))
  {
    assert (M + v)[|M|..] == v;
    assert (M + v)[0] == 'm' && UFRAG[0] == 'a' && PWD[0] == 'a';
  }

  lemma ReadMid(p: Parse, v: string)
    requires p.Parse? && p.media.Some?
    ensures ParseLine(p, MID + v) == p.(media := Some(p.media.value.(mid := v)))
  {
    assert (MID + v)[|MID|..] == v;
    assert (MID + v)[0] == 'a' && M[0] == 'm';
    assert (MID + v)[2] == 'm' && UFRAG[2] == 'i' && PWD[2] == 'i';
  }

  lemma ReadCandidate(p: Parse, v: string)
    requires p.Parse? && p.media.Some?
    ensures ParseLine(p, CANDIDATE + v) ==
            var c := Candidate(v, Some(p.media.value.mid), Some(|p.s.medias| % 0x1_0000),
                               if p.s.ufrag == "" then None else Some(p.s.ufrag));
            p.(media := Some(p.media.value.(candidates := p.media.value.candidates + [c])))
  {
    assert (CANDIDATE + v)[|CANDIDATE|..] == v;
    assert (CANDIDATE + v)[0] == 'a' && M[0] == 'm';
    assert (CANDIDATE + v)[2] == 'c' && UFRAG[2] == 'i' && PWD[2] == 'i' && MID[2] == 'm';
  }

  lemma ReadOne(p: Parse, l: string)
    ensures ParseLines(p, [l]) == ParseLine(p, l)
  {
    assert [l][..0] == [];
  }

  lemma ReadOptions(p: Parse, ufrag: string, pwd: string)
    requires p.Parse?
    ensures ParseLines(p, Opt(UFRAG, ufrag) + Opt(PWD, pwd)) ==
            if p.media == None then
              p.(s := p.s.(ufrag := if ufrag == "" then p.s.ufrag else ufrag, pwd := if pwd == "" then p.s.pwd else pwd))
            else
              var m := p.media.value;
              p.(media := Some(m.(ufrag := if ufrag == "" then m.ufrag else ufrag, pwd := if pwd == "" then m.pwd else pwd)))
  {
    ParseSum(p, Opt(UFRAG, ufrag), Opt(PWD, pwd));
    var p1 := ParseLines(p, Opt(UFRAG, ufrag));
    if ufrag != "" {
      ReadUfrag(p, ufrag);
      ReadOne(p, UFRAG + ufrag);
    }
    if pwd != "" {
      ReadPwd(p1, pwd);
      ReadOne(p1, PWD + pwd);
    }
  }

  lemma {:induction false} ReadCandidates(p: Parse, f: Frag, i: nat, cs: seq<Candidate>)
    requires i < |f.medias|
    requires p.Parse? && p.media.Some? && p.media.value.mid == f.medias[i].mid && p.media.value.candidates == []
    requires p.s.ufrag == f.ufrag && |p.s.medias| == i
    requires forall k :: 0 <= k < |cs| ==> cs[k] == InSection(f, i, cs[k].line)
    ensures ParseLines(p, CandidateLines(CANDIDATE, cs)) == p.(media := Some(p.media.value.(candidates := cs)))
  {
    hide ParseLine;
    if cs == [] {
    } else {
      var n := |cs| - 1;
      ReadCandidates(p, f, i, cs[..n]);
      var ls := CandidateLines(CANDIDATE, cs);
      assert ls[..n] == CandidateLines(CANDIDATE, cs[..n]);
      ReadCandidate(ParseLines(p, ls[..n]), cs[n].line);
      assert cs[..n] + [cs[n]] == cs;
    }
  }

  /** Reading the lines of media section i, after those before it. */
  lemma ReadMedia(p: Parse, f: Frag, i: nat)
    requires Canonical(f) && i < |f.medias|
    requires p.Parse? && p.s.ufrag == f.ufrag && |Flush(p.s, p.media).medias| == i
    ensures ParseLines(p, MediaLines(f.medias[i])) == Parse(Flush(p.s, p.media), Some(f.medias[i]))
  {
    hide ParseLine;
    var m := f.medias[i];
    var head := [M + m.mLine, MID + m.mid];
    var opts := Opt(UFRAG, m.ufrag) + Opt(PWD, m.pwd);
    var cands := CandidateLines(CANDIDATE, m.candidates);
    assert MediaLines(m) == head + opts + cands;
    ParseSum(p, head + opts, cands);
    ParseSum(p, head, opts);
    assert head == [M + m.mLine] + [MID + m.mid];
    ParseSum(p, [M + m.mLine], [MID + m.mid]);
    ReadOne(p, M + m.mLine);
    ReadM(p, m.mLine);
    var p1 := ParseLine(p, M + m.mLine);
    ReadOne(p1, MID + m.mid);
    ReadMid(p1, m.mid);
    var p2 := ParseLine(p1, MID + m.mid);
    ReadOptions(p2, m.ufrag, m.pwd);
    var p3 := ParseLines(p2, opts);
    ReadCandidates(p3, f, i, m.candidates);
  }

  lemma {:induction false} ReadMedias(f: Frag, n: nat)
    requires Canonical(f) && n <= |f.medias|
    ensures ParseLines(Parse(f.(medias := []), None), AllMediaLines(f.medias[..n])) ==
            Parse(f.(medias := f.medias[..if n == 0 then 0 else n - 1]), if n == 0 then None else Some(f.medias[n - 1]))
  {
    hide ParseLine, MediaLines;
    if n > 0 {
      ReadMedias(f, n - 1);
      assert f.medias[..n][..n - 1] == f.medias[..n - 1];
      var p := Parse(f.(medias := []), None);
      ParseSum(p, AllMediaLines(f.medias[..n - 1]), MediaLines(f.medias[n - 1]));
      var p1 := ParseLines(p, AllMediaLines(f.medias[..n - 1]));
      assert Flush(p1.s, p1.media).medias == f.medias[..n - 1];
      ReadMedia(p1, f, n - 1);
    }
  }

  lemma NoSessionCandidates(f: Frag)
    requires Canonical(f)
    ensures f.candidates == [] && CandidateLines("a=", f.candidates) == []
  {
  }

  /** Parsing what was printed yields the fragment. */
  lemma LinesRoundTrip(f: Frag)
    requires Canonical(f)
    ensures var p := ParseLines(Parse(EMPTY, None), Lines(f));
            p.Parse? && Flush(p.s, p.media) == f
  {
    hide ParseLine, MediaLines, Canonical;
    NoSessionCandidates(f);
    var p := Parse(EMPTY, None);
    var opts := Opt(UFRAG, f.ufrag) + Opt(PWD, f.pwd);
    assert Lines(f) == opts + AllMediaLines(f.medias);
    ParseSum(p, opts, AllMediaLines(f.medias));
    ReadOptions(p, f.ufrag, f.pwd);
    assert ParseLines(p, opts) == Parse(f.(medias := []), None);
    ReadMedias(f, |f.medias|);
    assert f.medias[..|f.medias|] == f.medias;
    if f.medias != [] {
      assert f.medias[..|f.medias| - 1] + [f.medias[|f.medias| - 1]] == f.medias;
    }
  }

  /** Every line of the fragment is free of line breaks and fits the scanner's buffer. */
  predicate Printable(f: Frag) {
    forall l :: l in Lines(f) ==> PlainLine(l)
  }

  /** Unmarshal inverts Marshal on every canonical, printable fragment. */
  lemma RoundTrip(f: Frag)
    requires Canonical(f) && Printable(f)
    ensures var p := ParseLines(Parse(EMPTY, None), Scan(Text(Lines(f))));
            p.Parse? && Flush(p.s, p.media) == f
  {
    assert forall i :: 0 <= i < |Lines(f)| ==> Lines(f)[i] in Lines(f);
    ScanText(Lines(f));
    LinesRoundTrip(f);
  }

  /** The same, of the methods. */
  method Reread(f: Frag) returns (r: Frag, ok: bool)
    ensures Canonical(f) && Printable(f) ==> ok && r == f
  {
    var text := Marshal(f);
    r, ok := Unmarshal(EMPTY, text);
    if Canonical(f) && Printable(f) {
      RoundTrip(f);
    }
  }
}

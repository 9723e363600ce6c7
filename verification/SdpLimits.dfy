/** Exactly which fragments survive printing and parsing: the scanner gives up
    at the first line that does not fit its buffer. */
module SdpLimits {
  import opened Basics
  import opened SdpFrag

  predicate Fits(l: string) {
    |l| + 2 <= 65536
  }

  predicate NoBreaks(ls: seq<string>) {
    forall i :: 0 <= i < |ls| ==> '\n' !in ls[i] && '\r' !in ls[i]
  }

  // ---------------------------------------------------------------- the scan

  lemma LongLineEndsScan(l: string, rest: string)
    requires '\n' !in l && '\r' !in l && !Fits(l)
    ensures Scan(l + CRLF + rest) == []
  {
    var text := l + CRLF + rest;
    assert forall i :: 0 <= i < |l| ==> text[i] == l[i];
    assert forall i :: 0 <= i < |l| + 1 ==> text[i] != '\n';
  }

  /** The lines before the first that does not fit are delivered, and no others. */
  lemma {:induction false} ScanIsCut(ls: seq<string>, k: nat)
    requires NoBreaks(ls) && k < |ls| && !Fits(ls[k]) && forall i :: 0 <= i < k ==> Fits(ls[i])
    ensures Scan(Text(ls)) == ls[..k]
  {
    hide Scan;
    TextSum([ls[0]], ls[1..]);
    assert [ls[0]] + ls[1..] == ls;
    assert Text([ls[0]]) == ls[0] + CRLF by { TextOfLine([], ls[0]); assert [] + [ls[0]] == [ls[0]]; }
    if k == 0 {
      LongLineEndsScan(ls[0], Text(ls[1..]));
    } else {
      ScanFirstLine(ls[0], Text(ls[1..]));
      ScanIsCut(ls[1..], k - 1);
    }
  }

  // ---------------------------------------------------------------- how much a fragment holds

  function CandidatesWeight(cs: seq<Candidate>): nat {
    if cs == [] then 0 else CandidatesWeight(cs[..|cs| - 1]) + 1 + |cs[|cs| - 1].line|
  }

  function MediaWeight(m: Media): nat {
    1 + |m.mLine| + |m.mid| + |m.ufrag| + |m.pwd| + CandidatesWeight(m.candidates)
  }

  function MediasWeight(ms: seq<Media>): nat {
    if ms == [] then 0 else MediasWeight(ms[..|ms| - 1]) + MediaWeight(ms[|ms| - 1])
  }

  /** The length of all there is in a fragment. */
  function Weight(f: Frag): nat {
    |f.ufrag| + |f.pwd| + CandidatesWeight(f.candidates) + MediasWeight(f.medias)
  }

  /** What a line can add to it. */
  function LineWeight(l: string): nat {
    if UFRAG <= l then |l| - |UFRAG|
    else if PWD <= l then |l| - |PWD|
    else if M <= l then 1 + |l| - |M|
    else if MID <= l then |l| - |MID|
    else if CANDIDATE <= l then 1 + |l| - |CANDIDATE|
    else 0
  }

  function LinesWeight(ls: seq<string>): nat {
    if ls == [] then 0 else LinesWeight(ls[..|ls| - 1]) + LineWeight(ls[|ls| - 1])
  }

  lemma {:induction false} LinesWeightSum(a: seq<string>, b: seq<string>)
    ensures LinesWeight(a + b) == LinesWeight(a) + LinesWeight(b)
  {
    hide LineWeight;
    if b == [] {
      assert a + b == a;
    } else {
      LinesWeightSum(a, b[..|b| - 1]);
      assert (a + b)[..|a + b| - 1] == a + b[..|b| - 1];
    }
  }

  lemma OneMoreCandidate(cs: seq<Candidate>, c: Candidate)
    ensures CandidatesWeight(cs + [c]) == CandidatesWeight(cs) + 1 + |c.line|
  {
    assert (cs + [c])[..|cs|] == cs;
  }

  lemma OneMoreMedia(ms: seq<Media>, m: Media)
    ensures MediasWeight(ms + [m]) == MediasWeight(ms) + MediaWeight(m)
  {
    assert (ms + [m])[..|ms|] == ms;
  }

  function ParseWeight(p: Parse): nat
    requires p.Parse?
  {
    Weight(p.s) + if p.media == None then 0 else MediaWeight(p.media.value)
  }

  lemma FlushWeight(p: Parse)
    requires p.Parse?
    ensures Weight(Flush(p.s, p.media)) == ParseWeight(p)
  {
    hide MediaWeight, CandidatesWeight;
    if p.media.Some? {
      OneMoreMedia(p.s.medias, p.media.value);
    }
  }

  /** Reading a line adds no more than its weight. */
  lemma ParseAdds(p: Parse, l: string)
    requires p.Parse? && ParseLine(p, l).Parse?
    ensures ParseWeight(ParseLine(p, l)) <= ParseWeight(p) + LineWeight(l)
  {
    hide CandidatesWeight, MediasWeight;
    if UFRAG <= l {
    } else if PWD <= l {
    } else if M <= l {
      FlushWeight(p);
      NoCandidates();
    } else if MID <= l {
    } else if CANDIDATE <= l {
      if p.media == None {
        OneMoreCandidate(p.s.candidates, ParseLine(p, l).s.candidates[|p.s.candidates|]);
      } else {
        var cs := p.media.value.candidates;
        OneMoreCandidate(cs, ParseLine(p, l).media.value.candidates[|cs|]);
      }
    }
  }

  lemma NoCandidates()
    ensures CandidatesWeight([]) == 0
  {
  }

  lemma {:induction false} ParseAllAdds(p: Parse, ls: seq<string>)
    requires p.Parse? && ParseLines(p, ls).Parse?
    ensures ParseWeight(ParseLines(p, ls)) <= ParseWeight(p) + LinesWeight(ls)
  {
    hide ParseLine, ParseWeight, LineWeight;
    if ls != [] {
      var n := |ls| - 1;
      StaysUnexpected(ParseLines(p, ls[..n]), ls[n]);
      ParseAllAdds(p, ls[..n]);
      ParseAdds(ParseLines(p, ls[..n]), ls[n]);
    }
  }

  lemma StaysUnexpected(p: Parse, l: string)
    ensures p.UnexpectedMid? ==> ParseLine(p, l).UnexpectedMid?
  {
  }

  // ---------------------------------------------------------------- what the printed lines weigh

  lemma UfragWeight(v: string)
    ensures LineWeight(UFRAG + v) == |v|
  {
  }

  lemma PwdWeight(v: string)
    ensures LineWeight(PWD + v) == |v|
  {
    assert (PWD + v)[6] == 'p' && UFRAG[6] == 'u';
  }

  lemma MWeight(v: string)
    ensures LineWeight(M + v) == 1 + |v|
  {
    assert (M + v)[0] == 'm' && UFRAG[0] == 'a' && PWD[0] == 'a';
  }

  lemma MidWeight(v: string)
    ensures LineWeight(MID + v) == |v|
  {
    assert (MID + v)[0] == 'a' && M[0] == 'm';
    assert (MID + v)[2] == 'm' && UFRAG[2] == 'i' && PWD[2] == 'i';
  }

  lemma CandidateWeight(v: string)
    ensures LineWeight(CANDIDATE + v) == 1 + |v|
  {
    assert (CANDIDATE + v)[0] == 'a' && M[0] == 'm';
    assert (CANDIDATE + v)[2] == 'c' && UFRAG[2] == 'i' && PWD[2] == 'i' && MID[2] == 'm';
  }

  lemma OneLine(l: string)
    ensures LinesWeight([l]) == LineWeight(l)
  {
    hide LineWeight;
    assert [l][..0] == [];
  }

  lemma OptionsWeight(ufrag: string, pwd: string)
    ensures LinesWeight(Opt(UFRAG, ufrag) + Opt(PWD, pwd)) == |ufrag| + |pwd|
  {
    hide LineWeight;
    LinesWeightSum(Opt(UFRAG, ufrag), Opt(PWD, pwd));
    OneLine(UFRAG + ufrag);
    OneLine(PWD + pwd);
    UfragWeight(ufrag);
    PwdWeight(pwd);
  }

  lemma {:induction false} CandidateLinesWeight(cs: seq<Candidate>)
    ensures LinesWeight(CandidateLines(CANDIDATE, cs)) == CandidatesWeight(cs)
  {
    hide LineWeight;
    if cs != [] {
      var n := |cs| - 1;
      CandidateLinesWeight(cs[..n]);
      CandidateWeight(cs[n].line);
      assert CandidateLines(CANDIDATE, cs)[..n] == CandidateLines(CANDIDATE, cs[..n]);
    }
  }

  lemma MediaLinesWeight(m: Media)
    ensures LinesWeight(MediaLines(m)) == MediaWeight(m)
  {
    hide LineWeight, LinesWeight, CandidatesWeight, CandidateLines, Opt;
    var head, opts, cands := [M + m.mLine] + [MID + m.mid], Opt(UFRAG, m.ufrag) + Opt(PWD, m.pwd), CandidateLines(CANDIDATE, m.candidates);
    assert MediaLines(m) == head + opts + cands;
    LinesWeightSum(head + opts, cands);
    LinesWeightSum(head, opts);
    LinesWeightSum([M + m.mLine], [MID + m.mid]);
    OneLine(M + m.mLine);
    OneLine(MID + m.mid);
    MWeight(m.mLine);
    MidWeight(m.mid);
    OptionsWeight(m.ufrag, m.pwd);
    CandidateLinesWeight(m.candidates);
  }

  lemma {:induction false} AllMediaLinesWeight(ms: seq<Media>)
    ensures LinesWeight(AllMediaLines(ms)) == MediasWeight(ms)
  {
    hide LineWeight, MediaLines, MediaWeight;
    if ms != [] {
      var n := |ms| - 1;
      AllMediaLinesWeight(ms[..n]);
      MediaLinesWeight(ms[n]);
      LinesWeightSum(AllMediaLines(ms[..n]), MediaLines(ms[n]));
    }
  }

  lemma FragLinesWeight(f: Frag)
    requires f.candidates == []
    ensures LinesWeight(Lines(f)) == Weight(f)
  {
    hide LineWeight, LinesWeight, MediasWeight, AllMediaLines, Opt;
    var opts := Opt(UFRAG, f.ufrag) + Opt(PWD, f.pwd);
    assert Lines(f) == opts + AllMediaLines(f.medias);
    LinesWeightSum(opts, AllMediaLines(f.medias));
    OptionsWeight(f.ufrag, f.pwd);
    AllMediaLinesWeight(f.medias);
  }

  /** A line of one of the kinds that are read. */
  predicate IsRead(l: string) {
    UFRAG <= l || PWD <= l || M <= l || MID <= l || CANDIDATE <= l
  }

  predicate AllRead(ls: seq<string>) {
    forall i :: 0 <= i < |ls| ==> IsRead(ls[i])
  }

  lemma {:induction false} CandidateLinesAreRead(cs: seq<Candidate>)
    ensures AllRead(CandidateLines(CANDIDATE, cs))
  {
    if cs != [] {
      CandidateLinesAreRead(cs[..|cs| - 1]);
    }
  }

  lemma {:induction false} MediaLinesAreRead(ms: seq<Media>)
    ensures AllRead(AllMediaLines(ms))
  {
    hide IsRead, CandidateLines;
    if ms != [] {
      var m := ms[|ms| - 1];
      MediaLinesAreRead(ms[..|ms| - 1]);
      CandidateLinesAreRead(m.candidates);
      PrefixesAreRead(m.mLine, m.mid, m.ufrag, m.pwd);
      assert AllRead([M + m.mLine, MID + m.mid] + Opt(UFRAG, m.ufrag) + Opt(PWD, m.pwd));
    }
  }

  lemma PrefixesAreRead(mLine: string, mid: string, ufrag: string, pwd: string)
    ensures IsRead(M + mLine) && IsRead(MID + mid) && IsRead(UFRAG + ufrag) && IsRead(PWD + pwd)
  {
  }

  lemma LinesAreRead(f: Frag)
    requires f.candidates == []
    ensures AllRead(Lines(f))
  {
    hide IsRead, AllMediaLines;
    MediaLinesAreRead(f.medias);
    PrefixesAreRead("", "", f.ufrag, f.pwd);
  }

  /** Lines before a long one weigh less than all of them. */
  lemma CutWeighsLess(ls: seq<string>, k: nat)
    requires AllRead(ls) && k < |ls| && !Fits(ls[k])
    ensures LinesWeight(ls[..k]) < LinesWeight(ls)
  {
    hide LinesWeight, LineWeight, IsRead;
    ThreeParts(ls, k);
    LinesWeightSum(ls[..k], [ls[k]] + ls[k + 1..]);
    LinesWeightSum([ls[k]], ls[k + 1..]);
    OneLine(ls[k]);
    LongWeighs(ls[k]);
  }

  lemma ThreeParts(ls: seq<string>, k: nat)
    requires k < |ls|
    ensures ls == ls[..k] + ([ls[k]] + ls[k + 1..])
  {
  }

  lemma LongWeighs(l: string)
    requires IsRead(l) && !Fits(l)
    ensures LineWeight(l) > 0
  {
  }

  // ---------------------------------------------------------------- the round trip

  lemma {:induction false} FirstLong(ls: seq<string>) returns (k: nat)
    requires exists i :: 0 <= i < |ls| && !Fits(ls[i])
    ensures k < |ls| && !Fits(ls[k]) && forall i :: 0 <= i < k ==> Fits(ls[i])
  {
    if !Fits(ls[0]) {
      k := 0;
    } else {
      k := FirstLong(ls[1..]);
      k := k + 1;
    }
  }

  /** The fragment that Unmarshal makes of what Marshal prints. */
  ghost predicate Survives(f: Frag) {
    var p := ParseLines(Parse(EMPTY, None), Scan(SdpFrag.Text(Lines(f))));
    p.Parse? && Flush(p.s, p.media) == f
  }

  /** A canonical fragment without line breaks survives exactly if every line, with its line break, fits the
      scanner's buffer. */
  lemma RoundTripIff(f: Frag)
    requires Canonical(f) && NoBreaks(Lines(f))
    ensures Survives(f) <==> forall i :: 0 <= i < |Lines(f)| ==> Fits(Lines(f)[i])
  {
    hide ParseLines, Scan, Text, Lines, Weight, LinesWeight, Canonical;
    var ls, start := Lines(f), Parse(EMPTY, None);
    if forall i :: 0 <= i < |ls| ==> Fits(ls[i]) {
      RoundTrip(f);
    } else {
      NoSessionCandidates(f);
      var k := FirstLong(ls);
      ScanIsCut(ls, k);
      LinesAreRead(f);
      CutWeighsLess(ls, k);
      FragLinesWeight(f);
      StartWeight();
      var p := ParseLines(start, ls[..k]);
      if p.Parse? {
        ParseAllAdds(start, ls[..k]);
        FlushWeight(p);
      }
    }
  }

  lemma StartWeight()
    ensures ParseWeight(Parse(EMPTY, None)) == 0
  {
  }

  /** A ufrag of 65523 characters does not survive, and all that follows it is lost silently. */
  lemma LongUfragIsLost(ufrag: string)
    requires |ufrag| == 65523 && '\n' !in ufrag && '\r' !in ufrag
    ensures var f := Frag(ufrag, "", [], []);
            !Survives(f) && Scan(Text(Lines(f))) == []
  {
    var f := Frag(ufrag, "", [], []);
    var l := UFRAG + ufrag;
    assert Lines(f) == [l];
    assert '\n' !in UFRAG && '\r' !in UFRAG;
    assert !Fits(Lines(f)[0]);
    RoundTripIff(f);
    ScanIsCut([l], 0);
  }

  // ---------------------------------------------------------------- all fragments

  /** What of a session-level candidate is read is shorter than the candidate. */
  lemma SessionCandidateShrinks(l: string)
    ensures LineWeight("a=" + l) < 1 + |l|
  {
    assert ("a=" + l)[0] == 'a' && M[0] == 'm';
  }

  lemma {:induction false} SessionLinesWeight(cs: seq<Candidate>)
    ensures LinesWeight(CandidateLines("a=", cs)) <= CandidatesWeight(cs)
    ensures cs != [] ==> LinesWeight(CandidateLines("a=", cs)) < CandidatesWeight(cs)
  {
    hide LineWeight;
    if cs != [] {
      var n := |cs| - 1;
      SessionLinesWeight(cs[..n]);
      SessionCandidateShrinks(cs[n].line);
      assert CandidateLines("a=", cs)[..n] == CandidateLines("a=", cs[..n]);
    }
  }

  lemma LinesWeighLess(f: Frag)
    ensures f.candidates != [] ==> LinesWeight(Lines(f)) < Weight(f)
    ensures f.candidates == [] ==> LinesWeight(Lines(f)) == Weight(f)
  {
    hide LineWeight, LinesWeight, MediasWeight, AllMediaLines, Opt, CandidateLines, CandidatesWeight;
    var opts, cs := Opt(UFRAG, f.ufrag) + Opt(PWD, f.pwd), CandidateLines("a=", f.candidates);
    assert Lines(f) == (opts + cs) + AllMediaLines(f.medias);
    LinesWeightSum(opts + cs, AllMediaLines(f.medias));
    LinesWeightSum(opts, cs);
    OptionsWeight(f.ufrag, f.pwd);
    AllMediaLinesWeight(f.medias);
    SessionLinesWeight(f.candidates);
    if f.candidates == [] {
      NothingWeighsNothing();
    }
  }

  lemma NothingWeighsNothing()
    ensures CandidatesWeight([]) == 0 && CandidateLines("a=", []) == [] && LinesWeight([]) == 0
  {
  }

  /** What is read weighs no more than the lines that the scanner delivers. */
  lemma ReadWeighsLess(ls: seq<string>)
    ensures var p := ParseLines(Parse(EMPTY, None), ls); p.Parse? ==> Weight(Flush(p.s, p.media)) <= LinesWeight(ls)
  {
    hide ParseLine, ParseWeight, LineWeight, Weight;
    var start := Parse(EMPTY, None);
    StartWeight();
    if ParseLines(start, ls).Parse? {
      ParseAllAdds(start, ls);
      FlushWeight(ParseLines(start, ls));
    }
  }

  lemma AllDelivered(ls: seq<string>)
    requires NoBreaks(ls) && forall i :: 0 <= i < |ls| ==> Fits(ls[i])
    ensures Scan(Text(ls)) == ls
  {
    ScanText(ls);
  }

  /** The scanner delivers all lines of a fragment, or lines that weigh less. */
  lemma DeliveredWeighsLess(f: Frag)
    requires NoBreaks(Lines(f))
    ensures Survives(f) ==> f.candidates == [] && forall i :: 0 <= i < |Lines(f)| ==> Fits(Lines(f)[i])
  {
    hide ParseLines, Scan, Text, Lines, Weight, LinesWeight;
    var ls := Lines(f);
    LinesWeighLess(f);
    if forall i :: 0 <= i < |ls| ==> Fits(ls[i]) {
      AllDelivered(ls);
      ReadWeighsLess(ls);
    } else {
      var k := FirstLong(ls);
      ScanIsCut(ls, k);
      ReadWeighsLess(ls[..k]);
      LinesWeightSum(ls[..k], ls[k..]);
      assert ls[..k] + ls[k..] == ls;
      if f.candidates == [] {
        LinesAreRead(f);
        CutWeighsLess(ls, k);
      }
    }
  }

  /** The fragment with its candidates as the parser makes them. */
  function Canonized(f: Frag): Frag {
    f.(medias := seq(|f.medias|, i requires 0 <= i < |f.medias| => CanonizedMedia(f, i)))
  }

  function CanonizedMedia(f: Frag, i: nat): Media
    requires i < |f.medias|
  {
    var cs := f.medias[i].candidates;
    f.medias[i].(candidates := seq(|cs|, k requires 0 <= k < |cs| => InSection(f, i, cs[k].line)))
  }

  lemma {:induction false} SameLines(cs: seq<Candidate>, ds: seq<Candidate>)
    requires |cs| == |ds| && forall k :: 0 <= k < |cs| ==> cs[k].line == ds[k].line
    ensures CandidateLines(CANDIDATE, cs) == CandidateLines(CANDIDATE, ds)
  {
    if cs != [] {
      SameLines(cs[..|cs| - 1], ds[..|ds| - 1]);
    }
  }

  lemma CanonizedMediaLines(f: Frag, i: nat)
    requires i < |f.medias|
    ensures MediaLines(CanonizedMedia(f, i)) == MediaLines(f.medias[i])
  {
    hide CandidateLines;
    SameLines(CanonizedMedia(f, i).candidates, f.medias[i].candidates);
  }

  lemma {:induction false} CanonizedAllLines(f: Frag, n: nat)
    requires n <= |f.medias|
    ensures AllMediaLines(Canonized(f).medias[..n]) == AllMediaLines(f.medias[..n])
  {
    hide MediaLines;
    if n > 0 {
      CanonizedAllLines(f, n - 1);
      CanonizedMediaLines(f, n - 1);
      assert f.medias[..n][..n - 1] == f.medias[..n - 1];
      assert Canonized(f).medias[..n][..n - 1] == Canonized(f).medias[..n - 1];
    }
  }

  /** It prints the same. */
  lemma CanonizedLines(f: Frag)
    ensures Lines(Canonized(f)) == Lines(f)
    ensures f.candidates == [] ==> Canonical(Canonized(f))
  {
    CanonizedAllLines(f, |f.medias|);
    assert f.medias[..|f.medias|] == f.medias && Canonized(f).medias[..|f.medias|] == Canonized(f).medias;
  }

  /** Of the fragments without line breaks, exactly those survive that have no candidates at the session level and
      otherwise only candidates with the index and mid of their section and the ufrag of the fragment, and whose lines
      fit the scanner's buffer. */
  lemma SurvivesIff(f: Frag)
    requires NoBreaks(Lines(f))
    ensures Survives(f) <==> Canonical(f) && forall i :: 0 <= i < |Lines(f)| ==> Fits(Lines(f)[i])
  {
    hide ParseLines, Scan, Text, Lines, Canonical, Canonized;
    DeliveredWeighsLess(f);
    if Canonical(f) {
      RoundTripIff(f);
    }
    if Survives(f) {
      CanonizedLines(f);
      RoundTripIff(Canonized(f));
      assert Canonized(f) == f;
    }
  }
}

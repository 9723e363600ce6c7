/** The lines of a trickle-ICE fragment, written out (section 9 of RFC 8840, and sections 5.1 and 5.4 of RFC 8839). */
module SdpLines {
  import opened Basics
  import opened SdpFrag

  // ---------------------------------------------------------------- what is printed

  lemma OneMedia(m: Media)
    ensures AllMediaLines([m]) == MediaLines(m)
  {
    assert [m][..0] == [];
  }

  lemma OneCandidate(prefix: string, c: Candidate)
    ensures CandidateLines(prefix, [c]) == [prefix + c.line]
  {
    assert [c][..0] == [];
  }

  /** A fragment with a candidate at the session level, and a section with another. */
  lemma PrintedLines(ufrag: string, pwd: string, c: Candidate, mLine: string, mid: string, d: Candidate)
    requires ufrag != "" && pwd != ""
    ensures Lines(Frag(ufrag, pwd, [c], [Media(mLine, mid, ufrag, pwd, [d])])) ==
            ["a=ice-ufrag:" + ufrag, "a=ice-pwd:" + pwd, "a=" + c.line,
             "m=" + mLine, "a=mid:" + mid, "a=ice-ufrag:" + ufrag, "a=ice-pwd:" + pwd, "a=candidate:" + d.line]
  {
    OneMedia(Media(mLine, mid, ufrag, pwd, [d]));
    OneCandidate("a=", c);
    OneCandidate("a=candidate:", d);
  }

  /** Nothing is printed for a ufrag or password that is empty, and every line ends with CR and LF. */
  lemma PrintedText(mLine: string, mid: string)
    ensures Text(Lines(Frag("", "", [], [Media(mLine, mid, "", "", [])]))) == "m=" + mLine + "\r\n" + "a=mid:" + mid + "\r\n"
  {
    OneMedia(Media(mLine, mid, "", "", []));
    var ls := ["m=" + mLine, "a=mid:" + mid];
    assert Lines(Frag("", "", [], [Media(mLine, mid, "", "", [])])) == ls;
    assert ls == ([] + ["m=" + mLine]) + ["a=mid:" + mid];
    TextOfLine([], "m=" + mLine);
    TextOfLine([] + ["m=" + mLine], "a=mid:" + mid);
  }

  // ---------------------------------------------------------------- what is read

  /** Lines may end with LF alone, and the last one need not end at all. */
  lemma OtherLineEnds(l: string, rest: string)
    requires '\n' !in l && (l != "" ==> l[|l| - 1] != '\r') && |l| < 65536
    ensures Scan(l + "\n" + rest) == [l] + Scan(rest)
    ensures Scan(l) == if l == "" then [] else [l]
  {
    var text := l + "\n" + rest;
    assert text[|l|] == '\n' && forall i :: 0 <= i < |l| ==> text[i] == l[i];
    assert Newline(text) == |l|;
    assert text[..|l|] == l && text[|l| + 1..] == rest;
    if l != "" {
      assert Newline(l) == |l|;
    }
  }

  /** Lines read before any section. */
  lemma ReadAtSession(s: Frag, v: string)
    ensures ParseLine(Parse(s, None), "a=ice-ufrag:" + v) == Parse(s.(ufrag := v), None)
    ensures ParseLine(Parse(s, None), "a=ice-pwd:" + v) == Parse(s.(pwd := v), None)
    ensures ParseLine(Parse(s, None), "m=" + v) == Parse(s, Some(Media(v, "", "", "", [])))
    ensures ParseLine(Parse(s, None), "a=mid:" + v) == UnexpectedMid
    ensures ParseLine(Parse(s, None), "a=candidate:" + v) ==
            Parse(s.(candidates := s.candidates + [Candidate(v, None, None, if s.ufrag == "" then None else Some(s.ufrag))]), None)
  {
    hide ParseLine;
    var p := Parse(s, None);
    ReadUfrag(p, v);
    ReadPwd(p, v);
    ReadM(p, v);
    ReadMidAtSession(s, v);
    ReadCandidateAtSession(s, v);
  }

  lemma ReadMidAtSession(s: Frag, v: string)
    ensures ParseLine(Parse(s, None), "a=mid:" + v) == UnexpectedMid
  {
    var l := "a=mid:" + v;
    assert l[0] == 'a' && M[0] == 'm';
    assert l[2] == 'm' && UFRAG[2] == 'i' && PWD[2] == 'i';
  }

  lemma ReadCandidateAtSession(s: Frag, v: string)
    ensures ParseLine(Parse(s, None), "a=candidate:" + v) ==
            Parse(s.(candidates := s.candidates + [Candidate(v, None, None, if s.ufrag == "" then None else Some(s.ufrag))]), None)
  {
    var l := "a=candidate:" + v;
    assert l[|CANDIDATE|..] == v;
    assert l[0] == 'a' && M[0] == 'm';
    assert l[2] == 'c' && UFRAG[2] == 'i' && PWD[2] == 'i' && MID[2] == 'm';
  }

  /** Lines read within a section. */
  lemma ReadInSection(s: Frag, m: Media, v: string)
    ensures ParseLine(Parse(s, Some(m)), "a=ice-ufrag:" + v) == Parse(s, Some(m.(ufrag := v)))
    ensures ParseLine(Parse(s, Some(m)), "a=ice-pwd:" + v) == Parse(s, Some(m.(pwd := v)))
    ensures ParseLine(Parse(s, Some(m)), "m=" + v) == Parse(s.(medias := s.medias + [m]), Some(Media(v, "", "", "", [])))
    ensures ParseLine(Parse(s, Some(m)), "a=mid:" + v) == Parse(s, Some(m.(mid := v)))
    ensures ParseLine(Parse(s, Some(m)), "a=candidate:" + v) ==
            var c := Candidate(v, Some(m.mid), Some(|s.medias| % 0x1_0000), if s.ufrag == "" then None else Some(s.ufrag));
            Parse(s, Some(m.(candidates := m.candidates + [c])))
  {
    var p := Parse(s, Some(m));
    ReadUfrag(p, v);
    ReadPwd(p, v);
    ReadM(p, v);
    ReadMid(p, v);
    ReadCandidate(p, v);
  }

  /** All other lines are ignored. */
  lemma OthersAreIgnored(p: Parse, l: string)
    requires !("a=ice-ufrag:" <= l) && !("a=ice-pwd:" <= l) && !("m=" <= l) && !("a=mid:" <= l) && !("a=candidate:" <= l)
    ensures ParseLine(p, l) == p
  {
  }

  /** A session-level candidate is printed without a prefix of its own. If it has one, it is read back without it. */
  lemma SessionCandidateIsCut(s: Frag, line: string)
    requires "candidate:" <= line
    ensures ParseLine(Parse(s, None), "a=" + line) ==
            var c := Candidate(line[10..], None, None, if s.ufrag == "" then None else Some(s.ufrag));
            Parse(s.(candidates := s.candidates + [c]), None)
  {
    assert "a=" + line == "a=candidate:" + line[10..] by {
      assert line == "candidate:" + line[10..];
    }
    ReadAtSession(s, line[10..]);
  }

  // ---------------------------------------------------------------- when parsing fails

  /** A mid comes before any section. */
  ghost predicate MidTooEarly(ls: seq<string>) {
    exists i :: 0 <= i < |ls| && "a=mid:" <= ls[i] && forall k :: 0 <= k < i ==> !("m=" <= ls[k])
  }

  predicate HasSection(ls: seq<string>) {
    exists i :: 0 <= i < |ls| && "m=" <= ls[i]
  }

  lemma OneMoreLine(ls: seq<string>, l: string)
    ensures HasSection(ls + [l]) <==> HasSection(ls) || "m=" <= l
    ensures MidTooEarly(ls + [l]) <==> MidTooEarly(ls) || ("a=mid:" <= l && !HasSection(ls))
  {
    var all := ls + [l];
    assert forall i :: 0 <= i < |ls| ==> all[i] == ls[i];
    assert all[|ls|] == l;
    if i :| 0 <= i < |ls| && "m=" <= ls[i] {
      assert "m=" <= all[i];
    }
    if i :| 0 <= i < |ls| && "a=mid:" <= ls[i] && forall k :: 0 <= k < i ==> !("m=" <= ls[k]) {
      assert "a=mid:" <= all[i];
    }
  }

  /** Lines are refused exactly if a mid comes before any section, and a section is being read from the first one on. */
  lemma {:induction false} ParseFailsIff(s: Frag, ls: seq<string>)
    ensures ParseLines(Parse(s, None), ls).UnexpectedMid? <==> MidTooEarly(ls)
    ensures ParseLines(Parse(s, None), ls).Parse? ==> (ParseLines(Parse(s, None), ls).media.Some? <==> HasSection(ls))
  {
    hide MidTooEarly, HasSection;
    if ls == [] {
      NoLines();
    } else {
      var n := |ls| - 1;
      ParseFailsIff(s, ls[..n]);
      assert ls[..n] + [ls[n]] == ls;
      OneMoreLine(ls[..n], ls[n]);
      LineKinds(ls[n]);
    }
  }

  lemma NoLines()
    ensures !MidTooEarly([]) && !HasSection([])
  {
  }

  lemma LineKinds(l: string)
    ensures "a=mid:" <= l || "m=" <= l ==> !("a=ice-ufrag:" <= l) && !("a=ice-pwd:" <= l) && !("a=candidate:" <= l)
    ensures !("a=mid:" <= l && "m=" <= l)
  {
    if "a=mid:" <= l {
      assert l[0] == 'a' && l[2] == 'm';
    }
    if "m=" <= l {
      assert l[0] == 'm';
    }
  }
}

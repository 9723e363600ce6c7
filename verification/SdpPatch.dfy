/** Applying a trickle-ICE fragment to a session description. */
module SdpPatch {
  import opened SdpFrag

  datatype Attribute = Attribute(key: string, value: string)

  /** What matters of a session description: the attributes of each level. */
  datatype Session = Session(attributes: seq<Attribute>, medias: seq<seq<Attribute>>)

  const ICE_UFRAG := "ice-ufrag"
  const ICE_PWD := "ice-pwd"
  const ICE_CANDIDATE := "candidate"

  // ---------------------------------------------------------------- one level

  /** What becomes of one attribute: it is replaced, dropped or kept. */
  function PatchOne(ufrag: string, pwd: string, a: Attribute, restart: bool): seq<Attribute> {
    if a.key == ICE_UFRAG then if ufrag == "" then [] else [Attribute(ICE_UFRAG, ufrag)]
    else if a.key == ICE_PWD then if pwd == "" then [] else [Attribute(ICE_PWD, pwd)]
    else if restart && a.key == ICE_CANDIDATE then []
    else [a]
  }

  function PatchAll(ufrag: string, pwd: string, before: seq<Attribute>, restart: bool): seq<Attribute> {
    if before == [] then []
    else PatchAll(ufrag, pwd, before[..|before| - 1], restart) + PatchOne(ufrag, pwd, before[|before| - 1], restart)
  }

  function CandidateAttributes(cs: seq<Candidate>): seq<Attribute> {
    if cs == [] then [] else CandidateAttributes(cs[..|cs| - 1]) + [Attribute(ICE_CANDIDATE, cs[|cs| - 1].line)]
  }

  method Patch(ufrag: string, pwd: string, before: seq<Attribute>, cs: seq<Candidate>, restart: bool)
    returns (attrs: seq<Attribute>)
    ensures attrs == PatchAll(ufrag, pwd, before, restart) + CandidateAttributes(cs)
  {
    attrs := [];
    var i := 0;
    while i < |before|
      invariant 0 <= i <= |before| && attrs == PatchAll(ufrag, pwd, before[..i], restart)
    {
      assert before[..i + 1][..i] == before[..i];
      var a := before[i];
      if a.key == ICE_UFRAG {
        if ufrag != "" {
          attrs := attrs + [Attribute(ICE_UFRAG, ufrag)];
        }
      } else if a.key == ICE_PWD {
        if pwd != "" {
          attrs := attrs + [Attribute(ICE_PWD, pwd)];
        }
      } else if !restart || a.key != ICE_CANDIDATE {
        attrs := attrs + [a];
      }
      i := i + 1;
    }
    assert before[..i] == before;
    var k := 0;
    ghost var head := attrs;
    while k < |cs|
      invariant 0 <= k <= |cs| && attrs == head + CandidateAttributes(cs[..k])
    {
      assert cs[..k + 1][..k] == cs[..k];
      attrs := attrs + [Attribute(ICE_CANDIDATE, cs[k].line)];
      k := k + 1;
    }
    assert cs[..k] == cs;
  }

  predicate IsIce(a: Attribute) {
    a.key == "ice-ufrag" || a.key == "ice-pwd" || a.key == "candidate"
  }

  /** The attributes that have nothing to do with ICE. */
  function Others(attrs: seq<Attribute>): seq<Attribute> {
    if attrs == [] then []
    else Others(attrs[..|attrs| - 1]) + if IsIce(attrs[|attrs| - 1]) then [] else [attrs[|attrs| - 1]]
  }

  /** The values of the attributes with a key. */
  function Values(attrs: seq<Attribute>, key: string): seq<string> {
    if attrs == [] then []
    else Values(attrs[..|attrs| - 1], key) + if attrs[|attrs| - 1].key == key then [attrs[|attrs| - 1].value] else []
  }

  function CandidateStrings(cs: seq<Candidate>): seq<string> {
    if cs == [] then [] else CandidateStrings(cs[..|cs| - 1]) + [cs[|cs| - 1].line]
  }

  lemma {:induction false} OthersSum(a: seq<Attribute>, b: seq<Attribute>)
    ensures Others(a + b) == Others(a) + Others(b)
  {
    if b == [] {
      assert a + b == a;
    } else {
      OthersSum(a, b[..|b| - 1]);
      assert (a + b)[..|a + b| - 1] == a + b[..|b| - 1];
    }
  }

  lemma {:induction false} ValuesSum(a: seq<Attribute>, b: seq<Attribute>, key: string)
    ensures Values(a + b, key) == Values(a, key) + Values(b, key)
  {
    if b == [] {
      assert a + b == a;
    } else {
      ValuesSum(a, b[..|b| - 1], key);
      assert (a + b)[..|a + b| - 1] == a + b[..|b| - 1];
    }
  }

  /** The same string, n times. */
  function Copies(n: nat, v: string): (s: seq<string>)
    ensures |s| == n
  {
    if n == 0 then [] else Copies(n - 1, v) + [v]
  }

  lemma OneAttribute(attrs: seq<Attribute>, key: string)
    requires |attrs| <= 1
    ensures Values(attrs, key) == if |attrs| == 1 && attrs[0].key == key then [attrs[0].value] else []
    ensures Others(attrs) == if |attrs| == 1 && !IsIce(attrs[0]) then attrs else []
  {
    if |attrs| == 1 {
      assert attrs[..0] == [];
    }
  }

  lemma PatchOneMeaning(ufrag: string, pwd: string, a: Attribute, restart: bool)
    ensures var one := PatchOne(ufrag, pwd, a, restart);
            && Others(one) == (if IsIce(a) then [] else [a])
            && Values(one, ICE_UFRAG) == (if a.key == ICE_UFRAG && ufrag != "" then [ufrag] else [])
            && Values(one, ICE_PWD) == (if a.key == ICE_PWD && pwd != "" then [pwd] else [])
            && Values(one, ICE_CANDIDATE) == (if a.key == ICE_CANDIDATE && !restart then [a.value] else [])
  {
    var one := PatchOne(ufrag, pwd, a, restart);
    OneAttribute(one, ICE_UFRAG);
    OneAttribute(one, ICE_PWD);
    OneAttribute(one, ICE_CANDIDATE);
  }

  /** Patching keeps all attributes that are not ICE's, in order. */
  lemma {:induction false} PatchKeepsOthers(ufrag: string, pwd: string, before: seq<Attribute>, restart: bool)
    ensures Others(PatchAll(ufrag, pwd, before, restart)) == Others(before)
  {
    hide PatchOne, IsIce;
    if before != [] {
      var rest, a := before[..|before| - 1], before[|before| - 1];
      PatchKeepsOthers(ufrag, pwd, rest, restart);
      PatchOneMeaning(ufrag, pwd, a, restart);
      OthersSum(PatchAll(ufrag, pwd, rest, restart), PatchOne(ufrag, pwd, a, restart));
    }
  }

  /** Each ufrag and password is replaced, or dropped if there is none. */
  lemma {:induction false} PatchUfrags(ufrag: string, pwd: string, before: seq<Attribute>, restart: bool)
    ensures Values(PatchAll(ufrag, pwd, before, restart), ICE_UFRAG) ==
            if ufrag == "" then [] else Copies(|Values(before, ICE_UFRAG)|, ufrag)
  {
    hide PatchOne, IsIce;
    if before != [] {
      var rest, a := before[..|before| - 1], before[|before| - 1];
      PatchUfrags(ufrag, pwd, rest, restart);
      PatchOneMeaning(ufrag, pwd, a, restart);
      ValuesSum(PatchAll(ufrag, pwd, rest, restart), PatchOne(ufrag, pwd, a, restart), ICE_UFRAG);
    }
  }

  lemma {:induction false} PatchPwds(ufrag: string, pwd: string, before: seq<Attribute>, restart: bool)
    ensures Values(PatchAll(ufrag, pwd, before, restart), ICE_PWD) ==
            if pwd == "" then [] else Copies(|Values(before, ICE_PWD)|, pwd)
  {
    hide PatchOne, IsIce;
    if before != [] {
      var rest, a := before[..|before| - 1], before[|before| - 1];
      PatchPwds(ufrag, pwd, rest, restart);
      PatchOneMeaning(ufrag, pwd, a, restart);
      ValuesSum(PatchAll(ufrag, pwd, rest, restart), PatchOne(ufrag, pwd, a, restart), ICE_PWD);
    }
  }

  /** Candidates are dropped on a restart. */
  lemma {:induction false} PatchCandidates(ufrag: string, pwd: string, before: seq<Attribute>, restart: bool)
    ensures Values(PatchAll(ufrag, pwd, before, restart), ICE_CANDIDATE) ==
            if restart then [] else Values(before, ICE_CANDIDATE)
  {
    hide PatchOne, IsIce;
    if before != [] {
      var rest, a := before[..|before| - 1], before[|before| - 1];
      PatchCandidates(ufrag, pwd, rest, restart);
      PatchOneMeaning(ufrag, pwd, a, restart);
      ValuesSum(PatchAll(ufrag, pwd, rest, restart), PatchOne(ufrag, pwd, a, restart), ICE_CANDIDATE);
    }
  }

  lemma {:induction false} CandidateAttributesMeaning(cs: seq<Candidate>)
    ensures var attrs := CandidateAttributes(cs);
            && Others(attrs) == [] && Values(attrs, ICE_UFRAG) == [] && Values(attrs, ICE_PWD) == []
            && Values(attrs, ICE_CANDIDATE) == CandidateStrings(cs)
  {
    if cs != [] {
      CandidateAttributesMeaning(cs[..|cs| - 1]);
      var attrs := CandidateAttributes(cs);
      assert attrs[..|attrs| - 1] == CandidateAttributes(cs[..|cs| - 1]);
    }
  }

  /** One level, patched. */
  ghost predicate PatchedLevel(before: seq<Attribute>, attrs: seq<Attribute>, ufrag: string, pwd: string,
                               cs: seq<Candidate>, restart: bool) {
    && Others(attrs) == Others(before)
    && Values(attrs, "ice-ufrag") == (if ufrag == "" then [] else Copies(|Values(before, "ice-ufrag")|, ufrag))
    && Values(attrs, "ice-pwd") == (if pwd == "" then [] else Copies(|Values(before, "ice-pwd")|, pwd))
    && Values(attrs, "candidate") == (if restart then [] else Values(before, "candidate")) + CandidateStrings(cs)
  }

  lemma PatchMeaning(ufrag: string, pwd: string, before: seq<Attribute>, cs: seq<Candidate>, restart: bool)
    ensures PatchedLevel(before, PatchAll(ufrag, pwd, before, restart) + CandidateAttributes(cs), ufrag, pwd, cs, restart)
  {
    PatchKeepsOthers(ufrag, pwd, before, restart);
    PatchUfrags(ufrag, pwd, before, restart);
    PatchPwds(ufrag, pwd, before, restart);
    PatchCandidates(ufrag, pwd, before, restart);
    CandidateAttributesMeaning(cs);
    var a, b := PatchAll(ufrag, pwd, before, restart), CandidateAttributes(cs);
    OthersSum(a, b);
    ValuesSum(a, b, ICE_UFRAG);
    ValuesSum(a, b, ICE_PWD);
    ValuesSum(a, b, ICE_CANDIDATE);
  }

  // ---------------------------------------------------------------- the session

  /** The first value of a key, or the empty string. */
  function First(attrs: seq<Attribute>, key: string): string {
    if attrs == [] then "" else if attrs[0].key == key then attrs[0].value else First(attrs[1..], key)
  }

  lemma {:induction false} FirstIsFirstValue(attrs: seq<Attribute>, key: string)
    ensures First(attrs, key) == if Values(attrs, key) == [] then "" else Values(attrs, key)[0]
  {
    if attrs != [] {
      FirstIsFirstValue(attrs[1..], key);
      assert [attrs[0]] + attrs[1..] == attrs;
      ValuesSum([attrs[0]], attrs[1..], key);
      OneAttribute([attrs[0]], key);
    }
  }

  /** The ufrag and password of the first level that has a ufrag. */
  function LevelsUFragPwd(levels: seq<seq<Attribute>>): (string, string) {
    if levels == [] then ("", "")
    else if First(levels[0], ICE_UFRAG) != "" then (First(levels[0], ICE_UFRAG), First(levels[0], ICE_PWD))
    else LevelsUFragPwd(levels[1..])
  }

  /** Level i is the first with a ufrag, which is not empty. */
  predicate FirstUfrag(levels: seq<seq<Attribute>>, i: nat) {
    && i < |levels|
    && Values(levels[i], "ice-ufrag") != [] && Values(levels[i], "ice-ufrag")[0] != ""
    && forall k :: 0 <= k < i ==> Values(levels[k], "ice-ufrag") == [] || Values(levels[k], "ice-ufrag")[0] == ""
  }

  /** The credentials are the first ufrag of the first level that has one, with the first password of that level. */
  lemma {:induction false} CredentialsAreTheFirst(levels: seq<seq<Attribute>>, i: nat)
    requires FirstUfrag(levels, i)
    ensures var ufrags, pwds := Values(levels[i], "ice-ufrag"), Values(levels[i], "ice-pwd");
            LevelsUFragPwd(levels) == (ufrags[0], if pwds == [] then "" else pwds[0])
  {
    hide Values;
    FirstIsFirstValue(levels[0], ICE_UFRAG);
    FirstIsFirstValue(levels[0], ICE_PWD);
    if i > 0 {
      assert forall k :: 0 <= k < i ==> levels[1..][k] == levels[k + 1];
      CredentialsAreTheFirst(levels[1..], i - 1);
    }
  }

  /** There are none if no level has a ufrag. */
  lemma {:induction false} OrNone(levels: seq<seq<Attribute>>)
    requires forall k :: 0 <= k < |levels| ==> Values(levels[k], "ice-ufrag") == [] || Values(levels[k], "ice-ufrag")[0] == ""
    ensures LevelsUFragPwd(levels) == ("", "")
  {
    hide Values;
    if levels != [] {
      FirstIsFirstValue(levels[0], ICE_UFRAG);
      OrNone(levels[1..]);
    }
  }

  function Levels(s: Session): seq<seq<Attribute>> {
    [s.attributes] + s.medias
  }

  function SessionUFragPwd(s: Session): (string, string) {
    LevelsUFragPwd(Levels(s))
  }

  function MediasUFragPwd(ms: seq<Media>): (string, string) {
    if ms == [] then ("", "")
    else if ms[0].ufrag != "" then (ms[0].ufrag, ms[0].pwd)
    else MediasUFragPwd(ms[1..])
  }

  function FragUFragPwd(f: Frag): (string, string) {
    if f.ufrag != "" then (f.ufrag, f.pwd) else MediasUFragPwd(f.medias)
  }

  /** The fragment's credentials are those of its session level, if it has a ufrag there, and otherwise those of the
      first section that has one; none, if none has. */
  lemma {:induction false} FragCredentialsAreTheFirst(f: Frag, i: nat)
    ensures f.ufrag != "" ==> FragUFragPwd(f) == (f.ufrag, f.pwd)
    ensures f.ufrag == "" && i < |f.medias| && f.medias[i].ufrag != "" && (forall k :: 0 <= k < i ==> f.medias[k].ufrag == "") ==>
              FragUFragPwd(f) == (f.medias[i].ufrag, f.medias[i].pwd)
    ensures f.ufrag == "" && (forall k :: 0 <= k < |f.medias| ==> f.medias[k].ufrag == "") ==> FragUFragPwd(f) == ("", "")
  {
    MediasCredentials(f.medias, i);
  }

  lemma {:induction false} MediasCredentials(ms: seq<Media>, i: nat)
    ensures i < |ms| && ms[i].ufrag != "" && (forall k :: 0 <= k < i ==> ms[k].ufrag == "") ==>
              MediasUFragPwd(ms) == (ms[i].ufrag, ms[i].pwd)
    ensures (forall k :: 0 <= k < |ms| ==> ms[k].ufrag == "") ==> MediasUFragPwd(ms) == ("", "")
  {
    if ms != [] {
      MediasCredentials(ms[1..], if i > 0 then i - 1 else 0);
      if i < |ms| && i > 0 {
        assert ms[1..][i - 1] == ms[i];
      }
    }
  }

  /** The fragment's candidates for level i; level 0 is the session. */
  function LevelCandidates(f: Frag, i: nat): seq<Candidate> {
    if i == 0 then f.candidates else if i - 1 < |f.medias| then f.medias[i - 1].candidates else []
  }

  /** One level, patched by the fragment. */
  function PatchLevel(f: Frag, before: seq<Attribute>, i: nat, restart: bool): seq<Attribute> {
    PatchAll(FragUFragPwd(f).0, FragUFragPwd(f).1, before, restart) + CandidateAttributes(LevelCandidates(f, i))
  }

  /** The fragment's credentials are not the session's. */
  predicate Restarts(s: Session, f: Frag) {
    SessionUFragPwd(s) != FragUFragPwd(f)
  }

  /** The session, patched by the fragment. */
  function Patched(s: Session, f: Frag): Session {
    Session(PatchLevel(f, s.attributes, 0, Restarts(s, f)),
            seq(|s.medias|, i requires 0 <= i < |s.medias| => PatchLevel(f, s.medias[i], i + 1, Restarts(s, f))))
  }

  /** Adds the fragment's candidates to each level, or, if the credentials changed, replaces the old ones by them. */
  method PatchSDP(s: Session, f: Frag) returns (r: Session, restart: bool)
    ensures r == Patched(s, f) && restart == Restarts(s, f)
    ensures |r.medias| == |s.medias|
    ensures var (ufrag, pwd) := FragUFragPwd(f);
            && PatchedLevel(s.attributes, r.attributes, ufrag, pwd, f.candidates, restart)
            && forall i :: 0 <= i < |s.medias| ==>
                 PatchedLevel(s.medias[i], r.medias[i], ufrag, pwd, if i < |f.medias| then f.medias[i].candidates else [], restart)
  {
    hide PatchedLevel, PatchAll, CandidateAttributes, LevelsUFragPwd, FragUFragPwd, Levels;
    var (ufrag, pwd) := SessionUFragPwd(s);
    var (ufrag1, pwd1) := FragUFragPwd(f);
    restart := ufrag != ufrag1 || pwd != pwd1;

    var attributes := Patch(ufrag1, pwd1, s.attributes, f.candidates, restart);
    var medias := [];
    var i := 0;
    while i < |s.medias|
      invariant 0 <= i <= |s.medias| && |medias| == i
      invariant forall k :: 0 <= k < i ==> medias[k] == PatchLevel(f, s.medias[k], k + 1, restart)
    {
      var mm := Media("", "", "", "", []);
      if i < |f.medias| {
        mm := f.medias[i];
      }
      var m := Patch(ufrag1, pwd1, s.medias[i], mm.candidates, restart);
      medias := medias + [m];
      i := i + 1;
    }
    r := Session(attributes, medias);
    PatchMeaning(ufrag1, pwd1, s.attributes, f.candidates, restart);
    forall i | 0 <= i < |s.medias|
      ensures PatchedLevel(s.medias[i], r.medias[i], ufrag1, pwd1, if i < |f.medias| then f.medias[i].candidates else [], restart)
    {
      PatchMeaning(ufrag1, pwd1, s.medias[i], LevelCandidates(f, i + 1), restart);
    }
  }

  /** Patching a session patches each of its levels. */
  lemma PatchedMeaning(s: Session, f: Frag)
    ensures |Levels(Patched(s, f))| == |Levels(s)|
    ensures forall i :: 0 <= i < |Levels(s)| ==>
              PatchedLevel(Levels(s)[i], Levels(Patched(s, f))[i], FragUFragPwd(f).0, FragUFragPwd(f).1,
                           LevelCandidates(f, i), Restarts(s, f))
  {
    hide PatchedLevel, PatchAll, CandidateAttributes, FragUFragPwd, SessionUFragPwd;
    var r := Patched(s, f);
    forall i | 0 <= i < |Levels(s)|
      ensures PatchedLevel(Levels(s)[i], Levels(r)[i], FragUFragPwd(f).0, FragUFragPwd(f).1, LevelCandidates(f, i), Restarts(s, f))
    {
      assert Levels(r)[i] == PatchLevel(f, Levels(s)[i], i, Restarts(s, f));
      PatchMeaning(FragUFragPwd(f).0, FragUFragPwd(f).1, Levels(s)[i], LevelCandidates(f, i), Restarts(s, f));
    }
  }

  // ---------------------------------------------------------------- patching again

  /** Some level has a ufrag attribute, and the first that does has a password attribute, if a password is wanted. */
  predicate Keeps(levels: seq<seq<Attribute>>, pwd: string) {
    levels != [] &&
    if Values(levels[0], ICE_UFRAG) != [] then pwd == "" || Values(levels[0], ICE_PWD) != [] else Keeps(levels[1..], pwd)
  }

  /** Each level's ufrags and passwords are replaced by the given ones, or dropped. */
  ghost predicate Replaced(before: seq<seq<Attribute>>, levels: seq<seq<Attribute>>, ufrag: string, pwd: string) {
    && |levels| == |before|
    && forall i :: 0 <= i < |before| ==>
         && Values(levels[i], ICE_UFRAG) == (if ufrag == "" then [] else Copies(|Values(before[i], ICE_UFRAG)|, ufrag))
         && Values(levels[i], ICE_PWD) == (if pwd == "" then [] else Copies(|Values(before[i], ICE_PWD)|, pwd))
  }

  /** The patched levels have the given credentials exactly if there is a place for them. */
  lemma {:induction false} PatchedCredentials(before: seq<seq<Attribute>>, levels: seq<seq<Attribute>>, ufrag: string, pwd: string)
    requires Replaced(before, levels, ufrag, pwd) && ufrag != ""
    ensures LevelsUFragPwd(levels) == (ufrag, pwd) <==> Keeps(before, pwd)
    ensures Keeps(levels, pwd) <==> Keeps(before, pwd)
  {
    if before != [] {
      FirstIsFirstValue(levels[0], ICE_UFRAG);
      FirstIsFirstValue(levels[0], ICE_PWD);
      if Values(before[0], ICE_UFRAG) != [] {
        FirstCopy(|Values(before[0], ICE_UFRAG)|, ufrag);
        if pwd != "" && Values(before[0], ICE_PWD) != [] {
          FirstCopy(|Values(before[0], ICE_PWD)|, pwd);
        }
      } else {
        PatchedCredentials(before[1..], levels[1..], ufrag, pwd);
      }
    }
  }

  lemma {:induction false} NoCredentials(levels: seq<seq<Attribute>>)
    requires forall i :: 0 <= i < |levels| ==> Values(levels[i], ICE_UFRAG) == []
    ensures LevelsUFragPwd(levels) == ("", "")
  {
    if levels != [] {
      FirstIsFirstValue(levels[0], ICE_UFRAG);
      NoCredentials(levels[1..]);
    }
  }

  lemma {:induction false} FirstCopy(n: nat, v: string)
    requires n > 0
    ensures Copies(n, v)[0] == v
  {
    if n > 1 {
      FirstCopy(n - 1, v);
    }
  }

  lemma {:induction false} NoUfragNoPwd(ms: seq<Media>)
    ensures MediasUFragPwd(ms).0 == "" ==> MediasUFragPwd(ms).1 == ""
  {
    if ms != [] {
      NoUfragNoPwd(ms[1..]);
    }
  }

  /** The fragment has no ufrag, or the session keeps credentials where they can be replaced. */
  predicate Settles(s: Session, f: Frag) {
    FragUFragPwd(f).0 == "" || Keeps(Levels(s), FragUFragPwd(f).1)
  }

  /** After patching, the same fragment is not a restart exactly if the session settles, and patching does not
      change whether it does. */
  lemma RestartsAgainIff(s: Session, f: Frag)
    ensures !Restarts(Patched(s, f), f) <==> Settles(s, f)
    ensures Settles(Patched(s, f), f) <==> Settles(s, f)
  {
    hide Others, Values, Copies, LevelsUFragPwd, Patched, Keeps, Levels, FragUFragPwd;
    var (ufrag, pwd) := FragUFragPwd(f);
    PatchedMeaning(s, f);
    var levels := Levels(Patched(s, f));
    assert Replaced(Levels(s), levels, ufrag, pwd);
    if ufrag == "" {
      NoCredentials(levels);
      CredentialsOrNone(f);
    } else {
      PatchedCredentials(Levels(s), levels, ufrag, pwd);
    }
  }

  lemma CredentialsOrNone(f: Frag)
    ensures FragUFragPwd(f).0 == "" ==> FragUFragPwd(f).1 == ""
  {
    NoUfragNoPwd(f.medias);
  }

  /** The session, patched n times. */
  function PatchedTimes(s: Session, f: Frag, n: nat): Session {
    if n == 0 then s else Patched(PatchedTimes(s, f, n - 1), f)
  }

  /** However often the fragment is applied, it restarts only the first time if the session settles, and every
      time if it does not. */
  lemma {:induction false} RestartsEveryTimeIff(s: Session, f: Frag, n: nat)
    requires n > 0
    ensures Restarts(PatchedTimes(s, f, n), f) <==> !Settles(s, f)
    ensures Settles(PatchedTimes(s, f, n), f) <==> Settles(s, f)
  {
    hide Patched, Restarts, Settles;
    if n > 1 {
      RestartsEveryTimeIff(s, f, n - 1);
    }
    RestartsAgainIff(PatchedTimes(s, f, n - 1), f);
  }

  /** A session with a ufrag but no password attribute: a fragment with a password restarts it every time. */
  lemma NeverSettles(n: nat)
    ensures var s := Session([Attribute(ICE_UFRAG, "u")], [[]]);
            Restarts(PatchedTimes(s, Frag("u", "p", [], []), n), Frag("u", "p", [], []))
  {
    var s, f := Session([Attribute(ICE_UFRAG, "u")], [[]]), Frag("u", "p", [], []);
    assert ICE_UFRAG[4] != ICE_PWD[4];
    OneAttribute(s.attributes, ICE_UFRAG);
    OneAttribute(s.attributes, ICE_PWD);
    FirstIsFirstValue(s.attributes, ICE_UFRAG);
    FirstIsFirstValue(s.attributes, ICE_PWD);
    assert Levels(s)[0] == s.attributes;
    assert FragUFragPwd(f) == ("u", "p") && SessionUFragPwd(s) == ("u", "");
    if n > 0 {
      RestartsEveryTimeIff(s, f, n);
    }
  }

  /** Patching twice with the same fragment. */
  method PatchTwice(s: Session, f: Frag) returns (r: Session, restart: bool)
    ensures restart <==> !Settles(s, f)
    ensures |r.medias| == |s.medias|
    ensures forall i :: 0 <= i < |Levels(s)| ==> Others(Levels(r)[i]) == Others(Levels(s)[i])
  {
    hide Others, Values, Copies, LevelsUFragPwd, Settles, Patched;
    var once, first := PatchSDP(s, f);
    r, restart := PatchSDP(once, f);
    RestartsAgainIff(s, f);
  }
}

/** Whole runs of calls on a packet map: what the returned answers mean, and exactly where the late lookup stops
    being right. */
module PacketMapRuns {
  import opened Serial
  import opened Windows
  import opened RemapEpoch
  import opened PacketMap

  // ---------------------------------------------------------------- calls

  datatype Call = Mapping(seqno: U16, pid: U16) | Dropping(seqno: U16, pid: U16)

  /** The epoch after a call; a drop of anything but the next number is refused. */
  ghost function After(e: Epoch, c: Call): Epoch
    requires CanForward(e)
  {
    match c
    case Mapping(seqno, pid) => AfterMap(e, seqno, pid)
    case Dropping(seqno, pid) => if seqno == W(e.next) then Discard(e, pid) else e
  }

  /** The call starts no new epoch, and leads from e to e'. */
  ghost predicate CallStep(e: Epoch, c: Call, e': Epoch) {
    CanForward(e) && (c.Mapping? ==> !Jumps(e, c.seqno)) && e' == After(e, c)
  }

  ghost predicate IsCallRun(es: seq<Epoch>, cs: seq<Call>) {
    && |es| == |cs| + 1
    && Inv(es[0])
    && forall i :: 0 <= i < |cs| ==> CallStep(es[i], cs[i], es[i + 1])
  }

  /** The unbounded number that a call of Map is about. */
  function Meant(e: Epoch, seqno: U16): int {
    if IsAhead(e, seqno) then Ahead(e, seqno) else Behind(e, seqno)
  }

  lemma AfterKeepsInv(e: Epoch, c: Call)
    requires Inv(e) && CanForward(e)
    ensures Inv(After(e, c))
  {
    hide Inv, Recall, Forward, W;
    match c
    case Mapping(seqno, pid) => AfterMapInv(e, seqno, pid);
    case Dropping(_, pid) => DiscardKeepsInv(e, pid);
  }

  lemma {:induction false} CallsKeepInv(es: seq<Epoch>, cs: seq<Call>, i: nat)
    requires IsCallRun(es, cs) && i < |es|
    ensures Inv(es[i])
  {
    hide Inv, After;
    if i > 0 {
      CallsKeepInv(es, cs, i - 1);
      assert CallStep(es[i - 1], cs[i - 1], es[i]);
      AfterKeepsInv(es[i - 1], cs[i - 1]);
    }
  }

  /** Calls forget no answer. */
  lemma StepKeepsAnswer(e: Epoch, c: Call, e': Epoch, s: int)
    requires Inv(e) && CallStep(e, c, e') && s in e.log
    ensures s in e'.log && e'.log[s] == e.log[s]
  {
    hide Inv, Recall, Forward, MapAnswer, W;
    match c
    case Mapping(seqno, pid) =>
      MapIsStep(e, seqno, pid);
      var ev := if IsAhead(e, seqno) then InOrder(Ahead(e, seqno), pid) else Late(Behind(e, seqno));
      StepKeepsLog(e, ev, e', s);
    case Dropping(_, _) =>
  }

  lemma {:induction false} CallsKeepAnswers(es: seq<Epoch>, cs: seq<Call>, i: nat, k: nat, s: int)
    requires IsCallRun(es, cs) && i <= k < |es| && s in es[i].log
    ensures s in es[k].log && es[k].log[s] == es[i].log[s]
    decreases k
  {
    hide Inv, After;
    if i < k {
      CallsKeepAnswers(es, cs, i, k - 1, s);
      CallsKeepInv(es, cs, k - 1);
      StepKeepsAnswer(es[k - 1], cs[k - 1], es[k], s);
    }
  }

  lemma RankOfLogged(e: Epoch, s: int)
    requires Inv(e) && s in e.log
    ensures s !in e.dropped && e.log[s].target == s - Rank(e.dropped, s)
  {
  }

  /** A call of Map that is answered, and is in order, or all intervals remembered start less than 2^15 before next. */
  ghost predicate Answers(e: Epoch, c: Call) {
    && c.Mapping?
    && (IsAhead(e, c.seqno) || AllNear(e))
    && MapAnswer(e, c.seqno).ok
  }

  /** What is returned for a number in order, or late with all intervals recent, is logged for that number. */
  lemma AnsweredIsLogged(e: Epoch, c: Call, e': Epoch)
    requires Inv(e) && CallStep(e, c, e') && Answers(e, c)
    ensures var s := Meant(e, c.seqno);
            s in e'.log && MapAnswer(e, c.seqno) == Answer(true, W(e'.log[s].target), e'.log[s].pid)
  {
    hide Inv, Recall, Forward, MapAnswer, W;
    if IsAhead(e, c.seqno) {
      InOrderMeaning(e, c.seqno, c.pid);
    } else {
      LateMeaning(e, c.seqno, c.pid);
    }
  }

  /** Rank refinement of the answers themselves. In every run of calls within an epoch, an answer for s that is
      given in order, or late while all intervals remembered are recent, is s minus the drops below it, all drops of the
      whole run counted; and s is never dropped. */
  lemma AnswersAreByRank(es: seq<Epoch>, cs: seq<Call>, i: nat, k: nat)
    requires IsCallRun(es, cs) && i < k < |es| && Answers(es[i], cs[i])
    ensures var s, dropped := Meant(es[i], cs[i].seqno), es[k].dropped;
            && s !in dropped
            && MapAnswer(es[i], cs[i].seqno).seqno == W(s - Rank(dropped, s))
  {
    hide Inv, After, Answers, MapAnswer, Meant, Rank, W;
    CallsKeepInv(es, cs, i);
    CallsKeepInv(es, cs, k);
    assert CallStep(es[i], cs[i], es[i + 1]);
    AnsweredIsLogged(es[i], cs[i], es[i + 1]);
    var s := Meant(es[i], cs[i].seqno);
    CallsKeepAnswers(es, cs, i + 1, k, s);
    RankOfLogged(es[k], s);
  }

  /** Of two such answers, the one for the later number is later too, by the difference of the numbers less the
      drops between them. */
  lemma AnswersIncrease(es: seq<Epoch>, cs: seq<Call>, i: nat, j: nat, k: nat)
    requires IsCallRun(es, cs) && i < k < |es| && j < k && Answers(es[i], cs[i]) && Answers(es[j], cs[j])
    requires Meant(es[i], cs[i].seqno) < Meant(es[j], cs[j].seqno)
    ensures var s, t := Meant(es[i], cs[i].seqno), Meant(es[j], cs[j].seqno);
            var gap := t - s - |Between(es[k].dropped, s, t)|;
            && gap > 0
            && W(MapAnswer(es[j], cs[j].seqno).seqno - MapAnswer(es[i], cs[i].seqno).seqno) == W(gap)
  {
    hide Inv, After, CallStep, Answers, MapAnswer, Meant, Rank, Between, W;
    AnswersAreByRank(es, cs, i, k);
    AnswersAreByRank(es, cs, j, k);
    var s, t := Meant(es[i], cs[i].seqno), Meant(es[j], cs[j].seqno);
    RenumberingIncreases(es[k].dropped, s, t);
    WrapSub(t - Rank(es[k].dropped, t), s - Rank(es[k].dropped, s));
  }

  // ---------------------------------------------------------------- what is answered, exactly

  /** What Map returns for every late number, remembered, forgotten or dropped. */
  lemma LateAnswerIs(e: Epoch, s: int)
    requires e.spans != [] && e.next - MAX_JUMP <= s < e.next
    ensures MapAnswer(e, W(s)) == Renumber(e.spans, Answerer(Sources(e.spans), s), W(s))
  {
    hide W, Scan, Answerer, Renumber;
    LateIsBehind(e, s);
    ScanIs(Sources(e.spans), s);
  }

  /** What Reverse returns for every number, however old. */
  lemma ReverseAnswerIs(e: Epoch, t: int)
    requires e.spans != []
    ensures ReverseAnswer(e, W(t)) == Restore(e.spans, Answerer(Targets(e.spans), t), W(t))
  {
    hide W, Scan, Answerer, Restore;
    ScanIs(Targets(e.spans), t);
  }

  /** The intervals after the one that holds s start after s, and their targets after its target. */
  lemma NewerStartLater(e: Epoch, j: nat, s: int)
    requires Inv(e) && j < |e.spans| && s < e.spans[j].End() && e.next - s < 0x8000
    ensures forall k :: j < k < |e.spans| ==> s < Sources(e.spans)[k].start < s + 0x8000
    ensures e.spans[j].Has(s) ==>
              var t := s + e.spans[j].delta;
              forall k :: j < k < |e.spans| ==> t < Targets(e.spans)[k].start < t + 0x8000
    ensures e.spans[j].End() <= e.next
  {
  }

  /** The windows after a number, but less than 2^15 after it, pass it on. */
  lemma NewerPass(ws: seq<Window>, s: int, j: nat)
    requires forall k :: j < k < |ws| ==> s < ws[k].start < s + 0x8000
    ensures forall k :: j < k < |ws| ==> Passes(ws[k], s)
  {
    hide Passes;
    forall k | j < k < |ws| ensures Passes(ws[k], s) {
      NearWindow(ws[k], s);
    }
  }

  /** A late number that an interval holds is answered by it exactly when the number is at most 2^15 after the
      interval's start, modulo 2^16. Otherwise it is refused, or answered by an older interval, which does not hold it. */
  lemma LateHolderAnswersIff(e: Epoch, j: nat, s: int)
    requires Inv(e) && j < |e.spans| && e.spans[j].Has(s) && e.next - s <= MAX_JUMP
    ensures Answerer(Sources(e.spans), s) == j <==> W(s - e.spans[j].first) <= 0x8000
    ensures Answerer(Sources(e.spans), s) <= j
    ensures forall i :: 0 <= i < j ==> !e.spans[i].Has(s)
  {
    hide Inv, Answerer, W;
    var ws := Sources(e.spans);
    NewerStartLater(e, j, s);
    NewerPass(ws, s, j);
    NearWindow(ws[j], s);
    AnswersIff(ws, s, j);
    AnswererIsOlder(ws, s, j);
    HolderIsUnique(e, j, s);
  }

  lemma AnswererIsOlder(ws: seq<Window>, s: int, j: nat)
    requires forall k :: j < k < |ws| ==> Passes(ws[k], s)
    ensures Answerer(ws, s) <= j
  {
    hide Passes, Admits;
  }

  lemma HolderIsUnique(e: Epoch, j: nat, s: int)
    requires Inv(e) && j < |e.spans| && e.spans[j].Has(s)
    ensures forall i :: 0 <= i < j ==> !e.spans[i].Has(s)
  {
  }

  /** A late number in the gap after interval j, dropped or never seen, is refused by that interval exactly when it is at
      most 2^15 after its start, modulo 2^16. Otherwise it is passed on to the older ones. */
  lemma LateGapAnswer(e: Epoch, j: nat, s: int)
    requires Inv(e) && j < |e.spans| && e.next - MAX_JUMP <= s < e.next
    requires 0 <= s - e.spans[j].End() <= 0x8000 && (j + 1 < |e.spans| ==> s < e.spans[j + 1].first)
    ensures forall i :: 0 <= i < |e.spans| ==> !e.spans[i].Has(s)
    ensures W(s - e.spans[j].first) <= 0x8000 ==> Answerer(Sources(e.spans), s) == -1
    ensures W(s - e.spans[j].first) > 0x8000 ==> Answerer(Sources(e.spans), s) == Answerer(Sources(e.spans)[..j], s)
  {
    hide Inv, Answerer, W;
    var ws := Sources(e.spans);
    GapIsBetween(e, j, s);
    NewerPass(ws, s, j);
    NearWindow(ws[j], s);
    FirstToDecide(ws, s, j);
  }

  lemma GapIsBetween(e: Epoch, j: nat, s: int)
    requires Inv(e) && j < |e.spans| && e.next - MAX_JUMP <= s < e.next
    requires e.spans[j].End() <= s && (j + 1 < |e.spans| ==> s < e.spans[j + 1].first)
    ensures forall k :: j < k < |e.spans| ==> s < Sources(e.spans)[k].start < s + 0x8000
    ensures forall i :: 0 <= i < |e.spans| ==> !e.spans[i].Has(s)
  {
    assert forall k :: j + 1 < k < |e.spans| ==> e.spans[j + 1].End() <= e.spans[k].first;
    assert forall i :: 0 <= i < j ==> e.spans[i].End() <= e.spans[j].first;
  }

  /** The newest window that may decide, when all newer ones pass s on. */
  lemma {:induction false} FirstToDecide(ws: seq<Window>, s: int, j: nat)
    requires j < |ws| && forall k :: j < k < |ws| ==> Passes(ws[k], s)
    ensures Answerer(ws, s) == if Passes(ws[j], s) then Answerer(ws[..j], s) else if Admits(ws[j], s) then j else -1
  {
    hide Passes, Admits;
    var n := |ws| - 1;
    if j < n {
      FirstToDecide(ws[..n], s, j);
      assert ws[..n][..j] == ws[..j];
    }
  }

  /** The reverse lookup of what an interval forwards s as finds that interval, at any distance, exactly when s is at most
      2^15 after its start and less than 2^15 before its end, modulo 2^16, and the targets of all newer intervals start
      less than 2^15 after that of s, modulo 2^16. */
  lemma ReverseHolderAnswersIff(e: Epoch, j: nat, s: int)
    requires j < |e.spans| && e.spans[j].Has(s)
    ensures var t := s + e.spans[j].delta;
            Answerer(Targets(e.spans), t) == j <==>
              && W(s - e.spans[j].first) <= 0x8000
              && 0 < W(e.spans[j].End() - s) < 0x8000
              && forall k :: j < k < |e.spans| ==> W(t - (e.spans[k].first + e.spans[k].delta)) > 0x8000
  {
    hide Answerer, W;
    var t := s + e.spans[j].delta;
    var ws := Targets(e.spans);
    AnswersIff(ws, t, j);
    SameDistances(e.spans[j], s);
    assert forall k :: j < k < |ws| ==> (Passes(ws[k], t) <==> W(t - (e.spans[k].first + e.spans[k].delta)) > 0x8000);
  }

  /** Distances are the same in the source and in the target. */
  lemma SameDistances(span: Span, s: int)
    ensures Passes(span.Target(), s + span.delta) == Passes(span.Source(), s)
    ensures Admits(span.Target(), s + span.delta) == Admits(span.Source(), s)
  {
    hide W;
    assert s + span.delta - (span.first + span.delta) == s - span.first;
    assert span.first + span.delta + span.count - (s + span.delta) == span.first + span.count - s;
  }

  /** Within 2^15 of next, only the start matters. */
  lemma ReverseNearAnswersIff(e: Epoch, j: nat, s: int)
    requires Inv(e) && j < |e.spans| && e.spans[j].Has(s) && e.next - s < 0x8000
    ensures Answerer(Targets(e.spans), s + e.spans[j].delta) == j <==> W(s - e.spans[j].first) <= 0x8000
  {
    hide Inv, Answerer, W;
    var t := s + e.spans[j].delta;
    NewerStartLater(e, j, s);
    NewerPass(Targets(e.spans), t, j);
    NearWindow(Targets(e.spans)[j], t);
    AnswersIff(Targets(e.spans), t, j);
    SameDistances(e.spans[j], s);
  }

  // ---------------------------------------------------------------- a run past the bound

  /** One drop, then a stretch of packets. */
  ghost predicate Stretched(e: Epoch) {
    && 1 < e.next < MODULUS && e.dropped == {0} && e.pid == 0 && e.nextPid == 0
    && e.spans == [Span(-8192, 8192, 0, 0), Span(1, e.next - 1, -1, 0)]
  }

  lemma StretchedMore(e: Epoch, s: U16)
    requires Stretched(e) && e.next <= s < 0xFFFF && s - e.next <= MAX_JUMP
    ensures CanForward(e)
    ensures var e' := After(e, Mapping(s, 0));
            && CallStep(e, Mapping(s, 0), e')
            && Stretched(e') && e'.next == s + 1 && e'.log == e.log[s := Forwarded(s - 1, 0)]
  {
    SameResidue(s, Ahead(e, s));
    WrapSelf(s);
  }

  lemma FirstDrop()
    ensures var e := Epoch(1, 0, 0, {0}, [Span(-8192, 8192, 0, 0)], map[]);
            CallStep(Fresh(0, 0), Dropping(0, 0), e) && Inv(Fresh(0, 0))
  {
    FreshInv(0, 0);
    WrapSelf(0);
  }

  lemma FirstForward(e: Epoch)
    requires e == Epoch(1, 0, 0, {0}, [Span(-8192, 8192, 0, 0)], map[])
    ensures CanForward(e)
    ensures var e' := After(e, Mapping(1, 0)); CallStep(e, Mapping(1, 0), e') && Stretched(e') && e'.next == 2
  {
    SameResidue(1, Ahead(e, 1));
    assert |e.dropped| == 1 && W(-1) == 65535;
    assert !Jumps(e, 1) && IsAhead(e, 1) && !Current(e);
  }

  /** The calls that drop packet 0, forward packet 1, and then the given ones. */
  function Calls(more: seq<U16>): seq<Call> {
    if more == [] then [Dropping(0, 0), Mapping(1, 0)]
    else Calls(more[..|more| - 1]) + [Mapping(more[|more| - 1], 0)]
  }

  /** The next number before the i-th of them. */
  function Next(more: seq<U16>, i: nat): int
    requires i <= |more|
  {
    if i == 0 then 2 else more[i - 1] as int + 1
  }

  /** Each number is in order, and starts no new epoch. */
  predicate Paced(more: seq<U16>) {
    forall i :: 0 <= i < |more| ==> Next(more, i) <= more[i] as int < 0xFFFF && more[i] as int - Next(more, i) <= MAX_JUMP
  }

  /** The stretch goes on to the last number, and each was forwarded as its predecessor. */
  ghost predicate Reaches(e: Epoch, more: seq<U16>) {
    && Stretched(e) && e.next == Next(more, |more|)
    && forall i :: 0 <= i < |more| ==> (more[i] as int) in e.log && e.log[more[i] as int] == Forwarded(more[i] as int - 1, 0)
  }

  lemma PacedBefore(more: seq<U16>)
    requires more != [] && Paced(more)
    ensures Paced(more[..|more| - 1])
    ensures var n := |more| - 1;
            && Next(more[..n], n) <= more[n] as int < 0xFFFF && more[n] as int - Next(more[..n], n) <= MAX_JUMP
            && Next(more, n + 1) == more[n] as int + 1
  {
    assert forall i :: 0 <= i < |more| ==> Next(more[..|more| - 1], i) == Next(more, i);
  }

  lemma ReachesMore(e: Epoch, more: seq<U16>)
    requires more != [] && Paced(more) && Reaches(e, more[..|more| - 1])
    ensures CanForward(e)
    ensures var c := Mapping(more[|more| - 1], 0); CallStep(e, c, After(e, c)) && Reaches(After(e, c), more)
  {
    hide After, CallStep, Stretched, Paced, Next;
    var n := |more| - 1;
    PacedBefore(more);
    StretchedMore(e, more[n]);
    forall i | 0 <= i < n
      ensures (more[i] as int) in e.log && e.log[more[i] as int] == Forwarded(more[i] as int - 1, 0)
    {
      assert more[..n][i] == more[i];
    }
  }

  lemma OneMoreCall(es: seq<Epoch>, cs: seq<Call>, c: Call, e: Epoch)
    requires IsCallRun(es, cs) && CallStep(es[|cs|], c, e)
    ensures IsCallRun(es + [e], cs + [c])
  {
    hide CallStep, Inv;
  }

  lemma {:induction false} RunStretches(more: seq<U16>) returns (es: seq<Epoch>)
    requires Paced(more)
    ensures IsCallRun(es, Calls(more)) && es[0] == Fresh(0, 0) && Reaches(es[|es| - 1], more)
  {
    hide Inv, After, CallStep, Paced, Reaches, Stretched;
    if more == [] {
      es := RunBegins();
    } else {
      PacedBefore(more);
      es := RunStretches(more[..|more| - 1]);
      var e, c := es[|es| - 1], Mapping(more[|more| - 1], 0);
      ReachesMore(e, more);
      OneMoreCall(es, Calls(more[..|more| - 1]), c, After(e, c));
      es := es + [After(e, c)];
    }
  }

  lemma RunBegins() returns (es: seq<Epoch>)
    ensures IsCallRun(es, Calls([])) && es[0] == Fresh(0, 0) && Reaches(es[|es| - 1], [])
  {
    hide Inv, After, CallStep, Stretched;
    var e1 := Epoch(1, 0, 0, {0}, [Span(-8192, 8192, 0, 0)], map[]);
    FirstDrop();
    FirstForward(e1);
    es := [Fresh(0, 0), e1, After(e1, Mapping(1, 0))];
  }

  const PAST_THE_BOUND: seq<U16> := [8000, 16000, 24000, 32000, 40000, 48000, 56000, 60000, 60001, 65000]

  /** A run where a number that was forwarded as 59999 is answered late as 60000, which is what its successor was
      forwarded as; where a receiver that asks again for 59999 is led to the wrong packet; and where one that asks for
      23999, whose packet is no further than 2^15 after the interval's start, is refused. */
  lemma LateAnswerCanBeWrong() returns (es: seq<Epoch>)
    ensures IsCallRun(es, Calls(PAST_THE_BOUND)) && es[0] == Fresh(0, 0)
    ensures var e := es[|es| - 1];
            && 60000 in e.log && e.log[60000] == Forwarded(59999, 0)
            && 60001 in e.log && e.log[60001] == Forwarded(60000, 0)
            && 24000 in e.log && e.log[24000] == Forwarded(23999, 0)
            && MapAnswer(e, 60000) == Answer(true, 60000, 0)
            && ReverseAnswer(e, 59999) == Answer(true, 59999, 0)
            && |e.spans| == 2 && e.spans[1].Has(24000) && W(24000 - e.spans[1].first) <= 0x8000
            && ReverseAnswer(e, 23999) == REFUSED
  {
    hide Inv, CallStep, Calls;
    es := RunStretches(PAST_THE_BOUND);
    assert PAST_THE_BOUND[7] == 60000 && PAST_THE_BOUND[8] == 60001 && PAST_THE_BOUND[2] == 24000;
    WrongAnswers(es[|es| - 1]);
  }

  /** How the two intervals, before and after renumbering, judge these numbers. */
  lemma StretchJudges()
    ensures Passes(Window(1, 65000), 60000) && !Passes(Window(-8192, 8192), 60000) && Admits(Window(-8192, 8192), 60000)
    ensures Passes(Window(0, 65000), 59999) && !Passes(Window(-8192, 8192), 59999) && Admits(Window(-8192, 8192), 59999)
    ensures !Passes(Window(0, 65000), 23999) && !Admits(Window(0, 65000), 23999)
    ensures Passes(Window(1, 59999), 60000) && Passes(Window(60001, 1), 60000)
    ensures W(60000) == 60000 && W(60001) == 60001 && W(59999) == 59999 && W(23999) == 23999 == W(24000 - 1)
  {
  }

  lemma WrongAnswers(e: Epoch)
    requires Stretched(e) && e.next == 65001
    ensures MapAnswer(e, 60000) == Answer(true, 60000, 0)
    ensures ReverseAnswer(e, 59999) == Answer(true, 59999, 0)
    ensures e.spans[1].Has(24000) && W(24000 - e.spans[1].first) <= 0x8000 && ReverseAnswer(e, 23999) == REFUSED
  {
    hide Passes, Admits, Answerer, MapAnswer, ReverseAnswer, W;
    var older := Window(-8192, 8192);
    StretchJudges();
    assert Sources(e.spans) == [older, Window(1, 65000)];
    LateAnswerIs(e, 60000);
    TwoWindows(older, Window(1, 65000), 60000);
    assert Targets(e.spans) == [older, Window(0, 65000)];
    ReverseAnswerIs(e, 59999);
    TwoWindows(older, Window(0, 65000), 59999);
    ReverseAnswerIs(e, 23999);
    TwoWindows(older, Window(0, 65000), 23999);
    NoDelta(60000);
    NoDelta(59999);
  }

  lemma NoDelta(s: U16)
    ensures W(s + W(0)) == s && W(s - W(0)) == s
  {
  }

  lemma TwoWindows(older: Window, newer: Window, s: int)
    ensures Answerer([older, newer], s) ==
            if !Passes(newer, s) then if Admits(newer, s) then 1 else -1
            else if !Passes(older, s) && Admits(older, s) then 0 else -1
  {
    hide Passes, Admits;
    var ws := [older, newer];
    assert ws[..1] == [older] && [older][..0] == [];
    assert Decides([], s) == -1;
    assert Decides([older], s) == if !Passes(older, s) then 0 else -1;
  }

  const UP_TO_A_DROP: seq<U16> := [8000, 16000, 24000, 32000, 40000, 48000, 56000, 59999]

  /** A run where a number is answered although it was dropped. */
  lemma DroppedCanBeAnswered() returns (es: seq<Epoch>)
    ensures IsCallRun(es, Calls(UP_TO_A_DROP) + [Dropping(60000, 0), Mapping(60001, 0)]) && es[0] == Fresh(0, 0)
    ensures var e := es[|es| - 1]; 60000 in e.dropped && MapAnswer(e, 60000) == Answer(true, 60000, 0)
  {
    hide Inv, CallStep, Calls, After, MapAnswer;
    es := RunStretches(UP_TO_A_DROP);
    var cs, e := Calls(UP_TO_A_DROP), es[|es| - 1];
    assert UP_TO_A_DROP[7] == 59999;
    var e1, e2 := DropAndForward(e);
    OneMoreCall(es, cs, Dropping(60000, 0), e1);
    OneMoreCall(es + [e1], cs + [Dropping(60000, 0)], Mapping(60001, 0), e2);
    es := es + [e1] + [e2];
    assert cs + [Dropping(60000, 0)] + [Mapping(60001, 0)] == cs + [Dropping(60000, 0), Mapping(60001, 0)];
  }

  lemma DropAndForward(e: Epoch) returns (e1: Epoch, e2: Epoch)
    requires Stretched(e) && e.next == 60000
    ensures CallStep(e, Dropping(60000, 0), e1) && CallStep(e1, Mapping(60001, 0), e2)
    ensures 60000 in e2.dropped && MapAnswer(e2, 60000) == Answer(true, 60000, 0)
  {
    WrapSelf(60000);
    WrapSelf(60001);
    e1 := Discard(e, 0);
    assert e1.dropped == {0, 60000} && |e1.dropped| == 2 && e1.next == 60001 && e1.spans == e.spans;
    SameResidue(60001, Ahead(e1, 60001));
    assert W(-1) == 65535 && W(-2) == 65534;
    assert !Current(e1) && IsAhead(e1, 60001) && !Jumps(e1, 60001);
    e2 := After(e1, Mapping(60001, 0));
    assert e2.spans == e.spans + [Span(60001, 1, -2, e1.pid)];
    DroppedIsAnswered(e2);
  }

  lemma DroppedIsAnswered(e: Epoch)
    requires e.spans == [Span(-8192, 8192, 0, 0), Span(1, 59999, -1, 0), Span(60001, 1, -2, 0)] && e.next == 60002
    ensures MapAnswer(e, 60000) == Answer(true, 60000, 0)
  {
    hide Passes, Admits, Answerer, MapAnswer, W;
    var ws := Sources(e.spans);
    StretchJudges();
    assert ws[2] == Window(60001, 1) && ws[1] == Window(1, 59999) && ws[0] == Window(-8192, 8192);
    LateAnswerIs(e, 60000);
    AnswersIff(ws, 60000, 0);
    NoDelta(60000);
  }
}

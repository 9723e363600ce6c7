/** The per-receiver map that renumbers forwarded packets so that dropped ones
    leave no hole, and maps requests for retransmission back. */
module PacketMap {
  import opened Serial
  import opened Windows
  import opened RemapEpoch

  datatype Entry = Entry(first: U16, count: U16, delta: U16, pidDelta: U16)

  /** The 16-bit image of a span. */
  function Stored(sp: Span): Entry {
    Entry(W(sp.first), W(sp.count), W(sp.delta), sp.pid)
  }

  function Images(spans: seq<Span>): (es: seq<Entry>)
    ensures |es| == |spans|
  {
    if spans == [] then [] else Images(spans[..|spans| - 1]) + [Stored(spans[|spans| - 1])]
  }

  lemma {:induction false} ImageAt(spans: seq<Span>, i: nat)
    requires i < |spans|
    ensures Images(spans)[i] == Stored(spans[i])
  {
    if i < |spans| - 1 {
      ImageAt(spans[..|spans| - 1], i);
    }
  }

  lemma {:induction false} ImagesOfTail(spans: seq<Span>)
    requires spans != []
    ensures Images(spans[1..]) == Images(spans)[1..]
  {
    if |spans| > 1 {
      ImagesOfTail(spans[..|spans| - 1]);
      assert spans[1..][..|spans| - 2] == spans[..|spans| - 1][1..];
    }
  }

  lemma TargetAt(spans: seq<Span>, i: nat)
    requires i < |spans|
    ensures var stored, target := Images(spans)[i], Targets(spans)[i];
            W(stored.first + stored.delta) == W(target.start) && stored.count == W(target.count)
  {
    hide W, Images;
    ImageAt(spans, i);
    WrapAdd(spans[i].first, spans[i].delta);
  }

  /** Position in a ring of n slots of the i-th oldest entry, when slot last holds the newest. */
  function Slot(last: U16, n: nat, i: nat): nat
    requires last < n && i < n
  {
    if last + 1 + i < n then last + 1 + i else last + 1 + i - n
  }

  /** What a call returns: whether the number could be mapped, the number, the picture-id delta. */
  datatype Answer = Answer(ok: bool, seqno: U16, pid: U16)

  const REFUSED := Answer(false, 0, 0)

  /** Span j's answer for source number seqno, and its inverse for target number seqno. */
  function Renumber(spans: seq<Span>, j: int, seqno: U16): Answer
    requires -1 <= j < |spans|
  {
    if j < 0 then REFUSED else Answer(true, W(seqno + W(spans[j].delta)), spans[j].pid)
  }

  function Restore(spans: seq<Span>, j: int, seqno: U16): Answer
    requires -1 <= j < |spans|
  {
    if j < 0 then REFUSED else Answer(true, W(seqno - W(spans[j].delta)), spans[j].pid)
  }

  // ---------------------------------------------------------------- how 16-bit inputs drive the epoch

  /** The unbounded number meant by seqno when it is ahead of next, and when it is behind. */
  function Ahead(e: Epoch, seqno: U16): int { Above(e.next, seqno) }
  function Behind(e: Epoch, seqno: U16): int { Below(e.next - 1, seqno) }

  predicate IsAhead(e: Epoch, seqno: U16) {
    Ahead(e, seqno) - e.next < 0x8000
  }

  /** A jump of more than 8192 in either direction starts a new epoch; before
      the first drop, only a jump backwards does. */
  predicate Jumps(e: Epoch, seqno: U16) {
    if IsAhead(e, seqno) then e.spans != [] && Ahead(e, seqno) - e.next > MAX_JUMP
    else e.next - Behind(e, seqno) > MAX_JUMP
  }

  /** A new epoch that starts with seqno forwarded as it is. */
  function Restarted(seqno: U16, pid: U16): Epoch {
    Advance(Fresh(seqno, 0), seqno, pid)
  }

  /** The epoch after number seqno was presented to Map. */
  ghost function AfterMap(e: Epoch, seqno: U16, pid: U16): Epoch
    requires CanForward(e)
  {
    if Jumps(e, seqno) then Restarted(seqno, pid)
    else if IsAhead(e, seqno) then Forward(e, Ahead(e, seqno), pid)
    else Recall(e, Behind(e, seqno))
  }

  /** A call of Map is a step of the current epoch or, if it jumps, the first step of a new one. */
  lemma MapIsStep(e: Epoch, seqno: U16, pid: U16)
    requires Inv(e)
    ensures var e' := AfterMap(e, seqno, pid);
            if Jumps(e, seqno) then Step(Fresh(seqno, 0), InOrder(seqno, pid), e')
            else if IsAhead(e, seqno) then Step(e, InOrder(Ahead(e, seqno), pid), e')
            else Step(e, Late(Behind(e, seqno)), e')
  {
    hide Inv, W, Above, Below;
    CanAlwaysForward(e);
  }

  lemma CanAlwaysForward(e: Epoch)
    requires Inv(e)
    ensures CanForward(e)
  {
  }

  /** The arithmetic of next against seqno is the position of the number meant. */
  lemma Positions(e: Epoch, seqno: U16)
    ensures W(seqno - W(e.next)) == Ahead(e, seqno) - e.next
    ensures IsAhead(e, seqno) <==> Compare(W(e.next), seqno) <= 0
    ensures seqno != W(e.next) ==> W(W(e.next) - seqno) == e.next - Behind(e, seqno)
    ensures W(Ahead(e, seqno) + 1) == W(seqno + 1)
  {
    hide W, Compare, Above, Below;
    AheadPosition(e, seqno);
    CompareIs(e.next, Ahead(e, seqno));
    WrapSelf(Ahead(e, seqno) - e.next);
    WrapAdd(Ahead(e, seqno), 1);
    if seqno == W(e.next) {
      SameResidue(Ahead(e, seqno), e.next);
    } else {
      BehindPosition(e, seqno);
    }
    CompareEqual(W(e.next), seqno);
  }

  lemma AheadPosition(e: Epoch, seqno: U16)
    ensures W(seqno - W(e.next)) == Ahead(e, seqno) - e.next
  {
    hide W;
    WrapSub(seqno, e.next);
    WrapSelf(seqno);
  }

  lemma BehindPosition(e: Epoch, seqno: U16)
    requires seqno != W(e.next)
    ensures W(W(e.next) - seqno) == e.next - Behind(e, seqno)
  {
    hide W;
    var b := Behind(e, seqno);
    WrapSub(e.next, b);
    WrapTurn(e.next);
    WrapSelf(e.next - b);
  }

  /** Number seqno is more than 8192 from next, whichever way round is shorter. */
  predicate FarAway(next: U16, seqno: U16) {
    8192 < W(seqno - next) < 0x8000 || 8192 < W(next - seqno) <= 0x8000
  }

  lemma CompareEqual(x: U16, y: U16)
    ensures Compare(x, y) <= 0 <==> Compare(x, y) < 0 || x == y
  {
  }

  // ---------------------------------------------------------------- the ring

  /** The ring holds the queue, oldest first from the slot after last. */
  ghost predicate Holds(ring: seq<Entry>, last: U16, queue: seq<Entry>) {
    && |ring| == |queue| <= MAX_ENTRIES
    && (ring == [] ==> last == 0)
    && (ring != [] ==>
          && last < |ring|
          && (|ring| < MAX_ENTRIES ==> last == |ring| - 1)
          && forall i :: 0 <= i < |ring| ==> ring[Slot(last, |ring|, i)] == queue[i])
  }

  lemma NewestIsLast(ring: seq<Entry>, last: U16, queue: seq<Entry>)
    requires Holds(ring, last, queue) && ring != []
    ensures ring[last] == queue[|queue| - 1]
  {
    assert Slot(last, |ring|, |ring| - 1) == last;
  }

  lemma ReplaceNewest(ring: seq<Entry>, last: U16, queue: seq<Entry>, e: Entry)
    requires Holds(ring, last, queue) && ring != []
    ensures Holds(ring[last := e], last, queue[..|queue| - 1] + [e])
  {
  }

  lemma AddNewest(ring: seq<Entry>, last: U16, queue: seq<Entry>, e: Entry)
    requires Holds(ring, last, queue) && 0 < |ring| < MAX_ENTRIES
    ensures Holds(ring + [e], |ring|, queue + [e])
  {
  }

  /** The slot after slot last in a full ring. */
  function Wrapped(last: U16): U16
    requires last < MAX_ENTRIES
  {
    (last + 1) % MAX_ENTRIES
  }

  lemma ReplaceOldest(ring: seq<Entry>, last: U16, queue: seq<Entry>, e: Entry)
    requires Holds(ring, last, queue) && |ring| == MAX_ENTRIES
    ensures Holds(ring[Wrapped(last) := e], Wrapped(last), queue[1..] + [e])
  {
    var j := Wrapped(last);
    forall i | 0 <= i < MAX_ENTRIES
      ensures ring[j := e][Slot(j, MAX_ENTRIES, i)] == (queue[1..] + [e])[i]
    {
      if i < MAX_ENTRIES - 1 {
        assert Slot(j, MAX_ENTRIES, i) == Slot(last, MAX_ENTRIES, i + 1);
      }
    }
  }

  /** The newest span, moved by the drops since it was last extended, ends at next. */
  predicate Anchored(e: Epoch) {
    e.spans != [] ==>
      var last := e.spans[|e.spans| - 1];
      last.first <= e.next && last.first + last.count + last.delta + |e.dropped| == e.next
  }

  /** Counting from first to s in 16 bits. */
  lemma CountTo(first: int, s: int)
    ensures W(W(s) - W(first) + 1) == W(s - first + 1)
  {
    WrapSub(s, first);
    WrapAdd(W(s) - W(first), 1);
    WrapAdd(s - first, 1);
  }

  /** The 16-bit number after the newest interval and the drops since is next. */
  lemma FirstMissing(e: Epoch)
    requires e.spans != [] && Anchored(e)
    ensures var last := e.spans[|e.spans| - 1];
            var d := W(W(last.delta) - W(0 - |e.dropped|));
            && d == W(last.delta + |e.dropped|)
            && W(W(last.first) + W(last.count) + d) == W(e.next)
  {
    var last := e.spans[|e.spans| - 1];
    WrapSub(last.delta, 0 - |e.dropped|);
    var p := Turns(last.first);
    var q := Turns(last.count);
    var r := Turns(last.delta + |e.dropped|);
    Congruent(e.next, W(last.first) + W(last.count) + W(last.delta + |e.dropped|), p + q + r);
  }

  /** The interval to remember for seqno after the newest one. It is expanded to
      cover missing values, unless the targets might overlap. */
  function Following(newest: Entry, seqno: U16, delta: U16, pidDelta: U16): Entry {
    var d := W(newest.delta - delta);
    var ff := W(newest.first + newest.count + d);
    var f := if d < 8192 && Compare(ff, seqno) < 0 then ff else seqno;
    Entry(f, W(seqno - f + 1), delta, pidDelta)
  }

  lemma FollowingIsAppended(e: Epoch, seqno: U16)
    requires e.spans != [] && Anchored(e) && Ahead(e, seqno) - e.next <= MAX_JUMP
    ensures var appended := Append(e, Ahead(e, seqno)).spans;
            Following(Stored(e.spans[|e.spans| - 1]), seqno, W(0 - |e.dropped|), e.pid)
            == Stored(appended[|e.spans|])
  {
    FirstMissing(e);
    var s := Ahead(e, seqno);
    CompareExact(e.next, s);
    CountTo(e.next, s);
    CountTo(s, s);
  }

  /** The newest interval extended to seqno. */
  function Extended(newest: Entry, seqno: U16): Entry {
    newest.(count := W(seqno - newest.first + 1))
  }

  lemma ExtendedIsStretched(e: Epoch, seqno: U16)
    requires Current(e) && Anchored(e)
    ensures var stretched := Stretch(e, Ahead(e, seqno)).spans;
            Extended(Stored(e.spans[|e.spans| - 1]), seqno) == Stored(stretched[|e.spans| - 1])
  {
    CountTo(e.spans[|e.spans| - 1].first, Ahead(e, seqno));
  }

  lemma ExtendedHolds(ring: seq<Entry>, last: U16, e: Epoch, seqno: U16)
    requires ring != [] && Holds(ring, last, Images(e.spans)) && Anchored(e) && Current(e)
    ensures Holds(ring[last := Extended(ring[last], seqno)], last, Images(Stretch(e, Ahead(e, seqno)).spans))
  {
    NewestIsLast(ring, last, Images(e.spans));
    ExtendedIsStretched(e, seqno);
    var stretched := Stretch(e, Ahead(e, seqno)).spans;
    ReplaceNewest(ring, last, Images(e.spans), Stored(stretched[|e.spans| - 1]));
    assert stretched[..|e.spans| - 1] == e.spans[..|e.spans| - 1];
  }

  lemma PushHolds(ring: seq<Entry>, last: U16, e: Epoch, s: int, entry: Entry)
    requires ring != [] && Holds(ring, last, Images(e.spans)) && e.next <= s
    requires entry == Stored(Append(e, s).spans[|e.spans|])
    ensures var spans := Append(Evict(e), s).spans;
            if |ring| < MAX_ENTRIES then Holds(ring + [entry], |ring|, Images(spans))
            else Holds(ring[Wrapped(last) := entry], Wrapped(last), Images(spans))
  {
    var kept := Evict(e).spans;
    assert Append(Evict(e), s).spans[..|kept|] == kept;
    if |ring| < MAX_ENTRIES {
      AddNewest(ring, last, Images(e.spans), entry);
    } else {
      ReplaceOldest(ring, last, Images(e.spans), entry);
      ImagesOfTail(e.spans);
    }
  }

  /** The ring and its newest slot after remembering seqno. */
  function Added(ring: seq<Entry>, last: U16, seqno: U16, delta: U16, pidDelta: U16): (seq<Entry>, U16)
    requires ring != [] ==> last < |ring| <= MAX_ENTRIES
  {
    if ring == [] then (ring, last)
    else if delta == ring[last].delta && pidDelta == ring[last].pidDelta then
      (ring[last := Extended(ring[last], seqno)], last)
    else
      var entry := Following(ring[last], seqno, delta, pidDelta);
      if |ring| < MAX_ENTRIES then (ring + [entry], |ring|)
      else (ring[Wrapped(last) := entry], Wrapped(last))
  }

  lemma AddedToNewest(ring: seq<Entry>, last: U16, e: Epoch, seqno: U16)
    requires ring != [] && Holds(ring, last, Images(e.spans)) && Anchored(e) && Current(e)
    ensures var (ring', last') := Added(ring, last, seqno, W(0 - |e.dropped|), e.pid);
            ring' != [] && Holds(ring', last', Images(Stretch(e, Ahead(e, seqno)).spans))
  {
    NewestIsLast(ring, last, Images(e.spans));
    ExtendedHolds(ring, last, e, seqno);
  }

  lemma AddedAnew(ring: seq<Entry>, last: U16, e: Epoch, seqno: U16)
    requires ring != [] && Holds(ring, last, Images(e.spans)) && Anchored(e) && !Current(e)
    requires Ahead(e, seqno) - e.next <= MAX_JUMP
    ensures var (ring', last') := Added(ring, last, seqno, W(0 - |e.dropped|), e.pid);
            ring' != [] && Holds(ring', last', Images(Append(Evict(e), Ahead(e, seqno)).spans))
  {
    NewestIsLast(ring, last, Images(e.spans));
    FollowingIsAppended(e, seqno);
    PushHolds(ring, last, e, Ahead(e, seqno), Following(ring[last], seqno, W(0 - |e.dropped|), e.pid));
  }

  /** After remembering seqno with the current deltas the ring holds the spans of the epoch after it. */
  lemma AddedHolds(ring: seq<Entry>, last: U16, e: Epoch, seqno: U16, srcPid: U16)
    requires ring != [] && Holds(ring, last, Images(e.spans)) && Anchored(e)
    requires Ahead(e, seqno) - e.next <= MAX_JUMP
    ensures var (ring', last') := Added(ring, last, seqno, W(0 - |e.dropped|), e.pid);
            ring' != [] && Holds(ring', last', Images(Forward(e, Ahead(e, seqno), srcPid).spans))
  {
    if Current(e) {
      AddedToNewest(ring, last, e, seqno);
    } else {
      AddedAnew(ring, last, e, seqno);
    }
  }

  /** After forwarding s the newest span ends with s and has the current deltas. */
  lemma NewestAfter(e: Epoch, s: int)
    requires e.spans != [] && Anchored(e) && e.next <= s
    ensures var e1 := Remember(e, s);
            && e1.pid == e.pid && e1.dropped == e.dropped && e1.spans != []
            && var last := e1.spans[|e1.spans| - 1];
               last.first <= s && last.count == s - last.first + 1 && last.delta == 0 - |e.dropped|
  {
    if !Current(e) {
      assert Append(Evict(e), s).spans[|Evict(e).spans|].count >= 1;
    }
  }

  lemma ForwardFields(e: Epoch, s: int, srcPid: U16)
    requires e.spans != [] && Anchored(e) && e.next <= s
    ensures var e' := Forward(e, s, srcPid);
            && e'.next == s + 1 && e'.nextPid == srcPid && e'.pid == e.pid && e'.dropped == e.dropped
            && e'.spans != [] && Anchored(e')
  {
    NewestAfter(e, s);
  }

  lemma DiscardFields(e: Epoch, srcPid: U16)
    requires Anchored(e) && e.next !in e.dropped && (e.spans == [] ==> e.dropped == {})
    ensures var e' := Discard(e, srcPid);
            && |e'.dropped| == |e.dropped| + 1
            && W(W(e.next) + 1) == W(e'.next)
            && W(W(0 - |e.dropped|) - 1) == W(0 - |e'.dropped|)
            && W(e.pid + W(srcPid - e.nextPid)) == e'.pid
            && Anchored(e')
    ensures e.spans == [] ==> Entry(W(W(e.next) - 8192), 8192, 0, 0) == Stored(Discard(e, srcPid).spans[0])
  {
    WrapSub(e.next, 8192);
    WrapAdd(e.next, 1);
    WrapSub(0 - |e.dropped|, 1);
    WrapAdd(e.pid, srcPid - e.nextPid);
    assert |e.dropped + {e.next}| == |e.dropped| + 1;
  }

  /** What Map returns for seqno. */
  function MapAnswer(e: Epoch, seqno: U16): Answer {
    if Jumps(e, seqno) || e.spans == [] then Answer(true, seqno, 0)
    else if IsAhead(e, seqno) then Answer(true, W(Ahead(e, seqno) - |e.dropped|), e.pid)
    else Renumber(e.spans, Scan(Sources(e.spans), seqno), seqno)
  }

  // ---------------------------------------------------------------- what the answers mean

  /** Number s can be mapped both ways: nothing was dropped yet, or a recent span holds it. */
  ghost predicate Remembers(e: Epoch, s: int) {
    e.spans == [] || exists j :: 0 <= j < |e.spans| && Near(e, j) && e.spans[j].Has(s)
  }

  /** r is the logged answer for s: s was not dropped, and is renumbered by rank. */
  ghost predicate AnswersByRank(e: Epoch, s: int, r: Answer) {
    && s in e.log && s !in e.dropped
    && e.log[s].target == s - Rank(e.dropped, s)
    && r == Answer(true, W(e.log[s].target), e.log[s].pid)
  }

  /** Before the first drop every number is its own answer. */
  lemma NothingDropped(e: Epoch, s: int)
    requires Inv(e) && e.spans == []
    ensures e.dropped == {} && Rank(e.dropped, s) == 0 && e.pid == 0
    ensures s in e.log ==> e.log[s] == Forwarded(s, 0)
  {
    RankOfAll(e.dropped, s);
    if s in e.log {
      RankOfAll(e.dropped, e.next);
    }
  }

  lemma LoggedIsBehind(e: Epoch, s: int)
    requires Inv(e) && s in e.log
    ensures s < e.next
  {
  }

  lemma RestartedInv(seqno: U16, pid: U16)
    ensures Inv(Restarted(seqno, pid))
  {
    FreshInv(seqno, 0);
    AdvanceKeepsRank(Fresh(seqno, 0), seqno, pid);
  }

  lemma AfterMapInv(e: Epoch, seqno: U16, pid: U16)
    requires Inv(e)
    ensures Inv(AfterMap(e, seqno, pid))
  {
    RestartedInv(seqno, pid);
    if IsAhead(e, seqno) {
      ForwardKeepsInv(e, Ahead(e, seqno), pid);
    } else {
      RecallKeepsInv(e, Behind(e, seqno));
    }
  }

  lemma InOrderMeaning(e: Epoch, seqno: U16, pid: U16)
    requires Inv(e) && IsAhead(e, seqno) && !Jumps(e, seqno)
    ensures AnswersByRank(AfterMap(e, seqno, pid), Ahead(e, seqno), MapAnswer(e, seqno))
  {
    RankOfAll(e.dropped, Ahead(e, seqno));
  }

  lemma LateMeaning(e: Epoch, seqno: U16, pid: U16)
    requires Inv(e) && !IsAhead(e, seqno) && !Jumps(e, seqno)
    ensures var s, e', r := Behind(e, seqno), AfterMap(e, seqno, pid), MapAnswer(e, seqno);
            && (Remembers(e, s) ==> AnswersByRank(e', s, r))
            && (AllNear(e) ==> (r.ok <==> Remembers(e, s)))
  {
    hide Inv, W;
    var s := Behind(e, seqno);
    if e.spans == [] {
      NothingDropped(e, s);
    } else {
      if Remembers(e, s) {
        var j :| 0 <= j < |e.spans| && Near(e, j) && e.spans[j].Has(s);
        RecalledByRank(e, j, s);
      }
      if AllNear(e) {
        ScanRemembers(e, seqno);
      }
    }
  }

  lemma RecalledByRank(e: Epoch, j: nat, s: int)
    requires Inv(e) && j < |e.spans| && Near(e, j) && e.spans[j].Has(s)
    ensures AnswersByRank(Recall(e, s), s, Renumber(e.spans, Scan(Sources(e.spans), W(s)), W(s)))
  {
    hide Inv, W;
    SpanAnswers(e, j, s);
  }

  lemma ScanRemembers(e: Epoch, seqno: U16)
    requires Inv(e) && e.spans != [] && AllNear(e)
    ensures Scan(Sources(e.spans), seqno) >= 0 <==> Remembers(e, Behind(e, seqno))
  {
    hide Inv, W;
    RecentWindows(e, 0);
    ScanIsFind(Sources(e.spans), e.next, seqno);
  }

  lemma SpanIsRank(e: Epoch, j: nat, s: int)
    requires Inv(e) && j < |e.spans| && Near(e, j) && e.spans[j].Has(s)
    ensures s !in e.dropped && s + e.spans[j].delta == s - Rank(e.dropped, s)
    ensures Find(Sources(e.spans), s) == j
  {
    assert Faithful(e, j);
    SpanOfIsUnique(e, j, Find(Sources(e.spans), s), s);
  }

  /** A recent span that holds s is the one the scan and the search find. */
  lemma SpanAnswers(e: Epoch, j: nat, s: int)
    requires Inv(e) && j < |e.spans| && Near(e, j) && e.spans[j].Has(s)
    ensures Scan(Sources(e.spans), W(s)) == j == Find(Sources(e.spans), s)
    ensures s !in e.dropped && s + e.spans[j].delta == s - Rank(e.dropped, s)
    ensures Renumber(e.spans, j, W(s)) == Answer(true, W(s + e.spans[j].delta), e.spans[j].pid)
  {
    hide Inv, W, ScanFirst, Rank, RecentFrom;
    SpanIsRank(e, j, s);
    RecentWindows(e, j);
    ScanHit(Sources(e.spans), e.next, s, j, |e.spans|);
    WrapAdd(s, e.spans[j].delta);
  }

  /** What Reverse returns for seqno. */
  function ReverseAnswer(e: Epoch, seqno: U16): Answer {
    if e.spans == [] then Answer(true, seqno, 0)
    else Restore(e.spans, Scan(Targets(e.spans), seqno), seqno)
  }

  /** A recent span that holds s is the one the scan finds for what s is renumbered to. */
  lemma SpanIsRestored(e: Epoch, j: nat, s: int)
    requires Inv(e) && j < |e.spans| && Near(e, j) && e.spans[j].Has(s)
    ensures ReverseAnswer(e, W(s + e.spans[j].delta)) == Answer(true, W(s), e.spans[j].pid)
  {
    hide Inv, W, ScanFirst, RecentFrom;
    RecentWindows(e, j);
    assert Targets(e.spans)[j].Has(s + e.spans[j].delta);
    ScanHit(Targets(e.spans), e.next - |e.dropped|, s + e.spans[j].delta, j, |e.spans|);
    WrapSub(s + e.spans[j].delta, e.spans[j].delta);
  }

  /** Select inverts rank: the renumbered form of a remembered number leads back to it. */
  lemma ReverseInverts(e: Epoch, s: int)
    requires Inv(e) && s in e.log && Remembers(e, s)
    ensures ReverseAnswer(e, W(e.log[s].target)) == Answer(true, W(s), e.log[s].pid)
  {
    hide Inv, W, Scan, Restore;
    if e.spans == [] {
      NothingDropped(e, s);
    } else {
      var j :| 0 <= j < |e.spans| && Near(e, j) && e.spans[j].Has(s);
      SpanAgreesWithLog(e, j, s);
      SpanIsRestored(e, j, s);
    }
  }

  /** With recent spans, Reverse succeeds exactly on the numbers some span renumbers to. */
  lemma ReverseSucceeds(e: Epoch, seqno: U16)
    requires Inv(e) && e.spans != [] && AllNear(e)
    ensures ReverseAnswer(e, seqno).ok <==>
            exists j, s :: 0 <= j < |e.spans| && e.spans[j].Has(s) && W(s + e.spans[j].delta) == seqno
  {
    hide Inv, W, Scan, Below, RecentFrom;
    var limit := e.next - |e.dropped|;
    RecentWindows(e, 0);
    ScanIsFind(Targets(e.spans), limit, seqno);
    var t := Below(limit - 1, seqno);
    var f := Find(Targets(e.spans), t);
    if f >= 0 {
      assert e.spans[f].Has(t - e.spans[f].delta);
    }
    forall j, s | 0 <= j < |e.spans| && e.spans[j].Has(s) && W(s + e.spans[j].delta) == seqno
      ensures f >= 0
    {
      assert Targets(e.spans)[j].Has(s + e.spans[j].delta);
      SameResidue(s + e.spans[j].delta, t);
    }
  }

  class Map {
    var next: U16
    var nextPid: U16
    var delta: U16
    var pidDelta: U16
    var lastEntry: U16
    var entries: seq<Entry>

    ghost var epoch: Epoch   // what happened since the last reset, over unbounded numbers

    ghost predicate RingHolds()
      reads this
    {
      Holds(entries, lastEntry, Images(epoch.spans))
    }

    /** The fields are the 16-bit image of the epoch. */
    ghost predicate Tracks()
      reads this
    {
      && next == W(epoch.next)
      && nextPid == epoch.nextPid
      && delta == W(0 - |epoch.dropped|)
      && pidDelta == epoch.pid
      && (entries == [] ==> epoch.dropped == {} && pidDelta == 0)
      && RingHolds()
      && Anchored(epoch)
    }

    ghost predicate Valid()
      reads this
    {
      Inv(epoch) && Tracks()
    }

    constructor ()
      ensures Valid() && epoch == Fresh(0, 0)
    {
      next, nextPid, delta, pidDelta, lastEntry, entries := 0, 0, 0, 0, 0, [];
      epoch := Fresh(0, 0);
      new;
      FreshInv(0, 0);
    }

    method MapLocked(seqno: U16, pid: U16) returns (r: Answer)
      requires Tracks()
      modifies this
      ensures Tracks()
      ensures epoch == AfterMap(old(epoch), seqno, pid)
      ensures r == MapAnswer(old(epoch), seqno)
      // before the first drop, next follows all numbers but those at most 8192 behind it
      ensures old(entries) == [] ==>
                && r == Answer(true, seqno, 0) && entries == [] && delta == 0
                && (next, nextPid) == if W(seqno - old(next)) < 0x8000 || W(old(next) - seqno) > 8192 then (W(seqno + 1), pid)
                                      else (old(next), old(nextPid))
      // after it, the map starts over at a number more than 8192 away
      ensures old(entries) != [] && FarAway(old(next), seqno) ==>
                && r == Answer(true, seqno, 0)
                && next == W(seqno + 1) && nextPid == pid && delta == 0 && pidDelta == 0 && entries == []
      // forwards one that is at most 8192 ahead
      ensures old(entries) != [] && W(seqno - old(next)) <= 8192 ==>
                && r == Answer(true, W(seqno + old(delta)), old(pidDelta))
                && next == W(seqno + 1) && nextPid == pid && delta == old(delta) && pidDelta == old(pidDelta) && entries != []
      // and keeps everything for one that is at most 8192 behind
      ensures old(entries) != [] && 0 < W(old(next) - seqno) <= 8192 ==>
                && next == old(next) && nextPid == old(nextPid) && delta == old(delta) && pidDelta == old(pidDelta)
                && entries == old(entries) && lastEntry == old(lastEntry)
    {
      hide Forward, Recall, Renumber, Scan, Images;
      Positions(epoch, seqno);
      Distances(next, seqno);
      if delta == 0 && entries == [] {
        r := Pass(seqno, pid);
      } else if Compare(next, seqno) <= 0 {
        if W(seqno - next) > 8 * 1024 {
          r := Restart(seqno, pid);
        } else {
          r := Continue(seqno, pid);
        }
      } else if W(next - seqno) > 8 * 1024 {
        r := Restart(seqno, pid);
      } else {
        r := LookBack(seqno);
      }
    }

    method LookBack(seqno: U16) returns (r: Answer)
      requires Tracks()
      modifies this`epoch
      ensures Tracks() && epoch == Recall(old(epoch), Behind(old(epoch), seqno))
      ensures r == Renumber(old(epoch).spans, Scan(Sources(old(epoch).spans), seqno), seqno)
    {
      r := Direct(seqno);
      epoch := Recall(epoch, Behind(epoch, seqno));
    }

    /** Before the first drop, every number is forwarded as it is. */
    method Pass(seqno: U16, pid: U16) returns (r: Answer)
      requires Tracks() && entries == []
      modifies this
      ensures Tracks()
      ensures epoch == AfterMap(old(epoch), seqno, pid)
      ensures r == Answer(true, seqno, 0) && entries == [] && delta == old(delta) && pidDelta == old(pidDelta)
      ensures (next, nextPid) == if W(seqno - old(next)) < 0x8000 || W(old(next) - seqno) > 8192 then (W(seqno + 1), pid)
                                 else (old(next), old(nextPid))
    {
      Positions(epoch, seqno);
      Distances(next, seqno);
      if Compare(next, seqno) <= 0 || W(next - seqno) > 8 * 1024 {
        next := W(seqno + 1);
        nextPid := pid;
      }
      epoch := AfterMap(epoch, seqno, pid);
      return Answer(true, seqno, 0);
    }

    method Restart(seqno: U16, pid: U16) returns (r: Answer)
      modifies this
      ensures Tracks() && epoch == Restarted(seqno, pid)
      ensures r == Answer(true, seqno, 0)
      ensures next == W(seqno + 1) && nextPid == pid && delta == 0 && pidDelta == 0 && entries == []
    {
      Reset();
      next := W(seqno + 1);
      nextPid := pid;
      epoch := Restarted(seqno, pid);
      return Answer(true, seqno, 0);
    }

    method Continue(seqno: U16, pid: U16) returns (r: Answer)
      requires Tracks()
      requires entries != [] && Ahead(epoch, seqno) - epoch.next <= MAX_JUMP
      modifies this
      ensures Tracks()
      ensures var e := old(epoch);
              && epoch == Forward(e, Ahead(e, seqno), pid)
              && r == Answer(true, W(Ahead(e, seqno) - |e.dropped|), e.pid)
      ensures r == Answer(true, W(seqno + old(delta)), old(pidDelta))
      ensures next == W(seqno + 1) && nextPid == pid && delta == old(delta) && pidDelta == old(pidDelta) && entries != []
    {
      hide Forward, W, Images, Added, Above, Compare;
      ghost var e := epoch;
      ForwardFields(e, Ahead(e, seqno), pid);
      WrapAdd(Ahead(e, seqno), 1);
      WrapAdd(Ahead(e, seqno), 0 - |e.dropped|);
      AddedHolds(entries, lastEntry, e, seqno, pid);
      AddMapping(seqno, delta, pidDelta);
      next := W(seqno + 1);
      nextPid := pid;
      epoch := Forward(e, Ahead(e, seqno), pid);
      return Answer(true, W(seqno + delta), pidDelta);
    }

    method Reset()
      modifies this
      ensures next == 0 && nextPid == 0 && delta == 0 && pidDelta == 0 && lastEntry == 0 && entries == []
      ensures epoch == old(epoch)
    {
      next := 0;
      nextPid := 0;
      delta := 0;
      pidDelta := 0;
      lastEntry := 0;
      entries := [];
    }

    /** Remembers that seqno is forwarded with the given deltas. */
    method AddMapping(seqno: U16, delta: U16, pidDelta: U16)
      requires entries != [] ==> lastEntry < |entries| <= MAX_ENTRIES
      modifies this`entries, this`lastEntry
      ensures (entries, lastEntry) == Added(old(entries), old(lastEntry), seqno, delta, pidDelta)
    {
      if |entries| == 0 {
        return;
      }

      var i := lastEntry;
      if delta == entries[i].delta && pidDelta == entries[i].pidDelta {
        entries := entries[lastEntry := Extended(entries[i], seqno)];
        return;
      }

      var entry := Following(entries[i], seqno, delta, pidDelta);
      if |entries| < MAX_ENTRIES {
        entries := entries + [entry];
        lastEntry := |entries| - 1;
        return;
      }

      var j := (lastEntry + 1) % MAX_ENTRIES;
      entries := entries[j := entry];
      lastEntry := j;
    }

    /** The newest-first walk over the ring, for source numbers. */
    method Direct(seqno: U16) returns (r: Answer)
      requires RingHolds()
      ensures r == Renumber(epoch.spans, Scan(Sources(epoch.spans), seqno), seqno)
    {
      hide W, Images, Sources, Compare;
      ghost var ws := Sources(epoch.spans);
      if |entries| == 0 {
        return REFUSED;
      }
      var i := lastEntry;
      ghost var k := |entries| - 1;
      while true
        invariant 0 <= k < |entries| && i == Slot(lastEntry, |entries|, k)
        invariant Scan(ws, seqno) == ScanFirst(ws, k + 1, seqno)
        decreases k
      {
        ImageAt(epoch.spans, k);
        var f := entries[i].first;
        if Compare(seqno, f) >= 0 {
          if Compare(seqno, W(f + entries[i].count)) < 0 {
            return Answer(true, W(seqno + entries[i].delta), entries[i].pidDelta);
          }
          return REFUSED;
        }
        if i > 0 {
          i := i - 1;
        } else {
          i := |entries| - 1;
        }
        if i == lastEntry {
          break;
        }
        k := k - 1;
      }
      return REFUSED;
    }

    /** The same walk over target numbers. */
    method ReverseLocked(seqno: U16) returns (r: Answer)
      requires RingHolds() && (entries == [] ==> delta == 0)
      ensures r == ReverseAnswer(epoch, seqno)
    {
      hide W, Images, Targets, Compare;
      if delta == 0 && entries == [] {
        return Answer(true, seqno, 0);
      }
      ghost var spans, ws := epoch.spans, Targets(epoch.spans);
      var i := lastEntry;
      ghost var k := |entries| - 1;
      while true
        invariant 0 <= k < |entries| && i == Slot(lastEntry, |entries|, k)
        invariant Scan(ws, seqno) == ScanFirst(ws, k + 1, seqno)
        decreases k
      {
        ImageAt(epoch.spans, k);
        TargetAt(epoch.spans, k);
        var f := W(entries[i].first + entries[i].delta);
        if Compare(seqno, f) >= 0 {
          if Compare(seqno, W(f + entries[i].count)) < 0 {
            return Answer(true, W(seqno - entries[i].delta), entries[i].pidDelta);
          }
          return REFUSED;
        }
        if i > 0 {
          i := i - 1;
        } else {
          i := |entries| - 1;
        }
        if i == lastEntry {
          break;
        }
        k := k - 1;
      }
      return REFUSED;
    }

    method DropLocked(seqno: U16, pid: U16) returns (ok: bool)
      requires Tracks() && epoch.next !in epoch.dropped
      modifies this
      ensures Tracks()
      ensures ok <==> seqno == old(next)
      ensures epoch == if ok then Discard(old(epoch), pid) else old(epoch)
    {
      hide W;
      if seqno != next {
        return false;
      }
      ghost var e := epoch;
      DiscardFields(e, pid);
      if |entries| == 0 {
        entries := [Entry(W(seqno - 8192), 8192, 0, 0)];
      }
      pidDelta := W(pidDelta + W(pid - nextPid));
      nextPid := pid;
      delta := W(delta - 1);
      next := W(seqno + 1);
      epoch := Discard(e, pid);
      return true;
    }

    // ---------------------------------------------------------------- the entry points, which hold the lock

    method Map(seqno: U16, pid: U16) returns (r: Answer)
      requires Valid()
      modifies this
      ensures Valid()
      ensures epoch == AfterMap(old(epoch), seqno, pid) && r == MapAnswer(old(epoch), seqno)
      ensures Jumps(old(epoch), seqno) ==> r == Answer(true, seqno, 0)
      ensures old(entries) != [] && FarAway(old(next), seqno) ==>
                && r == Answer(true, seqno, 0)
                && next == W(seqno + 1) && nextPid == pid && delta == 0 && pidDelta == 0 && entries == []
      ensures old(entries) != [] && !FarAway(old(next), seqno) ==>
                && entries != [] && delta == old(delta) && pidDelta == old(pidDelta)
                && epoch.dropped == old(epoch).dropped
                && forall s :: s in old(epoch).log ==> s in epoch.log
      ensures !Jumps(old(epoch), seqno) && IsAhead(old(epoch), seqno) ==>
                AnswersByRank(epoch, Ahead(old(epoch), seqno), r)
      ensures !Jumps(old(epoch), seqno) && !IsAhead(old(epoch), seqno) ==>
                var s := Behind(old(epoch), seqno);
                && (Remembers(old(epoch), s) ==> AnswersByRank(epoch, s, r))
                && (AllNear(old(epoch)) ==> (r.ok <==> Remembers(old(epoch), s)))
    {
      hide Inv;
      ghost var e := epoch;
      Distances(next, seqno);
      r := MapLocked(seqno, pid);
      AfterMapInv(e, seqno, pid);
      if !Jumps(e, seqno) {
        if IsAhead(e, seqno) {
          InOrderMeaning(e, seqno, pid);
        } else {
          LateMeaning(e, seqno, pid);
        }
      }
    }

    method Reverse(seqno: U16) returns (r: Answer)
      requires Valid()
      ensures forall s :: s in epoch.log && Remembers(epoch, s) && W(epoch.log[s].target) == seqno ==>
                r == Answer(true, W(s), epoch.log[s].pid)
      ensures epoch.spans != [] && AllNear(epoch) ==>
                (r.ok <==> exists j, s :: 0 <= j < |epoch.spans| && epoch.spans[j].Has(s)
                                          && W(s + epoch.spans[j].delta) == seqno)
    {
      hide Inv;
      r := ReverseLocked(seqno);
      forall s | s in epoch.log && Remembers(epoch, s) && W(epoch.log[s].target) == seqno
        ensures r == Answer(true, W(s), epoch.log[s].pid)
      {
        ReverseInverts(epoch, s);
      }
      if epoch.spans != [] && AllNear(epoch) {
        ReverseSucceeds(epoch, seqno);
      }
    }

    method Drop(seqno: U16, pid: U16) returns (ok: bool)
      requires Valid()
      modifies this
      ensures Valid()
      ensures ok <==> seqno == old(next)
      ensures epoch == if ok then Discard(old(epoch), pid) else old(epoch)
    {
      DiscardKeepsInv(epoch, pid);
      ok := DropLocked(seqno, pid);
    }

    /** A receiver asks again for packet t: the packet is looked up by its source
        number and forwarded again. What it then receives is numbered t. */
    method Retransmit(t: U16, pid: U16) returns (r: Answer)
      requires Valid()
      modifies this
      ensures Valid()
      ensures forall s :: s in old(epoch).log && Remembers(old(epoch), s) && W(old(epoch).log[s].target) == t
                          && old(epoch).next - s <= MAX_JUMP ==>
                r == Answer(true, t, old(epoch).log[s].pid)
    {
      hide Inv, AfterMap;
      ghost var e := epoch;
      var source := Reverse(t);
      if !source.ok {
        return REFUSED;
      }
      r := Map(source.seqno, pid);
      forall s | s in e.log && Remembers(e, s) && W(e.log[s].target) == t && e.next - s <= MAX_JUMP
        ensures r == Answer(true, t, e.log[s].pid)
      {
        RetransmitMeaning(e, s, pid);
      }
    }
  }

  /** A number at most 8192 behind next is taken for itself, and starts no new epoch. */
  lemma LateIsBehind(e: Epoch, s: int)
    requires e.next - MAX_JUMP <= s < e.next
    ensures !IsAhead(e, W(s)) && Behind(e, W(s)) == s && !Jumps(e, W(s))
  {
    hide W;
    SameResidue(s, Behind(e, W(s)));
    WrapTurn(s);
    SameResidue(s + MODULUS, Ahead(e, W(s)));
  }

  lemma RetransmitMeaning(e: Epoch, s: int, pid: U16)
    requires Inv(e) && s in e.log && Remembers(e, s) && e.next - s <= MAX_JUMP
    ensures MapAnswer(e, W(s)) == Answer(true, W(e.log[s].target), e.log[s].pid)
  {
    hide Inv, W;
    LoggedIsBehind(e, s);
    LateIsBehind(e, s);
    if e.spans == [] {
      NothingDropped(e, s);
    } else {
      var j :| 0 <= j < |e.spans| && Near(e, j) && e.spans[j].Has(s);
      SpanAnswers(e, j, s);
      SpanAgreesWithLog(e, j, s);
    }
  }
}

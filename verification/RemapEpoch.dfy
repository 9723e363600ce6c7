/** What the packet map promises between two resets, over unbounded sequence
    numbers: which numbers were dropped, which were forwarded and as what, and
    which intervals are still remembered. */
module RemapEpoch {
  import opened Serial
  import opened Windows

  const MAX_ENTRIES := 128
  const MAX_JUMP := 8192

  /** A remembered interval: its numbers are forwarded with delta added (delta
      is minus the number of earlier drops) and the given picture-id delta. */
  datatype Span = Span(first: int, count: nat, delta: int, pid: U16) {
    predicate Has(s: int) { first <= s < first + count }
    function End(): int { first + count }
    function Source(): Window { Window(first, count) }
    function Target(): Window { Window(first + delta, count) }
  }

  datatype Forwarded = Forwarded(target: int, pid: U16)

  datatype Epoch = Epoch(
    next: int,                    // the next number expected in order
    nextPid: U16,
    pid: U16,                     // the current picture-id delta
    dropped: set<int>,            // numbers for which Drop returned true
    spans: seq<Span>,             // remembered intervals, oldest first
    log: map<int, Forwarded>      // numbers forwarded, with what was returned for them
  )

  function Sources(spans: seq<Span>): (ws: seq<Window>)
    ensures |ws| == |spans|
    ensures forall i :: 0 <= i < |ws| ==> ws[i] == spans[i].Source()
  {
    seq(|spans|, i requires 0 <= i < |spans| => spans[i].Source())
  }

  function Targets(spans: seq<Span>): (ws: seq<Window>)
    ensures |ws| == |spans|
    ensures forall i :: 0 <= i < |ws| ==> ws[i] == spans[i].Target()
  {
    seq(|spans|, i requires 0 <= i < |spans| => spans[i].Target())
  }

  // ---------------------------------------------------------------- rank

  /** The number of dropped numbers below s. */
  ghost function Rank(dropped: set<int>, s: int): nat {
    |set d | d in dropped && d < s|
  }

  lemma RankOfAll(dropped: set<int>, s: int)
    requires forall d :: d in dropped ==> d < s
    ensures Rank(dropped, s) == |dropped|
  {
    assert (set d | d in dropped && d < s) == dropped;
  }

  /** Later drops do not change the rank of an earlier number. */
  lemma RankIsStable(dropped: set<int>, d: int, s: int)
    requires s <= d
    ensures Rank(dropped + {d}, s) == Rank(dropped, s)
  {
    assert (set x | x in dropped + {d} && x < s) == (set x | x in dropped && x < s);
  }

  ghost function Between(dropped: set<int>, s: int, t: int): set<int> {
    set d | d in dropped && s <= d < t
  }

  lemma RankSplit(dropped: set<int>, s: int, t: int)
    requires s <= t
    ensures Rank(dropped, t) == Rank(dropped, s) + |Between(dropped, s, t)|
  {
    assert (set d | d in dropped && d < t) == (set d | d in dropped && d < s) + Between(dropped, s, t);
  }

  lemma {:induction false} BetweenBound(dropped: set<int>, s: int, t: int)
    requires s <= t
    ensures |Between(dropped, s, t)| <= t - s
    decreases t - s
  {
    if s == t {
      assert Between(dropped, s, t) == {};
    } else {
      BetweenBound(dropped, s, t - 1);
      assert Between(dropped, s, t) <= Between(dropped, s, t - 1) + {t - 1};
      SubsetSize(Between(dropped, s, t), Between(dropped, s, t - 1) + {t - 1});
    }
  }

  lemma {:induction false} SubsetSize(a: set<int>, b: set<int>)
    requires a <= b
    ensures |a| <= |b|
  {
    assert b == a + (b - a);
  }

  /** Renumbering by rank is strictly increasing on numbers that are kept, and
      the step between two of them is the input gap minus the drops between. */
  lemma RenumberingIncreases(dropped: set<int>, s: int, t: int)
    requires s < t && s !in dropped
    ensures s - Rank(dropped, s) < t - Rank(dropped, t)
    ensures (t - Rank(dropped, t)) - (s - Rank(dropped, s)) == (t - s) - |Between(dropped, s, t)|
  {
    RankSplit(dropped, s, t);
    BetweenBound(dropped, s + 1, t);
    assert Between(dropped, s, t) == Between(dropped, s + 1, t);
  }

  // ---------------------------------------------------------------- invariant

  /** Span i starts less than 2^15 before the next number. */
  ghost predicate Near(e: Epoch, i: int)
    requires 0 <= i < |e.spans|
  {
    e.next - 0x8000 < e.spans[i].first
  }

  ghost predicate AllNear(e: Epoch) {
    forall i :: 0 <= i < |e.spans| ==> Near(e, i)
  }

  /** Every logged number was not dropped and was forwarded as its rank says. */
  ghost predicate LogIsRank(e: Epoch) {
    && (forall d :: d in e.dropped ==> d < e.next)
    && (forall s :: s in e.log ==> s < e.next && s !in e.dropped && e.log[s].target == s - Rank(e.dropped, s))
  }

  /** The spans are disjoint and increasing in the source and in the target, and the newest span, moved by the
      drops since it was last extended, ends at next; n is the number of drops. */
  ghost predicate InOrderSpans(spans: seq<Span>, next: int, n: nat) {
    && |spans| <= MAX_ENTRIES
    && (forall i :: 0 <= i < |spans| ==>
          && spans[i].count >= 1
          && spans[i].End() <= next
          && spans[i].delta + n >= 0
          && spans[i].End() + spans[i].delta <= next - n)
    && (forall i, k :: 0 <= i < k < |spans| ==> spans[i].End() <= spans[k].first)
    && (forall i, k :: 0 <= i < k < |spans| && next - 0x8000 < spans[k].first ==>
          spans[i].End() + spans[i].delta <= spans[k].first + spans[k].delta)
    && (spans != [] ==>
          var last := spans[|spans| - 1];
          last.End() + (last.delta + n) == next)
  }

  ghost predicate SpansInOrder(e: Epoch) {
    InOrderSpans(e.spans, e.next, |e.dropped|)
  }

  /** The numbers of span i were not dropped, its delta is minus their rank, and it holds the
      picture-id delta they were forwarded with. */
  ghost predicate Faithful(e: Epoch, i: int)
    requires 0 <= i < |e.spans|
  {
    forall s :: e.spans[i].Has(s) ==>
      && s !in e.dropped
      && Rank(e.dropped, s) == -e.spans[i].delta
      && (s in e.log ==> e.log[s].pid == e.spans[i].pid)
  }

  ghost predicate RecentFaith(e: Epoch) {
    forall i :: 0 <= i < |e.spans| && Near(e, i) ==> Faithful(e, i)
  }

  /** What lies between span i and the next one. */
  ghost predicate GapIsDrops(spans: seq<Span>, dropped: set<int>, i: int)
    requires 0 <= i < |spans| - 1
  {
    spans[i].delta - spans[i + 1].delta < MAX_JUMP ==>
      forall s :: spans[i].End() <= s < spans[i + 1].first ==> s in dropped
  }

  /** A number between two spans was dropped, unless 8192 or more drops separate the spans. */
  ghost predicate AllGapsAreDrops(spans: seq<Span>, dropped: set<int>, next: int) {
    && (forall i :: 0 <= i < |spans| - 1 ==> GapIsDrops(spans, dropped, i))
    && (spans != [] ==> forall s :: spans[|spans| - 1].End() <= s < next ==> s in dropped)
  }

  ghost predicate GapsAreDrops(e: Epoch) {
    AllGapsAreDrops(e.spans, e.dropped, e.next)
  }

  ghost predicate Inv(e: Epoch) {
    && LogIsRank(e)
    && (e.spans == [] ==> e.dropped == {} && e.pid == 0 && forall s :: s in e.log ==> e.log[s].pid == 0)
    && SpansInOrder(e)
    && RecentFaith(e)
    && GapsAreDrops(e)
  }

  // ---------------------------------------------------------------- steps

  function Fresh(next: int, nextPid: U16): (e: Epoch) {
    Epoch(next, nextPid, 0, {}, [], map[])
  }

  /** The newest span still has the current deltas (as far as 16 bits tell). */
  predicate Current(e: Epoch) {
    e.spans != [] && var last := e.spans[|e.spans| - 1];
                     W(last.delta) == W(0 - |e.dropped|) && last.pid == e.pid
  }

  /** The newest span now reaches s. */
  function Stretch(e: Epoch, s: int): Epoch
    requires e.spans != [] && e.spans[|e.spans| - 1].first <= s
  {
    var n := |e.spans| - 1;
    var first := e.spans[n].first;
    e.(spans := e.spans[..n] + [Span(first, s - first + 1, 0 - |e.dropped|, e.pid)])
  }

  /** Make room for a span by forgetting the oldest. */
  function Evict(e: Epoch): Epoch {
    if |e.spans| < MAX_ENTRIES then e else e.(spans := e.spans[1..])
  }

  /** A new span for s; it starts at next, unless 8192 or more drops happened since the newest span. */
  function Append(e: Epoch, s: int): Epoch
    requires e.spans != [] && e.next <= s
  {
    var last := e.spans[|e.spans| - 1];
    var first := if W(last.delta + |e.dropped|) < MAX_JUMP then e.next else s;
    e.(spans := e.spans + [Span(first, s - first + 1, 0 - |e.dropped|, e.pid)])
  }

  /** The spans once s is remembered. */
  function Remember(e: Epoch, s: int): Epoch
    requires e.next <= s && CanForward(e)
  {
    if e.spans == [] then e else if Current(e) then Stretch(e, s) else Append(Evict(e), s)
  }

  /** Logging s as the newest number and moving next past it. */
  function Advance(e: Epoch, s: int, srcPid: U16): Epoch {
    e.(next := s + 1, nextPid := srcPid, log := e.log[s := Forwarded(s - |e.dropped|, e.pid)])
  }

  /** The newest span does not start after next; true in every run, see RunKeepsInv. */
  predicate CanForward(e: Epoch) {
    e.spans != [] ==> e.spans[|e.spans| - 1].first <= e.next
  }

  /** Number s arrives, at or after next, and is forwarded. */
  function Forward(e: Epoch, s: int, srcPid: U16): Epoch
    requires e.next <= s && CanForward(e)
  {
    Advance(Remember(e, s), s, srcPid)
  }

  /** Number next arrives and is dropped. */
  function Discard(e: Epoch, srcPid: U16): Epoch {
    e.(next := e.next + 1, nextPid := srcPid,
       pid := W(e.pid + srcPid - e.nextPid),
       dropped := e.dropped + {e.next},
       spans := if e.spans == [] then [Span(e.next - MAX_JUMP, MAX_JUMP, 0, 0)] else e.spans)
  }

  /** Number s arrives late and is forwarded if a recent span remembers it. */
  ghost function Recall(e: Epoch, s: int): Epoch {
    if e.spans == [] then e.(log := e.log[s := Forwarded(s, 0)])
    else
      var j := Find(Sources(e.spans), s);
      if j >= 0 && Near(e, j) then e.(log := e.log[s := Forwarded(s + e.spans[j].delta, e.spans[j].pid)])
      else e
  }

  // ---------------------------------------------------------------- preservation

  lemma FreshInv(next: int, nextPid: U16)
    ensures Inv(Fresh(next, nextPid))
  {
  }

  lemma DropCount(e: Epoch)
    requires LogIsRank(e)
    ensures |e.dropped + {e.next}| == |e.dropped| + 1
  {
    assert e.next !in e.dropped;
  }

  lemma DiscardKeepsRank(e: Epoch, srcPid: U16)
    requires LogIsRank(e)
    ensures LogIsRank(Discard(e, srcPid))
  {
    forall s | s in e.log
      ensures Rank(e.dropped + {e.next}, s) == Rank(e.dropped, s)
    {
      RankIsStable(e.dropped, e.next, s);
    }
  }

  lemma DiscardKeepsFaith(e: Epoch, srcPid: U16, i: int)
    requires Inv(e)
    requires 0 <= i < |Discard(e, srcPid).spans| && Near(Discard(e, srcPid), i)
    ensures Faithful(Discard(e, srcPid), i)
  {
    var e' := Discard(e, srcPid);
    forall s | e'.spans[i].Has(s)
      ensures s !in e'.dropped && Rank(e'.dropped, s) == -e'.spans[i].delta
      ensures s in e'.log ==> e'.log[s].pid == e'.spans[i].pid
    {
      RankIsStable(e.dropped, e.next, s);
      if e.spans == [] {
        RankOfAll(e.dropped, s);
      } else {
        assert Near(e, i) && Faithful(e, i);
      }
    }
  }

  lemma DiscardKeepsOrder(e: Epoch, srcPid: U16)
    requires Inv(e)
    ensures SpansInOrder(Discard(e, srcPid))
  {
    var e' := Discard(e, srcPid);
    DropCount(e);
    forall i, k | 0 <= i < k < |e'.spans| && Near(e', k)
      ensures e'.spans[i].End() + e'.spans[i].delta <= e'.spans[k].first + e'.spans[k].delta
    {
      assert Near(e, k);
    }
  }

  lemma DiscardKeepsGaps(e: Epoch, srcPid: U16)
    requires Inv(e)
    ensures GapsAreDrops(Discard(e, srcPid))
  {
    var e' := Discard(e, srcPid);
    forall i | 0 <= i < |e'.spans| - 1
      ensures GapIsDrops(e'.spans, e'.dropped, i)
    {
      assert GapIsDrops(e.spans, e.dropped, i);
    }
  }

  lemma DiscardKeepsInv(e: Epoch, srcPid: U16)
    requires Inv(e)
    ensures Inv(Discard(e, srcPid))
  {
    var e' := Discard(e, srcPid);
    DiscardKeepsRank(e, srcPid);
    DiscardKeepsOrder(e, srcPid);
    DiscardKeepsGaps(e, srcPid);
    forall i | 0 <= i < |e'.spans| && Near(e', i)
      ensures Faithful(e', i)
    {
      DiscardKeepsFaith(e, srcPid, i);
    }
  }

  /** In a recent newest span no drops hide behind the 16-bit delta: equal
      residues mean that nothing was dropped since the span was extended. */
  lemma RecentDeltaIsExact(e: Epoch)
    requires Inv(e) && e.spans != [] && Near(e, |e.spans| - 1)
    ensures W(e.spans[|e.spans| - 1].delta) == W(-|e.dropped|) ==> e.spans[|e.spans| - 1].delta == -|e.dropped|
  {
    var last := e.spans[|e.spans| - 1];
    if W(last.delta) == W(-|e.dropped|) {
      SameResidue(last.delta, -|e.dropped|);
    }
  }

  lemma EvictKeepsInv(e: Epoch)
    requires Inv(e)
    ensures Inv(Evict(e))
  {
    var e' := Evict(e);
    if |e.spans| == MAX_ENTRIES {
      assert forall i :: 0 <= i < |e'.spans| ==> e'.spans[i] == e.spans[i + 1];
      assert forall i :: 0 <= i < |e'.spans| ==> Near(e', i) == Near(e, i + 1);
      forall i | 0 <= i < |e'.spans| && Near(e', i)
        ensures Faithful(e', i)
      {
        assert Faithful(e, i + 1);
      }
      forall i | 0 <= i < |e'.spans| - 1
        ensures GapIsDrops(e'.spans, e'.dropped, i)
      {
        assert GapIsDrops(e.spans, e.dropped, i + 1);
      }
    }
  }

  lemma AdvanceKeepsRank(e: Epoch, s: int, srcPid: U16)
    requires LogIsRank(e) && e.next <= s
    ensures LogIsRank(Advance(e, s, srcPid))
  {
    RankOfAll(e.dropped, s);
  }

  /** An older span stays faithful when next moves. */
  lemma OldFaith(e: Epoch, e': Epoch, i: int, srcPid: U16, s: int)
    requires Inv(e) && e.next <= s
    requires 0 <= i < |e.spans| && i < |e'.spans| && e'.spans[i] == e.spans[i]
    requires e'.next == s + 1 && e'.dropped == e.dropped && e'.log == Advance(e, s, srcPid).log
    requires Near(e', i)
    ensures Near(e, i) && Faithful(e', i)
  {
    assert Faithful(e, i);
  }

  lemma StretchedSpanFaith(e: Epoch, s: int, srcPid: U16)
    requires Inv(e) && e.next <= s && Current(e)
    requires Near(Advance(Stretch(e, s), s, srcPid), |e.spans| - 1)
    ensures Faithful(Advance(Stretch(e, s), s, srcPid), |e.spans| - 1)
  {
    var n := |e.spans| - 1;
    var e' := Advance(Stretch(e, s), s, srcPid);
    assert Near(e, n) && Faithful(e, n);
    RecentDeltaIsExact(e);
    forall x | e'.spans[n].Has(x)
      ensures x !in e'.dropped && Rank(e'.dropped, x) == -e'.spans[n].delta
      ensures x in e'.log ==> e'.log[x].pid == e'.spans[n].pid
    {
      if x >= e.next {
        RankOfAll(e.dropped, x);
      } else {
        assert e.spans[n].Has(x);
      }
    }
  }

  lemma StretchKeepsFaith(e: Epoch, s: int, srcPid: U16)
    requires Inv(e) && e.next <= s && Current(e)
    ensures RecentFaith(Advance(Stretch(e, s), s, srcPid))
  {
    var e' := Advance(Stretch(e, s), s, srcPid);
    forall i | 0 <= i < |e'.spans| && Near(e', i)
      ensures Faithful(e', i)
    {
      if i < |e.spans| - 1 {
        assert e'.spans[i] == e.spans[i];
        OldFaith(e, e', i, srcPid, s);
      } else {
        StretchedSpanFaith(e, s, srcPid);
      }
    }
  }

  lemma StretchKeepsOrder(e: Epoch, s: int, srcPid: U16)
    requires Inv(e) && e.next <= s && Current(e)
    ensures SpansInOrder(Advance(Stretch(e, s), s, srcPid))
  {
    var n := |e.spans| - 1;
    var stretched := Stretch(e, s).spans;
    if s + 1 - 0x8000 < e.spans[n].first {
      assert Near(e, n);
      RecentDeltaIsExact(e);
    }
    StretchedInOrder(e.spans, stretched, e.next, s + 1, |e.dropped|);
  }

  lemma StretchedInOrder(spans: seq<Span>, stretched: seq<Span>, next: int, next': int, n: nat)
    requires spans != [] && InOrderSpans(spans, next, n) && next <= next'
    requires |stretched| == |spans|
    requires forall i :: 0 <= i < |spans| - 1 ==> stretched[i] == spans[i]
    requires var last, last' := spans[|spans| - 1], stretched[|spans| - 1];
             && last'.first == last.first && last'.End() == next' && last'.delta == 0 - n
             && (next' - 0x8000 < last.first ==> last.delta == 0 - n)
    ensures InOrderSpans(stretched, next', n)
  {
    var last := |spans| - 1;
    forall i, k | 0 <= i < k < |stretched|
      ensures stretched[i] == spans[i] && stretched[i].End() <= stretched[k].first
      ensures next' - 0x8000 < stretched[k].first ==>
                stretched[i].End() + stretched[i].delta <= stretched[k].first + stretched[k].delta
    {
      assert spans[i].End() <= spans[k].first;
    }
  }

  lemma StretchKeepsGaps(e: Epoch, s: int, srcPid: U16)
    requires Inv(e) && e.next <= s && Current(e)
    ensures GapsAreDrops(Advance(Stretch(e, s), s, srcPid))
  {
    var e' := Advance(Stretch(e, s), s, srcPid);
    forall i | 0 <= i < |e'.spans| - 1
      ensures GapIsDrops(e'.spans, e'.dropped, i)
    {
      assert e'.spans[i] == e.spans[i];
      assert GapIsDrops(e.spans, e.dropped, i);
    }
  }

  lemma StretchKeepsInv(e: Epoch, s: int, srcPid: U16)
    requires Inv(e) && e.next <= s && Current(e)
    ensures Inv(Advance(Stretch(e, s), s, srcPid))
  {
    var e' := Advance(Stretch(e, s), s, srcPid);
    AdvanceKeepsRank(e, s, srcPid);
    StretchKeepsOrder(e, s, srcPid);
    StretchKeepsGaps(e, s, srcPid);
    StretchKeepsFaith(e, s, srcPid);
  }

  lemma AppendKeepsGaps(e: Epoch, s: int, srcPid: U16)
    requires Inv(e) && e.next <= s && 0 < |e.spans| < MAX_ENTRIES
    ensures GapsAreDrops(Advance(Append(e, s), s, srcPid))
  {
    var n := |e.spans|;
    var e' := Advance(Append(e, s), s, srcPid);
    assert forall i :: 0 <= i < n ==> e'.spans[i] == e.spans[i];
    forall i | 0 <= i < |e'.spans| - 1
      ensures GapIsDrops(e'.spans, e'.dropped, i)
    {
      if i < n - 1 {
        assert GapIsDrops(e.spans, e.dropped, i);
      }
    }
  }

  lemma AppendKeepsFaith(e: Epoch, s: int, srcPid: U16)
    requires Inv(e) && e.next <= s && 0 < |e.spans| < MAX_ENTRIES
    ensures RecentFaith(Advance(Append(e, s), s, srcPid))
  {
    var e' := Advance(Append(e, s), s, srcPid);
    forall i | 0 <= i < |e'.spans| && Near(e', i)
      ensures Faithful(e', i)
    {
      if i < |e.spans| {
        OldFaith(e, e', i, srcPid, s);
      } else {
        forall x | e'.spans[i].Has(x)
          ensures x !in e'.dropped && Rank(e'.dropped, x) == -e'.spans[i].delta
        {
          RankOfAll(e.dropped, x);
        }
      }
    }
  }

  lemma AppendKeepsOrder(e: Epoch, s: int, srcPid: U16)
    requires Inv(e) && e.next <= s && 0 < |e.spans| < MAX_ENTRIES
    ensures SpansInOrder(Advance(Append(e, s), s, srcPid))
  {
    var e' := Advance(Append(e, s), s, srcPid);
    assert forall i :: 0 <= i < |e.spans| ==> e'.spans[i] == e.spans[i];
  }

  lemma AppendKeepsInv(e: Epoch, s: int, srcPid: U16)
    requires Inv(e) && e.next <= s && 0 < |e.spans| < MAX_ENTRIES
    ensures Inv(Advance(Append(e, s), s, srcPid))
  {
    AdvanceKeepsRank(e, s, srcPid);
    AppendKeepsOrder(e, s, srcPid);
    AppendKeepsGaps(e, s, srcPid);
    AppendKeepsFaith(e, s, srcPid);
  }

  lemma ForwardKeepsInv(e: Epoch, s: int, srcPid: U16)
    requires Inv(e) && e.next <= s
    ensures Inv(Forward(e, s, srcPid))
  {
    if e.spans == [] {
      AdvanceKeepsRank(e, s, srcPid);
    } else if Current(e) {
      StretchKeepsInv(e, s, srcPid);
    } else {
      EvictKeepsInv(e);
      AppendKeepsInv(Evict(e), s, srcPid);
    }
  }

  lemma RecallKeepsFaith(e: Epoch, s: int, i: int)
    requires Inv(e) && 0 <= i < |e.spans| && Near(e, i)
    ensures Faithful(Recall(e, s), i)
  {
    var j := Find(Sources(e.spans), s);
    assert Faithful(e, i);
    if j >= 0 && e.spans[i].Has(s) {
      SpanOfIsUnique(e, i, j, s);
    }
  }

  lemma RecallKeepsInv(e: Epoch, s: int)
    requires Inv(e) && s < e.next
    ensures Inv(Recall(e, s))
  {
    var e' := Recall(e, s);
    if e.spans == [] {
      RankOfAll(e.dropped, s);
    } else {
      var j := Find(Sources(e.spans), s);
      if j >= 0 && Near(e, j) {
        RecallKeepsRank(e, s, j);
        forall i | 0 <= i < |e'.spans| && Near(e', i)
          ensures Faithful(e', i)
        {
          assert Near(e, i);
          RecallKeepsFaith(e, s, i);
        }
      }
    }
  }

  lemma RecallKeepsRank(e: Epoch, s: int, j: int)
    requires LogIsRank(e) && RecentFaith(e) && s < e.next && e.spans != []
    requires j == Find(Sources(e.spans), s) >= 0 && Near(e, j)
    ensures LogIsRank(Recall(e, s))
  {
    assert Faithful(e, j) && e.spans[j].Has(s);
  }

  lemma SpanOfIsUnique(e: Epoch, i: int, j: int, s: int)
    requires SpansInOrder(e)
    requires 0 <= i < |e.spans| && 0 <= j < |e.spans| && e.spans[i].Has(s) && e.spans[j].Has(s)
    ensures i == j
  {
  }

  // ---------------------------------------------------------------- runs

  datatype Event =
    | InOrder(s: int, srcPid: U16)   // number s arrives at or after next and is forwarded
    | Dropped(srcPid: U16)           // number next is dropped
    | Late(s: int)                   // number s, before next, is looked up

  ghost predicate Step(e: Epoch, ev: Event, e': Epoch) {
    match ev
    case InOrder(s, srcPid) => e.next <= s && CanForward(e) && e' == Forward(e, s, srcPid)
    case Dropped(srcPid) => e' == Discard(e, srcPid)
    case Late(s) => s < e.next && e' == Recall(e, s)
  }

  ghost predicate IsRun(es: seq<Epoch>, evs: seq<Event>) {
    && |es| == |evs| + 1
    && es[0] == Fresh(es[0].next, es[0].nextPid)
    && forall i :: 0 <= i < |evs| ==> Step(es[i], evs[i], es[i + 1])
  }

  lemma StepKeepsInv(e: Epoch, ev: Event, e': Epoch)
    requires Inv(e) && Step(e, ev, e')
    ensures Inv(e')
  {
    match ev
    case InOrder(s, srcPid) => ForwardKeepsInv(e, s, srcPid);
    case Dropped(srcPid) => DiscardKeepsInv(e, srcPid);
    case Late(s) => RecallKeepsInv(e, s);
  }

  lemma {:induction false} RunKeepsInv(es: seq<Epoch>, evs: seq<Event>, i: nat)
    requires IsRun(es, evs) && i < |es|
    ensures Inv(es[i])
  {
    if i == 0 {
      FreshInv(es[0].next, es[0].nextPid);
    } else {
      RunKeepsInv(es, evs, i - 1);
      StepKeepsInv(es[i - 1], evs[i - 1], es[i]);
    }
  }

  /** What a recent span says about a logged number is what was returned for it. */
  lemma SpanAgreesWithLog(e: Epoch, j: int, s: int)
    requires Inv(e) && 0 <= j < |e.spans| && Near(e, j)
    requires e.spans[j].Has(s) && s in e.log
    ensures e.log[s] == Forwarded(s + e.spans[j].delta, e.spans[j].pid)
  {
    assert Faithful(e, j);
  }

  lemma StepKeepsLog(e: Epoch, ev: Event, e': Epoch, s: int)
    requires Inv(e) && Step(e, ev, e') && s in e.log
    ensures s in e'.log && e'.log[s] == e.log[s]
  {
    hide AllGapsAreDrops, InOrderSpans, Faithful;
    if ev.Late? && ev.s == s {
      if e.spans == [] {
        assert Rank({}, s) == 0;
      } else {
        var j := Find(Sources(e.spans), s);
        if j >= 0 && Near(e, j) {
          SpanAgreesWithLog(e, j, s);
        }
      }
    }
  }

  /** An answer, once given, is given for ever after. */
  lemma {:induction false} AnswersAreStable(es: seq<Epoch>, evs: seq<Event>, i: nat, k: nat, s: int)
    requires IsRun(es, evs) && i <= k < |es| && s in es[i].log
    ensures s in es[k].log && es[k].log[s] == es[i].log[s]
    decreases k
  {
    if i < k {
      AnswersAreStable(es, evs, i, k - 1, s);
      RunStepKeepsLog(es, evs, k - 1, s);
    }
  }

  lemma RunStepKeepsLog(es: seq<Epoch>, evs: seq<Event>, i: nat, s: int)
    requires IsRun(es, evs) && i < |evs| && s in es[i].log
    ensures s in es[i + 1].log && es[i + 1].log[s] == es[i].log[s]
  {
    RunKeepsInv(es, evs, i);
    StepKeepsLog(es[i], evs[i], es[i + 1], s);
  }

  lemma {:induction false} DropsOnlyGrow(es: seq<Epoch>, evs: seq<Event>, i: nat, k: nat)
    requires IsRun(es, evs) && i <= k < |es|
    ensures es[i].dropped <= es[k].dropped
    decreases k
  {
    if i < k {
      DropsOnlyGrow(es, evs, i, k - 1);
      assert Step(es[k - 1], evs[k - 1], es[k]);
    }
  }

  /** Rank refinement. In every run, whatever was returned for a number at any
      time is that number minus the drops below it -- all the drops of the whole
      run, later ones included; the number was never dropped and never will be;
      and outputs increase strictly with inputs, by the input gap minus the drops. */
  lemma RankRefinement(es: seq<Epoch>, evs: seq<Event>, i: nat, k: nat, s: int)
    requires IsRun(es, evs) && i <= k < |es| && s in es[i].log
    ensures s !in es[k].dropped
    ensures es[i].log[s].target == s - Rank(es[k].dropped, s)
    ensures forall u :: u in es[k].log && s < u ==>
              es[i].log[s].target < es[k].log[u].target
              && es[k].log[u].target - es[i].log[s].target == (u - s) - |Between(es[k].dropped, s, u)|
  {
    AnswersAreStable(es, evs, i, k, s);
    RunKeepsInv(es, evs, k);
    var e := es[k];
    forall u | u in e.log && s < u
      ensures e.log[s].target < e.log[u].target
      ensures e.log[u].target - e.log[s].target == (u - s) - |Between(e.dropped, s, u)|
    {
      RenumberingIncreases(e.dropped, s, u);
    }
  }

  // ---------------------------------------------------------------- picture ids

  /** The picture id of the newest packet. */
  function LastPid(evs: seq<Event>, start: U16): U16 {
    if evs == [] then start
    else
      match evs[|evs| - 1]
      case InOrder(_, srcPid) => srcPid
      case Dropped(srcPid) => srcPid
      case Late(_) => LastPid(evs[..|evs| - 1], start)
  }

  /** How far the picture id moved at the packets that were dropped. */
  function StepsDropped(evs: seq<Event>, start: U16): int {
    if evs == [] then 0
    else
      var before, ev := evs[..|evs| - 1], evs[|evs| - 1];
      StepsDropped(before, start) + if ev.Dropped? then ev.srcPid - LastPid(before, start) else 0
  }

  /** The picture-id delta is the sum of the steps to the dropped packets, modulo 2^16. */
  lemma {:induction false} PidDeltaIsStepsDropped(es: seq<Epoch>, evs: seq<Event>, i: nat)
    requires IsRun(es, evs) && i < |es|
    ensures es[i].nextPid == LastPid(evs[..i], es[0].nextPid)
    ensures es[i].pid == W(StepsDropped(evs[..i], es[0].nextPid))
  {
    hide W, Remember;
    if i == 0 {
      WrapSelf(0);
    } else {
      var start := es[0].nextPid;
      PidDeltaIsStepsDropped(es, evs, i - 1);
      assert evs[..i][..i - 1] == evs[..i - 1] && Step(es[i - 1], evs[i - 1], es[i]);
      WrapAdd(StepsDropped(evs[..i - 1], start), StepsDropped(evs[..i], start) - StepsDropped(evs[..i - 1], start));
      if evs[i - 1].InOrder? {
        RememberKeepsPid(es[i - 1], evs[i - 1].s);
      }
    }
  }

  lemma RememberKeepsPid(e: Epoch, s: int)
    requires e.next <= s && CanForward(e)
    ensures Remember(e, s).pid == e.pid
  {
  }

  // ---------------------------------------------------------------- what the spans remember

  lemma RecentWindows(e: Epoch, j: nat)
    requires Inv(e) && j <= |e.spans|
    requires j < |e.spans| ==> Near(e, j)
    ensures RecentFrom(Sources(e.spans), j, e.next)
    ensures RecentFrom(Targets(e.spans), j, e.next - |e.dropped|)
  {
    forall i | j <= i < |e.spans|
      ensures Near(e, i)
      ensures e.next - |e.dropped| - 0x8000 < e.spans[i].first + e.spans[i].delta
    {
      if i > j {
        assert e.spans[j].End() <= e.spans[i].first;
      }
    }
  }

  lemma {:induction false} WholeInterval(d: set<int>, s: int, t: int)
    requires s <= t && forall x :: s <= x < t ==> x in d
    ensures |Between(d, s, t)| == t - s
    decreases t - s
  {
    if s == t {
      assert Between(d, s, t) == {};
    } else {
      WholeInterval(d, s, t - 1);
      assert Between(d, s, t) == Between(d, s, t - 1) + {t - 1};
    }
  }

  /** Renumbered intervals leave no hole between them, unless 8192 or more drops came in a row. */
  lemma TargetsAreContiguous(e: Epoch, i: int)
    requires Inv(e) && 0 <= i < |e.spans| - 1 && Near(e, i)
    requires e.spans[i].delta - e.spans[i + 1].delta < MAX_JUMP
    ensures e.spans[i].End() + e.spans[i].delta == e.spans[i + 1].first + e.spans[i + 1].delta
  {
    var a, b := e.spans[i], e.spans[i + 1];
    assert Near(e, i + 1) && Faithful(e, i) && Faithful(e, i + 1) && GapIsDrops(e.spans, e.dropped, i);
    assert a.Has(a.End() - 1) && b.Has(b.first);
    RankSplit(e.dropped, a.End() - 1, b.first);
    WholeInterval(e.dropped, a.End(), b.first);
    assert Between(e.dropped, a.End() - 1, b.first) == Between(e.dropped, a.End(), b.first);
  }

  /** With recent spans and no 8192 drops in a row, a number at or after the oldest span is
      remembered exactly when it was not dropped. */
  lemma RememberedIffKept(e: Epoch, s: int)
    requires Inv(e) && e.spans != [] && AllNear(e)
    requires forall i :: 0 <= i < |e.spans| - 1 ==> e.spans[i].delta - e.spans[i + 1].delta < MAX_JUMP
    requires e.spans[0].first <= s < e.next
    ensures Find(Sources(e.spans), s) >= 0 <==> s !in e.dropped
  {
    var j := Find(Sources(e.spans), s);
    if j >= 0 {
      assert Near(e, j) && Faithful(e, j) && e.spans[j].Has(s);
    } else {
      assert forall i :: 0 <= i < |e.spans| ==> Sources(e.spans)[i] == e.spans[i].Source() && !e.spans[i].Has(s);
      var i := LastStarted(e.spans, s);
      InGapIsDropped(e, i, s);
    }
  }

  /** The last span that starts at or before s, when the first does. */
  lemma {:induction false} LastStarted(spans: seq<Span>, s: int) returns (i: nat)
    requires spans != [] && spans[0].first <= s
    ensures i < |spans| && spans[i].first <= s && (i + 1 < |spans| ==> s < spans[i + 1].first)
    decreases |spans|
  {
    var n := |spans| - 1;
    if spans[n].first <= s {
      i := n;
    } else {
      i := LastStarted(spans[..n], s);
    }
  }

  lemma InGapIsDropped(e: Epoch, i: nat, s: int)
    requires GapsAreDrops(e) && i < |e.spans| && e.spans[i].End() <= s < e.next
    requires i + 1 < |e.spans| ==> s < e.spans[i + 1].first && e.spans[i].delta - e.spans[i + 1].delta < MAX_JUMP
    ensures s in e.dropped
  {
    if i + 1 < |e.spans| {
      assert GapIsDrops(e.spans, e.dropped, i);
    }
  }
}

/** Ordered runs of consecutive sequence numbers and the two ways to search
    them: a linear search over unbounded numbers, and the modular scan from the
    newest run backwards that the packet map performs. */
module Windows {
  import opened Serial

  /** The numbers start, ..., start + count - 1. */
  datatype Window = Window(start: int, count: nat) {
    predicate Has(s: int) {
      start <= s < start + count
    }
  }

  /** Index of the window that holds s, searching from the oldest; -1 when there is none. */
  function Find(ws: seq<Window>, s: int): (j: int)
    ensures -1 <= j < |ws|
    ensures j >= 0 ==> ws[j].Has(s)
    ensures j < 0 ==> forall i :: 0 <= i < |ws| ==> !ws[i].Has(s)
  {
    if ws == [] then -1
    else if ws[0].Has(s) then 0
    else
      var j := Find(ws[1..], s);
      assert forall i :: 0 < i < |ws| ==> ws[i] == ws[1..][i - 1];
      if j < 0 then -1 else j + 1
  }

  /** What the code does with window w when it looks for s: pass to the next
      older window, give up, or answer from w. */
  datatype Verdict = Older | Reject | Accept

  function Judge(start: U16, count: U16, s: U16): Verdict {
    if Compare(s, start) < 0 then Older
    else if Compare(s, W(start + count)) < 0 then Accept
    else Reject
  }

  /** The modular scan, newest window first, of the n oldest windows. */
  function ScanFirst(ws: seq<Window>, n: nat, s: U16): (j: int)
    requires n <= |ws|
    ensures -1 <= j < n
  {
    if n == 0 then -1
    else
      match Judge(W(ws[n - 1].start), W(ws[n - 1].count), s)
      case Accept => n - 1
      case Reject => -1
      case Older => ScanFirst(ws, n - 1, s)
  }

  function Scan(ws: seq<Window>, s: U16): (j: int)
    ensures -1 <= j < |ws|
  {
    ScanFirst(ws, |ws|, s)
  }

  /** The windows from index j on are disjoint, increasing, end by limit, and start less than 2^15 before it. */
  ghost predicate RecentFrom(ws: seq<Window>, j: nat, limit: int) {
    && (forall i :: j <= i < |ws| ==> limit - 0x8000 < ws[i].start < ws[i].start + ws[i].count <= limit)
    && (forall i, k :: j <= i < k < |ws| ==> ws[i].start + ws[i].count <= ws[k].start)
  }

  lemma JudgeExact(w: Window, limit: int, s: int)
    requires limit - 0x8000 < w.start < w.start + w.count <= limit
    requires limit - 0x1_0000 <= s < limit
    ensures Judge(W(w.start), W(w.count), W(s)) ==
            if w.start - 0x8000 < s < w.start then Older else if w.Has(s) then Accept else Reject
  {
    var e := w.start + w.count;
    WrapAdd(w.start, w.count);
    if s > w.start - 0x8000 {
      CompareExact(s, w.start);
      if s >= w.start {
        CompareExact(s, e);
      }
    } else {
      CompareExact(s + 0x1_0000, w.start);
      WrapTurn(s);
      CompareExact(s + 0x1_0000, e);
    }
  }

  /** A number in a recent window is found by the scan, whatever the older windows look like. */
  lemma {:induction false} ScanHit(ws: seq<Window>, limit: int, s: int, j: nat, n: nat)
    requires j < n <= |ws| && ws[j].Has(s) && RecentFrom(ws, j, limit)
    ensures ScanFirst(ws, n, W(s)) == j
  {
    JudgeExact(ws[n - 1], limit, s);
    if j < n - 1 {
      assert ws[j].start + ws[j].count <= ws[n - 1].start;
      ScanHit(ws, limit, s, j, n - 1);
    }
  }

  /** When every window is recent the scan finds nothing that is not there. */
  lemma {:induction false} ScanMiss(ws: seq<Window>, limit: int, s: int, n: nat)
    requires RecentFrom(ws, 0, limit)
    requires limit - 0x1_0000 <= s < limit
    requires Find(ws, s) < 0 && n <= |ws|
    ensures ScanFirst(ws, n, W(s)) == -1
  {
    if n > 0 {
      JudgeExact(ws[n - 1], limit, s);
      ScanMiss(ws, limit, s, n - 1);
    }
  }

  /** On recent windows the modular newest-first scan and the linear
      oldest-first search agree, for every 16-bit number: the number meant is
      the closest one below the limit. */
  lemma ScanIsFind(ws: seq<Window>, limit: int, s: U16)
    requires RecentFrom(ws, 0, limit)
    ensures Scan(ws, s) == Find(ws, Below(limit - 1, s))
  {
    var u := Below(limit - 1, s);
    var j := Find(ws, u);
    if j < 0 {
      ScanMiss(ws, limit, u, |ws|);
    } else {
      ScanHit(ws, limit, u, j, |ws|);
    }
  }

  /** The scan goes on to older windows. */
  predicate Passes(w: Window, s: int) {
    W(s - w.start) > 0x8000
  }

  /** The end of the window is taken to be after s. */
  predicate Admits(w: Window, s: int) {
    0 < W(w.start + w.count - s) < 0x8000
  }

  /** How any window judges any number, its own or not, at any distance. */
  lemma JudgeIs(w: Window, s: int)
    ensures Judge(W(w.start), W(w.count), W(s)) ==
            if Passes(w, s) then Older else if Admits(w, s) then Accept else Reject
  {
    hide W, Compare;
    var e := w.start + w.count;
    assert W(W(w.start) + W(w.count)) == W(e) by { WrapAdd(w.start, w.count); }
    assert Compare(W(s), W(w.start)) < 0 <==> Passes(w, s) by { CompareIs(s, w.start); }
    assert Compare(W(s), W(e)) < 0 <==> Admits(w, s) by { CompareIs(s, e); }
  }

  /** What the modular comparison decides of any two numbers. */
  lemma CompareIs(s: int, x: int)
    ensures Compare(W(s), W(x)) < 0 <==> W(s - x) > 0x8000
    ensures Compare(W(s), W(x)) < 0 <==> 0 < W(x - s) < 0x8000
  {
    hide W;
    WrapSub(x, s);
    Opposite(x, s);
  }

  /** When two numbers have the same residue, and the two ways around between them. */
  lemma Opposite(x: int, s: int)
    ensures W(x - s) == 0 <==> W(x) == W(s)
    ensures W(x - s) == 0 <==> W(s - x) == 0
    ensures W(x - s) != 0 ==> W(s - x) == MODULUS - W(x - s)
  {
    WrapSub(x, s);
    WrapSub(s, x);
    SameResidueIff(x, s);
    WrapSub(0, x - s);
  }

  lemma SameResidueIff(x: int, s: int)
    ensures W(x - s) == 0 <==> W(x) == W(s)
  {
    WrapSub(x, s);
    if W(x - s) == 0 {
      var q := Turns(x - s);
      Congruent(x, s, q);
    }
  }

  /** The newest window that does not pass s on, or -1. */
  function Decides(ws: seq<Window>, s: int): (i: int)
    ensures -1 <= i < |ws|
    ensures i >= 0 ==> !Passes(ws[i], s)
    ensures forall k :: i < k < |ws| ==> Passes(ws[k], s)
  {
    if ws == [] then -1
    else if !Passes(ws[|ws| - 1], s) then |ws| - 1
    else Decides(ws[..|ws| - 1], s)
  }

  /** The window that answers for s, or -1. */
  function Answerer(ws: seq<Window>, s: int): (i: int)
    ensures -1 <= i < |ws|
  {
    var i := Decides(ws, s);
    if i >= 0 && Admits(ws[i], s) then i else -1
  }

  lemma {:induction false} ScanFirstIs(ws: seq<Window>, s: int, n: nat)
    requires n <= |ws|
    ensures ScanFirst(ws, n, W(s)) == Answerer(ws[..n], s)
  {
    hide W, Judge, Passes, Admits;
    if n > 0 {
      JudgeIs(ws[n - 1], s);
      ScanFirstIs(ws, s, n - 1);
      assert ws[..n][..n - 1] == ws[..n - 1];
    }
  }

  /** Where the scan ends, exactly, for every list of windows and every number. */
  lemma ScanIs(ws: seq<Window>, s: int)
    ensures Scan(ws, W(s)) == Answerer(ws, s)
  {
    hide W, Answerer;
    ScanFirstIs(ws, s, |ws|);
    assert ws[..|ws|] == ws;
  }

  /** A window answers for s exactly if it admits s, and it decides: it does not pass s on, and all newer ones do. */
  lemma AnswersIff(ws: seq<Window>, s: int, j: nat)
    requires j < |ws|
    ensures Answerer(ws, s) == j <==>
            !Passes(ws[j], s) && Admits(ws[j], s) && forall k :: j < k < |ws| ==> Passes(ws[k], s)
  {
    hide W, Passes, Admits;
  }

  /** Numbers on which the window has a say: one shortly before its start is passed on; its own is admitted near its
      end; one shortly after its end is not. */
  lemma NearWindow(w: Window, s: int)
    ensures w.start - 0x8000 < s < w.start ==> Passes(w, s)
    ensures 0 < w.start + w.count - s < 0x8000 ==> Admits(w, s)
    ensures 0 <= s - (w.start + w.count) <= 0x8000 ==> !Admits(w, s)
  {
  }
}

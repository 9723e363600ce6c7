/** The cache of recently received packets of a track, with its statistics,
    loss window and last keyframe. */
module PacketCache {
  import opened Basics
  import opened Division
  import opened Serial
  import opened RingQueue
  import LossBitmap
  import RS = ReceiverStats

  const BUF_SIZE := 1504

  /** A slot: a fixed buffer of which only the first length bytes mean
      anything; lengthAndMarker holds the length and, in bit 15, the marker. */
  datatype Entry = Entry(seqno: U16, lengthAndMarker: U16, timestamp: U32, buf: seq<Byte>) {
    function Length(): nat { lengthAndMarker % 0x8000 }
    predicate Marker() { lengthAndMarker >= 0x8000 }
    predicate Ok() { |buf| == BUF_SIZE }
  }

  /** What is kept of a packet: of a long one the length may be more than the bytes. */
  datatype Packet = Packet(seqno: U16, timestamp: U32, marker: bool, length: nat, data: seq<Byte>)

  const NO_PACKET := Packet(0, 0, false, 0, [])

  function Min(x: nat, y: nat): nat {
    if x <= y then x else y
  }

  /** What a slot holds. */
  function View(e: Entry): Packet {
    Packet(e.seqno, e.timestamp, e.Marker(), e.Length(), if e.Ok() then e.buf[..Min(e.Length(), BUF_SIZE)] else [])
  }

  /** What is kept of a packet with the bytes buf: the length and the marker share 16 bits, and a slot has room for
      1504 bytes. */
  function Kept(seqno: U16, timestamp: U32, marker: bool, buf: seq<Byte>): (p: Packet)
    ensures |buf| <= 1504 ==> p == Packet(seqno, timestamp, marker, |buf|, buf)
    ensures 1504 < |buf| < 0x8000 ==> p == Packet(seqno, timestamp, marker, |buf|, buf[..1504])
  {
    var length := |buf| % 0x8000;
    Packet(seqno, timestamp, marker || |buf| % 0x1_0000 >= 0x8000, length, buf[..Min(length, BUF_SIZE)])
  }

  function Views(es: seq<Entry>): (ps: seq<Packet>)
    ensures |ps| == |es| && forall i :: 0 <= i < |es| ==> ps[i] == View(es[i])
  {
    seq(|es|, i requires 0 <= i < |es| => View(es[i]))
  }

  const ZERO_ENTRY := Entry(0, 0, 0, seq(BUF_SIZE, _ => 0))

  /** The slot e after a packet was written over it: the buffer keeps its old bytes past the packet's end. */
  function Overwritten(e: Entry, seqno: U16, timestamp: U32, marker: bool, buf: seq<Byte>): (e': Entry)
    requires e.Ok()
    ensures e'.Ok()
  {
    var n := |buf| % 0x1_0000;
    var lam := if marker && n < 0x8000 then n + 0x8000 else n;
    Entry(seqno, lam, timestamp, if |buf| <= BUF_SIZE then buf + e.buf[|buf|..] else buf[..BUF_SIZE])
  }

  lemma OverwrittenView(e: Entry, seqno: U16, timestamp: U32, marker: bool, buf: seq<Byte>)
    requires e.Ok()
    ensures View(Overwritten(e, seqno, timestamp, marker, buf)) == Kept(seqno, timestamp, marker, buf)
  {
    var e' := Overwritten(e, seqno, timestamp, marker, buf);
    var n := Min(|buf| % 0x8000, BUF_SIZE);
    LengthAndMarker(|buf|, marker);
    if |buf| <= BUF_SIZE {
      assert e'.buf[..n] == buf;
    }
  }

  /** The length and the marker can be told apart again. */
  lemma LengthAndMarker(length: nat, marker: bool)
    ensures var n := length % 0x1_0000;
            var lam := if marker && n < 0x8000 then n + 0x8000 else n;
            lam % 0x8000 == length % 0x8000 && (lam >= 0x8000 <==> marker || n >= 0x8000)
    ensures length % 0x8000 <= length
  {
    DivMod(length, 0x1_0000);
    DivMod(length, 0x8000);
    var q, n := length / 0x1_0000, length % 0x1_0000;
    QuotientIs(length, 0x8000, if n < 0x8000 then 2 * q else 2 * q + 1);
    QuotientIs(n, 0x8000, if n < 0x8000 then 0 else 1);
    if n < 0x8000 {
      QuotientIs(n + 0x8000, 0x8000, 1);
    }
  }

  lemma ViewsOfUpdate(es: seq<Entry>, i: nat, e: Entry)
    requires i < |es|
    ensures Views(es[i := e]) == Views(es)[i := View(e)]
  {
  }

  lemma ViewsOfSlice(es: seq<Entry>, lo: nat, hi: nat)
    requires lo <= hi <= |es|
    ensures Views(es[lo..hi]) == Views(es)[lo..hi]
  {
  }

  lemma ViewsOfSum(a: seq<Entry>, b: seq<Entry>)
    ensures Views(a + b) == Views(a) + Views(b)
  {
  }

  lemma ViewsOfZeros(n: nat)
    ensures Views(Blanks(n, ZERO_ENTRY)) == Blanks(n, NO_PACKET)
  {
    assert View(ZERO_ENTRY) == NO_PACKET;
  }

  lemma ViewsOfResize(es: seq<Entry>, tail: nat, capacity: nat)
    requires tail < |es| && capacity > 0
    ensures var r, p := Resize(Ring(es, tail), capacity, ZERO_ENTRY), Resize(Ring(Views(es), tail), capacity, NO_PACKET);
            Views(r.slots) == p.slots && r.tail == p.tail
  {
    hide Views, Blanks;
    var n := |es|;
    if capacity > n {
      ViewsOfGap(es, tail, tail, capacity - n);
    } else if n > capacity > tail {
      ViewsOfGap(es, tail, tail + n - capacity, 0);
      assert Blanks(0, ZERO_ENTRY) == [] && Blanks(0, NO_PACKET) == [];
      assert es[..tail] + [] == es[..tail] && Views(es)[..tail] + [] == Views(es)[..tail];
    } else if capacity <= tail {
      ViewsOfSlice(es, tail - capacity, tail);
    }
  }

  /** Two slices with empty slots between them. */
  lemma ViewsOfGap(es: seq<Entry>, lo: nat, hi: nat, n: nat)
    requires lo <= hi <= |es|
    ensures Views(es[..lo] + Blanks(n, ZERO_ENTRY) + es[hi..]) == Views(es)[..lo] + Blanks(n, NO_PACKET) + Views(es)[hi..]
  {
    hide Views, Blanks;
    ViewsOfSlice(es, 0, lo);
    ViewsOfSlice(es, hi, |es|);
    ViewsOfZeros(n);
    ViewsOfSum(es[..lo], Blanks(n, ZERO_ENTRY));
    ViewsOfSum(es[..lo] + Blanks(n, ZERO_ENTRY), es[hi..]);
  }

  /** Slots with n of es, from index from on, written over them at index to. */
  function Copied(slots: seq<Entry>, to: nat, es: seq<Entry>, from: nat, n: nat): (r: seq<Entry>)
    requires to + n <= |slots| && from + n <= |es|
    ensures |r| == |slots|
    ensures forall k :: 0 <= k < |r| ==> r[k] == if to <= k < to + n then es[from + k - to] else slots[k]
  {
    slots[..to] + es[from..from + n] + slots[to + n..]
  }

  /** The slots below tail copied in place, and the rest copied to the end, of empty slots. */
  lemma TwoCopies(es: seq<Entry>, zeros: seq<Entry>, slots: seq<Entry>, tail: nat, to: nat, from: nat)
    requires zeros == Blanks(|zeros|, ZERO_ENTRY)
    requires tail <= to <= |zeros| && tail <= from <= |es| && |zeros| - to == |es| - from
    requires slots == Copied(Copied(zeros, 0, es, 0, tail), to, es, from, |es| - from)
    ensures slots == es[..tail] + Blanks(to - tail, ZERO_ENTRY) + es[from..]
    ensures to == tail ==> slots == es[..tail] + es[from..]
  {
  }

  lemma AllOk(es: seq<Entry>, tail: nat, from: nat, n: nat)
    requires tail <= from <= |es| && forall i :: 0 <= i < |es| ==> es[i].Ok()
    ensures var s := es[..tail] + Blanks(n, ZERO_ENTRY) + es[from..]; forall i :: 0 <= i < |s| ==> s[i].Ok()
  {
  }

  /** Resizing as a step of the specified queue. */
  lemma SpecifyResize(r: Ring<Packet>, stored: seq<Packet>, capacity: nat)
    requires Wf(r) && 1 <= capacity < MODULUS
    requires HoldsNewest(Specify(Queue(r), SetCapacity(capacity), NO_PACKET), stored + [], NO_PACKET)
    ensures Wf(Resize(r, capacity, NO_PACKET)) && HoldsNewest(Queue(Resize(r, capacity, NO_PACKET)), stored, NO_PACKET)
  {
    hide HoldsNewest;
    ResizeQueue(r, capacity, NO_PACKET);
    assert stored + [] == stored;
  }

  /** A packet found in a slot is one of the last stores. */
  lemma SlotIsRecent(r: Ring<Packet>, stored: seq<Packet>, i: nat)
    requires Wf(r) && i < |r.slots| && HoldsNewest(Queue(r), stored, NO_PACKET)
    ensures r.slots[i] == NO_PACKET || r.slots[i] in Recent(stored, |r.slots|)
  {
    var q := Queue(r);
    var k: nat :| HoldsNewestK(q, stored, NO_PACKET, k);
    var j := if i >= r.tail then i - r.tail else |r.slots| - r.tail + i;
    assert q[j] == r.slots[i] by { hide HoldsNewestK; }
    BlankOrStored(q, stored, k, j);
  }

  lemma BlankOrStored(q: seq<Packet>, stored: seq<Packet>, k: nat, j: nat)
    requires HoldsNewestK(q, stored, NO_PACKET, k) && j < |q|
    ensures q[j] == NO_PACKET || q[j] in Recent(stored, |q|)
  {
    var blanks := |q| - k;
    if j >= blanks {
      assert q[j] == Last(k, stored)[j - blanks];
      LastIsRecent(stored, k, |q|, j - blanks);
    }
  }

  lemma LastIsRecent(stored: seq<Packet>, k: nat, n: nat, m: nat)
    requires m < k <= n && k <= |stored|
    ensures Last(k, stored)[m] in Recent(stored, n)
  {
    var recent := Recent(stored, n);
    assert recent[|recent| - k + m] == Last(k, stored)[m];
  }

  /** The last n packets stored, or all if there are fewer. */
  function Recent(stored: seq<Packet>, n: nat): seq<Packet> {
    if n <= |stored| then Last(n, stored) else stored
  }

  /** A slot counts as empty if both its length and its marker are 0. */
  predicate InUse(p: Packet) {
    p.length != 0 || p.marker
  }

  /** The lowest slot in use for seqno, or -1. */
  function FirstWith(ps: seq<Packet>, seqno: U16, from: nat): (j: int)
    requires from <= |ps|
    ensures j == -1 || (from <= j < |ps| && InUse(ps[j]) && ps[j].seqno == seqno)
    ensures forall i :: from <= i < (if j == -1 then |ps| else j) ==> !InUse(ps[i]) || ps[i].seqno != seqno
    decreases |ps| - from
  {
    if from == |ps| then -1
    else if InUse(ps[from]) && ps[from].seqno == seqno then from
    else FirstWith(ps, seqno, from + 1)
  }

  lemma InUseIs(e: Entry)
    ensures InUse(View(e)) <==> e.lengthAndMarker != 0
    ensures View(e).seqno == e.seqno && View(e).length == e.Length()
  {
  }

  lemma ViewFields(e: Entry)
    ensures View(e).seqno == e.seqno && (View(e).data != [] ==> View(e) != NO_PACKET)
  {
  }

  /** The size of the packet found for seqno, or 0. */
  function SizeIn(ps: seq<Packet>, seqno: U16): nat {
    var j := FirstWith(ps, seqno, 0);
    if j < 0 then 0 else ps[j].length
  }

  /** What reading p into room bytes gives: how many are copied; there must be room for its length. */
  function Read(p: Packet, room: nat): Outcome<nat> {
    if p.length > room then Panic else Value(|p.data|)
  }

  /** What reading the packet numbered seqno into room bytes gives; without room, its size. */
  function ReadIn(ps: seq<Packet>, seqno: U16, room: nat): Outcome<nat> {
    var j := FirstWith(ps, seqno, 0);
    if j < 0 then Value(0) else if room == 0 then Value(ps[j].length) else Read(ps[j], room)
  }

  /** Unless an empty packet has the marker, a packet numbered seqno is found exactly if some slot holds one that is
      not empty. */
  lemma FoundIff(ps: seq<Packet>, seqno: U16)
    requires forall p :: p in ps && p.length == 0 ==> !p.marker
    ensures SizeIn(ps, seqno) > 0 <==> exists p :: p in ps && p.seqno == seqno && p.length > 0
  {
    hide FirstWith;
    var j := FirstWith(ps, seqno, 0);
    if j >= 0 {
      assert ps[j] in ps;
    }
  }

  // ---------------------------------------------------------------- what users of the cache do to it

  datatype CacheOp =
    | DoStore(seqno: U16, timestamp: U32, isKeyframe: bool, marker: bool, buf: seq<Byte>)
    | DoResize(capacity: nat)
    | DoResizeCond(capacity: nat)
    | DoExpect(n: int)
    | DoGetStats(reset: bool)

  predicate Allowed(op: CacheOp) {
    op.DoResize? || op.DoResizeCond? ==> 1 <= op.capacity < MODULUS
  }

  /** A conditional resize takes place. */
  predicate Worthwhile(r: Ring<Packet>, capacity: nat) {
    var n := |r.slots|;
    (n < capacity * 3 / 4 || n >= capacity * 2) && (capacity >= n || capacity >= r.tail)
  }

  /** The cache is to grow by more than a third, or to shrink to half or less with the tail in what is left. */
  lemma WorthwhileIff(r: Ring<Packet>, capacity: nat)
    requires capacity >= 1
    ensures Worthwhile(r, capacity) <==>
            4 * |r.slots| + 4 <= 3 * capacity || (|r.slots| >= 2 * capacity && r.tail <= capacity)
  {
  }

  /** The ring after an operation. */
  function Performed(r: Ring<Packet>, op: CacheOp): (r': Ring<Packet>)
    requires r.tail < |r.slots| && Allowed(op)
    ensures r'.tail < |r'.slots|
  {
    match op
    case DoStore(seqno, timestamp, _, marker, buf) => Push(r, Kept(seqno, timestamp, marker, buf))
    case DoResize(capacity) => RingQueue.Resize(r, capacity, NO_PACKET)
    case DoResizeCond(capacity) => if Worthwhile(r, capacity) then RingQueue.Resize(r, capacity, NO_PACKET) else r
    case DoExpect(_) => r
    case DoGetStats(_) => r
  }

  /** The statistics after an operation. */
  function Counted(s: RS.Stats, op: CacheOp): RS.Stats {
    match op
    case DoStore(seqno, _, _, _, _) => RS.OnStore(s, seqno)
    case DoResize(_) => s
    case DoResizeCond(_) => s
    case DoExpect(n) => RS.OnExpect(s, n)
    case DoGetStats(reset) => if reset then RS.OnReset(s) else s
  }

  /** A packet that is ahead of the newest. */
  predicate Advances(s: RS.Stats, seqno: U16) {
    s.lastValid && 0 < W(seqno - s.last) < 0x8000
  }

  /** The last keyframe after an operation: a packet that becomes the newest, 2^15 or more after the keyframe modulo
      2^16, ends it. */
  function KeyframeAfter(keyframe: Option<U16>, s: RS.Stats, op: CacheOp): Option<U16> {
    if !op.DoStore? then keyframe
    else if op.isKeyframe then Some(op.seqno)
    else if keyframe.Some? && Advances(s, op.seqno) && W(op.seqno - keyframe.value) >= 0x8000 then None
    else keyframe
  }

  /** The last keyframe after some operations that begin with the statistics s. */
  function KeyframeAfterAll(keyframe: Option<U16>, s: RS.Stats, ops: seq<CacheOp>): Option<U16> {
    if ops == [] then keyframe
    else
      var before := ops[..|ops| - 1];
      KeyframeAfter(KeyframeAfterAll(keyframe, s, before), CountedAll(s, before), ops[|ops| - 1])
  }

  predicate AllAllowed(ops: seq<CacheOp>) {
    forall i :: 0 <= i < |ops| ==> Allowed(ops[i])
  }

  function PerformedAll(r: Ring<Packet>, ops: seq<CacheOp>): (r': Ring<Packet>)
    requires r.tail < |r.slots| && AllAllowed(ops)
    ensures r'.tail < |r'.slots|
  {
    if ops == [] then r else Performed(PerformedAll(r, ops[..|ops| - 1]), ops[|ops| - 1])
  }

  function CountedAll(s: RS.Stats, ops: seq<CacheOp>): RS.Stats {
    if ops == [] then s else Counted(CountedAll(s, ops[..|ops| - 1]), ops[|ops| - 1])
  }

  /** The operation leaves slot i as it is: it does not store there, and a resize takes place only if it keeps the
      indices below the tail, and i is one of them. */
  predicate Spared(r: Ring<Packet>, op: CacheOp, i: nat)
    requires Allowed(op)
  {
    match op
    case DoStore(_, _, _, _, _) => r.tail != i
    case DoResize(capacity) => capacity == |r.slots| || i < r.tail <= capacity
    case DoResizeCond(capacity) => !Worthwhile(r, capacity) || i < r.tail
    case DoExpect(_) => true
    case DoGetStats(_) => true
  }

  lemma SparedSlot(r: Ring<Packet>, op: CacheOp, i: nat)
    requires Wf(r) && Allowed(op) && i < |r.slots| && Spared(r, op, i)
    ensures i < |Performed(r, op).slots| && Performed(r, op).slots[i] == r.slots[i]
  {
    match op
    case DoStore(_, _, _, _, _) =>
    case DoResize(capacity) =>
      if capacity != |r.slots| {
        ResizeKeepsIndex(r, capacity, NO_PACKET, i);
      }
    case DoResizeCond(capacity) =>
      if Worthwhile(r, capacity) {
        ResizeKeepsIndex(r, capacity, NO_PACKET, i);
      }
    case DoExpect(_) =>
    case DoGetStats(_) =>
  }

  /** Every operation of the sequence spares slot i. */
  ghost predicate AllSpared(r: Ring<Packet>, ops: seq<CacheOp>, i: nat)
    requires Wf(r) && AllAllowed(ops)
  {
    forall k :: 0 <= k < |ops| ==> AllAllowed(ops[..k]) && Spared(PerformedAll(r, ops[..k]), ops[k], i)
  }

  /** A packet stays at the index it was stored at for as long as its slot is spared. */
  lemma {:induction false} IndexOutlives(r: Ring<Packet>, ops: seq<CacheOp>, i: nat)
    requires Wf(r) && AllAllowed(ops) && i < |r.slots| && AllSpared(r, ops, i)
    ensures i < |PerformedAll(r, ops).slots| && PerformedAll(r, ops).slots[i] == r.slots[i]
  {
    hide Performed, Spared;
    if ops != [] {
      var n := |ops| - 1;
      assert forall k :: 0 <= k < n ==> ops[..n][..k] == ops[..k] && ops[..n][k] == ops[k];
      IndexOutlives(r, ops[..n], i);
      SparedSlot(PerformedAll(r, ops[..n]), ops[n], i);
    }
  }

  /** Stores move the tail on, and back to the first slot after the last. */
  lemma {:induction false} TailComesRound(r: Ring<Packet>, ops: seq<CacheOp>)
    requires Wf(r) && |ops| <= |r.slots| - r.tail && forall k :: 0 <= k < |ops| ==> ops[k].DoStore?
    ensures AllAllowed(ops)
    ensures var r' := PerformedAll(r, ops);
            |r'.slots| == |r.slots| && r'.tail == if |ops| < |r.slots| - r.tail then r.tail + |ops| else 0
  {
    hide Kept;
    if ops != [] {
      TailComesRound(r, ops[..|ops| - 1]);
    }
  }

  /** A cache that is twice too large can be refused its new capacity, but not for longer than one turn of the ring: at
      the latest when the tail comes round it gets that capacity, whatever was stored meanwhile. */
  lemma ShrinksInTime(r: Ring<Packet>, ops: seq<CacheOp>, capacity: nat)
    requires Wf(r) && 1 <= capacity < MODULUS && |r.slots| >= 2 * capacity
    requires |ops| == |r.slots| - r.tail && forall k :: 0 <= k < |ops| ==> ops[k].DoStore?
    ensures AllAllowed(ops) && |Performed(PerformedAll(r, ops), DoResizeCond(capacity)).slots| == capacity
  {
    hide RingQueue.Resize;
    TailComesRound(r, ops);
    var r' := PerformedAll(r, ops);
    WorthwhileIff(r', capacity);
    ResizeQueue(r', capacity, NO_PACKET);
  }

  /** What others do to the cache while one of its users reads it several times: others(k) comes just before reading k. */
  type Schedule = nat -> seq<CacheOp>

  ghost predicate Proper(others: Schedule) {
    forall k :: AllAllowed(others(k))
  }

  lemma ProperAt(others: Schedule, k: nat)
    requires Proper(others)
    ensures AllAllowed(others(k))
  {
  }

  /** The ring when reading k takes place. */
  ghost function Moment(r: Ring<Packet>, others: Schedule, k: nat): (r': Ring<Packet>)
    requires r.tail < |r.slots| && Proper(others)
    ensures r'.tail < |r'.slots|
  {
    PerformedAll(if k == 0 then r else Moment(r, others, k - 1), others(k))
  }

  /** The statistics after the first n readings. */
  ghost function CountedUntil(s: RS.Stats, others: Schedule, n: nat): RS.Stats {
    if n == 0 then s else CountedAll(CountedUntil(s, others, n - 1), others(n - 1))
  }

  class Cache {
    // how many packets were expected and received
    var last: U16
    var cycle: U16
    var lastValid: bool
    var expected: U32
    var totalExpected: U32
    var received: U32
    var totalReceived: U32
    // the newest packet that begins a picture
    var keyframe: U16
    var keyframeValid: bool
    // the loss window
    const bitmap: LossBitmap.Bitmap
    // the ring of packets
    var tail: U16
    var entries: array<Entry>

    ghost var stored: seq<Packet>   // every packet stored so far

    function Stats(): RS.Stats
      reads this
    {
      RS.Stats(last, cycle, lastValid, expected, totalExpected, received, totalReceived)
    }

    function LastKeyframe(): Option<U16>
      reads this
    {
      if keyframeValid then Some(keyframe) else None
    }

    /** The ring of packets in the slots. */
    ghost function Slots(): (r: Ring<Packet>)
      reads this, entries
    {
      Ring(Views(entries[..]), tail)
    }

    ghost predicate SlotsOk()
      reads this, entries
    {
      && 1 <= entries.Length < MODULUS
      && tail < entries.Length
      && forall i :: 0 <= i < entries.Length ==> entries[i].Ok()
    }

    ghost predicate Valid()
      reads this, entries, bitmap
    {
      && SlotsOk()
      && bitmap.Valid()
      && HoldsNewest(Queue(Slots()), stored, NO_PACKET)
    }

    constructor (capacity: nat)
      requires 1 <= capacity < MODULUS
      ensures Valid() && fresh(bitmap) && fresh(entries)
      ensures entries.Length == capacity && tail == 0 && stored == []
      ensures Stats() == RS.EMPTY && !keyframeValid && !bitmap.valid
    {
      last, cycle, lastValid := 0, 0, false;
      expected, totalExpected, received, totalReceived := 0, 0, 0, 0;
      keyframe, keyframeValid := 0, false;
      bitmap := new LossBitmap.Bitmap();
      tail := 0;
      entries := new Entry[capacity](_ => ZERO_ENTRY);
      stored := [];
      new;
      assert HoldsNewestK(Queue(Slots()), stored, NO_PACKET, 0);
    }

    /** Counts the arrival of seqno, and forgets a keyframe that is 2^15 or more behind. */
    method Count(seqno: U16)
      modifies this`last, this`cycle, this`lastValid, this`expected, this`received, this`keyframeValid
      ensures Stats() == RS.OnStore(old(Stats()), seqno)
      ensures keyframeValid == (old(keyframeValid) && !(Advances(old(Stats()), seqno) && W(seqno - keyframe) >= 0x8000))
    {
      Distances(last, seqno);
      Distances(keyframe, seqno);
      if !lastValid || SeqnoInvalid(seqno, last) {
        last := seqno;
        lastValid := true;
        expected := RS.Add32(expected, 1);
        received := RS.Add32(received, 1);
      } else {
        var cmp := Compare(last, seqno);
        if cmp < 0 {
          received := RS.Add32(received, 1);
          expected := RS.Add32(expected, W(seqno - last));
          if seqno < last {
            cycle := W(cycle + 1);
          }
          last := seqno;
          if keyframeValid && Compare(keyframe, seqno) > 0 {
            keyframeValid := false;
          }
        } else if cmp > 0 {
          if received < expected {
            received := RS.Add32(received, 1);
          }
        }
      }
    }

    /** Writes a packet over the oldest slot. */
    method Keep(seqno: U16, timestamp: U32, marker: bool, buf: seq<Byte>) returns (i: U16)
      requires SlotsOk()
      requires HoldsNewest(Queue(Slots()), stored, NO_PACKET)
      modifies this`tail, this`stored, entries
      ensures SlotsOk() && i == old(tail)
      ensures Slots() == Push(old(Slots()), Kept(seqno, timestamp, marker, buf))
      ensures stored == old(stored) + [Kept(seqno, timestamp, marker, buf)]
      ensures HoldsNewest(Queue(Slots()), stored, NO_PACKET)
    {
      hide HoldsNewest, Kept, View, Overwritten;
      ghost var p := Kept(seqno, timestamp, marker, buf);
      i := tail;
      ghost var before := Slots();
      var e := Overwritten(entries[i], seqno, timestamp, marker, buf);
      OverwrittenView(entries[i], seqno, timestamp, marker, buf);
      ViewsOfUpdate(entries[..], i, e);
      ghost var es := entries[..];
      entries[i] := e;
      assert entries[..] == es[i := e];
      tail := if i + 1 == entries.Length then 0 else i + 1;
      stored := stored + [p];
      assert Slots() == Push(before, p);
      PushQueue(before, p);
      StepHoldsNewest(Queue(before), old(stored), RingQueue.Op.Store(p), NO_PACKET);
    }

    method Store(seqno: U16, timestamp: U32, isKeyframe: bool, marker: bool, buf: seq<Byte>)
      returns (first: U16, i: U16)
      requires Valid()
      modifies this, bitmap, entries
      ensures Valid() && entries == old(entries)
      ensures Stats() == RS.OnStore(old(Stats()), seqno)
      ensures isKeyframe ==> keyframeValid && keyframe == seqno
      // another packet ends the last keyframe exactly if it becomes the newest, 2^15 or more after it modulo 2^16
      ensures !isKeyframe ==>
                && keyframe == old(keyframe)
                && (keyframeValid <==>
                      old(keyframeValid)
                      && !(old(lastValid) && 0 < W(seqno - old(last)) < 0x8000 && W(seqno - keyframe) >= 0x8000))
      ensures LastKeyframe() ==
              KeyframeAfter(old(LastKeyframe()), old(Stats()), DoStore(seqno, timestamp, isKeyframe, marker, buf))
      ensures i == old(tail)
      ensures LossBitmap.Recorded(old(bitmap.valid), old(bitmap.history), seqno, bitmap.history)
      ensures first == W(bitmap.history.first)
      ensures var p := Kept(seqno, timestamp, marker, buf);
              && Slots() == Push(old(Slots()), p)
              && Slots().slots[i] == p
              && stored == old(stored) + [p]
    {
      hide HoldsNewest, Queue, View, Kept, RS.OnStore, LossBitmap.Recorded, W;
      Count(seqno);
      bitmap.Set(seqno);
      if isKeyframe {
        keyframe := seqno;
        keyframeValid := true;
      }
      i := Keep(seqno, timestamp, marker, buf);
      first := bitmap.first;
    }

    method Expect(n: int)
      modifies this`expected
      ensures Stats() == RS.OnExpect(old(Stats()), n)
    {
      if n <= 0 {
        return;
      }
      expected := RS.Add32(expected, n % TWO_32);
    }

    method GetStats(reset: bool) returns (s: RS.Report)
      modifies this`expected, this`totalExpected, this`received, this`totalReceived
      ensures s == RS.Get(old(Stats()))
      ensures Stats() == if reset then RS.OnReset(old(Stats())) else old(Stats())
      ensures var after := RS.Get(Stats());
              after.totalExpected == s.totalExpected && after.totalReceived == s.totalReceived
    {
      s := RS.Get(Stats());
      if reset {
        totalExpected := RS.Add32(totalExpected, expected);
        expected := 0;
        totalReceived := RS.Add32(totalReceived, received);
        received := 0;
      }
    }

    method Last() returns (seqno: U16, ok: bool)
      ensures ok == lastValid && (ok ==> seqno == last)
    {
      if !lastValid {
        return 0, false;
      }
      return last, true;
    }

    method Keyframe() returns (seqno: U16, ok: bool)
      ensures ok == keyframeValid && (ok ==> seqno == keyframe)
    {
      if !keyframeValid {
        return 0, false;
      }
      return keyframe, true;
    }

    /** Copies the bytes of slot i to the front of result. */
    method CopyOut(i: nat, result: array<Byte>) returns (r: Outcome<nat>)
      requires SlotsOk() && i < entries.Length
      modifies result
      ensures r == Read(View(entries[i]), result.Length)
      ensures var copied := if r.Panic? then [] else View(entries[i]).data;
              |copied| <= result.Length && result[..|copied|] == copied && result[|copied|..] == old(result[|copied|..])
    {
      var e := entries[i];
      if e.Length() > result.Length {
        return Panic;
      }
      var n := Min(e.Length(), BUF_SIZE);
      forall k | 0 <= k < n {
        result[k] := e.buf[k];
      }
      return Value(n);
    }

    /** Finds a packet numbered seqno, and copies it to result unless that is empty. */
    method Get(seqno: U16, result: array<Byte>) returns (r: Outcome<nat>)
      requires Valid()
      modifies result
      ensures r == ReadIn(Slots().slots, seqno, result.Length)
      ensures var j := FirstWith(Slots().slots, seqno, 0);
              && (j >= 0 ==> Slots().slots[j] in Recent(stored, entries.Length))
              && var copied := if j < 0 || result.Length == 0 || r.Panic? then [] else Slots().slots[j].data;
                 |copied| <= result.Length && result[..|copied|] == copied && result[|copied|..] == old(result[|copied|..])
    {
      hide HoldsNewest, Recent, Queue, View;
      ghost var ps := Slots().slots;
      var i := 0;
      while i < entries.Length
        invariant 0 <= i <= entries.Length
        invariant FirstWith(ps, seqno, i) == FirstWith(ps, seqno, 0)
        invariant result[..] == old(result[..])
      {
        InUseIs(entries[i]);
        assert ps[i] == View(entries[i]);
        if entries[i].lengthAndMarker != 0 && entries[i].seqno == seqno {
          SlotIsRecent(Slots(), stored, i);
          if result.Length > 0 {
            r := CopyOut(i, result);
          } else {
            r := Value(entries[i].Length());
          }
          return;
        }
        i := i + 1;
      }
      return Value(0);
    }

    /** The packet in slot index, if it is numbered seqno. */
    method GetAt(seqno: U16, index: U16, result: array<Byte>) returns (r: Outcome<nat>)
      requires Valid()
      modifies result
      ensures var found := index < entries.Length && Slots().slots[index].seqno == seqno;
              && r == (if found then Read(Slots().slots[index], result.Length) else Value(0))
              && (r.Value? && r.value > 0 ==> Slots().slots[index] in Recent(stored, entries.Length))
              && var copied := if found && r.Value? then Slots().slots[index].data else [];
                 |copied| <= result.Length && result[..|copied|] == copied && result[|copied|..] == old(result[|copied|..])
    {
      hide HoldsNewest, Recent, Queue, View;
      if index >= entries.Length {
        return Value(0);
      }
      ViewFields(entries[index]);
      assert Slots().slots[index] == View(entries[index]);
      if entries[index].seqno != seqno {
        return Value(0);
      }
      r := CopyOut(index, result);
      SlotIsRecent(Slots(), stored, index);
    }

    method Resize(capacity: nat)
      requires Valid() && 1 <= capacity < MODULUS
      modifies this`tail, this`entries
      ensures Valid() && entries.Length == capacity && (entries == old(entries) || fresh(entries))
      ensures Slots() == RingQueue.Resize(old(Slots()), capacity, NO_PACKET)
    {
      hide HoldsNewest, RingQueue.Resize, Queue, View;
      ghost var before := Slots();
      ResizeQueue(before, capacity, NO_PACKET);
      StepHoldsNewest(Queue(before), stored, SetCapacity(capacity), NO_PACKET);
      SpecifyResize(before, stored, capacity);
      ViewsOfResize(entries[..], tail, capacity);
      tail, entries := Resized(capacity);
    }

    /** The new tail and slots. */
    method Resized(capacity: nat) returns (newTail: U16, slots: array<Entry>)
      requires SlotsOk() && 1 <= capacity < MODULUS
      ensures slots == entries || fresh(slots)
      ensures Ring(slots[..], newTail as nat) == RingQueue.Resize(Ring(entries[..], tail as nat), capacity, ZERO_ENTRY)
      ensures slots.Length == capacity && forall i :: 0 <= i < capacity ==> slots[i].Ok()
    {
      hide Views, View, HoldsNewest, Queue, Blanks, Copied;
      newTail := tail;
      if entries.Length == capacity {
        return tail, entries;
      }

      slots := EmptySlots(capacity);
      var n := entries.Length;
      if capacity > n {
        CopyBoth(slots, tail + capacity - n, tail);
      } else if capacity > tail {
        CopyBoth(slots, tail, tail + n - capacity);
      } else {
        // no index survives
        CopyAll(slots, tail - capacity);
        newTail := 0;
      }
    }

    static method EmptySlots(capacity: nat) returns (slots: array<Entry>)
      ensures fresh(slots) && slots.Length == capacity && slots[..] == Blanks(capacity, ZERO_ENTRY)
    {
      slots := new Entry[capacity](_ => ZERO_ENTRY);
    }

    /** Fills the slots from index from of the entries on. */
    method CopyAll(slots: array<Entry>, from: nat)
      requires SlotsOk() && slots != entries && from + slots.Length <= entries.Length
      modifies slots
      ensures slots[..] == entries[from..from + slots.Length]
      ensures forall i :: 0 <= i < slots.Length ==> slots[i].Ok()
    {
      hide Views, View, HoldsNewest, Queue, Blanks, Copied;
      CopyTo(slots, 0, from, slots.Length);
      assert slots[..] == entries[from..from + slots.Length];
      assert forall i :: 0 <= i < slots.Length ==> slots[i] == slots[..][i];
    }

    /** Copies the slots below the tail in place, and those from index from on to index to. */
    method CopyBoth(slots: array<Entry>, to: nat, from: nat)
      requires SlotsOk() && slots != entries && slots[..] == Blanks(slots.Length, ZERO_ENTRY)
      requires tail <= to <= slots.Length && tail <= from <= entries.Length && slots.Length - to == entries.Length - from
      modifies slots
      ensures slots[..] == entries[..tail] + Blanks(to - tail, ZERO_ENTRY) + entries[from..]
      ensures to == tail ==> slots[..] == entries[..tail] + entries[from..]
      ensures forall i :: 0 <= i < slots.Length ==> slots[i].Ok()
    {
      hide Views, View, HoldsNewest, Queue, Blanks, Copied;
      ghost var es, zeros := entries[..], slots[..];
      CopyTo(slots, 0, 0, tail);
      CopyTo(slots, to, from, entries.Length - from);
      TwoCopies(es, zeros, slots[..], tail, to, from);
      AllOk(es, tail, from, to - tail);
      assert forall i :: 0 <= i < slots.Length ==> slots[i] == slots[..][i];
    }

    /** Copies n slots from index from of the entries to index to of dst. */
    method CopyTo(dst: array<Entry>, to: nat, from: nat, n: nat)
      requires dst != entries && to + n <= dst.Length && from + n <= entries.Length
      modifies dst
      ensures dst[..] == Copied(old(dst[..]), to, entries[..], from, n)
    {
      ghost var before := dst[..];
      forall k | 0 <= k < n {
        dst[to + k] := entries[from + k];
      }
      assert dst[..] == Copied(before, to, entries[..], from, n);
    }

    /** Like Resize, but only if worthwhile and without invalidating the indices below the tail. */
    method ResizeCond(capacity: nat) returns (ok: bool)
      requires Valid() && 1 <= capacity < MODULUS
      modifies this`tail, this`entries
      ensures Valid() && (entries == old(entries) || fresh(entries))
      ensures ok <==> 4 * old(entries.Length) + 4 <= 3 * capacity || (old(entries.Length) >= 2 * capacity && old(tail) <= capacity)
      ensures entries.Length == if ok then capacity else old(entries.Length)
      ensures Slots() == Performed(old(Slots()), DoResizeCond(capacity))
      ensures forall i :: 0 <= i < old(tail) ==> i < entries.Length && Slots().slots[i] == old(Slots()).slots[i]
    {
      var current := entries.Length;
      WorthwhileIff(Slots(), capacity);
      if current >= capacity * 3 / 4 && current < capacity * 2 {
        return false;
      }
      if capacity < current {
        if tail > capacity {
          return false;
        }
      }
      ghost var before := Slots();
      Resize(capacity);
      forall i: nat | i < before.tail
        ensures i < capacity && Slots().slots[i] == before.slots[i]
      {
        ResizeKeepsIndex(before, capacity, NO_PACKET, i);
      }
      return true;
    }

    method Perform(op: CacheOp)
      requires Valid() && Allowed(op)
      modifies this, entries, bitmap
      ensures Valid() && (entries == old(entries) || fresh(entries))
      ensures Slots() == Performed(old(Slots()), op) && Stats() == Counted(old(Stats()), op)
      ensures LastKeyframe() == KeyframeAfter(old(LastKeyframe()), old(Stats()), op)
    {
      hide HoldsNewest, Queue, View, Views, Kept, RS.OnStore, RingQueue.Resize;
      match op {
        case DoStore(seqno, timestamp, isKeyframe, marker, buf) =>
          var _, _ := Store(seqno, timestamp, isKeyframe, marker, buf);
        case DoResize(capacity) => Resize(capacity);
        case DoResizeCond(capacity) => var _ := ResizeCond(capacity);
        case DoExpect(n) => Expect(n);
        case DoGetStats(reset) => var _ := GetStats(reset);
      }
    }

    method PerformAll(ops: seq<CacheOp>)
      requires Valid() && AllAllowed(ops)
      modifies this, entries, bitmap
      ensures Valid() && (entries == old(entries) || fresh(entries))
      ensures Slots() == PerformedAll(old(Slots()), ops) && Stats() == CountedAll(old(Stats()), ops)
      ensures LastKeyframe() == KeyframeAfterAll(old(LastKeyframe()), old(Stats()), ops)
    {
      hide HoldsNewest, Queue, View, Views, Performed, Counted;
      var i := 0;
      while i < |ops|
        invariant 0 <= i <= |ops| && Valid() && (entries == old(entries) || fresh(entries))
        invariant Slots() == PerformedAll(old(Slots()), ops[..i]) && Stats() == CountedAll(old(Stats()), ops[..i])
        invariant LastKeyframe() == KeyframeAfterAll(old(LastKeyframe()), old(Stats()), ops[..i])
      {
        assert ops[..i + 1][..i] == ops[..i];
        Perform(ops[i]);
        i := i + 1;
      }
      assert ops[..i] == ops;
    }
  }
}

/** A ring of slots with a tail, seen as a bounded queue: the slots from tail
    on, then those before it, are the contents from oldest to newest. */
module RingQueue {

  datatype Ring<T> = Ring(slots: seq<T>, tail: nat)

  ghost predicate Wf<T>(r: Ring<T>) {
    r.tail < |r.slots|
  }

  function Queue<T>(r: Ring<T>): (q: seq<T>)
    requires r.tail < |r.slots|
    ensures |q| == |r.slots|
  {
    r.slots[r.tail..] + r.slots[..r.tail]
  }

  function Blanks<T>(n: nat, blank: T): (s: seq<T>)
    ensures |s| == n && forall i :: 0 <= i < n ==> s[i] == blank
  {
    seq(n, _ => blank)
  }

  /** The n last elements. */
  function Last<T>(n: nat, s: seq<T>): (t: seq<T>)
    requires n <= |s|
    ensures |t| == n
  {
    s[|s| - n..]
  }

  // ---------------------------------------------------------------- the ring's operations

  function Push<T>(r: Ring<T>, x: T): Ring<T>
    requires r.tail < |r.slots|
  {
    Ring(r.slots[r.tail := x], if r.tail + 1 == |r.slots| then 0 else r.tail + 1)
  }

  /** The three ways to resize: open a gap at the tail, drop slots after the
      tail, or keep the newest slots and restart at 0. */
  function Resize<T>(r: Ring<T>, capacity: nat, blank: T): Ring<T>
    requires r.tail < |r.slots| && capacity > 0
  {
    var n := |r.slots|;
    if capacity == n then r
    else if capacity > n then
      Ring(r.slots[..r.tail] + Blanks(capacity - n, blank) + r.slots[r.tail..], r.tail)
    else if capacity > r.tail then
      Ring(r.slots[..r.tail] + r.slots[r.tail + n - capacity..], r.tail)
    else
      Ring(r.slots[r.tail - capacity..r.tail], 0)
  }

  // ---------------------------------------------------------------- the queue they implement

  lemma PushQueue<T>(r: Ring<T>, x: T)
    requires Wf(r)
    ensures Wf(Push(r, x)) && Queue(Push(r, x)) == Queue(r)[1..] + [x]
  {
  }

  lemma GrowQueue<T>(r: Ring<T>, capacity: nat, blank: T)
    requires Wf(r) && capacity > |r.slots|
    ensures Queue(Resize(r, capacity, blank)) == Blanks(capacity - |r.slots|, blank) + Queue(r)
  {
    hide Blanks;
    var r' := Resize(r, capacity, blank);
    assert r'.slots[r.tail..] == Blanks(capacity - |r.slots|, blank) + r.slots[r.tail..];
    assert r'.slots[..r.tail] == r.slots[..r.tail];
  }

  lemma ShrinkQueue<T>(r: Ring<T>, capacity: nat, blank: T)
    requires Wf(r) && 0 < capacity < |r.slots|
    ensures Queue(Resize(r, capacity, blank)) == Last(capacity, Queue(r))
  {
    var r' := Resize(r, capacity, blank);
    if r.tail < capacity {
      assert r'.slots[r.tail..] == r.slots[r.tail + |r.slots| - capacity..];
      assert r'.slots[..r.tail] == r.slots[..r.tail];
    }
  }

  /** However the ring is resized, the queue keeps its newest elements, padded with blanks at the old end. */
  lemma ResizeQueue<T>(r: Ring<T>, capacity: nat, blank: T)
    requires Wf(r) && capacity > 0
    ensures Wf(Resize(r, capacity, blank)) && |Resize(r, capacity, blank).slots| == capacity
    ensures Queue(Resize(r, capacity, blank)) == Last(capacity, Blanks(capacity, blank) + Queue(r))
  {
    LastOfPadded(Blanks(capacity, blank), Queue(r), capacity);
    if capacity > |r.slots| {
      GrowQueue(r, capacity, blank);
      assert Last(capacity - |r.slots|, Blanks(capacity, blank)) == Blanks(capacity - |r.slots|, blank);
    } else if capacity < |r.slots| {
      ShrinkQueue(r, capacity, blank);
    }
  }

  /** The last n elements of p + q. */
  lemma LastOfPadded<T>(p: seq<T>, q: seq<T>, n: nat)
    requires n <= |p| + |q|
    ensures Last(n, p + q) == if n <= |q| then Last(n, q) else Last(n - |q|, p) + q
  {
  }

  /** An index below the tail keeps its slot across a resize that leaves room for all such indices. */
  lemma ResizeKeepsIndex<T>(r: Ring<T>, capacity: nat, blank: T, i: nat)
    requires Wf(r) && i < r.tail <= capacity
    ensures i < capacity && Resize(r, capacity, blank).slots[i] == r.slots[i]
  {
  }

  // ---------------------------------------------------------------- runs

  datatype Op<T> = Store(x: T) | SetCapacity(capacity: nat)

  predicate Admissible<T>(op: Op<T>) {
    op.SetCapacity? ==> 1 <= op.capacity < 0x1_0000
  }

  function Apply<T>(r: Ring<T>, op: Op<T>, blank: T): Ring<T>
    requires r.tail < |r.slots| && Admissible(op)
  {
    match op
    case Store(x) => Push(r, x)
    case SetCapacity(capacity) => Resize(r, capacity, blank)
  }

  /** The same operation on a bounded queue. */
  function Specify<T>(q: seq<T>, op: Op<T>, blank: T): seq<T>
    requires |q| > 0 && Admissible(op)
  {
    match op
    case Store(x) => q[1..] + [x]
    case SetCapacity(capacity) => Last(capacity, Blanks(capacity, blank) + q)
  }

  ghost predicate IsRun<T>(rs: seq<Ring<T>>, ops: seq<Op<T>>, blank: T) {
    && |rs| == |ops| + 1 && Wf(rs[0])
    && forall i :: 0 <= i < |ops| ==>
         Admissible(ops[i]) && Wf(rs[i]) && rs[i + 1] == Apply(rs[i], ops[i], blank)
  }

  /** The ring refines the bounded queue, step by step, in every run. */
  lemma ApplyRefines<T>(r: Ring<T>, op: Op<T>, blank: T)
    requires Wf(r) && Admissible(op)
    ensures Wf(Apply(r, op, blank))
    ensures Queue(Apply(r, op, blank)) == Specify(Queue(r), op, blank)
  {
    match op
    case Store(x) => PushQueue(r, x);
    case SetCapacity(capacity) => ResizeQueue(r, capacity, blank);
  }

  function Stores<T>(ops: seq<Op<T>>): seq<T> {
    if ops == [] then []
    else
      var op := ops[|ops| - 1];
      Stores(ops[..|ops| - 1]) + (if op.Store? then [op.x] else [])
  }

  /** The queue holds blanks followed by the newest stores. */
  ghost predicate HoldsNewest<T>(q: seq<T>, history: seq<T>, blank: T) {
    exists k: nat :: HoldsNewestK(q, history, blank, k)
  }

  ghost predicate HoldsNewestK<T>(q: seq<T>, history: seq<T>, blank: T, k: nat) {
    k <= |q| && k <= |history| && q == Blanks(|q| - k, blank) + Last(k, history)
  }

  lemma StoreHoldsNewest<T>(q: seq<T>, history: seq<T>, x: T, blank: T, k: nat)
    requires |q| > 0 && HoldsNewestK(q, history, blank, k)
    ensures HoldsNewestK(q[1..] + [x], history + [x], blank, if k < |q| then k + 1 else k)
  {
    hide Blanks;
    var k' := if k < |q| then k + 1 else k;
    assert Last(k', history + [x]) == Last(k' - 1, history) + [x];
    assert q[1..] == Blanks(|q| - k', blank) + Last(k' - 1, history);
  }

  lemma ResizeHoldsNewest<T>(q: seq<T>, history: seq<T>, c: nat, blank: T, k: nat)
    requires HoldsNewestK(q, history, blank, k)
    ensures HoldsNewestK(Last(c, Blanks(c, blank) + q), history, blank, if k < c then k else c)
  {
    hide Blanks;
    LastOfPadded(Blanks(c, blank), q, c);
    var k' := if k < c then k else c;
    assert Last(k', history) == Last(k', Last(k, history));
  }

  lemma StepHoldsNewest<T>(q: seq<T>, history: seq<T>, op: Op<T>, blank: T)
    requires |q| > 0 && Admissible(op) && HoldsNewest(q, history, blank)
    ensures HoldsNewest(Specify(q, op, blank), history + (if op.Store? then [op.x] else []), blank)
  {
    hide HoldsNewestK;
    var k: nat :| HoldsNewestK(q, history, blank, k);
    match op
    case Store(x) =>
      StoreHoldsNewest(q, history, x, blank, k);
    case SetCapacity(c) =>
      ResizeHoldsNewest(q, history, c, blank, k);
      assert history + [] == history;
  }

  /** The capacity after some operations, and how many stores are still held: a store adds one, up to the
      capacity, and a resize cuts to the new capacity. */
  function Held<T>(capacity: nat, ops: seq<Op<T>>): (r: (nat, nat))
    ensures r.1 <= r.0 && r.1 <= |Stores(ops)|
  {
    if ops == [] then (capacity, 0)
    else
      var (c, k) := Held(capacity, ops[..|ops| - 1]);
      match ops[|ops| - 1]
      case Store(_) => (c, if k < c then k + 1 else k)
      case SetCapacity(c') => (c', if k < c' then k else c')
  }

  /** In every run of stores and resizes from an empty ring, whatever the capacities, the queue is made of
      blanks followed by the newest stores, in order, and Held says how many. */
  lemma {:induction false} RunHoldsNewest<T>(rs: seq<Ring<T>>, ops: seq<Op<T>>, blank: T, i: nat)
    requires IsRun(rs, ops, blank) && i < |rs|
    requires rs[0].slots == Blanks(|rs[0].slots|, blank)
    ensures Wf(rs[i]) && |rs[i].slots| == Held(|rs[0].slots|, ops[..i]).0
    ensures HoldsNewestK(Queue(rs[i]), Stores(ops[..i]), blank, Held(|rs[0].slots|, ops[..i]).1)
  {
    if i == 0 {
      assert Stores(ops[..0]) == [];
    } else {
      RunHoldsNewest(rs, ops, blank, i - 1);
      RunStepHoldsNewest(rs, ops, blank, i - 1);
    }
  }

  lemma RunStepHoldsNewest<T>(rs: seq<Ring<T>>, ops: seq<Op<T>>, blank: T, i: nat)
    requires IsRun(rs, ops, blank) && i < |ops|
    requires |rs[i].slots| == Held(|rs[0].slots|, ops[..i]).0
    requires HoldsNewestK(Queue(rs[i]), Stores(ops[..i]), blank, Held(|rs[0].slots|, ops[..i]).1)
    ensures Wf(rs[i + 1]) && |rs[i + 1].slots| == Held(|rs[0].slots|, ops[..i + 1]).0
    ensures HoldsNewestK(Queue(rs[i + 1]), Stores(ops[..i + 1]), blank, Held(|rs[0].slots|, ops[..i + 1]).1)
  {
    hide HoldsNewestK, Blanks;
    var q, k := Queue(rs[i]), Held(|rs[0].slots|, ops[..i]).1;
    ApplyRefines(rs[i], ops[i], blank);
    assert ops[..i + 1][..i] == ops[..i];
    match ops[i]
    case Store(x) => StoreHoldsNewest(q, Stores(ops[..i]), x, blank, k);
    case SetCapacity(c) =>
      ResizeHoldsNewest(q, Stores(ops[..i]), c, blank, k);
      assert Stores(ops[..i]) + [] == Stores(ops[..i]);
  }

  /** Operation op does not touch slot i: it stores elsewhere, or resizes without dropping an index below the tail. */
  predicate Spares<T>(r: Ring<T>, op: Op<T>, i: nat) {
    match op
    case Store(_) => r.tail != i
    case SetCapacity(c) => c == |r.slots| || i < r.tail <= c
  }

  /** A stored element stays at the index that Store returned until an operation touches its slot. */
  lemma {:induction false} IndexStaysValid<T>(rs: seq<Ring<T>>, ops: seq<Op<T>>, blank: T, i: nat, k: nat)
    requires IsRun(rs, ops, blank) && 1 <= k < |rs|
    requires ops[0].Store? && i == rs[0].tail
    requires forall j :: 1 <= j < k ==> Spares(rs[j], ops[j], i)
    ensures i < |rs[k].slots| && rs[k].slots[i] == ops[0].x
  {
    if k > 1 {
      IndexStaysValid(rs, ops, blank, i, k - 1);
      match ops[k - 1]
      case Store(_) =>
      case SetCapacity(c) =>
        if c != |rs[k - 1].slots| {
          ResizeKeepsIndex(rs[k - 1], c, blank, i);
        }
    }
  }

  /** Without resizes the slot is spared by the next capacity - 1 stores, and overwritten by the one after. */
  lemma {:induction false} IndexLifetime<T>(rs: seq<Ring<T>>, ops: seq<Op<T>>, blank: T, k: nat)
    requires IsRun(rs, ops, blank) && k < |rs| && k <= |rs[0].slots|
    requires forall j :: 0 <= j < |ops| ==> ops[j].Store?
    ensures |rs[k].slots| == |rs[0].slots|
    ensures rs[k].tail == if rs[0].tail + k < |rs[0].slots| then rs[0].tail + k else rs[0].tail + k - |rs[0].slots|
    ensures rs[k].tail == rs[0].tail <==> k == 0 || k == |rs[0].slots|
  {
    if k > 0 {
      IndexLifetime(rs, ops, blank, k - 1);
    }
  }
}

/** An unbounded channel: a locked queue, and a one-slot channel that carries a
    wakeup token. A receiver waits for the token and then empties the queue. */
module Unbounded {

  // ---------------------------------------------------------------- the object

  class Channel<T> {
    var token: bool      // Ch, a channel with one slot
    var queue: seq<T>

    constructor ()
      ensures !token && queue == []
    {
      token := false;
      queue := [];
    }

    /** The part of Put that holds the lock. The result says whether Put goes on to Signal. */
    method Append(v: T) returns (empty: bool)
      modifies this`queue
      ensures queue == old(queue) + [v] && empty == (old(queue) == [])
    {
      empty := |queue| == 0;
      queue := queue + [v];
    }

    /** The part of Put after the lock: a send that gives up if the slot is taken. */
    method Signal()
      modifies this`token
      ensures token
    {
      if !token {
        token := true;
      }
    }

    /** Receiving from Ch; possible only while it holds a token. */
    method Receive()
      requires token
      modifies this`token
      ensures !token
    {
      token := false;
    }

    method Get() returns (q: seq<T>)
      modifies this`queue
      ensures q == old(queue) && queue == []
    {
      q := queue;
      queue := [];
    }
  }

  // ---------------------------------------------------------------- every interleaving of its users

  /** Where a process is: idle, in Put between the unlock and the signal, or between a receive and the Get it is for. */
  datatype Pc = Idle | Signalling | Woken

  datatype State<T> = State(
    token: bool, queue: seq<T>,
    pcs: map<nat, Pc>,     // a process not listed is idle
    put: seq<T>,           // everything put, in the order of the locks
    got: seq<T>)           // everything returned by Get, in order

  function At<T>(s: State<T>, p: nat): Pc {
    if p in s.pcs then s.pcs[p] else Idle
  }

  datatype Action<T> = DoAppend(v: T) | DoSignal | DoReceive | DoGet

  ghost predicate Enabled<T>(s: State<T>, p: nat, a: Action<T>) {
    match a
    case DoAppend(_) => At(s, p) == Idle
    case DoSignal => At(s, p) == Signalling
    case DoReceive => At(s, p) == Idle && s.token
    case DoGet => At(s, p) != Signalling     // with or without a wakeup
  }

  /** Process p takes one step. */
  function Step<T>(s: State<T>, p: nat, a: Action<T>): State<T> {
    match a
    case DoAppend(v) =>
      s.(queue := s.queue + [v], put := s.put + [v], pcs := s.pcs[p := if s.queue == [] then Signalling else Idle])
    case DoSignal => s.(token := true, pcs := s.pcs[p := Idle])
    case DoReceive => s.(token := false, pcs := s.pcs[p := Woken])
    case DoGet => s.(queue := [], got := s.got + s.queue, pcs := s.pcs[p := Idle])
  }

  function Initial<T>(): State<T> {
    State(false, [], map[], [], [])
  }

  /** A non-empty queue is never forgotten: there is a token to receive, a producer about to send one, or a
      consumer that received one and has not yet emptied the queue. And nothing is lost, duplicated or reordered. */
  ghost predicate Inv<T>(s: State<T>) {
    && (s.queue != [] ==> s.token || exists p :: At(s, p) != Idle)
    && s.got + s.queue == s.put
  }

  datatype Move<T> = Move(p: nat, a: Action<T>)

  ghost predicate IsRun<T>(ss: seq<State<T>>, ms: seq<Move<T>>) {
    && |ss| == |ms| + 1 && ss[0] == Initial()
    && forall i :: 0 <= i < |ms| ==>
         Enabled(ss[i], ms[i].p, ms[i].a) && ss[i + 1] == Step(ss[i], ms[i].p, ms[i].a)
  }

  lemma StepKeepsInv<T>(s: State<T>, p: nat, a: Action<T>)
    requires Inv(s) && Enabled(s, p, a)
    ensures Inv(Step(s, p, a))
  {
    var s' := Step(s, p, a);
    match a
    case DoAppend(v) =>
      assert s'.got + s'.queue == s.got + s.queue + [v];
      if s.queue == [] {
        assert At(s', p) == Signalling;
      } else if !s.token {
        var q :| At(s, q) != Idle;
        assert At(s', q) == At(s, q);
      }
    case DoSignal =>
    case DoReceive =>
      assert At(s', p) == Woken;
    case DoGet =>
  }

  /** No lost wakeup, in every run of any number of producers and consumers. */
  lemma {:induction false} RunKeepsInv<T>(ss: seq<State<T>>, ms: seq<Move<T>>, i: nat)
    requires IsRun(ss, ms) && i < |ss|
    ensures Inv(ss[i])
  {
    if i > 0 {
      RunKeepsInv(ss, ms, i - 1);
      StepKeepsInv(ss[i - 1], ms[i - 1].p, ms[i - 1].a);
    }
  }

  /** When all processes are idle and no token is left, everything put has been got, in order. */
  lemma QuiescentIsDrained<T>(ss: seq<State<T>>, ms: seq<Move<T>>)
    requires IsRun(ss, ms)
    requires var s := ss[|ms|]; !s.token && forall p :: At(s, p) == Idle
    ensures ss[|ms|].queue == [] && ss[|ms|].got == ss[|ms|].put
  {
    RunKeepsInv(ss, ms, |ms|);
  }

  /** A consumer that waits while the queue is not empty is not stuck: either the token is there, or a step that is
      enabled for some process sends it or empties the queue. */
  lemma WaitingIsNotStuck<T>(s: State<T>)
    requires Inv(s) && s.queue != [] && !s.token
    ensures exists p, a :: Enabled(s, p, a) && (Step(s, p, a).token || Step(s, p, a).queue == [])
  {
    var p :| At(s, p) != Idle;
    if At(s, p) == Signalling {
      assert Enabled(s, p, DoSignal) && Step(s, p, DoSignal).token;
    } else {
      assert Enabled(s, p, DoGet) && Step(s, p, DoGet).queue == [];
    }
  }

  // ---------------------------------------------------------------- the object takes these steps

  /** A channel shared by the processes of s. */
  class Shared<T(!new)> {
    const ch: Channel<T>
    ghost var state: State<T>

    ghost predicate Valid()
      reads this, ch
    {
      Inv(state) && ch.token == state.token && ch.queue == state.queue
    }

    constructor ()
      ensures Valid() && state == Initial() && fresh(ch)
    {
      ch := new Channel();
      state := Initial();
    }

    /** One step of process p; a Get returns what it got. */
    method Run(ghost p: nat, a: Action<T>) returns (q: seq<T>)
      requires Valid() && Enabled(state, p, a)
      modifies this, ch
      ensures Valid() && state == Step(old(state), p, a)
      ensures old(state).got + q == state.got
    {
      StepKeepsInv(state, p, a);
      q := [];
      match a {
        case DoAppend(v) =>
          var empty := ch.Append(v);
          assert empty <==> At(Step(state, p, a), p) == Signalling;
        case DoSignal => ch.Signal();
        case DoReceive => ch.Receive();
        case DoGet => q := ch.Get();
      }
      state := Step(state, p, a);
    }
  }
}

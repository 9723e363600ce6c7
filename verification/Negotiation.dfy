/** Offers and answers on a connection towards a receiver: requests to negotiate
    while an offer is outstanding are coalesced into one flag, and served by
    the offer that follows the answer. */
module Negotiation {

  datatype Signalling = Stable | HaveLocalOffer
  datatype Need = Unneeded | Needed | RestartIce

  /** A request to negotiate: whether to restart ICE, and the connection that this one replaces, or "". */
  datatype Request = Request(restartIce: bool, replace: string)

  /** An offer that is sent, with what was requested. */
  datatype Message = NoOffer | Offer(restartIce: bool, replace: string)

  class DownConnection {
    var signalling: Signalling
    var negotiationNeeded: Need

    ghost var spec: Spec     // the requests that the flag stands for

    ghost predicate Valid()
      reads this
    {
      Represents(signalling, negotiationNeeded, spec)
    }

    constructor ()
      ensures Valid() && spec == INITIAL
    {
      signalling := Stable;
      negotiationNeeded := Unneeded;
      spec := INITIAL;
    }

    /** Sends an offer, or remembers to. */
    method Negotiate(restartIce: bool, replace: string) returns (m: Message)
      modifies this`signalling, this`negotiationNeeded
      ensures signalling == HaveLocalOffer
      ensures old(signalling) == Stable ==> m == Offer(restartIce, replace) && negotiationNeeded == Unneeded
      ensures old(signalling) == HaveLocalOffer ==>
                m == NoOffer && negotiationNeeded != Unneeded
                && (negotiationNeeded == RestartIce <==> restartIce || old(negotiationNeeded) == RestartIce)
    {
      if signalling == HaveLocalOffer {
        if restartIce {
          negotiationNeeded := RestartIce;
        } else if negotiationNeeded == Unneeded {
          negotiationNeeded := Needed;
        }
        return NoOffer;
      }
      negotiationNeeded := Unneeded;
      signalling := HaveLocalOffer;
      return Offer(restartIce, replace);
    }

    /** A request to negotiate. */
    method Ask(r: Request) returns (m: Message)
      requires Valid()
      modifies this
      ensures Valid()
      ensures (spec, m) == Asks(old(spec), r)
    {
      AnyOfSum(spec.waiting, r);
      m := Negotiate(r.restartIce, r.replace);
      spec := Asks(spec, r).0;
    }

    /** A successful answer: it sets the remote description, which takes an outstanding offer. */
    method Answer() returns (m: Message)
      requires Valid() && signalling == HaveLocalOffer
      modifies this
      ensures Valid()
      ensures (spec, m) == AnswerArrives(old(spec))
    {
      signalling := Stable;
      m := NoOffer;
      if negotiationNeeded != Unneeded {
        m := Negotiate(negotiationNeeded == RestartIce, "");
      }
      spec := AnswerArrives(spec).0;
    }
  }

  // ---------------------------------------------------------------- without coalescing

  /** The requests that an offer serves, and whether it was sent for the one request at once. */
  datatype Batch = Batch(requests: seq<Request>, atOnce: bool)

  /** Whether an offer is outstanding, the requests waiting for its answer, and
      the requests that each offer sent so far served. */
  datatype Spec = Spec(outstanding: bool, waiting: seq<Request>, served: seq<Batch>)

  const INITIAL := Spec(false, [], [])

  /** Whether a restart was requested. */
  function Any(rs: seq<Request>): bool {
    exists i :: 0 <= i < |rs| && rs[i].restartIce
  }

  lemma AnyOfSum(rs: seq<Request>, r: Request)
    ensures Any(rs + [r]) == (Any(rs) || r.restartIce)
  {
    if Any(rs) {
      var i :| 0 <= i < |rs| && rs[i].restartIce;
      assert (rs + [r])[i].restartIce;
    }
    assert (rs + [r])[|rs|] == r;
  }

  function Asks(s: Spec, r: Request): (Spec, Message) {
    if s.outstanding then (s.(waiting := s.waiting + [r]), NoOffer)
    else (Spec(true, s.waiting, s.served + [Batch([r], true)]), Offer(r.restartIce, r.replace))
  }

  function AnswerArrives(s: Spec): (Spec, Message) {
    if s.waiting == [] then (s.(outstanding := false), NoOffer)
    else (Spec(true, [], s.served + [Batch(s.waiting, false)]), Offer(Any(s.waiting), ""))
  }

  /** The flag says all there is to know about the requests that are waiting, but for what they replace. */
  ghost predicate Represents(signalling: Signalling, need: Need, s: Spec) {
    && (signalling == HaveLocalOffer) == s.outstanding
    && (!s.outstanding ==> s.waiting == [])
    && need == if s.waiting == [] then Unneeded else if Any(s.waiting) then RestartIce else Needed
  }

  // ---------------------------------------------------------------- runs

  datatype Event = Asked(request: Request) | Answered

  ghost predicate Step(s: Spec, ev: Event, s': Spec, m: Message) {
    match ev
    case Asked(r) => (s', m) == Asks(s, r)
    case Answered => s.outstanding && (s', m) == AnswerArrives(s)
  }

  ghost predicate IsRun(ss: seq<Spec>, evs: seq<Event>, ms: seq<Message>) {
    && |ss| == |evs| + 1 == |ms| + 1 && ss[0] == INITIAL
    && forall i :: 0 <= i < |evs| ==> Step(ss[i], evs[i], ss[i + 1], ms[i])
  }

  function Requests(evs: seq<Event>): seq<Request> {
    if evs == [] then []
    else Requests(evs[..|evs| - 1]) + match evs[|evs| - 1] { case Asked(r) => [r] case Answered => [] }
  }

  function Flatten(bs: seq<Batch>): seq<Request> {
    if bs == [] then [] else Flatten(bs[..|bs| - 1]) + bs[|bs| - 1].requests
  }

  /** The offers sent, as requests. */
  function Offers(ms: seq<Message>): seq<Request> {
    if ms == [] then []
    else
      var m := ms[|ms| - 1];
      Offers(ms[..|ms| - 1]) + if m.Offer? then [Request(m.restartIce, m.replace)] else []
  }

  function Answers(evs: seq<Event>): nat {
    if evs == [] then 0 else Answers(evs[..|evs| - 1]) + if evs[|evs| - 1].Answered? then 1 else 0
  }

  /** An offer asks for an ICE restart exactly if a request it serves did, and names what to replace exactly if it was
      sent for the one request at once. */
  predicate Fulfils(offer: Request, b: Batch) {
    && b.requests != [] && (b.atOnce ==> |b.requests| == 1)
    && offer == Request(Any(b.requests), if b.atOnce then b.requests[0].replace else "")
  }

  /** Every request is served by exactly one offer, in order, or is waiting for the outstanding one; the k-th offer
      fulfils the requests it serves; offers and answers alternate. */
  ghost predicate Serves(s: Spec, evs: seq<Event>, ms: seq<Message>) {
    && Flatten(s.served) + s.waiting == Requests(evs)
    && |Offers(ms)| == |s.served|
    && (forall k :: 0 <= k < |s.served| ==> Fulfils(Offers(ms)[k], s.served[k]))
    && |Offers(ms)| == Answers(evs) + (if s.outstanding then 1 else 0)
    && (!s.outstanding ==> s.waiting == [])
  }

  lemma OneMore(evs: seq<Event>, ms: seq<Message>, ev: Event, m: Message)
    ensures Requests(evs + [ev]) == Requests(evs) + match ev { case Asked(r) => [r] case Answered => [] }
    ensures Answers(evs + [ev]) == Answers(evs) + if ev.Answered? then 1 else 0
    ensures Offers(ms + [m]) == Offers(ms) + if m.Offer? then [Request(m.restartIce, m.replace)] else []
  {
    assert (evs + [ev])[..|evs|] == evs && (ms + [m])[..|ms|] == ms;
  }

  lemma OneMoreServed(bs: seq<Batch>, b: Batch)
    ensures Flatten(bs + [b]) == Flatten(bs) + b.requests
  {
    assert (bs + [b])[..|bs|] == bs;
  }

  lemma StepServes(s: Spec, evs: seq<Event>, ms: seq<Message>, ev: Event, s': Spec, m: Message)
    requires Serves(s, evs, ms) && Step(s, ev, s', m)
    ensures Serves(s', evs + [ev], ms + [m])
  {
    hide Any, Requests, Answers, Offers, Flatten;
    OneMore(evs, ms, ev, m);
    match ev
    case Asked(r) =>
      AnyOfOne(r);
      OneMoreServed(s.served, Batch([r], true));
    case Answered =>
      OneMoreServed(s.served, Batch(s.waiting, false));
  }

  lemma AnyOfOne(r: Request)
    ensures Any([r]) == r.restartIce
  {
    AnyOfSum([], r);
    assert [] + [r] == [r];
  }

  lemma {:induction false} RunServes(ss: seq<Spec>, evs: seq<Event>, ms: seq<Message>, i: nat)
    requires IsRun(ss, evs, ms) && i <= |evs|
    ensures Serves(ss[i], evs[..i], ms[..i])
  {
    hide Serves, Step, Requests, Answers, Offers, Flatten;
    if i == 0 {
      NothingServed();
    } else {
      RunServes(ss, evs, ms, i - 1);
      assert Step(ss[i - 1], evs[i - 1], ss[i], ms[i - 1]);
      StepServes(ss[i - 1], evs[..i - 1], ms[..i - 1], evs[i - 1], ss[i], ms[i - 1]);
      assert evs[..i] == evs[..i - 1] + [evs[i - 1]] && ms[..i] == ms[..i - 1] + [ms[i - 1]];
    }
  }

  lemma NothingServed()
    ensures Serves(INITIAL, [], [])
  {
  }

  /** A request made at step k is served at once exactly if all offers so far were answered. Then the offer names
      what it replaces. */
  lemma ServedAtOnceIff(ss: seq<Spec>, evs: seq<Event>, ms: seq<Message>, k: nat)
    requires IsRun(ss, evs, ms) && k < |evs| && evs[k].Asked?
    ensures ms[k].Offer? <==> |Offers(ms[..k])| == Answers(evs[..k])
    ensures ms[k].Offer? ==> ms[k] == Offer(evs[k].request.restartIce, evs[k].request.replace)
  {
    RunServes(ss, evs, ms, k);
    assert Step(ss[k], evs[k], ss[k + 1], ms[k]);
  }

  /** Otherwise it is served by the offer that the next answer, at step j, sets off. That offer restarts ICE if the
      request asked for it, but names nothing to replace, whatever the request named. */
  lemma {:induction false} ServedByNextOffer(ss: seq<Spec>, evs: seq<Event>, ms: seq<Message>, k: nat, j: nat)
    requires IsRun(ss, evs, ms) && k < j < |evs|
    requires evs[k].Asked? && ms[k] == NoOffer
    requires evs[j].Answered? && forall i :: k < i < j ==> evs[i].Asked?
    ensures ms[j].Offer? && (evs[k].request.restartIce ==> ms[j].restartIce) && ms[j].replace == ""
    ensures forall i :: k < i < j ==> ms[i] == NoOffer
  {
    assert Step(ss[k], evs[k], ss[k + 1], ms[k]);
    AnyOfSum(ss[k].waiting, evs[k].request);
    StillWaiting(ss, evs, ms, k, j);
    assert Step(ss[j], evs[j], ss[j + 1], ms[j]);
  }

  lemma {:induction false} StillWaiting(ss: seq<Spec>, evs: seq<Event>, ms: seq<Message>, k: nat, j: nat)
    requires IsRun(ss, evs, ms) && k < j < |evs|
    requires ss[k + 1].outstanding && ss[k + 1].waiting != []
    requires forall i :: k < i < j ==> evs[i].Asked?
    ensures ss[j].outstanding && ss[j].waiting != [] && (Any(ss[k + 1].waiting) ==> Any(ss[j].waiting))
    ensures forall i :: k < i < j ==> ms[i] == NoOffer
    decreases j
  {
    if j > k + 1 {
      StillWaiting(ss, evs, ms, k, j - 1);
      assert Step(ss[j - 1], evs[j - 1], ss[j], ms[j - 1]);
      AnyOfSum(ss[j - 1].waiting, evs[j - 1].request);
    }
  }

  /** What a request is to replace reaches the receiver exactly if the request is served at once: whatever an offer
      names, a request made in the same step named. */
  lemma ReplaceIsNamedIff(ss: seq<Spec>, evs: seq<Event>, ms: seq<Message>, k: nat)
    requires IsRun(ss, evs, ms) && k < |evs|
    ensures ms[k].Offer? && ms[k].replace != "" <==>
            evs[k].Asked? && evs[k].request.replace != "" && |Offers(ms[..k])| == Answers(evs[..k])
  {
    if evs[k].Asked? {
      ServedAtOnceIff(ss, evs, ms, k);
    } else {
      assert Step(ss[k], evs[k], ss[k + 1], ms[k]);
    }
  }

  /** A run that loses it: connection "x" is to be replaced while an offer is outstanding. */
  lemma ReplaceCanBeLost()
    ensures var evs := [Asked(Request(false, "")), Asked(Request(false, "x")), Answered, Answered];
            exists ss: seq<Spec>, ms: seq<Message> :: IsRun(ss, evs, ms) && !ss[4].outstanding && ss[4].waiting == []
                             && forall i :: 0 <= i < |ms| ==> ms[i].Offer? ==> ms[i].replace == ""
  {
    var evs := [Asked(Request(false, "")), Asked(Request(false, "x")), Answered, Answered];
    var s1, m0 := Asks(INITIAL, evs[0].request).0, Asks(INITIAL, evs[0].request).1;
    var s2 := Asks(s1, evs[1].request).0;
    var s3, m2 := AnswerArrives(s2).0, AnswerArrives(s2).1;
    var s4 := AnswerArrives(s3).0;
    var ss, ms := [INITIAL, s1, s2, s3, s4], [m0, NoOffer, m2, NoOffer];
    assert Step(ss[0], evs[0], ss[1], ms[0]) && Step(ss[1], evs[1], ss[2], ms[1]);
    assert Step(ss[2], evs[2], ss[3], ms[2]) && Step(ss[3], evs[3], ss[4], ms[3]);
    assert IsRun(ss, evs, ms);
  }
}

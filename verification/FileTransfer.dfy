/** Peer-to-peer file transfer: the sender chops the file into chunks, the
    receiver puts them together and confirms, and either side may give up at
    any moment. */
module FileTransfer {
  import opened Basics

  type Blob = seq<Byte>

  const MAX_CHUNK := 16384

  datatype TransferState = Inviting | Connecting | Connected | Done | Cancelled | Closed

  /** What the application is told. */
  datatype Report = Finished(blob: Blob) | GaveUp | Ended

  // ---------------------------------------------------------------- one side

  /** One side of a transfer: its state, whether its data channel exists, whether it listens to it, the chunks and
      bytes counted so far, and what it has reported. */
  datatype Side = Side(
    state: TransferState, open: bool, listening: bool, data: seq<Blob>, datalen: nat, reports: seq<Report>)

  function Close(x: Side): Side {
    if x.state == Closed then x
    else Side(Closed, false, false, [], 0, x.reports + [Ended])
  }

  /** Giving up, and whether the peer is told. */
  function Cancel(x: Side): (Side, bool) {
    if x.state == Closed then (x, false)
    else
      var told := x.state != Done && x.state != Cancelled;
      (Close(if told then x.(state := Cancelled, reports := x.reports + [GaveUp]) else x), told)
  }

  /** The peer says that it has given up. */
  function PeerCancelled(x: Side): Side {
    if x.state == Closed then x
    else Close(x.(state := Cancelled, reports := x.reports + [GaveUp]))
  }

  /** The receiver gets a chunk of a file of the given size. */
  function ReceiveData(x: Side, chunk: Blob, size: nat): (Side, bool) {
    var y := x.(data := x.data + [chunk], datalen := x.datalen + |chunk|);
    if y.datalen < size then (y.(state := Connected), false)
    else if y.datalen != size then Cancel(y.(listening := false))
    else
      (Side(Done, y.open, false, [], 0, y.reports + [Finished(Concat(y.data))]), false)
  }

  /** The sender gets the receiver's confirmation. */
  function ReceiveDone(x: Side, size: nat): (Side, bool) {
    if x.datalen == size then (Close(x.(state := Done, reports := x.reports + [Finished([])])), false)
    else Cancel(x)
  }

  /** The object behind a side. */
  class TransferredFile {
    const up: bool
    const size: nat
    var state: TransferState
    var dc: bool               // the data channel exists
    var onmessage: bool        // and its messages are listened to
    var data: seq<Blob>
    var datalen: nat
    var reports: seq<Report>   // the calls of the event callback that matter

    ghost function View(): Side
      reads this
    {
      Side(state, dc, onmessage, data, datalen, reports)
    }

    constructor (up: bool, size: nat)
      ensures this.up == up && this.size == size && View() == Side(Connecting, true, true, [], 0, [])
    {
      this.up, this.size := up, size;
      state, dc, onmessage, data, datalen, reports := Connecting, true, true, [], 0, [];
    }

    method DoClose()
      modifies this
      ensures View() == Close(old(View()))
    {
      if state == Closed {
        return;
      }
      dc, onmessage := false, false;
      data := [];
      datalen := 0;
      state := Closed;
      reports := reports + [Ended];
    }

    method DoCancel() returns (told: bool)
      modifies this
      ensures (View(), told) == Cancel(old(View()))
    {
      if state == Closed {
        return false;
      }
      told := state != Done && state != Cancelled;
      if state != Done && state != Cancelled {
        state := Cancelled;
        reports := reports + [GaveUp];
      }
      DoClose();
    }

    /** The chunks buffered so far, as one; the buffer is emptied. */
    method GetBufferedData() returns (blob: Blob)
      modifies this`data, this`datalen
      ensures blob == Concat(old(data)) && data == [] && datalen == 0
    {
      blob := [];
      var i := 0;
      while i < |data|
        invariant 0 <= i <= |data| && blob == Concat(data[..i])
      {
        assert data[..i + 1][..i] == data[..i];
        blob := blob + data[i];
        i := i + 1;
      }
      assert data[..i] == data;
      data := [];
      datalen := 0;
    }

    method DoReceiveData(chunk: Blob) returns (told: bool)
      requires dc && !up
      modifies this
      ensures (View(), told) == ReceiveData(old(View()), chunk, size)
    {
      data := data + [chunk];
      datalen := datalen + |chunk|;
      if datalen < size {
        state := Connected;
        return false;
      }
      onmessage := false;
      if datalen != size {
        told := DoCancel();
        return;
      }
      var blob := GetBufferedData();
      state := Done;
      reports := reports + [Finished(blob)];
      told := false;
    }

    method DoReceiveDone() returns (told: bool)
      requires dc && up
      modifies this
      ensures (View(), told) == ReceiveDone(old(View()), size)
    {
      if datalen == size {
        state := Done;
        reports := reports + [Finished([])];
        DoClose();
        told := false;
      } else {
        told := DoCancel();
      }
    }

    /** Sends a piece of the file, as the reader delivered it, in chunks of at most 16 kB. */
    method Send(piece: Blob) returns (chunks: seq<Blob>)
      requires dc && up
      modifies this`datalen, this`state
      ensures Concat(chunks) == piece && chunks == Chunks(piece)
      ensures forall i :: 0 <= i < |chunks| ==> |chunks[i]| <= MAX_CHUNK
      ensures datalen == old(datalen) + |piece|
    {
      hide Concat, Chunks;
      ChunksConcat(piece);
      SmallPiece(piece);
      if |piece| <= MAX_CHUNK {
        chunks := [piece];
        datalen := datalen + |piece|;
        state := Connected;
        return;
      }
      chunks := [];
      var i := 0;
      assert piece[0..] == piece;
      while i < |piece|
        invariant 0 <= i <= |piece| && datalen == old(datalen) + i
        invariant i < |piece| ==> chunks + Chunks(piece[i..]) == Chunks(piece)
        invariant i == |piece| ==> chunks == Chunks(piece)
        decreases |piece| - i
      {
        var end := if i + MAX_CHUNK < |piece| then i + MAX_CHUNK else |piece|;
        NextChunk(chunks, piece, i, end);
        chunks := chunks + [piece[i..end]];
        datalen := datalen + (end - i);
        state := Connected;
        i := end;
      }
    }
  }

  /** A piece in chunks of 16 kB and a remainder. */
  function Chunks(piece: Blob): seq<Blob> {
    if |piece| <= MAX_CHUNK then [piece] else [piece[..MAX_CHUNK]] + Chunks(piece[MAX_CHUNK..])
  }

  lemma SmallPiece(piece: Blob)
    ensures |piece| <= MAX_CHUNK ==> Chunks(piece) == [piece]
  {
  }

  /** The chunks so far, one more, and those of the rest. */
  lemma NextChunk(chunks: seq<Blob>, piece: Blob, i: nat, end: nat)
    requires i < |piece| && end == if i + MAX_CHUNK < |piece| then i + MAX_CHUNK else |piece|
    ensures chunks + Chunks(piece[i..]) ==
            if end < |piece| then chunks + [piece[i..end]] + Chunks(piece[end..]) else chunks + [piece[i..end]]
  {
    if end < |piece| {
      assert piece[i..][..MAX_CHUNK] == piece[i..end] && piece[i..][MAX_CHUNK..] == piece[end..];
      assert Chunks(piece[i..]) == [piece[i..end]] + Chunks(piece[end..]);
    } else {
      assert piece[i..] == piece[i..end];
    }
  }

  lemma {:induction false} ChunksConcat(piece: Blob)
    ensures Concat(Chunks(piece)) == piece
    ensures forall i :: 0 <= i < |Chunks(piece)| ==> |Chunks(piece)[i]| <= MAX_CHUNK
    decreases |piece|
  {
    hide Concat;
    if |piece| <= MAX_CHUNK {
      ConcatOne(piece);
    } else {
      ChunksConcat(piece[MAX_CHUNK..]);
      ConcatSum([piece[..MAX_CHUNK]], Chunks(piece[MAX_CHUNK..]));
      ConcatOne(piece[..MAX_CHUNK]);
      Splits(piece, MAX_CHUNK);
    }
  }

  /** All chunks but the last are of exactly 16384 bytes, and the last is empty only if the piece is. */
  lemma {:induction false} ChunksAreFull(piece: Blob)
    ensures var cs := Chunks(piece);
            && cs != [] && (forall i :: 0 <= i < |cs| - 1 ==> |cs[i]| == 16384)
            && |piece| == 16384 * (|cs| - 1) + |cs[|cs| - 1]|
            && (piece != [] ==> cs[|cs| - 1] != [])
    decreases |piece|
  {
    if |piece| > MAX_CHUNK {
      ChunksAreFull(piece[MAX_CHUNK..]);
    }
  }

  // ---------------------------------------------------------------- the two sides and what is between them

  /** Messages in flight, in both directions of the data channel and of the signalling channel, and for the record
      the chunks sent and accepted so far. */
  datatype World = World(
    file: Blob,
    s: Side, r: Side,
    rest: Blob,              // what the sender has not yet read
    piece: Blob,             // what it has read and not yet sent
    toReceiver: seq<Blob>, toSender: nat,   // chunks, and confirmations
    confirmed: bool,         // the receiver has sent its confirmation
    cancelToS: nat, cancelToR: nat,
    sent: seq<Blob>, accepted: seq<Blob>)

  datatype Event =
    | Read(n: nat)           // the sender reads n bytes of the file
    | SendChunk(n: nat)      // and sends some of them
    | DeliverChunk
    | Confirm                // the receiver sends "done"
    | DeliverDone
    | CancelSender | CancelReceiver           // by the user, or because of an error or a closed channel
    | DeliverCancelToS | DeliverCancelToR
    | CloseReceiver          // after the confirmation, or a timeout
    | Truncate(n: nat, m: nat)   // a closed channel loses all but the first messages in flight

  function Start(file: Blob): World {
    var side := Side(Connecting, true, true, [], 0, []);
    World(file, side, side, file, [], [], 0, false, 0, 0, [], [])
  }

  ghost predicate Enabled(w: World, ev: Event) {
    match ev
    case Read(n) => w.s.open && w.piece == [] && n <= |w.rest|
    case SendChunk(n) => w.s.open && n <= |w.piece| && n <= MAX_CHUNK
    case DeliverChunk => w.toReceiver != []
    case Confirm => w.r.open && w.r.state == Done && !w.confirmed
    case DeliverDone => w.toSender > 0
    case CancelSender => true
    case CancelReceiver => true
    case DeliverCancelToS => w.cancelToS > 0
    case DeliverCancelToR => w.cancelToR > 0
    case CloseReceiver => w.r.state == Done
    case Truncate(n, m) => (!w.s.open || !w.r.open) && n <= |w.toReceiver| && m <= w.toSender
  }

  function Told(told: bool): nat {
    if told then 1 else 0
  }

  function Next(w: World, ev: Event): World
    requires Enabled(w, ev)
  {
    match ev
    case Read(n) => w.(piece := w.rest[..n], rest := w.rest[n..])
    case SendChunk(n) =>
      var chunk := w.piece[..n];
      w.(piece := w.piece[n..], toReceiver := w.toReceiver + [chunk], sent := w.sent + [chunk],
         s := w.s.(datalen := w.s.datalen + n, state := Connected))
    case DeliverChunk =>
      var w' := w.(toReceiver := w.toReceiver[1..]);
      if w.r.open && w.r.listening then
        var (r, told) := ReceiveData(w.r, w.toReceiver[0], |w.file|);
        w'.(r := r, cancelToS := w.cancelToS + Told(told), accepted := w.accepted + [w.toReceiver[0]])
      else w'
    case Confirm => w.(toSender := w.toSender + 1, confirmed := true)
    case DeliverDone =>
      var w' := w.(toSender := w.toSender - 1);
      if w.s.open then
        var (s, told) := ReceiveDone(w.s, |w.file|);
        w'.(s := s, cancelToR := w.cancelToR + Told(told))
      else w'
    case CancelSender =>
      var (s, told) := Cancel(w.s);
      w.(s := s, cancelToR := w.cancelToR + Told(told))
    case CancelReceiver =>
      var (r, told) := Cancel(w.r);
      w.(r := r, cancelToS := w.cancelToS + Told(told))
    case DeliverCancelToS => w.(s := PeerCancelled(w.s), cancelToS := w.cancelToS - 1)
    case DeliverCancelToR => w.(r := PeerCancelled(w.r), cancelToR := w.cancelToR - 1)
    case CloseReceiver => w.(r := Close(w.r))
    case Truncate(n, m) => w.(toReceiver := w.toReceiver[..n], toSender := m)
  }

  predicate HasFinished(x: Side) {
    exists i :: 0 <= i < |x.reports| && x.reports[i].Finished?
  }

  /** What the receiver has got is the beginning of what was sent, which is the beginning of the file; it says it is
      done only with the whole file; and the sender says so only after the receiver. */
  ghost predicate Inv(w: World) {
    // the sender
    && (forall i :: 0 <= i < |w.sent| ==> |w.sent[i]| <= MAX_CHUNK)
    && Concat(w.sent) <= w.file
    && (w.s.open ==> Concat(w.sent) + w.piece + w.rest == w.file && w.s.datalen == |Concat(w.sent)|)
    && (w.s.open <==> w.s.state != Closed)
    // the channel
    && w.accepted <= w.sent
    && (w.r.listening ==> w.accepted + w.toReceiver <= w.sent)
    && (w.s.open && w.r.listening ==> w.accepted + w.toReceiver == w.sent)
    // the receiver
    && (w.r.open <==> w.r.state != Closed)
    && (w.r.listening ==> w.r.open && w.r.state != Done && w.r.data == w.accepted
                          && w.r.datalen == |Concat(w.accepted)| && !HasFinished(w.r)
                          && (w.accepted != [] ==> w.r.datalen < |w.file|))
    && (w.r.open && !w.r.listening ==> w.r.state == Done)
    && (w.r.state == Done ==> HasFinished(w.r))
    && (forall i :: 0 <= i < |w.r.reports| && w.r.reports[i].Finished? ==> w.r.reports[i].blob == w.file)
    && (HasFinished(w.r) ==> Concat(w.accepted) == w.file)
    && w.s.state != Done && w.s.state != Cancelled && w.r.state != Cancelled
    && (w.s.open && w.sent != [] ==> w.s.state == Connected)
    && (w.r.listening && w.accepted != [] ==> w.r.state == Connected)
    // the confirmation
    && (w.toSender > 0 || w.confirmed || HasFinished(w.s) ==> HasFinished(w.r))
  }

  ghost predicate IsRun(ws: seq<World>, evs: seq<Event>) {
    && |ws| == |evs| + 1 && ws[0] == Start(ws[0].file)
    && forall i :: 0 <= i < |evs| ==> Enabled(ws[i], evs[i]) && ws[i + 1] == Next(ws[i], evs[i])
  }

  lemma ReportsGrow(x: Side, y: Side)
    requires x.reports <= y.reports
    ensures HasFinished(x) ==> HasFinished(y)
  {
    if HasFinished(x) {
      var i :| 0 <= i < |x.reports| && x.reports[i].Finished?;
      assert y.reports[i].Finished?;
    }
  }

  /** Giving up or closing reports nothing as finished. */
  lemma EndingFinishesNothing(x: Side, y: Side)
    requires y == Cancel(x).0 || y == PeerCancelled(x) || y == Close(x)
    ensures x.reports <= y.reports && y.state == Closed && (x.state != Closed ==> !y.open && !y.listening)
    ensures forall i :: |x.reports| <= i < |y.reports| ==> !y.reports[i].Finished?
    ensures HasFinished(y) <==> HasFinished(x)
  {
    ReportsGrow(x, y);
    if HasFinished(y) {
      var i :| 0 <= i < |y.reports| && y.reports[i].Finished?;
      assert x.reports[i].Finished?;
    }
  }

  // ---------------------------------------------------------------- every step keeps the invariant

  lemma OneMoreChunk(sent: seq<Blob>, chunk: Blob)
    ensures Concat(sent + [chunk]) == Concat(sent) + chunk
  {
    assert (sent + [chunk])[..|sent|] == sent;
  }

  lemma SameFinish(x: Side, y: Side)
    requires x.reports == y.reports
    ensures HasFinished(x) == HasFinished(y)
  {
  }

  /** A chunk that is sent goes to the end of the channel. */
  lemma ChannelGrows(accepted: seq<Blob>, inFlight: seq<Blob>, sent: seq<Blob>, chunk: Blob)
    ensures accepted <= sent ==> accepted <= sent + [chunk]
    ensures accepted + inFlight == sent ==> accepted + (inFlight + [chunk]) == sent + [chunk]
  {
    assert accepted + (inFlight + [chunk]) == (accepted + inFlight) + [chunk];
  }

  lemma PieceShrinks(sent: Blob, piece: Blob, rest: Blob, n: nat)
    requires n <= |piece|
    ensures (sent + piece[..n]) + piece[n..] + rest == sent + piece + rest
    ensures sent + piece[..n] <= sent + piece + rest
  {
  }

  lemma SendChunkKeepsInv(w: World, n: nat)
    requires Inv(w) && Enabled(w, SendChunk(n))
    ensures Inv(Next(w, SendChunk(n)))
  {
    hide Concat, HasFinished;
    var w' := Next(w, SendChunk(n));
    OneMoreChunk(w.sent, w.piece[..n]);
    PieceShrinks(Concat(w.sent), w.piece, w.rest, n);
    ChannelGrows(w.accepted, w.toReceiver, w.sent, w.piece[..n]);
    SameFinish(w.s, w'.s);
  }

  lemma ReceivedAll(w: World)
    requires Inv(w) && w.toReceiver != [] && w.r.listening
    ensures var data := w.r.data + [w.toReceiver[0]];
            && data == w.accepted + [w.toReceiver[0]] && data <= w.sent
            && Concat(data) <= w.file && |Concat(data)| == w.r.datalen + |w.toReceiver[0]|
  {
    var data := w.accepted + [w.toReceiver[0]];
    assert data <= w.accepted + w.toReceiver <= w.sent;
    assert data[..|data| - 1] == w.accepted;
    ConcatPrefix(data, w.sent);
  }

  /** A chunk that does not complete the file. */
  lemma AcceptKeepsInv(w: World)
    requires Inv(w) && w.toReceiver != [] && w.r.listening
    requires w.r.datalen + |w.toReceiver[0]| < |w.file|
    ensures Inv(Next(w, DeliverChunk))
  {
    var w' := Next(w, DeliverChunk);
    ReceivedAll(w);
    assert w'.accepted + w'.toReceiver == w.accepted + w.toReceiver;
  }

  /** A chunk that completes the file, or would exceed it. */
  lemma CompleteKeepsInv(w: World)
    requires Inv(w) && w.toReceiver != [] && w.r.listening
    requires w.r.datalen + |w.toReceiver[0]| >= |w.file|
    ensures Inv(Next(w, DeliverChunk))
  {
    var w' := Next(w, DeliverChunk);
    ReceivedAll(w);
    var data := w.r.data + [w.toReceiver[0]];
    assert |Concat(data)| == |w.file| && Concat(data) == w.file;
    assert w'.r == Side(Done, w.r.open, false, [], 0, w.r.reports + [Finished(w.file)]);
    assert w'.r.reports[|w.r.reports|].Finished?;
    assert w'.accepted <= w.sent;
  }

  lemma DeliverChunkKeepsInv(w: World)
    requires Inv(w) && Enabled(w, DeliverChunk)
    ensures Inv(Next(w, DeliverChunk))
  {
    if w.r.listening {
      if w.r.datalen + |w.toReceiver[0]| < |w.file| {
        AcceptKeepsInv(w);
      } else {
        CompleteKeepsInv(w);
      }
    }
  }

  lemma DeliverDoneKeepsInv(w: World)
    requires Inv(w) && Enabled(w, DeliverDone)
    ensures Inv(Next(w, DeliverDone))
  {
    var w' := Next(w, DeliverDone);
    if w.s.open {
      if w.s.datalen == |w.file| {
        ReportsGrow(w.s, w'.s);
      } else {
        EndingFinishesNothing(w.s, w'.s);
      }
    }
  }

  lemma EndingKeepsInv(w: World, ev: Event)
    requires Inv(w) && Enabled(w, ev)
    requires ev.CancelSender? || ev.CancelReceiver? || ev.DeliverCancelToS? || ev.DeliverCancelToR? || ev.CloseReceiver?
    ensures Inv(Next(w, ev))
  {
    var w' := Next(w, ev);
    if ev.CancelSender? || ev.DeliverCancelToS? {
      EndingFinishesNothing(w.s, w'.s);
    } else {
      EndingFinishesNothing(w.r, w'.r);
      forall i | 0 <= i < |w'.r.reports| && w'.r.reports[i].Finished?
        ensures w'.r.reports[i].blob == w.file
      {
        assert w'.r.reports[i] == w.r.reports[i];
      }
    }
  }

  lemma StepKeepsInv(w: World, ev: Event)
    requires Inv(w) && Enabled(w, ev)
    ensures Inv(Next(w, ev))
  {
    match ev
    case Read(n) =>
      assert w.rest[..n] + w.rest[n..] == w.rest;
      assert Concat(w.sent) + w.piece + w.rest == Concat(w.sent) + w.rest[..n] + w.rest[n..];
    case SendChunk(n) => SendChunkKeepsInv(w, n);
    case DeliverChunk => DeliverChunkKeepsInv(w);
    case Confirm =>
    case DeliverDone => DeliverDoneKeepsInv(w);
    case CancelSender => EndingKeepsInv(w, ev);
    case CancelReceiver => EndingKeepsInv(w, ev);
    case DeliverCancelToS => EndingKeepsInv(w, ev);
    case DeliverCancelToR => EndingKeepsInv(w, ev);
    case CloseReceiver => EndingKeepsInv(w, ev);
    case Truncate(n, m) =>
      assert w.accepted + w.toReceiver[..n] <= w.accepted + w.toReceiver;
  }

  lemma {:induction false} RunKeepsInv(ws: seq<World>, evs: seq<Event>, i: nat)
    requires IsRun(ws, evs) && i < |ws|
    ensures Inv(ws[i]) && ws[i].file == ws[0].file
  {
    if i == 0 {
      assert Concat<Byte>([]) == [];
    } else {
      RunKeepsInv(ws, evs, i - 1);
      StepKeepsInv(ws[i - 1], evs[i - 1]);
    }
  }

  /** In every run, with either side giving up at any moment: every chunk is small, the chunks sent are the
      beginning of the file, the receiver says it is done only with the whole file, and the sender says it is done only
      after the receiver did. */
  lemma TransferIsSafe(ws: seq<World>, evs: seq<Event>, i: nat)
    requires IsRun(ws, evs) && i < |ws|
    ensures forall k :: 0 <= k < |ws[i].sent| ==> |ws[i].sent[k]| <= MAX_CHUNK
    ensures Concat(ws[i].sent) <= ws[0].file
    ensures forall k :: 0 <= k < |ws[i].r.reports| && ws[i].r.reports[k].Finished? ==>
              ws[i].r.reports[k].blob == ws[0].file
    ensures HasFinished(ws[i].s) ==> HasFinished(ws[i].r)
  {
    RunKeepsInv(ws, evs, i);
  }

  /** Once a non-empty file is all sent and delivered and nobody gave up, the receiver is done. */
  lemma DeliveredIsDone(ws: seq<World>, evs: seq<Event>)
    requires IsRun(ws, evs)
    requires var w := ws[|evs|]; w.file != [] && w.s.open && w.r.open && w.rest == [] && w.piece == [] && w.toReceiver == []
    ensures HasFinished(ws[|evs|].r)
  {
    var w := ws[|evs|];
    RunKeepsInv(ws, evs, |evs|);
    assert w.accepted + w.toReceiver == w.accepted;
    assert Concat(w.sent) + w.piece + w.rest == Concat(w.sent);
    assert w.sent != [];
  }

  /** When a confirmation reaches a sender that has not closed, the sender is done, and not given up on: by then it has
      sent the whole file. */
  lemma ConfirmationFinishes(ws: seq<World>, evs: seq<Event>, i: nat)
    requires IsRun(ws, evs) && i < |evs| && evs[i] == DeliverDone && ws[i].s.open
    ensures Concat(ws[i].sent) == ws[0].file
    ensures ws[i + 1].s.reports == ws[i].s.reports + [Finished([]), Ended] && ws[i + 1].s.state == Closed
    ensures ws[i + 1].cancelToR == ws[i].cancelToR
  {
    hide Concat;
    var w := ws[i];
    RunKeepsInv(ws, evs, i);
    assert HasFinished(w.r);
    ConcatPrefix(w.accepted, w.sent);
  }

  // ---------------------------------------------------------------- giving up

  /** A side is closed exactly if it has said that it ended; it then has finished or has given up, and it has given up only
      then. */
  ghost predicate EndsProperly(x: Side) {
    && (x.state == Closed <==> Ended in x.reports)
    && (x.state == Closed ==> HasFinished(x) || GaveUp in x.reports)
    && (GaveUp in x.reports ==> x.state == Closed)
  }

  lemma EndingIsProper(x: Side, y: Side)
    requires EndsProperly(x) && x.state != Cancelled && (x.state == Done ==> HasFinished(x))
    requires y == Cancel(x).0 || y == PeerCancelled(x) || (x.state == Done && y == Close(x))
    ensures EndsProperly(y)
  {
    EndingFinishesNothing(x, y);
    if x.state != Closed {
      assert y.reports[|y.reports| - 1] == Ended;
      assert y.reports == x.reports + [Ended] || y.reports == x.reports + [GaveUp] + [Ended];
    }
  }

  lemma FinishingIsProper(x: Side, y: Side, blob: Blob)
    requires EndsProperly(x) && x.state != Closed
    requires (y.reports == x.reports + [Finished(blob)] && y.state == Done)
             || (y.reports == x.reports + [Finished(blob)] + [Ended] && y.state == Closed)
    ensures EndsProperly(y)
  {
    assert y.reports[|x.reports|] == Finished(blob);
    assert x.reports == y.reports[..|x.reports|];
    if y.state == Closed {
      assert y.reports[|x.reports| + 1] == Ended;
    }
  }

  lemma StepEndsProperly(w: World, ev: Event)
    requires Inv(w) && Enabled(w, ev) && EndsProperly(w.s) && EndsProperly(w.r)
    ensures EndsProperly(Next(w, ev).s) && EndsProperly(Next(w, ev).r)
  {
    hide Concat, EndsProperly;
    var w' := Next(w, ev);
    match ev
    case Read(_) =>
    case SendChunk(_) => SameReports(w.s, w'.s);
    case DeliverChunk => DeliveryIsProper(w);
    case Confirm =>
    case DeliverDone =>
      if w.s.open {
        if w.s.datalen == |w.file| {
          FinishingIsProper(w.s, w'.s, []);
        } else {
          EndingIsProper(w.s, w'.s);
        }
      }
    case CancelSender => EndingIsProper(w.s, w'.s);
    case CancelReceiver => EndingIsProper(w.r, w'.r);
    case DeliverCancelToS => EndingIsProper(w.s, w'.s);
    case DeliverCancelToR => EndingIsProper(w.r, w'.r);
    case CloseReceiver => EndingIsProper(w.r, w'.r);
    case Truncate(_, _) =>
  }

  lemma DeliveryIsProper(w: World)
    requires Inv(w) && Enabled(w, DeliverChunk) && EndsProperly(w.r)
    ensures EndsProperly(Next(w, DeliverChunk).r)
  {
    hide EndsProperly;
    if w.r.listening {
      var r := Next(w, DeliverChunk).r;
      ReceivedAll(w);
      if w.r.datalen + |w.toReceiver[0]| < |w.file| {
        SameReports(w.r, r);
      } else {
        FinishingIsProper(w.r, r, Concat(w.r.data + [w.toReceiver[0]]));
      }
    }
  }

  lemma SameReports(x: Side, y: Side)
    requires EndsProperly(x) && y.reports == x.reports && y.state != Closed && x.state != Closed
    ensures EndsProperly(y)
  {
  }

  lemma {:induction false} RunEndsProperly(ws: seq<World>, evs: seq<Event>, i: nat)
    requires IsRun(ws, evs) && i < |ws|
    ensures EndsProperly(ws[i].s) && EndsProperly(ws[i].r)
  {
    hide Next, Inv;
    if i > 0 {
      RunEndsProperly(ws, evs, i - 1);
      RunKeepsInv(ws, evs, i - 1);
      StepEndsProperly(ws[i - 1], evs[i - 1]);
    }
  }

  /** A side that closed stays closed, and a message that it has given up is delivered to a side that then is closed. */
  lemma StepStaysClosed(w: World, ev: Event)
    requires Inv(w) && Enabled(w, ev)
    ensures var w' := Next(w, ev);
            && (w.s.state == Closed ==> w'.s.state == Closed)
            && (w.r.state == Closed ==> w'.r.state == Closed)
            && (w'.cancelToR < w.cancelToR ==> w'.r.state == Closed)
            && (w'.cancelToS < w.cancelToS ==> w'.s.state == Closed)
  {
    hide Concat;
  }

  lemma {:induction false} CancelIsDelivered(ws: seq<World>, evs: seq<Event>, i: nat, k: nat)
    requires IsRun(ws, evs) && i <= k < |ws|
    ensures ws[i].s.state == Closed ==> ws[k].s.state == Closed
    ensures ws[i].r.state == Closed ==> ws[k].r.state == Closed
    ensures ws[i].cancelToR > 0 && ws[k].cancelToR == 0 ==> ws[k].r.state == Closed
    ensures ws[i].cancelToS > 0 && ws[k].cancelToS == 0 ==> ws[k].s.state == Closed
    decreases k
  {
    hide Inv, Next;
    if i < k {
      CancelIsDelivered(ws, evs, i, k - 1);
      RunKeepsInv(ws, evs, k - 1);
      StepStaysClosed(ws[k - 1], evs[k - 1]);
    }
  }

  lemma GivingUpTells(w: World, ev: Event)
    requires Inv(w) && Enabled(w, ev)
    ensures ev.CancelSender? && w.s.state != Closed ==> Next(w, ev).cancelToR > 0 && Next(w, ev).s.state == Closed
    ensures ev.CancelReceiver? && w.r.state != Closed && w.r.state != Done ==>
              Next(w, ev).cancelToS > 0 && Next(w, ev).r.state == Closed
  {
    hide Concat;
  }

  /** If the sender gives up while it is not closed, then both sides are closed as soon as its message has been delivered,
      whatever else happens; and the receiver has finished, or says that it gave up. */
  lemma SenderEndsBoth(ws: seq<World>, evs: seq<Event>, i: nat, k: nat)
    requires IsRun(ws, evs) && i < k < |ws| && evs[i] == CancelSender && ws[i].s.state != Closed
    requires ws[k].cancelToR == 0
    ensures ws[k].s.state == ws[k].r.state == Closed && GaveUp in ws[k].s.reports
    ensures HasFinished(ws[k].r) || GaveUp in ws[k].r.reports
  {
    hide Inv, Next;
    RunKeepsInv(ws, evs, i);
    GivingUpTells(ws[i], evs[i]);
    CancelIsDelivered(ws, evs, i + 1, k);
    RunEndsProperly(ws, evs, k);
    SenderSaysSo(ws[i]);
    ReportsStay(ws, evs, i + 1, k);
  }

  /** If the receiver gives up before it is done, both sides are closed once its message has been delivered. */
  lemma ReceiverEndsBoth(ws: seq<World>, evs: seq<Event>, i: nat, k: nat)
    requires IsRun(ws, evs) && i < k < |ws| && evs[i] == CancelReceiver && ws[i].r.state != Closed && ws[i].r.state != Done
    requires ws[k].cancelToS == 0
    ensures ws[k].s.state == ws[k].r.state == Closed
    ensures HasFinished(ws[k].s) || GaveUp in ws[k].s.reports
  {
    hide Inv, Next;
    RunKeepsInv(ws, evs, i);
    GivingUpTells(ws[i], evs[i]);
    CancelIsDelivered(ws, evs, i + 1, k);
    RunEndsProperly(ws, evs, k);
  }

  /** A receiver that has finished tells the sender no more that it gives up, even if it does. */
  lemma FinishedTellsNothing(ws: seq<World>, evs: seq<Event>, i: nat)
    requires IsRun(ws, evs) && i < |evs| && HasFinished(ws[i].r)
    ensures ws[i + 1].cancelToS <= ws[i].cancelToS
  {
    hide Concat;
    RunKeepsInv(ws, evs, i);
  }

  lemma SenderSaysSo(w: World)
    requires Inv(w) && w.s.state != Closed
    ensures GaveUp in Next(w, CancelSender).s.reports
  {
    hide Concat;
    assert Next(w, CancelSender).s.reports == w.s.reports + [GaveUp] + [Ended];
  }

  lemma StepKeepsReports(w: World, ev: Event)
    requires Enabled(w, ev)
    ensures w.s.reports <= Next(w, ev).s.reports && w.r.reports <= Next(w, ev).r.reports
  {
    hide Concat;
  }

  /** Nothing that was reported is taken back. */
  lemma {:induction false} ReportsStay(ws: seq<World>, evs: seq<Event>, i: nat, k: nat)
    requires IsRun(ws, evs) && i <= k < |ws|
    ensures ws[i].s.reports <= ws[k].s.reports && ws[i].r.reports <= ws[k].r.reports
    decreases k
  {
    hide Next;
    if i < k {
      ReportsStay(ws, evs, i, k - 1);
      StepKeepsReports(ws[k - 1], evs[k - 1]);
    }
  }
}

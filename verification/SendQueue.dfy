/** The sending half of a session: a queue of frames of which the front one is being written.
    First the protocol on values, with everything that can happen to it; then the class that the
    program has, whose methods take exactly the protocol's steps. */
module SendQueue {
  import opened Wire

  const MAX_SENDQUE := 1000

  /** `sent` bytes of the front of `queue` have gone out. `gone` are the messages that left the
      queue, `wire` is everything that ever went out, `dropped` counts the messages refused. */
  datatype Tx = Tx(
    queue: seq<Msg>, sent: nat, writing: bool, failed: bool,
    gone: seq<Msg>, wire: seq<byte>, dropped: nat)
  {
    /** Every message that ever entered the queue. */
    function Accepted(): seq<Msg> {
      gone + queue
    }
  }

  /** A call of `send`; some bytes of the write in flight go out; it completes; it fails. */
  datatype Event = Send(m: Msg) | Move(k: nat) | Written | WriteFailed

  const IDLE := Tx([], 0, false, false, [], [], 0)

  function Front(t: Tx): seq<byte>
    requires t.queue != []
  {
    Encode(t.queue[0])
  }

  predicate Enabled(t: Tx, e: Event) {
    match e
    case Send(m) => IsShort(m.id) && Framable(|m.body|)
    case Move(k) => t.writing && t.queue != [] && 0 < k <= |Front(t)| - t.sent
    case Written => t.writing && t.queue != [] && t.sent == |Front(t)|
    case WriteFailed => t.writing
  }

  function Step(t: Tx, e: Event): Tx
    requires Enabled(t, e)
  {
    match e
    case Send(m) =>
      if |t.queue| > MAX_SENDQUE then t.(dropped := t.dropped + 1)
      else if t.queue != [] then t.(queue := t.queue + [m])
      else t.(queue := [m], sent := 0, writing := true)
    case Move(k) => t.(sent := t.sent + k, wire := t.wire + Front(t)[t.sent..t.sent + k])
    case Written =>
      t.(queue := t.queue[1..], gone := t.gone + [t.queue[0]], sent := 0, writing := |t.queue| > 1)
    case WriteFailed => t.(writing := false, failed := true)
  }

  /** Every run: the events that are not enabled where they stand do not happen. */
  function Run(t: Tx, es: seq<Event>): Tx {
    if es == [] then t
    else
      var before := Run(t, es[..|es| - 1]);
      var e := es[|es| - 1];
      if Enabled(before, e) then Step(before, e) else before
  }

  predicate AllFramable(ms: seq<Msg>) {
    forall i :: 0 <= i < |ms| ==> IsShort(ms[i].id) && Framable(|ms[i].body|)
  }

  /** The part of the front frame that has gone out. */
  function Begun(t: Tx): seq<byte>
    requires t.queue != [] ==> t.sent <= |Front(t)|
  {
    if t.queue == [] then [] else Front(t)[..t.sent]
  }

  /** What has been accepted and has not gone out. */
  function Unsent(t: Tx): seq<byte>
    requires t.queue != [] ==> t.sent <= |Front(t)|
  {
    if t.queue == [] then [] else Front(t)[t.sent..] + Frames(t.queue[1..])
  }

  /** Who is writing what: a write is in flight exactly when the queue is not empty, until a
      write fails, and it is the write of the front. */
  predicate Flow(t: Tx) {
    && |t.queue| <= MAX_SENDQUE + 1
    && (t.writing <==> t.queue != [] && !t.failed)
    && (t.failed ==> t.queue != [])
    && (if t.queue == [] then t.sent == 0 else t.sent <= |Front(t)|)
  }

  /** What has gone out is the frames of what left the queue and the beginning of the front. */
  predicate Bytes(t: Tx)
    requires Flow(t)
  {
    AllFramable(t.Accepted()) && t.wire == Frames(t.gone) + Begun(t)
  }

  predicate Inv(t: Tx) {
    Flow(t) && Bytes(t)
  }

  lemma Framables(t: Tx)
    requires Inv(t)
    ensures AllFramable(t.Accepted())
  {
  }

  lemma StepKeepsInv(t: Tx, e: Event)
    requires Inv(t) && Enabled(t, e)
    ensures Inv(Step(t, e))
  {
    hide Encode, Frames;
    var u := Step(t, e);
    match e
    case Send(m) =>
      if |t.queue| <= MAX_SENDQUE {
        assert u.Accepted() == t.Accepted() + [m];
        assert t.queue == [] ==> Begun(u) == [];
      }
    case Move(k) =>
      assert Begun(t) + Front(t)[t.sent..t.sent + k] == Front(t)[..t.sent + k];
    case Written =>
      assert u.Accepted() == t.Accepted();
      FramesConcat(t.gone, [t.queue[0]]);
      FramesOne(t.queue[0]);
      assert Begun(t) == Front(t);
      assert Begun(u) == [];
    case WriteFailed =>
  }

  lemma DropKeepsInv(t: Tx)
    requires Inv(t)
    ensures Inv(t.(dropped := t.dropped + 1))
  {
  }

  lemma {:induction false} RunKeepsInv(t: Tx, es: seq<Event>)
    requires Inv(t)
    ensures Inv(Run(t, es))
  {
    if es != [] {
      RunKeepsInv(t, es[..|es| - 1]);
      var before := Run(t, es[..|es| - 1]);
      if Enabled(before, es[|es| - 1]) {
        StepKeepsInv(before, es[|es| - 1]);
      }
    }
  }

  lemma Conserved(t: Tx)
    requires Inv(t)
    ensures t.wire + Unsent(t) == Frames(t.Accepted())
  {
    hide Encode, Frames;
    FramesConcat(t.gone, t.queue);
    if t.queue == [] {
      assert t.gone == t.Accepted();
    } else {
      var m, more := t.queue[0], t.queue[1..];
      assert t.queue == [m] + more;
      FramesConcat([m], more);
      FramesOne(m);
      assert Front(t) == Front(t)[..t.sent] + Front(t)[t.sent..];
      assert Frames(t.gone) + (Front(t)[..t.sent] + Front(t)[t.sent..] + Frames(more))
          == Frames(t.gone) + Front(t)[..t.sent] + (Front(t)[t.sent..] + Frames(more));
    }
  }

  /** In every run what has gone out, what is left of the frame being written and the frames
      waiting behind it are the frames of the accepted messages, in order and never interleaved. */
  lemma {:induction false} NothingLostOrInterleaved(es: seq<Event>)
    ensures Inv(Run(IDLE, es))
    ensures var t := Run(IDLE, es);
      t.wire + Unsent(t) == Frames(t.Accepted())
  {
    assert Inv(IDLE);
    RunKeepsInv(IDLE, es);
    Conserved(Run(IDLE, es));
  }

  /** A message is dropped exactly when it finds the queue with 1001 entries. */
  lemma {:induction false} DroppedIffFull(es: seq<Event>, m: Msg)
    requires Enabled(Run(IDLE, es), Send(m))
    ensures var t := Run(IDLE, es); var u := Step(t, Send(m));
      && (u.dropped == t.dropped + 1 <==> |t.queue| == 1001)
      && (u.Accepted() == t.Accepted() + [m] <==> |t.queue| <= 1000)
      && |u.queue| <= 1001
  {
    assert Inv(IDLE);
    RunKeepsInv(IDLE, es);
  }

  /** Once a write has failed, no run puts another byte on the wire or takes a message off the
      queue, however many messages are sent. */
  lemma {:induction false} FrozenAfterFailure(t: Tx, es: seq<Event>)
    requires Inv(t) && t.failed
    ensures var u := Run(t, es);
      Flow(u) && u.(queue := t.queue, dropped := t.dropped) == t && t.queue <= u.queue
  {
    if es != [] {
      hide Bytes;
      FrozenAfterFailure(t, es[..|es| - 1]);
    }
  }

  lemma QueueGrows(t: Tx, u: Tx)
    requires t.queue <= u.queue && t.gone == u.gone
    ensures Frames(t.Accepted()) <= Frames(u.Accepted())
  {
    var later := u.queue[|t.queue|..];
    assert u.Accepted() == t.Accepted() + later;
    FramesConcat(t.Accepted(), later);
  }

  /** Any failed run: what went out begins the accepted frames, and it never grows. */
  lemma {:induction false} FailureLeavesPrefix(es: seq<Event>, more: seq<Event>)
    requires Run(IDLE, es).failed
    ensures var t, u := Run(IDLE, es), Run(Run(IDLE, es), more);
      u.wire == t.wire && t.wire <= Frames(t.Accepted()) <= Frames(u.Accepted())
  {
    NothingLostOrInterleaved(es);
    FrozenAfterFailure(Run(IDLE, es), more);
    QueueGrows(Run(IDLE, es), Run(Run(IDLE, es), more));
  }

  /** The sending half of a session. */
  class Writer {
    var sendQue: seq<MsgNode>   // send_que_
    var inFlight: MsgNode?      // the buffer of the outstanding `async_write`
    var sent: nat               // how much of it has gone out
    var closed: bool            // b_close_
    var wire: seq<byte>         // what has gone out
    ghost var state: Tx
    ghost var nodes: set<object>

    ghost predicate Valid()
      reads this, nodes
    {
      && this !in nodes && Inv(state)
      && |sendQue| == |state.queue|
      && (forall i :: 0 <= i < |sendQue| ==> sendQue[i] in nodes && sendQue[i].data in nodes)
      && (forall i :: 0 <= i < |sendQue| ==>
            sendQue[i].Valid() && sendQue[i].Payload() == Encode(state.queue[i]))
      && (inFlight != null <==> state.writing)
      && (inFlight != null ==> sendQue != [] && inFlight == sendQue[0])
      && sent == state.sent && wire == state.wire
    }

    constructor ()
      ensures Valid() && state == IDLE && sendQue == [] && !closed && nodes == {}
    {
      sendQue, inFlight, sent, closed, wire := [], null, 0, false, [];
      state, nodes := IDLE, {};
    }

    /** `async_write` of a whole node: Asio wants no other write on the socket meanwhile. */
    method StartWrite(node: MsgNode)
      requires inFlight == null
      modifies this`inFlight, this`sent
      ensures inFlight == node && sent == 0
    {
      inFlight, sent := node, 0;
    }

    /** `send`: the length of the message is narrowed to a `short` on the way to the node. */
    method Send(msg: array<byte>, id: int) returns (threw: bool)
      requires Valid() && IsShort(id)
      modifies this
      ensures Valid() && closed == old(closed)
      ensures nodes - old(nodes) !! old(nodes) && fresh(nodes - old(nodes))
      ensures threw <==> |old(state).queue| <= MAX_SENDQUE && !Framable(ToShort(msg.Length))
      ensures threw ==> state == old(state)
      ensures !threw && Framable(ToShort(msg.Length)) ==>
        state == Step(old(state), Event.Send(Narrowed(msg[..], id)))
      ensures !threw && !Framable(ToShort(msg.Length)) ==> state == old(state).(dropped := old(state).dropped + 1)
    {
      hide Encode, Frames, Bytes;
      var sendQueSize := |sendQue|;
      if sendQueSize > MAX_SENDQUE {
        DropKeepsInv(state);
        state := state.(dropped := state.dropped + 1);
        return false;
      }
      var length := ToShort(msg.Length);
      if !Framable(length) {
        return true;
      }
      ghost var m := Narrowed(msg[..], id);
      assert msg[..][..length] == msg[..length];
      StepKeepsInv(state, Event.Send(m));
      var node := new MsgNode.Send(msg, length, id);
      sendQue := sendQue + [node];
      nodes := nodes + {node, node.data};
      state := Step(state, Event.Send(m));
      threw := false;
      if sendQueSize > 0 {
        return;
      }
      StartWrite(sendQue[0]);
    }

    /** The write in flight puts `k` more bytes on the wire. */
    method Transfer(k: nat) returns (bytes: seq<byte>)
      requires Valid() && inFlight != null && 0 < k <= inFlight.totalLen - sent
      modifies this`wire, this`sent, this`state
      ensures Valid() && state == Step(old(state), Move(k))
      ensures bytes == Front(old(state))[old(sent)..old(sent) + k]
    {
      hide Encode, Frames, Bytes;
      StepKeepsInv(state, Move(k));
      bytes := inFlight.data[sent..sent + k];
      assert bytes == inFlight.Payload()[sent..sent + k];
      wire := wire + bytes;
      sent := sent + k;
      state := Step(state, Move(k));
    }

    /** `handleWrite`: the outstanding write completes, or fails wherever it is. */
    method HandleWrite(error: bool)
      requires Valid() && inFlight != null && (!error ==> sent == inFlight.totalLen)
      modifies this
      ensures Valid() && nodes == old(nodes)
      ensures state == Step(old(state), if error then WriteFailed else Written)
      ensures closed == (old(closed) || error)
    {
      hide Encode, Frames, Bytes;
      StepKeepsInv(state, if error then WriteFailed else Written);
      state := Step(state, if error then WriteFailed else Written);
      inFlight := null;
      if !error {
        sendQue, sent := sendQue[1..], 0;
        if sendQue != [] {
          StartWrite(sendQue[0]);
        }
      } else {
        closed := true;
      }
    }
  }
}

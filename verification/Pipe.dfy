/** One direction of a connection: the sending half of one session, the bytes in transit, and the
    reading half of the other. */
module Pipe {
  import opened Wire
  import opened FrameParser
  import SendQueue

  /** `received` is what the reading half has been given, `channel` what is still in transit. */
  datatype Pipe = Pipe(
    limit: int, tx: SendQueue.Tx, channel: seq<byte>, received: seq<byte>, rx: Parsed, reading: bool)

  datatype Event =
    | Sender(e: SendQueue.Event)
    | Deliver(n: nat)
    | ReadFailed

  function Open(limit: int): Pipe {
    Pipe(limit, SendQueue.IDLE, [], [], Parsed([], [], Running), true)
  }

  predicate Enabled(p: Pipe, e: Event) {
    match e
    case Sender(se) => SendQueue.Enabled(p.tx, se)
    case Deliver(n) => p.reading && 0 < n <= MAX_LENGTH && n <= |p.channel|
    case ReadFailed => p.reading
  }

  function Step(p: Pipe, e: Event): Pipe
    requires Enabled(p, e)
  {
    match e
    case Sender(se) =>
      var tx := SendQueue.Step(p.tx, se);
      p.(tx := tx, channel := p.channel + (if se.Move? then SendQueue.Front(p.tx)[p.tx.sent..p.tx.sent + se.k] else []))
    case Deliver(n) =>
      var rx := Resume(p.limit, p.rx, p.channel[..n]);
      p.(channel := p.channel[n..], received := p.received + p.channel[..n],
         rx := rx, reading := rx.verdict.Running?)
    case ReadFailed => p.(reading := false)
  }

  /** Every run: the events that are not enabled where they stand do not happen. */
  function Run(p: Pipe, es: seq<Event>): Pipe {
    if es == [] then p
    else
      var before := Run(p, es[..|es| - 1]);
      var e := es[|es| - 1];
      if Enabled(before, e) then Step(before, e) else before
  }

  predicate Inv(p: Pipe) {
    && SendQueue.Inv(p.tx)
    && p.tx.wire == p.received + p.channel
    && p.rx == Parse(p.limit, p.received)
    && (p.reading ==> p.rx.verdict.Running?)
  }

  lemma OpenInv(limit: int)
    ensures Inv(Open(limit))
  {
  }

  lemma {:induction false} StepKeepsInv(p: Pipe, e: Event)
    requires Inv(p) && Enabled(p, e)
    ensures Inv(Step(p, e)) && Step(p, e).limit == p.limit
  {
    hide SendQueue.Inv, Parse;
    match e
    case Sender(se) => SendQueue.StepKeepsInv(p.tx, se);
    case Deliver(n) =>
      ParseResumes(p.limit, p.received, p.channel[..n]);
      assert p.channel == p.channel[..n] + p.channel[n..];
    case ReadFailed =>
  }

  lemma DropKeepsInv(p: Pipe)
    requires Inv(p)
    ensures Inv(p.(tx := p.tx.(dropped := p.tx.dropped + 1)))
  {
    hide SendQueue.Inv, Parse;
    SendQueue.DropKeepsInv(p.tx);
  }

  /** What the receiver has after a delivery, in terms of what it had. */
  lemma DeliverStep(p: Pipe, n: nat)
    requires Inv(p) && Enabled(p, Deliver(n))
    ensures var q := Step(p, Deliver(n)); var more := Parse(p.limit, p.rx.rest + p.channel[..n]);
      && Inv(q) && q.limit == p.limit && q.tx == p.tx && q.channel == p.channel[n..]
      && q.rx == Prepend(p.rx.msgs, more)
      && (q.reading <==> more.verdict.Running?)
  {
    StepKeepsInv(p, Deliver(n));
    hide Parse, SendQueue.Inv;
  }

  /** No step takes back a message handed over. */
  lemma StepOnlyParsesOn(p: Pipe, e: Event)
    requires Enabled(p, e)
    ensures p.rx.msgs <= Step(p, e).rx.msgs
  {
    hide Parse;
  }

  /** Only a send changes what has been accepted or dropped. */
  lemma OnlySendAccepts(p: Pipe, e: Event)
    requires Enabled(p, e) && !(e.Sender? && e.e.Send?)
    ensures Step(p, e).tx.Accepted() == p.tx.Accepted()
    ensures Step(p, e).tx.dropped == p.tx.dropped
  {
    if e == Sender(SendQueue.Written) {
      assert p.tx.queue == [p.tx.queue[0]] + p.tx.queue[1..];
    }
  }

  lemma {:induction false} RunKeepsInv(p: Pipe, es: seq<Event>)
    requires Inv(p)
    ensures Inv(Run(p, es)) && Run(p, es).limit == p.limit
  {
    if es != [] {
      var before := Run(p, es[..|es| - 1]);
      RunKeepsInv(p, es[..|es| - 1]);
      hide Inv;
      if Enabled(before, es[|es| - 1]) {
        StepKeepsInv(before, es[|es| - 1]);
      }
    }
  }

  /** The messages before the first that the receiver refuses. */
  function Admitted(limit: int, ms: seq<Msg>): seq<Msg> {
    if ms == [] || !Within(limit, ms[0]) then [] else [ms[0]] + Admitted(limit, ms[1..])
  }

  lemma {:induction false} AdmittedIsLongest(limit: int, ms: seq<Msg>)
    ensures var a := Admitted(limit, ms);
      && a <= ms && AllWithin(limit, a)
      && (a != ms ==> !Within(limit, ms[|a|]))
  {
    if ms != [] && Within(limit, ms[0]) {
      AdmittedIsLongest(limit, ms[1..]);
      var a := Admitted(limit, ms[1..]);
      assert ms[1..][..|a|] == ms[1..|a| + 1];
      assert ([ms[0]] + a) == ms[..|a| + 1];
    }
  }

  /** A frame the sender can make and the receiver refuses announces itself in its header. */
  lemma RefusedHeader(limit: int, m: Msg, tail: seq<byte>)
    requires IsShort(m.id) && Framable(|m.body|) && !Within(limit, m)
    ensures HeaderOver(limit, Encode(m) + tail)
  {
    HeaderFields(m.id, |m.body|, m.body + tail);
    assert Encode(m) + tail == Header(m.id, |m.body|) + (m.body + tail);
  }

  /** The frames of the messages a sender accepts are parsed to the messages admitted. */
  lemma {:induction false} ParseOfFrames(limit: int, ms: seq<Msg>)
    requires SendQueue.AllFramable(ms)
    ensures var p := Parse(limit, Frames(ms)); var a := Admitted(limit, ms);
      && p.msgs == a
      && (p.verdict.Running? <==> a == ms)
      && (p.verdict.Rejected? <==> a != ms)
      && (a == ms ==> p.rest == [])
  {
    hide Parse, Frames, Encode, Within;
    var a := Admitted(limit, ms);
    AdmittedIsLongest(limit, ms);
    if a == ms {
      ParseFrames(limit, ms, []);
      ParseStuck(limit, [], Running);
      assert Frames(ms) + [] == Frames(ms) && ms + [] == ms;
    } else {
      var bad, more := ms[|a|], ms[|a| + 1..];
      assert ms == a + ([bad] + more);
      FramesConcat(a, [bad] + more);
      FramesConcat([bad], more);
      FramesOne(bad);
      RefusedHeader(limit, bad, Frames(more));
      RejectionCuts(limit, a, Encode(bad) + Frames(more));
    }
  }

  /** What is parsed out of the beginning of a stream begins what is parsed out of the stream. */
  lemma ParseMonotone(limit: int, s: seq<byte>, t: seq<byte>)
    requires s <= t
    ensures Parse(limit, s).msgs <= Parse(limit, t).msgs
  {
    ParseResumes(limit, s, t[|s|..]);
    assert s + t[|s|..] == t;
  }

  lemma Conserved(p: Pipe)
    requires Inv(p)
    ensures Frames(p.rx.msgs) + p.rx.rest + p.channel + SendQueue.Unsent(p.tx) == Frames(p.tx.Accepted())
  {
    hide Frames, Parse, SendQueue.Inv;
    SendQueue.Conserved(p.tx);
    ParseDecomposes(p.limit, p.received);
  }

  /** End-to-end conservation, in every run, whatever fails and whatever is refused: the frames
      of the messages handed over, the bytes held by the receiver, the bytes in transit, the
      unsent end of the front frame and the frames behind it are the frames accepted. */
  lemma {:induction false} Conservation(limit: int, es: seq<Event>)
    ensures var p := Run(Open(limit), es);
      && Inv(p)
      && Frames(p.rx.msgs) + p.rx.rest + p.channel + SendQueue.Unsent(p.tx) == Frames(p.tx.Accepted())
  {
    OpenInv(limit);
    RunKeepsInv(Open(limit), es);
    Conserved(Run(Open(limit), es));
  }

  lemma InOrder(p: Pipe)
    requires Inv(p)
    ensures p.rx.msgs <= Admitted(p.limit, p.tx.Accepted()) <= p.tx.Accepted()
  {
    hide Frames, Parse, SendQueue.Bytes;
    SendQueue.Conserved(p.tx);
    var all := Frames(p.tx.Accepted());
    assert p.received <= all by {
      assert all == p.received + (p.channel + SendQueue.Unsent(p.tx));
    }
    ParseMonotone(p.limit, p.received, all);
    ParseOfFrames(p.limit, p.tx.Accepted()) by {
      SendQueue.Framables(p.tx);
    }
    AdmittedIsLongest(p.limit, p.tx.Accepted());
  }

  /** In every run the messages handed over are the first of the messages accepted, and none of
      them is beyond the first message that the receiver refuses. */
  lemma {:induction false} HandedOverInOrder(limit: int, es: seq<Event>)
    ensures var p := Run(Open(limit), es);
      p.rx.msgs <= Admitted(limit, p.tx.Accepted()) <= p.tx.Accepted()
  {
    OpenInv(limit);
    RunKeepsInv(Open(limit), es);
    InOrder(Run(Open(limit), es));
  }

  predicate Quiet(p: Pipe) {
    p.tx.queue == [] && p.channel == []
  }

  /** Nothing more will be handed over: nothing is waiting or in transit, or the receiver has refused
      a message, whatever is still waiting or in transit behind it. */
  predicate Finished(p: Pipe) {
    Quiet(p) || p.rx.verdict.Rejected?
  }

  /** A refusal is final: what was handed over before it is everything admitted. */
  lemma RefusalIsFinal(p: Pipe)
    requires Inv(p) && p.rx.verdict.Rejected?
    ensures p.rx.msgs == Admitted(p.limit, p.tx.Accepted()) != p.tx.Accepted()
  {
    hide Frames, Parse, SendQueue.Bytes;
    SendQueue.Conserved(p.tx);
    var more := p.channel + SendQueue.Unsent(p.tx);
    assert Frames(p.tx.Accepted()) == p.received + more;
    ParseResumes(p.limit, p.received, more);
    ParseOfFrames(p.limit, p.tx.Accepted()) by {
      SendQueue.Framables(p.tx);
    }
  }

  lemma AtRest(p: Pipe)
    requires Inv(p) && Finished(p)
    ensures p.rx.msgs == Admitted(p.limit, p.tx.Accepted())
    ensures p.rx.msgs == p.tx.Accepted() <==> !p.rx.verdict.Rejected?
    ensures p.rx.msgs == p.tx.Accepted() ==> p.rx.rest == []
  {
    if p.rx.verdict.Rejected? {
      RefusalIsFinal(p);
    } else {
      hide Frames, Parse, SendQueue.Bytes;
      SendQueue.Conserved(p.tx);
      assert p.received == Frames(p.tx.Accepted()) by {
        assert p.received + [] + [] == p.received;
      }
      ParseOfFrames(p.limit, p.tx.Accepted()) by {
        SendQueue.Framables(p.tx);
      }
    }
  }

  /** Once nothing is waiting or in transit, or the receiver has refused a message, everything
      admitted has been handed over; and that is everything accepted exactly when the receiver
      refused nothing. */
  lemma {:induction false} AllHandedOver(limit: int, es: seq<Event>)
    requires Finished(Run(Open(limit), es))
    ensures var p := Run(Open(limit), es);
      && p.rx.msgs == Admitted(limit, p.tx.Accepted())
      && (p.rx.msgs == p.tx.Accepted() <==> !p.rx.verdict.Rejected?)
      && (p.rx.msgs == p.tx.Accepted() ==> p.rx.rest == [])
  {
    OpenInv(limit);
    RunKeepsInv(Open(limit), es);
    AtRest(Run(Open(limit), es));
  }

  /** The client, which checks nothing, admits every message a sender can frame. */
  lemma ClientRefusesNothing(p: Pipe)
    requires Inv(p) && p.limit == NO_LIMIT
    ensures Admitted(p.limit, p.tx.Accepted()) == p.tx.Accepted()
  {
    SendQueue.Framables(p.tx);
    AdmittedIsLongest(p.limit, p.tx.Accepted());
  }
}

/** The whole service: any number of clients, each connected by one pipe to the server and one
    back; the server's reading halves post to the one dispatcher; the worker's callbacks send the
    responses. Every interleaving of all their steps, and every failure, is a run. */
module Service {
  import opened Wire
  import opened FrameParser
  import SendQueue
  import Pipe
  import D = Dispatcher

  /** One session. `taken` of the messages parsed have been passed to `postMsgToQue`. `closed` says
      that EXIT's callback has closed the server's socket, and `final` what responses the session
      had accepted by then. */
  datatype Link = Link(up: Pipe.Pipe, down: Pipe.Pipe, taken: nat, closed: bool, final: seq<Msg>)

  /** Session `s` posts as poster `s` of the dispatcher. */
  datatype System = System(links: seq<Link>, disp: D.State)

  /** Something happens on a session's pipe to the server, the sends of its client among it; its
      reading half begins to post the next message; a thread of the dispatcher steps; the worker
      makes a callback, whose response, if any, has this body; something happens on a session's
      pipe to its client. */
  datatype Event =
    | Up(s: nat, e: Pipe.Event)
    | Post(s: nat)
    | Thread(de: D.Event)
    | Callback(body: seq<byte>)
    | Down(s: nat, e: Pipe.Event)

  const HELLO_ID := 1001

  const EXIT_ID := 1010

  /** The id of a message's response, if there is one. Every handler answers its own id, but the
      greeting answers the id inside the body, which `json` reads and `send` narrows to a `short`,
      and leaving answers nothing. */
  function Reply(json: seq<byte> -> int, m: Msg): (ids: seq<int>)
    ensures |ids| <= 1 && forall i :: 0 <= i < |ids| ==> IsShort(ids[i])
  {
    if !D.Registered(m.id) || m.id == EXIT_ID then []
    else if m.id == HELLO_ID then [ToShort(json(m.body))]
    else [m.id]
  }

  function Replies(json: seq<byte> -> int, ms: seq<Msg>): seq<int> {
    if ms == [] then [] else Replies(json, ms[..|ms| - 1]) + Reply(json, ms[|ms| - 1])
  }

  function Ids(ms: seq<Msg>): (ids: seq<int>)
    ensures |ids| == |ms|
  {
    seq(|ms|, i requires 0 <= i < |ms| => ms[i].id)
  }

  /** The messages of one session among the jobs of all. */
  function Of(s: nat, jobs: seq<D.Job>): seq<Msg> {
    if jobs == [] then []
    else if jobs[|jobs| - 1].session == s then Of(s, jobs[..|jobs| - 1]) + [jobs[|jobs| - 1].msg]
    else Of(s, jobs[..|jobs| - 1])
  }

  function Init(sessions: nat): System {
    System(seq(sessions, _ => Link(Pipe.Open(MAX_LENGTH), Pipe.Open(NO_LIMIT), 0, false, [])), D.Init(sessions))
  }

  /** The handler of session `s`'s last read has posted all it parsed and has returned. */
  predicate ReadDone(sys: System, s: nat)
    requires s < |sys.links| == |sys.disp.posters|
  {
    sys.links[s].taken == |sys.links[s].up.rx.msgs| && sys.disp.posters[s].Ready?
  }

  function NextJob(sys: System, s: nat): D.Job
    requires s < |sys.links| && sys.links[s].taken < |sys.links[s].up.rx.msgs|
  {
    D.Job(s, sys.links[s].up.rx.msgs[sys.links[s].taken])
  }

  predicate Enabled(json: seq<byte> -> int, sys: System, e: Event) {
    && |sys.links| == |sys.disp.posters|
    && match e
       case Up(s, pe) =>
         && s < |sys.links| && Pipe.Enabled(sys.links[s].up, pe)
         && (pe.Deliver? || pe.ReadFailed? ==> ReadDone(sys, s))
       case Post(s) =>
         && s < |sys.links| && sys.links[s].taken < |sys.links[s].up.rx.msgs|
         && D.Enabled(sys.disp, D.Acquire(s, NextJob(sys, s)))
       case Thread(de) =>
         D.Enabled(sys.disp, de) && !de.Acquire? && !(de.Work? && sys.disp.worker.Calling?)
       case Callback(body) =>
         && sys.disp.worker.Calling? && D.WorkEnabled(sys.disp)
         && sys.disp.queue[0].session < |sys.links|
         && Framable(|body|)
       case Down(s, pe) =>
         && s < |sys.links| && Pipe.Enabled(sys.links[s].down, pe) && !(pe.Sender? && pe.e.Send?)
         && !(pe.Sender? && pe.e.Move? && sys.links[s].closed)
  }

  /** A response goes into the send queue of the session the message came from. */
  function Respond(p: Pipe.Pipe, ids: seq<int>, body: seq<byte>): Pipe.Pipe
    requires |ids| <= 1 && (forall i :: 0 <= i < |ids| ==> IsShort(ids[i])) && Framable(|body|)
  {
    if ids == [] then p else Pipe.Step(p, Pipe.Sender(SendQueue.Send(Msg(ids[0], body))))
  }

  /** EXIT's callback closes the socket: no read is completed and no byte sent any more, while what
      is in transit still arrives. */
  function Close(link: Link): Link {
    if link.closed then link
    else link.(up := link.up.(reading := false), closed := true, final := link.down.tx.Accepted())
  }

  /** What the callback for `m` does to its session. */
  function Answer(json: seq<byte> -> int, link: Link, m: Msg, body: seq<byte>): Link
    requires Framable(|body|)
  {
    var answered := link.(down := Respond(link.down, Reply(json, m), body));
    if m.id == EXIT_ID then Close(answered) else answered
  }

  function Step(json: seq<byte> -> int, sys: System, e: Event): System
    requires Enabled(json, sys, e)
  {
    match e
    case Up(s, pe) =>
      sys.(links := sys.links[s := sys.links[s].(up := Pipe.Step(sys.links[s].up, pe))])
    case Post(s) =>
      System(sys.links[s := sys.links[s].(taken := sys.links[s].taken + 1)],
             D.Step(sys.disp, D.Acquire(s, NextJob(sys, s))))
    case Thread(de) => sys.(disp := D.Step(sys.disp, de))
    case Callback(body) =>
      var job := sys.disp.queue[0];
      var s := job.session;
      System(sys.links[s := Answer(json, sys.links[s], job.msg, body)], D.WorkStep(sys.disp))
    case Down(s, pe) =>
      sys.(links := sys.links[s := sys.links[s].(down := Pipe.Step(sys.links[s].down, pe))])
  }

  /** Every run: the events that are not enabled where they stand do not happen. */
  function Run(json: seq<byte> -> int, sys: System, es: seq<Event>): System {
    if es == [] then sys
    else
      var before := Run(json, sys, es[..|es| - 1]);
      var e := es[|es| - 1];
      if Enabled(json, before, e) then Step(json, before, e) else before
  }

  /** The message a poster holds and has not pushed yet. */
  function InHand(p: D.PosterPc): seq<Msg> {
    if p.Holding? then [p.job.msg] else []
  }

  /** What a session has posted is what it has parsed, in order, as far as it has got. */
  predicate PostedInOrder(link: Link, poster: D.PosterPc, posted: seq<Msg>) {
    && link.taken <= |link.up.rx.msgs|
    && posted + InHand(poster) == link.up.rx.msgs[..link.taken]
  }

  /** `a` is `b` with some ids left out. */
  predicate Thinned(a: seq<int>, b: seq<int>)
    decreases |b|
  {
    || a == []
    || (b != [] && a[|a| - 1] == b[|b| - 1] && Thinned(a[..|a| - 1], b[..|b| - 1]))
    || (b != [] && Thinned(a, b[..|b| - 1]))
  }

  /** The responses are, in order, some of those due for the callbacks made, namely all but as many as
      were dropped. */
  predicate AnsweredInOrder(json: seq<byte> -> int, down: Pipe.Pipe, answered: seq<Msg>) {
    && Thinned(Ids(down.tx.Accepted()), Replies(json, answered))
    && |Replies(json, answered)| == |down.tx.Accepted()| + down.tx.dropped
    && (down.tx.dropped == 0 ==> Ids(down.tx.Accepted()) == Replies(json, answered))
  }

  predicate Exits(ms: seq<Msg>) {
    ms != [] && (Exits(ms[..|ms| - 1]) || ms[|ms| - 1].id == EXIT_ID)
  }

  /** The messages before the first EXIT. */
  function BeforeExit(ms: seq<Msg>): seq<Msg> {
    if Exits(ms) then BeforeExit(ms[..|ms| - 1]) else ms
  }

  /** A session is closed exactly if EXIT was called for it. Then nothing beyond the responses it
      had accepted goes out, and those are some of the replies due before that EXIT, and all of them
      if none was dropped. */
  predicate ClosedByExit(json: seq<byte> -> int, link: Link, answered: seq<Msg>) {
    && (link.closed <==> Exits(answered))
    && (link.closed ==> link.final <= link.down.tx.Accepted() && link.down.tx.wire <= Frames(link.final))
    && (link.closed ==> Thinned(Ids(link.final), Replies(json, BeforeExit(answered))))
    && (link.closed && link.down.tx.dropped == 0 ==> Ids(link.final) == Replies(json, BeforeExit(answered)))
  }

  predicate LinkInv(json: seq<byte> -> int, sys: System, s: nat)
    requires s < |sys.links| == |sys.disp.posters|
  {
    var link := sys.links[s];
    && Pipe.Inv(link.up) && link.up.limit == MAX_LENGTH
    && Pipe.Inv(link.down) && link.down.limit == NO_LIMIT
    && (sys.disp.posters[s].Holding? ==> sys.disp.posters[s].job.session == s)
    && PostedInOrder(link, sys.disp.posters[s], Of(s, sys.disp.pushed))
    && AnsweredInOrder(json, link.down, Of(s, sys.disp.called))
    && ClosedByExit(json, link, Of(s, sys.disp.called))
    && (link.closed ==> !link.up.reading)
  }

  /** Every job comes from a session there is. */
  predicate KnownSessions(sys: System) {
    forall i :: 0 <= i < |sys.disp.queue| ==> sys.disp.queue[i].session < |sys.links|
  }

  predicate Inv(json: seq<byte> -> int, sys: System) {
    && |sys.links| == |sys.disp.posters|
    && D.Inv(sys.disp)
    && KnownSessions(sys)
    && forall s :: 0 <= s < |sys.links| ==> LinkInv(json, sys, s)
  }

  lemma InitInv(json: seq<byte> -> int, sessions: nat)
    ensures Inv(json, Init(sessions))
  {
    D.InitInv(sessions);
    Pipe.OpenInv(MAX_LENGTH);
    Pipe.OpenInv(NO_LIMIT);
  }

  lemma OfMore(s: nat, jobs: seq<D.Job>, job: D.Job)
    ensures job.session == s ==> Of(s, jobs + [job]) == Of(s, jobs) + [job.msg]
    ensures job.session != s ==> Of(s, jobs + [job]) == Of(s, jobs)
  {
    assert (jobs + [job])[..|jobs|] == jobs;
  }

  lemma RepliesMore(json: seq<byte> -> int, ms: seq<Msg>, m: Msg)
    ensures Replies(json, ms + [m]) == Replies(json, ms) + Reply(json, m)
  {
    assert (ms + [m])[..|ms|] == ms;
  }

  lemma UpKeepsInv(json: seq<byte> -> int, sys: System, s: nat, pe: Pipe.Event)
    requires Inv(json, sys) && Enabled(json, sys, Up(s, pe))
    ensures Inv(json, Step(json, sys, Up(s, pe)))
  {
    hide Pipe.Inv, D.Inv, Of, Replies, Thinned, Exits, BeforeExit;
    assert LinkInv(json, sys, s);
    Pipe.StepKeepsInv(sys.links[s].up, pe);
    Pipe.StepOnlyParsesOn(sys.links[s].up, pe);
    var t := Step(json, sys, Up(s, pe));
    forall r | 0 <= r < |t.links| ensures LinkInv(json, t, r) {
      assert LinkInv(json, sys, r);
    }
  }

  lemma DownKeepsInv(json: seq<byte> -> int, sys: System, s: nat, pe: Pipe.Event)
    requires Inv(json, sys) && Enabled(json, sys, Down(s, pe))
    ensures Inv(json, Step(json, sys, Down(s, pe)))
  {
    hide Pipe.Inv, D.Inv, Of, Replies, Thinned, Exits, BeforeExit;
    assert LinkInv(json, sys, s);
    Pipe.StepKeepsInv(sys.links[s].down, pe);
    Pipe.OnlySendAccepts(sys.links[s].down, pe);
    var t := Step(json, sys, Down(s, pe));
    forall r | 0 <= r < |t.links| ensures LinkInv(json, t, r) {
      assert LinkInv(json, sys, r);
    }
  }

  lemma PostKeepsInv(json: seq<byte> -> int, sys: System, s: nat)
    requires Inv(json, sys) && Enabled(json, sys, Post(s))
    ensures Inv(json, Step(json, sys, Post(s)))
  {
    hide Pipe.Inv, D.Inv, Of, Replies, Thinned, Exits, BeforeExit;
    D.StepKeepsInv(sys.disp, D.Acquire(s, NextJob(sys, s)));
    var t := Step(json, sys, Post(s));
    forall r | 0 <= r < |t.links| ensures LinkInv(json, t, r) {
      assert LinkInv(json, sys, r);
      var msgs, taken := sys.links[s].up.rx.msgs, sys.links[s].taken;
      assert msgs[..taken + 1] == msgs[..taken] + [msgs[taken]];
    }
  }

  lemma ThreadKeepsInv(json: seq<byte> -> int, sys: System, de: D.Event)
    requires Inv(json, sys) && Enabled(json, sys, Thread(de))
    ensures Inv(json, Step(json, sys, Thread(de)))
  {
    hide Pipe.Inv, D.Inv, Of, Replies, Thinned, Exits, BeforeExit;
    D.StepKeepsInv(sys.disp, de);
    var t := Step(json, sys, Thread(de));
    if de.Push? {
      assert LinkInv(json, sys, de.i);
    }
    forall r | 0 <= r < |t.links| ensures LinkInv(json, t, r) {
      assert LinkInv(json, sys, r);
      if de.Push? {
        OfMore(r, sys.disp.pushed, sys.disp.posters[de.i].job);
      }
    }
  }

  lemma ThinnedOne(a: seq<int>, b: seq<int>, ids: seq<int>)
    requires Thinned(a, b) && |ids| <= 1
    ensures Thinned(a, b + ids) && Thinned(a + ids, b + ids)
  {
    if ids == [] {
      assert a + ids == a && b + ids == b;
    } else {
      assert (a + ids)[..|a|] == a && (b + ids)[..|b|] == b;
    }
  }

  lemma {:induction false} ThinnedMore(a: seq<int>, b: seq<int>, c: seq<int>)
    requires Thinned(a, b) && b <= c
    ensures Thinned(a, c)
    decreases |c|
  {
    if b == c {
      assert b == c;
    } else {
      ThinnedMore(a, b, c[..|c| - 1]);
    }
  }

  lemma {:induction false} ThinnedPrefix(x: seq<int>, a: seq<int>, b: seq<int>)
    requires x <= a && Thinned(a, b)
    ensures Thinned(x, b)
    decreases |b|
  {
    if x != a && a != [] {
      var most := b[..|b| - 1];
      if a[|a| - 1] == b[|b| - 1] && Thinned(a[..|a| - 1], most) {
        ThinnedPrefix(x, a[..|a| - 1], most);
      } else {
        ThinnedPrefix(x, a, most);
      }
    }
  }

  lemma BeforeExitMore(ms: seq<Msg>, m: Msg)
    ensures Exits(ms + [m]) <==> Exits(ms) || m.id == EXIT_ID
    ensures BeforeExit(ms + [m]) == if Exits(ms + [m]) then BeforeExit(ms) else ms + [m]
    ensures !Exits(ms) ==> BeforeExit(ms) == ms
  {
    assert (ms + [m])[..|ms|] == ms;
  }

  lemma StopReading(p: Pipe.Pipe)
    requires Pipe.Inv(p)
    ensures Pipe.Inv(p.(reading := false))
  {
    hide SendQueue.Inv, Parse;
  }

  lemma SentAccepted(p: Pipe.Pipe)
    requires Pipe.Inv(p)
    ensures p.tx.wire <= Frames(p.tx.Accepted())
  {
    hide Frames, SendQueue.Bytes;
    SendQueue.Conserved(p.tx);
  }

  lemma Responded(p: Pipe.Pipe, ids: seq<int>, body: seq<byte>)
    requires Pipe.Inv(p)
    requires |ids| <= 1 && (forall i :: 0 <= i < |ids| ==> IsShort(ids[i])) && Framable(|body|)
    ensures var q := Respond(p, ids, body);
      && Pipe.Inv(q) && q.limit == p.limit
      && q.tx.wire == p.tx.wire && p.tx.Accepted() <= q.tx.Accepted() && p.tx.dropped <= q.tx.dropped
      && (ids == [] ==> q == p)
      && (Ids(q.tx.Accepted()) == Ids(p.tx.Accepted()) || Ids(q.tx.Accepted()) == Ids(p.tx.Accepted()) + ids)
      && |q.tx.Accepted()| + q.tx.dropped == |p.tx.Accepted()| + p.tx.dropped + |ids|
      && (q.tx.dropped == 0 ==> p.tx.dropped == 0 && Ids(q.tx.Accepted()) == Ids(p.tx.Accepted()) + ids)
  {
    hide Pipe.Inv;
    if ids != [] {
      var m := Msg(ids[0], body);
      var e := Pipe.Sender(SendQueue.Send(m));
      Pipe.StepKeepsInv(p, e);
      var q := Pipe.Step(p, e);
      assert q.tx.Accepted() == p.tx.Accepted() + [m] || q.tx.Accepted() == p.tx.Accepted();
    }
  }

  lemma NoReplyToExit(json: seq<byte> -> int, m: Msg)
    ensures m.id == EXIT_ID ==> Reply(json, m) == []
  {
  }

  lemma AnswerKeeps(json: seq<byte> -> int, link: Link, m: Msg, body: seq<byte>, answered: seq<Msg>)
    requires Pipe.Inv(link.down) && Pipe.Inv(link.up) && Framable(|body|)
    requires AnsweredInOrder(json, link.down, answered) && ClosedByExit(json, link, answered)
    ensures var l := Answer(json, link, m, body);
      && Pipe.Inv(l.up) && l.up.limit == link.up.limit && l.up.rx == link.up.rx && l.taken == link.taken
      && ((link.closed ==> !link.up.reading) ==> (l.closed ==> !l.up.reading))
      && Pipe.Inv(l.down) && l.down.limit == link.down.limit
      && AnsweredInOrder(json, l.down, answered + [m]) && ClosedByExit(json, l, answered + [m])
  {
    hide Pipe.Inv, Replies, Exits, BeforeExit, Thinned, Reply;
    Responded(link.down, Reply(json, m), body);
    RepliesMore(json, answered, m);
    ThinnedOne(Ids(link.down.tx.Accepted()), Replies(json, answered), Reply(json, m));
    NoReplyToExit(json, m);
    BeforeExitMore(answered, m);
    if m.id == EXIT_ID && !link.closed {
      StopReading(link.up);
      SentAccepted(link.down);
      assert Replies(json, answered) + [] == Replies(json, answered);
    }
  }

  lemma CallbackKeepsInv(json: seq<byte> -> int, sys: System, body: seq<byte>)
    requires Inv(json, sys) && Enabled(json, sys, Callback(body))
    ensures Inv(json, Step(json, sys, Callback(body)))
  {
    hide Pipe.Inv, D.Inv, Of, Replies, Exits, BeforeExit, Answer, ClosedByExit, AnsweredInOrder;
    var job := sys.disp.queue[0];
    var s := job.session;
    D.StepKeepsInv(sys.disp, D.Work);
    var t := Step(json, sys, Callback(body));
    forall r | 0 <= r < |t.links| ensures LinkInv(json, t, r) {
      assert LinkInv(json, sys, r);
      OfMore(r, sys.disp.called, job);
      if r == s {
        AnswerKeeps(json, sys.links[s], job.msg, body, Of(s, sys.disp.called));
      }
    }
  }

  lemma StepKeepsInv(json: seq<byte> -> int, sys: System, e: Event)
    requires Inv(json, sys) && Enabled(json, sys, e)
    ensures Inv(json, Step(json, sys, e)) && |Step(json, sys, e).links| == |sys.links|
  {
    match e
    case Up(s, pe) => UpKeepsInv(json, sys, s, pe);
    case Post(s) => PostKeepsInv(json, sys, s);
    case Thread(de) => ThreadKeepsInv(json, sys, de);
    case Callback(body) => CallbackKeepsInv(json, sys, body);
    case Down(s, pe) => DownKeepsInv(json, sys, s, pe);
  }

  lemma {:induction false} RunKeepsInv(json: seq<byte> -> int, sys: System, es: seq<Event>)
    requires Inv(json, sys)
    ensures Inv(json, Run(json, sys, es)) && |Run(json, sys, es).links| == |sys.links|
  {
    if es != [] {
      var before := Run(json, sys, es[..|es| - 1]);
      RunKeepsInv(json, sys, es[..|es| - 1]);
      hide Inv;
      if Enabled(json, before, es[|es| - 1]) {
        StepKeepsInv(json, before, es[|es| - 1]);
      }
    }
  }

  /** Every run of a service with any number of sessions. */
  lemma Reachable(json: seq<byte> -> int, sessions: nat, es: seq<Event>)
    ensures var sys := Run(json, Init(sessions), es);
      Inv(json, sys) && |sys.links| == sessions
  {
    InitInv(json, sessions);
    RunKeepsInv(json, Init(sessions), es);
  }

  /** Which responses are due, by the ids: the greeting answers the id in its body, a request from
      1002 to 1009 its own, and neither 1010 nor any other message answers at all. */
  lemma ReplyIds(json: seq<byte> -> int, m: Msg)
    ensures m.id == 1001 ==>
      |Reply(json, m)| == 1 && (Reply(json, m)[0] - json(m.body)) % 0x1_0000 == 0 && IsShort(Reply(json, m)[0])
    ensures 1002 <= m.id <= 1009 ==> Reply(json, m) == [m.id]
    ensures m.id <= 1000 || 1010 <= m.id ==> Reply(json, m) == []
  {
    NarrowingWraps(json(m.body));
  }

  lemma ClosedStep(json: seq<byte> -> int, sys: System, e: Event, s: nat)
    requires Enabled(json, sys, e) && s < |sys.links| && sys.links[s].closed && !sys.links[s].up.reading
    ensures |Step(json, sys, e).links| == |sys.links|
    ensures var l, m := sys.links[s], Step(json, sys, e).links[s];
      m.closed && !m.up.reading && m.up.received == l.up.received && m.up.rx == l.up.rx
      && m.down.tx.wire == l.down.tx.wire && m.final == l.final
  {
    hide Parse, D.Step, D.WorkStep, D.Enabled, Reply;
  }

  /** In every continuation a closed session stays closed: nothing more is read from its client,
      parsed or sent out to it, whatever arrives. */
  lemma {:induction false} NothingAfterExit(json: seq<byte> -> int, sys: System, es: seq<Event>, s: nat)
    requires Inv(json, sys) && s < |sys.links| && sys.links[s].closed
    ensures |Run(json, sys, es).links| == |sys.links|
    ensures var l, m := sys.links[s], Run(json, sys, es).links[s];
      m.closed && !m.up.reading && m.up.received == l.up.received && m.up.rx == l.up.rx
      && m.down.tx.wire == l.down.tx.wire && m.final == l.final
  {
    assert LinkInv(json, sys, s);
    if es != [] {
      var before := Run(json, sys, es[..|es| - 1]);
      RunKeepsInv(json, sys, es[..|es| - 1]);
      NothingAfterExit(json, sys, es[..|es| - 1], s);
      hide Run, Inv;
      if Enabled(json, before, es[|es| - 1]) {
        ClosedStep(json, before, es[|es| - 1], s);
      }
    }
  }

  lemma RespondSends(p: Pipe.Pipe, ids: seq<int>, body: seq<byte>)
    requires |ids| <= 1 && (forall i :: 0 <= i < |ids| ==> IsShort(ids[i])) && Framable(|body|)
    ensures var t, u := p.tx, Respond(p, ids, body).tx;
      && (ids == [] ==> u == t)
      && (ids != [] && |t.queue| <= 1000 ==>
            u.Accepted() == t.Accepted() + [Msg(ids[0], body)] && u.dropped == t.dropped)
      && (ids != [] && |t.queue| >= 1001 ==> u == t.(dropped := t.dropped + 1))
  {
    assert p.tx.gone + p.tx.queue == p.tx.Accepted();
  }

  /** What a callback sends: nothing if no response is due, and otherwise its response, unless the
      session's send queue already holds 1001 entries. */
  lemma CallbackSends(json: seq<byte> -> int, sys: System, body: seq<byte>)
    requires Enabled(json, sys, Callback(body))
    ensures var job := sys.disp.queue[0];
      var t, u := sys.links[job.session].down.tx, Step(json, sys, Callback(body)).links[job.session].down.tx;
      && (Reply(json, job.msg) == [] ==> u == t)
      && (Reply(json, job.msg) != [] && |t.queue| <= 1000 ==>
            u.Accepted() == t.Accepted() + [Msg(Reply(json, job.msg)[0], body)] && u.dropped == t.dropped)
      && (Reply(json, job.msg) != [] && |t.queue| >= 1001 ==> u == t.(dropped := t.dropped + 1))
  {
    var job := sys.disp.queue[0];
    var l := sys.links[job.session];
    hide Parse, D.WorkStep, D.WorkEnabled, D.Enabled, Reply, Respond, NextJob, Pipe.Step, Pipe.Enabled;
    RespondSends(l.down, Reply(json, job.msg), body);
    assert Answer(json, l, job.msg, body).down == Respond(l.down, Reply(json, job.msg), body);
  }

  /** EXIT's callback closes the session, and no other does. */
  lemma ExitCloses(json: seq<byte> -> int, sys: System, body: seq<byte>)
    requires Enabled(json, sys, Callback(body))
    ensures var job := sys.disp.queue[0]; var l := sys.links[job.session];
      var m := Step(json, sys, Callback(body)).links[job.session];
      && (m.closed <==> l.closed || job.msg.id == 1010)
      && (m.closed && !l.closed ==> !m.up.reading && m.final == l.down.tx.Accepted() && m.down == l.down)
  {
    hide Parse, D.WorkStep;
  }

  lemma {:induction false} OfConcat(s: nat, a: seq<D.Job>, b: seq<D.Job>)
    ensures Of(s, a + b) == Of(s, a) + Of(s, b)
  {
    if b == [] {
      assert a + b == a;
    } else {
      var most, last := b[..|b| - 1], b[|b| - 1];
      assert a + b == (a + most) + [last];
      OfConcat(s, a, most);
      OfMore(s, a + most, last);
    }
  }

  lemma {:induction false} RepliesConcat(json: seq<byte> -> int, a: seq<Msg>, b: seq<Msg>)
    ensures Replies(json, a + b) == Replies(json, a) + Replies(json, b)
  {
    assert Replies(json, []) == [];
    hide Reply, Replies;
    if b == [] {
      assert a + b == a;
    } else {
      var most, last := b[..|b| - 1], b[|b| - 1];
      assert b == most + [last] && a + b == (a + most) + [last];
      RepliesConcat(json, a, most);
      RepliesMore(json, a + most, last);
      RepliesMore(json, most, last);
    }
  }

  lemma RepliesMonotone(json: seq<byte> -> int, a: seq<Msg>, b: seq<Msg>)
    requires a <= b
    ensures Replies(json, a) <= Replies(json, b)
  {
    assert b == a + b[|a|..];
    RepliesConcat(json, a, b[|a|..]);
  }

  lemma {:induction false} NoExit(ms: seq<Msg>)
    ensures !Exits(ms) <==> forall i :: 0 <= i < |ms| ==> ms[i].id != EXIT_ID
  {
    if ms != [] {
      var most := ms[..|ms| - 1];
      NoExit(most);
      assert forall i :: 0 <= i < |most| ==> most[i] == ms[i];
    }
  }

  /** The messages before the first EXIT are all the messages, or the first ones up to an EXIT. */
  lemma {:induction false} BeforeExitIsLongest(ms: seq<Msg>)
    ensures var b := BeforeExit(ms);
      && b <= ms && !Exits(b)
      && (b != ms ==> ms[|b|].id == EXIT_ID)
      && (forall i :: 0 <= i < |b| ==> b[i].id != EXIT_ID)
  {
    if Exits(ms) {
      var most := ms[..|ms| - 1];
      BeforeExitIsLongest(most);
      var b := BeforeExit(ms);
      assert b != most ==> ms[|b|] == most[|b|];
      NoExit(most);
    } else {
      NoExit(ms);
    }
  }

  lemma BeforeExitMonotone(a: seq<Msg>, b: seq<Msg>)
    requires a <= b
    ensures BeforeExit(a) <= BeforeExit(b)
  {
    BeforeExitIsLongest(a);
    BeforeExitIsLongest(b);
    hide BeforeExit, Exits;
    var x, y := BeforeExit(a), BeforeExit(b);
    assert forall i :: 0 <= i < |x| ==> b[i] == x[i];
  }

  lemma HandledReplies(json: seq<byte> -> int, handled: seq<Msg>, all: seq<Msg>, m: Msg)
    requires Exits(handled) <==> Exits(all)
    requires Replies(json, BeforeExit(handled)) == Replies(json, BeforeExit(all))
    requires Replies(json, handled) == Replies(json, all)
    ensures var more := if D.Registered(m.id) then handled + [m] else handled;
      && (Exits(more) <==> Exits(all + [m]))
      && Replies(json, BeforeExit(more)) == Replies(json, BeforeExit(all + [m]))
      && Replies(json, more) == Replies(json, all + [m])
  {
    BeforeExitMore(handled, m);
    BeforeExitMore(all, m);
    RepliesMore(json, handled, m);
    RepliesMore(json, all, m);
    hide Replies, BeforeExit, Exits;
    assert Replies(json, all) + [] == Replies(json, all);
  }

  /** Passing over the ids without a handler loses no reply due before the first EXIT. */
  lemma {:induction false} RepliesOfHandled(json: seq<byte> -> int, s: nat, jobs: seq<D.Job>)
    ensures Exits(Of(s, D.Handled(jobs))) <==> Exits(Of(s, jobs))
    ensures Replies(json, BeforeExit(Of(s, D.Handled(jobs)))) == Replies(json, BeforeExit(Of(s, jobs)))
    ensures Replies(json, Of(s, D.Handled(jobs))) == Replies(json, Of(s, jobs))
  {
    if jobs != [] {
      var most, last := jobs[..|jobs| - 1], jobs[|jobs| - 1];
      assert jobs == most + [last];
      RepliesOfHandled(json, s, most);
      D.HandledMore(most, last);
      OfMore(s, most, last);
      assert D.Handled(most) + [] == D.Handled(most);
      if last.session == s {
        OfMore(s, D.Handled(most), last);
        hide Of, Replies, BeforeExit, Exits, D.Handled, Reply;
        HandledReplies(json, Of(s, D.Handled(most)), Of(s, most), last.msg);
      } else {
        OfMore(s, D.Handled(most), last);
      }
    }
  }

  /** The requests of a session that the server does not refuse. */
  function Admitted(link: Link): seq<Msg> {
    Pipe.Admitted(MAX_LENGTH, link.up.tx.Accepted())
  }

  lemma RepliesBeforeExit(json: seq<byte> -> int, a: seq<Msg>, b: seq<Msg>)
    requires a <= b
    ensures Replies(json, BeforeExit(a)) <= Replies(json, BeforeExit(b))
  {
    BeforeExitMonotone(a, b);
    RepliesMonotone(json, BeforeExit(a), BeforeExit(b));
  }

  lemma CalledOf(d: D.State, s: nat)
    requires D.Fifo(d)
    ensures Of(s, d.called) <= Of(s, D.Handled(d.pushed))
  {
    hide Of, D.Handled, D.Fifo;
    D.CalledBegins(d);
    var handled := D.Handled(d.pushed);
    assert handled == d.called + handled[|d.called|..];
    OfConcat(s, d.called, handled[|d.called|..]);
  }

  /** The callbacks made for a session answer no more than what it has posted. */
  lemma CalledOfSession(json: seq<byte> -> int, d: D.State, s: nat)
    requires D.Fifo(d)
    ensures Replies(json, BeforeExit(Of(s, d.called))) <= Replies(json, BeforeExit(Of(s, d.pushed)))
  {
    hide Of, Replies, BeforeExit, Exits, D.Handled, D.Fifo;
    CalledOf(d, s);
    RepliesBeforeExit(json, Of(s, d.called), Of(s, D.Handled(d.pushed)));
    RepliesOfHandled(json, s, d.pushed);
  }

  lemma FirstFramable(a: seq<Msg>, b: seq<Msg>)
    requires a <= b && SendQueue.AllFramable(b)
    ensures SendQueue.AllFramable(a)
  {
  }

  /** What a client has received answers callbacks made before EXIT's, in order, and leaves out none
      among them if no response was dropped. */
  lemma Received(json: seq<byte> -> int, link: Link, answered: seq<Msg>)
    requires Pipe.Inv(link.down) && link.down.limit == NO_LIMIT
    requires AnsweredInOrder(json, link.down, answered) && ClosedByExit(json, link, answered)
    ensures Thinned(Ids(link.down.rx.msgs), Replies(json, BeforeExit(answered)))
    ensures link.down.tx.dropped == 0 ==> Ids(link.down.rx.msgs) <= Replies(json, BeforeExit(answered))
    ensures link.closed ==> link.down.rx.msgs <= link.final
  {
    var p := link.down;
    hide Replies, BeforeExit, Exits, Frames, Parse, Pipe.Admitted, SendQueue.Inv, Thinned;
    if link.closed {
      assert p.received <= Frames(link.final);
      Pipe.ParseMonotone(NO_LIMIT, p.received, Frames(link.final));
      SendQueue.Framables(p.tx);
      FirstFramable(link.final, p.tx.Accepted());
      Pipe.ParseOfFrames(NO_LIMIT, link.final);
      Pipe.AdmittedIsLongest(NO_LIMIT, link.final);
      ThinnedPrefix(Ids(p.rx.msgs), Ids(link.final), Replies(json, BeforeExit(answered)));
    } else {
      Pipe.InOrder(p);
      BeforeExitMore(answered, Msg(0, []));
      ThinnedPrefix(Ids(p.rx.msgs), Ids(p.tx.Accepted()), Replies(json, BeforeExit(answered)));
    }
  }

  lemma OrderedOn(json: seq<byte> -> int, link: Link, d: D.State, s: nat)
    requires D.Fifo(d) && s < |d.posters| && PostedInOrder(link, d.posters[s], Of(s, d.pushed))
    requires Pipe.Inv(link.up) && link.up.limit == MAX_LENGTH
    requires Pipe.Inv(link.down) && link.down.limit == NO_LIMIT
    requires AnsweredInOrder(json, link.down, Of(s, d.called)) && ClosedByExit(json, link, Of(s, d.called))
    ensures var ids, due := Ids(link.down.rx.msgs), Replies(json, BeforeExit(Admitted(link)));
      && Thinned(ids, due) && (link.down.tx.dropped == 0 ==> ids <= due)
      && due <= Replies(json, BeforeExit(link.up.tx.Accepted()))
  {
    hide D.Fifo, Pipe.Inv, Of, Replies, BeforeExit, Pipe.Admitted, ClosedByExit, AnsweredInOrder, Thinned;
    Received(json, link, Of(s, d.called));
    CalledOfSession(json, d, s);
    Pipe.InOrder(link.up);
    RepliesBeforeExit(json, Of(s, d.pushed), Admitted(link));
    RepliesBeforeExit(json, Admitted(link), link.up.tx.Accepted());
    ThinnedMore(Ids(link.down.rx.msgs), Replies(json, BeforeExit(Of(s, d.called))),
                Replies(json, BeforeExit(Admitted(link))));
  }

  lemma Ordered(json: seq<byte> -> int, sys: System, s: nat)
    requires Inv(json, sys) && s < |sys.links|
    ensures var link := sys.links[s];
      var ids, due := Ids(link.down.rx.msgs), Replies(json, BeforeExit(Admitted(link)));
      && Thinned(ids, due) && (link.down.tx.dropped == 0 ==> ids <= due)
      && due <= Replies(json, BeforeExit(link.up.tx.Accepted()))
  {
    assert LinkInv(json, sys, s);
    assert D.Fifo(sys.disp);
    hide D.Inv, D.Fifo, Pipe.Inv, Of, Replies, BeforeExit, ClosedByExit, AnsweredInOrder, Admitted, Thinned;
    OrderedOn(json, sys.links[s], sys.disp, s);
  }

  /** Request and response order: in every run of every interleaving of every number of clients, the
      ids that a session's client has received are, in order, some of the replies due to the
      requests its session accepted before the first EXIT among them; and as long as no response of
      the session was dropped, they are the first of those replies, with none left out. */
  lemma {:induction false} ResponsesInOrder(json: seq<byte> -> int, sessions: nat, es: seq<Event>, s: nat)
    requires s < sessions
    ensures var sys := Run(json, Init(sessions), es);
      && |sys.links| == sessions
      && var link := sys.links[s];
         var ids, due := Ids(link.down.rx.msgs), Replies(json, BeforeExit(Admitted(link)));
         && Thinned(ids, due) && (link.down.tx.dropped == 0 ==> ids <= due)
         && due <= Replies(json, BeforeExit(link.up.tx.Accepted()))
  {
    Reachable(json, sessions, es);
    var sys := Run(json, Init(sessions), es);
    hide Run, Inv, Replies, BeforeExit, Thinned;
    Ordered(json, sys, s);
  }

  /** No response of session `s` is in transit. If EXIT has not closed the session, none is waiting
      either, nothing parsed is still to be posted, and no job is queued. */
  predicate AtRest(sys: System, s: nat)
    requires s < |sys.links| == |sys.disp.posters|
  {
    var link := sys.links[s];
    link.down.channel == [] && (link.closed || (link.down.tx.queue == [] && ReadDone(sys, s) && sys.disp.queue == []))
  }

  /** What the session had accepted when EXIT closed it, if it did, has all gone out. */
  predicate NothingCutOff(link: Link) {
    link.closed ==> link.down.tx.wire == Frames(link.final)
  }

  lemma FramesShorter(a: seq<Msg>, b: seq<Msg>)
    requires a <= b && Frames(b) <= Frames(a)
    ensures a == b
  {
    hide Encode;
    var more := b[|a|..];
    assert b == a + more;
    FramesConcat(a, more);
    assert more != [] ==> |Frames(more)| >= HEAD_TOTAL_LEN;
  }

  lemma NoneRefused(ms: seq<Msg>)
    requires SendQueue.AllFramable(ms)
    ensures Pipe.Admitted(NO_LIMIT, ms) == ms
  {
    Pipe.AdmittedIsLongest(NO_LIMIT, ms);
  }

  /** Of a closed session everything in `final` is received exactly when all of it went out. */
  lemma CutOff(link: Link)
    requires Pipe.Inv(link.down) && link.down.limit == NO_LIMIT && link.down.channel == []
    requires link.final <= link.down.tx.Accepted() && link.down.tx.wire <= Frames(link.final)
    requires link.down.rx.msgs <= link.final
    ensures link.down.rx.msgs == link.final <==> link.down.tx.wire == Frames(link.final)
  {
    var p := link.down;
    hide Frames, Parse, Pipe.Admitted, SendQueue.Inv;
    assert p.received == p.tx.wire by {
      assert p.received + [] == p.received;
    }
    ParseDecomposes(NO_LIMIT, p.received);
    SendQueue.Framables(p.tx);
    FirstFramable(link.final, p.tx.Accepted());
    Pipe.ParseOfFrames(NO_LIMIT, link.final);
    NoneRefused(link.final);
    hide Stuck, AllWithin;
    assert p.rx.msgs == link.final ==> |p.tx.wire| >= |Frames(link.final)|;
  }

  /** With no response in transit, or waiting unless the session is closed, a client has received
      what answers the callbacks made before EXIT's exactly when closing cut nothing off. */
  lemma AllReceived(json: seq<byte> -> int, link: Link, answered: seq<Msg>)
    requires Pipe.Inv(link.down) && link.down.limit == NO_LIMIT && link.down.tx.dropped == 0
    requires AnsweredInOrder(json, link.down, answered) && ClosedByExit(json, link, answered)
    requires link.down.channel == [] && (link.closed || link.down.tx.queue == [])
    ensures Ids(link.down.rx.msgs) == Replies(json, BeforeExit(answered)) <==> NothingCutOff(link)
  {
    if link.closed {
      Received(json, link, answered);
      CutOff(link);
      hide Replies, BeforeExit, Exits, Frames, Pipe.Inv, Thinned;
      assert |link.down.rx.msgs| == |link.final| ==> link.down.rx.msgs == link.final;
    } else {
      hide Replies, BeforeExit, Exits, Frames, Pipe.Inv, Thinned;
      Pipe.AtRest(link.down);
      Pipe.ClientRefusesNothing(link.down);
      BeforeExitMore(answered, Msg(0, []));
    }
  }

  /** Nothing behind an EXIT changes what comes before it. */
  lemma {:induction false} BeforeExitFixed(a: seq<Msg>, b: seq<Msg>)
    requires a <= b && Exits(a)
    ensures Exits(b) && BeforeExit(b) == BeforeExit(a)
    decreases |b|
  {
    if a != b {
      BeforeExitFixed(a, b[..|b| - 1]);
    }
  }

  /** The callbacks made for a session answer everything it was handed, as far as the first EXIT. */
  lemma AllAnswered(json: seq<byte> -> int, d: D.State, s: nat, handed: seq<Msg>)
    requires D.Fifo(d) && Of(s, d.pushed) <= handed
    requires Exits(Of(s, d.called)) || (d.called == D.Handled(d.pushed) && Of(s, d.pushed) == handed)
    ensures Replies(json, BeforeExit(Of(s, d.called))) == Replies(json, BeforeExit(handed))
    ensures Exits(Of(s, d.called)) ==> Exits(handed)
  {
    hide Of, Replies, BeforeExit, Exits, D.Handled, D.Fifo;
    CalledOf(d, s);
    RepliesOfHandled(json, s, d.pushed);
    if Exits(Of(s, d.called)) {
      BeforeExitFixed(Of(s, d.called), Of(s, D.Handled(d.pushed)));
      BeforeExitFixed(Of(s, d.pushed), handed);
    }
  }

  lemma CompleteOn(json: seq<byte> -> int, link: Link, d: D.State, s: nat)
    requires D.Fifo(d) && Of(s, d.pushed) <= link.up.rx.msgs
    requires !link.closed ==> d.called == D.Handled(d.pushed) && Of(s, d.pushed) == link.up.rx.msgs
    requires Pipe.Inv(link.down) && link.down.limit == NO_LIMIT && link.down.tx.dropped == 0
    requires AnsweredInOrder(json, link.down, Of(s, d.called)) && ClosedByExit(json, link, Of(s, d.called))
    requires link.down.channel == [] && (link.closed || link.down.tx.queue == [])
    ensures Ids(link.down.rx.msgs) == Replies(json, BeforeExit(link.up.rx.msgs)) <==> NothingCutOff(link)
    ensures link.closed ==> Exits(link.up.rx.msgs)
  {
    hide D.Fifo, Pipe.Inv, Of, Replies, BeforeExit, Exits, D.Handled, NothingCutOff, AnsweredInOrder, Thinned, Frames;
    AllReceived(json, link, Of(s, d.called));
    AllAnswered(json, d, s, link.up.rx.msgs);
  }

  /** With no job queued and none being posted, every callback was made for everything parsed. */
  lemma AllCalled(d: D.State, link: Link, s: nat)
    requires D.Inv(d) && s < |d.posters| && PostedInOrder(link, d.posters[s], Of(s, d.pushed))
    ensures Of(s, d.pushed) <= link.up.rx.msgs
    ensures d.queue == [] && link.taken == |link.up.rx.msgs| && d.posters[s].Ready? ==>
      d.called == D.Handled(d.pushed) && Of(s, d.pushed) == link.up.rx.msgs
  {
    hide Of, D.Handled, D.Locking, D.NoLostWakeup, D.StopSeen, D.Knowing;
    assert d.queue == [] ==> d.pushed == d.popped && !D.FrontCalled(d);
    assert D.Handled(d.popped) + [] == D.Handled(d.popped);
    assert link.up.rx.msgs[..|link.up.rx.msgs|] == link.up.rx.msgs;
    assert Of(s, d.pushed) + [] == Of(s, d.pushed);
    assert Of(s, d.pushed) <= link.up.rx.msgs[..link.taken];
  }

  lemma FifoOf(d: D.State)
    requires D.Inv(d)
    ensures D.Fifo(d)
  {
  }

  lemma Complete(json: seq<byte> -> int, sys: System, s: nat)
    requires Inv(json, sys) && s < |sys.links| && AtRest(sys, s)
    requires sys.links[s].down.tx.dropped == 0
    ensures var link := sys.links[s];
      && (Ids(link.down.rx.msgs) == Replies(json, BeforeExit(link.up.rx.msgs)) <==> NothingCutOff(link))
      && (link.closed ==> Exits(link.up.rx.msgs))
  {
    hide D.Inv, D.Fifo, Pipe.Inv, Of, Replies, BeforeExit, Exits, D.Handled, NothingCutOff;
    hide AnsweredInOrder, ClosedByExit, Thinned, PostedInOrder;
    assert LinkInv(json, sys, s);
    FifoOf(sys.disp);
    AllCalled(sys.disp, sys.links[s], s);
    CompleteOn(json, sys.links[s], sys.disp, s);
  }

  /** Once a session is at rest and no response of it was dropped, its client has received every
      reply due before an EXIT to the requests handed over, exactly when closing cut nothing off. The
      requests handed over before an EXIT are all those admitted before it, once the session is
      closed, a request was refused, or nothing is left of the requests; and they are all those sent
      before it if, unless the session is closed, none was refused. */
  lemma {:induction false} EveryReplyArrives(json: seq<byte> -> int, sessions: nat, es: seq<Event>, s: nat)
    requires s < sessions
    ensures var sys := Run(json, Init(sessions), es);
      && |sys.links| == |sys.disp.posters| == sessions
      && var link := sys.links[s];
         AtRest(sys, s) && link.down.tx.dropped == 0 ==>
           && (Ids(link.down.rx.msgs) == Replies(json, BeforeExit(link.up.rx.msgs)) <==> NothingCutOff(link))
           && (link.closed || Pipe.Finished(link.up) ==>
                 BeforeExit(link.up.rx.msgs) == BeforeExit(Admitted(link)))
           && (link.closed || (Pipe.Finished(link.up) && !link.up.rx.verdict.Rejected?) ==>
                 BeforeExit(link.up.rx.msgs) == BeforeExit(link.up.tx.Accepted()))
  {
    Reachable(json, sessions, es);
    var sys := Run(json, Init(sessions), es);
    assert |sys.disp.posters| == sessions;
    assert LinkInv(json, sys, s);
    var link := sys.links[s];
    hide Run, Inv, Replies, AtRest, BeforeExit, Exits, NothingCutOff, Pipe.Inv, Pipe.Finished;
    if AtRest(sys, s) && link.down.tx.dropped == 0 {
      Complete(json, sys, s);
      Pipe.InOrder(link.up);
      if link.closed {
        BeforeExitFixed(link.up.rx.msgs, Admitted(link));
        BeforeExitFixed(link.up.rx.msgs, link.up.tx.Accepted());
      } else if Pipe.Finished(link.up) {
        Pipe.AtRest(link.up);
      }
    }
  }

  /** The sockets keep their own pace: a client sends whenever it likes, an outstanding read completes
      once the read before it is dealt with, and responses move until EXIT closes the session, and
      what is in transit then still arrives. Neither the other sessions nor the dispatcher hinder. */
  lemma SocketsAreFree(json: seq<byte> -> int, sys: System, s: nat, pe: Pipe.Event)
    requires s < |sys.links| == |sys.disp.posters|
    ensures var l := sys.links[s];
      && (Pipe.Enabled(l.up, pe) && (pe.Sender? || ReadDone(sys, s)) ==> Enabled(json, sys, Up(s, pe)))
      && (Pipe.Enabled(l.down, pe) && (!pe.Sender? || (!l.closed && !pe.e.Send?)) ==> Enabled(json, sys, Down(s, pe)))
  {
  }

  /** A thread of the dispatcher that can step can do so in the service: a callback with any body, and
      every other step as it is. */
  lemma ThreadSteps(json: seq<byte> -> int, sys: System, de: D.Event)
    requires Inv(json, sys) && D.Enabled(sys.disp, de) && !de.Acquire?
    ensures Enabled(json, sys, Thread(de)) || Enabled(json, sys, Callback([]))
  {
    hide Pipe.Inv, D.Locking, D.NoLostWakeup, D.Fifo, D.StopSeen, LinkInv;
  }

  lemma WriteSteps(json: seq<byte> -> int, sys: System, s: nat) returns (e: Event)
    requires |sys.links| == |sys.disp.posters| && s < |sys.links| && !sys.links[s].closed
    requires Pipe.Inv(sys.links[s].down) && sys.links[s].down.tx.queue != [] && !sys.links[s].down.tx.failed
    ensures Enabled(json, sys, e) && e.Down? && e.e.Sender? && (e.e.e.Move? || e.e.e.Written?)
  {
    hide Parse, Frames, Encode, SendQueue.Bytes, Reply;
    var t := sys.links[s].down.tx;
    e := Down(s, Pipe.Sender(
      if t.sent == |SendQueue.Front(t)| then SendQueue.Written else SendQueue.Move(|SendQueue.Front(t)| - t.sent)));
  }

  lemma ThreadCanStep(d: D.State, s: nat) returns (de: D.Event)
    requires D.Inv(d) && s < |d.posters| && !d.worker.Exited?
    requires !d.owner.Free? || d.queue != [] || !d.posters[s].Ready?
    ensures D.Enabled(d, de) && (de.Work? || de.Push? || de.Release? || de.Notify?)
  {
    hide D.Fifo, D.StopSeen;
    match d.owner
    case Worker => de := D.Work;
    case Poster(i) =>
      assert D.PosterHolds(d.posters[i]);
      de := if d.posters[i].Holding? then D.Push(i) else D.Release(i);
    case Free =>
      if d.queue != [] {
        D.SomeStepEnabled(d);
        if D.Enabled(d, D.Work) {
          de := D.Work;
        } else {
          var i :| D.Enabled(d, D.Push(i)) || D.Enabled(d, D.Release(i)) || D.Enabled(d, D.Notify(i));
          de := if D.Enabled(d, D.Push(i)) then D.Push(i)
                else if D.Enabled(d, D.Release(i)) then D.Release(i) else D.Notify(i);
        }
      } else {
        assert !D.PosterHolds(d.posters[s]);
        de := D.Notify(s);
      }
  }

  lemma DispatcherSteps(json: seq<byte> -> int, sys: System, s: nat) returns (e: Event)
    requires Inv(json, sys) && s < |sys.links| && !sys.disp.worker.Exited?
    requires !ReadDone(sys, s) || sys.disp.queue != []
    ensures Enabled(json, sys, e)
    ensures e.Post? || e.Callback? || (e.Thread? && (e.de.Work? || e.de.Push? || e.de.Release? || e.de.Notify?))
  {
    assert LinkInv(json, sys, s);
    var d := sys.disp;
    var de: D.Event;
    if d.owner.Free? && !ReadDone(sys, s) && d.posters[s].Ready? {
      e := Post(s);
    } else {
      de := ThreadCanStep(d, s);
      ThreadSteps(json, sys, de);
      e := if Enabled(json, sys, Thread(de)) then Thread(de) else Callback([]);
    }
  }

  /** Until a session is at rest something can happen: as long as the worker has not left, no write
      to the client has failed and the client goes on reading, some step other than a new request,
      a failure, a spurious wakeup or the shutdown is enabled. */
  lemma StepsRemain(json: seq<byte> -> int, sys: System, s: nat) returns (e: Event)
    requires Inv(json, sys) && s < |sys.links| && !AtRest(sys, s)
    requires var l := sys.links[s]; !sys.disp.worker.Exited? && !l.down.tx.failed && l.down.reading
    ensures Enabled(json, sys, e)
    ensures e.Post? || e.Callback? || (e.Thread? && (e.de.Work? || e.de.Push? || e.de.Release? || e.de.Notify?))
      || (e.Down? && (e.e.Deliver? || (e.e.Sender? && (e.e.e.Move? || e.e.e.Written?))))
  {
    assert LinkInv(json, sys, s);
    var l, d := sys.links[s], sys.disp;
    hide Inv, LinkInv, D.Inv, Reply, Of, Replies;
    if l.down.channel != [] {
      e := Down(s, Pipe.Deliver(1));
    } else if !l.closed && l.down.tx.queue != [] {
      e := WriteSteps(json, sys, s);
    } else {
      e := DispatcherSteps(json, sys, s);
    }
  }

  /** The requests that the client builds carry their own id in their greeting. */
  predicate ClientBuilt(json: seq<byte> -> int, ms: seq<Msg>) {
    forall i :: 0 <= i < |ms| ==>
      D.Registered(ms[i].id) && (ms[i].id == HELLO_ID ==> json(ms[i].body) == HELLO_ID)
  }

  lemma OwnId(json: seq<byte> -> int, m: Msg)
    requires D.Registered(m.id) && m.id != EXIT_ID && (m.id == HELLO_ID ==> json(m.body) == HELLO_ID)
    ensures Reply(json, m) == [m.id]
  {
  }

  /** The replies due to requests that the client builds, EXIT not among them, are their ids. */
  lemma {:induction false} RepliesToClient(json: seq<byte> -> int, ms: seq<Msg>)
    requires ClientBuilt(json, ms) && !Exits(ms)
    ensures Replies(json, ms) == Ids(ms)
  {
    if ms != [] {
      var most, last := ms[..|ms| - 1], ms[|ms| - 1];
      RepliesToClient(json, most);
      OwnId(json, last);
      hide Reply;
      assert Ids(ms) == Ids(most) + [last.id];
    }
  }

  /** For clients that build their requests as the program does: the response ids a client has
      received are, in order, some of the ids of its requests before EXIT, and the first of them, with
      none left out, as long as no response was dropped. */
  lemma {:induction false} ResponseIdsFollowRequestIds(
      json: seq<byte> -> int, sessions: nat, es: seq<Event>, s: nat)
    requires s < sessions
    ensures var sys := Run(json, Init(sessions), es);
      && |sys.links| == sessions
      && var link := sys.links[s];
         var received, sent := Ids(link.down.rx.msgs), Ids(BeforeExit(link.up.tx.Accepted()));
         ClientBuilt(json, link.up.tx.Accepted()) ==>
           Thinned(received, sent) && (link.down.tx.dropped == 0 ==> received <= sent)
  {
    Reachable(json, sessions, es);
    var sys := Run(json, Init(sessions), es);
    hide Run, Inv, Replies, BeforeExit, Exits, Thinned;
    var link := sys.links[s];
    var requests := link.up.tx.Accepted();
    if ClientBuilt(json, requests) {
      Ordered(json, sys, s);
      BeforeExitIsLongest(requests);
      RepliesToClient(json, BeforeExit(requests));
      ThinnedMore(Ids(link.down.rx.msgs), Replies(json, BeforeExit(Admitted(link))),
                  Replies(json, BeforeExit(requests)));
    }
  }
}

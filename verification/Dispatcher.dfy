/** The dispatcher: many posting threads, one worker thread, a mutex, a condition variable and a
    stop flag. The protocol steps one thread at a time, between any two points at which another
    thread could see a difference. */
module Dispatcher {
  import opened Wire

  /** A message and the session it came in on. */
  datatype Job = Job(session: nat, msg: Msg)

  /** A poster outside `postMsgToQue`; holding the mutex with a job to push; holding the mutex
      with the job pushed, having seen size 1 or not; past the mutex and about to notify. */
  datatype PosterPc = Ready | Holding(job: Job) | Pushed(first: bool) | Owing

  /** The worker at the top of its loop; holding the mutex and about to test the wait condition;
      having found it true; asleep; awake and about to take the mutex again; past the wait; about
      to look at the front; in the callback; about to pop; gone. */
  datatype WorkerPc =
    | Top | Testing | ToWait | Waiting | Woken | Past
    | Serving(drain: bool) | Calling(drain: bool) | Popping(drain: bool) | Exited

  /** The destructor: not begun; the flag set; the notification sent. */
  datatype StopperPc = NotBegun | FlagSet | Notified

  datatype Owner = Free | Worker | Poster(i: nat)

  /** `pushed`, `popped` and `called` are the histories of the queue and of the callbacks;
      `missed` says that the destructor notified a worker about to wait. */
  datatype State = State(
    queue: seq<Job>, stop: bool, owner: Owner,
    worker: WorkerPc, posters: seq<PosterPc>, stopper: StopperPc,
    pushed: seq<Job>, popped: seq<Job>, called: seq<Job>, missed: bool)

  datatype Event =
    | Acquire(i: nat, job: Job)
    | Push(i: nat)
    | Release(i: nat)
    | Notify(i: nat)
    | Work
    | SpuriousWake
    | SetStop
    | NotifyStop

  // The ids that `registerCallBacks` registers a handler for.
  const FIRST_ID := 1001

  const LAST_ID := 1010

  predicate Registered(id: int) {
    FIRST_ID <= id <= LAST_ID
  }

  /** The jobs that a callback is made for. */
  function Handled(jobs: seq<Job>): seq<Job> {
    if jobs == [] then []
    else if Registered(jobs[|jobs| - 1].msg.id) then Handled(jobs[..|jobs| - 1]) + [jobs[|jobs| - 1]]
    else Handled(jobs[..|jobs| - 1])
  }

  function Init(posters: nat): State {
    State([], false, Free, Top, seq(posters, _ => Ready), NotBegun, [], [], [], false)
  }

  predicate WorkEnabled(s: State) {
    match s.worker
    case Top | Woken => s.owner.Free?
    case Waiting | Exited => false
    case Serving(drain) => drain || s.queue != []
    case Calling(_) | Popping(_) => s.queue != []
    case _ => true
  }

  predicate Enabled(s: State, e: Event) {
    match e
    case Acquire(i, job) => i < |s.posters| && s.posters[i].Ready? && s.owner.Free?
    case Push(i) => i < |s.posters| && s.posters[i].Holding?
    case Release(i) => i < |s.posters| && s.posters[i].Pushed?
    case Notify(i) => i < |s.posters| && s.posters[i].Owing?
    case Work => WorkEnabled(s)
    case SpuriousWake => s.worker.Waiting?
    case SetStop => s.stopper.NotBegun?
    case NotifyStop => s.stopper.FlagSet?
  }

  /** `notify_one`: wakes the worker if it is asleep, and is lost otherwise. */
  function Wake(w: WorkerPc): WorkerPc {
    if w.Waiting? then Woken else w
  }

  function WorkStep(s: State): State
    requires WorkEnabled(s)
  {
    match s.worker
    case Top | Woken => s.(owner := Worker, worker := Testing)
    case Testing => s.(worker := if s.queue == [] && !s.stop then ToWait else Past)
    case ToWait => s.(owner := Free, worker := Waiting)
    case Past => s.(worker := Serving(s.stop))
    case Serving(drain) =>
      if s.queue == [] then s.(owner := Free, worker := Exited)
      else s.(worker := if Registered(s.queue[0].msg.id) then Calling(drain) else Popping(drain))
    case Calling(drain) => s.(called := s.called + [s.queue[0]], worker := Popping(drain))
    case Popping(drain) =>
      var t := s.(queue := s.queue[1..], popped := s.popped + [s.queue[0]]);
      if drain then t.(worker := Serving(true)) else t.(owner := Free, worker := Top)
  }

  function Step(s: State, e: Event): State
    requires Enabled(s, e)
  {
    match e
    case Acquire(i, job) => s.(posters := s.posters[i := Holding(job)], owner := Poster(i))
    case Push(i) =>
      var job := s.posters[i].job;
      s.(queue := s.queue + [job], pushed := s.pushed + [job],
         posters := s.posters[i := Pushed(|s.queue| == 0)])
    case Release(i) =>
      s.(posters := s.posters[i := if s.posters[i].first then Owing else Ready], owner := Free)
    case Notify(i) => s.(posters := s.posters[i := Ready], worker := Wake(s.worker))
    case Work => WorkStep(s)
    case SpuriousWake => s.(worker := Woken)
    case SetStop => s.(stop := true, stopper := FlagSet)
    case NotifyStop => s.(stopper := Notified, missed := s.worker.ToWait?, worker := Wake(s.worker))
  }

  /** Every run: the events that are not enabled where they stand do not happen. */
  function Run(s: State, es: seq<Event>): State {
    if es == [] then s
    else
      var before := Run(s, es[..|es| - 1]);
      var e := es[|es| - 1];
      if Enabled(before, e) then Step(before, e) else before
  }

  predicate WorkerHolds(w: WorkerPc) {
    w.Testing? || w.ToWait? || w.Past? || w.Serving? || w.Calling? || w.Popping?
  }

  predicate PosterHolds(p: PosterPc) {
    p.Holding? || p.Pushed?
  }

  /** A poster that will notify, or is about to leave the mutex in order to. */
  predicate Owes(p: PosterPc) {
    p == Pushed(true) || p.Owing?
  }

  /** The mutex is held by the thread that is inside it. */
  predicate Locking(s: State) {
    && (s.owner.Worker? <==> WorkerHolds(s.worker))
    && (forall i :: 0 <= i < |s.posters| ==> (s.owner == Poster(i) <==> PosterHolds(s.posters[i])))
    && (s.owner.Poster? ==> s.owner.i < |s.posters|)
  }

  /** What the worker has learnt about the queue and the flag while it holds the mutex. */
  predicate Knowing(s: State) {
    && (s.worker.ToWait? ==> s.queue == [])
    && (s.worker.Past? ==> s.queue != [] || s.stop)
    && (s.worker == Serving(false) ==> s.queue != [])
    && (s.worker.Calling? ==> s.queue != [] && Registered(s.queue[0].msg.id))
    && (s.worker.Popping? ==> s.queue != [])
    && (s.worker.Serving? && s.worker.drain ==> s.stop)
    && (s.worker.Calling? && s.worker.drain ==> s.stop)
    && (s.worker.Popping? && s.worker.drain ==> s.stop)
    && (s.worker.Exited? ==> s.stop)
    && (s.stop <==> !s.stopper.NotBegun?)
  }

  /** The worker never sleeps over a queue that nobody is about to tell it of. */
  predicate NoLostWakeup(s: State) {
    s.worker.Waiting? && s.queue != [] ==> exists i :: 0 <= i < |s.posters| && Owes(s.posters[i])
  }

  /** The callback for the front has been made and the front has not been popped. */
  predicate FrontCalled(s: State) {
    s.worker.Popping? && s.queue != [] && Registered(s.queue[0].msg.id)
  }

  /** Nothing pushed is lost, repeated or reordered, and exactly the registered ids are called. */
  predicate Fifo(s: State) {
    && s.pushed == s.popped + s.queue
    && s.called == Handled(s.popped) + (if FrontCalled(s) then [s.queue[0]] else [])
  }

  /** After the destructor's notification the worker sleeps only if the notification missed it. */
  predicate StopSeen(s: State) {
    s.stopper.Notified? && (s.worker.ToWait? || s.worker.Waiting?) ==> s.missed
  }

  predicate Inv(s: State) {
    Locking(s) && Knowing(s) && NoLostWakeup(s) && Fifo(s) && StopSeen(s)
  }

  lemma InitInv(posters: nat)
    ensures Inv(Init(posters))
  {
  }

  lemma HandledMore(jobs: seq<Job>, job: Job)
    ensures Handled(jobs + [job]) == Handled(jobs) + (if Registered(job.msg.id) then [job] else [])
  {
    assert (jobs + [job])[..|jobs|] == jobs;
  }

  lemma PosterStepKeepsInv(s: State, e: Event)
    requires Inv(s) && Enabled(s, e)
    requires e.Acquire? || e.Push? || e.Release? || e.Notify?
    ensures Inv(Step(s, e))
  {
    hide Handled;
    var t := Step(s, e);
    match e
    case Acquire(i, job) =>
      if s.worker.Waiting? && s.queue != [] {
        var k :| 0 <= k < |s.posters| && Owes(s.posters[k]);
        assert Owes(t.posters[k]);
      }
    case Push(i) =>
      assert s.owner == Poster(i);
      if s.worker.Waiting? {
        if s.queue == [] {
          assert Owes(t.posters[i]);
        } else {
          var k :| 0 <= k < |s.posters| && Owes(s.posters[k]);
          assert Owes(t.posters[k]);
        }
      }
    case Release(i) =>
      assert s.owner == Poster(i);
      if s.worker.Waiting? && s.queue != [] {
        var k :| 0 <= k < |s.posters| && Owes(s.posters[k]);
        assert Owes(t.posters[k]);
      }
    case Notify(i) =>
  }

  lemma WorkKeepsControl(s: State)
    requires Locking(s) && Knowing(s) && NoLostWakeup(s) && StopSeen(s) && WorkEnabled(s)
    ensures var t := WorkStep(s); Locking(t) && Knowing(t) && NoLostWakeup(t) && StopSeen(t)
  {
  }

  lemma PopKeepsFifo(s: State)
    requires s.worker.Popping? && s.queue != [] && Fifo(s)
    ensures Fifo(WorkStep(s))
  {
    hide Handled;
    HandledMore(s.popped, s.queue[0]);
    var t := WorkStep(s);
    assert !FrontCalled(t);
    assert s.queue == [s.queue[0]] + s.queue[1..];
    assert t.pushed == t.popped + t.queue;
  }

  lemma WorkKeepsFifo(s: State)
    requires Knowing(s) && Fifo(s) && WorkEnabled(s)
    ensures Fifo(WorkStep(s))
  {
    hide Handled;
    if s.worker.Popping? {
      PopKeepsFifo(s);
    }
  }

  lemma {:induction false} StepKeepsInv(s: State, e: Event)
    requires Inv(s) && Enabled(s, e)
    ensures Inv(Step(s, e))
  {
    match e
    case Acquire(_, _) | Push(_) | Release(_) | Notify(_) => PosterStepKeepsInv(s, e);
    case Work => WorkKeepsControl(s); WorkKeepsFifo(s);
    case _ =>
  }

  lemma {:induction false} RunKeepsInv(s: State, es: seq<Event>)
    requires Inv(s)
    ensures Inv(Run(s, es))
  {
    if es != [] {
      var before := Run(s, es[..|es| - 1]);
      RunKeepsInv(s, es[..|es| - 1]);
      if Enabled(before, es[|es| - 1]) {
        StepKeepsInv(before, es[|es| - 1]);
      }
    }
  }

  /** Every run, however many posters there are and however the threads interleave. */
  lemma {:induction false} Reachable(posters: nat, es: seq<Event>)
    ensures Inv(Run(Init(posters), es))
  {
    InitInv(posters);
    RunKeepsInv(Init(posters), es);
  }

  lemma {:induction false} HandledConcat(a: seq<Job>, b: seq<Job>)
    ensures Handled(a + b) == Handled(a) + Handled(b)
  {
    if b == [] {
      assert a + b == a;
    } else {
      var most, last := b[..|b| - 1], b[|b| - 1];
      assert a + b == (a + most) + [last];
      HandledConcat(a, most);
      HandledMore(a + most, last);
    }
  }

  lemma CalledBegins(s: State)
    requires Fifo(s)
    ensures s.called <= Handled(s.pushed)
  {
    HandledConcat(s.popped, s.queue);
    if FrontCalled(s) {
      assert s.queue == [s.queue[0]] + s.queue[1..];
      HandledConcat([s.queue[0]], s.queue[1..]);
      HandledMore([], s.queue[0]);
      assert [] + [s.queue[0]] == [s.queue[0]];
    }
  }

  /** The mutex spans the callback: in every run, from its test of the queue to the pop behind the
      callback the worker holds the mutex, and no poster is inside. */
  lemma MutexSpansCallback(posters: nat, es: seq<Event>)
    ensures var s := Run(Init(posters), es);
      var w := s.worker;
      w.Testing? || w.ToWait? || w.Past? || w.Serving? || w.Calling? || w.Popping? ==>
        s.owner.Worker? && forall i :: 0 <= i < |s.posters| ==> s.posters[i].Ready? || s.posters[i].Owing?
  {
    Reachable(posters, es);
    hide Run;
    assert forall i :: 0 <= i < |Run(Init(posters), es).posters| ==>
      PosterHolds(Run(Init(posters), es).posters[i]) || Run(Init(posters), es).posters[i].Ready?
      || Run(Init(posters), es).posters[i].Owing?;
  }

  /** No bound on the queue keeps a poster out: any poster that is not in a post may begin one
      whenever the mutex is free, however many jobs are queued. */
  lemma PostsAreNeverRefused(s: State, i: nat, job: Job)
    requires i < |s.posters| && s.posters[i].Ready? && s.owner.Free?
    ensures Enabled(s, Acquire(i, job))
    ensures Step(Step(s, Acquire(i, job)), Push(i)).queue == s.queue + [job]
  {
  }

  /** Exactly-once dispatch in order: the callbacks made are those for the registered ids among
      what has been popped, and for the front while it waits to be popped; and what has been
      popped and what is queued are, in order, what was pushed. */
  lemma {:induction false} ExactlyOnceInOrder(posters: nat, es: seq<Event>)
    ensures var s := Run(Init(posters), es);
      && s.pushed == s.popped + s.queue
      && s.called == Handled(s.popped) + (if FrontCalled(s) then [s.queue[0]] else [])
      && s.called <= Handled(s.pushed)
  {
    Reachable(posters, es);
    CalledBegins(Run(Init(posters), es));
  }

  /** The worker leaves its loop only while it holds the mutex and has drained the queue: every
      registered job pushed by then has had its callback. */
  lemma {:induction false} ExitDrains(posters: nat, es: seq<Event>)
    requires var s := Run(Init(posters), es);
      WorkEnabled(s) && WorkStep(s).worker.Exited?
    ensures var s := Run(Init(posters), es);
      s.owner.Worker? && s.stop && s.queue == [] && s.popped == s.pushed && s.called == Handled(s.pushed)
  {
    Reachable(posters, es);
    hide Run, Handled;
  }

  /** No lost wakeup, although only the poster that saw size 1 notifies, and after unlocking: a
      worker asleep over a queue is owed a notification, and that notification wakes it. */
  lemma {:induction false} NoSleepOverQueue(posters: nat, es: seq<Event>)
    requires var s := Run(Init(posters), es);
      s.worker.Waiting? && s.queue != []
    ensures var s := Run(Init(posters), es);
      exists i :: 0 <= i < |s.posters| && Owes(s.posters[i])
    ensures var s := Run(Init(posters), es);
      forall i :: Enabled(s, Notify(i)) ==> Step(s, Notify(i)).worker.Woken?
  {
    Reachable(posters, es);
  }

  function WorkerRank(w: WorkerPc): nat {
    match w
    case Waiting => 9
    case Top | Woken => 8
    case Testing | ToWait => 7
    case Past => 6
    case Serving(_) => 5
    case Calling(_) => 4
    case Popping(_) => 3
    case Exited => 0
  }

  function PosterRank(p: PosterPc): nat {
    match p
    case Ready => 0
    case Holding(_) => 13
    case Pushed(_) => 2
    case Owing => 1
  }

  function PostersRank(ps: seq<PosterPc>): nat {
    if ps == [] then 0 else PosterRank(ps[0]) + PostersRank(ps[1..])
  }

  function StopperRank(p: StopperPc): nat {
    match p
    case NotBegun => 2
    case FlagSet => 1
    case Notified => 0
  }

  /** How many steps the threads can take, at most, before the queue is empty. */
  function Measure(s: State): nat {
    10 * |s.queue| + WorkerRank(s.worker) + PostersRank(s.posters) + StopperRank(s.stopper)
  }

  lemma {:induction false} PostersRankUpdate(ps: seq<PosterPc>, i: nat, p: PosterPc)
    requires i < |ps|
    ensures PostersRank(ps[i := p]) == PostersRank(ps) - PosterRank(ps[i]) + PosterRank(p)
  {
    if i == 0 {
      assert ps[i := p][1..] == ps[1..];
    } else {
      assert ps[i := p][1..] == ps[1..][i - 1 := p];
      PostersRankUpdate(ps[1..], i - 1, p);
    }
  }

  /** While the queue is not empty every step but the beginning of a post brings its end nearer. */
  lemma MeasureDecreases(s: State, e: Event)
    requires Inv(s) && s.queue != [] && Enabled(s, e) && !e.Acquire?
    ensures Measure(Step(s, e)) < Measure(s)
  {
    hide PostersRank, Fifo, StopSeen, NoLostWakeup;
    match e
    case Push(i) => PostersRankUpdate(s.posters, i, Pushed(|s.queue| == 0));
    case Release(i) => PostersRankUpdate(s.posters, i, if s.posters[i].first then Owing else Ready);
    case Notify(i) => PostersRankUpdate(s.posters, i, Ready);
    case _ =>
  }

  /** While the queue is not empty and the worker has not left, some thread can take a step that
      begins no post, sets no flag and needs no spurious wakeup. */
  lemma SomeStepEnabled(s: State)
    requires Inv(s) && s.queue != [] && !s.worker.Exited?
    ensures Enabled(s, Work) || (exists i :: Enabled(s, Push(i)) || Enabled(s, Release(i)) || Enabled(s, Notify(i)))
  {
    match s.owner
    case Worker =>
    case Poster(i) =>
      assert PosterHolds(s.posters[i]);
      assert Enabled(s, Push(i)) || Enabled(s, Release(i));
    case Free =>
      if s.worker.Waiting? {
        var k :| 0 <= k < |s.posters| && Owes(s.posters[k]);
        assert !PosterHolds(s.posters[k]);
        assert Enabled(s, Notify(k));
      }
  }

  /** Along these events the queue never empties, no post begins and every event happens. */
  predicate KeepsBusy(s: State, es: seq<Event>)
    decreases |es|
  {
    es == [] ||
    (s.queue != [] && Enabled(s, es[0]) && !es[0].Acquire? && KeepsBusy(Step(s, es[0]), es[1..]))
  }

  /** With no further posts the queue empties: from any reachable state at most `Measure` steps
      can be taken without emptying it. As long as the worker has not left, there is one to take
      (`SomeStepEnabled`); what is pushed after it has left stays queued. */
  lemma {:induction false} QueueEmpties(s: State, es: seq<Event>)
    requires Inv(s) && KeepsBusy(s, es)
    ensures |es| <= Measure(s)
    decreases |es|
  {
    if es != [] {
      StepKeepsInv(s, es[0]);
      MeasureDecreases(s, es[0]);
      QueueEmpties(Step(s, es[0]), es[1..]);
    }
  }

  /** The flag is set, and the worker is neither asleep nor about to be. */
  predicate Stopping(s: State) {
    s.stop && !s.worker.ToWait? && !s.worker.Waiting?
  }

  lemma StepKeepsMissed(s: State, e: Event)
    requires s.stopper.Notified? && Enabled(s, e)
    ensures Step(s, e).stopper.Notified? && Step(s, e).missed == s.missed
  {
  }

  lemma {:induction false} MissedStays(s: State, es: seq<Event>)
    requires s.stopper.Notified?
    ensures Run(s, es).stopper.Notified? && Run(s, es).missed == s.missed
  {
    if es != [] {
      var before := Run(s, es[..|es| - 1]);
      MissedStays(s, es[..|es| - 1]);
      hide Step, Enabled;
      if Enabled(before, es[|es| - 1]) {
        StepKeepsMissed(before, es[|es| - 1]);
      }
    }
  }

  /** Shutdown is noticed if the destructor's notification does not fall between the worker's test
      of the flag and its wait: in no continuation does the worker sleep again. */
  lemma {:induction false} StopNoticed(s: State, es: seq<Event>)
    requires Inv(s) && s.stopper.FlagSet? && !s.worker.ToWait?
    ensures Stopping(Run(Step(s, NotifyStop), es))
  {
    StepKeepsInv(s, NotifyStop);
    MissedStays(Step(s, NotifyStop), es);
    RunKeepsInv(Step(s, NotifyStop), es);
  }

  /** While the worker is stopping, every step but the beginning of a post brings its end nearer. */
  lemma StoppingStep(s: State, e: Event)
    requires Inv(s) && Stopping(s) && !s.worker.Exited? && Enabled(s, e) && !e.Acquire?
    ensures Stopping(Step(s, e)) && Measure(Step(s, e)) < Measure(s)
  {
    hide PostersRank, Fifo, StopSeen, NoLostWakeup;
    match e
    case Push(i) => PostersRankUpdate(s.posters, i, Pushed(|s.queue| == 0));
    case Release(i) => PostersRankUpdate(s.posters, i, if s.posters[i].first then Owing else Ready);
    case Notify(i) => PostersRankUpdate(s.posters, i, Ready);
    case _ =>
  }

  /** Until a stopping worker has left, it or the poster that holds the mutex can take a step. */
  lemma StoppingCanStep(s: State)
    requires Inv(s) && Stopping(s) && !s.worker.Exited?
    ensures Enabled(s, Work) || (exists i :: Enabled(s, Push(i)) || Enabled(s, Release(i)))
  {
    match s.owner
    case Worker =>
    case Poster(i) =>
      assert PosterHolds(s.posters[i]);
      assert Enabled(s, Push(i)) || Enabled(s, Release(i));
    case Free =>
  }

  /** Along these events the worker has not left, no post begins and every event happens. */
  predicate KeepsRunning(s: State, es: seq<Event>)
    decreases |es|
  {
    es == [] ||
    (!s.worker.Exited? && Enabled(s, es[0]) && !es[0].Acquire? && KeepsRunning(Step(s, es[0]), es[1..]))
  }

  /** So the destructor's `join` returns: with no further posts a worker that has noticed the flag
      leaves within `Measure` steps of all threads together. */
  lemma {:induction false} WorkerLeaves(s: State, es: seq<Event>)
    requires Inv(s) && Stopping(s) && KeepsRunning(s, es)
    ensures |es| <= Measure(s)
    decreases |es|
  {
    if es != [] {
      StepKeepsInv(s, es[0]);
      StoppingStep(s, es[0]);
      WorkerLeaves(Step(s, es[0]), es[1..]);
    }
  }

  /** Shutdown is missed if the notification falls between the test and the wait: the worker goes
      to sleep with the flag set and, when no poster is active, nothing but a spurious wakeup or a
      new post can happen any more. */
  lemma StopMissed(s: State)
    requires Inv(s) && s.stopper.FlagSet? && s.worker.ToWait?
    ensures var t := Step(Step(s, NotifyStop), Work);
      && t.worker.Waiting? && t.stop && t.queue == [] && Enabled(t, SpuriousWake)
      && ((forall i :: 0 <= i < |t.posters| ==> t.posters[i].Ready?) ==>
            forall e :: Enabled(t, e) ==> e.Acquire? || e.SpuriousWake?)
  {
  }

  /** Such a run: the worker tests, the flag is set, the notification is sent, the worker waits. */
  lemma StopCanBeMissed()
    ensures var t := Run(Init(0), [Work, Work, SetStop, NotifyStop, Work]);
      t.worker.Waiting? && t.stop && t.stopper.Notified? && t.queue == []
  {
    var es := [Work, Work, SetStop, NotifyStop, Work];
    var s := Init(0);
    assert es[..4] == [Work, Work, SetStop, NotifyStop];
    assert es[..4][..3] == [Work, Work, SetStop];
    assert es[..4][..3][..2] == [Work, Work];
    assert es[..4][..3][..2][..1] == [Work];
    assert es[..4][..3][..2][..1][..0] == [];
    var s1 := Run(s, [Work]);
    assert [Work][..0] == [];
    assert s1 == Step(s, Work);
    var s2 := Run(s, [Work, Work]);
    assert s2 == Step(s1, Work) && s2.worker.ToWait?;
    var s3 := Run(s, [Work, Work, SetStop]);
    assert s3 == Step(s2, SetStop);
    var s4 := Run(s, [Work, Work, SetStop, NotifyStop]);
    assert s4 == Step(s3, NotifyStop);
  }
}

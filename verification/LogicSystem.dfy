/** The dispatcher's own data: the queue of jobs and the table of callbacks, as the code updates
    them inside the mutex. Each method takes exactly the steps of the protocol in `Dispatcher`. */
module LogicSystem {
  import opened Wire
  import opened Dispatcher

  datatype Handler = Hello | Mkdir | Rmdir | List | Upload | Download | Cd | Pwd | Cat | Exit

  /** The id each handler answers (the enumeration MSG_IDS). */
  function IdOf(h: Handler): int {
    match h
    case Hello => 1001
    case Mkdir => 1002
    case Rmdir => 1003
    case List => 1004
    case Upload => 1005
    case Download => 1006
    case Cd => 1007
    case Pwd => 1008
    case Cat => 1009
    case Exit => 1010
  }

  /** A post, from taking the mutex to leaving it. */
  function Posted(s: State, i: nat, job: Job): State
    requires Enabled(s, Acquire(i, job))
  {
    Step(Step(Step(s, Acquire(i, job)), Push(i)), Release(i))
  }

  lemma PostKeepsInv(s: State, i: nat, job: Job)
    requires Inv(s) && Enabled(s, Acquire(i, job))
    ensures Inv(Posted(s, i, job))
  {
    hide Inv;
    StepKeepsInv(s, Acquire(i, job));
    StepKeepsInv(Step(s, Acquire(i, job)), Push(i));
    StepKeepsInv(Step(Step(s, Acquire(i, job)), Push(i)), Release(i));
  }

  /** `n` steps of the worker, with no other thread's between them. */
  function Works(s: State, n: nat): State {
    if n == 0 then s
    else
      var t := Works(s, n - 1);
      if WorkEnabled(t) then WorkStep(t) else t
  }

  lemma {:induction false} WorksOn(s: State, m: nat, n: nat)
    ensures Works(Works(s, m), n) == Works(s, m + n)
  {
    if n != 0 {
      WorksOn(s, m, n - 1);
    }
  }

  /** One job, from looking at the front to popping it. */
  lemma ServeSteps(s: State) returns (n: nat)
    requires Inv(s) && s.worker.Serving? && s.queue != []
    ensures var t := Works(s, n); var job := s.queue[0];
      && Inv(t) && t.queue == s.queue[1..] && t.stop == s.stop
      && t.called == s.called + (if Registered(job.msg.id) then [job] else [])
      && t.worker == if s.worker.drain then Serving(true) else Top
  {
    hide Inv;
    StepKeepsInv(s, Work);
    var t := WorkStep(s);
    StepKeepsInv(t, Work);
    assert Works(s, 1) == t by { assert Works(s, 0) == s; }
    assert Works(s, 2) == WorkStep(t);
    n := 2;
    if t.worker.Calling? {
      StepKeepsInv(WorkStep(t), Work);
      n := 3;
    }
  }

  lemma HandledFront(jobs: seq<Job>)
    requires jobs != []
    ensures Handled(jobs[..1]) == if Registered(jobs[0].msg.id) then [jobs[0]] else []
  {
    HandledMore([], jobs[0]);
    assert [] + [jobs[0]] == jobs[..1];
  }

  lemma NothingDone(s: State)
    ensures Works(s, 0) == s && Handled([]) == []
  {
  }

  lemma FrontFirst(called: seq<Job>, jobs: seq<Job>)
    requires jobs != []
    ensures called + Handled(jobs) == called + Handled(jobs[..1]) + Handled(jobs[1..])
  {
    hide Handled;
    assert jobs == jobs[..1] + jobs[1..];
    HandledConcat(jobs[..1], jobs[1..]);
  }

  /** Past its wait the worker looks at the flag. */
  lemma LookStep(s: State)
    requires Inv(s) && s.worker.Past?
    ensures var t := Works(s, 1);
      && Inv(t) && t.worker == Serving(s.stop) && t.queue == s.queue && t.called == s.called && t.stop == s.stop
      && (!s.stop ==> s.queue != [])
  {
    assert Works(s, 0) == s;
    assert Works(s, 1) == WorkStep(s);
    assert !s.stop ==> s.queue != [];
    hide Inv;
    StepKeepsInv(s, Work);
  }

  /** With the queue drained the worker leaves. */
  lemma LeaveStep(s: State, n: nat)
    requires Inv(Works(s, n)) && Works(s, n).worker == Serving(true) && Works(s, n).queue == []
    ensures var t := Works(s, n + 1);
      Inv(t) && t.worker.Exited? && t.queue == [] && t.called == Works(s, n).called && t.stop == Works(s, n).stop
  {
    var t := Works(s, n);
    assert Works(s, n + 1) == WorkStep(t);
    hide Inv, Works;
    StepKeepsInv(t, Work);
  }

  class LogicSystem {
    var msgQue: seq<Job>                 // msg_que_
    var funCallbacks: map<int, Handler>  // fun_callbacks_
    var stop: bool                       // b_stop_
    var called: seq<Job>                 // the callbacks made, in order
    var handlers: seq<Handler>           // and the handlers they were made to
    ghost var state: State

    /** Every registered id, and no other, has the handler that answers it, every callback was made
        to the handler of its id, and the queue and the flag are the protocol's. */
    ghost predicate Valid()
      reads this
    {
      && UpTo(LAST_ID) && Answered()
      && Inv(state) && msgQue == state.queue && called == state.called && stop == state.stop
    }

    ghost predicate Answered()
      reads this`called, this`handlers
    {
      |handlers| == |called| && forall i :: 0 <= i < |called| ==> IdOf(handlers[i]) == called[i].msg.id
    }

    /** The ids registered are those up to `last`, each with the handler made for it. */
    ghost predicate UpTo(last: int)
      reads this`funCallbacks
    {
      && (forall id :: id in funCallbacks <==> FIRST_ID <= id <= last)
      && (forall id :: id in funCallbacks ==> IdOf(funCallbacks[id]) == id)
    }

    constructor (ghost posters: nat)
      ensures Valid() && state == Init(posters)
      ensures funCallbacks == map[
        1001 := Hello, 1002 := Mkdir, 1003 := Rmdir, 1004 := List, 1005 := Upload,
        1006 := Download, 1007 := Cd, 1008 := Pwd, 1009 := Cat, 1010 := Exit]
    {
      msgQue, funCallbacks, called, handlers, stop, state := [], map[], [], [], false, Init(posters);
      new;
      InitInv(posters);
      RegisterCallBacks();
      ByIds();
    }

    /** The table by its values. */
    lemma ByIds()
      requires UpTo(LAST_ID)
      ensures funCallbacks == map[
        1001 := Hello, 1002 := Mkdir, 1003 := Rmdir, 1004 := List, 1005 := Upload,
        1006 := Download, 1007 := Cd, 1008 := Pwd, 1009 := Cat, 1010 := Exit]
    {
      forall id | FIRST_ID <= id <= LAST_ID ensures IdOf(funCallbacks[id]) == id {
        assert id in funCallbacks;
      }
      assert 1001 in funCallbacks && 1002 in funCallbacks && 1003 in funCallbacks && 1004 in funCallbacks;
      assert 1005 in funCallbacks && 1006 in funCallbacks && 1007 in funCallbacks && 1008 in funCallbacks;
      assert 1009 in funCallbacks && 1010 in funCallbacks;
    }

    /** `registerHandler`: the first registration of an id stays. */
    method RegisterHandler(id: int, h: Handler)
      modifies this`funCallbacks
      ensures id in old(funCallbacks) ==> funCallbacks == old(funCallbacks)
      ensures id !in old(funCallbacks) ==> funCallbacks == old(funCallbacks)[id := h]
    {
      if id in funCallbacks {
        return;
      }
      funCallbacks := funCallbacks[id := h];
    }

    /** `registerCallBacks`, in the order the code registers them. */
    method RegisterCallBacks()
      requires funCallbacks == map[]
      modifies this`funCallbacks
      ensures UpTo(LAST_ID)
    {
      RegisterFirst();
      RegisterTransfers();
      RegisterLast();
    }

    method RegisterFirst()
      requires funCallbacks == map[]
      modifies this`funCallbacks
      ensures UpTo(1004)
    {
      RegisterHandler(1001, Hello);
      RegisterHandler(1004, List);
      RegisterHandler(1002, Mkdir);
      RegisterHandler(1003, Rmdir);
    }

    method RegisterTransfers()
      requires UpTo(1004)
      modifies this`funCallbacks
      ensures UpTo(1007)
    {
      RegisterHandler(1005, Upload);
      RegisterHandler(1006, Download);
      RegisterHandler(1007, Cd);
    }

    method RegisterLast()
      requires UpTo(1007)
      modifies this`funCallbacks
      ensures UpTo(1010)
    {
      RegisterHandler(1008, Pwd);
      RegisterHandler(1009, Cat);
      RegisterHandler(1010, Exit);
    }

    /** `postMsgToQue` by poster `i`, inside the mutex: whether it has to notify. */
    method PostMsgToQue(job: Job, ghost i: nat) returns (notify: bool)
      requires Valid() && Enabled(state, Acquire(i, job))
      modifies this`msgQue, this`state
      ensures Valid() && state == Posted(old(state), i, job)
      ensures msgQue == old(msgQue) + [job]
      ensures (notify <==> state.posters[i].Owing?) && (notify <==> old(msgQue) == [])
    {
      PostKeepsInv(state, i, job);
      hide Inv;
      msgQue := msgQue + [job];
      notify := |msgQue| == 1;
      state := Posted(state, i, job);
    }

    /** One job off the queue, as both loops of `dealMsg` take it: look at the front, call its
        handler if it has one, and only then pop. It is two or three steps of the worker. */
    method DealFront() returns (ghost n: nat)
      requires Valid() && state.worker.Serving? && msgQue != []
      modifies this`msgQue, this`called, this`handlers, this`state
      ensures Valid() && state == Works(old(state), n)
      ensures state.worker == if old(state).worker.drain then Serving(true) else Top
      ensures msgQue == old(msgQue)[1..]
      ensures called == old(called) + Handled(old(msgQue)[..1]) && old(handlers) <= handlers
      ensures var job := old(msgQue)[0];
        called == if 1001 <= job.msg.id <= 1010 then old(called) + [job] else old(called)
    {
      var job := msgQue[0];
      HandledFront(msgQue);
      hide Handled, Inv, Works;
      n := ServeSteps(state);
      state := Works(state, n);
      if job.msg.id !in funCallbacks {
        msgQue := msgQue[1..];
        return;
      }
      called, handlers := called + [job], handlers + [funCallbacks[job.msg.id]];
      msgQue := msgQue[1..];
    }

    /** The loop of `dealMsg` after the stop flag was seen. */
    method DrainQueue() returns (ghost n: nat)
      requires Valid() && state.worker == Serving(true)
      modifies this`msgQue, this`called, this`handlers, this`state
      ensures Valid() && state == Works(old(state), n) && state.worker == Serving(true)
      ensures msgQue == [] && called == old(called) + Handled(old(msgQue))
    {
      hide Inv, Works, Handled, Valid, UpTo, Answered;
      NothingDone(state);
      n := 0;
      while msgQue != []
        invariant Valid() && state.worker == Serving(true) && state == Works(old(state), n)
        invariant called + Handled(msgQue) == old(called) + Handled(old(msgQue))
        decreases |msgQue|
      {
        FrontFirst(called, msgQue);
        ghost var k := DealFront();
        WorksOn(old(state), n, k);
        n := n + k;
      }
    }

    /** That loop and the `break` behind it: every registered job left in the queue has its
        callback, once and in order, the queue is empty and the worker has left, all in steps of
        the worker. */
    method Drain() returns (ghost n: nat)
      requires Valid() && state.worker == Serving(true)
      modifies this`msgQue, this`called, this`handlers, this`state
      ensures Valid() && state == Works(old(state), n) && state.worker.Exited?
      ensures msgQue == [] && called == old(called) + Handled(old(msgQue))
    {
      hide Inv, Works, Handled, UpTo, Answered;
      n := DrainQueue();
      LeaveStep(old(state), n);
      n := n + 1;
      state := Works(old(state), n);
    }

    /** The worker's step from its wait to what the flag says. */
    ghost method LookAtFlag()
      requires Valid() && state.worker.Past?
      modifies this`state
      ensures Valid() && state == Works(old(state), 1) && state.worker == Serving(stop)
      ensures !stop ==> msgQue != []
    {
      hide Inv, Works, UpTo, Answered;
      LookStep(state);
      state := Works(state, 1);
    }

    /** `dealMsg` from its wait to the end of a pass. When the flag is set the whole queue is dealt
        with and the worker leaves, without another thread's step; when it is not, one job is. */
    method Pass() returns (leaves: bool, ghost n: nat)
      requires Valid() && state.worker.Past?
      modifies this`msgQue, this`called, this`handlers, this`state
      ensures Valid() && state == Works(old(state), n)
      ensures leaves <==> stop
      ensures leaves ==> state.worker.Exited? && msgQue == [] && called == old(called) + Handled(old(msgQue))
      ensures !leaves ==> state.worker.Top? && old(msgQue) != [] && msgQue == old(msgQue)[1..]
      ensures !leaves ==> called == old(called) + Handled(old(msgQue)[..1])
    {
      hide Inv, Works, Handled, UpTo, Answered, Valid;
      LookAtFlag();
      leaves := stop;
      if stop {
        n := Drain();
      } else {
        n := DealFront();
      }
      WorksOn(old(state), 1, n);
      n := 1 + n;
    }
  }
}

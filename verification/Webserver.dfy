/** The server object: what each thread does, step by step, while the other thread may do anything in between. */
module Webserver {
  import opened CString
  import opened TimerModel
  import opened IdleProtocol
  import Timers = ThreadClockr

  /** One event that `epoll_wait` reports; `stops` says whether the pipe then delivers a signal to stop. */
  datatype Event = Event(fd: int, failed: bool, readable: bool, stops: bool)

  predicate IsStop(event: Event, listenFd: int, pipeFd: int) {
    event.fd == pipeFd && event.fd != listenFd && !event.failed && event.readable && event.stops
  }

  const RENEWAL: seq<Step> := [BumpVersion, ReadVersion, PushRenewed]

  /** The steps that handle one event; the event loop tests for the cases in this order. */
  ghost predicate Handles(event: Event, listenFd: int, pipeFd: int, steps: seq<Step>) {
    if event.fd == listenFd then
      |steps| == 2 && (steps[0].AcceptFails? || steps[0].Accept?) && steps[1] == AddNew
    else if event.failed then steps == [HangUp(event.fd)]
    else if event.fd == pipeFd || !event.readable then steps == []
    else
      steps == [ReadFails(event.fd)] + RENEWAL
      || exists refresh :: steps == [ReadOk(event.fd), HandlerDone(refresh)] + RENEWAL
  }

  /** These events were handled one after the other, each by its steps. */
  ghost predicate HandlesAll(events: seq<Event>, listenFd: int, pipeFd: int, steps: seq<Step>)
    decreases |events|
  {
    if events == [] then steps == []
    else
      var front, last := events[..|events| - 1], events[|events| - 1];
      exists k :: 0 <= k <= |steps| && HandlesAll(front, listenFd, pipeFd, steps[..k])
                  && Handles(last, listenFd, pipeFd, steps[k..])
  }

  lemma HandlesOneMore(events: seq<Event>, event: Event, listenFd: int, pipeFd: int, steps: seq<Step>, more: seq<Step>)
    requires HandlesAll(events, listenFd, pipeFd, steps) && Handles(event, listenFd, pipeFd, more)
    ensures HandlesAll(events + [event], listenFd, pipeFd, steps + more)
  {
    var all, longer := steps + more, events + [event];
    assert longer[..|longer| - 1] == events && all[..|steps|] == steps && all[|steps|..] == more;
  }

  /** What one thread did in a run of both. */
  ghost function EventSteps(trace: seq<Step>): seq<Step>
    decreases |trace|
  {
    if trace == [] then [] else
      var step := trace[|trace| - 1];
      EventSteps(trace[..|trace| - 1]) + if OfEventThread(step) then [step] else []
  }

  ghost function TimerSteps(trace: seq<Step>): seq<Step>
    decreases |trace|
  {
    if trace == [] then [] else
      var step := trace[|trace| - 1];
      TimerSteps(trace[..|trace| - 1]) + if OfTimerThread(step) then [step] else []
  }

  lemma TraceSnoc(trace: seq<Step>, step: Step)
    ensures EventSteps(trace + [step]) == EventSteps(trace) + if OfEventThread(step) then [step] else []
    ensures TimerSteps(trace + [step]) == TimerSteps(trace) + if OfTimerThread(step) then [step] else []
  {
    assert (trace + [step])[..|trace|] == trace;
  }

  /** The run went on, and the event thread added exactly these steps to it. */
  ghost predicate EventsDid(before: seq<Step>, trace: seq<Step>, steps: seq<Step>) {
    before <= trace && EventSteps(trace) == EventSteps(before) + steps
  }

  /** The run went on, and the timer thread added exactly these steps to it. */
  ghost predicate TimerDid(before: seq<Step>, trace: seq<Step>, steps: seq<Step>) {
    before <= trace && TimerSteps(trace) == TimerSteps(before) + steps
  }

  class Webserver {
    const listenFd: int
    const pipeFd: int
    const clock: Timers.ThreadClockr
    var now: int
    var conns: map<int, int>
    var stopFlag: bool
    ghost var ev: EventPc
    ghost var tm: TimerPc
    ghost var origin: Server
    ghost var trace: seq<Step>

    /** The protocol state. */
    ghost function View(): Server
      reads this, clock
    {
      Server(now, conns, clock.State(), ev, tm)
    }

    /** The object has come from its first state by steps of the protocol. */
    ghost predicate Valid()
      reads this, clock
    {
      Initial(origin) && RunsTo(origin, trace, View())
    }

    /** So no open connection is ever forgotten. */
    lemma {:induction false} OpenAreCovered(fd: int)
      requires Valid() && fd in conns
      ensures Inv(View()) && Covered(View(), fd)
    {
      RunKeepsInv(origin, trace);
    }

    /** The steps so far, split at one of them. */
    lemma SplitAt(k: nat)
      requires Valid() && k < |trace|
      ensures EnabledRun(origin, trace[..k]) && RunsTo(Final(origin, trace[..k]), trace[k..], View())
    {
      PrefixRuns(origin, trace, k);
      assert trace == trace[..k] + trace[k..];
      JoinRuns(origin, trace[..k], Final(origin, trace[..k]), trace[k..], View());
    }

    /** At every moment: a connection with activity within the timeout is open, unless its peer has ended it
        or a callback had found it idle before. */
    lemma ActiveIsOpen(k: nat, fd: int)
      requires Valid() && k < |trace| && NoDisconnect(trace[k..], fd)
      requires EnabledRun(origin, trace[..k])
      requires var s := Final(origin, trace[..k]);
               IsActivity(s, trace[k], fd) && !IsClosing(s, fd) && now < s.now + TIME_OUT
      ensures fd in conns
    {
      SplitAt(k);
      ActiveStaysOpen(Final(origin, trace[..k]), trace[k..], fd);
    }

    /** At every moment: a connection whose peer has hung up or failed is closed, unless its fd was handed out again. */
    lemma EndedIsClosed(k: nat, fd: int)
      requires Valid() && k < |trace| && (trace[k] == HangUp(fd) || trace[k] == ReadFails(fd))
      requires IdleProtocol.Accept(fd) !in trace[k..]
      ensures fd !in conns
    {
      SplitAt(k);
      ClosedStaysClosed(Final(origin, trace[..k]), trace[k..], fd);
    }

    lemma ReachedIsInv()
      requires Valid()
      ensures Inv(View())
    {
      RunKeepsInv(origin, trace);
    }

    constructor (listenFd: int, pipeFd: int, now: int)
      ensures fresh(clock) && Valid() && !stopFlag
      ensures ev == Ready && tm == Peek && conns == map[] && trace == []
    {
      this.listenFd, this.pipeFd, this.now := listenFd, pipeFd, now;
      conns, stopFlag := map[], false;
      clock := new Timers.ThreadClockr();
      ev, tm, trace := Ready, Peek, [];
      new;
      origin := View();
    }

    /** An entry that fires for this fd is queued, due a timeout from now. */
    ghost predicate HasTimer(fd: int)
      reads this, clock
    {
      exists e :: e in clock.State().queue && e.id == fd && e.callback == Some(fd) && e.expire == now + TIME_OUT
    }

    /** Records the step that has just been taken. */
    ghost method Took(step: Step, before: Server)
      requires Initial(origin) && RunsTo(origin, trace, before)
      requires Enabled(before, step) && View() == Apply(before, step)
      modifies this`trace
      ensures Valid() && trace == old(trace) + [step]
      ensures EventSteps(trace) == EventSteps(old(trace)) + if OfEventThread(step) then [step] else []
      ensures TimerSteps(trace) == TimerSteps(old(trace)) + if OfTimerThread(step) then [step] else []
    {
      hide RunsTo, Enabled, Apply, EventSteps, TimerSteps;
      OneStep(before, step);
      JoinRuns(origin, trace, before, [step], View());
      TraceSnoc(trace, step);
      trace := trace + [step];
    }

    method Wait()
      requires Valid()
      modifies this`now, this`trace
      ensures Valid() && EventsDid(old(trace), trace, []) && TimerDid(old(trace), trace, [])
    {
      hide RunsTo;
      var to: int := *;
      if now <= to {
        ghost var before := View();
        now := to;
        Took(Tick(to), before);
      }
    }

    /** A place where the timer thread may take any number of steps; callers know no more than that. */
    method TimerThread()
      requires Valid()
      modifies this`now, this`conns, this`tm, this`trace, clock
      ensures Valid() && EventsDid(old(trace), trace, [])
    {
      Wait();
    }

    /** A place where the event thread may take any number of steps; callers know no more than that. */
    method EventThread()
      requires Valid()
      modifies this`now, this`conns, this`stopFlag, this`ev, this`trace, clock
      ensures Valid() && TimerDid(old(trace), trace, [])
    {
      Wait();
    }

    /** The outcome of `accept`: no fd that is still open is handed out again. */
    method Accept() returns (r: Option<int>)
      ensures r.Some? ==> r.value !in conns
    {
      var fd: int := *;
      r := if fd in conns then None else Some(fd);
    }

    /** Whether `recv` got data, whether the request could be handled. */
    method Outcome() returns (ok: bool)
    {
      ok := *;
    }

    method CloseConn(fd: int) returns (r: bool)
      modifies this`conns, clock
      ensures View() == IdleProtocol.CloseConn(old(View()), fd)
      ensures r <==> fd in old(conns)
      ensures conns == old(conns) - {fd}
      ensures clock.State() == if r then Del(old(clock.State()), fd) else old(clock.State())
    {
      if fd !in conns {
        return false;
      }
      var deleted := clock.DelTimer(fd);
      conns := conns - {fd};
      r := true;
    }

    // ----- the event thread -----

    /** `deal_NewConn`: the new fd, or 0 when accepting failed. */
    method DealNewConn() returns (fd: int, ghost step: Step)
      requires Valid() && ev == Ready
      modifies this`now, this`conns, this`ev, this`tm, this`trace, clock
      ensures Valid() && ev == Accepted(fd) && EventsDid(old(trace), trace, [step])
      ensures (step == AcceptFails && fd == 0) || step == IdleProtocol.Accept(fd)
    {
      hide RunsTo, EventSteps, TimerSteps;
      TimerThread();
      ghost var before := View();
      var r := Accept();
      if r.None? {
        ev := Accepted(0);
        Took(AcceptFails, before);
        return 0, AcceptFails;
      }
      conns := conns[r.value := now];
      ev := Accepted(r.value);
      Took(IdleProtocol.Accept(r.value), before);
      return r.value, IdleProtocol.Accept(r.value);
    }

    /** The first half of `deal_Read`: the connection is looked up and read from, and closed on failure. */
    method Receive(fd: int) returns (r: bool)
      requires Valid() && ev == Ready
      modifies this`now, this`conns, this`ev, this`tm, this`trace, clock
      ensures Valid() && ev == (if r then Handling(fd) else Bumping(fd))
      ensures EventsDid(old(trace), trace, if r then [ReadOk(fd)] else [ReadFails(fd)])
    {
      hide RunsTo, EventSteps, TimerSteps;
      TimerThread();
      ghost var before := View();
      var received := Outcome();
      if fd !in conns || !received {
        var closed := CloseConn(fd);
        ev := Bumping(fd);
        Took(ReadFails(fd), before);
        return false;
      }
      conns := conns[fd := now];
      ev := Handling(fd);
      Took(ReadOk(fd), before);
      return true;
    }

    /** The second half: the request is handled, which may count as activity once more. */
    method HandleRequest(fd: int) returns (r: bool)
      requires Valid() && ev == Handling(fd)
      modifies this`now, this`conns, this`ev, this`tm, this`trace, clock
      ensures Valid() && ev == Bumping(fd) && EventsDid(old(trace), trace, [HandlerDone(r)])
    {
      hide RunsTo, EventSteps, TimerSteps;
      TimerThread();
      ghost var before := View();
      r := Outcome();
      if r && fd in conns {
        conns := conns[fd := now];
      }
      ev := Bumping(fd);
      Took(HandlerDone(r), before);
    }

    /** `deal_Read`, up to the point where the event loop renews the timer. */
    method DealRead(fd: int) returns (r: bool, ghost steps: seq<Step>)
      requires Valid() && ev == Ready
      modifies this`now, this`conns, this`ev, this`tm, this`trace, clock
      ensures Valid() && ev == Bumping(fd) && EventsDid(old(trace), trace, steps)
      ensures steps == [ReadFails(fd)] || steps == [ReadOk(fd), HandlerDone(r)]
    {
      hide Valid, EventSteps, TimerSteps;
      r := Receive(fd);
      if !r {
        return false, [ReadFails(fd)];
      }
      r := HandleRequest(fd);
      steps := [ReadOk(fd), HandlerDone(r)];
    }

    method AddTimer(fd: int)
      requires Valid() && ev == Accepted(fd)
      modifies this`now, this`conns, this`ev, this`tm, this`trace, clock
      ensures Valid() && ev == Ready && EventsDid(old(trace), trace, [AddNew])
      ensures HasTimer(fd)
    {
      hide RunsTo, EventSteps, TimerSteps;
      TimerThread();
      ghost var before := View();
      var added := clock.AddTimer(now, fd, TIME_OUT, Some(fd), 1);
      ev := Ready;
      Took(AddNew, before);
      assert Timer(fd, now + TIME_OUT, Some(fd), 1) in clock.State().queue;
    }

    method BumpTimer(fd: int)
      requires Valid() && ev == Bumping(fd)
      modifies this`now, this`conns, this`ev, this`tm, this`trace, clock
      ensures Valid() && ev == Reading(fd) && EventsDid(old(trace), trace, [BumpVersion])
    {
      hide RunsTo, EventSteps, TimerSteps;
      TimerThread();
      ghost var before := View();
      clock.BumpVersion(fd);
      ev := Reading(fd);
      Took(BumpVersion, before);
    }

    method ReadTimer(fd: int) returns (version: int)
      requires Valid() && ev == Reading(fd)
      modifies this`now, this`conns, this`ev, this`tm, this`trace, clock
      ensures Valid() && ev == Pushing(fd, version) && EventsDid(old(trace), trace, [ReadVersion])
    {
      hide RunsTo, EventSteps, TimerSteps;
      TimerThread();
      ghost var before := View();
      version := clock.Subscript(fd);
      ev := Pushing(fd, version);
      Took(ReadVersion, before);
    }

    method PushTimer(fd: int, version: int)
      requires Valid() && ev == Pushing(fd, version)
      modifies this`now, this`conns, this`ev, this`tm, this`trace, clock
      ensures Valid() && ev == Ready && EventsDid(old(trace), trace, [PushRenewed])
      ensures HasTimer(fd)
    {
      hide RunsTo, EventSteps, TimerSteps;
      TimerThread();
      ghost var before := View();
      var added := clock.AddTimer(now, fd, TIME_OUT, Some(fd), version);
      ev := Ready;
      Took(PushRenewed, before);
      assert Timer(fd, now + TIME_OUT, Some(fd), version) in clock.State().queue;
    }

    /** The three parts of `mod_timer`, with the timer thread in between. */
    method ModTimer(fd: int)
      requires Valid() && ev == Bumping(fd)
      modifies this`now, this`conns, this`ev, this`tm, this`trace, clock
      ensures Valid() && ev == Ready && EventsDid(old(trace), trace, RENEWAL)
      ensures HasTimer(fd)
    {
      hide Valid, EventSteps, TimerSteps;
      BumpTimer(fd);
      var version := ReadTimer(fd);
      PushTimer(fd, version);
    }

    /** Closes a connection that has failed. */
    method HangUpOn(fd: int)
      requires Valid() && ev == Ready
      modifies this`now, this`conns, this`ev, this`tm, this`trace, clock
      ensures Valid() && ev == Ready && EventsDid(old(trace), trace, [HangUp(fd)])
      ensures fd !in conns
    {
      hide RunsTo, EventSteps, TimerSteps;
      TimerThread();
      ghost var before := View();
      var closed := CloseConn(fd);
      Took(HangUp(fd), before);
    }

    method Dispatch(event: Event) returns (ghost steps: seq<Step>)
      requires Valid() && ev == Ready
      modifies this`now, this`conns, this`stopFlag, this`ev, this`tm, this`trace, clock
      ensures Valid() && ev == Ready && EventsDid(old(trace), trace, steps)
      ensures Handles(event, listenFd, pipeFd, steps)
      ensures stopFlag == (old(stopFlag) || IsStop(event, listenFd, pipeFd))
      ensures event.fd == listenFd ==> exists fd :: HasTimer(fd) && (steps[0] == IdleProtocol.Accept(fd) || fd == 0)
      ensures event.fd != listenFd && event.failed ==> event.fd !in conns
      ensures event.fd != listenFd && !event.failed && event.fd != pipeFd && event.readable ==> HasTimer(event.fd)
    {
      hide RunsTo, EventSteps, TimerSteps;
      steps := [];
      if event.fd == listenFd {
        var fd;
        ghost var step;
        fd, step := DealNewConn();
        AddTimer(fd);
        steps := [step, AddNew];
      } else if event.failed {
        HangUpOn(event.fd);
        steps := [HangUp(event.fd)];
      } else if event.fd == pipeFd && event.readable {
        stopFlag := stopFlag || event.stops;
      } else if event.readable {
        var handled;
        handled, steps := DealRead(event.fd);
        ModTimer(event.fd);
        steps := steps + RENEWAL;
      }
    }

    /** One batch of the event loop: every event is handled by its steps, in order, until a signal stops it. */
    method DispatchBatch(events: seq<Event>) returns (ghost done: nat, ghost steps: seq<Step>)
      requires Valid() && ev == Ready
      modifies this`now, this`conns, this`stopFlag, this`ev, this`tm, this`trace, clock
      ensures Valid() && ev == Ready && EventsDid(old(trace), trace, steps)
      ensures done <= |events| && (done == |events| || stopFlag)
      ensures stopFlag == (old(stopFlag) || exists k :: 0 <= k < done && IsStop(events[k], listenFd, pipeFd))
      ensures forall k :: 0 <= k < done - 1 ==> !IsStop(events[k], listenFd, pipeFd)
      ensures HandlesAll(events[..done], listenFd, pipeFd, steps)
    {
      hide RunsTo, EventSteps, TimerSteps, Handles;
      done, steps := 0, [];
      var i := 0;
      while i < |events| && !stopFlag
        invariant 0 <= i == done <= |events|
        invariant Valid() && ev == Ready && EventsDid(old(trace), trace, steps)
        invariant stopFlag == (old(stopFlag) || exists k :: 0 <= k < i && IsStop(events[k], listenFd, pipeFd))
        invariant forall k :: 0 <= k < i - 1 ==> !IsStop(events[k], listenFd, pipeFd)
        invariant HandlesAll(events[..i], listenFd, pipeFd, steps)
        decreases |events| - i
      {
        ghost var more := Dispatch(events[i]);
        HandlesOneMore(events[..i], events[i], listenFd, pipeFd, steps, more);
        assert events[..i + 1] == events[..i] + [events[i]];
        steps := steps + more;
        i := i + 1;
        done := i;
      }
    }

    // ----- the timer thread -----

    method CheckIdle(fd: int, ghost rest: seq<int>) returns (idle: bool)
      requires Valid() && tm == Running([fd] + rest)
      modifies this`now, this`conns, this`stopFlag, this`ev, this`tm, this`trace, clock
      ensures Valid() && tm == (if idle then Closing(fd, rest) else Running(rest))
      ensures TimerDid(old(trace), trace, [RunTask])
    {
      hide RunsTo, EventSteps, TimerSteps;
      EventThread();
      ghost var before := View();
      assert ([fd] + rest)[1..] == rest;
      idle := fd in conns && conns[fd] + TIME_OUT <= now;
      tm := if idle then Closing(fd, rest) else Running(rest);
      Took(RunTask, before);
    }

    method CloseFoundIdle(fd: int, ghost rest: seq<int>)
      requires Valid() && tm == Closing(fd, rest)
      modifies this`now, this`conns, this`stopFlag, this`ev, this`tm, this`trace, clock
      ensures Valid() && tm == Running(rest) && TimerDid(old(trace), trace, [CloseIdle])
    {
      hide RunsTo, EventSteps, TimerSteps;
      EventThread();
      ghost var before := View();
      var closed := CloseConn(fd);
      tm := Running(rest);
      Took(CloseIdle, before);
    }

    /** `timer_task`: closes the connection if it finds it idle for the timeout. */
    method TimerTask(fd: int, ghost rest: seq<int>) returns (r: bool)
      requires Valid() && tm == Running([fd] + rest)
      modifies this`now, this`conns, this`stopFlag, this`ev, this`tm, this`trace, clock
      ensures Valid() && tm == Running(rest)
      ensures TimerDid(old(trace), trace, if r then [RunTask, CloseIdle] else [RunTask])
      ensures forall f, at ::
                ActiveSince(old(View()), f, at) && NoDisconnect(trace[|old(trace)|..], f) && now < at + TIME_OUT
                ==> f in conns
    {
      hide RunsTo, EventSteps, TimerSteps;
      ghost var before, start := View(), trace;
      r := CheckIdle(fd, rest);
      if r {
        CloseFoundIdle(fd, rest);
      }
      assert trace == start + trace[|start|..];
      JoinRuns(origin, start, before, trace[|start|..], View());
      ActiveAreKept(before, trace[|start|..], View());
    }

    /** The loop that runs the collected callbacks, up to the next look at the queue. */
    method RunTasks(tasks: seq<int>) returns (ghost steps: seq<Step>)
      requires Valid() && tm == Running(tasks)
      modifies this`now, this`conns, this`stopFlag, this`ev, this`tm, this`trace, clock
      ensures Valid() && tm == Peek && TimerDid(old(trace), trace, steps)
      ensures forall i :: 0 <= i < |steps| ==> steps[i] == RunTask || steps[i] == CloseIdle
    {
      hide RunsTo, EventSteps, TimerSteps;
      steps := [];
      assert tasks[0..] == tasks;
      var i := 0;
      while i < |tasks|
        invariant 0 <= i <= |tasks|
        invariant Valid() && tm == Running(tasks[i..]) && TimerDid(old(trace), trace, steps)
        invariant forall i :: 0 <= i < |steps| ==> steps[i] == RunTask || steps[i] == CloseIdle
      {
        assert tasks[i..] == [tasks[i]] + tasks[i + 1..];
        var closed := TimerTask(tasks[i], tasks[i + 1..]);
        steps := steps + if closed then [RunTask, CloseIdle] else [RunTask];
        i := i + 1;
      }
      ghost var before := View();
      tm := Peek;
      Took(RunTask, before);
      steps := steps + [RunTask];
    }

    /** `handle_timer`: one pass of the timer thread, from collecting to its next look at the queue. */
    method HandleTimer() returns (ghost order: seq<Timer>, ghost more: seq<Step>)
      requires Valid() && tm == Collect
      modifies this`now, this`conns, this`stopFlag, this`ev, this`tm, this`trace, clock
      ensures Valid() && tm == Peek && Enabled(old(View()), CollectDue(order))
      ensures trace == old(trace) + [CollectDue(order)] + more
      ensures forall fd :: fd in conns && !Busy(old(ev), fd) && AllLeaveAlone(more, fd)
                           ==> exists e :: IsCurrent(View(), fd, e) && old(now) < e.expire
      ensures forall fd :: Doomed(Apply(old(View()), CollectDue(order)), fd) && NoActivity(more, fd) ==> fd !in conns
      ensures forall fd, at :: ActiveSince(old(View()), fd, at) && NoDisconnect(more, fd) && now < at + TIME_OUT
                               ==> fd in conns
    {
      hide RunsTo, EventSteps, TimerSteps, Inv, Enabled, Apply;
      ReachedIsInv();
      ghost var before := View();
      var tasks;
      tasks, order := clock.HandleTimer(now);
      tm := Running(tasks);
      Collects(before, order, View(), tasks);
      Took(CollectDue(order), before);
      ghost var collected, start := View(), trace;
      ghost var steps := RunTasks(tasks);
      more := trace[|start|..];
      assert trace == start + more;
      JoinRuns(origin, start, collected, more, View());
      PassHasClosed(before, order, more, View());
      PassHasKept(before, order, more, View());
    }
  }

  /** Collecting in one locked region is the protocol's step. */
  lemma Collects(before: Server, order: seq<Timer>, after: Server, tasks: seq<int>)
    requires before.tm == Collect && Surfaces(before.clock.queue, before.now, order)
    requires Timers.Collected(tasks, Handle(before.clock, order).1)
    requires after == before.(clock := Handle(before.clock, order).0, tm := Running(tasks))
    ensures Enabled(before, CollectDue(order)) && after == Apply(before, CollectDue(order))
  {
  }

  /** Connections active within the timeout are kept, unless their peers end them. */
  lemma ActiveAreKept(s: Server, more: seq<Step>, last: Server)
    requires RunsTo(s, more, last)
    ensures forall fd, at :: ActiveSince(s, fd, at) && NoDisconnect(more, fd) && last.now < at + TIME_OUT
                             ==> fd in last.conns
  {
    forall fd, at | ActiveSince(s, fd, at) && NoDisconnect(more, fd) && last.now < at + TIME_OUT
      ensures fd in last.conns
    {
      RunKeepsActive(s, more, fd, at);
    }
  }

  lemma PassHasKept(s: Server, order: seq<Timer>, more: seq<Step>, last: Server)
    requires Enabled(s, CollectDue(order)) && RunsTo(Apply(s, CollectDue(order)), more, last)
    ensures forall fd, at :: ActiveSince(s, fd, at) && NoDisconnect(more, fd) && last.now < at + TIME_OUT
                             ==> fd in last.conns
  {
    hide Surfaces, Handle;
    var s' := Apply(s, CollectDue(order));
    assert forall fd, at :: ActiveSince(s, fd, at) ==> ActiveSince(s', fd, at);
    ActiveAreKept(Apply(s, CollectDue(order)), more, last);
  }

  lemma {:induction false} PrefixRuns(s: Server, steps: seq<Step>, k: nat)
    requires EnabledRun(s, steps) && k <= |steps|
    ensures EnabledRun(s, steps[..k])
    decreases k
  {
    hide Enabled, Apply;
    if k != 0 {
      PrefixRuns(Apply(s, steps[0]), steps[1..], k - 1);
      assert steps[..k][1..] == steps[1..][..k - 1];
    }
  }

  /** What a pass has achieved when its callbacks have run, whatever the event thread did meanwhile. */
  lemma PassHasClosed(s: Server, order: seq<Timer>, more: seq<Step>, last: Server)
    requires Inv(s) && Enabled(s, CollectDue(order))
    requires RunsTo(Apply(s, CollectDue(order)), more, last) && last.tm == Peek
    ensures forall fd :: fd in last.conns && !Busy(s.ev, fd) && AllLeaveAlone(more, fd)
                         ==> exists e :: IsCurrent(last, fd, e) && s.now < e.expire
    ensures forall fd :: Doomed(Apply(s, CollectDue(order)), fd) && NoActivity(more, fd) ==> fd !in last.conns
  {
    hide Inv, Enabled, Apply, AllLeaveAlone, NoActivity, Doomed;
    forall fd | fd in last.conns && !Busy(s.ev, fd) && AllLeaveAlone(more, fd)
      ensures exists e :: IsCurrent(last, fd, e) && s.now < e.expire
    {
      PassClosesIdle(s, order, more, fd);
    }
    forall fd | Doomed(Apply(s, CollectDue(order)), fd) && NoActivity(more, fd)
      ensures fd !in last.conns
    {
      CollectedCallbackCloses(Apply(s, CollectDue(order)), more, fd);
    }
  }
}

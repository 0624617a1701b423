/** Idle connections: the event thread and the timer thread as interleaved atomic steps. */
module IdleProtocol {
  import opened CString
  import opened TimerModel

  const TIME_OUT: int := 1

  /** Where the event thread is. Between two events it is ready; the rest is work in progress on one fd. */
  datatype EventPc =
    | Ready
    | Accepted(fd: int)                 // add_timer is next
    | Handling(fd: int)                 // the read succeeded, the handler runs
    | Bumping(fd: int)                  // mod_timer: the locked increment is next
    | Reading(fd: int)                  // mod_timer: the version is read next
    | Pushing(fd: int, version: int)    // mod_timer: the new entry is pushed next

  /** Where the timer thread is in its loop. */
  datatype TimerPc =
    | Peek                              // the top's deadline is looked up next
    | Decide(wait: int, at: int)        // the waiting time was computed at time `at`
    | Timed(until: int, late: int)      // waits until then; `late` passed between computing and waiting
    | Idle                              // waits for an entry
    | Collect                           // the due callbacks are collected next
    | Running(tasks: seq<int>)          // callbacks left to run
    | Closing(fd: int, rest: seq<int>)  // a callback found this connection idle and closes it next

  /** `conns` maps the fd of every open connection to the time it was last active. */
  datatype Server = Server(now: int, conns: map<int, int>, clock: Clock, ev: EventPc, tm: TimerPc)

  datatype Step =
    | Tick(to: int)
    | Accept(fd: int) | AcceptFails | AddNew
    | ReadOk(fd: int) | ReadFails(fd: int) | HandlerDone(refresh: bool) | HangUp(fd: int)
    | BumpVersion | ReadVersion | PushRenewed
    | PeekTop(wait: int) | ChooseWait | TimedOut | Woken | CollectDue(order: seq<Timer>) | RunTask | CloseIdle

  function CloseConn(s: Server, fd: int): Server {
    if fd in s.conns then s.(conns := s.conns - {fd}, clock := Del(s.clock, fd)) else s
  }

  /** The top's deadline, as the queue's order gives it. */
  ghost predicate IsWait(s: Server, wait: int) {
    if s.clock.queue == multiset{} then wait == 0
    else exists top :: IsTop(s.clock.queue, top) && wait == top.expire - s.now
  }

  ghost predicate Enabled(s: Server, step: Step) {
    match step
    case Tick(to) => s.now <= to
    case Accept(fd) => s.ev.Ready? && fd !in s.conns
    case AcceptFails => s.ev.Ready?
    case AddNew => s.ev.Accepted?
    case ReadOk(fd) => s.ev.Ready? && fd in s.conns
    case ReadFails(fd) => s.ev.Ready?
    case HandlerDone(refresh) => s.ev.Handling?
    case HangUp(fd) => s.ev.Ready?
    case BumpVersion => s.ev.Bumping?
    case ReadVersion => s.ev.Reading?
    case PushRenewed => s.ev.Pushing?
    case PeekTop(wait) => s.tm.Peek? && IsWait(s, wait)
    case ChooseWait => s.tm.Decide?
    case TimedOut => s.tm.Timed? && s.tm.until <= s.now
    case Woken => s.tm.Idle? && s.clock.queue != multiset{}
    case CollectDue(order) => s.tm.Collect? && Surfaces(s.clock.queue, s.now, order)
    case RunTask => s.tm.Running?
    case CloseIdle => s.tm.Closing?
  }

  ghost function Apply(s: Server, step: Step): Server
    requires Enabled(s, step)
  {
    match step
    case Tick(to) => s.(now := to)
    case Accept(fd) => s.(conns := s.conns[fd := s.now], ev := Accepted(fd))
    // a failed accept returns 0, and a timer is added for that number
    case AcceptFails => s.(ev := Accepted(0))
    case AddNew => s.(clock := Add(s.clock, s.now, s.ev.fd, TIME_OUT, Some(s.ev.fd), 1), ev := Ready)
    case ReadOk(fd) => s.(conns := s.conns[fd := s.now], ev := Handling(fd))
    case ReadFails(fd) => CloseConn(s, fd).(ev := Bumping(fd))
    case HandlerDone(refresh) =>
      s.(conns := if refresh && s.ev.fd in s.conns then s.conns[s.ev.fd := s.now] else s.conns, ev := Bumping(s.ev.fd))
    case HangUp(fd) => CloseConn(s, fd)
    case BumpVersion => s.(clock := Bump(s.clock, s.ev.fd), ev := Reading(s.ev.fd))
    case ReadVersion =>
      s.(clock := Read(s.clock, s.ev.fd), ev := Pushing(s.ev.fd, VersionOf(s.clock, s.ev.fd)))
    case PushRenewed =>
      s.(clock := Add(s.clock, s.now, s.ev.fd, TIME_OUT, Some(s.ev.fd), s.ev.version), ev := Ready)
    case PeekTop(wait) => s.(tm := Decide(wait, s.now))
    case ChooseWait =>
      s.(tm := if 0 < s.tm.wait then Timed(s.now + s.tm.wait, s.now - s.tm.at)
               else if s.clock.queue == multiset{} then Idle else Collect)
    case TimedOut => s.(tm := Collect)
    case Woken => s.(tm := Collect)
    case CollectDue(order) =>
      var (clock, fired) := Handle(s.clock, order);
      s.(clock := clock, tm := Running(CallbacksOf(fired)))
    case RunTask =>
      if s.tm.tasks == [] then s.(tm := Peek) else
        var fd, rest := s.tm.tasks[0], s.tm.tasks[1..];
        if fd in s.conns && s.conns[fd] + TIME_OUT <= s.now then s.(tm := Closing(fd, rest))
        else s.(tm := Running(rest))
    case CloseIdle => CloseConn(s, s.tm.fd).(tm := Running(s.tm.rest))
  }

  // ----- the invariant: no open connection is forgotten -----

  /** A queued entry of the current version whose deadline lies at least a timeout after the last activity. */
  ghost predicate IsCurrent(s: Server, fd: int, e: Timer) {
    e in s.clock.queue && e.id == fd && 1 <= e.version
    && fd in s.clock.versions && s.clock.versions[fd] == e.version
    && fd in s.conns && s.conns[fd] + TIME_OUT <= e.expire
  }

  ghost predicate HasCurrent(s: Server, fd: int) {
    exists e :: IsCurrent(s, fd, e)
  }

  /** A collected callback that will find the connection idle, or has found it so. */
  ghost predicate WillClose(s: Server, fd: int)
    requires fd in s.conns
  {
    match s.tm
    case Running(tasks) => fd in tasks && s.conns[fd] + TIME_OUT <= s.now
    case Closing(k, rest) => k == fd || (fd in rest && s.conns[fd] + TIME_OUT <= s.now)
    case _ => false
  }

  predicate Busy(ev: EventPc, fd: int) {
    match ev
    case Ready => false
    case Accepted(k) => k == fd
    case Handling(k) => k == fd
    case Bumping(k) => k == fd
    case Reading(k) => k == fd
    case Pushing(k, version) => k == fd
  }

  ghost predicate Covered(s: Server, fd: int)
    requires fd in s.conns
  {
    HasCurrent(s, fd) || WillClose(s, fd) || Busy(s.ev, fd)
  }

  ghost predicate ClockOk(c: Clock, now: int) {
    (forall e :: e in c.queue ==> e.callback == Some(e.id) && 0 <= e.version && e.expire <= now + TIME_OUT)
    && forall id :: id in c.versions ==> 0 <= c.versions[id]
  }

  ghost predicate QueueOk(s: Server) {
    ClockOk(s.clock, s.now) && forall fd :: fd in s.conns ==> s.conns[fd] <= s.now
  }

  /** While an open connection is renewed, its version stays positive. */
  ghost predicate RenewalOk(s: Server) {
    match s.ev
    case Reading(fd) => fd in s.conns ==> 1 <= VersionOf(s.clock, fd)
    case Pushing(fd, version) => 0 <= version && (fd in s.conns ==> 1 <= version)
    case _ => true
  }

  /** The timer thread never waits past a deadline, but for the time it lost between computing and waiting. */
  ghost predicate WaitOk(s: Server) {
    match s.tm
    case Decide(wait, at) => at <= s.now && (0 < wait ==> NoneBefore(s, at + wait))
    case Timed(until, late) => 0 <= late && NoneBefore(s, until - late)
    case _ => true
  }

  ghost predicate NoneBefore(s: Server, deadline: int) {
    deadline <= s.now + TIME_OUT && forall e :: e in s.clock.queue ==> deadline <= e.expire
  }

  ghost predicate Inv(s: Server) {
    QueueOk(s) && RenewalOk(s) && WaitOk(s) && forall fd :: fd in s.conns ==> Covered(s, fd)
  }

  ghost predicate Initial(s: Server) {
    s.conns == map[] && s.clock == Clock(multiset{}, map[]) && s.ev == Ready && s.tm == Peek
  }

  /** Closing one connection leaves the others covered. */
  lemma CloseKeeps(s: Server, fd: int, k: int)
    requires QueueOk(s) && k in s.conns && k != fd && Covered(s, k)
    ensures Covered(CloseConn(s, fd), k)
  {
    var s' := CloseConn(s, fd);
    if e :| IsCurrent(s, k, e) {
      assert IsCurrent(s', k, e);
    }
  }

  /** A queued entry that is not due, or is stale, stays; a due current entry is collected. */
  lemma {:induction false} DrainSparesPositive(versions: map<int, int>, order: seq<Timer>, id: int)
    requires id in versions && 1 <= versions[id]
    ensures id in Drain(versions, order).0 && Drain(versions, order).0[id] == versions[id]
    ensures forall e :: e in order && e.id == id && e.version == versions[id] && e.callback.Some?
                        ==> e in Drain(versions, order).1
    decreases |order|
  {
    if order != [] {
      DrainSparesPositive(Surface(versions, order[0]).0, order[1..], id);
    }
  }

  lemma {:induction false} DrainShrinks(versions: map<int, int>, order: seq<Timer>)
    ensures var v := Drain(versions, order).0; forall id :: id in v ==> id in versions && v[id] == versions[id]
    decreases |order|
  {
    if order != [] {
      DrainShrinks(Surface(versions, order[0]).0, order[1..]);
    }
  }

  lemma DueIsCollected(c: Clock, now: int, order: seq<Timer>, e: Timer)
    requires Surfaces(c.queue, now, order) && e in c.queue && e.callback.Some?
    requires e.id in c.versions && 1 <= c.versions[e.id] == e.version
    ensures var (c', fired) := Handle(c, order);
            e.id in c'.versions && c'.versions[e.id] == e.version
            && if e.expire <= now then e.callback.value in CallbacksOf(fired) else e in c'.queue
  {
    DrainSparesPositive(c.versions, order, e.id);
    if e.expire <= now {
      assert e !in c.queue - multiset(order);
      assert e in multiset(order) && e in order;
      var fired := Handle(c, order).1;
      var i :| 0 <= i < |fired| && fired[i] == e;
      assert CallbacksOf(fired)[i] == e.callback.value;
    } else {
      assert e !in order;
      assert multiset(order)[e] == 0;
    }
  }

  lemma CollectKeeps(s: Server, order: seq<Timer>, fd: int)
    requires Inv(s) && Enabled(s, CollectDue(order)) && fd in s.conns
    ensures Covered(Apply(s, CollectDue(order)), fd)
  {
    hide Handle, CallbacksOf, Surfaces;
    var s' := Apply(s, CollectDue(order));
    if e :| IsCurrent(s, fd, e) {
      DueIsCollected(s.clock, s.now, order, e);
      if s.now < e.expire {
        assert IsCurrent(s', fd, e);
      }
    }
  }

  lemma AddKeeps(s: Server, fd: int, version: int, k: int)
    requires QueueOk(s) && k in s.conns && Covered(s, k)
    requires Busy(s.ev, fd) && (fd in s.conns ==> 1 <= version)
    ensures Covered(s.(clock := Add(s.clock, s.now, fd, TIME_OUT, Some(fd), version), ev := Ready), k)
  {
    var s' := s.(clock := Add(s.clock, s.now, fd, TIME_OUT, Some(fd), version), ev := Ready);
    if k == fd {
      assert IsCurrent(s', k, Timer(fd, s.now + TIME_OUT, Some(fd), version));
    } else if e :| IsCurrent(s, k, e) {
      assert IsCurrent(s', k, e);
    }
  }

  /** Every step keeps every open connection covered. */
  lemma StepKeepsCovered(s: Server, step: Step, k: int)
    requires Inv(s) && Enabled(s, step) && k in Apply(s, step).conns
    ensures Covered(Apply(s, step), k)
  {
    var s' := Apply(s, step);
    match step
    case AddNew => AddKeeps(s, s.ev.fd, 1, k);
    case PushRenewed => AddKeeps(s, s.ev.fd, s.ev.version, k);
    case CollectDue(order) => CollectKeeps(s, order, k);
    case ReadFails(fd) => CloseKeeps(s, fd, k); KeptElsewhere(CloseConn(s, fd), s', k);
    case HangUp(fd) => CloseKeeps(s, fd, k);
    case CloseIdle => CloseKeeps(s, s.tm.fd, k); KeptElsewhere(CloseConn(s, s.tm.fd), s', k);
    case _ =>
      if !Busy(s'.ev, k) {
        assert k in s.conns && s'.conns[k] == s.conns[k];
        KeptElsewhere(s, s', k);
      }
  }

  /** Covered stays covered when nothing about this connection changes. */
  lemma KeptElsewhere(s: Server, s': Server, k: int)
    requires k in s.conns && Covered(s, k)
    requires k in s'.conns && s'.conns[k] == s.conns[k] && s.now <= s'.now
    requires s'.clock.queue == s.clock.queue
    requires k in s.clock.versions ==> k in s'.clock.versions && s'.clock.versions[k] == s.clock.versions[k]
    requires WillClose(s, k) ==> WillClose(s', k)
    requires Busy(s.ev, k) ==> Busy(s'.ev, k)
    ensures Covered(s', k)
  {
    if e :| IsCurrent(s, k, e) {
      assert IsCurrent(s', k, e);
    }
  }

  lemma AddClockOk(c: Clock, now: int, fd: int, version: int)
    requires ClockOk(c, now) && 0 <= version
    ensures ClockOk(Add(c, now, fd, TIME_OUT, Some(fd), version), now)
  {
    var c' := Add(c, now, fd, TIME_OUT, Some(fd), version);
    forall e | e in c'.queue ensures e.callback == Some(e.id) && 0 <= e.version && e.expire <= now + TIME_OUT {
      assert e == Timer(fd, now + TIME_OUT, Some(fd), version) || e in c.queue;
    }
  }

  lemma HandleClockOk(c: Clock, now: int, order: seq<Timer>)
    requires ClockOk(c, now)
    ensures ClockOk(Handle(c, order).0, now)
  {
    DrainShrinks(c.versions, order);
  }

  lemma StepKeepsQueue(s: Server, step: Step)
    requires Inv(s) && Enabled(s, step)
    ensures QueueOk(Apply(s, step))
  {
    hide Add, Handle, Surfaces, Covered, WaitOk, NoneBefore, IsWait, IsTop, CallbacksOf;
    match step
    case AddNew => AddClockOk(s.clock, s.now, s.ev.fd, 1);
    case PushRenewed => AddClockOk(s.clock, s.now, s.ev.fd, s.ev.version);
    case CollectDue(order) => HandleClockOk(s.clock, s.now, order);
    case _ =>
  }

  lemma StepKeepsRenewal(s: Server, step: Step)
    requires Inv(s) && Enabled(s, step)
    ensures RenewalOk(Apply(s, step))
  {
    hide Surfaces, Covered, WaitOk, NoneBefore, IsWait;
    if step.CollectDue? && s.ev.Reading? && s.ev.fd in s.conns {
      DrainSparesPositive(s.clock.versions, step.order, s.ev.fd);
    }
  }

  lemma StepKeepsWait(s: Server, step: Step)
    requires Inv(s) && Enabled(s, step)
    ensures WaitOk(Apply(s, step))
  {
    hide Surfaces, Covered, RenewalOk, Handle;
    var s' := Apply(s, step);
    if step.AddNew? || step.PushRenewed? {
      var version := if step.AddNew? then 1 else s.ev.version;
      forall e | e in s'.clock.queue ensures e in s.clock.queue || e.expire == s.now + TIME_OUT {
        assert e == Timer(s.ev.fd, s.now + TIME_OUT, Some(s.ev.fd), version) || e in s.clock.queue;
      }
    }
  }

  lemma {:induction false} StepKeepsInv(s: Server, step: Step)
    requires Inv(s) && Enabled(s, step)
    ensures Inv(Apply(s, step))
  {
    StepKeepsQueue(s, step);
    StepKeepsRenewal(s, step);
    StepKeepsWait(s, step);
    forall k | k in Apply(s, step).conns ensures Covered(Apply(s, step), k) {
      StepKeepsCovered(s, step, k);
    }
  }

  // ----- all interleavings -----

  ghost predicate EnabledRun(s: Server, steps: seq<Step>)
    decreases |steps|
  {
    steps == [] || (Enabled(s, steps[0]) && EnabledRun(Apply(s, steps[0]), steps[1..]))
  }

  ghost function Final(s: Server, steps: seq<Step>): Server
    requires EnabledRun(s, steps)
    decreases |steps|
  {
    if steps == [] then s else Final(Apply(s, steps[0]), steps[1..])
  }

  lemma {:induction false} RunKeepsInv(s: Server, steps: seq<Step>)
    requires Inv(s) && EnabledRun(s, steps)
    ensures Inv(Final(s, steps))
    decreases |steps|
  {
    hide Inv, Enabled, Apply;
    if steps != [] {
      StepKeepsInv(s, steps[0]);
      RunKeepsInv(Apply(s, steps[0]), steps[1..]);
    }
  }

  /** Over every interleaving of the two threads, no open connection loses its timer. */
  lemma {:induction false} OpenConnectionsCovered(s: Server, steps: seq<Step>, fd: int)
    requires Initial(s) && EnabledRun(s, steps) && fd in Final(s, steps).conns
    ensures Covered(Final(s, steps), fd)
  {
    RunKeepsInv(s, steps);
  }

  /** When a timed wait ends on time, no queued entry has been due for longer than the delay before the wait. */
  lemma {:induction false} WaitsAreShortEnough(s: Server, steps: seq<Step>, e: Timer)
    requires Initial(s) && EnabledRun(s, steps)
    requires var s' := Final(s, steps); s'.tm.Timed? && s'.now == s'.tm.until && e in s'.clock.queue
    ensures var s' := Final(s, steps); s'.now - s'.tm.late <= e.expire
  {
    RunKeepsInv(s, steps);
  }

  /** Pushes arrive in deadline order: a new entry is never due before one already queued. */
  lemma {:induction false} PushesInOrder(s: Server, steps: seq<Step>, push: Step) returns (entry: Timer)
    requires Initial(s) && EnabledRun(s, steps)
    requires (push.AddNew? || push.PushRenewed?) && Enabled(Final(s, steps), push)
    ensures Apply(Final(s, steps), push).clock.queue == Final(s, steps).clock.queue + multiset{entry}
    ensures forall e :: e in Final(s, steps).clock.queue ==> e.expire <= entry.expire
  {
    RunKeepsInv(s, steps);
    var s' := Final(s, steps);
    hide Final, EnabledRun;
    entry := Timer(s'.ev.fd, s'.now + TIME_OUT, Some(s'.ev.fd), if push.AddNew? then 1 else s'.ev.version);
  }

  // ----- an idle connection is closed -----

  predicate OfEventThread(step: Step) {
    match step
    case Accept(fd) => true
    case AcceptFails => true
    case AddNew => true
    case ReadOk(fd) => true
    case ReadFails(fd) => true
    case HandlerDone(refresh) => true
    case HangUp(fd) => true
    case BumpVersion => true
    case ReadVersion => true
    case PushRenewed => true
    case _ => false
  }

  predicate OfTimerThread(step: Step) {
    !OfEventThread(step) && !step.Tick?
  }

  /** Steps that do not begin anything that would queue a timer for this fd. */
  predicate LeavesAlone(step: Step, fd: int) {
    step != Accept(fd) && step != ReadOk(fd) && step != ReadFails(fd) && !(step.AcceptFails? && fd == 0)
  }

  predicate AllLeaveAlone(steps: seq<Step>, fd: int) {
    forall i :: 0 <= i < |steps| ==> LeavesAlone(steps[i], fd)
  }

  /** Nothing is queued for this fd that is due by this time, and the event thread is not about to queue anything. */
  ghost predicate Later(s: Server, fd: int, at: int) {
    !Busy(s.ev, fd) && forall e :: e in s.clock.queue && e.id == fd ==> at < e.expire
  }

  lemma StepKeepsLater(s: Server, step: Step, fd: int, at: int)
    requires Later(s, fd, at) && Enabled(s, step) && LeavesAlone(step, fd)
    ensures Later(Apply(s, step), fd, at)
  {
    hide IsWait, Surfaces;
    if step.AddNew? || step.PushRenewed? {
      var e' := Timer(s.ev.fd, s.now + TIME_OUT, Some(s.ev.fd), if step.AddNew? then 1 else s.ev.version);
      assert forall e :: e in Apply(s, step).clock.queue ==> e == e' || e in s.clock.queue;
    }
  }

  lemma {:induction false} RunKeepsLater(s: Server, steps: seq<Step>, fd: int, at: int)
    requires Later(s, fd, at) && EnabledRun(s, steps)
    requires AllLeaveAlone(steps, fd)
    ensures Later(Final(s, steps), fd, at)
    decreases |steps|
  {
    hide Later, Enabled, Apply, LeavesAlone;
    if steps != [] {
      StepKeepsLater(s, steps[0], fd, at);
      RunKeepsLater(Apply(s, steps[0]), steps[1..], fd, at);
    }
  }

  /** Whatever the event thread does for other connections: once a pass has collected at some time and its callbacks
      have run, a connection that was left alone is open only if it was renewed to a later time. */
  lemma {:induction false} PassClosesIdle(s: Server, order: seq<Timer>, steps: seq<Step>, fd: int)
    requires Inv(s) && !Busy(s.ev, fd) && Enabled(s, CollectDue(order))
    requires var s' := Apply(s, CollectDue(order));
             EnabledRun(s', steps) && Final(s', steps).tm.Peek? && fd in Final(s', steps).conns
    requires AllLeaveAlone(steps, fd)
    ensures var last := Final(Apply(s, CollectDue(order)), steps);
            exists e :: IsCurrent(last, fd, e) && s.now < e.expire
  {
    var s' := Apply(s, CollectDue(order));
    var last := Final(s', steps);
    StepKeepsInv(s, CollectDue(order));
    RunKeepsInv(s', steps);
    RunKeepsLater(s', steps, fd, s.now);
    assert Covered(last, fd);
    var e :| IsCurrent(last, fd, e);
  }

  /** A collected callback will find the connection idle, and the event thread is not recording activity on it. */
  ghost predicate Doomed(s: Server, fd: int) {
    s.ev != Handling(fd) && (fd in s.conns ==> WillClose(s, fd))
  }

  lemma StepKeepsDoomed(s: Server, step: Step, fd: int)
    requires Doomed(s, fd) && Enabled(s, step) && step != Accept(fd) && step != ReadOk(fd)
    ensures Doomed(Apply(s, step), fd)
  {
    hide IsWait, Surfaces, Handle;
  }

  /** The connection is not opened anew, and nothing is received on it. */
  predicate NoActivity(steps: seq<Step>, fd: int) {
    forall i :: 0 <= i < |steps| ==> steps[i] != Accept(fd) && steps[i] != ReadOk(fd)
  }

  /** Whatever both threads do in between: unless activity on the connection comes first, or it is opened anew,
      a collected callback has closed it when the collected callbacks have run. */
  lemma {:induction false} CollectedCallbackCloses(s: Server, steps: seq<Step>, fd: int)
    requires Doomed(s, fd) && EnabledRun(s, steps) && Final(s, steps).tm.Peek?
    requires NoActivity(steps, fd)
    ensures fd !in Final(s, steps).conns
    decreases |steps|
  {
    hide Enabled, Apply;
    if steps != [] {
      StepKeepsDoomed(s, steps[0], fd);
      CollectedCallbackCloses(Apply(s, steps[0]), steps[1..], fd);
    }
  }

  // ----- an active connection stays open, a closed one stays closed -----

  /** Steps that count as activity on a connection. */
  ghost predicate IsActivity(s: Server, step: Step, fd: int) {
    step == Accept(fd) || step == ReadOk(fd) || (step == HandlerDone(true) && s.ev == Handling(fd) && fd in s.conns)
  }

  /** The peer neither hangs up nor fails to be read from. */
  predicate NoDisconnect(steps: seq<Step>, fd: int) {
    forall i :: 0 <= i < |steps| ==> steps[i] != HangUp(fd) && steps[i] != ReadFails(fd)
  }

  /** A callback has found this connection idle and closes it next. */
  predicate IsClosing(s: Server, fd: int) {
    s.tm.Closing? && s.tm.fd == fd
  }

  ghost predicate ActiveSince(s: Server, fd: int, at: int) {
    fd in s.conns && at <= s.conns[fd] && at <= s.now && !IsClosing(s, fd)
  }

  lemma StepKeepsActive(s: Server, step: Step, fd: int, at: int)
    requires ActiveSince(s, fd, at) && Enabled(s, step) && s.now < at + TIME_OUT
    requires step != HangUp(fd) && step != ReadFails(fd)
    ensures ActiveSince(Apply(s, step), fd, at)
  {
    hide IsWait, Surfaces, Handle;
  }

  lemma StepKeepsTime(s: Server, step: Step)
    requires Enabled(s, step)
    ensures s.now <= Apply(s, step).now
  {
    hide IsWait, Surfaces, Handle;
  }

  lemma {:induction false} TimeGrows(s: Server, steps: seq<Step>)
    requires EnabledRun(s, steps)
    ensures s.now <= Final(s, steps).now
    decreases |steps|
  {
    hide Enabled, Apply;
    if steps != [] {
      StepKeepsTime(s, steps[0]);
      TimeGrows(Apply(s, steps[0]), steps[1..]);
    }
  }

  lemma {:induction false} RunKeepsActive(s: Server, steps: seq<Step>, fd: int, at: int)
    requires ActiveSince(s, fd, at) && EnabledRun(s, steps) && NoDisconnect(steps, fd)
    requires Final(s, steps).now < at + TIME_OUT
    ensures ActiveSince(Final(s, steps), fd, at)
    decreases |steps|
  {
    hide Enabled, Apply, ActiveSince;
    TimeGrows(s, steps);
    if steps != [] {
      StepKeepsActive(s, steps[0], fd, at);
      RunKeepsActive(Apply(s, steps[0]), steps[1..], fd, at);
    }
  }

  lemma ActivityCounts(s: Server, step: Step, fd: int)
    requires Enabled(s, step) && IsActivity(s, step, fd) && !IsClosing(s, fd)
    ensures ActiveSince(Apply(s, step), fd, s.now) && Apply(s, step).conns[fd] == s.now
  {
  }

  /** A run without activity on a connection. */
  ghost predicate Quiet(s: Server, steps: seq<Step>, fd: int)
    requires EnabledRun(s, steps)
    decreases |steps|
  {
    steps == [] || (!IsActivity(s, steps[0], fd) && Quiet(Apply(s, steps[0]), steps[1..], fd))
  }

  lemma StepKeepsQuiet(s: Server, step: Step, fd: int)
    requires Enabled(s, step) && !IsActivity(s, step, fd)
    ensures var s' := Apply(s, step); fd in s'.conns ==> fd in s.conns && s'.conns[fd] == s.conns[fd]
  {
    hide IsWait, Surfaces, Handle;
  }

  /** Nothing but activity opens a connection or moves the time of its last activity. */
  lemma {:induction false} QuietKeepsTime(s: Server, steps: seq<Step>, fd: int)
    requires EnabledRun(s, steps) && Quiet(s, steps, fd)
    ensures var last := Final(s, steps); fd in last.conns ==> fd in s.conns && last.conns[fd] == s.conns[fd]
    decreases |steps|
  {
    hide Enabled, Apply, IsActivity;
    if steps != [] {
      StepKeepsQuiet(s, steps[0], fd);
      QuietKeepsTime(Apply(s, steps[0]), steps[1..], fd);
    }
  }

  /** Whatever both threads do, for the timeout after some activity only the peer can end a connection,
      unless a callback had already found it idle. */
  lemma {:induction false} ActiveStaysOpen(s: Server, steps: seq<Step>, fd: int)
    requires steps != [] && EnabledRun(s, steps) && IsActivity(s, steps[0], fd) && !IsClosing(s, fd)
    requires NoDisconnect(steps, fd) && Final(s, steps).now < s.now + TIME_OUT
    ensures fd in Final(s, steps).conns
  {
    ActivityCounts(s, steps[0], fd);
    RunKeepsActive(Apply(s, steps[0]), steps[1..], fd, s.now);
  }

  /** Closed, or about to be closed without another look. */
  ghost predicate Lost(s: Server, fd: int) {
    fd !in s.conns || IsClosing(s, fd)
  }

  lemma StepKeepsLost(s: Server, step: Step, fd: int)
    requires Lost(s, fd) && Enabled(s, step) && step != Accept(fd)
    ensures Lost(Apply(s, step), fd)
  {
    hide IsWait, Surfaces, Handle;
  }

  lemma {:induction false} RunKeepsLost(s: Server, steps: seq<Step>, fd: int)
    requires Lost(s, fd) && EnabledRun(s, steps) && Accept(fd) !in steps
    ensures Lost(Final(s, steps), fd)
    decreases |steps|
  {
    hide Enabled, Apply, Lost;
    if steps != [] {
      StepKeepsLost(s, steps[0], fd);
      RunKeepsLost(Apply(s, steps[0]), steps[1..], fd);
    }
  }

  /** Once a callback has found a connection idle, no activity saves it any more. */
  lemma {:induction false} ActivityComesTooLate(s: Server, steps: seq<Step>, fd: int)
    requires IsClosing(s, fd) && EnabledRun(s, steps) && Accept(fd) !in steps && Final(s, steps).tm == Peek
    ensures fd !in Final(s, steps).conns
  {
    RunKeepsLost(s, steps, fd);
  }

  /** A hang-up or a failed read closes the connection, and it stays closed until the fd is handed out again. */
  lemma {:induction false} ClosedStaysClosed(s: Server, steps: seq<Step>, fd: int)
    requires steps != [] && EnabledRun(s, steps) && (steps[0] == HangUp(fd) || steps[0] == ReadFails(fd))
    requires Accept(fd) !in steps
    ensures fd !in Final(s, steps).conns
  {
    RunKeepsShut(Apply(s, steps[0]), steps[1..], fd);
  }

  lemma {:induction false} RunKeepsShut(s: Server, steps: seq<Step>, fd: int)
    requires fd !in s.conns && EnabledRun(s, steps) && Accept(fd) !in steps
    ensures fd !in Final(s, steps).conns
    decreases |steps|
  {
    if steps != [] {
      StepKeepsShut(s, steps[0], fd);
      hide Enabled, Apply;
      RunKeepsShut(Apply(s, steps[0]), steps[1..], fd);
    }
  }

  lemma StepKeepsShut(s: Server, step: Step, fd: int)
    requires fd !in s.conns && Enabled(s, step) && step != Accept(fd)
    ensures fd !in Apply(s, step).conns
  {
    hide IsWait, Surfaces, Handle;
  }

  /** The timer of this fd is deleted, none of its entries has version 0, and nobody is about to queue another. */
  ghost predicate Hushed(s: Server, fd: int) {
    !Busy(s.ev, fd) && fd in s.clock.versions && s.clock.versions[fd] == 0
    && forall e :: e in s.clock.queue && e.id == fd ==> e.version != 0
  }

  lemma PassOfHushed(s: Server, order: seq<Timer>, fd: int)
    requires Hushed(s, fd) && Surfaces(s.clock.queue, s.now, order)
    ensures var (clock, fired) := Handle(s.clock, order);
            !FiresFor(fired, fd) && fd in clock.versions && clock.versions[fd] == 0
            && forall e :: e in clock.queue ==> e in s.clock.queue
  {
    forall i | 0 <= i < |order| ensures order[i] in s.clock.queue {
      assert order[i] in multiset(order);
    }
    assert !HasZero(order, fd) && !LoadedBehindZero(order, fd);
    PassFiresDeleted(s.clock.versions, order, fd);
  }

  lemma AddKeepsHushed(s: Server, fd: int, version: int)
    requires Hushed(s, fd) && s.ev != Ready && Busy(s.ev, s.ev.fd)
    ensures Hushed(s.(clock := Add(s.clock, s.now, s.ev.fd, TIME_OUT, Some(s.ev.fd), version), ev := Ready), fd)
  {
    var e' := Timer(s.ev.fd, s.now + TIME_OUT, Some(s.ev.fd), version);
    assert forall e :: e in Add(s.clock, s.now, s.ev.fd, TIME_OUT, Some(s.ev.fd), version).queue
                       ==> e == e' || e in s.clock.queue;
  }

  lemma StepKeepsHushed(s: Server, step: Step, fd: int)
    requires Hushed(s, fd) && Enabled(s, step) && LeavesAlone(step, fd)
    ensures Hushed(Apply(s, step), fd)
  {
    hide IsWait, Surfaces, Handle, Add;
    if step.CollectDue? {
      PassOfHushed(s, step.order, fd);
    } else if step.AddNew? || step.PushRenewed? {
      AddKeepsHushed(s, fd, if step.AddNew? then 1 else s.ev.version);
    }
  }

  lemma {:induction false} RunKeepsHushed(s: Server, steps: seq<Step>, fd: int)
    requires Hushed(s, fd) && EnabledRun(s, steps) && AllLeaveAlone(steps, fd)
    ensures Hushed(Final(s, steps), fd)
    decreases |steps|
  {
    hide Hushed, Enabled, Apply, LeavesAlone;
    if steps != [] {
      StepKeepsHushed(s, steps[0], fd);
      RunKeepsHushed(Apply(s, steps[0]), steps[1..], fd);
    }
  }

  /** Closing a connection silences its timer: no later pass collects its callback before the fd is used again,
      unless an interrupted renewal has queued version 0. */
  lemma {:induction false} ClosedFallsSilent(s: Server, steps: seq<Step>, fd: int, order: seq<Timer>)
    requires steps != [] && EnabledRun(s, steps) && fd in s.conns && !Busy(s.ev, fd)
    requires steps[0] == HangUp(fd) || (steps[0] == CloseIdle && IsClosing(s, fd))
    requires fd in s.clock.versions && forall e :: e in s.clock.queue && e.id == fd ==> e.version != 0
    requires AllLeaveAlone(steps[1..], fd) && Enabled(Final(s, steps), CollectDue(order))
    ensures !FiresFor(Handle(Final(s, steps).clock, order).1, fd)
  {
    assert Hushed(Apply(s, steps[0]), fd);
    RunKeepsHushed(Apply(s, steps[0]), steps[1..], fd);
    hide Handle, Surfaces;
    PassOfHushed(Final(s, steps), order, fd);
  }

  // ----- runs put together -----

  /** These steps can be taken from one state and lead to the other. */
  ghost predicate RunsTo(s: Server, steps: seq<Step>, s': Server) {
    EnabledRun(s, steps) && Final(s, steps) == s'
  }

  lemma OneStep(s: Server, step: Step)
    requires Enabled(s, step)
    ensures RunsTo(s, [step], Apply(s, step))
  {
    assert [step][1..] == [];
  }

  lemma {:induction false} JoinRuns(s: Server, a: seq<Step>, mid: Server, b: seq<Step>, s': Server)
    requires RunsTo(s, a, mid)
    ensures RunsTo(mid, b, s') <==> RunsTo(s, a + b, s')
    decreases |a|
  {
    hide Enabled, Apply;
    if a == [] {
      assert a + b == b;
    } else {
      JoinRuns(Apply(s, a[0]), a[1..], mid, b, s');
      assert (a + b)[0] == a[0] && (a + b)[1..] == a[1..] + b;
    }
  }

  lemma NoStep(s: Server)
    ensures RunsTo(s, [], s)
  {
  }

  /** The first `k` steps lead here; one more leads there. */
  lemma Onward(s: Server, steps: seq<Step>, k: nat, mid: Server, next: Server)
    requires k < |steps| && RunsTo(s, steps[..k], mid) && Enabled(mid, steps[k]) && Apply(mid, steps[k]) == next
    ensures RunsTo(s, steps[..k + 1], next)
  {
    hide Enabled, Apply;
    OneStep(mid, steps[k]);
    JoinRuns(s, steps[..k], mid, [steps[k]], next);
    assert steps[..k + 1] == steps[..k] + [steps[k]];
  }

  // ----- a deleted timer can fire -----

  const FIRST := Timer(7, 1, Some(7), 1)
  const INTERRUPTED := Timer(7, 2, Some(7), 0)
  const STALE := Timer(7, 2, Some(7), 1)

  const FOUND_IDLE: seq<Step> :=
    [Accept(7), AddNew, PeekTop(1), ChooseWait, Tick(1), TimedOut, CollectDue([FIRST]), RunTask]
  const RENEWED_ACROSS_CLOSE: seq<Step> :=
    [ReadOk(7), HandlerDone(false), BumpVersion, CloseIdle, ReadVersion, PushRenewed]
  const REUSED: seq<Step> := [Accept(7), AddNew, HangUp(7)]
  const NEXT_PASS: seq<Step> := [RunTask, PeekTop(1), ChooseWait, Tick(2), TimedOut]

  /** A connection times out; its callback has found it idle but not yet closed it. */
  lemma FoundIdle(s: Server)
    requires s == Server(0, map[], Clock(multiset{}, map[]), Ready, Peek)
    ensures RunsTo(s, FOUND_IDLE, Server(1, map[7 := 0], Clock(multiset{}, map[7 := 1]), Ready, Closing(7, [])))
  {
    hide RunsTo;
    var c := Clock(multiset{FIRST}, map[7 := 1]);
    var conns := map[7 := 0];
    var accepted := Server(0, conns, Clock(multiset{}, map[]), Accepted(7), Peek);
    NoStep(s);
    assert FOUND_IDLE[..0] == [];
    Onward(s, FOUND_IDLE, 0, s, accepted);
    Onward(s, FOUND_IDLE, 1, accepted, Server(0, conns, c, Ready, Peek));
    assert IsTop(c.queue, FIRST);
    Onward(s, FOUND_IDLE, 2, Server(0, conns, c, Ready, Peek), Server(0, conns, c, Ready, Decide(1, 0)));
    Onward(s, FOUND_IDLE, 3, Server(0, conns, c, Ready, Decide(1, 0)), Server(0, conns, c, Ready, Timed(1, 0)));
    Onward(s, FOUND_IDLE, 4, Server(0, conns, c, Ready, Timed(1, 0)), Server(1, conns, c, Ready, Timed(1, 0)));
    Onward(s, FOUND_IDLE, 5, Server(1, conns, c, Ready, Timed(1, 0)), Server(1, conns, c, Ready, Collect));
    var after := Clock(multiset{}, map[7 := 1]);
    FirstFires(c);
    Onward(s, FOUND_IDLE, 6, Server(1, conns, c, Ready, Collect), Server(1, conns, after, Ready, Running([7])));
    assert [7][1..] == [];
    Onward(s, FOUND_IDLE, 7,
           Server(1, conns, after, Ready, Running([7])), Server(1, conns, after, Ready, Closing(7, [])));
    assert FOUND_IDLE[..8] == FOUND_IDLE;
  }

  lemma FirstFires(c: Clock)
    requires c == Clock(multiset{FIRST}, map[7 := 1])
    ensures Surfaces(c.queue, 1, [FIRST])
    ensures Handle(c, [FIRST]) == (Clock(multiset{}, map[7 := 1]), [FIRST]) && CallbacksOf([FIRST]) == [7]
  {
    assert multiset([FIRST]) == multiset{FIRST};
    assert [FIRST][1..] == [] && [FIRST] + [] == [FIRST];
    assert Drain(c.versions, [FIRST]).1 == [FIRST] + [];
    assert c.queue - multiset{FIRST} == multiset{};
  }

  /** Data arrives after all; the renewal is bumped before and read after the callback closes the connection. */
  lemma RenewedAcrossClose(s: Server)
    requires s == Server(1, map[7 := 0], Clock(multiset{}, map[7 := 1]), Ready, Closing(7, []))
    ensures RunsTo(s, RENEWED_ACROSS_CLOSE,
                   Server(1, map[], Clock(multiset{INTERRUPTED}, map[7 := 0]), Ready, Running([])))
  {
    hide RunsTo;
    var c1, c2, c0 := s.clock, Clock(multiset{}, map[7 := 2]), Clock(multiset{}, map[7 := 0]);
    var conns, at := map[7 := 1], Closing(7, []);
    NoStep(s);
    assert RENEWED_ACROSS_CLOSE[..0] == [];
    Onward(s, RENEWED_ACROSS_CLOSE, 0, s, Server(1, conns, c1, Handling(7), at));
    Onward(s, RENEWED_ACROSS_CLOSE, 1, Server(1, conns, c1, Handling(7), at), Server(1, conns, c1, Bumping(7), at));
    Onward(s, RENEWED_ACROSS_CLOSE, 2, Server(1, conns, c1, Bumping(7), at), Server(1, conns, c2, Reading(7), at));
    assert conns - {7} == map[];
    Onward(s, RENEWED_ACROSS_CLOSE, 3,
           Server(1, conns, c2, Reading(7), at), Server(1, map[], c0, Reading(7), Running([])));
    Onward(s, RENEWED_ACROSS_CLOSE, 4,
           Server(1, map[], c0, Reading(7), Running([])), Server(1, map[], c0, Pushing(7, 0), Running([])));
    Onward(s, RENEWED_ACROSS_CLOSE, 5, Server(1, map[], c0, Pushing(7, 0), Running([])),
           Server(1, map[], Clock(multiset{INTERRUPTED}, map[7 := 0]), Ready, Running([])));
    assert RENEWED_ACROSS_CLOSE[..6] == RENEWED_ACROSS_CLOSE;
  }

  /** The fd is used again and closed again, before the entry of version 0 surfaces. */
  lemma Reused(s: Server)
    requires s == Server(1, map[], Clock(multiset{INTERRUPTED}, map[7 := 0]), Ready, Running([]))
    ensures RunsTo(s, REUSED, Server(1, map[], Clock(multiset{INTERRUPTED, STALE}, map[7 := 0]), Ready, Running([])))
  {
    hide RunsTo;
    var conns: map<int, int> := map[7 := 1];
    var c := Clock(multiset{INTERRUPTED, STALE}, map[7 := 1]);
    NoStep(s);
    assert REUSED[..0] == [];
    Onward(s, REUSED, 0, s, Server(1, conns, s.clock, Accepted(7), s.tm));
    Onward(s, REUSED, 1, Server(1, conns, s.clock, Accepted(7), s.tm), Server(1, conns, c, Ready, s.tm));
    assert conns - {7} == map[];
    Onward(s, REUSED, 2, Server(1, conns, c, Ready, s.tm), Server(1, map[], c.(versions := map[7 := 0]), Ready, s.tm));
    assert REUSED[..3] == REUSED;
  }

  lemma NextPass(s: Server)
    requires s == Server(1, map[], Clock(multiset{INTERRUPTED, STALE}, map[7 := 0]), Ready, Running([]))
    ensures RunsTo(s, NEXT_PASS, s.(now := 2, tm := Collect))
  {
    hide RunsTo;
    NoStep(s);
    assert NEXT_PASS[..0] == [];
    Onward(s, NEXT_PASS, 0, s, s.(tm := Peek));
    assert IsTop(s.clock.queue, STALE);
    Onward(s, NEXT_PASS, 1, s.(tm := Peek), s.(tm := Decide(1, 1)));
    Onward(s, NEXT_PASS, 2, s.(tm := Decide(1, 1)), s.(tm := Timed(2, 0)));
    Onward(s, NEXT_PASS, 3, s.(tm := Timed(2, 0)), s.(now := 2, tm := Timed(2, 0)));
    Onward(s, NEXT_PASS, 4, s.(now := 2, tm := Timed(2, 0)), s.(now := 2, tm := Collect));
    assert NEXT_PASS[..5] == NEXT_PASS;
  }

  lemma StaleFires(c: Clock)
    requires c == Clock(multiset{INTERRUPTED, STALE}, map[7 := 0])
    ensures Surfaces(c.queue, 2, [INTERRUPTED, STALE]) && Handle(c, [INTERRUPTED, STALE]).1 == [STALE]
  {
    var order := [INTERRUPTED, STALE];
    assert multiset(order) == multiset{INTERRUPTED, STALE};
    assert order[1..] == [STALE] && [STALE][1..] == [];
    assert c.versions - {7} == map[];
    assert Drain(map[], [STALE]).1 == [STALE] + [];
  }

  /** It can happen: a run from the start ends in a pass that fires a timer whose connection was closed
      and whose timer was deleted. */
  lemma {:induction false} DeletedCanFire() returns (s: Server, steps: seq<Step>, order: seq<Timer>)
    ensures Initial(s) && EnabledRun(s, steps) && Enabled(Final(s, steps), CollectDue(order))
    ensures var last := Final(s, steps);
            7 !in last.conns && 7 in last.clock.versions && last.clock.versions[7] == 0
            && FiresFor(Handle(last.clock, order).1, 7)
  {
    s := Server(0, map[], Clock(multiset{}, map[]), Ready, Peek);
    var s1 := Server(1, map[7 := 0], Clock(multiset{}, map[7 := 1]), Ready, Closing(7, []));
    var s2 := Server(1, map[], Clock(multiset{INTERRUPTED}, map[7 := 0]), Ready, Running([]));
    var s3 := Server(1, map[], Clock(multiset{INTERRUPTED, STALE}, map[7 := 0]), Ready, Running([]));
    hide RunsTo, Handle, Surfaces;
    FoundIdle(s);
    RenewedAcrossClose(s1);
    JoinRuns(s, FOUND_IDLE, s1, RENEWED_ACROSS_CLOSE, s2);
    Reused(s2);
    JoinRuns(s, FOUND_IDLE + RENEWED_ACROSS_CLOSE, s2, REUSED, s3);
    NextPass(s3);
    JoinRuns(s, FOUND_IDLE + RENEWED_ACROSS_CLOSE + REUSED, s3, NEXT_PASS, s3.(now := 2, tm := Collect));
    steps := FOUND_IDLE + RENEWED_ACROSS_CLOSE + REUSED + NEXT_PASS;
    order := [INTERRUPTED, STALE];
    StaleFires(s3.clock);
    assert [STALE][0].id == 7;
    RunsToFinal(s, steps, s3.(now := 2, tm := Collect));
  }

  lemma RunsToFinal(s: Server, steps: seq<Step>, s': Server)
    requires RunsTo(s, steps, s')
    ensures EnabledRun(s, steps) && Final(s, steps) == s'
  {
  }
}

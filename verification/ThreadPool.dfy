/** The thread pool: submitters, any number of workers, and a shutdown, as interleaved atomic steps. */
module ThreadPool {

  type Task = int

  /** A worker is about to check the queue, asleep on the condition variable, running a task, or gone. */
  datatype Worker = Checking | Asleep | Running(task: Task) | Exited

  /** Where the thread is that shuts the pool down. */
  datatype Boss = Working | Stopping | Joining(joined: nat) | Returned

  /** `notifies` counts the `notify_one` calls still to come; the last three fields record the past. */
  datatype Pool = Pool(
    queue: seq<Task>, stop: bool, workers: seq<Worker>, notifies: nat, boss: Boss,
    accepted: seq<Task>, taken: seq<Task>, done: multiset<Task>)

  datatype Step =
    | Submit(task: Task)
    | NotifyOne(w: nat) | NotifyNobody
    | Check(w: nat) | Finish(w: nat)
    | Spurious(w: nat)
    | SetStop | NotifyAll | Join | Return

  /** What a worker does in its locked region: sleep, leave, or take the first task. */
  function Turn(queue: seq<Task>, stop: bool): Worker {
    if queue == [] then (if stop then Exited else Asleep) else Running(queue[0])
  }

  function WakeAll(ws: seq<Worker>): (r: seq<Worker>)
    ensures |r| == |ws| && forall i :: 0 <= i < |ws| ==> r[i] == if ws[i] == Asleep then Checking else ws[i]
  {
    if ws == [] then [] else [if ws[0] == Asleep then Checking else ws[0]] + WakeAll(ws[1..])
  }

  ghost predicate Enabled(p: Pool, step: Step) {
    match step
    case Submit(task) => true
    case NotifyOne(w) => 0 < p.notifies && w < |p.workers| && p.workers[w] == Asleep
    case NotifyNobody => 0 < p.notifies && Asleep !in p.workers
    case Check(w) => w < |p.workers| && p.workers[w] == Checking
    case Finish(w) => w < |p.workers| && p.workers[w].Running?
    case Spurious(w) => w < |p.workers| && p.workers[w] == Asleep
    case SetStop => p.boss == Working
    case NotifyAll => p.boss == Stopping
    case Join => p.boss.Joining? && p.boss.joined < |p.workers| && p.workers[p.boss.joined] == Exited
    case Return => p.boss.Joining? && p.boss.joined == |p.workers|
  }

  ghost function Apply(p: Pool, step: Step): Pool
    requires Enabled(p, step)
  {
    match step
    case Submit(task) =>
      if p.stop then p
      else p.(queue := p.queue + [task], accepted := p.accepted + [task], notifies := p.notifies + 1)
    case NotifyOne(w) => p.(workers := p.workers[w := Checking], notifies := p.notifies - 1)
    case NotifyNobody => p.(notifies := p.notifies - 1)
    case Check(w) =>
      var p' := p.(workers := p.workers[w := Turn(p.queue, p.stop)]);
      if p.queue == [] then p' else p'.(queue := p.queue[1..], taken := p.taken + [p.queue[0]])
    case Finish(w) =>
      p.(workers := p.workers[w := Checking], done := p.done + multiset{p.workers[w].task})
    case Spurious(w) => p.(workers := p.workers[w := Checking])
    case SetStop => p.(stop := true, boss := Stopping)
    case NotifyAll => p.(workers := WakeAll(p.workers), boss := Joining(0))
    case Join => p.(boss := Joining(p.boss.joined + 1))
    case Return => p.(boss := Returned)
  }

  // ----- counting workers -----

  datatype Kind = Awake | Sleeping | Busy | Gone

  function KindOf(w: Worker): Kind {
    match w case Checking => Awake case Asleep => Sleeping case Running(task) => Busy case Exited => Gone
  }

  function Count(ws: seq<Worker>, kind: Kind): nat {
    if ws == [] then 0 else One(ws[0], kind) + Count(ws[1..], kind)
  }

  function Held(w: Worker): multiset<Task> {
    if w.Running? then multiset{w.task} else multiset{}
  }

  function InHand(ws: seq<Worker>): multiset<Task> {
    if ws == [] then multiset{} else Held(ws[0]) + InHand(ws[1..])
  }

  function One(w: Worker, kind: Kind): nat {
    if KindOf(w) == kind then 1 else 0
  }

  lemma {:induction false} CountAfterMove(ws: seq<Worker>, i: nat, w: Worker, kind: Kind)
    requires i < |ws|
    ensures Count(ws[i := w], kind) == Count(ws, kind) - One(ws[i], kind) + One(w, kind)
  {
    if i == 0 {
      assert ws[0 := w][1..] == ws[1..];
    } else {
      CountAfterMove(ws[1..], i - 1, w, kind);
      assert ws[i := w][1..] == ws[1..][i - 1 := w];
    }
  }

  lemma {:induction false} InHandAfterMove(ws: seq<Worker>, i: nat, w: Worker)
    requires i < |ws|
    ensures InHand(ws[i := w]) + Held(ws[i]) == InHand(ws) + Held(w)
  {
    hide Held;
    if i == 0 {
      assert ws[0 := w][1..] == ws[1..];
      assert (Held(w) + InHand(ws[1..])) + Held(ws[0]) == (Held(ws[0]) + InHand(ws[1..])) + Held(w);
    } else {
      InHandAfterMove(ws[1..], i - 1, w);
      assert ws[i := w][1..] == ws[1..][i - 1 := w];
      var moved := InHand(ws[1..][i - 1 := w]);
      assert InHand(ws[i := w]) == Held(ws[0]) + moved;
      assert (Held(ws[0]) + moved) + Held(ws[i]) == Held(ws[0]) + (moved + Held(ws[i]));
    }
  }

  lemma {:induction false} SomeWorker(ws: seq<Worker>, kind: Kind)
    ensures Count(ws, kind) <= |ws|
    ensures 0 < Count(ws, kind) <==> exists i :: 0 <= i < |ws| && KindOf(ws[i]) == kind
  {
    if ws != [] {
      SomeWorker(ws[1..], kind);
      if i :| 0 <= i < |ws[1..]| && KindOf(ws[1..][i]) == kind {
        assert KindOf(ws[i + 1]) == kind;
      }
      if i :| 0 < i < |ws| && KindOf(ws[i]) == kind {
        assert KindOf(ws[1..][i - 1]) == kind;
      }
    }
  }

  lemma {:induction false} WakeAllCounts(ws: seq<Worker>)
    ensures Count(WakeAll(ws), Sleeping) == 0 && InHand(WakeAll(ws)) == InHand(ws)
    ensures Count(WakeAll(ws), Awake) == Count(ws, Awake) + Count(ws, Sleeping)
    ensures Count(WakeAll(ws), Busy) == Count(ws, Busy) && Count(WakeAll(ws), Gone) == Count(ws, Gone)
  {
    if ws != [] {
      WakeAllCounts(ws[1..]);
      assert WakeAll(ws)[1..] == WakeAll(ws[1..]);
    }
  }

  lemma {:induction false} NobodyBusy(ws: seq<Worker>)
    requires Count(ws, Busy) == 0
    ensures InHand(ws) == multiset{}
  {
    if ws != [] {
      NobodyBusy(ws[1..]);
    }
  }

  // ----- what every step keeps -----

  /** While somebody sleeps, every queued task has a notification or a checking worker coming for it. */
  ghost predicate WakeUps(p: Pool) {
    0 < Count(p.workers, Sleeping) ==> |p.queue| <= p.notifies + Count(p.workers, Awake)
  }

  /** Each accepted task is in exactly one place: queued, in a worker's hands, or done. */
  ghost predicate ExactlyOnce(p: Pool) {
    p.accepted == p.taken + p.queue && multiset(p.taken) == p.done + InHand(p.workers)
  }

  ghost predicate StopOk(p: Pool) {
    (p.stop <==> p.boss != Working)
    && (p.stop && 0 < Count(p.workers, Sleeping) ==> p.boss == Stopping)
    && (0 < Count(p.workers, Gone) ==> p.stop && p.queue == [])
  }

  ghost predicate BossOk(p: Pool) {
    match p.boss
    case Joining(n) => n <= |p.workers| && forall i :: 0 <= i < n ==> p.workers[i] == Exited
    case Returned => forall i :: 0 <= i < |p.workers| ==> p.workers[i] == Exited
    case _ => true
  }

  ghost predicate Inv(p: Pool) {
    p.workers != [] && WakeUps(p) && ExactlyOnce(p) && StopOk(p) && BossOk(p)
  }

  ghost predicate Initial(p: Pool) {
    p.workers != [] && (forall i :: 0 <= i < |p.workers| ==> p.workers[i] == Checking)
    && p.queue == [] && !p.stop && p.notifies == 0 && p.boss == Working
    && p.accepted == [] && p.taken == [] && p.done == multiset{}
  }

  lemma InitialInv(p: Pool)
    requires Initial(p)
    ensures Inv(p)
  {
    SomeWorker(p.workers, Sleeping);
    SomeWorker(p.workers, Gone);
    SomeWorker(p.workers, Busy);
    NobodyBusy(p.workers);
  }

  /** The workers after one of them has moved on. */
  lemma AfterMove(p: Pool, w: nat, to: Worker)
    requires w < |p.workers|
    ensures forall kind :: Count(p.workers[w := to], kind)
                           == Count(p.workers, kind) - One(p.workers[w], kind) + One(to, kind)
    ensures InHand(p.workers[w := to]) + Held(p.workers[w]) == InHand(p.workers) + Held(to)
  {
    forall kind
      ensures Count(p.workers[w := to], kind) == Count(p.workers, kind) - One(p.workers[w], kind) + One(to, kind)
    {
      CountAfterMove(p.workers, w, to, kind);
    }
    InHandAfterMove(p.workers, w, to);
  }

  predicate Moves(step: Step) {
    step.NotifyOne? || step.Spurious? || step.Finish? || step.Check?
  }

  /** Where the worker that a step moves is afterwards. */
  function Destination(p: Pool, step: Step): Worker {
    if step.Check? then Turn(p.queue, p.stop) else Checking
  }

  lemma StepKeepsWakeUps(p: Pool, step: Step)
    requires Inv(p) && Enabled(p, step)
    ensures WakeUps(Apply(p, step))
  {
    hide ExactlyOnce, BossOk, InHand;
    if Moves(step) {
      AfterMove(p, step.w, Destination(p, step));
    } else if step.NotifyAll? {
      WakeAllCounts(p.workers);
    } else if step.NotifyNobody? {
      SomeWorker(p.workers, Sleeping);
    }
  }

  lemma InHandCases(ws: seq<Worker>, i: nat, w: Worker)
    requires i < |ws|
    ensures !ws[i].Running? && !w.Running? ==> InHand(ws[i := w]) == InHand(ws)
    ensures !ws[i].Running? && w.Running? ==> InHand(ws[i := w]) == InHand(ws) + multiset{w.task}
    ensures ws[i].Running? && !w.Running? ==> InHand(ws[i := w]) + multiset{ws[i].task} == InHand(ws)
  {
    hide InHand;
    InHandAfterMove(ws, i, w);
    var before, after := InHand(ws), InHand(ws[i := w]);
    assert before + multiset{} == before && after + multiset{} == after;
  }

  lemma StepKeepsExactlyOnce(p: Pool, step: Step)
    requires Inv(p) && Enabled(p, step)
    ensures ExactlyOnce(Apply(p, step))
  {
    hide WakeUps, BossOk, StopOk, Count, InHand;
    if Moves(step) {
      InHandCases(p.workers, step.w, Destination(p, step));
      if step.Check? && p.queue != [] {
        assert p.queue == [p.queue[0]] + p.queue[1..];
        assert multiset(p.taken + [p.queue[0]]) == multiset(p.taken) + multiset{p.queue[0]};
      }
    } else if step.NotifyAll? {
      WakeAllCounts(p.workers);
    }
  }

  lemma StepKeepsStop(p: Pool, step: Step)
    requires Inv(p) && Enabled(p, step)
    ensures StopOk(Apply(p, step))
  {
    hide ExactlyOnce, WakeUps, InHand;
    if Moves(step) {
      AfterMove(p, step.w, Destination(p, step));
    } else if step.NotifyAll? {
      WakeAllCounts(p.workers);
    }
  }

  lemma StepKeepsBoss(p: Pool, step: Step)
    requires Inv(p) && Enabled(p, step)
    ensures BossOk(Apply(p, step)) && Apply(p, step).workers != []
  {
    hide ExactlyOnce, WakeUps, InHand, Count, StopOk;
  }

  lemma {:induction false} StepKeepsInv(p: Pool, step: Step)
    requires Inv(p) && Enabled(p, step)
    ensures Inv(Apply(p, step))
  {
    hide ExactlyOnce, WakeUps, StopOk, BossOk, Apply;
    StepKeepsWakeUps(p, step);
    StepKeepsExactlyOnce(p, step);
    StepKeepsStop(p, step);
    StepKeepsBoss(p, step);
  }

  ghost predicate EnabledRun(p: Pool, steps: seq<Step>)
    decreases |steps|
  {
    steps == [] || (Enabled(p, steps[0]) && EnabledRun(Apply(p, steps[0]), steps[1..]))
  }

  ghost function Final(p: Pool, steps: seq<Step>): Pool
    requires EnabledRun(p, steps)
    decreases |steps|
  {
    if steps == [] then p else Final(Apply(p, steps[0]), steps[1..])
  }

  lemma {:induction false} RunKeepsInv(p: Pool, steps: seq<Step>)
    requires Inv(p) && EnabledRun(p, steps)
    ensures Inv(Final(p, steps))
    decreases |steps|
  {
    hide Inv, Enabled, Apply;
    if steps != [] {
      StepKeepsInv(p, steps[0]);
      RunKeepsInv(Apply(p, steps[0]), steps[1..]);
    }
  }

  /** What was submitted before the pool was told to stop, as the steps alone say. */
  function Submitted(steps: seq<Step>): seq<Task>
    decreases |steps|
  {
    if steps == [] || steps[0].SetStop? then []
    else (if steps[0].Submit? then [steps[0].task] else []) + Submitted(steps[1..])
  }

  lemma StepAccepts(p: Pool, step: Step)
    requires Enabled(p, step)
    ensures Apply(p, step).accepted == p.accepted + if step.Submit? && !p.stop then [step.task] else []
    ensures Apply(p, step).stop <==> p.stop || step.SetStop?
  {
  }

  lemma Regroup(a: seq<Task>, b: seq<Task>, c: seq<Task>)
    ensures (a + b) + c == a + (b + c) && a + [] == a
  {
  }

  /** A running pool accepts every task until it is told to stop, and none afterwards. */
  lemma {:induction false} AcceptedAreSubmitted(p: Pool, steps: seq<Step>)
    requires EnabledRun(p, steps)
    ensures Final(p, steps).accepted == p.accepted + if p.stop then [] else Submitted(steps)
    decreases |steps|
  {
    hide Enabled, Apply;
    if steps != [] {
      StepAccepts(p, steps[0]);
      AcceptedAreSubmitted(Apply(p, steps[0]), steps[1..]);
      var one := if steps[0].Submit? then [steps[0].task] else [];
      Regroup(p.accepted, one, Submitted(steps[1..]));
    }
  }

  /** Accounting over every run: wake-ups cover the queue; what was submitted in time is taken in that order,
      each task exactly once. */
  lemma {:induction false} EveryRunAccounts(p: Pool, steps: seq<Step>)
    requires Initial(p) && EnabledRun(p, steps)
    ensures var q := Final(p, steps);
            WakeUps(q) && ExactlyOnce(q) && q.accepted == Submitted(steps)
            && (q.stop && q.boss != Stopping ==> Asleep !in q.workers)
            && (Exited in q.workers ==> q.stop && q.queue == [])
  {
    InitialInv(p);
    RunKeepsInv(p, steps);
    AcceptedAreSubmitted(p, steps);
    var q := Final(p, steps);
    SomeWorker(q.workers, Sleeping);
    SomeWorker(q.workers, Gone);
    if Asleep in q.workers {
      var i :| 0 <= i < |q.workers| && q.workers[i] == Asleep;
      assert KindOf(q.workers[i]) == Sleeping;
    }
    if Exited in q.workers {
      var i :| 0 <= i < |q.workers| && q.workers[i] == Exited;
      assert KindOf(q.workers[i]) == Gone;
    }
  }

  // ----- no task is left behind -----

  /** Steps the pool takes by itself: no new submission, no decision to stop, no spurious wake-up. */
  predicate Internal(step: Step) {
    !step.Submit? && !step.SetStop? && !step.Spurious?
  }

  ghost predicate Quiescent(p: Pool) {
    forall step :: Internal(step) ==> !Enabled(p, step)
  }

  /** A reachable state in which the pool has nothing left to do has an empty queue. */
  lemma {:induction false} QuiescentIsDrained(p: Pool, steps: seq<Step>)
    requires Initial(p) && EnabledRun(p, steps) && Quiescent(Final(p, steps))
    ensures var q := Final(p, steps);
            q.queue == [] && q.done == multiset(Submitted(steps)) && (q.stop ==> q.boss == Returned)
  {
    InitialInv(p);
    RunKeepsInv(p, steps);
    AcceptedAreSubmitted(p, steps);
    QuiescentState(Final(p, steps));
  }

  lemma QuiescentState(q: Pool)
    requires Inv(q) && Quiescent(q)
    ensures q.queue == [] && q.done == multiset(q.accepted) && (q.stop ==> q.boss == Returned)
  {
    hide Count, InHand;
    forall i | 0 <= i < |q.workers| ensures q.workers[i] == Asleep || q.workers[i] == Exited {
      assert !Enabled(q, Check(i)) && !Enabled(q, Finish(i));
    }
    SomeWorker(q.workers, Awake);
    SomeWorker(q.workers, Busy);
    NobodyBusy(q.workers);
    if i :| 0 <= i < |q.workers| && q.workers[i] == Asleep {
      SomebodySleeps(q, i);
    } else {
      EverybodyGone(q);
    }
  }

  lemma SomebodySleeps(q: Pool, i: nat)
    requires Inv(q) && Quiescent(q) && i < |q.workers| && q.workers[i] == Asleep && Count(q.workers, Awake) == 0
    ensures q.queue == [] && !q.stop
  {
    hide Count, InHand;
    SomeWorker(q.workers, Sleeping);
    assert KindOf(q.workers[i]) == Sleeping;
    assert !Enabled(q, NotifyOne(i)) && !Enabled(q, NotifyAll);
  }

  lemma EverybodyGone(q: Pool)
    requires Inv(q) && Quiescent(q) && forall i :: 0 <= i < |q.workers| ==> q.workers[i] == Exited
    ensures q.queue == [] && q.boss == Returned
  {
    hide Count, InHand;
    SomeWorker(q.workers, Gone);
    assert KindOf(q.workers[0]) == Gone;
    assert !Enabled(q, NotifyAll) && !Enabled(q, Join) && !Enabled(q, Return);
  }

  // ----- shutdown returns -----

  function WorkerWeight(ws: seq<Worker>): nat {
    Count(ws, Awake) + 2 * Count(ws, Busy) + 2 * Count(ws, Sleeping)
  }

  /** How many internal steps can still come once the pool is stopped. */
  function Measure(p: Pool): nat {
    2 * |p.queue| + WorkerWeight(p.workers) + p.notifies
    + match p.boss
      case Working => |p.workers| + 3
      case Stopping => |p.workers| + 2
      case Joining(n) => if n <= |p.workers| then |p.workers| - n + 1 else 0
      case Returned => 0
  }

  lemma {:induction false} StepLowersMeasure(p: Pool, step: Step)
    requires Inv(p) && p.stop && Enabled(p, step) && Internal(step)
    ensures Apply(p, step).stop && Measure(Apply(p, step)) < Measure(p)
  {
    hide ExactlyOnce, WakeUps, InHand, Count, BossOk;
    if Moves(step) {
      AfterMove(p, step.w, Destination(p, step));
    } else if step.NotifyAll? {
      WakeAllCounts(p.workers);
    }
  }

  /** After stop, submissions are refused and no run of internal steps is longer than the measure. */
  lemma {:induction false} StoppedRunsAreShort(p: Pool, steps: seq<Step>)
    requires Inv(p) && p.stop && EnabledRun(p, steps)
    requires forall i :: 0 <= i < |steps| ==> Internal(steps[i])
    ensures |steps| + Measure(Final(p, steps)) <= Measure(p)
    decreases |steps|
  {
    hide Inv, Enabled, Apply, Measure;
    if steps != [] {
      assert Internal(steps[0]);
      StepLowersMeasure(p, steps[0]);
      StepKeepsInv(p, steps[0]);
      StoppedRunsAreShort(Apply(p, steps[0]), steps[1..]);
    }
  }

  /** Until `shutdown` has returned, some internal step can be taken. */
  lemma {:induction false} StoppedGoesOn(p: Pool) returns (step: Step)
    requires Inv(p) && p.stop && p.boss != Returned
    ensures Internal(step) && Enabled(p, step)
  {
    if exists s :: Internal(s) && Enabled(p, s) {
      step :| Internal(step) && Enabled(p, step);
    } else {
      QuiescentState(p);
      step := Return;
    }
  }

  /** When `shutdown` has returned, every task submitted in time has run exactly once, and none will follow. */
  lemma {:induction false} ReturnedMeansDone(p: Pool, steps: seq<Step>)
    requires Initial(p) && EnabledRun(p, steps) && Final(p, steps).boss == Returned
    ensures var q := Final(p, steps);
            q.queue == [] && q.taken == Submitted(steps) && q.done == multiset(Submitted(steps))
            && forall task :: Apply(q, Submit(task)) == q
  {
    InitialInv(p);
    RunKeepsInv(p, steps);
    AcceptedAreSubmitted(p, steps);
    var q := Final(p, steps);
    SomeWorker(q.workers, Gone);
    SomeWorker(q.workers, Busy);
    NobodyBusy(q.workers);
    assert KindOf(q.workers[0]) == Gone;
    assert q.taken + [] == q.taken;
  }

  // ----- the object: its locked regions -----

  class Pthreads {
    var taskQueue: seq<Task>
    var stop: bool

    const threadCount: nat

    /** At least one worker: a count of 0 means 4. */
    constructor (threadCount: nat)
      ensures taskQueue == [] && !stop
      ensures 0 < this.threadCount && this.threadCount == if threadCount == 0 then 4 else threadCount
    {
      taskQueue, stop := [], false;
      this.threadCount := if threadCount == 0 then 4 else threadCount;
    }

    /** Whether this object shows the queue and the stop flag of a pool state. */
    ghost predicate Shows(p: Pool)
      reads this
    {
      taskQueue == p.queue && stop == p.stop
    }

    /** `enqueue`: a stopped pool refuses the task. */
    method Enqueue(task: Task) returns (accepted: bool)
      modifies this
      ensures forall p :: old(Shows(p)) ==> Shows(Apply(p, Submit(task)))
      ensures accepted <==> !old(stop)
      ensures stop == old(stop) && taskQueue == old(taskQueue) + if accepted then [task] else []
    {
      if stop {
        return false;
      }
      taskQueue := taskQueue + [task];
      accepted := true;
    }

    /** One turn of a worker under the lock: it sleeps, leaves, or takes the first task. */
    method WorkerTurn() returns (next: Worker)
      modifies this
      ensures forall p: Pool, w: nat :: old(Shows(p)) && Enabled(p, Check(w)) ==>
                Shows(Apply(p, Check(w))) && Apply(p, Check(w)).workers[w] == next
      ensures stop == old(stop)
      ensures if old(taskQueue) != [] then next == Running(old(taskQueue)[0]) && taskQueue == old(taskQueue)[1..]
              else taskQueue == [] && next == if old(stop) then Exited else Asleep
    {
      if !(stop || taskQueue != []) {
        return Asleep;
      }
      if stop && taskQueue == [] {
        return Exited;
      }
      var task := taskQueue[0];
      taskQueue := taskQueue[1..];
      next := Running(task);
    }

    method SetStop()
      modifies this
      ensures forall p :: old(Shows(p)) && Enabled(p, Step.SetStop) ==> Shows(Apply(p, Step.SetStop))
      ensures stop && taskQueue == old(taskQueue)
    {
      stop := true;
    }
  }
}

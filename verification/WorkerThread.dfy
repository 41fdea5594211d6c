/**
 * A worker thread that sleeps on an event while its task queue is empty, as steps.
 * Each step is one lock operation, one access to the shared state, or one critical section of the event.
 */
module WorkerThread {
  datatype Task = Task(name: string)

  datatype Owner = Nobody | Worker | Pusher(i: nat)

  /** A thread in PushTask: the queue's lock is held from Holding to Leaving. */
  datatype Pusher = Outside | Wanting(task: Task) | Holding(task: Task) | MustSet | MustNotify | Leaving

  /** The worker in Execute, and inside the event's Wait. */
  datatype Worker =
    | Locking                   // taking the lock
    | LoopTest                  // lock held, at the condition of the inner loop
    | ExitTest                  // lock held, after the inner loop
    | Unlocking                 // nothing to do: about to release the lock and wait
    | Waiting                   // in Wait, about to look at the flag
    | Blocked                   // in Wait, asleep until notified
    | Taken(task: Task)         // lock held, a task removed from the queue
    | Running(task: Task)
    | Counting
    | Returning                 // lock held, told to terminate
    | Finished

  /** The destructor: tells the worker to terminate, sets the event, and joins. */
  datatype Destroyer = NotBegun | MustSetToo | MustNotifyToo | Joining | Joined

  /** pushed, ran and completed are the history of tasks queued, taken from the queue, and finished. */
  datatype State = State(
    terminate: bool, flag: bool, owner: Owner, queue: seq<Task>, count: nat,
    pushers: seq<Pusher>, worker: Worker, destroyer: Destroyer,
    pushed: seq<Task>, ran: seq<Task>, completed: seq<Task>)

  datatype Action = Begin(i: nat, task: Task) | Terminate | Spurious | Push(i: nat) | Work | Destroy

  function Start(threads: nat): State {
    State(false, false, Nobody, [], 0, seq(threads, i => Outside), Locking, NotBegun, [], [], [])
  }

  function PushStep(s: State, i: nat): State
    requires i < |s.pushers|
  {
    match s.pushers[i]
    case Outside => s
    case Wanting(t) =>
      if s.owner == Nobody then s.(owner := Pusher(i), pushers := s.pushers[i := Holding(t)]) else s
    case Holding(t) => s.(queue := s.queue + [t], pushed := s.pushed + [t], pushers := s.pushers[i := MustSet])
    case MustSet => s.(flag := true, pushers := s.pushers[i := MustNotify])
    case MustNotify => s.(worker := Woken(s.worker), pushers := s.pushers[i := Leaving])
    case Leaving => s.(owner := Nobody, pushers := s.pushers[i := Outside])
  }

  /** A notified or spuriously woken thread looks at the flag again. */
  function Woken(w: Worker): Worker { if w.Blocked? then Waiting else w }

  /** The program asserts that the queue is not empty at ExitTest unless it terminates: see PhaseInvariant. */
  function WorkStep(s: State): State {
    match s.worker
    case Locking => if s.owner == Nobody then s.(owner := Worker, worker := LoopTest) else s
    case LoopTest => s.(worker := if !s.terminate && s.queue == [] then Unlocking else ExitTest)
    case Unlocking => s.(owner := Nobody, worker := Waiting)
    case Waiting => if s.flag then s.(flag := false, worker := Locking) else s.(worker := Blocked)
    case Blocked => s
    case ExitTest =>
      if s.terminate || s.queue == [] then s.(worker := Returning)
      else s.(queue := s.queue[1..], ran := s.ran + [s.queue[0]], worker := Taken(s.queue[0]))
    case Taken(t) => s.(owner := Nobody, worker := Running(t))
    case Running(t) => s.(completed := s.completed + [t], worker := Counting)
    case Counting => s.(count := (s.count + 1) % 0x1_0000_0000, worker := Locking)
    case Returning => s.(owner := Nobody, worker := Finished)
    case Finished => s
  }

  function DestroyStep(s: State): State {
    match s.destroyer
    case NotBegun => s
    case MustSetToo => s.(flag := true, destroyer := MustNotifyToo)
    case MustNotifyToo => s.(worker := Woken(s.worker), destroyer := Joining)
    case Joining => if s.worker.Finished? then s.(destroyer := Joined) else s
    case Joined => s
  }

  /** A thread whose next step is not possible stays where it is. */
  function Step(s: State, a: Action): State {
    match a
    case Begin(i, t) => if i < |s.pushers| && s.pushers[i].Outside? then s.(pushers := s.pushers[i := Wanting(t)]) else s
    case Terminate => if s.destroyer.NotBegun? then s.(terminate := true, destroyer := MustSetToo) else s
    case Spurious => s.(worker := Woken(s.worker))
    case Push(i) => if i < |s.pushers| then PushStep(s, i) else s
    case Work => WorkStep(s)
    case Destroy => DestroyStep(s)
  }

  function Run(s: State, actions: seq<Action>): State
    decreases |actions|
  {
    if actions == [] then s else Run(Step(s, actions[0]), actions[1..])
  }

  // ---------------------------------------------------------------- the invariant

  predicate Inside(p: Pusher) { p.Holding? || p.MustSet? || p.MustNotify? || p.Leaving? }

  predicate HoldsLock(w: Worker) { w.LoopTest? || w.ExitTest? || w.Unlocking? || w.Taken? || w.Returning? }

  predicate LockInvariant(s: State) {
    && (forall i :: 0 <= i < |s.pushers| ==> (Inside(s.pushers[i]) <==> s.owner == Pusher(i)))
    && (HoldsLock(s.worker) <==> s.owner == Worker)
    && (s.owner.Pusher? ==> s.owner.i < |s.pushers|)
  }

  /** Someone has changed what the worker waits for and is still before Set. */
  predicate SetPending(s: State) {
    s.destroyer.MustSetToo? || (exists i :: 0 <= i < |s.pushers| && s.pushers[i].MustSet?)
  }

  /** Someone has set the event and is still before the notification. */
  predicate NotifyPending(s: State) {
    s.destroyer.MustNotifyToo? || (exists i :: 0 <= i < |s.pushers| && s.pushers[i].MustNotify?)
  }

  /** There is something the worker should get up for. */
  predicate HasCause(s: State) { s.terminate || s.queue != [] }

  predicate Sleeping(w: Worker) { w.Unlocking? || w.Waiting? || w.Blocked? }

  predicate WakeInvariant(s: State) {
    && (Sleeping(s.worker) && HasCause(s) ==> s.flag || SetPending(s))
    && (s.worker.Blocked? && s.flag ==> NotifyPending(s))
  }

  /** The task the worker has taken and not finished, if any. */
  function InHand(s: State): seq<Task> {
    if s.worker.Taken? || s.worker.Running? then [s.worker.task] else []
  }

  /** Tasks are taken in the order they were pushed, each at most once, and finished in that order. */
  predicate OrderInvariant(s: State) {
    && s.ran + s.queue == s.pushed
    && s.completed + InHand(s) == s.ran
    && s.count == (|s.completed| - (if s.worker.Counting? then 1 else 0)) % 0x1_0000_0000
  }

  predicate PhaseInvariant(s: State) {
    && (s.terminate <==> !s.destroyer.NotBegun?)
    && (s.worker.ExitTest? ==> HasCause(s))
    && (s.worker.Returning? || s.worker.Finished? ==> s.terminate)
    && (s.worker.Counting? ==> s.completed != [])
    && (s.destroyer.Joined? ==> s.worker.Finished?)
  }

  predicate Inv(s: State) { LockInvariant(s) && WakeInvariant(s) && OrderInvariant(s) && PhaseInvariant(s) }

  lemma StartInvariant(threads: nat)
    ensures Inv(Start(threads))
  {
  }

  /** What one pusher does to the pending steps of the others: nothing. */
  lemma OthersPending(s: State, i: nat, p: Pusher)
    requires i < |s.pushers|
    ensures var t := s.(pushers := s.pushers[i := p]);
            && (p.MustSet? ==> SetPending(t))
            && (p.MustNotify? ==> NotifyPending(t))
            && (SetPending(s) && !s.pushers[i].MustSet? ==> SetPending(t))
            && (NotifyPending(s) && !s.pushers[i].MustNotify? ==> NotifyPending(t))
  {
    var t := s.(pushers := s.pushers[i := p]);
    assert t.pushers[i] == p;
    if SetPending(s) && !s.pushers[i].MustSet? && !s.destroyer.MustSetToo? {
      var j :| 0 <= j < |s.pushers| && s.pushers[j].MustSet?;
      assert t.pushers[j].MustSet?;
    }
    if NotifyPending(s) && !s.pushers[i].MustNotify? && !s.destroyer.MustNotifyToo? {
      var j :| 0 <= j < |s.pushers| && s.pushers[j].MustNotify?;
      assert t.pushers[j].MustNotify?;
    }
  }

  /** Whether a set or a notification is pending depends on the pushers and the destructor alone. */
  lemma SamePending(s: State, t: State)
    requires s.pushers == t.pushers && s.destroyer == t.destroyer
    ensures SetPending(s) == SetPending(t) && NotifyPending(s) == NotifyPending(t)
  {
  }

  lemma PushKeeps(s: State, i: nat)
    requires Inv(s) && i < |s.pushers|
    ensures Inv(PushStep(s, i))
  {
    hide LockInvariant, WakeInvariant, OrderInvariant, PhaseInvariant;
    PushKeepsLock(s, i);
    PushKeepsWake(s, i);
    PushKeepsRest(s, i);
  }

  lemma PushKeepsLock(s: State, i: nat)
    requires LockInvariant(s) && i < |s.pushers|
    ensures LockInvariant(PushStep(s, i))
  {
  }

  lemma PushKeepsWake(s: State, i: nat)
    requires LockInvariant(s) && WakeInvariant(s) && i < |s.pushers|
    ensures WakeInvariant(PushStep(s, i))
  {
    var t := PushStep(s, i);
    OthersPending(s, i, t.pushers[i]);
    SamePending(s.(pushers := t.pushers), t);
    hide SetPending, NotifyPending;
  }

  lemma PushKeepsRest(s: State, i: nat)
    requires OrderInvariant(s) && PhaseInvariant(s) && i < |s.pushers|
    ensures OrderInvariant(PushStep(s, i)) && PhaseInvariant(PushStep(s, i))
  {
    assert s.pushers[i].Holding? ==> s.ran + (s.queue + [s.pushers[i].task]) == s.ran + s.queue + [s.pushers[i].task];
  }

  lemma CountOne(n: nat)
    requires n > 0
    ensures ((n - 1) % 0x1_0000_0000 + 1) % 0x1_0000_0000 == n % 0x1_0000_0000
  {
  }

  lemma WorkKeepsOrder(s: State)
    requires OrderInvariant(s) && PhaseInvariant(s)
    ensures OrderInvariant(WorkStep(s))
  {
    match s.worker
    case ExitTest => assert s.queue != [] ==> s.queue == [s.queue[0]] + s.queue[1..];
    case Running(t) => assert s.completed + [t] + [] == s.completed + [t];
    case Counting => CountOne(|s.completed|);
    case _ =>
  }

  lemma WorkKeepsWake(s: State)
    requires WakeInvariant(s) && PhaseInvariant(s)
    ensures WakeInvariant(WorkStep(s))
  {
    SamePending(s, WorkStep(s));
    hide SetPending, NotifyPending;
  }

  lemma WorkKeepsRest(s: State)
    requires LockInvariant(s) && PhaseInvariant(s)
    ensures LockInvariant(WorkStep(s)) && PhaseInvariant(WorkStep(s))
  {
  }

  lemma WorkKeeps(s: State)
    requires Inv(s)
    ensures Inv(WorkStep(s))
  {
    hide LockInvariant, WakeInvariant, OrderInvariant, PhaseInvariant;
    WorkKeepsOrder(s);
    WorkKeepsWake(s);
    WorkKeepsRest(s);
  }

  lemma BeginKeeps(s: State, i: nat, task: Task)
    requires Inv(s) && i < |s.pushers| && s.pushers[i].Outside?
    ensures Inv(s.(pushers := s.pushers[i := Wanting(task)]))
  {
    OthersPending(s, i, Wanting(task));
    hide SetPending, NotifyPending;
  }

  /** Terminate, a spurious wake-up, or a step of the destructor. */
  lemma OtherKeeps(s: State, a: Action)
    requires Inv(s) && (a.Terminate? || a.Spurious? || a.Destroy?)
    ensures Inv(Step(s, a))
  {
  }

  lemma StepKeeps(s: State, a: Action)
    requires Inv(s)
    ensures Inv(Step(s, a))
  {
    match a
    case Begin(i, t) =>
      hide Inv;
      if i < |s.pushers| && s.pushers[i].Outside? { BeginKeeps(s, i, t); }
    case Push(i) =>
      hide Inv, PushStep;
      if i < |s.pushers| { PushKeeps(s, i); }
    case Work =>
      hide Inv, WorkStep;
      WorkKeeps(s);
    case _ =>
      OtherKeeps(s, a);
      hide Inv;
  }

  lemma {:induction false} RunKeeps(s: State, actions: seq<Action>)
    requires Inv(s)
    ensures Inv(Run(s, actions))
    decreases |actions|
  {
    hide Inv, Step;
    if actions != [] {
      StepKeeps(s, actions[0]);
      RunKeeps(Step(s, actions[0]), actions[1..]);
    }
  }

  // ---------------------------------------------------------------- safety over every run

  /** Over any run: tasks are started in push order, none twice and none skipped, and the counter counts them (mod 2^32). */
  lemma TasksRunInOrder(threads: nat, actions: seq<Action>)
    ensures var s := Run(Start(threads), actions);
            && s.ran <= s.pushed && s.pushed[|s.ran|..] == s.queue
            && s.completed <= s.ran && |s.ran| - |s.completed| <= 1
            && (!s.worker.Counting? ==> s.count == |s.completed| % 0x1_0000_0000)
  {
    StartInvariant(threads);
    RunKeeps(Start(threads), actions);
    hide Run, LockInvariant, WakeInvariant;
  }

  /**
   * No wake-up is lost. Over any run: a worker asleep with a task queued or told to terminate always has someone
   * still on the way to wake it, and one about to look at the flag will find it set or has a setter still on the way.
   */
  lemma NoLostWakeUp(threads: nat, actions: seq<Action>)
    ensures var s := Run(Start(threads), actions);
            && (s.worker.Blocked? && HasCause(s) ==> SetPending(s) || NotifyPending(s))
            && (s.worker.Waiting? && HasCause(s) ==> s.flag || SetPending(s))
  {
    StartInvariant(threads);
    RunKeeps(Start(threads), actions);
    hide Run, LockInvariant, OrderInvariant, SetPending, NotifyPending;
  }

  /** Over any run: the assertion that the queue is not empty when a task is taken holds. */
  lemma TakesOnlyQueuedTasks(threads: nat, actions: seq<Action>)
    ensures var s := Run(Start(threads), actions); s.worker.ExitTest? && !s.terminate ==> s.queue != []
  {
    StartInvariant(threads);
    RunKeeps(Start(threads), actions);
    hide Run, LockInvariant, OrderInvariant, WakeInvariant;
  }

  // ---------------------------------------------------------------- every schedule settles

  /** A step of a thread already at work, as opposed to new work arriving or a spurious wake-up. */
  predicate ThreadStep(a: Action) { a.Push? || a.Work? || a.Destroy? }

  function PusherWeight(p: Pusher): nat {
    match p
    case Outside => 0
    case Wanting(_) => 17
    case Holding(_) => 16
    case MustSet => 9
    case MustNotify => 3
    case Leaving => 1
  }

  function DestroyerWeight(d: Destroyer): nat {
    match d
    case MustSetToo => 9
    case MustNotifyToo => 3
    case Joining => 1
    case _ => 0
  }

  function WorkerWeight(w: Worker): nat {
    match w
    case Taken(_) => 11
    case Running(_) => 10
    case Counting => 9
    case Locking => 8
    case LoopTest => 7
    case ExitTest => 6
    case Unlocking => 5
    case Waiting => 4
    case Blocked => 3
    case Returning => 2
    case Finished => 1
  }

  function TotalWeight(ps: seq<Pusher>): nat {
    if ps == [] then 0 else PusherWeight(ps[0]) + TotalWeight(ps[1..])
  }

  /** An upper bound on the steps that the threads already at work can still take. */
  function Measure(s: State): nat {
    TotalWeight(s.pushers) + DestroyerWeight(s.destroyer) + WorkerWeight(s.worker) + 6 * |s.queue| + if s.flag then 5 else 0
  }

  lemma {:induction false} WeightUpdate(ps: seq<Pusher>, i: nat, p: Pusher)
    requires i < |ps|
    ensures TotalWeight(ps[i := p]) + PusherWeight(ps[i]) == TotalWeight(ps) + PusherWeight(p)
  {
    hide PusherWeight;
    if i == 0 {
      assert ps[0 := p][1..] == ps[1..];
    } else {
      WeightUpdate(ps[1..], i - 1, p);
      assert ps[i := p][1..] == ps[1..][i - 1 := p];
    }
  }

  lemma WokenWeight(w: Worker)
    ensures WorkerWeight(Woken(w)) <= WorkerWeight(w) + 1
  {
  }

  lemma PushDescends(s: State, i: nat)
    requires i < |s.pushers| && PushStep(s, i) != s
    ensures Measure(PushStep(s, i)) < Measure(s)
  {
    hide TotalWeight, WorkerWeight, DestroyerWeight, Woken;
    WeightUpdate(s.pushers, i, PushStep(s, i).pushers[i]);
    WokenWeight(s.worker);
  }

  lemma WorkDescends(s: State)
    requires WorkStep(s) != s
    ensures Measure(WorkStep(s)) < Measure(s)
  {
    hide TotalWeight, DestroyerWeight, PusherWeight;
    if s.worker.ExitTest? || s.worker.Waiting? {
      assert s.queue != [] ==> |s.queue[1..]| == |s.queue| - 1;
    } else {
      assert WorkStep(s).queue == s.queue && WorkStep(s).flag == s.flag;
    }
  }

  lemma StepDescends(s: State, a: Action)
    requires ThreadStep(a) && Step(s, a) != s
    ensures Measure(Step(s, a)) < Measure(s)
  {
    match a
    case Push(i) => PushDescends(s, i);
    case Work => WorkDescends(s);
    case _ => hide TotalWeight;
  }

  /** Steps of threads already at work, each of which gets something done. */
  predicate Productive(s: State, actions: seq<Action>)
    decreases |actions|
  {
    actions == [] ||
    (ThreadStep(actions[0]) && Step(s, actions[0]) != s && Productive(Step(s, actions[0]), actions[1..]))
  }

  /** However the threads are scheduled, they come to rest: no schedule goes on for more than Measure(s) steps. */
  lemma {:induction false} EveryScheduleEnds(s: State, actions: seq<Action>)
    requires Productive(s, actions)
    ensures |actions| <= Measure(s)
    decreases |actions|
  {
    hide Step, Measure;
    if actions != [] {
      StepDescends(s, actions[0]);
      EveryScheduleEnds(Step(s, actions[0]), actions[1..]);
    }
  }

  predicate AtRest(s: State) {
    Step(s, Work) == s && Step(s, Destroy) == s && forall i :: 0 <= i < |s.pushers| ==> Step(s, Push(i)) == s
  }

  /** A pusher that cannot step is not in PushTask, or waits for a lock that someone else holds. */
  lemma PusherAtRest(s: State, i: nat)
    requires i < |s.pushers| && Step(s, Push(i)) == s
    ensures s.pushers[i].Outside? || (s.pushers[i].Wanting? && s.owner != Nobody)
  {
    assert PushStep(s, i).pushers[i] == s.pushers[i];
  }

  lemma LockFreeAtRest(s: State)
    requires Inv(s) && AtRest(s)
    ensures s.owner == Nobody && (s.worker.Blocked? || s.worker.Finished?)
    ensures !SetPending(s) && !NotifyPending(s) && forall i :: 0 <= i < |s.pushers| ==> s.pushers[i].Outside?
  {
    forall i | 0 <= i < |s.pushers| ensures s.pushers[i].Outside? || (s.pushers[i].Wanting? && s.owner != Nobody) {
      assert Step(s, Push(i)) == s;
      PusherAtRest(s, i);
    }
    WorkerAtRest(s);
    hide WakeInvariant, OrderInvariant, Step;
  }

  lemma WorkerAtRest(s: State)
    requires AtRest(s)
    ensures s.worker.Blocked? || s.worker.Finished? || (s.worker.Locking? && s.owner != Nobody)
    ensures !s.destroyer.MustSetToo? && !s.destroyer.MustNotifyToo? && (s.destroyer.Joining? ==> !s.worker.Finished?)
  {
    assert WorkStep(s) == s && DestroyStep(s) == s;
    assert s.worker.ExitTest? ==> WorkStep(s).worker != s.worker;
  }

  /**
   * Where the threads come to rest, no one is stuck: all pushers are done, and either every task pushed has been run
   * and the worker sleeps, or the worker was told to terminate, has finished, and has been joined.
   */
  lemma RestIsDone(s: State)
    requires Inv(s) && AtRest(s)
    ensures forall i :: 0 <= i < |s.pushers| ==> s.pushers[i].Outside?
    ensures if s.terminate then s.worker.Finished? && s.destroyer.Joined?
            else s.worker.Blocked? && s.completed == s.pushed && s.count == |s.pushed| % 0x1_0000_0000
  {
    LockFreeAtRest(s);
    WorkerAtRest(s);
    hide AtRest, LockInvariant, SetPending, NotifyPending;
  }

  // ---------------------------------------------------------------- termination

  lemma TerminatedStep(s: State, a: Action)
    requires s.terminate
    ensures var t := Step(s, a);
            t.terminate && t.ran == s.ran && s.queue <= t.queue && s.pushed <= t.pushed &&
            t.queue[|s.queue|..] == t.pushed[|s.pushed|..]
  {
  }

  /**
   * From the request to terminate on, in every run: no task is taken any more, and the queue only grows, by exactly
   * the tasks that are still pushed.
   */
  lemma {:induction false} TerminatedRun(s: State, actions: seq<Action>)
    requires s.terminate
    ensures var t := Run(s, actions);
            t.terminate && t.ran == s.ran && s.queue <= t.queue && s.pushed <= t.pushed &&
            t.queue[|s.queue|..] == t.pushed[|s.pushed|..]
    decreases |actions|
  {
    hide Step;
    if actions == [] {
      assert s.queue[|s.queue|..] == s.pushed[|s.pushed|..];
    } else {
      var t := Step(s, actions[0]);
      TerminatedStep(s, actions[0]);
      TerminatedRun(t, actions[1..]);
      SameGrowth(s.queue, t.queue, Run(t, actions[1..]).queue, s.pushed, t.pushed, Run(t, actions[1..]).pushed);
    }
  }

  lemma SameGrowth(q0: seq<Task>, q1: seq<Task>, q2: seq<Task>, p0: seq<Task>, p1: seq<Task>, p2: seq<Task>)
    requires q0 <= q1 <= q2 && p0 <= p1 <= p2
    requires q1[|q0|..] == p1[|p0|..] && q2[|q1|..] == p2[|p1|..]
    ensures q0 <= q2 && p0 <= p2 && q2[|q0|..] == p2[|p0|..]
  {
    assert q2 == q1 + q2[|q1|..] && p2 == p1 + p2[|p1|..];
    assert q2[|q0|..] == q1[|q0|..] + q2[|q1|..];
    assert p2[|p0|..] == p1[|p0|..] + p2[|p1|..];
  }

  /**
   * When everything has come to rest after a request to terminate, all tasks pushed have been run exactly when none
   * was queued at the request and none was pushed after it. The tasks that have not run are the ones left in the queue.
   */
  lemma TerminationLeavesTasks(s: State, actions: seq<Action>)
    requires Inv(s) && s.terminate && AtRest(Run(s, actions))
    ensures var t := Run(s, actions);
            && (t.completed == t.pushed <==> s.queue == [] && t.pushed == s.pushed)
            && t.completed == s.ran && t.pushed == t.completed + t.queue
  {
    RunKeeps(s, actions);
    TerminatedRun(s, actions);
    hide Run, Step, AtRest;
    var t := Run(s, actions);
    RestIsDone(t);
    hide LockInvariant, WakeInvariant, PhaseInvariant;
    assert t.completed == t.completed + InHand(t) == t.ran;
  }

  lemma {:induction false} RunAppend(s: State, a: seq<Action>, b: seq<Action>)
    ensures Run(s, a + b) == Run(Run(s, a), b)
    decreases |a|
  {
    hide Step;
    if a == [] {
      assert a + b == b;
    } else {
      RunAppend(Step(s, a[0]), a[1..], b);
      assert (a + b)[1..] == a[1..] + b;
    }
  }

  lemma RunFour(s: State, a: Action, b: Action, c: Action, d: Action)
    ensures Run(s, [a, b, c, d]) == Step(Step(Step(Step(s, a), b), c), d)
  {
    hide Step;
    assert [a, b, c, d][1..] == [b, c, d] && [b, c, d][1..] == [c, d] && [c, d][1..] == [d] && [d][1..] == [];
    var t := Step(Step(s, a), b);
    assert Run(s, [a, b, c, d]) == Run(t, [c, d]);
    assert Run(t, [c, d]) == Run(Step(Step(t, c), d), []);
  }

  /** One thread has queued its task, and is still before Set, when the worker is told to terminate. */
  function Interrupted(task: Task): State {
    State(true, false, Pusher(0), [task], 0, [MustSet], Locking, MustSetToo, [task], [], [])
  }

  lemma Interruption(task: Task)
    ensures Run(Start(1), [Begin(0, task), Push(0), Push(0), Terminate]) == Interrupted(task)
  {
    RunFour(Start(1), Begin(0, task), Push(0), Push(0), Terminate);
    var s := Start(1).(pushers := [Holding(task)], owner := Pusher(0));
    assert Step(Step(Start(1), Begin(0, task)), Push(0)) == s;
    assert [] + [task] == [task];
  }

  /** What the threads do from there on if they go one after the other. */
  lemma AfterInterruption(task: Task)
    ensures var s := Interrupted(task);
            var t := Run(s, [Push(0), Push(0), Push(0), Work]);
            t == s.(flag := true, owner := Worker, pushers := [Outside], worker := LoopTest)
  {
    var s := Interrupted(task);
    RunFour(s, Push(0), Push(0), Push(0), Work);
    assert Step(Step(s, Push(0)), Push(0)) == s.(flag := true, pushers := [Leaving]);
  }

  lemma WorkerReturns(s: State)
    requires s.worker.LoopTest? && s.terminate && s.destroyer.MustSetToo?
    ensures Run(s, [Work, Work, Work, Destroy]) == s.(flag := true, owner := Nobody, worker := Finished, destroyer := MustNotifyToo)
  {
    RunFour(s, Work, Work, Work, Destroy);
    assert Step(Step(s, Work), Work) == s.(worker := Returning);
  }

  lemma DestructorReturns(s: State)
    requires s.worker.Finished? && s.destroyer.MustNotifyToo?
    ensures Run(s, [Destroy, Destroy, Work, Work]) == s.(destroyer := Joined)
  {
    RunFour(s, Destroy, Destroy, Work, Work);
    var t := s.(destroyer := Joined);
    assert Step(Step(s, Destroy), Destroy) == t;
    assert Step(t, Work) == t;
  }

  /** Such a run exists: a task is pushed, the worker is told to terminate, all threads finish, and it has not run. */
  lemma TaskIsLeft(task: Task) returns (actions: seq<Action>)
    ensures var t := Run(Start(1), actions); AtRest(t) && t.pushed == [task] && t.completed == []
  {
    var s := Interrupted(task);
    Interruption(task);
    AfterInterruption(task);
    var t := s.(flag := true, owner := Worker, pushers := [Outside], worker := LoopTest);
    WorkerReturns(t);
    var u := t.(owner := Nobody, worker := Finished, destroyer := MustNotifyToo);
    DestructorReturns(u);
    assert AtRest(u.(destroyer := Joined));
    hide Run, Step, AtRest;
    var a, b := [Begin(0, task), Push(0), Push(0), Terminate], [Push(0), Push(0), Push(0), Work];
    var c, d := [Work, Work, Work, Destroy], [Destroy, Destroy, Work, Work];
    actions := a + (b + (c + d));
    RunAppend(Start(1), a, b + (c + d));
    RunAppend(s, b, c + d);
    RunAppend(t, c, d);
  }
}

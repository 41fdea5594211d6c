/**
 What becomes of every task handed to PushTask: it is with its thread, queued, in the worker's hands or completed, exactly
 once, and tasks of one thread keep the order in which they were handed over.
 */
module WorkerTasks {
  import opened WorkerThread

  /** A thread that is free calls PushTask. */
  predicate Calls(s: State, a: Action) { a.Begin? && a.i < |s.pushers| && s.pushers[a.i].Outside? }

  /** The tasks thread i has handed over, in order. */
  function TasksOf(s: State, actions: seq<Action>, i: nat): seq<Task>
    decreases |actions|
  {
    if actions == [] then [] else
      (if Calls(s, actions[0]) && actions[0].i == i then [actions[0].task] else []) +
      TasksOf(Step(s, actions[0]), actions[1..], i)
  }

  /** How often a task has been handed over. */
  function HandedTimes(s: State, actions: seq<Action>, e: Task): nat
    decreases |actions|
  {
    if actions == [] then 0 else
      (if Calls(s, actions[0]) && actions[0].task == e then 1 else 0) + HandedTimes(Step(s, actions[0]), actions[1..], e)
  }

  /** The task that a thread has not queued yet. */
  function WithThread(p: Pusher): seq<Task> { if p.Wanting? || p.Holding? then [p.task] else [] }

  /** How many threads still have a task. */
  function ThreadsWith(ps: seq<Pusher>, e: Task): nat {
    if ps == [] then 0 else (if WithThread(ps[0]) == [e] then 1 else 0) + ThreadsWith(ps[1..], e)
  }

  function Of(s: State, i: nat): seq<Task> { if i < |s.pushers| then WithThread(s.pushers[i]) else [] }

  /** The threads whose tasks are queued, in the order they are. */
  function Writers(s: State, actions: seq<Action>): seq<nat>
    decreases |actions|
  {
    if actions == [] then [] else
      var a := actions[0];
      (if a.Push? && a.i < |s.pushers| && s.pushers[a.i].Holding? then [a.i] else []) +
      Writers(Step(s, a), actions[1..])
  }

  /** The tasks whose writer is thread i. */
  function Written(tasks: seq<Task>, writers: seq<nat>, i: nat): seq<Task>
    requires |tasks| == |writers|
  {
    if tasks == [] then [] else
      var n := |tasks| - 1;
      Written(tasks[..n], writers[..n], i) + if writers[n] == i then [tasks[n]] else []
  }

  lemma WrittenOneMore(tasks: seq<Task>, writers: seq<nat>, e: Task, w: nat, i: nat)
    requires |tasks| == |writers|
    ensures Written(tasks + [e], writers + [w], i) == Written(tasks, writers, i) + if w == i then [e] else []
  {
    assert (tasks + [e])[..|tasks|] == tasks && (writers + [w])[..|tasks|] == writers;
  }

  // ---------------------------------------------------------------- each thread's order

  /** A call: the thread has the task if it was free. */
  lemma BeginOf(s: State, a: Action, i: nat)
    requires a.Begin?
    ensures Of(Step(s, a), i) == Of(s, i) + (if Calls(s, a) && a.i == i then [a.task] else [])
    ensures Step(s, a).pushed == s.pushed
  {
  }

  /** A step of thread j: its task, if any, is queued in the step that counts it as written. */
  lemma PushOf(s: State, j: nat, i: nat)
    requires j < |s.pushers|
    ensures var t, queues := PushStep(s, j), s.pushers[j].Holding?;
            t.pushed == s.pushed + (if queues then [s.pushers[j].task] else []) &&
            (if queues && j == i then [s.pushers[j].task] else []) + Of(t, i) == Of(s, i)
  {
  }

  /** One step: thread i's queued tasks and the one it still has grow by the task it is called with alone. */
  lemma StepOf(s: State, a: Action, writers: seq<nat>, i: nat)
    requires |writers| == |s.pushed|
    ensures var t, more := Step(s, a), writers + Writers(s, [a]);
            |more| == |t.pushed| &&
            Written(t.pushed, more, i) + Of(t, i) ==
            Written(s.pushed, writers, i) + Of(s, i) + if Calls(s, a) && a.i == i then [a.task] else []
  {
    hide Written, Of, PushStep, WorkStep;
    var t, w := Step(s, a), Written(s.pushed, writers, i);
    assert Writers(t, [a][1..]) == [];
    if a.Push? && a.i < |s.pushers| {
      PushOf(s, a.i, i);
      if s.pushers[a.i].Holding? {
        var e := s.pushers[a.i].task;
        assert Writers(s, [a]) == [a.i];
        WrittenOneMore(s.pushed, writers, e, a.i, i);
        var own := if a.i == i then [e] else [];
        assert own + Of(t, i) == Of(s, i);
        assert w + own + Of(t, i) == w + (own + Of(t, i)) == w + Of(s, i) + [];
      } else {
        assert t.pushed == s.pushed && writers + [] == writers && Of(t, i) == Of(s, i);
      }
    } else {
      assert writers + [] == writers;
      if a.Begin? {
        BeginOf(s, a, i);
        assert w + Of(t, i) == w + Of(s, i) + if Calls(s, a) && a.i == i then [a.task] else [];
      } else {
        OtherSteps(s, a, i);
      }
    }
  }

  lemma OtherSteps(s: State, a: Action, i: nat)
    requires !a.Begin? && (a.Push? ==> a.i >= |s.pushers|)
    ensures Step(s, a).pushed == s.pushed && Step(s, a).pushers == s.pushers
    ensures Of(Step(s, a), i) == Of(s, i)
  {
  }

  lemma WritersStep(s: State, actions: seq<Action>)
    requires actions != []
    ensures Writers(s, actions) == Writers(s, [actions[0]]) + Writers(Step(s, actions[0]), actions[1..])
  {
    hide Step;
    assert [actions[0]][1..] == [];
    assert Writers(Step(s, actions[0]), []) == [];
  }

  lemma {:induction false} RunOf(s: State, actions: seq<Action>, writers: seq<nat>, i: nat)
    requires |writers| == |s.pushed|
    ensures var t, all := Run(s, actions), writers + Writers(s, actions);
            |all| == |t.pushed| &&
            Written(t.pushed, all, i) + Of(t, i) == Written(s.pushed, writers, i) + Of(s, i) + TasksOf(s, actions, i)
    decreases |actions|
  {
    hide Step, Written, Of, Calls;
    if actions == [] {
      assert writers + [] == writers;
    } else {
      var a := actions[0];
      var first := writers + Writers(s, [a]);
      StepOf(s, a, writers, i);
      RunOf(Step(s, a), actions[1..], first, i);
      WritersStep(s, actions);
      hide Writers;
      assert first + Writers(Step(s, a), actions[1..]) == writers + Writers(s, actions);
    }
  }

  lemma InOrder(s: State)
    requires Inv(s)
    ensures s.completed + InHand(s) + s.queue == s.pushed
  {
    hide LockInvariant, WakeInvariant, PhaseInvariant;
  }

  /**
   Over every run, and for every thread: the tasks it has handed over are, in this order, those of its tasks that are
   completed, the one in the worker's hands, those in the queue, and the one it still has.
   */
  lemma TasksKeepTheirOrder(threads: nat, actions: seq<Action>, i: nat)
    ensures var s, writers := Run(Start(threads), actions), Writers(Start(threads), actions);
            |writers| == |s.completed + InHand(s) + s.queue| &&
            TasksOf(Start(threads), actions, i) == Written(s.completed + InHand(s) + s.queue, writers, i) + Of(s, i)
  {
    var start := Start(threads);
    assert start.pushed == [] && Of(start, i) == [];
    StartInvariant(threads);
    hide *;
    RunOf(start, actions, [], i);
    RunKeeps(start, actions);
    InOrder(Run(start, actions));
    NothingWritten(i);
    assert [] + Writers(start, actions) == Writers(start, actions);
    assert [] + [] + TasksOf(start, actions, i) == TasksOf(start, actions, i);
  }

  lemma NothingWritten(i: nat)
    ensures Written([], [], i) == []
  {
  }

  // ---------------------------------------------------------------- no task is lost

  lemma {:induction false} ThreadsUpdate(ps: seq<Pusher>, i: nat, p: Pusher, e: Task)
    requires i < |ps|
    ensures ThreadsWith(ps[i := p], e) + (if WithThread(ps[i]) == [e] then 1 else 0)
              == ThreadsWith(ps, e) + if WithThread(p) == [e] then 1 else 0
  {
    hide WithThread;
    if i == 0 {
      assert ps[0 := p][1..] == ps[1..];
    } else {
      assert ps[i := p][1..] == ps[1..][i - 1 := p];
      ThreadsUpdate(ps[1..], i - 1, p, e);
    }
  }

  lemma OneMore(tasks: seq<Task>, t: Task, e: Task)
    ensures multiset(tasks + [t])[e] == multiset(tasks)[e] + if t == e then 1 else 0
  {
  }

  /** A thread's step queues its task or leaves it with the thread. */
  lemma PushAll(s: State, i: nat, e: Task)
    requires i < |s.pushers|
    ensures var t := PushStep(s, i);
            t.pushers == s.pushers[i := t.pushers[i]] &&
            multiset(t.pushed)[e] + (if WithThread(t.pushers[i]) == [e] then 1 else 0)
              == multiset(s.pushed)[e] + if WithThread(s.pushers[i]) == [e] then 1 else 0
  {
    if s.pushers[i].Holding? {
      OneMore(s.pushed, s.pushers[i].task, e);
    }
  }

  /** What a step changes of the tasks on their way. */
  lemma StepAll(s: State, a: Action, e: Task)
    ensures var t := Step(s, a);
            multiset(t.pushed)[e] + ThreadsWith(t.pushers, e) ==
            multiset(s.pushed)[e] + ThreadsWith(s.pushers, e) + if Calls(s, a) && a.task == e then 1 else 0
  {
    hide ThreadsWith, PushStep, WorkStep;
    if a.Push? && a.i < |s.pushers| {
      PushAll(s, a.i, e);
      ThreadsUpdate(s.pushers, a.i, PushStep(s, a.i).pushers[a.i], e);
    } else if a.Begin? {
      if Calls(s, a) {
        ThreadsUpdate(s.pushers, a.i, Wanting(a.task), e);
      }
    } else {
      OtherSteps(s, a, 0);
    }
  }

  lemma {:induction false} RunAll(s: State, actions: seq<Action>, e: Task)
    ensures var t := Run(s, actions);
            multiset(t.pushed)[e] + ThreadsWith(t.pushers, e) ==
            multiset(s.pushed)[e] + ThreadsWith(s.pushers, e) + HandedTimes(s, actions, e)
    decreases |actions|
  {
    hide Step, ThreadsWith, Calls;
    if actions != [] {
      StepAll(s, actions[0], e);
      RunAll(Step(s, actions[0]), actions[1..], e);
    }
  }

  lemma {:induction false} NobodyHasAny(ps: seq<Pusher>, e: Task)
    requires forall i :: 0 <= i < |ps| ==> ps[i].Outside?
    ensures ThreadsWith(ps, e) == 0
  {
    if ps != [] {
      NobodyHasAny(ps[1..], e);
    }
  }

  /**
   Over every run, and for every task: it has been handed over as often as it is completed, in the worker's hands, in
   the queue, and still with threads.
   */
  lemma NoTaskIsLost(threads: nat, actions: seq<Action>, e: Task)
    ensures var s := Run(Start(threads), actions);
            HandedTimes(Start(threads), actions, e) ==
            multiset(s.completed + InHand(s) + s.queue)[e] + ThreadsWith(s.pushers, e)
  {
    var start := Start(threads);
    assert start.pushed == [] && forall i :: 0 <= i < |start.pushers| ==> start.pushers[i].Outside?;
    StartInvariant(threads);
    hide *;
    RunAll(start, actions, e);
    NobodyHasAny(start.pushers, e);
    RunKeeps(start, actions);
    InOrder(Run(start, actions));
  }

  /** When all threads rest and none has asked to terminate, exactly the tasks handed over have been completed. */
  lemma AllTasksAreDone(threads: nat, actions: seq<Action>, e: Task)
    requires AtRest(Run(Start(threads), actions)) && !Run(Start(threads), actions).terminate
    ensures HandedTimes(Start(threads), actions, e) == multiset(Run(Start(threads), actions).completed)[e]
  {
    hide *;
    var s := Run(Start(threads), actions);
    StartInvariant(threads);
    RunKeeps(Start(threads), actions);
    RestIsDone(s);
    NoTaskIsLost(threads, actions, e);
    NobodyHasAny(s.pushers, e);
    InOrder(s);
    Nothing(s.completed, InHand(s), s.queue);
  }

  lemma Nothing(a: seq<Task>, b: seq<Task>, c: seq<Task>)
    requires |a| == |a + b + c|
    ensures a == a + b + c
  {
  }

  /** After a request to terminate, those handed over are the completed ones and those left in the queue. */
  lemma LeftInTheQueue(threads: nat, actions: seq<Action>, e: Task)
    requires AtRest(Run(Start(threads), actions)) && Run(Start(threads), actions).terminate
    ensures var s := Run(Start(threads), actions);
            HandedTimes(Start(threads), actions, e) == multiset(s.completed)[e] + multiset(s.queue)[e]
  {
    hide *;
    var s := Run(Start(threads), actions);
    StartInvariant(threads);
    RunKeeps(Start(threads), actions);
    RestIsDone(s);
    NoTaskIsLost(threads, actions, e);
    NobodyHasAny(s.pushers, e);
    FinishedHasNone(s);
    assert s.completed + [] + s.queue == s.completed + s.queue;
    assert multiset(s.completed + s.queue) == multiset(s.completed) + multiset(s.queue);
  }

  lemma FinishedHasNone(s: State)
    requires s.worker.Finished?
    ensures InHand(s) == []
  {
  }

  // ---------------------------------------------------------------- the lock

  /**
   Over every run: no two threads are between taking and releasing the lock, and the worker is not while it runs a task
   or sleeps, so that others can hand over tasks meanwhile.
   */
  lemma LockIsExclusive(threads: nat, actions: seq<Action>, i: nat, j: nat)
    ensures var s := Run(Start(threads), actions);
            && (i < |s.pushers| && j < |s.pushers| && i != j && HasLock(s.pushers[i]) ==> !HasLock(s.pushers[j]))
            && (i < |s.pushers| && HasLock(s.pushers[i]) ==>
                  !(s.worker.LoopTest? || s.worker.ExitTest? || s.worker.Unlocking? || s.worker.Taken? || s.worker.Returning?))
            && (s.worker.Running? || s.worker.Counting? || s.worker.Waiting? || s.worker.Blocked? ==> s.owner != Worker)
  {
    StartInvariant(threads);
    RunKeeps(Start(threads), actions);
    hide Run, WakeInvariant, OrderInvariant, PhaseInvariant;
  }

  predicate HasLock(p: Pusher) { p.Holding? || p.MustSet? || p.MustNotify? || p.Leaving? }

  /** A thread that finds the lock free hands its task over, and then the event is set and the lock free again. */
  lemma CallFinishes(s: State, i: nat, e: Task)
    requires i < |s.pushers| && s.pushers[i] == Wanting(e) && s.owner == Nobody
    ensures var t := Step(Step(Step(Step(Step(s, Push(i)), Push(i)), Push(i)), Push(i)), Push(i));
            t == s.(queue := s.queue + [e], pushed := s.pushed + [e], flag := true, pushers := s.pushers[i := Outside],
            worker := if s.worker.Blocked? then Waiting else s.worker)
  {
    var a := Push(i);
    assert Step(Step(s, a), a).pushers == s.pushers[i := MustSet];
    assert Step(Step(Step(s, a), a), a).pushers == s.pushers[i := MustNotify];
    assert Step(Step(Step(Step(s, a), a), a), a).pushers == s.pushers[i := Leaving];
  }
}

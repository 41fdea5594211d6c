/**
 What becomes of every call to the log: the entry of an accepted call is with its thread, in the queue, in the cache or
 popped, exactly once, and entries of one thread keep the order of its calls.
 */
module Log4zCalls {
  import opened Log4zQueue

  /** A call passes the checks: its thread is free, the logger is running and knows the id. */
  predicate Accepts(s: State, a: Action) {
    a.Begin? && a.i < |s.producers| && s.producers[a.i].Outside? && s.running && 0 <= a.e.id <= s.lastId
  }

  /** The entries of thread i's accepted calls, in order. */
  function CallsOf(s: State, actions: seq<Action>, i: nat): seq<Entry>
    decreases |actions|
  {
    if actions == [] then [] else
      (if Accepts(s, actions[0]) && actions[0].i == i then [actions[0].e] else []) +
      CallsOf(Step(s, actions[0]), actions[1..], i)
  }

  /** How many accepted calls were made with entry e. */
  function CallsWith(s: State, actions: seq<Action>, e: Entry): nat
    decreases |actions|
  {
    if actions == [] then 0 else
      (if Accepts(s, actions[0]) && actions[0].e == e then 1 else 0) + CallsWith(Step(s, actions[0]), actions[1..], e)
  }

  /** The entry that a thread has not queued yet. */
  function WithThread(p: Producer): seq<Entry> { if p.Waiting? || p.Holding? then [p.e] else [] }

  /** How many threads still have entry e. */
  function ThreadsWith(ps: seq<Producer>, e: Entry): nat {
    if ps == [] then 0 else (if WithThread(ps[0]) == [e] then 1 else 0) + ThreadsWith(ps[1..], e)
  }

  function Of(s: State, i: nat): seq<Entry> { if i < |s.producers| then WithThread(s.producers[i]) else [] }

  /** The threads whose entries are queued, in the order they are. */
  function Writers(s: State, actions: seq<Action>): seq<nat>
    decreases |actions|
  {
    if actions == [] then [] else
      var a := actions[0];
      (if a.Produce? && a.i < |s.producers| && s.producers[a.i].Holding? then [a.i] else []) +
      Writers(Step(s, a), actions[1..])
  }

  /** The entries whose writer is thread i. */
  function Written(entries: seq<Entry>, writers: seq<nat>, i: nat): seq<Entry>
    requires |entries| == |writers|
  {
    if entries == [] then [] else
      var n := |entries| - 1;
      Written(entries[..n], writers[..n], i) + if writers[n] == i then [entries[n]] else []
  }

  lemma WrittenOneMore(entries: seq<Entry>, writers: seq<nat>, e: Entry, w: nat, i: nat)
    requires |entries| == |writers|
    ensures Written(entries + [e], writers + [w], i) == Written(entries, writers, i) + if w == i then [e] else []
  {
    assert (entries + [e])[..|entries|] == entries && (writers + [w])[..|entries|] == writers;
  }

  // ---------------------------------------------------------------- each thread's order

  /** A call: the thread has the entry if it is accepted. */
  lemma BeginOf(s: State, a: Action, i: nat)
    requires a.Begin?
    ensures Of(Step(s, a), i) == Of(s, i) + (if Accepts(s, a) && a.i == i then [a.e] else [])
    ensures Step(s, a).pushed == s.pushed
  {
  }

  /** A step of thread j: its entry, if any, is queued in the step that counts it as written. */
  lemma ProduceOf(s: State, j: nat, i: nat)
    requires j < |s.producers|
    ensures var t, queues := ProduceStep(s, j), s.producers[j].Holding?;
            t.pushed == s.pushed + (if queues then [s.producers[j].e] else []) &&
            (if queues && j == i then [s.producers[j].e] else []) + Of(t, i) == Of(s, i)
  {
  }

  /** One step: thread i's queued entries and the one it still has grow by its accepted call alone. */
  lemma StepOf(s: State, a: Action, writers: seq<nat>, i: nat)
    requires |writers| == |s.pushed|
    ensures var t, more := Step(s, a), writers + Writers(s, [a]);
            |more| == |t.pushed| &&
            Written(t.pushed, more, i) + Of(t, i) ==
            Written(s.pushed, writers, i) + Of(s, i) + if Accepts(s, a) && a.i == i then [a.e] else []
  {
    hide Written, Of, ProduceStep, BeginStep, ConsumeStep;
    var t, w := Step(s, a), Written(s.pushed, writers, i);
    assert Writers(t, [a][1..]) == [];
    if a.Produce? && a.i < |s.producers| {
      ProduceOf(s, a.i, i);
      if s.producers[a.i].Holding? {
        var e := s.producers[a.i].e;
        assert Writers(s, [a]) == [a.i];
        WrittenOneMore(s.pushed, writers, e, a.i, i);
        var own := if a.i == i then [e] else [];
        assert own + Of(t, i) == Of(s, i);
        assert w + own + Of(t, i) == w + (own + Of(t, i)) == w + Of(s, i) + [];
      } else {
        assert t.pushed == s.pushed && writers + [] == writers && Of(t, i) == Of(s, i);
      }
    } else {
      assert writers + [] == writers;
      if a.Begin? {
        BeginOf(s, a, i);
        assert w + Of(t, i) == w + Of(s, i) + if Accepts(s, a) && a.i == i then [a.e] else [];
      } else {
        OtherSteps(s, a, i);
      }
    }
  }

  lemma OtherSteps(s: State, a: Action, i: nat)
    requires !a.Begin? && (a.Produce? ==> a.i >= |s.producers|)
    ensures Step(s, a).pushed == s.pushed && Step(s, a).producers == s.producers
    ensures Of(Step(s, a), i) == Of(s, i)
  {
  }

  lemma WritersStep(s: State, actions: seq<Action>)
    requires actions != []
    ensures Writers(s, actions) == Writers(s, [actions[0]]) + Writers(Step(s, actions[0]), actions[1..])
  {
    hide Step;
    assert [actions[0]][1..] == [];
    assert Writers(Step(s, actions[0]), []) == [];
  }

  lemma {:induction false} RunOf(s: State, actions: seq<Action>, writers: seq<nat>, i: nat)
    requires |writers| == |s.pushed|
    ensures var t, all := Run(s, actions), writers + Writers(s, actions);
            |all| == |t.pushed| &&
            Written(t.pushed, all, i) + Of(t, i) == Written(s.pushed, writers, i) + Of(s, i) + CallsOf(s, actions, i)
    decreases |actions|
  {
    hide Step, Written, Of, Accepts;
    if actions == [] {
      assert writers + [] == writers;
    } else {
      var a := actions[0];
      var first := writers + Writers(s, [a]);
      StepOf(s, a, writers, i);
      RunOf(Step(s, a), actions[1..], first, i);
      WritersStep(s, actions);
      hide Writers;
      assert first + Writers(Step(s, a), actions[1..]) == writers + Writers(s, actions);
    }
  }

  /**
   Over every run, and for every thread: the entries of its accepted calls are, in this order, those of its entries that
   have been popped, those in the cache, those in the queue, and the one it still has.
   */
  lemma CallsKeepTheirOrder(threads: nat, actions: seq<Action>, i: nat)
    ensures var s, writers := Run(Start(threads), actions), Writers(Start(threads), actions);
            |writers| == |s.popped + Queue(s)| &&
            CallsOf(Start(threads), actions, i) == Written(s.popped + Queue(s), writers, i) + Of(s, i)
  {
    var start := Start(threads);
    assert start.pushed == [] && Of(start, i) == [];
    StartInvariant(threads);
    hide *;
    RunOf(start, actions, [], i);
    RunKeeps(start, actions);
    QueuedInOrder(Run(start, actions));
    NothingWritten(i);
    assert [] + Writers(start, actions) == Writers(start, actions);
    assert [] + [] + CallsOf(start, actions, i) == CallsOf(start, actions, i);
  }

  lemma QueuedInOrder(s: State)
    requires Inv(s)
    ensures s.popped + Queue(s) == s.pushed
  {
    hide LockInvariant, ViewInvariant, IdInvariant, CountInvariant, Queue;
  }

  lemma NothingWritten(i: nat)
    ensures Written([], [], i) == []
  {
  }

  // ---------------------------------------------------------------- no call is lost

  lemma {:induction false} ThreadsUpdate(ps: seq<Producer>, i: nat, p: Producer, e: Entry)
    requires i < |ps|
    ensures ThreadsWith(ps[i := p], e) + (if WithThread(ps[i]) == [e] then 1 else 0)
              == ThreadsWith(ps, e) + if WithThread(p) == [e] then 1 else 0
  {
    hide WithThread;
    if i == 0 {
      assert ps[0 := p][1..] == ps[1..];
    } else {
      assert ps[i := p][1..] == ps[1..][i - 1 := p];
      ThreadsUpdate(ps[1..], i - 1, p, e);
    }
  }

  /** A thread's step queues its entry or leaves it with the thread. */
  lemma ProduceAll(s: State, i: nat, e: Entry)
    requires i < |s.producers|
    ensures var t := ProduceStep(s, i);
            t.producers == s.producers[i := t.producers[i]] &&
            multiset(t.pushed)[e] + (if WithThread(t.producers[i]) == [e] then 1 else 0)
              == multiset(s.pushed)[e] + if WithThread(s.producers[i]) == [e] then 1 else 0
  {
    if s.producers[i].Holding? {
      assert multiset(s.pushed + [s.producers[i].e]) == multiset(s.pushed) + multiset{s.producers[i].e};
    }
  }

  /** What a step changes of the entries on their way. */
  lemma StepAll(s: State, a: Action, e: Entry)
    ensures var t := Step(s, a);
            multiset(t.pushed)[e] + ThreadsWith(t.producers, e) ==
            multiset(s.pushed)[e] + ThreadsWith(s.producers, e) + if Accepts(s, a) && a.e == e then 1 else 0
  {
    hide ThreadsWith, ProduceStep, ConsumeStep;
    if a.Produce? && a.i < |s.producers| {
      ProduceAll(s, a.i, e);
      ThreadsUpdate(s.producers, a.i, ProduceStep(s, a.i).producers[a.i], e);
    } else if a.Begin? {
      if Accepts(s, a) {
        ThreadsUpdate(s.producers, a.i, Waiting(a.e), e);
      }
    } else {
      OtherSteps(s, a, 0);
    }
  }

  lemma {:induction false} RunAll(s: State, actions: seq<Action>, e: Entry)
    ensures var t := Run(s, actions);
            multiset(t.pushed)[e] + ThreadsWith(t.producers, e) ==
            multiset(s.pushed)[e] + ThreadsWith(s.producers, e) + CallsWith(s, actions, e)
    decreases |actions|
  {
    hide Step, ThreadsWith, Accepts;
    if actions != [] {
      StepAll(s, actions[0], e);
      RunAll(Step(s, actions[0]), actions[1..], e);
    }
  }

  lemma {:induction false} NobodyHasAny(ps: seq<Producer>, e: Entry)
    requires forall i :: 0 <= i < |ps| ==> ps[i].Outside?
    ensures ThreadsWith(ps, e) == 0
  {
    if ps != [] {
      NobodyHasAny(ps[1..], e);
    }
  }

  lemma InOrder(s: State, e: Entry)
    requires Inv(s)
    ensures multiset(s.popped)[e] + multiset(Queue(s))[e] == multiset(s.pushed)[e]
  {
    hide LockInvariant, ViewInvariant, IdInvariant, CountInvariant, Queue;
    assert multiset(s.popped + Queue(s)) == multiset(s.popped) + multiset(Queue(s));
  }

  /**
   Over every run, and for every entry: it has been handed to as many accepted calls as it has been popped times, is in
   cache and queue, and is still with threads.
   */
  lemma NoCallIsLost(threads: nat, actions: seq<Action>, e: Entry)
    ensures var s := Run(Start(threads), actions);
            CallsWith(Start(threads), actions, e) ==
            multiset(s.popped)[e] + multiset(Queue(s))[e] + ThreadsWith(s.producers, e)
  {
    var start := Start(threads);
    assert start.pushed == [] && forall i :: 0 <= i < |start.producers| ==> start.producers[i].Outside?;
    StartInvariant(threads);
    hide *;
    RunAll(start, actions, e);
    NobodyHasAny(start.producers, e);
    RunKeeps(start, actions);
    InOrder(Run(start, actions), e);
  }

  /** So once logging has stopped and no thread is at work, the writer by itself pops exactly what was accepted. */
  lemma AllCallsArePopped(threads: nat, actions: seq<Action>) returns (steps: seq<Action>)
    requires Quiet(Run(Start(threads), actions))
    ensures forall i :: 0 <= i < |steps| ==> steps[i] == Consume
    ensures var t := Run(Run(Start(threads), actions), steps);
            t.consumer.Gone? && forall e :: multiset(t.popped)[e] == CallsWith(Start(threads), actions, e)
  {
    var s := Run(Start(threads), actions);
    steps := WriterFinishes(s);
    forall e ensures multiset(Run(s, steps).popped)[e] == CallsWith(Start(threads), actions, e) {
      NoCallIsLost(threads, actions, e);
      NobodyHasAny(s.producers, e);
      hide Run, CallsWith, ThreadsWith;
      InOrder(s, e);
    }
  }

  /** A thread that finds the lock free queues its entry in three steps, four with a line to count, and is free again. */
  lemma CallFinishes(s: State, i: nat, e: Entry)
    requires i < |s.producers| && s.producers[i] == Waiting(e) && s.owner == Nobody
    ensures var count := if e.general then 1 else 0;
            Run(s, seq(3 + count, _ => Produce(i))) ==
            s.(logs := s.logs + [e], pushed := s.pushed + [e], pushCount := s.pushCount + count,
            producers := s.producers[i := Outside])
  {
    var a := Produce(i);
    hide Run;
    var t := Step(Step(s, a), a);
    assert t.producers == s.producers[i := if e.general then Pushed(e) else Leaving];
    RunNothing(Step(t, a));
    RunNothing(Step(Step(t, a), a));
    if e.general {
      assert Step(t, a).producers == s.producers[i := Leaving];
      RunStep(Step(t, a), a, []);
      assert seq(4, _ => a) == [a] + ([a] + ([a] + ([a] + [])));
      RunStep(t, a, [a] + []);
      RunStep(Step(s, a), a, [a] + ([a] + []));
      RunStep(s, a, [a] + ([a] + ([a] + [])));
    } else {
      assert seq(3, _ => a) == [a] + ([a] + ([a] + []));
      RunStep(t, a, []);
      RunStep(Step(s, a), a, [a] + []);
      RunStep(s, a, [a] + ([a] + []));
    }
  }

  /** From stop on, no call is accepted any more. */
  lemma {:induction false} NoneAfterStop(s: State, actions: seq<Action>, e: Entry)
    requires !s.running
    ensures !Run(s, actions).running && CallsWith(s, actions, e) == 0
    decreases |actions|
  {
    if actions != [] {
      NoneAfterStop(Step(s, actions[0]), actions[1..], e);
    }
  }

  lemma StopEndsCalls(s: State, actions: seq<Action>, e: Entry)
    ensures !Run(Step(s, Stop), actions).running && CallsWith(Step(s, Stop), actions, e) == 0
  {
    NoneAfterStop(Step(s, Stop), actions, e);
  }

  // ---------------------------------------------------------------- while the logger runs

  /** The logger is running and no logging thread is at work. */
  predicate Idle(s: State) {
    Inv(s) && s.running && forall i :: 0 <= i < |s.producers| ==> s.producers[i].Outside?
  }

  /** With something queued, a step of the writer takes an entry or brings the next one nearer. */
  lemma IdleStep(s: State)
    requires Idle(s) && Queue(s) != []
    ensures var t := Step(s, Consume);
            Idle(t) && t.pushed == s.pushed &&
            (|Queue(t)| < |Queue(s)| || (|Queue(t)| == |Queue(s)| && Rank(t) < Rank(s)))
  {
    hide General, CountInvariant, OrderInvariant, IdInvariant;
    StepKeeps(s, Consume);
    assert !s.owner.Logging?;
    hide LockInvariant;
  }

  /** The writer does not wait for the end: wherever it is, by itself it pops all that is queued, in order, and goes on. */
  lemma {:induction false} WriterDrains(s: State) returns (steps: seq<Action>)
    requires Idle(s)
    ensures forall i :: 0 <= i < |steps| ==> steps[i] == Consume
    ensures var t := Run(s, steps); Idle(t) && t.popped == s.pushed
    decreases |Queue(s)|, Rank(s)
  {
    hide General, Rank, LockInvariant, CountInvariant, IdInvariant, Run;
    if Queue(s) == [] {
      steps := [];
      RunNothing(s);
    } else {
      IdleStep(s);
      var rest := WriterDrains(Step(s, Consume));
      steps := [Consume] + rest;
      RunStep(s, Consume, rest);
    }
  }

  /** Loggers are numbered one after the other, from the main logger 0 up to 19. */
  lemma {:induction false} LoggersAreNumbered(n: nat)
    ensures Run(Start(0), seq(n, i => CreateLogger)) == Start(0).(lastId := if n < 20 then n else 19)
  {
    if n > 0 {
      LoggersAreNumbered(n - 1);
      CreateOneMore(Start(0), n - 1);
    }
  }

  lemma {:induction false} CreateOneMore(s: State, n: nat)
    ensures Run(s, seq(n + 1, i => CreateLogger)) == Step(Run(s, seq(n, i => CreateLogger)), CreateLogger)
    decreases n
  {
    var more, fewer := seq(n + 1, i => CreateLogger), seq(n, i => CreateLogger);
    assert more[0] == CreateLogger && more[1..] == fewer;
    if n == 0 {
      assert Run(s, more) == Run(Step(s, CreateLogger), []);
    } else {
      assert fewer[0] == CreateLogger && fewer[1..] == seq(n - 1, i => CreateLogger);
      hide Step;
      CreateOneMore(Step(s, CreateLogger), n - 1);
      assert seq(n - 1 + 1, i => CreateLogger) == fewer;
    }
  }
}

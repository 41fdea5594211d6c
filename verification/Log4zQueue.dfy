/**
 * The hand-over of log entries from the logging threads to the writer thread, as steps.
 * Each step is one read, one write or one lock operation; threads interleave freely.
 */
module Log4zQueue {
  /** A queued entry: a log line, or a change of a logger's settings. */
  datatype Entry = Entry(id: int, general: bool, text: string)

  datatype Owner = Nobody | Logging(i: nat) | Writing

  /** Where a logging thread is in pushLog or hotChange. */
  datatype Producer = Outside | Waiting(e: Entry) | Holding(e: Entry) | Pushed(e: Entry) | Leaving

  /** Where the writer thread is in run and popLog. */
  datatype Consumer =
    | CheckCache                // popLog entered
    | Peek                      // the cache was empty; about to look at the queue without the lock
    | WaitLock                  // the queue was not empty
    | Locked                    // lock held, about to look again
    | GivingUp                  // the queue was empty after all
    | Swapped                   // queue and cache exchanged, lock still held
    | LastCheck                 // about to take from the cache
    | Handling(e: Entry)        // popLog returned an entry
    | Drained                   // popLog returned nothing
    | QuitTest                  // seen that the logger is stopping
    | Gone

  /** pushed and popped are the history: every entry queued, and every entry popped, so far. */
  datatype State = State(
    running: bool, lastId: nat, owner: Owner, producers: seq<Producer>, consumer: Consumer,
    logs: seq<Entry>, cache: seq<Entry>, pushCount: nat, popCount: nat,
    pushed: seq<Entry>, popped: seq<Entry>)

  datatype Action = Begin(i: nat, e: Entry) | Produce(i: nat) | Consume | Stop | CreateLogger

  const LOGGER_MAX := 20

  function Start(threads: nat): State {
    State(true, 0, Nobody, seq(threads, i => Outside), CheckCache, [], [], 0, 0, [], [])
  }

  /** A thread calls pushLog or hotChange and passes the checks at the top; otherwise nothing is queued. */
  function BeginStep(s: State, i: nat, e: Entry): State {
    if i < |s.producers| && s.producers[i].Outside? && s.running && 0 <= e.id <= s.lastId
    then s.(producers := s.producers[i := Waiting(e)])
    else s
  }

  function ProduceStep(s: State, i: nat): State
    requires i < |s.producers|
  {
    match s.producers[i]
    case Outside => s
    case Waiting(e) =>
      if s.owner == Nobody then s.(owner := Logging(i), producers := s.producers[i := Holding(e)]) else s
    case Holding(e) =>
      s.(logs := s.logs + [e], pushed := s.pushed + [e],
      producers := s.producers[i := if e.general then Pushed(e) else Leaving])
    case Pushed(e) => s.(pushCount := s.pushCount + 1, producers := s.producers[i := Leaving])
    case Leaving => s.(owner := Nobody, producers := s.producers[i := Outside])
  }

  function ConsumeStep(s: State): State {
    match s.consumer
    case CheckCache => s.(consumer := if s.cache == [] then Peek else LastCheck)
    case Peek => s.(consumer := if s.logs == [] then LastCheck else WaitLock)
    case WaitLock => if s.owner == Nobody then s.(owner := Writing, consumer := Locked) else s
    case Locked =>
      if s.logs == [] then s.(consumer := GivingUp) else s.(consumer := Swapped, cache := s.logs, logs := s.cache)
    case GivingUp => s.(owner := Nobody, consumer := Drained)
    case Swapped => s.(owner := Nobody, consumer := LastCheck)
    case LastCheck =>
      if s.cache == [] then s.(consumer := Drained)
      else s.(consumer := Handling(s.cache[0]), cache := s.cache[1..], popped := s.popped + [s.cache[0]])
    case Handling(e) =>
      s.(consumer := CheckCache, popCount := if 0 <= e.id <= s.lastId && e.general then s.popCount + 1 else s.popCount)
    case Drained => s.(consumer := if s.running then CheckCache else QuitTest)
    case QuitTest => s.(consumer := if s.logs == [] then Gone else CheckCache)
    case Gone => s
  }

  /** A thread whose next step is not possible stays where it is. */
  function Step(s: State, a: Action): State {
    match a
    case Begin(i, e) => BeginStep(s, i, e)
    case Produce(i) => if i < |s.producers| then ProduceStep(s, i) else s
    case Consume => ConsumeStep(s)
    case Stop => s.(running := false)
    case CreateLogger => if s.lastId + 1 < LOGGER_MAX then s.(lastId := s.lastId + 1) else s
  }

  function Run(s: State, actions: seq<Action>): State
    decreases |actions|
  {
    if actions == [] then s else Run(Step(s, actions[0]), actions[1..])
  }

  // ---------------------------------------------------------------- the invariant

  /** The abstract queue: the writer's cache, then the shared queue. */
  function Queue(s: State): seq<Entry> { s.cache + s.logs }

  function General(q: seq<Entry>): nat {
    if q == [] then 0 else (if q[0].general then 1 else 0) + General(q[1..])
  }

  predicate Inside(p: Producer) { p.Holding? || p.Pushed? || p.Leaving? }

  predicate HoldsLock(c: Consumer) { c.Locked? || c.GivingUp? || c.Swapped? }

  /** The lock is held by exactly the thread that is between taking and releasing it. */
  predicate LockInvariant(s: State) {
    && (forall i :: 0 <= i < |s.producers| ==> (Inside(s.producers[i]) <==> s.owner == Logging(i)))
    && (HoldsLock(s.consumer) <==> s.owner == Writing)
    && (s.owner.Logging? ==> s.owner.i < |s.producers|)
  }

  /** Nothing is lost, duplicated or reordered. */
  predicate OrderInvariant(s: State) { s.popped + Queue(s) == s.pushed }

  /** What the unlocked looks at the queue have established. */
  predicate ViewInvariant(s: State) {
    match s.consumer
    case Peek => s.cache == []
    case WaitLock => s.cache == [] && s.logs != []
    case Locked => s.cache == [] && s.logs != []
    case GivingUp => false
    case Swapped => s.cache != []
    case Handling(e) => s.popped != [] && e == s.popped[|s.popped| - 1]
    case Drained => s.cache == []
    case QuitTest => s.cache == [] && !s.running
    case Gone => s.cache == [] && !s.running
    case _ => true
  }

  predicate ValidId(s: State, e: Entry) { 0 <= e.id <= s.lastId }

  predicate IdInvariant(s: State) {
    && (forall e :: e in s.pushed ==> ValidId(s, e))
    && (forall i :: 0 <= i < |s.producers| && (s.producers[i].Waiting? || s.producers[i].Holding?) ==> ValidId(s, s.producers[i].e))
  }

  /** 1 while a line is in the queue but its thread has not counted it yet. */
  function Uncounted(s: State): nat {
    if s.owner.Logging? && s.owner.i < |s.producers| && s.producers[s.owner.i].Pushed? then 1 else 0
  }

  /** 1 while the writer has a line in hand that it has not counted yet. */
  function InHand(s: State): nat {
    if s.consumer.Handling? && s.consumer.e.general then 1 else 0
  }

  predicate CountInvariant(s: State) {
    s.pushCount + Uncounted(s) == General(s.pushed) && s.popCount + InHand(s) == General(s.popped)
  }

  predicate Inv(s: State) {
    LockInvariant(s) && OrderInvariant(s) && ViewInvariant(s) && IdInvariant(s) && CountInvariant(s)
  }

  lemma StartInvariant(threads: nat)
    ensures Inv(Start(threads))
  {
  }

  lemma {:induction false} GeneralAppend(p: seq<Entry>, q: seq<Entry>)
    ensures General(p + q) == General(p) + General(q)
  {
    if p == [] {
      assert p + q == q;
    } else {
      GeneralAppend(p[1..], q);
      assert (p + q)[1..] == p[1..] + q;
    }
  }

  lemma BeginKeeps(s: State, i: nat, e: Entry)
    requires Inv(s)
    ensures Inv(BeginStep(s, i, e))
  {
    hide General;
  }

  lemma OneMore(q: seq<Entry>, e: Entry)
    ensures General(q + [e]) == General(q) + if e.general then 1 else 0
  {
    GeneralAppend(q, [e]);
    assert General([e]) == if e.general then 1 else 0;
  }

  lemma EnterKeeps(s: State, i: nat)
    requires Inv(s) && i < |s.producers| && s.producers[i].Holding?
    ensures Inv(ProduceStep(s, i))
  {
    EnterKeepsOrder(s, i);
    EnterKeepsCount(s, i);
    EnterKeepsIds(s, i);
    hide General, OrderInvariant, ViewInvariant, CountInvariant, IdInvariant;
  }

  lemma EnterKeepsOrder(s: State, i: nat)
    requires OrderInvariant(s) && ViewInvariant(s) && i < |s.producers| && s.producers[i].Holding?
    ensures OrderInvariant(ProduceStep(s, i)) && ViewInvariant(ProduceStep(s, i))
  {
    var e := s.producers[i].e;
    assert s.popped + (s.cache + (s.logs + [e])) == s.popped + Queue(s) + [e];
  }

  lemma EnterKeepsCount(s: State, i: nat)
    requires LockInvariant(s) && CountInvariant(s) && i < |s.producers| && s.producers[i].Holding?
    ensures CountInvariant(ProduceStep(s, i))
  {
    OneMore(s.pushed, s.producers[i].e);
    hide General;
  }

  lemma EnterKeepsIds(s: State, i: nat)
    requires IdInvariant(s) && i < |s.producers| && s.producers[i].Holding?
    ensures IdInvariant(ProduceStep(s, i))
  {
    assert ValidId(s, s.producers[i].e);
  }

  lemma ProduceKeeps(s: State, i: nat)
    requires Inv(s) && i < |s.producers|
    ensures Inv(ProduceStep(s, i))
  {
    hide General;
    if s.producers[i].Holding? {
      EnterKeeps(s, i);
    }
  }

  lemma TakenWasQueued(s: State)
    requires Inv(s) && s.consumer.Handling?
    ensures s.consumer.e in s.pushed && ValidId(s, s.consumer.e)
  {
    hide General;
    assert s.pushed[|s.popped| - 1] == s.consumer.e;
  }

  lemma TakeKeeps(s: State)
    requires Inv(s) && s.consumer.LastCheck? && s.cache != []
    ensures Inv(ConsumeStep(s))
  {
    var e, t := s.cache[0], ConsumeStep(s);
    OneMore(s.popped, e);
    hide General;
    assert LockInvariant(t) && IdInvariant(t);
    hide LockInvariant, IdInvariant;
    assert s.cache == [e] + s.cache[1..];
    assert s.popped + [e] + (s.cache[1..] + s.logs) == s.popped + Queue(s);
  }

  lemma SwapKeeps(s: State)
    requires Inv(s) && s.consumer.Locked?
    ensures Inv(ConsumeStep(s))
  {
    hide General;
    var t := ConsumeStep(s);
    assert LockInvariant(t) && IdInvariant(t);
    hide LockInvariant, IdInvariant;
    assert s.cache + s.logs == s.logs == s.logs + s.cache;
  }

  lemma HandleKeeps(s: State)
    requires Inv(s) && s.consumer.Handling?
    ensures Inv(ConsumeStep(s))
  {
    TakenWasQueued(s);
    hide General;
    assert IdInvariant(ConsumeStep(s));
    hide IdInvariant, OrderInvariant;
  }

  lemma ConsumeKeeps(s: State)
    requires Inv(s)
    ensures Inv(ConsumeStep(s))
  {
    hide General;
    if s.consumer.LastCheck? && s.cache != [] {
      TakeKeeps(s);
    } else if s.consumer.Locked? {
      SwapKeeps(s);
    } else if s.consumer.Handling? {
      HandleKeeps(s);
    } else {
      hide OrderInvariant;
      var t := ConsumeStep(s);
      SameEntries(s, t);
    }
  }

  /** A step that touches neither entries, ids, counts nor logging threads leaves this much of the invariant. */
  lemma SameEntries(s: State, t: State)
    requires Inv(s) && t.(running := s.running, owner := s.owner, consumer := s.consumer) == s
    ensures OrderInvariant(t) && IdInvariant(t) && t.popCount == s.popCount && t.pushed == s.pushed
  {
    hide General;
  }

  /** Every step of every thread keeps the invariant. */
  lemma StepKeeps(s: State, a: Action)
    requires Inv(s)
    ensures Inv(Step(s, a))
  {
    match a
    case Begin(i, e) => BeginKeeps(s, i, e);
    case Produce(i) => if i < |s.producers| { ProduceKeeps(s, i); }
    case Consume => ConsumeKeeps(s);
    case Stop => hide General;
    case CreateLogger => hide General;
  }

  lemma {:induction false} RunKeeps(s: State, actions: seq<Action>)
    requires Inv(s)
    ensures Inv(Run(s, actions))
    decreases |actions|
  {
    hide Inv, Step;
    if actions != [] {
      StepKeeps(s, actions[0]);
      RunKeeps(Step(s, actions[0]), actions[1..]);
    }
  }

  // ---------------------------------------------------------------- safety over every run

  /** Over any run: entries are popped in the order they were queued, and none is lost or duplicated. */
  lemma FirstInFirstOut(threads: nat, actions: seq<Action>)
    ensures var s := Run(Start(threads), actions);
            s.popped <= s.pushed && s.pushed[|s.popped|..] == Queue(s)
  {
    StartInvariant(threads);
    RunKeeps(Start(threads), actions);
    hide Run;
  }

  /** Over any run: lines counted in equal lines counted out plus lines queued, give or take what is in hand. */
  lemma CountersBalance(threads: nat, actions: seq<Action>)
    ensures var s := Run(Start(threads), actions);
            s.pushCount + Uncounted(s) == s.popCount + InHand(s) + General(Queue(s))
  {
    StartInvariant(threads);
    RunKeeps(Start(threads), actions);
    hide Run, General;
    var s := Run(Start(threads), actions);
    GeneralAppend(s.popped, Queue(s));
  }

  /** Over any run: the second look at the queue, under the lock, never finds it empty; no popped entry has a bad id. */
  lemma GuardsNeverFire(threads: nat, actions: seq<Action>)
    ensures var s := Run(Start(threads), actions);
            !s.consumer.GivingUp? && (s.consumer.Locked? ==> s.logs != []) &&
            (s.consumer.Handling? ==> 0 <= s.consumer.e.id <= s.lastId)
  {
    StartInvariant(threads);
    RunKeeps(Start(threads), actions);
    hide Run, General;
    var s := Run(Start(threads), actions);
    if s.consumer.Handling? {
      TakenWasQueued(s);
    }
  }

  // ---------------------------------------------------------------- refinement of a queue

  /** Each step either adds one entry at the back, removes one from the front, or leaves the queue alone. */
  lemma StepIsQueueStep(s: State, a: Action)
    requires Inv(s)
    ensures var t := Step(s, a);
            || Unchanged(s, t)
            || (exists e :: Queue(t) == Queue(s) + [e] && t.pushed == s.pushed + [e] && t.popped == s.popped)
            || (exists e :: Queue(s) == [e] + Queue(t) && t.popped == s.popped + [e] && t.pushed == s.pushed)
  {
    hide General, LockInvariant, CountInvariant, IdInvariant, OrderInvariant;
    var t := Step(s, a);
    if a.Produce? && a.i < |s.producers| && s.producers[a.i].Holding? {
      var e := s.producers[a.i].e;
      assert Queue(t) == Queue(s) + [e] && t.pushed == s.pushed + [e];
    } else if a.Consume? && s.consumer.LastCheck? && s.cache != [] {
      assert s.cache == [s.cache[0]] + s.cache[1..];
      assert Queue(s) == [s.cache[0]] + Queue(t) && t.popped == s.popped + [s.cache[0]];
    } else if a.Consume? && s.consumer.Locked? {
      assert s.cache == [] && Queue(t) == Queue(s);
    } else {
      hide ViewInvariant;
      assert Unchanged(s, t);
    }
  }

  predicate Unchanged(s: State, t: State) { Queue(t) == Queue(s) && t.pushed == s.pushed && t.popped == s.popped }

  // ---------------------------------------------------------------- stopping

  /** When the exit test passes, both queues are empty: everything queued so far has been popped. */
  lemma ExitFindsNothing(s: State)
    requires Inv(s) && !s.consumer.Gone? && Step(s, Consume).consumer.Gone?
    ensures s.cache == [] && s.logs == [] && s.popped == s.pushed
  {
    hide General;
  }

  /** A thread that has passed the check for running and has not yet queued its entry. */
  predicate Late(p: Producer) { p.Waiting? || p.Holding? }

  predicate NoneLate(s: State) { forall i :: 0 <= i < |s.producers| ==> !Late(s.producers[i]) }

  /** The logger has stopped, its writer has left, and nothing is queued. */
  predicate Stopped(s: State) { Inv(s) && s.consumer.Gone? && Queue(s) == [] }

  lemma StoppedStep(s: State, a: Action)
    requires Stopped(s) && NoneLate(s)
    ensures Stopped(Step(s, a)) && NoneLate(Step(s, a))
  {
    StepKeeps(s, a);
    hide General;
  }

  lemma {:induction false} StoppedRun(s: State, actions: seq<Action>)
    requires Stopped(s) && NoneLate(s)
    ensures Queue(Run(s, actions)) == []
    decreases |actions|
  {
    hide Step, NoneLate, Inv;
    if actions != [] {
      StoppedStep(s, actions[0]);
      StoppedRun(Step(s, actions[0]), actions[1..]);
    }
  }

  lemma RunStep(s: State, a: Action, actions: seq<Action>)
    ensures Run(s, [a] + actions) == Run(Step(s, a), actions)
  {
    assert ([a] + actions)[1..] == actions;
    hide Step;
  }

  /** A late thread gets the lock, possibly after the holder has left, and then queues its entry. */
  lemma LateThreadQueues(s: State, i: nat) returns (actions: seq<Action>)
    requires Stopped(s) && i < |s.producers| && Late(s.producers[i])
    ensures Queue(Run(s, actions)) != []
    decreases if s.producers[i].Holding? then 0 else 1, if s.owner.Nobody? then 0 else if Inside(s.producers[s.owner.i]) then Distance(s.producers[s.owner.i]) else 0
  {
    hide General, Run;
    if s.producers[i].Holding? {
      var t := Step(s, Produce(i));
      assert s.logs == [] && t.logs == [s.producers[i].e];
      RunNothing(t);
      assert Queue(t) != [];
      RunStep(s, Produce(i), []);
      assert [Produce(i)] + [] == [Produce(i)];
      return [Produce(i)];
    }
    var j := if s.owner.Nobody? then i else s.owner.i;
    var t := Step(s, Produce(j));
    StepKeeps(s, Produce(j));
    if t.logs != [] {
      RunNothing(t);
      RunStep(s, Produce(j), []);
      assert [Produce(j)] + [] == [Produce(j)];
      return [Produce(j)];
    }
    assert Queue(t) == [];
    var rest := LateThreadQueues(t, i);
    RunStep(s, Produce(j), rest);
    actions := [Produce(j)] + rest;
  }

  function Distance(p: Producer): nat {
    match p
    case Holding(_) => 3
    case Pushed(_) => 2
    case Leaving => 1
    case _ => 0
  }

  lemma RunNothing(s: State)
    ensures Run(s, []) == s
  {
  }

  /**
   * After the writer has left, the queue stays empty in every continuation exactly when no thread was caught
   * between its check for running and its push; otherwise some continuation strands an entry in the queue.
   */
  lemma NothingIsStranded(s: State)
    requires Stopped(s)
    ensures NoneLate(s) <==> forall actions :: Queue(Run(s, actions)) == []
  {
    if NoneLate(s) {
      forall actions ensures Queue(Run(s, actions)) == [] {
        StoppedRun(s, actions);
      }
    } else {
      var i :| 0 <= i < |s.producers| && Late(s.producers[i]);
      var actions := LateThreadQueues(s, i);
      assert Queue(Run(s, actions)) != [];
    }
  }

  lemma Before(s: State, a: Action, b: Action, rest: seq<Action>) returns (actions: seq<Action>)
    ensures Run(s, actions) == Run(Step(Step(s, a), b), rest)
  {
    RunStep(Step(s, a), b, rest);
    RunStep(s, a, [b] + rest);
    actions := [a] + ([b] + rest);
  }

  /** With nothing queued, a stopping writer leaves in five steps, whoever is late. */
  lemma WriterLeaves(s: State)
    requires s.consumer == CheckCache && Queue(s) == [] && !s.running
    ensures Step(Step(Step(Step(Step(s, Consume), Consume), Consume), Consume), Consume) == s.(consumer := Gone)
  {
    assert s.cache == [] && s.logs == [];
    assert Step(Step(Step(s, Consume), Consume), Consume) == s.(consumer := Drained);
  }

  /** Such a state is reachable: a thread passes the check, the logger stops, and the writer leaves. */
  lemma LateThreadsHappen(e: Entry) returns (actions: seq<Action>)
    requires e.id == 0
    ensures Stopped(Run(Start(1), actions)) && !NoneLate(Run(Start(1), actions))
  {
    var s := Start(1).(producers := [Waiting(e)], running := false);
    assert Step(Step(Start(1), Begin(0, e)), Stop) == s;
    WriterLeaves(s);
    var u := s.(consumer := Gone);
    assert Queue(u) == [] && Late(u.producers[0]);
    StartInvariant(1);
    hide Step, Inv, Run, Start;
    RunNothing(u);
    var s3 := Step(Step(Step(s, Consume), Consume), Consume);
    actions := Before(s3, Consume, Consume, []);
    actions := Before(Step(s, Consume), Consume, Consume, actions);
    RunStep(s, Consume, actions);
    actions := Before(Start(1), Begin(0, e), Stop, [Consume] + actions);
    RunKeeps(Start(1), actions);
  }

  // ---------------------------------------------------------------- the writer finishes

  /** No logging thread is at work, the logger is stopping, and the writer did not leave an entry behind. */
  predicate Quiet(s: State) {
    Inv(s) && !s.running && (s.consumer.Gone? ==> Queue(s) == []) && forall i :: 0 <= i < |s.producers| ==> s.producers[i].Outside?
  }

  /** How far the writer is from its next pop or from leaving. */
  function Rank(s: State): nat {
    match s.consumer
    case Handling(_) => 12
    case Drained => 11
    case QuitTest => 10
    case CheckCache => 9
    case Peek => 8
    case WaitLock => 7
    case Locked => 6
    case Swapped => 5
    case LastCheck => if s.cache != [] then 4 else if s.logs != [] then 13 else 7
    case _ => 0
  }

  /** The same, when the queue is empty: the writer goes round at most once more. */
  function LastRank(s: State): nat {
    match s.consumer
    case Handling(_) => 6
    case CheckCache => 5
    case Peek => 4
    case LastCheck => 3
    case Drained => 2
    case QuitTest => 1
    case _ => 0
  }

  /** A step of the writer keeps the others quiet and either shortens the queue or brings the next pop nearer. */
  lemma QuietStep(s: State)
    requires Quiet(s) && !s.consumer.Gone?
    ensures var t := Step(s, Consume);
            Quiet(t) && t.pushed == s.pushed &&
            (|Queue(t)| < |Queue(s)| ||
             (|Queue(t)| == |Queue(s)| && (if Queue(s) == [] then LastRank(t) < LastRank(s) else Rank(t) < Rank(s))))
  {
    hide General, CountInvariant, OrderInvariant, IdInvariant;
    StepKeeps(s, Consume);
    assert !s.owner.Logging?;
    hide LockInvariant;
  }

  /** Once logging has stopped, the writer by itself pops everything that was queued, in order, and leaves. */
  lemma {:induction false} WriterFinishes(s: State) returns (steps: seq<Action>)
    requires Quiet(s)
    ensures (forall i :: 0 <= i < |steps| ==> steps[i] == Consume)
    ensures var t := Run(s, steps); t.consumer.Gone? && t.popped == s.pushed
    decreases |Queue(s)|, if Queue(s) == [] then LastRank(s) else Rank(s)
  {
    hide General, Rank, LastRank, LockInvariant, CountInvariant, IdInvariant, Run;
    if s.consumer.Gone? {
      steps := [];
      RunNothing(s);
    } else {
      QuietStep(s);
      var rest := WriterFinishes(Step(s, Consume));
      steps := [Consume] + rest;
      RunStep(s, Consume, rest);
    }
  }
}

/** BaseFrameAllocator: reference-counted decoder frames, shared by crop size, and privately owned frames. */
module FrameAllocator {
  import opened Options

  datatype Status = Ok | MemoryAlloc | Unsupported | InvalidHandle | Failed(code: int)

  /** A response is known by its first handle (0: no handles) and its number of frames. */
  datatype Response = Response(mid: nat, frames: nat)

  datatype Request = Request(
    external: bool, fromEncode: bool, fromDecode: bool, fromVppIn: bool, fromVppOut: bool,
    cropW: nat, cropH: nat, frameMin: nat, frameSuggested: nat)

  /** A listed decoder response, with the size it was allocated for. */
  datatype Block = Block(response: Response, cropW: nat, cropH: nat, refCount: int)

  /** What the derived class's AllocImpl returns: a status, and a response that is used when it succeeds. */
  datatype Impl = Impl(status: Status, response: Response)

  datatype Lists = Lists(ext: seq<Block>, internal: seq<Response>)

  /** What happened: a block made or destroyed by the derived class, a response given out or handed back. */
  datatype Event = Created(r: Response) | Granted(r: Response) | Freed(r: Response) | Released(r: Response)

  predicate FromMask(q: Request) { q.fromEncode || q.fromDecode || q.fromVppIn || q.fromVppOut }

  /** IsSame: two responses with handles, the same first handle and the same number of frames. */
  predicate IsSame(l: Response, r: Response) { l.mid != 0 && r.mid != 0 && l.mid == r.mid && l.frames == r.frames }

  /** The first block of a crop size, or the number of blocks. */
  function FindCrop(ext: seq<Block>, w: nat, h: nat): (i: nat)
    ensures i <= |ext| && (i < |ext| ==> ext[i].cropW == w && ext[i].cropH == h)
    ensures forall j :: 0 <= j < i ==> !(ext[j].cropW == w && ext[j].cropH == h)
  {
    if ext == [] || (ext[0].cropW == w && ext[0].cropH == h) then 0 else 1 + FindCrop(ext[1..], w, h)
  }

  function FindBlock(ext: seq<Block>, r: Response): (i: nat)
    ensures i <= |ext| && (i < |ext| ==> IsSame(r, ext[i].response))
    ensures forall j :: 0 <= j < i ==> !IsSame(r, ext[j].response)
  {
    if ext == [] || IsSame(r, ext[0].response) then 0 else 1 + FindBlock(ext[1..], r)
  }

  function FindInternal(internal: seq<Response>, r: Response): (i: nat)
    ensures i <= |internal| && (i < |internal| ==> IsSame(r, internal[i]))
    ensures forall j :: 0 <= j < i ==> !IsSame(r, internal[j])
  {
    if internal == [] || IsSame(r, internal[0]) then 0 else 1 + FindInternal(internal[1..], r)
  }

  datatype Outcome = Outcome(lists: Lists, status: Status, response: Option<Response>, events: seq<Event>)

  function Without<T>(s: seq<T>, i: nat): seq<T>
    requires i < |s|
  {
    s[..i] + s[i + 1..]
  }

  /** Whether a request reaches AllocImpl. */
  predicate CallsImpl(s: Lists, q: Request) {
    q.frameSuggested != 0 && FromMask(q) && (q.external && q.fromDecode ==> FindCrop(s.ext, q.cropW, q.cropH) == |s.ext|)
  }

  function AllocOutcome(s: Lists, q: Request, impl: Impl): Outcome {
    if q.frameSuggested == 0 then Outcome(s, MemoryAlloc, None, [])
    else if !FromMask(q) then Outcome(s, Unsupported, None, [])
    else if q.external && q.fromDecode then
      var i := FindCrop(s.ext, q.cropW, q.cropH);
      if i < |s.ext| then
        if q.frameMin > s.ext[i].response.frames then Outcome(s, MemoryAlloc, None, [])
        else
          var b := s.ext[i];
          Outcome(s.(ext := s.ext[i := b.(refCount := b.refCount + 1)]), Ok, Some(b.response), [Granted(b.response)])
      else if impl.status == Ok then
        var r := impl.response;
        Outcome(s.(ext := s.ext + [Block(r, q.cropW, q.cropH, 1)]), Ok, Some(r), [Created(r), Granted(r)])
      else Outcome(s, impl.status, None, [])
    else if impl.status == Ok then
      var r := impl.response;
      Outcome(s.(internal := s.internal + [r]), Ok, Some(r), [Created(r), Granted(r)])
    else Outcome(s, impl.status, None, [])
  }

  /** The status of the derived class's ReleaseResponse is passed on; the lists change whatever it is. */
  function FreeOutcome(s: Lists, r: Response, release: Status): Outcome {
    var i := FindBlock(s.ext, r);
    if i < |s.ext| then
      var b := s.ext[i];
      if b.refCount - 1 == 0 then Outcome(s.(ext := Without(s.ext, i)), release, None, [Freed(r), Released(r)])
      else Outcome(s.(ext := s.ext[i := b.(refCount := b.refCount - 1)]), Ok, None, [Freed(r)])
    else
      var k := FindInternal(s.internal, r);
      if k < |s.internal| then Outcome(s.(internal := Without(s.internal, k)), release, None, [Freed(r), Released(r)])
      else Outcome(s, InvalidHandle, None, [])
  }

  datatype Op = Alloc(q: Request, impl: Impl) | Free(r: Response, release: Status)

  function Perform(s: Lists, op: Op): Outcome {
    match op
    case Alloc(q, impl) => AllocOutcome(s, q, impl)
    case Free(r, release) => FreeOutcome(s, r, release)
  }

  // ---------------------------------------------------------------- the ledger

  /** Times a response was given out less times it was handed back. */
  function Outstanding(log: seq<Event>, r: Response): int {
    if log == [] then 0
    else (if log[0] == Granted(r) then 1 else if log[0] == Freed(r) then -1 else 0) + Outstanding(log[1..], r)
  }

  /** Times a block was made less times it was released. */
  function Alive(log: seq<Event>, r: Response): int {
    if log == [] then 0
    else (if log[0] == Created(r) then 1 else if log[0] == Released(r) then -1 else 0) + Alive(log[1..], r)
  }

  lemma {:induction false} LedgerAppend(log: seq<Event>, more: seq<Event>, r: Response)
    ensures Outstanding(log + more, r) == Outstanding(log, r) + Outstanding(more, r)
    ensures Alive(log + more, r) == Alive(log, r) + Alive(more, r)
  {
    if log == [] {
      assert log + more == more;
    } else {
      LedgerAppend(log[1..], more, r);
      assert (log + more)[1..] == log[1..] + more;
    }
  }

  function Holders(ext: seq<Block>, r: Response): int {
    if ext == [] then 0 else (if ext[0].response == r then ext[0].refCount else 0) + Holders(ext[1..], r)
  }

  function Listings(ext: seq<Block>, r: Response): nat {
    if ext == [] then 0 else (if ext[0].response == r then 1 else 0) + Listings(ext[1..], r)
  }

  function Owned(internal: seq<Response>, r: Response): nat { multiset(internal)[r] }

  lemma {:induction false} AppendBlock(ext: seq<Block>, b: Block, r: Response)
    ensures Holders(ext + [b], r) == Holders(ext, r) + if b.response == r then b.refCount else 0
    ensures Listings(ext + [b], r) == Listings(ext, r) + if b.response == r then 1 else 0
  {
    if ext != [] {
      AppendBlock(ext[1..], b, r);
      assert (ext + [b])[1..] == ext[1..] + [b];
    } else {
      assert ext + [b] == [b];
    }
  }

  lemma {:induction false} ChangeBlock(ext: seq<Block>, i: nat, b: Block, r: Response)
    requires i < |ext| && b.response == ext[i].response
    ensures Holders(ext[i := b], r) == Holders(ext, r) + if b.response == r then b.refCount - ext[i].refCount else 0
    ensures Listings(ext[i := b], r) == Listings(ext, r)
  {
    if i == 0 {
      assert ext[0 := b][1..] == ext[1..];
    } else {
      ChangeBlock(ext[1..], i - 1, b, r);
      assert ext[i := b][1..] == ext[1..][i - 1 := b];
    }
  }

  lemma {:induction false} DropBlock(ext: seq<Block>, i: nat, r: Response)
    requires i < |ext|
    ensures Holders(Without(ext, i), r) == Holders(ext, r) - if ext[i].response == r then ext[i].refCount else 0
    ensures Listings(Without(ext, i), r) == Listings(ext, r) - if ext[i].response == r then 1 else 0
  {
    if i == 0 {
      assert Without(ext, 0) == ext[1..];
    } else {
      DropBlock(ext[1..], i - 1, r);
      assert Without(ext, i)[1..] == Without(ext[1..], i - 1);
    }
  }

  /** The lists account for the history: who holds what, and what exists. */
  ghost predicate Balanced(s: Lists, log: seq<Event>) {
    forall r :: BalancedFor(s, log, r)
  }

  predicate BalancedFor(s: Lists, log: seq<Event>, r: Response) {
    Outstanding(log, r) == Holders(s.ext, r) + Owned(s.internal, r) && Alive(log, r) == Listings(s.ext, r) + Owned(s.internal, r)
  }

  /** Counts are positive, crop sizes and responses are not listed twice, and every listed response has handles. */
  predicate Orderly(s: Lists) {
    && (forall i :: 0 <= i < |s.ext| ==> s.ext[i].refCount > 0 && s.ext[i].response.mid != 0)
    && (forall i, j :: 0 <= i < j < |s.ext| ==> !(s.ext[i].cropW == s.ext[j].cropW && s.ext[i].cropH == s.ext[j].cropH))
    && (forall i, j :: 0 <= i < j < |s.ext| ==> s.ext[i].response != s.ext[j].response)
    && (forall i :: 0 <= i < |s.internal| ==> s.internal[i].mid != 0)
    && (forall i, j :: 0 <= i < j < |s.internal| ==> s.internal[i] != s.internal[j])
    && (forall i, j :: 0 <= i < |s.ext| && 0 <= j < |s.internal| ==> s.ext[i].response != s.internal[j])
  }

  predicate Listed(s: Lists, r: Response) {
    (exists i :: 0 <= i < |s.ext| && s.ext[i].response == r) || r in s.internal
  }

  /** A new response has handles and is not one of those listed. */
  predicate FreshImpl(s: Lists, op: Op) {
    op.Alloc? && CallsImpl(s, op.q) && op.impl.status == Ok ==> op.impl.response.mid != 0 && !Listed(s, op.impl.response)
  }

  /** AllocImpl gives fresh responses throughout a run. */
  predicate FreshRun(s: Lists, ops: seq<Op>)
    decreases |ops|
  {
    ops == [] || (FreshImpl(s, ops[0]) && FreshRun(Perform(s, ops[0]).lists, ops[1..]))
  }

  function RunLists(s: Lists, ops: seq<Op>): Lists
    decreases |ops|
  {
    if ops == [] then s else RunLists(Perform(s, ops[0]).lists, ops[1..])
  }

  function RunLog(s: Lists, ops: seq<Op>): seq<Event>
    decreases |ops|
  {
    if ops == [] then [] else Perform(s, ops[0]).events + RunLog(Perform(s, ops[0]).lists, ops[1..])
  }

  // ---------------------------------------------------------------- every operation keeps the ledger

  lemma Once(e: Event, r: Response)
    ensures Outstanding([e], r) == if e == Granted(r) then 1 else if e == Freed(r) then -1 else 0
    ensures Alive([e], r) == if e == Created(r) then 1 else if e == Released(r) then -1 else 0
  {
    assert [e][1..] == [];
  }

  lemma Twice(d: Event, e: Event, r: Response)
    ensures Outstanding([d, e], r) == Outstanding([d], r) + Outstanding([e], r)
    ensures Alive([d, e], r) == Alive([d], r) + Alive([e], r)
  {
    LedgerAppend([d], [e], r);
    assert [d] + [e] == [d, e];
  }

  lemma SharedKeepsBalance(s: Lists, log: seq<Event>, i: nat)
    requires Balanced(s, log) && i < |s.ext|
    ensures var b := s.ext[i];
            Balanced(s.(ext := s.ext[i := b.(refCount := b.refCount + 1)]), log + [Granted(b.response)])
  {
    var b := s.ext[i];
    var b' := b.(refCount := b.refCount + 1);
    var t, more := s.(ext := s.ext[i := b.(refCount := b.refCount + 1)]), log + [Granted(b.response)];
    forall r ensures BalancedFor(t, more, r) {
      assert BalancedFor(s, log, r);
      LedgerAppend(log, [Granted(b.response)], r);
      Once(Granted(b.response), r);
      ChangeBlock(s.ext, i, b', r);
    }
    hide Outstanding, Alive, Holders, Listings;
  }

  lemma NewBlockKeepsBalance(s: Lists, log: seq<Event>, b: Block)
    requires Balanced(s, log) && b.refCount == 1
    ensures Balanced(s.(ext := s.ext + [b]), log + [Created(b.response), Granted(b.response)])
  {
    var t, more := s.(ext := s.ext + [b]), log + [Created(b.response), Granted(b.response)];
    forall r ensures BalancedFor(t, more, r) {
      assert BalancedFor(s, log, r);
      LedgerAppend(log, [Created(b.response), Granted(b.response)], r);
      Twice(Created(b.response), Granted(b.response), r);
      Once(Created(b.response), r);
      Once(Granted(b.response), r);
      AppendBlock(s.ext, b, r);
    }
    hide Outstanding, Alive, Holders, Listings;
  }

  lemma NewInternalKeepsBalance(s: Lists, log: seq<Event>, n: Response)
    requires Balanced(s, log)
    ensures Balanced(s.(internal := s.internal + [n]), log + [Created(n), Granted(n)])
  {
    var t, more := s.(internal := s.internal + [n]), log + [Created(n), Granted(n)];
    forall r ensures BalancedFor(t, more, r) {
      assert BalancedFor(s, log, r);
      LedgerAppend(log, [Created(n), Granted(n)], r);
      Twice(Created(n), Granted(n), r);
      Once(Created(n), r);
      Once(Granted(n), r);
    }
    hide Outstanding, Alive, Holders, Listings;
  }

  lemma HandBackKeepsBalance(s: Lists, log: seq<Event>, i: nat)
    requires Balanced(s, log) && i < |s.ext|
    ensures var b := s.ext[i];
            Balanced(s.(ext := s.ext[i := b.(refCount := b.refCount - 1)]), log + [Freed(b.response)])
  {
    var b := s.ext[i];
    var b' := b.(refCount := b.refCount - 1);
    var t, more := s.(ext := s.ext[i := b.(refCount := b.refCount - 1)]), log + [Freed(b.response)];
    forall r ensures BalancedFor(t, more, r) {
      assert BalancedFor(s, log, r);
      LedgerAppend(log, [Freed(b.response)], r);
      Once(Freed(b.response), r);
      ChangeBlock(s.ext, i, b', r);
    }
    hide Outstanding, Alive, Holders, Listings;
  }

  lemma DropBlockKeepsBalance(s: Lists, log: seq<Event>, i: nat)
    requires Balanced(s, log) && i < |s.ext| && s.ext[i].refCount == 1
    ensures var n := s.ext[i].response; Balanced(s.(ext := Without(s.ext, i)), log + [Freed(n), Released(n)])
  {
    var n := s.ext[i].response;
    var t, more := s.(ext := Without(s.ext, i)), log + [Freed(n), Released(n)];
    forall r ensures BalancedFor(t, more, r) {
      assert BalancedFor(s, log, r);
      LedgerAppend(log, [Freed(n), Released(n)], r);
      Twice(Freed(n), Released(n), r);
      Once(Freed(n), r);
      Once(Released(n), r);
      DropBlock(s.ext, i, r);
    }
    hide Outstanding, Alive, Holders, Listings, Without;
  }

  lemma DropInternalKeepsBalance(s: Lists, log: seq<Event>, k: nat)
    requires Balanced(s, log) && k < |s.internal|
    ensures var n := s.internal[k]; Balanced(s.(internal := Without(s.internal, k)), log + [Freed(n), Released(n)])
  {
    var n := s.internal[k];
    assert s.internal == s.internal[..k] + [n] + s.internal[k + 1..];
    var t, more := s.(internal := Without(s.internal, k)), log + [Freed(n), Released(n)];
    forall r ensures BalancedFor(t, more, r) {
      assert BalancedFor(s, log, r);
      LedgerAppend(log, [Freed(n), Released(n)], r);
      Twice(Freed(n), Released(n), r);
      Once(Freed(n), r);
      Once(Released(n), r);
    }
    hide Outstanding, Alive, Holders, Listings;
  }

  /** A block's place in the list before one element was taken out. */
  lemma WithoutAt<T>(s: seq<T>, i: nat, j: nat)
    requires i < |s| && j < |s| - 1
    ensures Without(s, i)[j] == s[if j < i then j else j + 1]
  {
  }

  lemma AllocKeeps(s: Lists, log: seq<Event>, q: Request, impl: Impl)
    requires Orderly(s) && Balanced(s, log) && FreshImpl(s, Alloc(q, impl))
    ensures var o := AllocOutcome(s, q, impl); Orderly(o.lists) && Balanced(o.lists, log + o.events)
  {
    assert log + [] == log;
    hide Balanced, Orderly, FindCrop, Listed;
    var i, n := FindCrop(s.ext, q.cropW, q.cropH), impl.response;
    if q.frameSuggested != 0 && FromMask(q) {
      if q.external && q.fromDecode {
        if i < |s.ext| {
          SharedKeepsBalance(s, log, i);
          OrderlyCount(s, i, s.ext[i].refCount + 1);
        } else if impl.status == Ok {
          NewBlockKeepsBalance(s, log, Block(n, q.cropW, q.cropH, 1));
          OrderlyWithBlock(s, Block(n, q.cropW, q.cropH, 1));
        }
      } else if impl.status == Ok {
        NewInternalKeepsBalance(s, log, n);
        OrderlyWithInternal(s, n);
      }
    }
  }

  lemma OrderlyCount(s: Lists, i: nat, n: nat)
    requires Orderly(s) && i < |s.ext| && n > 0
    ensures Orderly(s.(ext := s.ext[i := s.ext[i].(refCount := n)]))
  {
  }

  lemma OrderlyWithBlock(s: Lists, b: Block)
    requires Orderly(s) && !Listed(s, b.response) && b.response.mid != 0 && b.refCount > 0
    requires forall j :: 0 <= j < |s.ext| ==> !(s.ext[j].cropW == b.cropW && s.ext[j].cropH == b.cropH)
    ensures Orderly(s.(ext := s.ext + [b]))
  {
  }

  lemma OrderlyWithInternal(s: Lists, n: Response)
    requires Orderly(s) && !Listed(s, n) && n.mid != 0
    ensures Orderly(s.(internal := s.internal + [n]))
  {
  }

  lemma OrderlyWithoutBlock(s: Lists, i: nat)
    requires Orderly(s) && i < |s.ext|
    ensures Orderly(s.(ext := Without(s.ext, i)))
  {
    var t := Without(s.ext, i);
    forall j | 0 <= j < |t| ensures t[j] == s.ext[if j < i then j else j + 1] {
      WithoutAt(s.ext, i, j);
    }
    hide Without;
  }

  lemma OrderlyWithoutInternal(s: Lists, k: nat)
    requires Orderly(s) && k < |s.internal|
    ensures Orderly(s.(internal := Without(s.internal, k)))
  {
    var t := Without(s.internal, k);
    forall j | 0 <= j < |t| ensures t[j] == s.internal[if j < k then j else j + 1] {
      WithoutAt(s.internal, k, j);
    }
    hide Without;
  }

  lemma FreeKeeps(s: Lists, log: seq<Event>, r: Response, release: Status)
    requires Orderly(s) && Balanced(s, log)
    ensures var o := FreeOutcome(s, r, release); Orderly(o.lists) && Balanced(o.lists, log + o.events)
  {
    assert log + [] == log;
    hide Balanced, Without, Orderly, FindBlock, FindInternal;
    var i := FindBlock(s.ext, r);
    if i < |s.ext| {
      CountsArePositive(s, i);
      if s.ext[i].refCount == 1 {
        DropBlockKeepsBalance(s, log, i);
        OrderlyWithoutBlock(s, i);
      } else {
        HandBackKeepsBalance(s, log, i);
        OrderlyCount(s, i, s.ext[i].refCount - 1);
      }
    } else {
      var k := FindInternal(s.internal, r);
      if k < |s.internal| {
        DropInternalKeepsBalance(s, log, k);
        OrderlyWithoutInternal(s, k);
      }
    }
  }

  lemma CountsArePositive(s: Lists, i: nat)
    requires Orderly(s) && i < |s.ext|
    ensures s.ext[i].refCount > 0
  {
  }

  lemma PerformKeeps(s: Lists, log: seq<Event>, op: Op)
    requires Orderly(s) && Balanced(s, log) && FreshImpl(s, op)
    ensures var o := Perform(s, op); Orderly(o.lists) && Balanced(o.lists, log + o.events)
  {
    match op
    case Alloc(q, impl) => AllocKeeps(s, log, q, impl);
    case Free(r, release) => FreeKeeps(s, log, r, release);
  }

  /** Every run with fresh responses, from any balanced state, keeps the lists in order and the ledger balanced. */
  lemma {:induction false} RunKeeps(s: Lists, log: seq<Event>, ops: seq<Op>)
    requires Orderly(s) && Balanced(s, log) && FreshRun(s, ops)
    ensures Orderly(RunLists(s, ops)) && Balanced(RunLists(s, ops), log + RunLog(s, ops))
    decreases |ops|
  {
    hide Orderly, Balanced, FreshImpl, Perform;
    if ops == [] {
      assert log + [] == log;
    } else {
      var o := Perform(s, ops[0]);
      PerformKeeps(s, log, ops[0]);
      RunKeeps(o.lists, log + o.events, ops[1..]);
      assert log + (o.events + RunLog(o.lists, ops[1..])) == log + o.events + RunLog(o.lists, ops[1..]);
    }
  }

  // ---------------------------------------------------------------- what the ledger says

  lemma NotHeld(ext: seq<Block>, r: Response)
    requires forall i :: 0 <= i < |ext| ==> ext[i].response != r
    ensures Holders(ext, r) == 0 && Listings(ext, r) == 0
  {
  }

  lemma {:induction false} HeldOnce(ext: seq<Block>, i: nat)
    requires i < |ext| && forall j :: 0 <= j < |ext| && j != i ==> ext[j].response != ext[i].response
    ensures Holders(ext, ext[i].response) == ext[i].refCount && Listings(ext, ext[i].response) == 1
  {
    if i == 0 {
      NotHeld(ext[1..], ext[0].response);
    } else {
      HeldOnce(ext[1..], i - 1);
    }
  }

  lemma OwnedOnce(internal: seq<Response>, k: nat)
    requires k < |internal| && forall i, j :: 0 <= i < j < |internal| ==> internal[i] != internal[j]
    ensures Owned(internal, internal[k]) == 1
  {
    var r := internal[k];
    assert internal == internal[..k] + [r] + internal[k + 1..];
    assert r !in internal[..k] && r !in internal[k + 1..];
    assert r !in multiset(internal[..k]) && r !in multiset(internal[k + 1..]);
  }

  /** The first start: nothing listed, nothing happened. */
  lemma StartBalanced()
    ensures Orderly(Lists([], [])) && Balanced(Lists([], []), [])
  {
    forall r ensures BalancedFor(Lists([], []), [], r) {
    }
  }

  /**
   * After any run with fresh responses: a shared block's count is the times it was given out less the times it was
   * handed back, it is positive, there is one block a crop size, and a block exists exactly while it is listed.
   */
  lemma Ledger(ops: seq<Op>)
    requires FreshRun(Lists([], []), ops)
    ensures var s, log := RunLists(Lists([], []), ops), RunLog(Lists([], []), ops);
            && (forall i :: 0 <= i < |s.ext| ==> s.ext[i].refCount == Outstanding(log, s.ext[i].response) > 0)
            && (forall i, j :: 0 <= i < j < |s.ext| ==> (s.ext[i].cropW, s.ext[i].cropH) != (s.ext[j].cropW, s.ext[j].cropH))
            && (forall r :: Alive(log, r) == if Listed(s, r) then 1 else 0)
            && (forall r :: !Listed(s, r) ==> Outstanding(log, r) == 0)
  {
    var start := Lists([], []);
    StartBalanced();
    RunKeeps(start, [], ops);
    var s, log := RunLists(start, ops), RunLog(start, ops);
    assert [] + log == log;
    hide RunLists, RunLog, FreshRun;
    forall i | 0 <= i < |s.ext| ensures s.ext[i].refCount == Outstanding(log, s.ext[i].response) > 0 {
      LedgerFor(s, log, s.ext[i].response);
      HeldOnce(s.ext, i);
    }
    forall r ensures Alive(log, r) == (if Listed(s, r) then 1 else 0) && (!Listed(s, r) ==> Outstanding(log, r) == 0) {
      LedgerFor(s, log, r);
    }
  }

  lemma LedgerFor(s: Lists, log: seq<Event>, r: Response)
    requires Orderly(s) && Balanced(s, log)
    ensures Alive(log, r) == if Listed(s, r) then 1 else 0
    ensures !Listed(s, r) ==> Outstanding(log, r) == 0
    ensures r in s.internal ==> Outstanding(log, r) == 1
    ensures r !in s.internal ==> Outstanding(log, r) == Holders(s.ext, r)
  {
    assert BalancedFor(s, log, r);
    if r in s.internal {
      var k :| 0 <= k < |s.internal| && s.internal[k] == r;
      OwnedOnce(s.internal, k);
      NotHeld(s.ext, r);
    } else if Listed(s, r) {
      var i :| 0 <= i < |s.ext| && s.ext[i].response == r;
      HeldOnce(s.ext, i);
    } else {
      NotHeld(s.ext, r);
    }
  }

  /** What is listed afterwards: what was listed or made, unless it was released. */
  lemma ListedAfter(s: Lists, log: seq<Event>, op: Op, r: Response)
    requires Orderly(s) && Balanced(s, log) && FreshImpl(s, op)
    ensures var o := Perform(s, op);
            Listed(o.lists, r) <==> (Listed(s, r) || Created(r) in o.events) && Released(r) !in o.events
  {
    var o := Perform(s, op);
    PerformKeeps(s, log, op);
    LedgerFor(s, log, r);
    LedgerFor(o.lists, log + o.events, r);
    LedgerAppend(log, o.events, r);
    EventsOf(s, op, r);
    hide Orderly, Balanced, Perform, FreshImpl, Listed, Alive;
  }

  /** At most one block is made or released in one operation. */
  lemma EventsOf(s: Lists, op: Op, r: Response)
    ensures var events := Perform(s, op).events;
            Alive(events, r) == (if Created(r) in events then 1 else 0) - (if Released(r) in events then 1 else 0)
  {
    var events := Perform(s, op).events;
    if |events| == 1 {
      assert events == [events[0]];
      Once(events[0], r);
    } else if |events| == 2 {
      assert events == [events[0], events[1]];
      Twice(events[0], events[1], r);
      Once(events[0], r);
      Once(events[1], r);
    }
    hide Alive, Without, FindBlock, FindCrop, FindInternal;
  }

  /**
   * Handing back: it fails exactly when the response is not outstanding, and it releases the block exactly when
   * this was the last one outstanding.
   */
  lemma ReleasedWithTheLast(s: Lists, log: seq<Event>, r: Response, release: Status)
    requires Orderly(s) && Balanced(s, log)
    ensures var o := FreeOutcome(s, r, release);
            && (o.events == [] <==> Outstanding(log, r) == 0)
            && (o.events == [] ==> o.status == InvalidHandle && o.lists == s)
            && (Released(r) in o.events <==> Outstanding(log, r) == 1)
  {
    LedgerFor(s, log, r);
    hide Balanced, Outstanding, Alive, Without;
    var i := FindBlock(s.ext, r);
    if i < |s.ext| {
      HeldOnce(s.ext, i);
    } else {
      assert forall j :: 0 <= j < |s.ext| ==> s.ext[j].response != r;
      var k := FindInternal(s.internal, r);
      assert k == |s.internal| ==> r !in s.internal;
    }
  }

  /** While a decoder's frames are outstanding, a second request of the same crop size gets the same frames, or none. */
  lemma SameSizeSameFrames(s: Lists, q: Request, impl: Impl, i: nat)
    requires Orderly(s) && i < |s.ext| && s.ext[i].cropW == q.cropW && s.ext[i].cropH == q.cropH
    requires q.external && q.fromDecode && q.frameSuggested != 0
    ensures var o := AllocOutcome(s, q, impl);
            if q.frameMin <= s.ext[i].response.frames then o.response == Some(s.ext[i].response) && o.status == Ok
            else o.status == MemoryAlloc && o.lists == s
  {
    assert FindCrop(s.ext, q.cropW, q.cropH) == i;
  }

  // ---------------------------------------------------------------- who is answered, and how

  /** Refused before anything else: no frames asked for, or none of the four components named. Any one of them suffices. */
  lemma RefusedRequests(s: Lists, q: Request, impl: Impl)
    ensures var o := AllocOutcome(s, q, impl);
            && (q.frameSuggested == 0 ==> o == Outcome(s, MemoryAlloc, None, []))
            && (q.frameSuggested > 0 && !q.fromEncode && !q.fromDecode && !q.fromVppIn && !q.fromVppOut ==>
                  o == Outcome(s, Unsupported, None, []))
    ensures q.frameSuggested == 0 || (!q.fromEncode && !q.fromDecode && !q.fromVppIn && !q.fromVppOut) ==> !CallsImpl(s, q)
  {
  }

  /** A request that is not both external and from the decoder: AllocImpl's answer, kept privately if it succeeds. */
  lemma PrivateAnswers(s: Lists, q: Request, impl: Impl)
    requires q.frameSuggested > 0 && (q.fromEncode || q.fromDecode || q.fromVppIn || q.fromVppOut)
    requires !q.external || !q.fromDecode
    ensures var o := AllocOutcome(s, q, impl);
            CallsImpl(s, q) && o.status == impl.status && o.lists.ext == s.ext &&
            (if impl.status == Ok then o.response == Some(impl.response) && o.lists.internal == s.internal + [impl.response]
             else o.response == None && o.lists.internal == s.internal)
  {
  }

  /** The first request of a decoder for a size: AllocImpl's answer, listed with count 1 if it succeeds. */
  lemma NewSizeAnswers(s: Lists, q: Request, impl: Impl)
    requires q.frameSuggested > 0 && q.external && q.fromDecode
    requires forall i :: 0 <= i < |s.ext| ==> s.ext[i].cropW != q.cropW || s.ext[i].cropH != q.cropH
    ensures var o := AllocOutcome(s, q, impl);
            CallsImpl(s, q) && o.status == impl.status && o.lists.internal == s.internal &&
            (if impl.status == Ok then
               o.response == Some(impl.response) && o.lists.ext == s.ext + [Block(impl.response, q.cropW, q.cropH, 1)]
             else o.response == None && o.lists.ext == s.ext)
  {
    NoSuchCrop(s.ext, q.cropW, q.cropH);
    hide FindCrop;
  }

  lemma NoSuchCrop(ext: seq<Block>, w: nat, h: nat)
    requires forall i :: 0 <= i < |ext| ==> ext[i].cropW != w || ext[i].cropH != h
    ensures FindCrop(ext, w, h) == |ext|
  {
  }

  /** A further one for a listed size: the listed frames, counted once more, unless they are too few; AllocImpl is not asked. */
  lemma ListedSizeAnswers(s: Lists, q: Request, impl: Impl, i: nat)
    requires Orderly(s) && i < |s.ext| && s.ext[i].cropW == q.cropW && s.ext[i].cropH == q.cropH
    requires q.external && q.fromDecode && q.frameSuggested > 0
    ensures var b := s.ext[i];
            !CallsImpl(s, q) && AllocOutcome(s, q, impl) ==
            if q.frameMin > b.response.frames then Outcome(s, MemoryAlloc, None, [])
            else Outcome(Lists(s.ext[i := Block(b.response, b.cropW, b.cropH, b.refCount + 1)], s.internal), Ok,
                         Some(b.response), [Granted(b.response)])
  {
    assert FindCrop(s.ext, q.cropW, q.cropH) == i;
  }

  /** A shared response handed back: its block is counted down, or released and dropped with the last. */
  lemma SharedFree(s: Lists, i: nat, release: Status)
    requires Orderly(s) && i < |s.ext|
    ensures var b := s.ext[i];
            FreeOutcome(s, b.response, release) ==
            if b.refCount == 1 then
              Outcome(Lists(s.ext[..i] + s.ext[i + 1..], s.internal), release, None, [Freed(b.response), Released(b.response)])
            else
              Outcome(Lists(s.ext[i := Block(b.response, b.cropW, b.cropH, b.refCount - 1)], s.internal), Ok,
                      None, [Freed(b.response)])
  {
    assert FindBlock(s.ext, s.ext[i].response) == i;
  }

  /** A private one is released and dropped at once. */
  lemma PrivateFree(s: Lists, k: nat, release: Status)
    requires Orderly(s) && k < |s.internal|
    ensures FreeOutcome(s, s.internal[k], release) ==
            Outcome(Lists(s.ext, s.internal[..k] + s.internal[k + 1..]), release, None,
                    [Freed(s.internal[k]), Released(s.internal[k])])
  {
    var r := s.internal[k];
    assert FindBlock(s.ext, r) == |s.ext| by {
      hide FindInternal;
    }
    assert FindInternal(s.internal, r) == k;
  }

  /** Any other is reported, and nothing changes. */
  lemma UnknownFree(s: Lists, r: Response, release: Status)
    requires !Listed(s, r)
    ensures FreeOutcome(s, r, release) == Outcome(s, InvalidHandle, None, [])
  {
    var i, k := FindBlock(s.ext, r), FindInternal(s.internal, r);
    hide FindBlock, FindInternal;
  }

  // ---------------------------------------------------------------- closing

  function Responses(ext: seq<Block>): seq<Response> {
    seq(|ext|, i requires 0 <= i < |ext| => ext[i].response)
  }

  function Releases(rs: seq<Response>): seq<Event> {
    seq(|rs|, i requires 0 <= i < |rs| => Released(rs[i]))
  }

  /** Close releases every block listed; only the shared ones are then forgotten. */
  function CloseEvents(s: Lists): seq<Event> { Releases(Responses(s.ext) + s.internal) }

  function Closed(s: Lists): Lists { s.(ext := []) }

  lemma {:induction false} ReleasesOf(rs: seq<Response>, r: Response)
    ensures Alive(Releases(rs), r) == 0 - Owned(rs, r)
  {
    if rs != [] {
      ReleasesOf(rs[1..], r);
      assert Releases(rs)[1..] == Releases(rs[1..]);
      assert rs == [rs[0]] + rs[1..];
    }
  }

  lemma ReleasesNothing(rs: seq<Response>)
    ensures Releases(rs[..0]) == []
  {
  }

  lemma ReleasesSnoc(rs: seq<Response>, n: nat)
    requires n < |rs|
    ensures Releases(rs[..n + 1]) == Releases(rs[..n]) + [Released(rs[n])]
  {
  }

  lemma {:induction false} ListingsAre(ext: seq<Block>, r: Response)
    ensures Listings(ext, r) == multiset(Responses(ext))[r]
  {
    if ext != [] {
      ListingsAre(ext[1..], r);
      assert Responses(ext) == [ext[0].response] + Responses(ext[1..]);
    }
  }

  lemma CloseCounts(s: Lists, r: Response)
    ensures Alive(CloseEvents(s), r) == 0 - (Listings(s.ext, r) + Owned(s.internal, r))
  {
    ReleasesOf(Responses(s.ext) + s.internal, r);
    ListingsAre(s.ext, r);
  }

  /** Closing releases every block that exists, once: afterwards nothing is left. */
  lemma CloseReleasesAll(s: Lists, log: seq<Event>, r: Response)
    requires Balanced(s, log)
    ensures Alive(log + CloseEvents(s), r) == 0
  {
    assert BalancedFor(s, log, r);
    CloseCounts(s, r);
    LedgerAppend(log, CloseEvents(s), r);
  }

  /** The private responses stay listed, so closing again is harmless exactly when there were none. */
  lemma CloseAgain(s: Lists, log: seq<Event>)
    requires Balanced(s, log)
    ensures (forall r :: Alive(log + CloseEvents(s) + CloseEvents(Closed(s)), r) == 0) <==> s.internal == []
  {
    forall r ensures Alive(log + CloseEvents(s) + CloseEvents(Closed(s)), r) == 0 - Owned(s.internal, r) {
      CloseReleasesAll(s, log, r);
      LedgerAppend(log + CloseEvents(s), CloseEvents(Closed(s)), r);
      CloseCounts(Closed(s), r);
    }
    hide Alive, CloseEvents;
    if s.internal != [] {
      var r := s.internal[0];
      assert r in multiset(s.internal);
      assert Alive(log + CloseEvents(s) + CloseEvents(Closed(s)), r) < 0;
    }
  }

  /** With one private response listed, the second close releases it again. */
  lemma {:induction false} ReleasedTwice(r: Response)
    requires r.mid != 0
    ensures var s, log := Lists([], [r]), [Created(r), Granted(r)];
            Balanced(s, log) && Alive(log + CloseEvents(s) + CloseEvents(Closed(s)), r) == -1
  {
    var s, log := Lists([], [r]), [Created(r), Granted(r)];
    StartBalanced();
    NewInternalKeepsBalance(Lists([], []), [], r);
    assert [] + log == log && [] + [r] == [r];
    CloseReleasesAll(s, log, r);
    LedgerAppend(log + CloseEvents(s), CloseEvents(Closed(s)), r);
    CloseCounts(Closed(s), r);
  }

  // ---------------------------------------------------------------- the class

  class BaseFrameAllocator {
    var extResponses: seq<Block>
    var responses: seq<Response>
    ghost var log: seq<Event>

    function Value(): Lists
      reads this
    {
      Lists(extResponses, responses)
    }

    ghost predicate Valid()
      reads this
    {
      Orderly(Value()) && Balanced(Value(), log)
    }

    constructor ()
      ensures Valid() && extResponses == [] && responses == [] && log == []
    {
      extResponses, responses, log := [], [], [];
      new;
      StartBalanced();
    }

    /** impl stands for the derived class's AllocImpl, called at most once. */
    method AllocFrames(q: Request, impl: Impl) returns (status: Status, response: Option<Response>)
      requires Valid() && FreshImpl(Value(), Alloc(q, impl))
      modifies this
      ensures Valid()
      ensures var o := AllocOutcome(old(Value()), q, impl);
              status == o.status && response == o.response && Value() == o.lists && log == old(log) + o.events
    {
      AllocKeeps(Value(), log, q, impl);
      hide Orderly, Balanced;
      response := None;
      if q.frameSuggested == 0 {
        status := MemoryAlloc;
      } else if !FromMask(q) {
        status := Unsupported;
      } else if q.external && q.fromDecode {
        var i := FindCrop(extResponses, q.cropW, q.cropH);
        if i == |extResponses| {
          status, response := TakeExternal(q, impl);
        } else if q.frameMin > extResponses[i].response.frames {
          status := MemoryAlloc;
        } else {
          extResponses := extResponses[i := extResponses[i].(refCount := extResponses[i].refCount + 1)];
          status, response := Ok, Some(extResponses[i].response);
          log := log + [Granted(extResponses[i].response)];
        }
      } else {
        status, response := TakeInternal(impl);
      }
      assert log == old(log) + AllocOutcome(old(Value()), q, impl).events;
    }

    /** Lists a new decoder response, if AllocImpl made one. */
    method TakeExternal(q: Request, impl: Impl) returns (status: Status, response: Option<Response>)
      modifies this
      ensures status == impl.status && responses == old(responses)
      ensures if status == Ok
              then response == Some(impl.response) && extResponses == old(extResponses) + [Block(impl.response, q.cropW, q.cropH, 1)] &&
                   log == old(log) + [Created(impl.response), Granted(impl.response)]
              else response == None && extResponses == old(extResponses) && log == old(log)
    {
      status, response := impl.status, None;
      if status == Ok {
        response := Some(impl.response);
        extResponses := extResponses + [Block(impl.response, q.cropW, q.cropH, 1)];
        log := log + [Created(impl.response), Granted(impl.response)];
      }
    }

    /** Reserves a place in the list first, and gives it up again if AllocImpl fails. */
    method TakeInternal(impl: Impl) returns (status: Status, response: Option<Response>)
      modifies this
      ensures status == impl.status && extResponses == old(extResponses)
      ensures if status == Ok
              then response == Some(impl.response) && responses == old(responses) + [impl.response] &&
                   log == old(log) + [Created(impl.response), Granted(impl.response)]
              else response == None && responses == old(responses) && log == old(log)
    {
      responses := responses + [Response(0, 0)];
      status, response := impl.status, None;
      if status == Ok {
        response := Some(impl.response);
        responses := responses[|responses| - 1 := impl.response];
        log := log + [Created(impl.response), Granted(impl.response)];
      } else {
        responses := responses[..|responses| - 1];
      }
    }

    /** release stands for the status of the derived class's ReleaseResponse. */
    method FreeFrames(r: Response, release: Status) returns (status: Status)
      requires Valid()
      modifies this
      ensures Valid()
      ensures var o := FreeOutcome(old(Value()), r, release);
              status == o.status && Value() == o.lists && log == old(log) + o.events
    {
      FreeKeeps(Value(), log, r, release);
      hide Orderly, Balanced;
      status := Ok;
      var i := FindBlock(extResponses, r);
      if i < |extResponses| {
        status := HandBack(i, r, release);
      } else {
        var k := FindInternal(responses, r);
        if k < |responses| {
          status := release;
          log := log + [Freed(r), Released(r)];
          responses := responses[..k] + responses[k + 1..];
        } else {
          status := InvalidHandle;
        }
      }
      assert log == old(log) + FreeOutcome(old(Value()), r, release).events;
    }

    /** Counts one holder less, and releases the block with the last. */
    method HandBack(i: nat, r: Response, release: Status) returns (status: Status)
      requires i < |extResponses|
      modifies this
      ensures responses == old(responses)
      ensures var b := old(extResponses[i]);
              if b.refCount == 1
              then status == release && extResponses == Without(old(extResponses), i) && log == old(log) + [Freed(r), Released(r)]
              else status == Ok && extResponses == old(extResponses)[i := b.(refCount := b.refCount - 1)] && log == old(log) + [Freed(r)]
    {
      status := Ok;
      extResponses := extResponses[i := extResponses[i].(refCount := extResponses[i].refCount - 1)];
      log := log + [Freed(r)];
      if extResponses[i].refCount == 0 {
        status := release;
        log := log + [Released(r)];
        extResponses := extResponses[..i] + extResponses[i + 1..];
      }
    }

    method Close()
      requires Valid()
      modifies this
      ensures Value() == Closed(old(Value())) && log == old(log) + CloseEvents(old(Value()))
      ensures forall r :: Alive(log, r) == 0
    {
      hide Alive, Releases, Orderly, Balanced;
      forall r ensures Alive(log + CloseEvents(Value()), r) == 0 {
        CloseReleasesAll(Value(), log, r);
      }
      ghost var all := Responses(extResponses) + responses;
      ReleasesNothing(all);
      assert log + [] == log;
      for i := 0 to |extResponses|
        invariant extResponses == old(extResponses) && responses == old(responses)
        invariant log == old(log) + Releases(all[..i])
      {
        ReleasesSnoc(all, i);
        log := log + [Released(extResponses[i].response)];
      }
      for k := 0 to |responses|
        invariant extResponses == old(extResponses) && responses == old(responses)
        invariant log == old(log) + Releases(all[..|extResponses| + k])
      {
        ReleasesSnoc(all, |extResponses| + k);
        log := log + [Released(responses[k])];
      }
      assert all[..|all|] == all;
      extResponses := [];
    }
  }
}

/**
 The H.264 frame constructor over whole runs of samples, cut anywhere: which units each sample writes out. Fragments
 and the units behind them stay in the input buffer until a later sample ends inside a unit with a valid header.
 */
module AvcRuns {
  import opened Bytes
  import opened NalUnits
  import opened AvcFrames

  // ---------------------------------------------------------------- runs of samples

  /** The input buffer after samples, starting with nothing held. */
  function InputAfter(n: nat, samples: seq<seq<byte>>): seq<byte> {
    if samples == [] then [] else
      Convert(n, InputAfter(n, samples[..|samples| - 1]), samples[|samples| - 1]).input
  }

  /** The payloads that each sample writes out. */
  function Emissions(n: nat, samples: seq<seq<byte>>): (es: seq<seq<seq<byte>>>)
    ensures |es| == |samples|
  {
    if samples == [] then [] else
      var front := samples[..|samples| - 1];
      Emissions(n, front) + [Convert(n, InputAfter(n, front), samples[|samples| - 1]).payloads]
  }

  // ---------------------------------------------------------------- a stream cut into samples

  /** Where a sample ends: between units, or behind k bytes of the printed unit p. */
  datatype Ending = AtUnit | InUnit(p: seq<byte>, k: nat)

  /** A sample of a stream: the units that are complete with it, and where it ends. */
  datatype Arrival = Arrival(units: seq<seq<byte>>, ending: Ending)

  predicate GoodEnding(n: nat, e: Ending) { e.InUnit? ==> 0 < |e.p| < Power256(n) && 0 < e.k < n + |e.p| }

  /** More than the length prefix of a unit with a valid header. */
  predicate Keeps(n: nat, e: Ending) { e.InUnit? && e.k > n && e.p != [] && ValidHeader(e.p[0]) }

  /** The bytes of the unit that a sample ends in. */
  function Head(n: nat, e: Ending): (h: seq<byte>)
    requires GoodEnding(n, e)
    ensures h == [] <==> e.AtUnit?
  {
    if e.AtUnit? then [] else (BigEndianBytes(|e.p|, n) + e.p)[..e.k]
  }

  function Front(run: seq<Arrival>): (f: seq<Arrival>)
    requires run != []
    ensures |f| == |run| - 1
  {
    run[..|run| - 1]
  }

  function Last(run: seq<Arrival>): Arrival
    requires run != []
  {
    run[|run| - 1]
  }

  function EndingOf(run: seq<Arrival>): Ending { if run == [] then AtUnit else Last(run).ending }

  /** From where the unit that is under way starts. */
  function Upto(n: nat, a: Arrival): seq<byte>
    requires GoodEnding(n, a.ending)
  {
    PrefixPrint(n, a.units) + Head(n, a.ending)
  }

  /** Each sample goes on where the one before ended, by at least a byte. */
  predicate Follows(n: nat, run: seq<Arrival>)
    ensures Follows(n, run) ==> GoodEnding(n, EndingOf(run))
  {
    run != [] ==>
      && Follows(n, Front(run)) && Printable(n, Last(run).units) && GoodEnding(n, Last(run).ending)
      && Head(n, EndingOf(Front(run))) < Upto(n, Last(run))
  }

  function LastSample(n: nat, run: seq<Arrival>): (s: seq<byte>)
    requires run != [] && Follows(n, run)
    ensures s != [] && Head(n, EndingOf(Front(run))) + s == Upto(n, Last(run))
  {
    Upto(n, Last(run))[|Head(n, EndingOf(Front(run)))|..]
  }

  function Samples(n: nat, run: seq<Arrival>): (ss: seq<seq<byte>>)
    requires Follows(n, run)
    ensures |ss| == |run|
  {
    if run == [] then [] else Samples(n, Front(run)) + [LastSample(n, run)]
  }

  /** All units complete by the end of the run. */
  function Completed(run: seq<Arrival>): seq<seq<byte>> {
    if run == [] then [] else Completed(Front(run)) + Last(run).units
  }

  /** Some sample has ended with a fragment that is kept. */
  predicate Started(n: nat, run: seq<Arrival>) {
    run != [] && (Keeps(n, Last(run).ending) || Started(n, Front(run)))
  }

  /** Until a fragment is kept, every sample ends between units. */
  predicate Unlost(n: nat, run: seq<Arrival>) {
    run != [] ==> Unlost(n, Front(run)) && (Started(n, run) || Last(run).ending.AtUnit?)
  }

  /** The sample after the last one that ended with a kept fragment; the next sample if there was none. */
  function From(n: nat, run: seq<Arrival>): (i: nat)
    ensures i <= |run|
  {
    if run == [] || Keeps(n, Last(run).ending) || !Started(n, Front(run)) then |run| else From(n, Front(run))
  }

  lemma {:induction false} FromIs(n: nat, run: seq<Arrival>, i: nat)
    requires 0 < i <= |run| && Keeps(n, run[i - 1].ending)
    requires forall j :: i <= j < |run| ==> !Keeps(n, run[j].ending)
    ensures From(n, run) == i && Started(n, run)
    decreases |run|
  {
    if i < |run| {
      assert Front(run)[i - 1] == run[i - 1];
      FromIs(n, Front(run), i);
    }
  }

  lemma {:induction false} NeverKept(n: nat, run: seq<Arrival>)
    requires forall j :: 0 <= j < |run| ==> !Keeps(n, run[j].ending)
    ensures From(n, run) == |run| && !Started(n, run)
    decreases |run|
  {
    if run != [] {
      NeverKept(n, Front(run));
    }
  }

  function Held(n: nat, run: seq<Arrival>): seq<seq<byte>> { Completed(run[From(n, run)..]) }

  lemma HeldNow(n: nat, run: seq<Arrival>)
    requires run != []
    ensures Held(n, run) == if From(n, run) == |run| then [] else Held(n, Front(run)) + Last(run).units
  {
    var i := From(n, run);
    if i < |run| {
      assert Front(run[i..]) == Front(run)[i..];
    }
  }

  // ---------------------------------------------------------------- one sample

  /** One sample, wherever it ends, behind whatever is held. */
  lemma ConvertArrival(n: nat, input: seq<byte>, sample: seq<byte>, all: seq<seq<byte>>, e: Ending)
    requires n > 0 && Printable(n, all) && GoodEnding(n, e) && input + sample == PrefixPrint(n, all) + Head(n, e)
    ensures Convert(n, input, sample) ==
            Conversion(Keep(all), if Keeps(n, e) then Head(n, e) else if input == [] then [] else input + sample)
  {
    hide Convert, PrefixPrint, Keep, BigEndianBytes, Power256, ValidHeader;
    if e.AtUnit? || e.k <= n {
      ShortTailIsDropped(n, input, sample, all, Head(n, e));
    } else {
      FragmentIsKept(n, input, sample, all, e.p, Head(n, e));
    }
  }

  lemma {:induction false} HeldPrintable(n: nat, run: seq<Arrival>)
    requires Follows(n, run)
    ensures Printable(n, Held(n, run))
    decreases |run|
  {
    if run != [] {
      HeldPrintable(n, Front(run));
      HeldNow(n, run);
    }
  }

  /** Bytes of the stream behind what is held of it. */
  lemma LastBytes(n: nat, run: seq<Arrival>, held: seq<seq<byte>>)
    requires run != [] && Follows(n, run)
    ensures PrefixPrint(n, held) + Head(n, EndingOf(Front(run))) + LastSample(n, run)
              == PrefixPrint(n, held + Last(run).units) + Head(n, Last(run).ending)
  {
    var a := Last(run);
    var h, x, t := Head(n, EndingOf(Front(run))), LastSample(n, run), Head(n, a.ending);
    assert h + x == PrefixPrint(n, a.units) + t;
    hide *;
    PrefixPrintAppend(n, held, a.units);
    Regrouped(PrefixPrint(n, held), h, x, PrefixPrint(n, a.units), t);
  }

  lemma Regrouped<T>(s: seq<T>, a: seq<T>, b: seq<T>, c: seq<T>, d: seq<T>)
    requires a + b == c + d
    ensures s + a + b == s + c + d
  {
    assert s + a + b == s + (a + b);
    assert s + c + d == s + (c + d);
  }

  lemma LastConverted(n: nat, run: seq<Arrival>, input: seq<byte>)
    requires n > 0 && run != [] && Follows(n, run)
    requires input == PrefixPrint(n, Held(n, Front(run))) + Head(n, EndingOf(Front(run)))
    ensures var all, e := Held(n, Front(run)) + Last(run).units, Last(run).ending;
            NonEmpty(all) && input + LastSample(n, run) == PrefixPrint(n, all) + Head(n, e) &&
            Convert(n, input, LastSample(n, run)) ==
            Conversion(Keep(all), if Keeps(n, e) then Head(n, e) else if input == [] then [] else PrefixPrint(n, all) + Head(n, e))
  {
    var all, e, x := Held(n, Front(run)) + Last(run).units, Last(run).ending, LastSample(n, run);
    hide *;
    HeldPrintable(n, Front(run));
    LastBytes(n, run, Held(n, Front(run)));
    LastIsGood(n, run, Held(n, Front(run)));
    PrintableNonEmpty(n, all);
    ConvertArrival(n, input, x, all, e);
  }

  lemma LastIsGood(n: nat, run: seq<Arrival>, held: seq<seq<byte>>)
    requires run != [] && Follows(n, run) && Printable(n, held)
    ensures Printable(n, held + Last(run).units) && GoodEnding(n, Last(run).ending) && Follows(n, Front(run))
    ensures GoodEnding(n, EndingOf(Front(run)))
  {
  }

  lemma PrintableNonEmpty(n: nat, payloads: seq<seq<byte>>)
    requires Printable(n, payloads)
    ensures NonEmpty(payloads)
  {
  }

  // ---------------------------------------------------------------- all samples

  lemma SamplesStep(n: nat, run: seq<Arrival>)
    requires run != [] && Follows(n, run)
    ensures var ss, before := Samples(n, run), Samples(n, Front(run));
            ss[..|ss| - 1] == before && ss[|ss| - 1] == LastSample(n, run) &&
            InputAfter(n, ss) == Convert(n, InputAfter(n, before), LastSample(n, run)).input &&
            Emissions(n, ss) == Emissions(n, before) + [Convert(n, InputAfter(n, before), LastSample(n, run)).payloads]
  {
    hide Convert, LastSample;
    var ss, before := Samples(n, run), Samples(n, Front(run));
    assert ss[..|ss| - 1] == before;
  }

  lemma HeldNext(n: nat, run: seq<Arrival>)
    requires run != [] && GoodEnding(n, Last(run).ending) && (Started(n, run) || Last(run).ending.AtUnit?)
    ensures var all, h := Held(n, Front(run)) + Last(run).units, Head(n, Last(run).ending);
            PrefixPrint(n, Held(n, run)) + h ==
            if Keeps(n, Last(run).ending) then h else if Started(n, Front(run)) then PrefixPrint(n, all) + h else []
    ensures EndingOf(run) == Last(run).ending
    ensures Started(n, run) <==> Keeps(n, Last(run).ending) || Started(n, Front(run))
  {
    HeldNow(n, run);
    hide Held, PrefixPrint, Head, Keeps;
    var h := Head(n, Last(run).ending);
    assert PrefixPrint(n, []) == [] by {
      NothingPrinted(n);
    }
    assert [] + h == h;
  }

  lemma NothingPrinted(n: nat)
    ensures PrefixPrint(n, []) == []
  {
  }

  /** What is held: the units since the last kept fragment, that fragment's unit first, and the bytes behind them. */
  lemma {:induction false} InputIs(n: nat, run: seq<Arrival>)
    requires n > 0 && Follows(n, run) && Unlost(n, run)
    ensures InputAfter(n, Samples(n, run)) == PrefixPrint(n, Held(n, run)) + Head(n, EndingOf(run))
    ensures InputAfter(n, Samples(n, run)) == [] <==> !Started(n, run)
    decreases |run|
  {
    if run == [] {
      NothingPrinted(n);
    } else {
      var input := InputAfter(n, Samples(n, Front(run)));
      InputIs(n, Front(run));
      HeldNext(n, run);
      assert Keeps(n, Last(run).ending) ==> Last(run).ending.InUnit?;
      hide Started, EndingOf, Unlost, Held, Samples, InputAfter, LastSample, Upto, PrefixPrint, Keep, Keeps, Convert, Follows, Emissions;
      LastConverted(n, run, input);
      SamplesStep(n, run);
      assert input != [] ==> input + LastSample(n, run) != [];
    }
  }

  /** The last sample writes out what was held with its own units. */
  lemma LastEmits(n: nat, run: seq<Arrival>)
    requires n > 0 && run != [] && Follows(n, run) && Unlost(n, Front(run))
    ensures var all := Held(n, Front(run)) + Last(run).units;
            NonEmpty(all) && Emissions(n, Samples(n, run)) == Emissions(n, Samples(n, Front(run))) + [Keep(all)]
  {
    hide Held, Emissions, Samples, LastSample, Convert, Keep, Unlost, PrefixPrint;
    InputIs(n, Front(run));
    LastConverted(n, run, InputAfter(n, Samples(n, Front(run))));
    SamplesStep(n, run);
  }

  lemma CompletedSince(n: nat, run: seq<Arrival>)
    requires run != []
    ensures Completed(run[From(n, Front(run))..]) == Held(n, Front(run)) + Last(run).units
  {
    var m := From(n, Front(run));
    assert Front(run[m..]) == Front(run)[m..];
  }

  /**
   Sample i writes out the units worth writing that are complete since the last sample before it that ended with a kept
   fragment, and only its own units if there was none.
   */
  lemma {:induction false} SampleEmits(n: nat, run: seq<Arrival>, i: nat)
    requires n > 0 && Follows(n, run) && i < |run| && Unlost(n, run[..i])
    ensures var all := Completed(run[From(n, run[..i])..i + 1]);
            NonEmpty(all) && Emissions(n, Samples(n, run))[i] == Keep(all)
    decreases |run|
  {
    hide *;
    var m := From(n, run[..i]);
    FrontSlices(run, m, i);
    if i + 1 == |run| {
      CompletedSince(n, run);
      LastEmits(n, run);
    } else {
      FrontFollows(n, run);
      SampleEmits(n, Front(run), i);
      SamplesStep(n, run);
    }
  }

  lemma FrontSlices(run: seq<Arrival>, m: nat, i: nat)
    requires m <= i < |run|
    ensures run[..i + 1][m..] == run[m..i + 1]
    ensures if i + 1 == |run| then run[..i] == Front(run) && run[m..] == run[m..i + 1]
            else Front(run)[..i] == run[..i] && Front(run)[m..i + 1] == run[m..i + 1]
  {
  }

  lemma FrontFollows(n: nat, run: seq<Arrival>)
    requires run != [] && Follows(n, run)
    ensures Follows(n, Front(run))
  {
  }

  lemma {:induction false} FromIsLater(n: nat, run: seq<Arrival>, k: nat)
    requires k < |run| && Keeps(n, run[k].ending)
    ensures Started(n, run) && k < From(n, run)
    decreases |run|
  {
    if k + 1 < |run| {
      assert Front(run)[k] == run[k];
      FromIsLater(n, Front(run), k);
    }
  }

  lemma BothNonEmpty(a: seq<seq<byte>>, b: seq<seq<byte>>)
    requires NonEmpty(a + b)
    ensures NonEmpty(a) && NonEmpty(b)
  {
    assert forall i :: 0 <= i < |a| ==> a[i] == (a + b)[i];
    assert forall i :: 0 <= i < |b| ==> b[i] == (a + b)[|a| + i];
  }

  /**
   So after a kept fragment its unit and all behind it come again with each later sample, up to and including the first
   that ends with another kept fragment, and with none after that one.
   */
  lemma HeldComeAgain(n: nat, run: seq<Arrival>, j: nat, i: nat)
    requires n > 0 && Follows(n, run) && 0 < j <= i < |run| && Unlost(n, run[..i]) && Keeps(n, run[j - 1].ending)
    ensures var held, own, out := Completed(run[j..i]), run[i].units, Emissions(n, Samples(n, run))[i];
            (forall k :: j <= k < i ==> !Keeps(n, run[k].ending)) ==>
              NonEmpty(held) && NonEmpty(own) && out == Keep(held) + Keep(own)
    ensures forall k :: j <= k < i && Keeps(n, run[k].ending) ==>
              var since := From(n, run[..i]);
              k < since && NonEmpty(Completed(run[since..i + 1])) &&
              Emissions(n, Samples(n, run))[i] == Keep(Completed(run[since..i + 1]))
  {
    hide Follows, Unlost, Emissions, Samples, Keep, Keeps, From, Started;
    SampleEmits(n, run, i);
    if forall k :: j <= k < i ==> !Keeps(n, run[k].ending) {
      FromIs(n, run[..i], j);
      assert Front(run[j..i + 1]) == run[j..i];
      BothNonEmpty(Completed(run[j..i]), run[i].units);
      KeepAppend(Completed(run[j..i]), run[i].units);
    }
    forall k | j <= k < i && Keeps(n, run[k].ending) ensures k < From(n, run[..i]) {
      FromIsLater(n, run[..i], k);
    }
  }

  // ---------------------------------------------------------------- the whole stream

  function Flat(es: seq<seq<seq<byte>>>): seq<seq<byte>> {
    if es == [] then [] else Flat(es[..|es| - 1]) + es[|es| - 1]
  }

  lemma FlatAppend(es: seq<seq<seq<byte>>>, e: seq<seq<byte>>)
    ensures Flat(es + [e]) == Flat(es) + e
  {
    assert (es + [e])[..|es|] == es;
  }

  /** No sample came while units worth writing were held. */
  predicate NoneAgain(n: nat, run: seq<Arrival>)
    requires Follows(n, run)
  {
    run != [] ==>
      NoneAgain(n, Front(run)) && (HeldPrintable(n, Front(run)); Keep(Held(n, Front(run))) == [])
  }

  lemma {:induction false} CompletedNonEmpty(n: nat, run: seq<Arrival>)
    requires Follows(n, run)
    ensures NonEmpty(Completed(run))
    decreases |run|
  {
    if run != [] {
      CompletedNonEmpty(n, Front(run));
      PrintableNonEmpty(n, Last(run).units);
    }
  }

  lemma CountRepeats<T>(a: seq<T>, b: seq<T>, c: seq<T>, d: seq<T>)
    requires |a| >= |b| && (|a| == |b| <==> a == b)
    ensures |a + (c + d)| >= |b + d| && (|a + (c + d)| == |b + d| <==> a == b && c == [])
    ensures a + (c + d) == b + d <==> a == b && c == []
  {
    if a == b && c == [] {
      assert c + d == d;
    }
  }

  /**
   A stream cut into samples, none of whose fragments is lost, gives its units worth writing once and in order exactly
   when nothing worth writing was held whenever a sample came.
   */
  lemma {:induction false} StreamSurvives(n: nat, run: seq<Arrival>)
    requires n > 0 && Follows(n, run) && Unlost(n, run)
    ensures var out, all := Flat(Emissions(n, Samples(n, run))), Completed(run);
            NonEmpty(all) && |out| >= |Keep(all)| && (|out| == |Keep(all)| <==> out == Keep(all)) &&
            (out == Keep(all) <==> NoneAgain(n, run))
    decreases |run|
  {
    CompletedNonEmpty(n, run);
    if run != [] {
      var held, own, before := Held(n, Front(run)), Last(run).units, Samples(n, Front(run));
      HeldPrintable(n, Front(run));
      PrintableNonEmpty(n, own);
      StreamSurvives(n, Front(run));
      LastEmits(n, run);
      hide Follows, Unlost, Emissions, Samples, Keep, Held, Flat, LastSample, Convert, PrefixPrint;
      KeepAppend(held, own);
      KeepAppend(Completed(Front(run)), own);
      FlatAppend(Emissions(n, before), Keep(held) + Keep(own));
      CountRepeats(Flat(Emissions(n, before)), Keep(Completed(Front(run))), Keep(held), Keep(own));
    }
  }
}

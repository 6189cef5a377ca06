// The timing statistics of the real-time cycle: when each cycle starts and ends, and what the two
// statistics of execute_fromthread make of it. Times are in nanoseconds on one monotonic clock.
module CycleTimer {
  import opened Statistics

  /** One cycle: Getns before and after MainTask. */
  datatype Cycle = Cycle(start: nat, end: nat)

  /** Every cycle ends before the next one starts. */
  ghost predicate Monotone(cs: seq<Cycle>)
  {
    forall i | 0 <= i < |cs| - 1 :: cs[i].end <= cs[i + 1].start
  }

  /** Nanoseconds as microseconds and as milliseconds. */
  function Micros(ns: int): real { ns as real * 0.001 }
  function Millis(ns: int): real { ns as real * 0.000001 }

  /** The samples of m_runtime, in microseconds: the first two cycles are not counted. */
  function Runtimes(cs: seq<Cycle>): seq<real>
  {
    if |cs| <= 2 then []
    else
      var last := cs[|cs| - 1];
      Runtimes(cs[..|cs| - 1]) + [Micros(last.end - last.start)]
  }

  /** The samples of m_period, in milliseconds. */
  function Periods(cs: seq<Cycle>): seq<real>
  {
    if |cs| <= 2 then []
    else Periods(cs[..|cs| - 1]) + [Millis(cs[|cs| - 1].start - cs[|cs| - 2].start)]
  }

  lemma SumAppend(s: seq<real>, x: real)
    ensures Sum(s + [x]) == Sum(s) + x
  {
    hide Sum;
    assert (s + [x])[..|s|] == s;
    SumsOf(s + [x], s, x);
  }

  lemma {:induction false} SampleCounts(cs: seq<Cycle>)
    ensures |Runtimes(cs)| == |Periods(cs)| == if |cs| <= 2 then 0 else |cs| - 2
    decreases |cs|
  {
    hide Micros, Millis;
    if |cs| > 2 {
      SampleCounts(cs[..|cs| - 1]);
    }
  }

  lemma ScaleDifference(a: int, b: int, c: int)
    ensures Micros(a - b) + Micros(b - c) == Micros(a - c)
    ensures Millis(a - b) + Millis(b - c) == Millis(a - c)
    ensures Micros(a) == 1000.0 * Millis(a)
    ensures a <= b ==> Micros(a) <= Micros(b)
  {
    Distribute(0.001, (a - b) as real, (b - c) as real);
    Distribute(0.000001, (a - b) as real, (b - c) as real);
  }

  /** The samples are nanoseconds in other units. */
  lemma Units(ns: int)
    ensures 1000.0 * Micros(ns) == ns as real && 1_000_000.0 * Millis(ns) == ns as real
  {
  }

  /** Sample i, in nanoseconds: the time of MainTask in cycle i + 2, and the time between its start and
      the start before. */
  lemma {:induction false} SampleAt(cs: seq<Cycle>, i: nat)
    requires i + 2 < |cs|
    ensures |Runtimes(cs)| == |Periods(cs)| == |cs| - 2
    ensures 1000.0 * Runtimes(cs)[i] == (cs[i + 2].end - cs[i + 2].start) as real
    ensures 1_000_000.0 * Periods(cs)[i] == (cs[i + 2].start - cs[i + 1].start) as real
    decreases |cs|
  {
    hide Micros, Millis;
    SampleCounts(cs);
    SampleCounts(cs[..|cs| - 1]);
    if i + 3 < |cs| {
      SampleAt(cs[..|cs| - 1], i);
    } else {
      Units(cs[i + 2].end - cs[i + 2].start);
      Units(cs[i + 2].start - cs[i + 1].start);
    }
  }

  lemma ZeroSum()
    ensures Sum([]) == 0.0 && Millis(0) == 0.0 && Micros(0) == 0.0
  {
  }

  /** The period sum telescopes to the last start minus the start of cycle 1. */
  lemma {:induction false} PeriodsTelescope(cs: seq<Cycle>)
    requires |cs| >= 2
    ensures Sum(Periods(cs)) == Millis(cs[|cs| - 1].start - cs[1].start)
    ensures 1_000_000.0 * Sum(Periods(cs)) == (cs[|cs| - 1].start - cs[1].start) as real
    decreases |cs|
  {
    hide Micros, Millis, Sum;
    Units(cs[|cs| - 1].start - cs[1].start);
    if |cs| == 2 {
      ZeroSum();
    } else {
      var front := cs[..|cs| - 1];
      PeriodsTelescope(front);
      SumAppend(Periods(front), Millis(cs[|cs| - 1].start - cs[|cs| - 2].start));
      ScaleDifference(cs[|cs| - 1].start, cs[|cs| - 2].start, cs[1].start);
    }
  }

  /** From a start to the next start it takes at least the runtime in between: up to its last sample,
      the runtime sum (in microseconds) stays below the time from cycle 2 to the last start. */
  lemma {:induction false} RuntimesFit(cs: seq<Cycle>)
    requires |cs| >= 3 && Monotone(cs)
    ensures Sum(Runtimes(cs[..|cs| - 1])) <= Micros(cs[|cs| - 1].start - cs[2].start)
    decreases |cs|
  {
    hide Micros, Millis;
    var front := cs[..|cs| - 1];
    if |cs| == 3 {
      ZeroSum();
      assert Runtimes(front) == [];
    } else {
      var last := front[|front| - 1];
      RuntimesFit(front);
      SumAppend(Runtimes(front[..|front| - 1]), Micros(last.end - last.start));
      ScaleDifference(cs[|cs| - 1].start, last.start, cs[2].start);
      ScaleDifference(last.end - last.start, cs[|cs| - 1].start - last.start, 0);
    }
  }

  lemma AllButLastRuntime(cs: seq<Cycle>)
    requires |cs| >= 3
    ensures |Runtimes(cs)| == |cs| - 2 && Runtimes(cs)[..|cs| - 3] == Runtimes(cs[..|cs| - 1])
  {
    hide Micros;
    SampleCounts(cs[..|cs| - 1]);
  }

  /** In microseconds, the runtime sum without its last sample is at most the period sum without its
      first. */
  lemma {:induction false} RuntimesBelowPeriods(cs: seq<Cycle>)
    requires |cs| >= 3 && Monotone(cs)
    ensures var runtimes, periods := Runtimes(cs), Periods(cs);
            && |runtimes| == |periods| == |cs| - 2
            && Sum(runtimes[..|runtimes| - 1]) <= 1000.0 * (Sum(periods) - periods[0])
            && 1_000_000.0 * (Sum(periods) - periods[0]) == (cs[|cs| - 1].start - cs[2].start) as real
  {
    hide Micros, Millis, Sum, Periods, Runtimes;
    SampleCounts(cs);
    RuntimesFit(cs);
    PeriodsTelescope(cs);
    FirstPeriod(cs);
    AllButLastRuntime(cs);
    ScaleDifference(cs[|cs| - 1].start, cs[2].start, cs[1].start);
    ScaleDifference(cs[|cs| - 1].start - cs[2].start, 0, 0);
    SampleAt(cs, 0);
  }

  lemma {:induction false} FirstPeriod(cs: seq<Cycle>)
    requires |cs| >= 3
    ensures |Periods(cs)| == |cs| - 2 && Periods(cs)[0] == Millis(cs[2].start - cs[1].start)
    decreases |cs|
  {
    hide Micros, Millis;
    SampleCounts(cs);
    if |cs| > 3 {
      FirstPeriod(cs[..|cs| - 1]);
    }
  }

  /** The mean period is the time from cycle 1 to the last start divided by the samples. */
  lemma {:induction false} MeanPeriod(cs: seq<Cycle>)
    requires |cs| >= 3
    ensures |Periods(cs)| == |cs| - 2
    ensures 1_000_000.0 * (Mean(Periods(cs)) * (|cs| - 2) as real) == (cs[|cs| - 1].start - cs[1].start) as real
  {
    hide Micros, Millis, Sum, Periods, Runtimes, Mean;
    SampleCounts(cs);
    PeriodsTelescope(cs);
    MeanTimesCount(Periods(cs));
  }

  lemma MonotoneAppend(cs: seq<Cycle>, c: Cycle)
    requires Monotone(cs) && c.start <= c.end && (cs != [] ==> cs[|cs| - 1].end <= c.start)
    ensures Monotone(cs + [c])
  {
  }

  lemma FewCycles(cs: seq<Cycle>)
    requires |cs| <= 2
    ensures Runtimes(cs) == [] && Periods(cs) == []
  {
  }

  lemma LastSamples(cs: seq<Cycle>, front: seq<Cycle>, last: Cycle, previous: Cycle)
    requires |cs| > 2 && cs[..|cs| - 1] == front && cs[|cs| - 1] == last && cs[|cs| - 2] == previous
    ensures Runtimes(cs) == Runtimes(front) + [Micros(last.end - last.start)]
    ensures Periods(cs) == Periods(front) + [Millis(last.start - previous.start)]
  {
    hide Micros, Millis;
  }

  lemma OneMoreCycle(cs: seq<Cycle>, c: Cycle)
    requires |cs| > 1
    ensures Runtimes(cs + [c]) == Runtimes(cs) + [Micros(c.end - c.start)]
    ensures Periods(cs + [c]) == Periods(cs) + [Millis(c.start - cs[|cs| - 1].start)]
  {
    hide *;
    LastSamples(cs + [c], cs, c, cs[|cs| - 1]);
  }

  /** The statistics part of execute_fromthread. */
  class Timer {
    var count: nat        // m_count
    var lastStart: nat    // m_laststart
    var lastRuntime: nat  // m_lastruntime
    const runtime: StatTool
    const period: StatTool
    ghost var cycles: seq<Cycle>

    ghost predicate Valid()
      reads this, runtime, period
    {
      && runtime != period && runtime.Valid() && period.Valid()
      && count == |cycles| && Monotone(cycles)
      && (cycles == [] ==> lastStart == 0)
      && (cycles != [] ==> lastStart == cycles[|cycles| - 1].start)
      && runtime.samples == Runtimes(cycles) && period.samples == Periods(cycles)
    }

    constructor ()
      ensures Valid() && cycles == [] && fresh(runtime) && fresh(period)
    {
      count, lastStart, lastRuntime, cycles := 0, 0, 0, [];
      runtime := new StatTool();
      period := new StatTool();
    }

    /** The end of one turn of the loop: start and end of MainTask are known. */
    method Record(startRun: nat, end: nat)
      requires Valid() && startRun <= end
      requires cycles != [] ==> cycles[|cycles| - 1].end <= startRun
      modifies this, runtime, period
      ensures Valid() && cycles == old(cycles) + [Cycle(startRun, end)]
      ensures lastRuntime == end - startRun
    {
      hide StatTool.Valid, Monotone, Runtimes, Periods, Micros, Millis;
      ghost var c := Cycle(startRun, end);
      MonotoneAppend(cycles, c);
      lastRuntime := end - startRun;
      if count > 1 {
        OneMoreCycle(cycles, c);
        var gap := startRun - lastStart;
        runtime.Calc(Micros(lastRuntime));
        period.Calc(Millis(gap));
      } else {
        FewCycles(cycles);
        FewCycles(cycles + [c]);
      }
      count := count + 1;
      lastStart := startRun;
      cycles := cycles + [c];
    }
  }
}

/**
 Finding the traces in a capture and adding up their energy: the four-state machine of
 mc1208fs-plus/dump_watts_ddr3.c, against an offline segmentation of the whole capture.
 Channel 3 carries the serial port's DTR line, channels 0 and 1 what power is computed from.
 */
module TraceMachine {
  import opened Quantities

  /** The channels of one frame that the program uses, in volts. */
  datatype Frame = Frame(amps: Quantity, volts: Quantity, dtr: Quantity)
  {
    predicate High() { dtr.MoreThan(4.0) }

    predicate Low() { dtr.LessThan(-4.0) }

    function Watts(): Quantity {
      amps.Over(300.0).Over(0.00333).Times(volts)
    }

    /** What a tick adds to an energy in joules. */
    function Joules(rate: int): Quantity
      requires rate != 0
    {
      Watts().Over(rate as real)
    }
  }

  datatype State = None | DtrStart | DtrStop | InTrace

  /** What is printed, with tick counts in place of seconds. */
  datatype Line =
    | Starting(trace: nat, tick: nat)
    | Ending(trace: nat, tick: nat, elapsed: nat, joules: Quantity, averageWatts: Quantity)
    | Summary(averageJoules: Quantity, averageWatts: Quantity)

  function Threshold(rate: int): (threshold: nat)
    ensures threshold >= 1
    ensures rate >= 1000 ==> 500 * threshold <= rate < 500 * (threshold + 1)
    ensures rate < 1000 ==> threshold == 1
  {
    if rate < 500 then 1 else rate / 500
  }

  /** Energy of the ticks [from, end). */
  function Energy(frames: seq<Frame>, rate: int, from: nat, end: nat): Quantity
    requires from <= end <= |frames| && rate != 0
    decreases end
  {
    if from == end then ZERO
    else Energy(frames, rate, from, end - 1).Plus(frames[end - 1].Joules(rate))
  }

  // ---------- power and energy in numbers ----------

  /** What the DTR line says of a tick: beyond 4 volts either way, and a NaN nothing. */
  lemma HighAndLow(f: Frame)
    ensures f.High() <==> f.dtr.Is? && f.dtr.value > 4.0
    ensures f.Low() <==> f.dtr.Is? && f.dtr.value < -4.0
  {
  }

  /** The shunt's voltage over its 0.00333 ohms and the gain of 300, times the supply's. */
  lemma WattsInNumbers(f: Frame, rate: int)
    requires rate != 0
    ensures f.Watts().Is? <==> f.amps.Is? && f.volts.Is?
    ensures f.Joules(rate).Is? <==> f.amps.Is? && f.volts.Is?
    ensures f.Watts().Is? ==>
              && f.Watts().value * (300.0 * 0.00333) == f.amps.value * f.volts.value
              && f.Joules(rate).value * rate as real == f.Watts().value
  {
    if f.amps.Is? && f.volts.Is? {
      Quotients(f.amps.value, f.volts.value, f.Watts().value, rate as real);
    }
  }

  lemma Quotients(a: real, v: real, watts: real, rate: real)
    requires watts == a / 300.0 / 0.00333 * v && rate != 0.0
    ensures watts * (300.0 * 0.00333) == a * v
    ensures watts / rate * rate == watts
  {
    var amps := a / 300.0 / 0.00333;
    assert amps * (300.0 * 0.00333) == a;
    assert amps * v * (300.0 * 0.00333) == amps * (300.0 * 0.00333) * v;
  }

  /** No NaN on the channels that power is computed from. */
  predicate Known(frames: seq<Frame>, from: nat, end: nat)
    requires from <= end <= |frames|
  {
    forall i :: from <= i < end ==> frames[i].amps.Is? && frames[i].volts.Is?
  }

  /** The products of the two channels, summed over ticks. */
  function Products(frames: seq<Frame>, from: nat, end: nat): real
    requires from <= end <= |frames| && Known(frames, from, end)
    decreases end
  {
    if from == end then 0.0
    else Products(frames, from, end - 1) + frames[end - 1].amps.value * frames[end - 1].volts.value
  }

  /** An energy is there exactly when no NaN is among its ticks, and then it is their products to scale. */
  lemma {:induction false} EnergyInNumbers(frames: seq<Frame>, rate: int, from: nat, end: nat)
    requires from <= end <= |frames| && rate != 0
    ensures Energy(frames, rate, from, end).Is? <==> Known(frames, from, end)
    ensures Known(frames, from, end) ==>
              (Energy(frames, rate, from, end).value * (rate as real * (300.0 * 0.00333))
               == Products(frames, from, end))
    decreases end
  {
    if from < end {
      EnergyInNumbers(frames, rate, from, end - 1);
      WattsInNumbers(frames[end - 1], rate);
      assert Known(frames, from, end) <==>
        Known(frames, from, end - 1) && frames[end - 1].amps.Is? && frames[end - 1].volts.Is?;
      if Known(frames, from, end) {
        AddScaled(Energy(frames, rate, from, end - 1).value, frames[end - 1].Joules(rate).value, rate as real,
                  300.0 * 0.00333);
      }
    }
  }

  lemma AddScaled(e: real, j: real, rate: real, scale: real)
    ensures (e + j) * (rate * scale) == e * (rate * scale) + j * rate * scale
  {
  }

  /** Steady channels: the energy is their product times the elapsed time. */
  lemma SteadyEnergy(frames: seq<Frame>, rate: int, from: nat, end: nat, a: real, v: real)
    requires from <= end <= |frames| && rate != 0
    requires forall i :: from <= i < end ==> frames[i].amps == Is(a) && frames[i].volts == Is(v)
    ensures var e := Energy(frames, rate, from, end);
            e.Is? && e.value * (rate as real * (300.0 * 0.00333)) == (end - from) as real * (a * v)
  {
    EnergyInNumbers(frames, rate, from, end);
    SteadyProducts(frames, from, end, a, v);
  }

  lemma {:induction false} SteadyProducts(frames: seq<Frame>, from: nat, end: nat, a: real, v: real)
    requires from <= end <= |frames|
    requires forall i :: from <= i < end ==> frames[i].amps == Is(a) && frames[i].volts == Is(v)
    ensures Known(frames, from, end) && Products(frames, from, end) == (end - from) as real * (a * v)
    decreases end
  {
    if from < end {
      SteadyProducts(frames, from, end - 1, a, v);
      assert (end - from) as real == (end - 1 - from) as real + 1.0;
    }
  }

  // ---------- the offline segmentation ----------

  /** The tick of the n-th high sample at or after `from`, or the capture's length. */
  function NthHigh(frames: seq<Frame>, from: nat, n: nat): (tick: nat)
    requires from <= |frames|
    ensures from <= tick <= |frames|
    decreases |frames| - from
  {
    if from == |frames| then from
    else if !frames[from].High() then NthHigh(frames, from + 1, n)
    else if n <= 1 then from
    else NthHigh(frames, from + 1, n - 1)
  }

  /** The tick of the first low sample at or after `from`, or the capture's length. */
  function FirstLow(frames: seq<Frame>, from: nat): (tick: nat)
    requires from <= |frames|
    ensures from <= tick <= |frames|
    decreases |frames| - from
  {
    if from == |frames| || frames[from].Low() then from else FirstLow(frames, from + 1)
  }

  /** An interval of ticks [start, end). */
  datatype Trace = Trace(start: nat, end: nat)
  {
    function Ticks(): nat {
      if start <= end then end - start else 0
    }
  }

  /** The closed traces of a capture, and the start of one still open at its end. */
  datatype Traces = Traces(closed: seq<Trace>, open: seq<nat>)

  /** Looking, from a tick on, for the highs that announce a trace. */
  function FromIdle(frames: seq<Frame>, threshold: nat, from: nat, need: nat): Traces
    requires from <= |frames|
    decreases |frames| - from, 3
  {
    var armed := NthHigh(frames, from, need);
    if armed == |frames| then Traces([], []) else FromArmed(frames, threshold, armed + 1)
  }

  /** Looking for the low sample that starts it. */
  function FromArmed(frames: seq<Frame>, threshold: nat, from: nat): Traces
    requires from <= |frames|
    decreases |frames| - from, 2
  {
    var start := FirstLow(frames, from);
    if start == |frames| then Traces([], []) else FromStart(frames, threshold, start, start + 1, threshold + 1)
  }

  /** Looking for the highs that end it. */
  function FromStart(frames: seq<Frame>, threshold: nat, start: nat, from: nat, need: nat): Traces
    requires start <= from <= |frames|
    decreases |frames| - from, 1
  {
    var end := NthHigh(frames, from, need);
    if end == |frames| then Traces([], [start])
    else
      var later := FromEnd(frames, threshold, end + 1);
      later.(closed := [Trace(start, end)] + later.closed)
  }

  /** Looking for the low sample after which the next trace can be announced. */
  function FromEnd(frames: seq<Frame>, threshold: nat, from: nat): Traces
    requires from <= |frames|
    decreases |frames| - from, 0
  {
    var released := FirstLow(frames, from);
    if released == |frames| then Traces([], [])
    else FromIdle(frames, threshold, released + 1, threshold + 1)
  }

  function Segmentation(frames: seq<Frame>, threshold: nat): Traces {
    FromIdle(frames, threshold, 0, threshold + 1)
  }

  // ---------- what the segmentation is ----------

  /** High samples among the ticks [from, end). */
  function Highs(frames: seq<Frame>, from: nat, end: nat): nat
    requires from <= end <= |frames|
    decreases end - from
  {
    if from == end then 0
    else (if frames[from].High() then 1 else 0) + Highs(frames, from + 1, end)
  }

  lemma {:induction false} NthHighIs(frames: seq<Frame>, from: nat, n: nat)
    requires from <= |frames| && n >= 1
    ensures var tick := NthHigh(frames, from, n);
            if tick == |frames| then Highs(frames, from, tick) < n
            else frames[tick].High() && Highs(frames, from, tick) == n - 1
    decreases |frames| - from
  {
    if from < |frames| {
      if !frames[from].High() {
        NthHighIs(frames, from + 1, n);
      } else if n > 1 {
        NthHighIs(frames, from + 1, n - 1);
      }
    }
  }

  /** Only one tick is the n-th high. */
  lemma {:induction false} NthHighUnique(frames: seq<Frame>, from: nat, n: nat, tick: nat)
    requires from <= tick < |frames| && n >= 1
    requires frames[tick].High() && Highs(frames, from, tick) == n - 1
    ensures NthHigh(frames, from, n) == tick
    decreases |frames| - from
  {
    if from < tick {
      if frames[from].High() {
        NthHighUnique(frames, from + 1, n - 1, tick);
      } else {
        NthHighUnique(frames, from + 1, n, tick);
      }
    }
  }

  /** No sample among the ticks [from, end) is low. */
  ghost predicate NoLow(frames: seq<Frame>, from: nat, end: nat) {
    forall i :: from <= i < end && i < |frames| ==> !frames[i].Low()
  }

  lemma {:induction false} FirstLowIs(frames: seq<Frame>, from: nat)
    requires from <= |frames|
    ensures var tick := FirstLow(frames, from);
            NoLow(frames, from, tick) && (tick < |frames| ==> frames[tick].Low())
    decreases |frames| - from
  {
    if from < |frames| && !frames[from].Low() {
      FirstLowIs(frames, from + 1);
    }
  }

  lemma FirstLowUnique(frames: seq<Frame>, from: nat, tick: nat)
    requires from <= tick < |frames| && frames[tick].Low() && NoLow(frames, from, tick)
    ensures FirstLow(frames, from) == tick
  {
    FirstLowIs(frames, from);
  }

  /** The threshold+1-th high from a tick on; the start is the first low after it. */
  ghost predicate StartsAt(frames: seq<Frame>, threshold: nat, from: nat, armed: nat, start: nat) {
    && from <= armed < start < |frames|
    && frames[armed].High() && Highs(frames, from, armed) == threshold
    && frames[start].Low() && NoLow(frames, armed + 1, start)
  }

  /** The end is the threshold+1-th high after the start. */
  ghost predicate EndsAt(frames: seq<Frame>, threshold: nat, start: nat, end: nat) {
    && start < end < |frames|
    && frames[end].High() && Highs(frames, start + 1, end) == threshold
  }

  ghost predicate IsTrace(frames: seq<Frame>, threshold: nat, from: nat, t: Trace) {
    && EndsAt(frames, threshold, t.start, t.end)
    && exists armed :: StartsAt(frames, threshold, from, armed, t.start)
  }

  /** After a trace, the tick from which the next is looked for. */
  function Released(frames: seq<Frame>, t: Trace): nat
    requires t.end < |frames|
  {
    FirstLow(frames, t.end + 1) + 1
  }

  /** Closed traces one after the other from a tick on, and nothing missed after the last. */
  ghost predicate Segmented(frames: seq<Frame>, threshold: nat, from: nat, traces: Traces)
    decreases |traces.closed|
  {
    if traces.closed == [] then
      && (forall t: Trace {:trigger IsTrace(frames, threshold, from, t)} :: !IsTrace(frames, threshold, from, t))
      && |traces.open| <= 1
      && (forall start: nat ::
            start in traces.open <==> exists armed :: StartsAt(frames, threshold, from, armed, start))
    else
      var t := traces.closed[0];
      && IsTrace(frames, threshold, from, t)
      && t.Ticks() >= threshold + 1
      && Segmented(frames, threshold, Released(frames, t), traces.(closed := traces.closed[1..]))
  }

  lemma StartsAtUnique(frames: seq<Frame>, threshold: nat, from: nat, armed: nat, start: nat)
    requires StartsAt(frames, threshold, from, armed, start)
    ensures armed == NthHigh(frames, from, threshold + 1) && start == FirstLow(frames, armed + 1)
  {
    NthHighUnique(frames, from, threshold + 1, armed);
    FirstLowUnique(frames, armed + 1, start);
  }

  lemma NothingStarts(frames: seq<Frame>, threshold: nat, from: nat)
    requires from > |frames| || NthHigh(frames, from, threshold + 1) == |frames|
             || FirstLow(frames, NthHigh(frames, from, threshold + 1) + 1) == |frames|
    ensures Segmented(frames, threshold, from, Traces([], []))
  {
    forall armed, start: nat
      ensures !StartsAt(frames, threshold, from, armed, start)
    {
      if StartsAt(frames, threshold, from, armed, start) {
        StartsAtUnique(frames, threshold, from, armed, start);
      }
    }
  }

  lemma {:induction false} HighsAtMost(frames: seq<Frame>, from: nat, end: nat)
    requires from <= end <= |frames|
    ensures Highs(frames, from, end) <= end - from
    decreases end - from
  {
    if from < end {
      HighsAtMost(frames, from + 1, end);
    }
  }

  /** Where the search for a start ends. */
  lemma StartFound(frames: seq<Frame>, threshold: nat, from: nat) returns (armed: nat, start: nat)
    requires from <= |frames|
    ensures armed <= |frames| && start <= |frames|
    ensures if start == |frames|
            then FromIdle(frames, threshold, from, threshold + 1) == Traces([], [])
                 && Segmented(frames, threshold, from, Traces([], []))
            else StartsAt(frames, threshold, from, armed, start)
                 && (FromIdle(frames, threshold, from, threshold + 1)
                     == FromStart(frames, threshold, start, start + 1, threshold + 1))
  {
    armed := NthHigh(frames, from, threshold + 1);
    NthHighIs(frames, from, threshold + 1);
    if armed == |frames| {
      start := armed;
      NothingStarts(frames, threshold, from);
    } else {
      start := FirstLow(frames, armed + 1);
      FirstLowIs(frames, armed + 1);
      assert FromIdle(frames, threshold, from, threshold + 1) == FromArmed(frames, threshold, armed + 1);
      if start == |frames| {
        NothingStarts(frames, threshold, from);
      }
    }
  }

  lemma EndFound(frames: seq<Frame>, threshold: nat, start: nat) returns (end: nat)
    requires start < |frames|
    ensures start < end <= |frames| && end == NthHigh(frames, start + 1, threshold + 1)
    ensures end < |frames| ==>
              var later := FromEnd(frames, threshold, end + 1);
              && EndsAt(frames, threshold, start, end)
              && (FromStart(frames, threshold, start, start + 1, threshold + 1)
                  == later.(closed := [Trace(start, end)] + later.closed))
    ensures end == |frames| ==>
              FromStart(frames, threshold, start, start + 1, threshold + 1) == Traces([], [start])
  {
    end := NthHigh(frames, start + 1, threshold + 1);
    NthHighIs(frames, start + 1, threshold + 1);
  }

  lemma {:induction false} FromIdleSegments(frames: seq<Frame>, threshold: nat, from: nat)
    requires from <= |frames|
    ensures Segmented(frames, threshold, from, FromIdle(frames, threshold, from, threshold + 1))
    decreases |frames| - from
  {
    var armed, start := StartFound(frames, threshold, from);
    if start < |frames| {
      var end := EndFound(frames, threshold, start);
      if end == |frames| {
        OpenAtEnd(frames, threshold, from, armed, start);
      } else {
        FromEndSegments(frames, threshold, Trace(start, end));
        ClosedFirst(frames, threshold, from, armed, Trace(start, end), FromEnd(frames, threshold, end + 1));
      }
    }
  }

  lemma {:induction false} FromEndSegments(frames: seq<Frame>, threshold: nat, t: Trace)
    requires t.end < |frames|
    ensures Segmented(frames, threshold, Released(frames, t), FromEnd(frames, threshold, t.end + 1))
    decreases |frames| - t.end
  {
    if FirstLow(frames, t.end + 1) == |frames| {
      NothingStarts(frames, threshold, Released(frames, t));
    } else {
      FromIdleSegments(frames, threshold, Released(frames, t));
    }
  }

  lemma ClosedFirst(frames: seq<Frame>, threshold: nat, from: nat, armed: nat, t: Trace, later: Traces)
    requires StartsAt(frames, threshold, from, armed, t.start) && EndsAt(frames, threshold, t.start, t.end)
    requires Segmented(frames, threshold, Released(frames, t), later)
    ensures Segmented(frames, threshold, from, later.(closed := [t] + later.closed))
  {
    HighsAtMost(frames, t.start + 1, t.end);
    assert IsTrace(frames, threshold, from, t);
    assert later.(closed := ([t] + later.closed)[1..]) == later;
  }

  lemma OpenAtEnd(frames: seq<Frame>, threshold: nat, from: nat, armed: nat, start: nat)
    requires StartsAt(frames, threshold, from, armed, start)
    requires NthHigh(frames, start + 1, threshold + 1) == |frames|
    ensures Segmented(frames, threshold, from, Traces([], [start]))
  {
    forall armed', start': nat | StartsAt(frames, threshold, from, armed', start')
      ensures start' == start
    {
      StartsAtUnique(frames, threshold, from, armed, start);
      StartsAtUnique(frames, threshold, from, armed', start');
    }
    forall t: Trace
      ensures !IsTrace(frames, threshold, from, t)
    {
      if IsTrace(frames, threshold, from, t) {
        NthHighUnique(frames, t.start + 1, threshold + 1, t.end);
      }
    }
  }

  /**
   The segmentation of a capture: each closed trace runs from the first low sample after
   threshold+1 highs to the threshold+1-th high after that, lasts at least threshold+1
   ticks, and no trace is missed.
   */
  lemma SegmentationIsComplete(frames: seq<Frame>, threshold: nat)
    ensures Segmented(frames, threshold, 0, Segmentation(frames, threshold))
  {
    FromIdleSegments(frames, threshold, 0);
  }

  /** The next trace starts at least threshold+3 ticks after one ends. */
  lemma TracesAreSpaced(frames: seq<Frame>, threshold: nat, t: Trace, armed: nat, start: nat)
    requires t.end < |frames|
    requires StartsAt(frames, threshold, Released(frames, t), armed, start)
    ensures start >= t.end + threshold + 3
  {
    HighsAtMost(frames, Released(frames, t), armed);
  }

  // ---------- what is reported ----------

  /** The lines printed for closed traces, numbered from 0. */
  function ReportClosed(frames: seq<Frame>, rate: int, closed: seq<Trace>): seq<Line>
    requires rate != 0
  {
    if closed == [] then []
    else
      var n := |closed| - 1;
      ReportClosed(frames, rate, closed[..n])
      + [Starting(n, closed[n].start)]
      + [EndingOf(frames, rate, n, closed[n])]
  }

  /** The lines printed when a trace closes. */
  function EndingOf(frames: seq<Frame>, rate: int, n: nat, t: Trace): Line
    requires rate != 0
  {
    var joules := TraceEnergy(frames, rate, t);
    Ending(n, t.end, t.Ticks(), joules, joules.Over(Seconds(rate, t.Ticks())))
  }

  function Seconds(rate: int, ticks: nat): real
    requires rate != 0
  {
    ticks as real / rate as real
  }

  /** The last line. */
  function SummaryOf(frames: seq<Frame>, rate: int, closed: seq<Trace>): Line
    requires rate != 0
  {
    var total := ClosedEnergy(frames, rate, closed);
    Summary(total.Over(|closed| as real), total.Over(ClosedTime(rate, closed)))
  }

  /** All the lines: a trace still open has only been announced. */
  function Report(frames: seq<Frame>, rate: int, traces: Traces): seq<Line>
    requires rate != 0
  {
    ReportClosed(frames, rate, traces.closed)
    + if traces.open == [] then [] else [Starting(|traces.closed|, traces.open[0])]
  }

  function TraceEnergy(frames: seq<Frame>, rate: int, t: Trace): Quantity
    requires rate != 0
  {
    if t.start <= t.end <= |frames| then Energy(frames, rate, t.start, t.end) else ZERO
  }

  /** The energy and the time of the closed traces. */
  function ClosedEnergy(frames: seq<Frame>, rate: int, closed: seq<Trace>): Quantity
    requires rate != 0
  {
    if closed == [] then ZERO
    else ClosedEnergy(frames, rate, closed[..|closed| - 1]).Plus(TraceEnergy(frames, rate, closed[|closed| - 1]))
  }

  function ClosedTime(rate: int, closed: seq<Trace>): real
    requires rate != 0
  {
    if closed == [] then 0.0
    else ClosedTime(rate, closed[..|closed| - 1]) + Seconds(rate, closed[|closed| - 1].Ticks())
  }

  /** Closing the trace that has been open since `start`. */
  lemma CloseTrace(frames: seq<Frame>, rate: int, closed: seq<Trace>, t: Trace)
    requires rate != 0
    ensures Report(frames, rate, Traces(closed + [t], []))
            == Report(frames, rate, Traces(closed, [t.start]))
               + [EndingOf(frames, rate, |closed|, t)]
    ensures ClosedEnergy(frames, rate, closed + [t])
            == ClosedEnergy(frames, rate, closed).Plus(TraceEnergy(frames, rate, t))
    ensures ClosedTime(rate, closed + [t]) == ClosedTime(rate, closed) + Seconds(rate, t.Ticks())
  {
    assert (closed + [t])[..|closed|] == closed;
  }

  /** A tick that belongs to some trace, closed or open. */
  predicate Inside(traces: Traces, tick: nat) {
    || (exists k :: 0 <= k < |traces.closed| && traces.closed[k].start <= tick < traces.closed[k].end)
    || (exists k :: 0 <= k < |traces.open| && traces.open[k] <= tick)
  }

  /** The energy of the first n ticks, counting only those inside a trace. */
  function EnergyInside(frames: seq<Frame>, rate: int, traces: Traces, n: nat): Quantity
    requires n <= |frames| && rate != 0
  {
    if n == 0 then ZERO
    else
      var before := EnergyInside(frames, rate, traces, n - 1);
      if Inside(traces, n - 1) then before.Plus(frames[n - 1].Joules(rate)) else before
  }

  // ---------- the lines ----------

  lemma {:induction false} ClosedLines(frames: seq<Frame>, rate: int, closed: seq<Trace>)
    requires rate != 0
    ensures var lines := ReportClosed(frames, rate, closed);
            && |lines| == 2 * |closed|
            && forall k :: 0 <= k < |closed| ==>
                 && lines[2 * k] == Starting(k, closed[k].start)
                 && lines[2 * k + 1] == EndingOf(frames, rate, k, closed[k])
  {
    if closed != [] {
      ClosedLines(frames, rate, closed[..|closed| - 1]);
    }
  }

  /**
   Trace k is announced on line 2k at the tick it starts, and reported on the next with its
   end, its ticks and the energy of exactly those; an open trace is announced last.
   */
  lemma LinesAreTraces(frames: seq<Frame>, rate: int, threshold: nat)
    requires rate != 0
    ensures var traces := Segmentation(frames, threshold);
            var lines, n := Report(frames, rate, traces), |traces.closed|;
            && |lines| == 2 * n + |traces.open| <= 2 * n + 1
            && (traces.open != [] ==> lines[2 * n] == Starting(n, traces.open[0]))
            && (forall k :: 0 <= k < n ==>
                  var t, line := traces.closed[k], lines[2 * k + 1];
                  && t.start < t.end < |frames|
                  && lines[2 * k] == Starting(k, t.start)
                  && line.Ending? && line.trace == k && line.tick == t.end && line.elapsed == t.end - t.start
                  && line.joules == Energy(frames, rate, t.start, t.end))
  {
    var traces := Segmentation(frames, threshold);
    SegmentationIsComplete(frames, threshold);
    OneOpen(frames, threshold, 0, traces);
    ClosedLines(frames, rate, traces.closed);
    forall k | 0 <= k < |traces.closed|
      ensures traces.closed[k].start < traces.closed[k].end < |frames|
    {
      TracesLast(frames, threshold, 0, traces, k);
    }
  }

  lemma {:induction false} OneOpen(frames: seq<Frame>, threshold: nat, from: nat, traces: Traces)
    requires Segmented(frames, threshold, from, traces)
    ensures |traces.open| <= 1
    decreases |traces.closed|
  {
    if traces.closed != [] {
      OneOpen(frames, threshold, Released(frames, traces.closed[0]), traces.(closed := traces.closed[1..]));
    }
  }

  // ---------- averages ----------

  /** A closed trace of a segmentation lasts at least threshold+1 ticks. */
  lemma {:induction false} TracesLast(frames: seq<Frame>, threshold: nat, from: nat, traces: Traces, k: nat)
    requires Segmented(frames, threshold, from, traces) && k < |traces.closed|
    ensures traces.closed[k].Ticks() >= threshold + 1 && traces.closed[k].end < |frames|
    decreases k
  {
    if k > 0 {
      TracesLast(frames, threshold, Released(frames, traces.closed[0]), traces.(closed := traces.closed[1..]), k - 1);
    }
  }

  /** Ticks in closed traces. */
  function TotalTicks(closed: seq<Trace>): nat {
    if closed == [] then 0
    else TotalTicks(closed[..|closed| - 1]) + closed[|closed| - 1].Ticks()
  }

  lemma {:induction false} ClosedTimeAdds(rate: int, closed: seq<Trace>)
    requires rate != 0 && forall k :: 0 <= k < |closed| ==> closed[k].Ticks() >= 1
    ensures ClosedTime(rate, closed) * rate as real == TotalTicks(closed) as real
    ensures TotalTicks(closed) >= |closed|
  {
    if closed != [] {
      var n := |closed| - 1;
      ClosedTimeAdds(rate, closed[..n]);
      SecondsPass(rate, closed[n].Ticks());
      AddScaled(ClosedTime(rate, closed[..n]), Seconds(rate, closed[n].Ticks()), rate as real, 1.0);
    }
  }

  /**
   Every average printed is one: that of a trace is over its own time and always there if
   its energy is, and those at the end are there exactly when a trace has closed and the
   energy of all that have is.
   */
  lemma AveragesExactly(frames: seq<Frame>, rate: int, threshold: nat)
    requires rate != 0
    ensures var closed := Segmentation(frames, threshold).closed;
            && (forall k :: 0 <= k < |closed| ==> Averaged(EndingOf(frames, rate, k, closed[k]), rate))
            && Summarised(SummaryOf(frames, rate, closed), ClosedEnergy(frames, rate, closed), rate, closed)
  {
    var closed := Segmentation(frames, threshold).closed;
    SegmentationIsComplete(frames, threshold);
    forall k | 0 <= k < |closed|
      ensures closed[k].Ticks() >= 1
    {
      TracesLast(frames, threshold, 0, Segmentation(frames, threshold), k);
    }
    forall k | 0 <= k < |closed|
      ensures Averaged(EndingOf(frames, rate, k, closed[k]), rate)
    {
      SecondsPass(rate, closed[k].Ticks());
      OverIsAverage(TraceEnergy(frames, rate, closed[k]), Seconds(rate, closed[k].Ticks()));
    }
    SummaryAverages(rate, closed, ClosedEnergy(frames, rate, closed));
  }

  /** A reported average is that of the reported energy over the reported time. */
  ghost predicate Averaged(line: Line, rate: int)
    requires rate != 0
  {
    line.Ending? && IsAverage(line.averageWatts, line.joules, Seconds(rate, line.elapsed))
  }

  /** The summary's averages are over the traces and over their ticks. */
  ghost predicate Summarised(last: Line, total: Quantity, rate: int, closed: seq<Trace>)
    requires rate != 0
  {
    var seconds := ClosedTime(rate, closed);
    && seconds * rate as real == TotalTicks(closed) as real
    && if closed == [] then last == Summary(NaN, NaN)
       else
         && last.Summary?
         && IsAverage(last.averageJoules, total, |closed| as real)
         && IsAverage(last.averageWatts, total, seconds)
  }

  lemma SummaryAverages(rate: int, closed: seq<Trace>, total: Quantity)
    requires rate != 0 && forall k :: 0 <= k < |closed| ==> closed[k].Ticks() >= 1
    ensures Summarised(Summary(total.Over(|closed| as real), total.Over(ClosedTime(rate, closed))), total, rate, closed)
  {
    ClosedTimeAdds(rate, closed);
    if closed != [] {
      OverIsAverage(total, |closed| as real);
      TimePasses(ClosedTime(rate, closed), rate as real, TotalTicks(closed) as real);
      OverIsAverage(total, ClosedTime(rate, closed));
    }
  }

  lemma TimePasses(seconds: real, rate: real, ticks: real)
    requires seconds * rate == ticks > 0.0
    ensures seconds != 0.0
  {
  }

  lemma SecondsPass(rate: int, ticks: nat)
    requires rate != 0 && ticks > 0
    ensures Seconds(rate, ticks) * rate as real == ticks as real && Seconds(rate, ticks) != 0.0
  {
    assert Seconds(rate, ticks) * rate as real == ticks as real;
  }

  // ---------- the machine ----------

  /** What the offline segmentation will still find, given where the machine is. */
  function Rest(frames: seq<Frame>, threshold: nat, state: State, timeInState: nat, start: nat, tick: nat): Traces
    requires start <= tick <= |frames| && timeInState <= threshold
  {
    match state
    case None => FromIdle(frames, threshold, tick, threshold + 1 - timeInState)
    case DtrStart => FromArmed(frames, threshold, tick)
    case InTrace => FromStart(frames, threshold, start, tick, threshold + 1 - timeInState)
    case DtrStop => FromEnd(frames, threshold, tick)
  }

  /** The machine's transition on one frame. */
  function Move(threshold: nat, state: State, timeInState: nat, points: Frame): (next: (State, nat))
    requires timeInState <= threshold
    ensures next.1 <= threshold
  {
    match state
    case None | InTrace =>
      if !points.High() then (state, timeInState)
      else if timeInState + 1 > threshold then (if state.None? then DtrStart else DtrStop, 0)
      else (state, timeInState + 1)
    case DtrStart => if points.Low() then (InTrace, 0) else (state, timeInState)
    case DtrStop => if points.Low() then (None, 0) else (state, timeInState)
  }

  /** The traces closed so far, then what the machine has still to find, are the segmentation. */
  ghost predicate Following(all: Traces, frames: seq<Frame>, threshold: nat, closed: seq<Trace>,
                            state: State, timeInState: nat, start: nat, tick: nat)
  {
    && start <= tick <= |frames| && timeInState <= threshold
    && (state.DtrStart? || state.DtrStop? ==> timeInState == 0)
    && (forall k :: 0 <= k < |closed| ==> closed[k].end < tick)
    && var rest := Rest(frames, threshold, state, timeInState, start, tick);
       all == Traces(closed + rest.closed, rest.open)
  }

  /** A transition takes one tick off what is still to be found. */
  lemma RestMoves(frames: seq<Frame>, threshold: nat, state: State, timeInState: nat, start: nat, tick: nat)
    requires start <= tick < |frames| && timeInState <= threshold
    requires state.DtrStart? || state.DtrStop? ==> timeInState == 0
    ensures var (state', timeInState') := Move(threshold, state, timeInState, frames[tick]);
            var start' := if state.DtrStart? && state'.InTrace? then tick else start;
            var before := Rest(frames, threshold, state, timeInState, start, tick);
            var after := Rest(frames, threshold, state', timeInState', start', tick + 1);
            before == if state.InTrace? && state'.DtrStop?
                      then after.(closed := [Trace(start, tick)] + after.closed)
                      else after
  {
  }

  /** The start of the trace the machine is in, and the traces it has closed, after a transition. */
  function NextStart(before: State, after: State, start: nat, tick: nat): nat {
    if before.DtrStart? && after.InTrace? then tick else start
  }

  function NextClosed(before: State, after: State, closed: seq<Trace>, start: nat, tick: nat): seq<Trace> {
    if before.InTrace? && after.DtrStop? then closed + [Trace(start, tick)] else closed
  }

  lemma FollowsOn(all: Traces, frames: seq<Frame>, threshold: nat, closed: seq<Trace>,
                  state: State, timeInState: nat, start: nat, tick: nat)
    requires Following(all, frames, threshold, closed, state, timeInState, start, tick) && tick < |frames|
    ensures var (after, timeInAfter) := Move(threshold, state, timeInState, frames[tick]);
            Following(all, frames, threshold, NextClosed(state, after, closed, start, tick), after, timeInAfter,
                      NextStart(state, after, start, tick), tick + 1)
  {
    RestMoves(frames, threshold, state, timeInState, start, tick);
    var (after, timeInAfter) := Move(threshold, state, timeInState, frames[tick]);
    if state.InTrace? && after.DtrStop? {
      var rest := Rest(frames, threshold, after, timeInAfter, start, tick + 1);
      assert closed + ([Trace(start, tick)] + rest.closed) == closed + [Trace(start, tick)] + rest.closed;
    }
  }

  /** Everything still to be found starts at or after a tick. */
  ghost predicate AllFrom(traces: Traces, tick: nat) {
    && (forall k :: 0 <= k < |traces.closed| ==> tick <= traces.closed[k].start)
    && (forall k :: 0 <= k < |traces.open| ==> tick <= traces.open[k])
  }

  lemma {:induction false} IdleFindsLater(frames: seq<Frame>, threshold: nat, from: nat, need: nat)
    requires from <= |frames|
    ensures AllFrom(FromIdle(frames, threshold, from, need), from)
    decreases |frames| - from, 1
  {
    var armed := NthHigh(frames, from, need);
    if armed < |frames| {
      ArmedFindsLater(frames, threshold, armed + 1);
    }
  }

  lemma {:induction false} ArmedFindsLater(frames: seq<Frame>, threshold: nat, from: nat)
    requires from <= |frames|
    ensures AllFrom(FromArmed(frames, threshold, from), from)
    decreases |frames| - from, 0
  {
    var start := FirstLow(frames, from);
    if start < |frames| {
      var end := NthHigh(frames, start + 1, threshold + 1);
      if end < |frames| {
        EndFindsLater(frames, threshold, end + 1);
      }
    }
  }

  lemma {:induction false} EndFindsLater(frames: seq<Frame>, threshold: nat, from: nat)
    requires from <= |frames|
    ensures AllFrom(FromEnd(frames, threshold, from), from)
    decreases |frames| - from, 2
  {
    var released := FirstLow(frames, from);
    if released < |frames| {
      IdleFindsLater(frames, threshold, released + 1, threshold + 1);
    }
  }

  /** The machine is in a trace exactly at the ticks the segmentation puts inside one. */
  lemma InsideNow(all: Traces, frames: seq<Frame>, rate: int, threshold: nat, closed: seq<Trace>,
                  state: State, timeInState: nat, start: nat, tick: nat)
    requires rate != 0 && tick < |frames|
    requires Following(all, frames, threshold, closed, state, timeInState, start, tick + 1) && start <= tick
    ensures Inside(all, tick) <==> state.InTrace?
    ensures EnergyInside(frames, rate, all, tick + 1)
            == if state.InTrace? then EnergyInside(frames, rate, all, tick).Plus(frames[tick].Joules(rate))
               else EnergyInside(frames, rate, all, tick)
  {
    var rest := Rest(frames, threshold, state, timeInState, start, tick + 1);
    match state {
      case None => IdleFindsLater(frames, threshold, tick + 1, threshold + 1 - timeInState);
      case DtrStart => ArmedFindsLater(frames, threshold, tick + 1);
      case DtrStop => EndFindsLater(frames, threshold, tick + 1);
      case InTrace =>
        if rest.closed != [] {
          assert all.closed[|closed|] == rest.closed[0];
        } else {
          assert all.open[0] == start;
        }
    }
    if !state.InTrace? {
      assert AllFrom(rest, tick + 1);
    }
  }

  /** The program's counters. */
  datatype Tally = Tally(printed: seq<Line>, trace: nat, totalJoules: Quantity, totalTime: real,
                         traceTicks: nat, traceJoules: Quantity)

  /** What the counters hold after some ticks, in a trace that began at `start` or in none. */
  ghost predicate Accounts(frames: seq<Frame>, rate: int, closed: seq<Trace>, start: nat, inTrace: bool,
                           ticks: nat, v: Tally)
  {
    && rate != 0 && start <= ticks <= |frames|
    && v.trace == |closed|
    && v.printed == Report(frames, rate, Traces(closed, if inTrace then [start] else []))
    && v.totalJoules == ClosedEnergy(frames, rate, closed)
    && v.totalTime == ClosedTime(rate, closed)
    && (inTrace ==> v.traceTicks == ticks - start && v.traceJoules == Energy(frames, rate, start, ticks))
  }

  /** What one frame does to the counters, given the transition it causes. */
  function Count(v: Tally, before: State, after: State, tick: nat, points: Frame, rate: int): Tally
    requires rate != 0
  {
    var w :=
      if before.DtrStart? && after.InTrace?
      then v.(printed := v.printed + [Starting(v.trace, tick)], traceTicks := 0, traceJoules := ZERO)
      else if before.InTrace? && after.DtrStop?
      then v.(printed := v.printed + [Ending(v.trace, tick, v.traceTicks, v.traceJoules,
                                             v.traceJoules.Over(Seconds(rate, v.traceTicks)))],
              totalJoules := v.totalJoules.Plus(v.traceJoules),
              totalTime := v.totalTime + Seconds(rate, v.traceTicks),
              trace := v.trace + 1)
      else v;
    if after.InTrace?
    then w.(traceTicks := w.traceTicks + 1, traceJoules := w.traceJoules.Plus(points.Joules(rate)))
    else w
  }

  /** The transitions the machine makes. */
  predicate Follows(before: State, after: State) {
    || before == after
    || (before.None? && after.DtrStart?) || (before.DtrStart? && after.InTrace?)
    || (before.InTrace? && after.DtrStop?) || (before.DtrStop? && after.None?)
  }

  /** A trace closes. */
  lemma AccountsClose(frames: seq<Frame>, rate: int, closed: seq<Trace>, start: nat, tick: nat, v: Tally)
    requires Accounts(frames, rate, closed, start, true, tick, v) && tick < |frames|
    ensures Accounts(frames, rate, closed + [Trace(start, tick)], start, false, tick + 1,
                     Count(v, InTrace, DtrStop, tick, frames[tick], rate))
  {
    var t := Trace(start, tick);
    assert t.Ticks() == v.traceTicks && TraceEnergy(frames, rate, t) == v.traceJoules;
    CloseTrace(frames, rate, closed, t);
  }

  /** A tick of a trace. */
  lemma AccountsInside(frames: seq<Frame>, rate: int, closed: seq<Trace>, start: nat, tick: nat, v: Tally)
    requires Accounts(frames, rate, closed, start, true, tick, v) && tick < |frames|
    ensures Accounts(frames, rate, closed, start, true, tick + 1,
                     Count(v, InTrace, InTrace, tick, frames[tick], rate))
  {
  }

  lemma AccountsOn(frames: seq<Frame>, rate: int, closed: seq<Trace>, start: nat, before: State, after: State,
                   tick: nat, v: Tally)
    requires Accounts(frames, rate, closed, start, before.InTrace?, tick, v) && tick < |frames|
    requires Follows(before, after)
    ensures Accounts(frames, rate, NextClosed(before, after, closed, start, tick),
                     NextStart(before, after, start, tick), after.InTrace?, tick + 1,
                     Count(v, before, after, tick, frames[tick], rate))
  {
    if before.InTrace? && after.DtrStop? {
      AccountsClose(frames, rate, closed, start, tick, v);
    } else if before.InTrace? {
      AccountsInside(frames, rate, closed, start, tick, v);
    }
  }

  /** Energy accounted for: that of the closed traces, and of the one the machine is in. */
  function Balance(v: Tally, state: State): Quantity {
    if state.InTrace? then v.totalJoules.Plus(v.traceJoules) else v.totalJoules
  }

  lemma BalanceMoves(v: Tally, before: State, after: State, tick: nat, points: Frame, rate: int)
    requires rate != 0 && Follows(before, after)
    ensures Balance(Count(v, before, after, tick, points, rate), after)
            == if after.InTrace? then Balance(v, before).Plus(points.Joules(rate)) else Balance(v, before)
  {
  }

  /** At the end of the capture only an open trace is left to be found. */
  lemma NothingLeft(all: Traces, frames: seq<Frame>, threshold: nat, closed: seq<Trace>,
                    state: State, timeInState: nat, start: nat)
    requires Following(all, frames, threshold, closed, state, timeInState, start, |frames|)
    ensures all == Traces(closed, if state.InTrace? then [start] else [])
  {
  }

  lemma NothingYet(frames: seq<Frame>, rate: int, threshold: nat)
    requires rate != 0
    ensures Following(Segmentation(frames, threshold), frames, threshold, [], None, 0, 0, 0)
    ensures Accounts(frames, rate, [], 0, false, 0, Tally([], 0, ZERO, 0.0, 0, ZERO))
  {
    var all := Segmentation(frames, threshold);
    assert [] + all.closed == all.closed;
  }

  /** The loop's body: the transition, and then the energy of a tick in a trace. */
  method TakeFrame(threshold: nat, rate: int, state: State, timeInState: nat, tick: nat, v: Tally, points: Frame)
    returns (after: State, timeInAfter: nat, w: Tally)
    requires rate != 0 && timeInState <= threshold
    ensures (after, timeInAfter) == Move(threshold, state, timeInState, points)
    ensures w == Count(v, state, after, tick, points, rate)
    ensures Follows(state, after)
  {
    after, timeInAfter, w := state, timeInState, v;
    if state == None {
      if points.High() {
        timeInAfter := timeInAfter + 1;
        if timeInAfter > threshold {
          after := DtrStart;
          timeInAfter := 0;
        }
      }
    } else if state == DtrStart {
      if points.Low() {
        after := InTrace;
        w := w.(printed := w.printed + [Starting(w.trace, tick)]);
        w := w.(traceTicks := 0);
        w := w.(traceJoules := ZERO);
        timeInAfter := 0;
      }
    } else if state == InTrace {
      if points.High() {
        timeInAfter := timeInAfter + 1;
        if timeInAfter > threshold {
          after := DtrStop;
          var average := w.traceJoules.Over(Seconds(rate, w.traceTicks));
          w := w.(printed := w.printed + [Ending(w.trace, tick, w.traceTicks, w.traceJoules, average)]);
          w := w.(totalJoules := w.totalJoules.Plus(w.traceJoules));
          w := w.(totalTime := w.totalTime + Seconds(rate, w.traceTicks));
          w := w.(trace := w.trace + 1);
          timeInAfter := 0;
        }
      }
    } else if state == DtrStop {
      if points.Low() {
        after := None;
        timeInAfter := 0;
      }
    }

    if after == InTrace {
      var watts := points.Watts();
      w := w.(traceJoules := w.traceJoules.Plus(watts.Over(rate as real)));
      w := w.(traceTicks := w.traceTicks + 1);
    }
  }

  /**
   The program's loop.  What it prints is the report of the offline segmentation, its
   totals are those of the closed traces, and with the open trace's energy they account
   for exactly the ticks inside a trace.
   */
  method DumpWatts(frames: seq<Frame>, rate: int) returns (v: Tally, state: State)
    requires rate != 0
    ensures var traces := Segmentation(frames, Threshold(rate));
            && v.printed == Report(frames, rate, traces) + [SummaryOf(frames, rate, traces.closed)]
            && v.trace == |traces.closed|
            && v.totalJoules == ClosedEnergy(frames, rate, traces.closed)
            && v.totalTime == ClosedTime(rate, traces.closed)
            && (state.InTrace? <==> traces.open != [])
            && (state.InTrace? ==> traces.open[0] <= |frames| && v.traceTicks == |frames| - traces.open[0])
            && Balance(v, state) == EnergyInside(frames, rate, traces, |frames|)
  {
    var threshold := Threshold(rate);
    ghost var all := Segmentation(frames, threshold);
    state := None;
    var timeInState := 0;
    var ticks := 0;
    v := Tally([], 0, ZERO, 0.0, 0, ZERO);
    ghost var start := 0;
    ghost var closed := [];
    NothingYet(frames, rate, threshold);
    while ticks < |frames|
      invariant Following(all, frames, threshold, closed, state, timeInState, start, ticks)
      invariant Accounts(frames, rate, closed, start, state.InTrace?, ticks, v)
      invariant Balance(v, state) == EnergyInside(frames, rate, all, ticks)
    {
      var points := frames[ticks];
      FollowsOn(all, frames, threshold, closed, state, timeInState, start, ticks);
      var after, timeInAfter, w := TakeFrame(threshold, rate, state, timeInState, ticks, v, points);
      AccountsOn(frames, rate, closed, start, state, after, ticks, v);
      BalanceMoves(v, state, after, ticks, points, rate);
      closed := NextClosed(state, after, closed, start, ticks);
      start := NextStart(state, after, start, ticks);
      InsideNow(all, frames, rate, threshold, closed, after, timeInAfter, start, ticks);
      state, timeInState, v := after, timeInAfter, w;
      ticks := ticks + 1;
    }
    NothingLeft(all, frames, threshold, closed, state, timeInState, start);
    var last := Summary(v.totalJoules.Over(v.trace as real), v.totalJoules.Over(v.totalTime));
    v := v.(printed := v.printed + [last]);
  }
}

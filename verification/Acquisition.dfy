/**
 Acquisition on the real buffer: mc1208fs-plus/poll_thread.c fills it, and the main loop
 of mc1208fs-plus/daqflex.c converts halves of it to volts.  The object keeps the run of
 events it has gone through, so that everything proved of runs holds of it.
 */
module Acquisition {
  import opened Words
  import opened Arithmetic
  import opened RingBuffer

  type Sample = n: int | 0 <= n < 0x1_0000

  // ---------- sizes ----------

  /** numPoints: about a second of samples, in whole 64-byte packets after halving. */
  function BufferPoints(channels: nat, rate: nat): (points: nat)
    ensures points % 128 == 0 && points >= 128 && points >= channels * rate
    ensures points > 128 ==> points - 128 < channels * rate
  {
    var points := if channels * rate < 128 then 128 else channels * rate;
    (points + 127) / 128 * 128
  }

  // ---------- conversion to volts ----------

  /** The range in use, one slope and offset a channel, and the converter's full count. */
  datatype Calibration = Calibration(
    minVoltage: real, maxVoltage: real, slopes: seq<real>, offsets: seq<real>, maxCounts: nat)
  {
    ghost predicate Valid(channels: nat) {
      maxCounts > 0 && channels > 0 && channels <= |slopes| && channels <= |offsets|
    }
  }

  function ScaleAndCalibrate(data: Sample, minVoltage: real, maxVoltage: real,
                             scale: real, offset: real, maxCounts: nat): real
    requires maxCounts > 0
  {
    var fullScale := maxVoltage - minVoltage;
    var calibrated := data as real * scale + offset;
    calibrated / maxCounts as real * fullScale + minVoltage
  }

  /** The conversion takes calibrated counts 0..maxCounts to the range, in proportion. */
  lemma ConversionSpansRange(data: Sample, minVoltage: real, maxVoltage: real,
                             scale: real, offset: real, maxCounts: nat)
    requires maxCounts > 0
    ensures var calibrated := data as real * scale + offset;
            var volts := ScaleAndCalibrate(data, minVoltage, maxVoltage, scale, offset, maxCounts);
            && (volts - minVoltage) * maxCounts as real == calibrated * (maxVoltage - minVoltage)
            && (calibrated == 0.0 ==> volts == minVoltage)
            && (calibrated == maxCounts as real ==> volts == maxVoltage)
  {
    var calibrated := data as real * scale + offset;
    var fraction := calibrated / maxCounts as real;
    assert fraction * maxCounts as real == calibrated;
    Rearrange(fraction, maxVoltage - minVoltage, maxCounts as real);
  }

  lemma Rearrange(a: real, b: real, c: real)
    ensures a * b * c == a * c * b
  {
  }

  /** A sample in volts, as the given channel is calibrated. */
  function Volts(data: Sample, cal: Calibration, channel: nat): real
    requires channel < |cal.slopes| && channel < |cal.offsets| && cal.maxCounts > 0
  {
    ScaleAndCalibrate(data, cal.minVoltage, cal.maxVoltage, cal.slopes[channel], cal.offsets[channel], cal.maxCounts)
  }

  /**
   A voltage lies above the minimum as far, in proportion to the range, as the count lies
   in the full count, once it is corrected with the slope and offset of its channel.
   */
  ghost predicate InVolts(volts: real, data: Sample, cal: Calibration, c: nat)
    requires c < |cal.slopes| && c < |cal.offsets|
  {
    (volts - cal.minVoltage) * cal.maxCounts as real
    == (data as real * cal.slopes[c] + cal.offsets[c]) * (cal.maxVoltage - cal.minVoltage)
  }

  /** Every channel is converted with its own slope and offset. */
  lemma VoltsOfChannel(data: Sample, cal: Calibration, c: nat, volts: real)
    requires c < |cal.slopes| && c < |cal.offsets| && cal.maxCounts > 0
    ensures volts == Volts(data, cal, c) <==>
            (volts - cal.minVoltage) * cal.maxCounts as real
            == (data as real * cal.slopes[c] + cal.offsets[c]) * (cal.maxVoltage - cal.minVoltage)
  {
    var v := Volts(data, cal, c);
    ConversionSpansRange(data, cal.minVoltage, cal.maxVoltage, cal.slopes[c], cal.offsets[c], cal.maxCounts);
    SameFactor(volts - cal.minVoltage, v - cal.minVoltage, cal.maxCounts as real);
  }

  lemma SameFactor(a: real, b: real, c: real)
    requires c != 0.0
    ensures a * c == b * c <==> a == b
  {
    assert (a - b) * c == a * c - b * c;
  }

  /** Consecutive samples in volts, taking the channels in turn. */
  ghost predicate AllInVolts(written: seq<real>, samples: seq<Sample>, cal: Calibration, channels: nat)
    requires cal.Valid(channels)
  {
    && |written| == |samples|
    && forall j :: 0 <= j < |written| ==> InVolts(written[j], samples[j], cal, j % channels)
  }

  lemma ConvertedInVolts(samples: seq<Sample>, cal: Calibration, channels: nat)
    requires cal.Valid(channels)
    ensures AllInVolts(Converted(samples, cal, channels), samples, cal, channels)
  {
    var written := Converted(samples, cal, channels);
    forall j | 0 <= j < |written|
      ensures InVolts(written[j], samples[j], cal, j % channels)
    {
      VoltsOfChannel(samples[j], cal, j % channels, written[j]);
    }
  }

  /** Samples in volts, taking the channels in turn. */
  ghost function Converted(samples: seq<Sample>, cal: Calibration, channels: nat): (r: seq<real>)
    requires cal.Valid(channels)
    ensures |r| == |samples|
  {
    seq(|samples|, j requires 0 <= j < |samples| => Volts(samples[j], cal, j % channels))
  }

  /** displayAndWriteData: convert `transferred` samples and finish the last round of channels. */
  method DisplayAndWriteData(data: array<Sample>, from: nat, transferred: nat, channels: nat, cal: Calibration)
    returns (written: seq<real>)
    requires cal.Valid(channels)
    requires from + WholeRounds(transferred, channels) <= data.Length
    ensures written == Converted(data[from..from + WholeRounds(transferred, channels)], cal, channels)
    ensures transferred <= |written| < transferred + channels && |written| % channels == 0
    ensures from + |written| <= data.Length
    ensures AllInVolts(written, data[from..from + |written|], cal, channels)
  {
    var currentData := 0;
    ghost var size := WholeRounds(transferred, channels);
    written := [];
    RemainderAfterMultiple(0, 0, channels);
    while currentData < transferred
      invariant currentData % channels == 0 && currentData < transferred + channels
      invariant currentData + WholeRounds(transferred - currentData, channels) == size
      invariant |written| == currentData
      invariant forall j :: 0 <= j < currentData ==> written[j] == Volts(data[from + j], cal, j % channels)
      decreases transferred - currentData
    {
      ghost var base := currentData;
      assert base + channels <= size;
      for currentChan := 0 to channels
        invariant currentData == base + currentChan
        invariant |written| == currentData
        invariant forall j :: 0 <= j < currentData ==> written[j] == Volts(data[from + j], cal, j % channels)
      {
        RemainderAfterMultiple(base, currentChan, channels);
        var fixedData := ScaleAndCalibrate(data[from + currentData], cal.minVoltage, cal.maxVoltage,
                                           cal.slopes[currentChan], cal.offsets[currentChan], cal.maxCounts);
        written := written + [fixedData];
        currentData := currentData + 1;
      }
      RemainderAfterMultiple(base, 0, channels);
    }
    ConvertedInVolts(data[from..from + size], cal, channels);
  }

  // ---------- the file ----------

  /** What has been stored: whole samples, and those an odd byte left mixed with what was there. */
  datatype Tape = Tape(samples: seq<Sample>, mixed: seq<Sample>)

  /** The sample a slot's mark stands for; the buffer is allocated as zeros. */
  ghost function ValueAt(tape: Tape, mark: int): Sample {
    if 0 <= mark < |tape.samples| then tape.samples[mark]
    else if mark <= -2 && -2 - mark < |tape.mixed| then tape.mixed[-2 - mark]
    else 0
  }

  ghost function Values(tape: Tape, window: seq<int>): (r: seq<Sample>)
    ensures |r| == |window|
  {
    seq(|window|, i requires 0 <= i < |window| => ValueAt(tape, window[i]))
  }

  /** What the displays have written. */
  ghost function FileOf(displays: seq<Display>, tape: Tape, cal: Calibration, channels: nat): seq<real>
    requires cal.Valid(channels)
  {
    if displays == [] then []
    else FileOf(displays[..|displays| - 1], tape, cal, channels)
         + Converted(Values(tape, displays[|displays| - 1].window), cal, channels)
  }

  lemma FileGrows(displays: seq<Display>, d: Display, tape: Tape, cal: Calibration, channels: nat)
    requires cal.Valid(channels)
    ensures FileOf(displays + [d], tape, cal, channels)
            == FileOf(displays, tape, cal, channels) + Converted(Values(tape, d.window), cal, channels)
  {
    assert (displays + [d])[..|displays|] == displays;
  }

  /** A tape with more on it. */
  ghost predicate Extends(longer: Tape, tape: Tape) {
    tape.samples <= longer.samples && tape.mixed <= longer.mixed
  }

  /** What is stored later does not change what has been written. */
  lemma {:induction false} FileStands(displays: seq<Display>, tape: Tape, longer: Tape,
                                      cal: Calibration, channels: nat)
    requires cal.Valid(channels) && Extends(longer, tape)
    requires forall k :: 0 <= k < |displays| ==> Within(displays[k].window, |tape.samples|, |tape.mixed|)
    ensures FileOf(displays, longer, cal, channels) == FileOf(displays, tape, cal, channels)
  {
    if displays != [] {
      FileStands(displays[..|displays| - 1], tape, longer, cal, channels);
      var window := displays[|displays| - 1].window;
      assert Within(window, |tape.samples|, |tape.mixed|);
      assert Values(longer, window) == Values(tape, window);
    }
  }

  // ---------- transfers in memory ----------

  /** A sample from its two bytes. */
  function FromBytes(low: Byte, high: Byte): Sample {
    var rest: int := low;
    0x100 * high + rest
  }

  /** The whole samples among the bytes of a transfer. */
  function Samples(bytes: seq<Byte>): (r: seq<Sample>)
    ensures |r| == |bytes| / 2
  {
    seq(|bytes| / 2, i requires 0 <= i < |bytes| / 2 => FromBytes(bytes[2 * i], bytes[2 * i + 1]))
  }

  /** An odd last byte replaces the low byte of the sample it falls on. */
  function Mixed(bytes: seq<Byte>, under: Sample): Sample
    requires |bytes| % 2 == 1
  {
    FromBytes(bytes[|bytes| - 1], under / 0x100)
  }

  function Transfer(bytes: seq<Byte>): Event {
    Arrive(|bytes| / 2, |bytes| % 2 == 1)
  }

  /** What a transfer adds to the tape; `under` is what was in the slot an odd byte falls on. */
  function AddedTo(tape: Tape, bytes: seq<Byte>, under: Sample): Tape {
    Tape(tape.samples + Samples(bytes), if |bytes| % 2 == 1 then tape.mixed + [Mixed(bytes, under)] else tape.mixed)
  }

  /** A buffer after a transfer to slot `at`. */
  ghost predicate StoredAt(before: seq<Sample>, after: seq<Sample>, at: nat, bytes: seq<Byte>)
    requires at + |bytes| / 2 < |before| == |after|
  {
    var n := |bytes| / 2;
    forall p :: 0 <= p < |after| ==>
      after[p] == if at <= p < at + n then Samples(bytes)[p - at]
                  else if |bytes| % 2 == 1 && p == at + n then Mixed(bytes, before[p])
                  else before[p]
  }

  /** The same in bytes: low byte first, and an odd last one in the low byte of what was there. */
  ghost predicate BytesAt(before: seq<Sample>, after: seq<Sample>, at: nat, bytes: seq<Byte>)
    requires at + |bytes| / 2 < |before| == |after|
  {
    var n := |bytes| / 2;
    && (forall i :: 0 <= i < n ==>
          after[at + i] % 0x100 == bytes[2 * i] && after[at + i] / 0x100 == bytes[2 * i + 1])
    && (|bytes| % 2 == 1 ==>
          after[at + n] % 0x100 == bytes[2 * n] && after[at + n] / 0x100 == before[at + n] / 0x100)
    && (forall p :: 0 <= p < |after| && !(at <= p < at + (|bytes| + 1) / 2) ==> after[p] == before[p])
  }

  lemma StoredInBytes(before: seq<Sample>, after: seq<Sample>, at: nat, bytes: seq<Byte>)
    requires at + |bytes| / 2 < |before| == |after| && StoredAt(before, after, at, bytes)
    ensures BytesAt(before, after, at, bytes)
  {
    forall i | 0 <= i < |bytes| / 2
      ensures after[at + i] % 0x100 == bytes[2 * i] && after[at + i] / 0x100 == bytes[2 * i + 1]
    {
      assert after[at + i] == Samples(bytes)[i];
    }
  }

  /** Slots and samples agree. */
  ghost predicate InMemory(data: seq<Sample>, slots: seq<int>, tape: Tape) {
    |data| == |slots| && forall p :: 0 <= p < |slots| ==> data[p] == ValueAt(tape, slots[p])
  }

  lemma StoredIsFilled(slots: seq<int>, before: seq<Sample>, after: seq<Sample>, at: nat, bytes: seq<Byte>, tape: Tape)
    requires InMemory(before, slots, tape) && Within(slots, |tape.samples|, |tape.mixed|)
    requires |after| == |before| && at + |bytes| / 2 < |before| && StoredAt(before, after, at, bytes)
    ensures var n := |bytes| / 2;
            InMemory(after, Fill(slots, at, n, |tape.samples|, |bytes| % 2 == 1, |tape.mixed|),
                     AddedTo(tape, bytes, before[at + n]))
  {
    var n, odd := |bytes| / 2, |bytes| % 2 == 1;
    var filled := Fill(slots, at, n, |tape.samples|, odd, |tape.mixed|);
    var longer := AddedTo(tape, bytes, before[at + n]);
    forall p | 0 <= p < |slots|
      ensures after[p] == ValueAt(longer, filled[p])
    {
      if !(at <= p < at + n) && !(odd && p == at + n) {
        assert filled[p] == slots[p];
        assert before[p] == ValueAt(tape, slots[p]);
      }
    }
  }

  /** A display reads the samples its window stands for. */
  lemma Reads(ring: Ring, data: seq<Sample>, tape: Tape, d: Display)
    requires Shaped(ring) && InMemory(data, ring.slots, tape) && d == Show(ring, d.half)
    ensures var from := HalfOffset(ring.quarter, d.half);
            var read := WholeRounds(2 * ring.quarter, ring.channels);
            && from + read <= |data| && |d.window| == read
            && data[from..from + read] == Values(tape, d.window)
  {
  }

  /** What the session's fields are to a state of the ring. */
  ghost predicate Agrees(ring: Ring, data: seq<Sample>, tape: Tape, output: seq<real>, cal: Calibration)
    requires cal.Valid(ring.channels)
  {
    && |tape.samples| == ring.received && |tape.mixed| == ring.odds
    && InMemory(data, ring.slots, tape)
    && output == FileOf(ring.displays, tape, cal, ring.channels)
  }

  /** A cleared buffer is the start of the ring. */
  lemma StartStored(quarter: nat, channels: nat, data: seq<Sample>, cal: Calibration)
    requires Sized(quarter, channels) && cal.Valid(channels)
    requires |data| == 8 * quarter && forall p :: 0 <= p < |data| ==> data[p] == 0
    ensures Legal(quarter, channels, [])
    ensures var ring := State(quarter, channels, []);
            ring.index == 0 && ring.lastHalfRead.SecondHalf? && Agrees(ring, data, Tape([], []), [], cal)
  {
  }

  /** Memory and file follow the ring through a transfer. */
  lemma TransferStored(ring: Ring, before: seq<Sample>, after: seq<Sample>, bytes: seq<Byte>, tape: Tape,
                       longer: Tape, output: seq<real>, cal: Calibration)
    requires Inv(ring) && Bounded(ring) && cal.Valid(ring.channels) && Enabled(ring, Transfer(bytes))
    requires Agrees(ring, before, tape, output, cal)
    requires |after| == |before| && StoredAt(before, after, ring.index, bytes)
    requires longer == AddedTo(tape, bytes, before[ring.index + |bytes| / 2])
    ensures Agrees(Step(ring, Transfer(bytes)), after, longer, output, cal)
  {
    StoredIsFilled(ring.slots, before, after, ring.index, bytes, tape);
    FileStands(ring.displays, tape, longer, cal, ring.channels);
  }

  /** A transfer of at most a quarter of the buffer can come, and has room. */
  lemma TransferFits(quarter: nat, channels: nat, run: seq<Event>, bytes: seq<Byte>)
    requires Sized(quarter, channels) && Legal(quarter, channels, run)
    requires State(quarter, channels, run).phase.Waiting? && |bytes| <= 2 * quarter
    ensures Enabled(State(quarter, channels, run), Transfer(bytes))
    ensures State(quarter, channels, run).index + |bytes| / 2 < 8 * quarter
  {
    RunInv(quarter, channels, run);
  }

  lemma TransferRun(quarter: nat, channels: nat, run: seq<Event>, ring: Ring, before: seq<Sample>, after: seq<Sample>,
                    bytes: seq<Byte>, tape: Tape, longer: Tape, output: seq<real>, cal: Calibration)
    requires Sized(quarter, channels) && Legal(quarter, channels, run) && cal.Valid(channels)
    requires ring == State(quarter, channels, run) && Enabled(ring, Transfer(bytes))
    requires Agrees(ring, before, tape, output, cal)
    requires |after| == |before| && ring.index + |bytes| / 2 < |before| && StoredAt(before, after, ring.index, bytes)
    requires longer == AddedTo(tape, bytes, before[ring.index + |bytes| / 2])
    ensures Legal(quarter, channels, run + [Transfer(bytes)])
    ensures var next := State(quarter, channels, run + [Transfer(bytes)]);
            && Agrees(next, after, longer, output, cal)
            && next.index == ring.index && next.lastHalfRead == ring.lastHalfRead
  {
    RunInv(quarter, channels, run);
    RunBounded(quarter, channels, run);
    Extend(quarter, channels, run, Transfer(bytes));
    TransferStored(ring, before, after, bytes, tape, longer, output, cal);
  }

  /** Memory and file follow the ring through a poll that displays a half. */
  lemma PollRun(quarter: nat, channels: nat, run: seq<Event>, ring: Ring, half: Half, data: seq<Sample>, tape: Tape,
                before: seq<real>, after: seq<real>, cal: Calibration)
    requires Sized(quarter, channels) && Legal(quarter, channels, run) && cal.Valid(channels)
    requires ring == State(quarter, channels, run) && Ready(ring) == [half]
    requires Agrees(ring, data, tape, before, cal)
    requires after == before + Converted(Values(tape, Show(ring, half).window), cal, channels)
    ensures Legal(quarter, channels, run + [Poll])
    ensures var next := State(quarter, channels, run + [Poll]);
            && Agrees(next, data, tape, after, cal)
            && next.index == ring.index && next.lastHalfRead == half
  {
    Extend(quarter, channels, run, Poll);
    FileGrows(ring.displays, Show(ring, half), tape, cal, channels);
  }

  // ---------- the buffer ----------

  /** The buffer and the main loop's variables, with the run of events they have gone through. */
  class Session {
    const numPoints: nat
    const channels: nat
    const cal: Calibration
    const data: array<Sample>
    var currIndex: nat
    var lastHalfRead: Half
    var output: seq<real>
    ghost const quarter: nat
    ghost var run: seq<Event>
    ghost var tape: Tape

    ghost predicate Valid()
      reads this, data
    {
      && numPoints == 4 * quarter
      && Sized(quarter, channels) && cal.Valid(channels)
      && Legal(quarter, channels, run)
      && data.Length == 2 * numPoints
      && Matches(State(quarter, channels, run))
    }

    /** The state of the ring, in memory. */
    ghost predicate Matches(ring: Ring)
      requires cal.Valid(ring.channels)
      reads this, data
    {
      && ring.index == currIndex && ring.lastHalfRead == lastHalfRead
      && Agrees(ring, data[..], tape, output, cal)
    }

    constructor (points: nat, ghost fourth: nat, numChannels: nat, calibration: Calibration)
      requires points == 4 * fourth && fourth >= 32
      requires 1 <= numChannels <= 16 && calibration.Valid(numChannels)
      ensures Valid() && fresh(data)
      ensures numPoints == points && channels == numChannels && cal == calibration
      ensures run == [] && tape == Tape([], [])
      ensures currIndex == 0 && lastHalfRead == SecondHalf && output == []
      ensures forall p :: 0 <= p < data.Length ==> data[p] == 0
    {
      numPoints, channels, cal := points, numChannels, calibration;
      quarter := fourth;
      data := new Sample[2 * points](_ => 0);
      currIndex := 0;
      lastHalfRead := SecondHalf;
      output := [];
      run := [];
      tape := Tape([], []);
      new;
      StartStored(quarter, channels, data[..], cal);
    }

    /** The bulk transfer stores what arrives, up to numPoints/2 bytes, from currIndex on. */
    method BulkTransfer(bytes: seq<Byte>)
      requires Valid() && State(quarter, channels, run).phase.Waiting? && |bytes| <= numPoints / 2
      modifies this`run, this`tape, data
      ensures Valid()
      ensures run == old(run) + [Transfer(bytes)]
      ensures currIndex + |bytes| / 2 < data.Length
      ensures tape == AddedTo(old(tape), bytes, old(data[currIndex + |bytes| / 2]))
      ensures StoredAt(old(data[..]), data[..], currIndex, bytes)
      ensures BytesAt(old(data[..]), data[..], currIndex, bytes)
    {
      ghost var before := data[..];
      StoreTransfer(bytes);
      StoredInBytes(before, data[..], currIndex, bytes);
    }

    /** The transfer, with the history that goes with it. */
    method StoreTransfer(bytes: seq<Byte>)
      requires Valid() && State(quarter, channels, run).phase.Waiting? && |bytes| <= numPoints / 2
      modifies this`run, this`tape, data
      ensures Valid()
      ensures run == old(run) + [Transfer(bytes)]
      ensures currIndex + |bytes| / 2 < data.Length
      ensures tape == AddedTo(old(tape), bytes, old(data[currIndex + |bytes| / 2]))
      ensures StoredAt(old(data[..]), data[..], currIndex, bytes)
    {
      assert numPoints / 2 == 2 * quarter;
      TransferFits(quarter, channels, run, bytes);
      ghost var earlier, ring, before, shorter := run, State(quarter, channels, run), data[..], tape;
      ghost var longer := AddedTo(tape, bytes, before[currIndex + |bytes| / 2]);
      run, tape := run + [Transfer(bytes)], longer;
      Store(bytes);
      TransferRun(quarter, channels, earlier, ring, before, data[..], bytes, shorter, longer, output, cal);
    }

    /** The bytes of a transfer, in memory. */
    method Store(bytes: seq<Byte>)
      requires currIndex + |bytes| / 2 < data.Length
      modifies data
      ensures StoredAt(old(data[..]), data[..], currIndex, bytes)
    {
      var n := |bytes| / 2;
      for i := 0 to n
        invariant forall p :: 0 <= p < data.Length ==>
                    data[p] == if currIndex <= p < currIndex + i then Samples(bytes)[p - currIndex] else old(data[p])
      {
        data[currIndex + i] := FromBytes(bytes[2 * i], bytes[2 * i + 1]);
      }
      if |bytes| % 2 == 1 {
        data[currIndex + n] := FromBytes(bytes[2 * n], data[currIndex + n] / 0x100);
      }
    }

    /** currIndex += transferred/2 */
    method CountTransferred(transferred: nat)
      requires Valid() && State(quarter, channels, run).phase == Arrived(transferred / 2)
      modifies this`run, this`currIndex
      ensures Valid() && run == old(run) + [Count]
      ensures currIndex == old(currIndex) + transferred / 2
    {
      Extend(quarter, channels, run, Count);
      currIndex := currIndex + transferred / 2;
      run := run + [Count];
    }

    /** The wrap, which reports a "Wrapping error!" when it leaves a remainder. */
    method WrapIndex() returns (wrappingError: bool)
      requires Valid() && State(quarter, channels, run).phase.Counted?
      modifies this`run, this`currIndex
      ensures Valid() && run == old(run) + [Wrap]
      ensures currIndex == old(currIndex) - (if old(currIndex) >= numPoints then numPoints else 0)
      ensures wrappingError <==> old(currIndex) > numPoints
      ensures var before, after := State(quarter, channels, old(run)), State(quarter, channels, run);
              wrappingError <==> after.lap > before.lap && after.lapStart != 0
    {
      Extend(quarter, channels, run, Wrap);
      wrappingError := false;
      if currIndex >= numPoints {
        currIndex := currIndex - numPoints;
        wrappingError := currIndex != 0;
      }
      run := run + [Wrap];
    }

    /** One pass of the main loop; `shown` is what it adds to the output. */
    method PollBuffer() returns (ghost shown: seq<real>)
      requires Valid()
      modifies this`run, this`lastHalfRead, this`output
      ensures Valid() && run == old(run) + [Poll]
      ensures currIndex > numPoints / 2 ==> lastHalfRead == FirstHalf
      ensures currIndex < numPoints / 2 ==> lastHalfRead == SecondHalf
      ensures currIndex == numPoints / 2 ==> lastHalfRead == old(lastHalfRead)
      ensures output == old(output) + shown
      ensures if lastHalfRead == old(lastHalfRead) then shown == []
              else Wrote(shown, if lastHalfRead == FirstHalf then 0 else numPoints / 2, numPoints / 2)
    {
      shown := [];
      ghost var earlier, ring := run, State(quarter, channels, run);
      run := run + [Poll];
      if currIndex > numPoints / 2 && lastHalfRead == SecondHalf {
        shown := ShowHalf(FirstHalf, 0, numPoints / 2, ring);
        PollRun(quarter, channels, earlier, ring, FirstHalf, data[..], tape, old(output), output, cal);
      } else if currIndex < numPoints / 2 && lastHalfRead == FirstHalf {
        shown := ShowHalf(SecondHalf, numPoints / 2, numPoints / 2, ring);
        PollRun(quarter, channels, earlier, ring, SecondHalf, data[..], tape, old(output), output, cal);
      } else {
        Extend(quarter, channels, earlier, Poll);
      }
    }

    /** The samples from a slot on in volts, as many as asked for and up to a whole round of channels. */
    ghost predicate Wrote(volts: seq<real>, from: nat, count: nat)
      requires cal.Valid(channels)
      reads data
    {
      && count <= |volts| < count + channels && |volts| % channels == 0
      && from + |volts| <= data.Length
      && AllInVolts(volts, data[from..from + |volts|], cal, channels)
    }

    /** Convert and write the half that is ready, and remember which it was. */
    method ShowHalf(half: Half, from: nat, count: nat, ghost ring: Ring) returns (volts: seq<real>)
      requires Shaped(ring) && cal.Valid(ring.channels) && ring.channels == channels
      requires from == HalfOffset(ring.quarter, half) && count == ring.Half()
      requires InMemory(data[..], ring.slots, tape)
      modifies this`lastHalfRead, this`output
      ensures lastHalfRead == half
      ensures output == old(output) + volts && Wrote(volts, from, count)
      ensures volts == Converted(Values(tape, Show(ring, half).window), cal, channels)
    {
      ghost var d, samples := Show(ring, half), data[..];
      Reads(ring, samples, tape, d);
      volts := DisplayAndWriteData(data, from, count, channels, cal);
      assert data[..] == samples;
      output := output + volts;
      lastHalfRead := half;
    }
  }

  /** What main sets up: a buffer of the size it computes. */
  method CreateSession(channels: nat, rate: nat, cal: Calibration) returns (session: Session)
    requires 1 <= channels <= 16 && cal.Valid(channels)
    ensures fresh(session) && fresh(session.data) && session.Valid()
    ensures session.numPoints == BufferPoints(channels, rate) && session.channels == channels && session.cal == cal
    ensures session.run == [] && session.tape == Tape([], [])
  {
    var points := BufferPoints(channels, rate);
    session := new Session(points, points / 128 * 32, channels, cal);
  }

  // ---------- what the file holds ----------

  lemma {:induction false} HalfStartAligned(quarter: nat, channels: nat, h: nat)
    requires channels > 0 && 2 * quarter % channels == 0
    ensures HalfStart(quarter, h) % channels == 0
  {
    if h == 0 {
      RemainderAfterMultiple(0, 0, channels);
    } else {
      HalfStartAligned(quarter, channels, h - 1);
      SameRemainder(HalfStart(quarter, h - 1), 2 * quarter, channels);
    }
  }

  /** Sample i of a half of the stream. */
  function SampleOf(quarter: nat, half: nat, i: nat): nat {
    HalfStart(quarter, half) + i
  }

  /** Counting channels from 0 in every half gives each sample the channel it was scanned on. */
  ghost predicate Aligned(quarter: nat, channels: nat)
    requires channels > 0
  {
    forall h: nat, i: nat :: i < 2 * quarter ==> SampleOf(quarter, h, i) % channels == i % channels
  }

  /** The channels are aligned exactly when their number divides half the buffer. */
  lemma ChannelsAlignedExactly(quarter: nat, channels: nat)
    requires Sized(quarter, channels)
    ensures Aligned(quarter, channels) <==> 2 * quarter % channels == 0
  {
    if 2 * quarter % channels == 0 {
      forall h: nat, i: nat | i < 2 * quarter
        ensures SampleOf(quarter, h, i) % channels == i % channels
      {
        HalfStartAligned(quarter, channels, h);
        SameRemainder(i, HalfStart(quarter, h), channels);
      }
    } else {
      assert HalfStart(quarter, 1) == HalfStart(quarter, 0) + 2 * quarter;
      RemainderAfterMultiple(0, 0, channels);
      assert SampleOf(quarter, 1, 0) % channels != 0 % channels;
    }
  }

  /** Three channels at 50 Hz: 256 points, and half 1 starts on channel 2, not 0. */
  lemma ThreeChannelsMisaligned()
    ensures BufferPoints(3, 50) == 256
    ensures SampleOf(64, 1, 0) % 3 == 2
    ensures !Aligned(64, 3)
  {
    assert HalfStart(64, 1) == HalfStart(64, 0) + 128;
    ChannelsAlignedExactly(64, 3);
  }

  /** Where display k's samples start in the file, w being written for each display. */
  function FileStart(w: nat, k: nat): nat {
    if k == 0 then 0 else FileStart(w, k - 1) + w
  }

  /** Sample i of display k is in the file, in volts as channel i modulo the channel count. */
  ghost predicate HoldsSample(file: seq<real>, quarter: nat, d: Display, k: nat, i: nat,
                              stream: seq<Sample>, cal: Calibration, channels: nat)
    requires cal.Valid(channels)
  {
    var place := FileStart(WholeRounds(2 * quarter, channels), k) + i;
    && place < |file|
    && HalfNumber(d) >= 0
    && var at := SampleOf(quarter, HalfNumber(d), i);
    && at < |stream|
    && file[place] == Volts(stream[at], cal, i % channels)
  }

  /** A file of whole halves, each filled up to a whole round of channels. */
  ghost predicate HoldsHalves(file: seq<real>, quarter: nat, displays: seq<Display>, stream: seq<Sample>,
                              cal: Calibration, channels: nat)
    requires cal.Valid(channels)
  {
    && |file| == FileStart(WholeRounds(2 * quarter, channels), |displays|)
    && forall k, i :: 0 <= k < |displays| && 0 <= i < 2 * quarter ==>
         HoldsSample(file, quarter, displays[k], k, i, stream, cal, channels)
  }

  lemma ConvertedHalf(quarter: nat, d: Display, tape: Tape, cal: Calibration, channels: nat, i: nat)
    requires cal.Valid(channels)
    requires IsHalf(quarter, d, HalfNumber(d)) && Within(d.window, |tape.samples|, |tape.mixed|)
    requires i < 2 * quarter
    ensures var at := SampleOf(quarter, HalfNumber(d), i);
            && at < |tape.samples|
            && Converted(Values(tape, d.window), cal, channels)[i] == Volts(tape.samples[at], cal, i % channels)
  {
    assert d.window[i] == SampleOf(quarter, HalfNumber(d), i);
  }

  lemma {:induction false} FileHoldsHalves(quarter: nat, displays: seq<Display>, tape: Tape,
                                           cal: Calibration, channels: nat)
    requires Sized(quarter, channels) && cal.Valid(channels)
    requires AllHalves(quarter, displays)
    requires forall k :: 0 <= k < |displays| ==>
               && |displays[k].window| == WholeRounds(2 * quarter, channels)
               && Within(displays[k].window, |tape.samples|, |tape.mixed|)
    ensures HoldsHalves(FileOf(displays, tape, cal, channels), quarter, displays, tape.samples, cal, channels)
  {
    if displays != [] {
      var n := |displays| - 1;
      var earlier, d := displays[..n], displays[n];
      FileHoldsHalves(quarter, earlier, tape, cal, channels);
      var before := FileOf(earlier, tape, cal, channels);
      var file := FileOf(displays, tape, cal, channels);
      forall k, i | 0 <= k < |displays| && 0 <= i < 2 * quarter
        ensures HoldsSample(file, quarter, displays[k], k, i, tape.samples, cal, channels)
      {
        if k < n {
          assert HoldsSample(before, quarter, earlier[k], k, i, tape.samples, cal, channels);
        } else {
          ConvertedHalf(quarter, d, tape, cal, channels, i);
        }
      }
    }
  }

  /**
   With full or empty transfers, however they interleave with polls, the file is the
   displayed halves of the received stream in order, for any channel count.  If that
   divides half the buffer, nothing stands between the halves and every sample is
   converted with the calibration of its own channel.
   */
  lemma FileOfFullTransfers(quarter: nat, channels: nat, run: seq<Event>, tape: Tape, cal: Calibration)
    requires Sized(quarter, channels) && Legal(quarter, channels, run) && FullOrEmpty(quarter, run)
    requires cal.Valid(channels)
    requires var s := State(quarter, channels, run); |tape.samples| == s.received && |tape.mixed| == s.odds
    ensures var displays := State(quarter, channels, run).displays;
            && InOrder(displays)
            && HoldsHalves(FileOf(displays, tape, cal, channels), quarter, displays, tape.samples, cal, channels)
    ensures 2 * quarter % channels == 0 ==>
              WholeRounds(2 * quarter, channels) == 2 * quarter && Aligned(quarter, channels)
  {
    FullTransfersShowWholeHalves(quarter, channels, run);
    RunBounded(quarter, channels, run);
    ChannelsAlignedExactly(quarter, channels);
    if 2 * quarter % channels == 0 {
      WholeRoundsExact(2 * quarter, channels);
    }
    FileHoldsHalves(quarter, State(quarter, channels, run).displays, tape, cal, channels);
  }

  /** With attentive polling as well, the file is the start of the stream in volts. */
  lemma FileOfAttentivePolling(quarter: nat, channels: nat, run: seq<Event>, tape: Tape, cal: Calibration)
    requires Sized(quarter, channels) && Legal(quarter, channels, run) && FullOrEmpty(quarter, run)
    requires Attentive(quarter, channels, run)
    requires 2 * quarter % channels == 0 && cal.Valid(channels)
    requires var s := State(quarter, channels, run); |tape.samples| == s.received && |tape.mixed| == s.odds
    ensures var file := FileOf(State(quarter, channels, run).displays, tape, cal, channels);
            && |file| <= |tape.samples| <= |file| + 4 * quarter
            && (|tape.samples| <= |file| + 3 * quarter <==> !NextHalfFull(State(quarter, channels, run)))
            && file == Converted(tape.samples[..|file|], cal, channels)
  {
    var displays := State(quarter, channels, run).displays;
    FileOfFullTransfers(quarter, channels, run, tape, cal);
    AttentivePollingLosesNothing(quarter, channels, run);
    AttentiveKeepsUp(quarter, channels, run);
    FileStartIsHalfStart(quarter, |displays|);
    HalvesAreAPrefix(FileOf(displays, tape, cal, channels), quarter, displays, tape.samples, cal, channels);
  }

  lemma {:induction false} FileStartIsHalfStart(quarter: nat, k: nat)
    ensures FileStart(2 * quarter, k) == HalfStart(quarter, k)
  {
    if k > 0 {
      FileStartIsHalfStart(quarter, k - 1);
    }
  }

  lemma HalvesAreAPrefix(file: seq<real>, quarter: nat, displays: seq<Display>, stream: seq<Sample>,
                         cal: Calibration, channels: nat)
    requires cal.Valid(channels) && Aligned(quarter, channels)
    requires WholeRounds(2 * quarter, channels) == 2 * quarter
    requires HoldsHalves(file, quarter, displays, stream, cal, channels) && |file| <= |stream|
    requires forall k :: 0 <= k < |displays| ==> HalfNumber(displays[k]) == k
    ensures file == Converted(stream[..|file|], cal, channels)
  {
    FileStartIsHalfStart(quarter, |displays|);
    forall j | 0 <= j < |file|
      ensures file[j] == Volts(stream[j], cal, j % channels)
    {
      var k := HalfContaining(quarter, |displays|, j);
      FileStartIsHalfStart(quarter, k);
      var i := j - HalfStart(quarter, k);
      assert HoldsSample(file, quarter, displays[k], k, i, stream, cal, channels);
      assert SampleOf(quarter, k, i) == j;
    }
  }

  lemma {:induction false} HalfContaining(quarter: nat, n: nat, j: nat) returns (k: nat)
    requires j < HalfStart(quarter, n)
    ensures k < n && HalfStart(quarter, k) <= j < HalfStart(quarter, k) + 2 * quarter
  {
    if j >= HalfStart(quarter, n - 1) {
      k := n - 1;
    } else {
      k := HalfContaining(quarter, n - 1, j);
    }
  }

  /** So for a session: with full or empty transfers, its output is whole halves of what it received. */
  lemma OutputHoldsHalves(session: Session)
    requires session.Valid() && FullOrEmpty(session.quarter, session.run)
    ensures var displays := State(session.quarter, session.channels, session.run).displays;
            && InOrder(displays)
            && HoldsHalves(session.output, session.quarter, displays, session.tape.samples, session.cal,
                           session.channels)
  {
    FileOfFullTransfers(session.quarter, session.channels, session.run, session.tape, session.cal);
  }

  /** And with attentive polling, its output is the start of what it received, in volts. */
  lemma OutputIsPrefix(session: Session)
    requires session.Valid() && FullOrEmpty(session.quarter, session.run)
    requires Attentive(session.quarter, session.channels, session.run)
    requires 2 * session.quarter % session.channels == 0
    ensures var n, stream := |session.output|, session.tape.samples;
            && n <= |stream| <= n + session.numPoints
            && session.output == Converted(stream[..n], session.cal, session.channels)
            && AllInVolts(session.output, stream[..n], session.cal, session.channels)
  {
    FileOfAttentivePolling(session.quarter, session.channels, session.run, session.tape, session.cal);
    ConvertedInVolts(session.tape.samples[..|session.output|], session.cal, session.channels);
  }
}

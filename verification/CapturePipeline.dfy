/**
 The programs on the capture file in a row: daqflex, debounce_serial, dump_watts_ddr3.
 Reading all frames before looking for traces comes to the same as the C program's single
 loop, since its reads do not depend on what it computes.
 */
module CapturePipeline {
  import opened Words
  import opened Floats
  import opened CaptureFile
  import opened Debounce
  import T = TraceMachine

  /** The channels dump_watts_ddr3 uses of a frame, decoded. */
  function Decoded(frame: seq<Float>): T.Frame
    requires |frame| == CHANNELS
  {
    T.Frame(Decode(frame[0]), Decode(frame[1]), Decode(frame[DTR]))
  }

  function AllDecoded(frames: seq<seq<Float>>): (decoded: seq<T.Frame>)
    requires Frames(frames, CHANNELS)
    ensures |decoded| == |frames|
  {
    seq(|frames|, i requires 0 <= i < |frames| => Decoded(frames[i]))
  }

  /** In a frame's own patterns: channel 3 is the DTR line, and power is that of channels 0 and 1. */
  lemma ChannelsUsed(frames: seq<seq<Float>>, i: nat, rate: int)
    requires Frames(frames, CHANNELS) && i < |frames| && rate != 0
    ensures var f, d := frames[i], AllDecoded(frames)[i];
            && (d.High() <==> !IsNan(f[3]) && Value(f[3]) > 4.0)
            && (d.Low() <==> !IsNan(f[3]) && Value(f[3]) < -4.0)
            && (d.Watts().Is? <==> !IsNan(f[0]) && !IsNan(f[1]))
            && (d.Watts().Is? ==> d.Watts().value * (300.0 * 0.00333) == Value(f[0]) * Value(f[1]))
  {
    T.WattsInNumbers(AllDecoded(frames)[i], rate);
  }

  /** dump_watts_ddr3 on a file: its traces are those of the frames the file holds. */
  method DumpCapture(file: seq<Byte>) returns (v: T.Tally, state: T.State)
    requires |file| >= HEADER_SIZE && HeaderOf(file).channels == CHANNELS && HeaderOf(file).rate != 0
    ensures var frames := ReadBody(file[HEADER_SIZE..], CHANNELS).frames;
            var rate := HeaderOf(file).rate;
            && Frames(frames, CHANNELS)
            && var decoded := AllDecoded(frames);
               var traces := T.Segmentation(decoded, T.Threshold(rate));
            && v.printed == T.Report(decoded, rate, traces) + [T.SummaryOf(decoded, rate, traces.closed)]
            && v.totalJoules == T.ClosedEnergy(decoded, rate, traces.closed)
            && T.Balance(v, state) == T.EnergyInside(decoded, rate, traces, |decoded|)
  {
    var fd := new Input(file);
    var header, temp64 := fd.ReadHeader();
    ghost var body := ReadBody(file[HEADER_SIZE..], CHANNELS);
    ReadsFrames(file[HEADER_SIZE..], CHANNELS);
    var frames: seq<seq<Float>> := [];
    var done := false;
    while !done
      invariant ReadSoFar(body, frames, done, fd.rest, CHANNELS)
      invariant Frames(frames, CHANNELS)
      decreases !done, |fd.rest|
    {
      ReadsOn(body, frames, fd.rest, CHANNELS);
      var points;
      points, done := fd.ReadFrame(CHANNELS);
      if !done {
        frames := frames + [points];
      }
    }
    v, state := T.DumpWatts(AllDecoded(frames), header.rate);
  }

  /** Reading the debounced file of a capture gives the filtered frames. */
  lemma DebouncedFrames(h: Header, frames: seq<seq<Float>>, stop: Time, uninitialised: seq<Float>)
    requires h.channels == CHANNELS && Frames(frames, CHANNELS) && frames != []
    ensures var file := CaptureBytes(h, Flatten(frames), stop);
            && |file| >= HEADER_SIZE && HeaderOf(file) == h
            && var debounced := Output(file, uninitialised);
            && |debounced| >= HEADER_SIZE && HeaderOf(debounced) == h
            && ReadBody(debounced[HEADER_SIZE..], CHANNELS).frames == Filter(frames)
  {
    OutputIsCapture(h, frames, stop, uninitialised);
    CaptureReadsBack(h, Filter(frames), stop);
  }

  lemma SameWatts(a: T.Frame, b: T.Frame)
    requires a.amps == b.amps && a.volts == b.volts
    ensures a.Watts() == b.Watts()
  {
  }

  /** What filtering does to a frame, decoded. */
  lemma DecodedFilter(frames: seq<seq<Float>>, i: nat)
    requires Frames(frames, CHANNELS) && i < |frames|
    ensures var before, after := Decoded(frames[i]), Decoded(Filtered(frames, i));
            && after.amps == before.amps && after.volts == before.volts
            && after.dtr == if Glitch(frames, i) then before.dtr.Minus() else before.dtr
  {
    NegateIsMinus(frames[i][DTR]);
  }

  /**
   Debouncing changes no power reading: every tick has the watts it had in the capture,
   and the DTR line its voltage, negated where the sample was a glitch.
   */
  lemma DebouncingKeepsPower(frames: seq<seq<Float>>, i: nat)
    requires Frames(frames, CHANNELS) && i < |frames|
    ensures Frames(Filter(frames), CHANNELS)
    ensures var before, after := AllDecoded(frames)[i], AllDecoded(Filter(frames))[i];
            && after.Watts() == before.Watts()
            && after.dtr == if Glitch(frames, i) then before.dtr.Minus() else before.dtr
  {
    FilterKeepsFrames(frames);
    DecodedFilter(frames, i);
    SameWatts(AllDecoded(frames)[i], AllDecoded(Filter(frames))[i]);
  }
}

/**
 mc1208fs-plus/debounce_serial.c: copies a four-channel capture, flipping the sign of
 samples of channel 3 that look like glitches.  The filter is streaming, one frame behind
 its input; here it is also a function of the whole capture.
 */
module Debounce {
  import opened Words
  import opened Quantities
  import opened Floats
  import opened CaptureFile
  import DumpBinary

  const CHANNELS := 4
  const DTR := 3

  // ---------- the filter on a whole capture ----------

  /** Channel 3 of frame i; before the first frame the program pretends to have seen -5. */
  function Line(frames: seq<seq<Float>>, i: int): Float
    requires Frames(frames, CHANNELS) && i < |frames|
  {
    if i < 0 then MINUS_FIVE else frames[i][DTR]
  }

  predicate Opposite(a: Float, b: Float) {
    (Positive(a) && Negative(b)) || (Negative(a) && Positive(b))
  }

  /** Frame i differs in sign from both its neighbours; the last frame has only one. */
  predicate Glitch(frames: seq<seq<Float>>, i: int)
    requires Frames(frames, CHANNELS)
  {
    && 0 <= i < |frames| - 1
    && Opposite(Line(frames, i - 1), Line(frames, i))
    && Opposite(Line(frames, i), Line(frames, i + 1))
  }

  function Filtered(frames: seq<seq<Float>>, i: nat): (frame: seq<Float>)
    requires Frames(frames, CHANNELS) && i < |frames|
    ensures |frame| == CHANNELS
  {
    if Glitch(frames, i) then frames[i][DTR := Negate(frames[i][DTR])] else frames[i]
  }

  function Filter(frames: seq<seq<Float>>): (filtered: seq<seq<Float>>)
    requires Frames(frames, CHANNELS)
    ensures |filtered| == |frames|
  {
    seq(|frames|, i requires 0 <= i < |frames| => Filtered(frames, i))
  }

  /** As many frames, only signs of channel 3 changed, so still a capture's worth of frames. */
  lemma FilterKeepsFrames(frames: seq<seq<Float>>)
    requires Frames(frames, CHANNELS)
    ensures Frames(Filter(frames), CHANNELS)
    ensures forall i, c :: 0 <= i < |frames| && 0 <= c < CHANNELS ==>
              Filter(frames)[i][c]
              == if c == DTR && Glitch(frames, i) then Negate(frames[i][c]) else frames[i][c]
    ensures frames != [] ==> Filter(frames)[|frames| - 1] == frames[|frames| - 1]
  {
    forall i | 0 <= i < |frames|
      ensures |Filter(frames)[i]| == CHANNELS
      ensures forall c :: 0 <= c < CHANNELS ==> !IsInf(Filter(frames)[i][c])
    {
      NegateIsMinus(frames[i][DTR]);
    }
  }

  /** Channel 3 as numbers; the program pretends to have seen -5 volts before the first frame. */
  function Sample(frames: seq<seq<Float>>, i: int): Quantity
    requires Frames(frames, CHANNELS) && i < |frames|
  {
    if i < 0 then Is(-5.0) else Decode(frames[i][3])
  }

  /**
   In volts: a frame but the last has channel 3 negated exactly when that sample and its
   neighbours are numbers and differ in sign, whatever their sizes; nothing else changes.
   */
  lemma FlipsExactly(frames: seq<seq<Float>>, i: nat)
    requires Frames(frames, CHANNELS) && i < |frames|
    ensures var a, b := Sample(frames, i - 1), Sample(frames, i);
            var c := if i + 1 < |frames| then Sample(frames, i + 1) else NaN;
            var flipped := a.Is? && b.Is? && c.Is? && a.value * b.value < 0.0 && b.value * c.value < 0.0;
            && Filter(frames)[i][..3] == frames[i][..3]
            && Filter(frames)[i][3] == (if flipped then Negate(frames[i][3]) else frames[i][3])
  {
    MinusFive();
    OppositeInNumbers(Line(frames, i - 1), Line(frames, i));
    if i + 1 < |frames| {
      OppositeInNumbers(Line(frames, i), Line(frames, i + 1));
    }
  }

  lemma OppositeInNumbers(a: Float, b: Float)
    ensures Opposite(a, b) <==> Decode(a).Is? && Decode(b).Is? && Decode(a).value * Decode(b).value < 0.0
  {
    if Decode(a).Is? && Decode(b).Is? {
      SignOfProduct(Decode(a).value, Decode(b).value);
    }
  }

  lemma SignOfProduct(a: real, b: real)
    ensures a * b < 0.0 <==> (a > 0.0 && b < 0.0) || (a < 0.0 && b > 0.0)
  {
  }

  // ---------- what the filter removes ----------

  /** A filtered sample keeps its sign, or swaps it where it was a glitch. */
  lemma FilteredSign(frames: seq<seq<Float>>, i: int)
    requires Frames(frames, CHANNELS) && i < |frames|
    ensures Frames(Filter(frames), CHANNELS)
    ensures var before, after := Line(frames, i), Line(Filter(frames), i);
            && (Positive(after) <==> if Glitch(frames, i) then Negative(before) else Positive(before))
            && (Negative(after) <==> if Glitch(frames, i) then Positive(before) else Negative(before))
  {
    FilterKeepsFrames(frames);
    if i >= 0 {
      NegateIsMinus(frames[i][DTR]);
      assert Line(Filter(frames), i) == Filter(frames)[i][DTR];
    }
  }

  /** Strict alternation of five samples around i, counting the pretended -5s before the first. */
  predicate FiveAlternate(frames: seq<seq<Float>>, i: int)
    requires Frames(frames, CHANNELS)
  {
    Glitch(frames, i - 1) && Glitch(frames, i) && Glitch(frames, i + 1)
  }

  /**
   An isolated sample can come out before the last only where three flips come in a row,
   and always does there: a single glitch, or two side by side, are removed.
   */
  lemma IsolatedExactlyInAlternation(frames: seq<seq<Float>>, i: nat)
    requires Frames(frames, CHANNELS) && i < |frames| - 1
    ensures Frames(Filter(frames), CHANNELS)
    ensures Glitch(Filter(frames), i) <==> FiveAlternate(frames, i)
  {
    FilteredSign(frames, i - 1);
    FilteredSign(frames, i);
    FilteredSign(frames, i + 1);
    MinusFive();
  }

  /** If no two neighbouring samples are flipped, no isolated sample is left before the last. */
  lemma LoneGlitchesVanish(frames: seq<seq<Float>>, i: nat)
    requires Frames(frames, CHANNELS) && i < |frames| - 1
    requires forall k :: 0 <= k < |frames| - 1 ==> !(Glitch(frames, k) && Glitch(frames, k + 1))
    ensures Frames(Filter(frames), CHANNELS) && !Glitch(Filter(frames), i)
  {
    IsolatedExactlyInAlternation(frames, i);
  }

  // ---------- the program ----------

  /**
   The file that comes out.  With no complete frame, the one frame written is whatever
   memory `prev` held.
   */
  function Output(file: seq<Byte>, prev: seq<Float>): seq<Byte>
    requires |file| >= HEADER_SIZE && HeaderOf(file).channels == CHANNELS
  {
    var body := ReadBody(file[HEADER_SIZE..], CHANNELS);
    ReadsFrames(file[HEADER_SIZE..], CHANNELS);
    file[..HEADER_SIZE]
    + SampleBytes(Flatten(if body.frames == [] then [prev] else Filter(body.frames)))
    + LittleEndian(INFINITY, 4) + StopTime(body.rest, file[12..20])
  }

  lemma {:induction false} ReadsFrames(rest: seq<Byte>, channels: nat)
    requires channels > 0
    ensures Frames(ReadBody(rest, channels).frames, channels)
    decreases |rest|
  {
    var p := ReadLine(rest, channels);
    if !p.done {
      ReadsFrames(p.rest, channels);
    }
  }

  lemma {:induction false} FlattenAppend(frames: seq<seq<Float>>, frame: seq<Float>)
    ensures Flatten(frames + [frame]) == Flatten(frames) + frame
  {
    if frames == [] {
      assert frames + [frame] == [frame];
    } else {
      FlattenAppend(frames[1..], frame);
      assert (frames + [frame])[1..] == frames[1..] + [frame];
    }
  }

  /** The frames already settled when all but the last have a successor. */
  function Settled(frames: seq<seq<Float>>): (r: seq<seq<Float>>)
    requires Frames(frames, CHANNELS)
  {
    if frames == [] then [] else Filter(frames)[..|frames| - 1]
  }

  /** The next frame settles the one before it. */
  lemma SettlesOne(frames: seq<seq<Float>>, points: seq<Float>)
    requires Frames(frames + [points], CHANNELS) && frames != []
    ensures Frames(frames, CHANNELS)
    ensures Settled(frames + [points]) == Settled(frames) + [Filtered(frames + [points], |frames| - 1)]
  {
    assert forall k :: 0 <= k < |frames| ==> (frames + [points])[k] == frames[k];
    assert forall k :: 0 <= k < |frames| - 1 ==> (Glitch(frames + [points], k) <==> Glitch(frames, k));
  }

  /** The loop's variables after some frames: the last is held back, the others are written. */
  ghost predicate Holding(frames: seq<seq<Float>>, uninitialised: seq<Float>, prev: seq<Float>, last: seq<Float>,
                          written: seq<Byte>)
  {
    && Frames(frames, CHANNELS)
    && last == [Line(frames, |frames| - 2), Line(frames, |frames| - 1)]
    && prev == (if frames == [] then uninitialised else frames[|frames| - 1])
    && written == SampleBytes(Flatten(Settled(frames)))
  }

  /** The held frame, flipped if the next one shows it to be a glitch. */
  function Fixed(held: seq<Float>, last: seq<Float>, next: Float): seq<Float>
    requires |held| == CHANNELS && |last| == 2
  {
    if Opposite(last[0], last[1]) && Opposite(last[1], next) then held[DTR := Negate(held[DTR])] else held
  }

  /** Reading the next frame settles the one before it, and what is written then. */
  lemma HoldNext(frames: seq<seq<Float>>, points: seq<Float>, uninitialised: seq<Float>, prev: seq<Float>,
                 last: seq<Float>, written: seq<Byte>)
    requires Holding(frames, uninitialised, prev, last, written) && |uninitialised| == CHANNELS
    requires |points| == CHANNELS && forall i :: 0 <= i < CHANNELS ==> !IsInf(points[i])
    ensures |prev| == CHANNELS
    ensures Holding(frames + [points], uninitialised, points, [last[1], points[DTR]],
                    if frames == [] then written else written + SampleBytes(Fixed(prev, last, points[DTR])))
  {
    var longer := frames + [points];
    FramesExtend(frames, points);
    if frames != [] {
      SettlesOne(frames, points);
      var fixed := Filtered(longer, |frames| - 1);
      FlattenAppend(Settled(frames), fixed);
      SampleBytesAppend(Flatten(Settled(frames)), fixed);
    }
  }

  lemma FramesExtend(frames: seq<seq<Float>>, points: seq<Float>)
    requires Frames(frames, CHANNELS)
    requires |points| == CHANNELS && forall i :: 0 <= i < CHANNELS ==> !IsInf(points[i])
    ensures Frames(frames + [points], CHANNELS)
    ensures forall i :: i < |frames| ==> Line(frames + [points], i) == Line(frames, i)
    ensures Line(frames + [points], |frames|) == points[DTR]
  {
    var longer := frames + [points];
    forall k | 0 <= k < |longer|
      ensures |longer[k]| == CHANNELS && forall i :: 0 <= i < CHANNELS ==> !IsInf(longer[k][i])
    {
      if k < |frames| {
        assert longer[k] == frames[k];
      }
    }
  }

  /** Flips the held frame's channel 3 if it differs in sign from the samples around it. */
  method Deglitch(held: seq<Float>, last: seq<Float>, next: Float) returns (prev: seq<Float>)
    requires |held| == CHANNELS && |last| == 2
    ensures prev == Fixed(held, last, next)
  {
    prev := held;
    if Negative(last[0]) && Positive(last[1]) && Negative(next) {
      prev := prev[DTR := Negate(prev[DTR])];
    } else if Positive(last[0]) && Negative(last[1]) && Positive(next) {
      prev := prev[DTR := Negate(prev[DTR])];
    }
  }

  /** The program's loop and the write after it; `uninitialised` is what prev holds at first. */
  method FilterFrames(fd: Input, uninitialised: seq<Float>) returns (written: seq<Byte>)
    requires |uninitialised| == CHANNELS
    modifies fd
    ensures var body := ReadBody(old(fd.rest), CHANNELS);
            && fd.rest == body.rest
            && Frames(body.frames, CHANNELS)
            && written == SampleBytes(Flatten(if body.frames == [] then [uninitialised] else Filter(body.frames)))
  {
    ghost var body := ReadBody(fd.rest, CHANNELS);
    var prev := uninitialised;
    var last := [MINUS_FIVE, MINUS_FIVE];
    var ticks := 0;
    var done := false;
    ghost var frames: seq<seq<Float>> := [];
    written := [];
    while !done
      invariant |frames| == ticks && Holding(frames, uninitialised, prev, last, written)
      invariant ReadSoFar(body, frames, done, fd.rest, CHANNELS)
      decreases !done, |fd.rest|
    {
      ReadsOn(body, frames, fd.rest, CHANNELS);
      var points;
      points, done := fd.ReadFrame(CHANNELS);
      if !done {
        HoldNext(frames, points, uninitialised, prev, last, written);
        prev := Deglitch(prev, last, points[DTR]);
        if ticks != 0 {
          written := written + SampleBytes(prev);
        }
        prev := points;
        last := [last[1], points[DTR]];
        ticks := ticks + 1;
        frames := frames + [points];
      }
    }
    LastWrite(frames, prev, uninitialised);
    written := written + SampleBytes(prev);
  }

  /** The whole program. */
  method Run(file: seq<Byte>, uninitialised: seq<Float>) returns (output: seq<Byte>)
    requires |file| >= HEADER_SIZE && HeaderOf(file).channels == CHANNELS
    requires |uninitialised| == CHANNELS
    ensures output == Output(file, uninitialised)
  {
    var fd := new Input(file);
    var header, temp64 := fd.ReadHeader();
    output := file[..HEADER_SIZE];
    var written := FilterFrames(fd, uninitialised);
    output := output + written;
    output := output + LittleEndian(INFINITY, 4);
    var stop := fd.ReadStop(temp64);
    output := output + stop;
  }

  /** The frame held back to the end is written as it was read. */
  lemma LastWrite(frames: seq<seq<Float>>, prev: seq<Float>, uninitialised: seq<Float>)
    requires Frames(frames, CHANNELS)
    requires prev == if frames == [] then uninitialised else frames[|frames| - 1]
    ensures SampleBytes(Flatten(Settled(frames))) + SampleBytes(prev)
            == SampleBytes(Flatten(if frames == [] then [uninitialised] else Filter(frames)))
  {
    if frames == [] {
      assert Flatten([prev]) == prev + Flatten([]) == prev;
    } else {
      FilterKeepsFrames(frames);
      assert Filter(frames) == Settled(frames) + [prev];
      FlattenAppend(Settled(frames), prev);
      SampleBytesAppend(Flatten(Settled(frames)), prev);
    }
  }

  /**
   A non-empty four-channel capture comes out as another well-formed capture: the same
   header, the same number of frames, filtered, and the same stop time.
   */
  lemma OutputIsCapture(h: Header, frames: seq<seq<Float>>, stop: Time, uninitialised: seq<Float>)
    requires h.channels == CHANNELS && Frames(frames, CHANNELS) && frames != []
    ensures var file := CaptureBytes(h, Flatten(frames), stop);
            && |file| >= HEADER_SIZE && HeaderOf(file) == h
            && Frames(Filter(frames), CHANNELS) && |Filter(frames)| == |frames|
            && Output(file, uninitialised) == CaptureBytes(h, Flatten(Filter(frames)), stop)
  {
    CaptureReadsBack(h, frames, stop);
    FilterKeepsFrames(frames);
    var file := CaptureBytes(h, Flatten(frames), stop);
    DumpBinary.StopReadsBack(stop, file[12..20]);
    assert file[..HEADER_SIZE] == HeaderBytes(h);
  }

  /** So dump_binary after debounce_serial shows the filtered frames of what daqflex wrote. */
  lemma DumpOfDebounced(h: Header, frames: seq<seq<Float>>, stop: Time, uninitialised: seq<Float>)
    requires h.channels == CHANNELS && Frames(frames, CHANNELS) && frames != []
    ensures var file := CaptureBytes(h, Flatten(frames), stop);
            && |file| >= HEADER_SIZE && HeaderOf(file) == h
            && var debounced := Output(file, uninitialised);
            && |debounced| >= HEADER_SIZE && HeaderOf(debounced).channels > 0
            && (DumpBinary.DumpOf(debounced)
                == DumpBinary.Dump(h, DumpBinary.Timed(Filter(frames)) + [DumpBinary.Line([], [])], stop))
  {
    OutputIsCapture(h, frames, stop, uninitialised);
    DumpBinary.DumpsWhatWasWritten(h, Filter(frames), stop);
  }
}

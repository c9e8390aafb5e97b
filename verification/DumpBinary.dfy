/** mc1208fs-plus/dump_binary.c: prints a capture file. */
module DumpBinary {
  import opened Words
  import opened Floats
  import opened CaptureFile

  /** The time, printed as ticks / rate in front of the first sample, and the samples. */
  datatype Line = Line(time: seq<nat>, samples: seq<Float>)

  /** What is printed: the header, a line a pass of the channel loop, and the stop time. */
  datatype Dump = Dump(header: Header, lines: seq<Line>, stop: Time)

  /** A line without samples shows no time. */
  function LineOf(tick: nat, samples: seq<Float>): Line {
    Line(if samples == [] then [] else [tick], samples)
  }

  function Timed(lines: seq<seq<Float>>): (timed: seq<Line>)
    ensures |timed| == |lines|
  {
    seq(|lines|, tick requires 0 <= tick < |lines| => LineOf(tick, lines[tick]))
  }

  lemma TimedAppend(lines: seq<seq<Float>>, line: seq<Float>)
    ensures Timed(lines + [line]) == Timed(lines) + [LineOf(|lines|, line)]
  {
  }

  /** A frame is never empty, so its line always shows the time. */
  lemma {:induction false} FullLines(rest: seq<Byte>, channels: nat)
    requires channels > 0
    ensures forall k :: 0 <= k < |ReadBody(rest, channels).frames| ==> ReadBody(rest, channels).frames[k] != []
    decreases |rest|
  {
    var p := ReadLine(rest, channels);
    if !p.done {
      FullLines(p.rest, channels);
    }
  }

  function TimeFrom(bytes: seq<Byte>): Time
    requires |bytes| == 16
  {
    Time(LongFrom(bytes[..8]), LongFrom(bytes[8..]))
  }

  function DumpOf(file: seq<Byte>): Dump
    requires |file| >= HEADER_SIZE && HeaderOf(file).channels > 0
  {
    var h := HeaderOf(file);
    var body := ReadBody(file[HEADER_SIZE..], h.channels);
    Dump(h, Timed(body.frames + [body.last]), TimeFrom(StopTime(body.rest, file[12..20])))
  }

  /** The program; points has room for eight channels. */
  method Print(file: seq<Byte>) returns (dump: Dump)
    requires |file| >= HEADER_SIZE && 1 <= HeaderOf(file).channels <= 8
    ensures dump == DumpOf(file)
    ensures var body := ReadBody(file[HEADER_SIZE..], HeaderOf(file).channels);
            && |dump.lines| == |body.frames| + 1
            && (forall k :: 0 <= k < |body.frames| ==> dump.lines[k] == Line([k], body.frames[k]))
            && dump.lines[|body.frames|] == Line(if body.last == [] then [] else [|body.frames|], body.last)
  {
    FullLines(file[HEADER_SIZE..], HeaderOf(file).channels);
    var fd := new Input(file);
    var header, temp64 := fd.ReadHeader();
    var channels: nat := header.channels;
    ghost var body := ReadBody(file[HEADER_SIZE..], channels);
    var lines: seq<Line> := [];
    var ticks := 0;
    ghost var frames, passes: seq<seq<Float>> := [], [];
    var done := false;
    while !done
      invariant ReadSoFar(body, frames, done, fd.rest, channels)
      invariant ticks == |passes| && lines == Timed(passes)
      invariant passes == if done then frames + [body.last] else frames
      decreases !done, |fd.rest|
    {
      ReadsOn(body, frames, fd.rest, channels);
      var points;
      points, done := fd.ReadFrame(channels);
      TimedAppend(passes, points);
      passes := passes + [points];
      lines := lines + [LineOf(ticks, points)];
      ticks := ticks + 1;
      frames := if done then frames else frames + [points];
    }
    var stop := fd.ReadStop(temp64);
    dump := Dump(header, lines, TimeFrom(stop));
  }

  /** Printing what daqflex wrote shows its header, its frames, an empty line, and its stop time. */
  lemma DumpsWhatWasWritten(h: Header, frames: seq<seq<Float>>, stop: Time)
    requires h.channels > 0 && Frames(frames, h.channels)
    ensures var file := CaptureBytes(h, Flatten(frames), stop);
            && |file| >= HEADER_SIZE && HeaderOf(file).channels > 0
            && DumpOf(file) == Dump(h, Timed(frames) + [Line([], [])], stop)
  {
    CaptureReadsBack(h, frames, stop);
    assert Timed(frames + [[]]) == Timed(frames) + [Line([], [])];
    StopReadsBack(stop, CaptureBytes(h, Flatten(frames), stop)[12..20]);
  }

  lemma StopReadsBack(stop: Time, variable: seq<Byte>)
    requires |variable| == 8
    ensures StopTime(TimeBytes(stop), variable) == TimeBytes(stop)
    ensures TimeFrom(TimeBytes(stop)) == stop
  {
    TimeReadsBack(stop);
  }
}

/**
 The capture file: what daqflex -b writes (mc1208fs-plus/daqflex.c) and how the programs
 that read it take it apart.  A header, the samples as floats, an infinity, and the
 stop time, all little-endian.
 */
module CaptureFile {
  import opened Words
  import opened Floats

  // ---------- little-endian integers ----------

  function LittleEndian(n: nat, width: nat): (bytes: seq<Byte>)
    ensures |bytes| == width
  {
    if width == 0 then [] else [n % 256] + LittleEndian(n / 256, width - 1)
  }

  function FromLittleEndian(bytes: seq<Byte>): (n: nat)
  {
    if bytes == [] then 0 else bytes[0] + 256 * FromLittleEndian(bytes[1..])
  }

  function Capacity(width: nat): nat {
    if width == 0 then 1 else 256 * Capacity(width - 1)
  }

  lemma {:induction false} LittleEndianRoundTrip(n: nat, width: nat)
    requires n < Capacity(width)
    ensures FromLittleEndian(LittleEndian(n, width)) == n
  {
    if width > 0 {
      LittleEndianRoundTrip(n / 256, width - 1);
      assert LittleEndian(n, width)[1..] == LittleEndian(n / 256, width - 1);
    }
  }

  lemma {:induction false} BelowCapacity(bytes: seq<Byte>)
    ensures FromLittleEndian(bytes) < Capacity(|bytes|)
  {
    if bytes != [] {
      BelowCapacity(bytes[1..]);
    }
  }

  lemma Capacities()
    ensures Capacity(4) == 0x1_0000_0000 && Capacity(8) == 0x1_0000_0000_0000_0000
  {
    assert Capacity(2) == 0x1_0000;
    assert Capacity(6) == 0x1_0000_0000_0000;
  }

  type Int32 = n: int | -0x8000_0000 <= n < 0x8000_0000
  type Int64 = n: int | -0x8000_0000_0000_0000 <= n < 0x8000_0000_0000_0000

  function IntBytes(n: Int32): (bytes: seq<Byte>) {
    LittleEndian(n % 0x1_0000_0000, 4)
  }

  function LongBytes(n: Int64): (bytes: seq<Byte>) {
    LittleEndian(n % 0x1_0000_0000_0000_0000, 8)
  }

  function IntFrom(bytes: seq<Byte>): Int32
    requires |bytes| == 4
  {
    BelowCapacity(bytes);
    Capacities();
    var n := FromLittleEndian(bytes);
    if n < 0x8000_0000 then n else n - 0x1_0000_0000
  }

  function LongFrom(bytes: seq<Byte>): Int64
    requires |bytes| == 8
  {
    BelowCapacity(bytes);
    Capacities();
    var n := FromLittleEndian(bytes);
    if n < 0x8000_0000_0000_0000 then n else n - 0x1_0000_0000_0000_0000
  }

  function FloatFrom(bytes: seq<Byte>): Float
    requires |bytes| == 4
  {
    BelowCapacity(bytes);
    Capacities();
    FromLittleEndian(bytes)
  }

  lemma ScalarRoundTrips()
    ensures forall n: Int32 :: IntFrom(IntBytes(n)) == n
    ensures forall n: Int64 :: LongFrom(LongBytes(n)) == n
    ensures forall f: Float :: FloatFrom(LittleEndian(f, 4)) == f
  {
    Capacities();
    forall n: Int32 {
      LittleEndianRoundTrip(n % 0x1_0000_0000, 4);
    }
    forall n: Int64
      ensures LongFrom(LongBytes(n)) == n
    {
      LittleEndianRoundTrip(n % 0x1_0000_0000_0000_0000, 8);
    }
    forall f: Float {
      LittleEndianRoundTrip(f, 4);
    }
  }

  // ---------- the bytes of a scalar ----------

  /** Four bytes of a number, lowest first; eight are those of its lower and its upper half. */
  lemma BytesOfNumber(n: nat)
    ensures LittleEndian(n, 4) == [n % 0x100, n / 0x100 % 0x100, n / 0x1_0000 % 0x100, n / 0x100_0000 % 0x100]
    ensures LittleEndian(n, 8) == LittleEndian(n, 4) + LittleEndian(n / 0x1_0000_0000, 4)
  {
    var a, b, c, d := n / 0x100, n / 0x1_0000, n / 0x100_0000, n / 0x1_0000_0000;
    FourBytes(n, a, b, c, d, 0);
    FourBytes(n, a, b, c, d, 4);
  }

  lemma FourBytes(n: nat, a: nat, b: nat, c: nat, d: nat, width: nat)
    requires a == n / 0x100 && b == a / 0x100 && c == b / 0x100 && d == c / 0x100
    ensures LittleEndian(n, width + 4)
            == [n % 0x100, a % 0x100, b % 0x100, c % 0x100] + LittleEndian(d, width)
  {
    assert LittleEndian(c, width + 1) == [c % 0x100] + LittleEndian(d, width);
    assert LittleEndian(b, width + 2) == [b % 0x100] + LittleEndian(c, width + 1);
    assert LittleEndian(a, width + 3) == [a % 0x100] + LittleEndian(b, width + 2);
  }

  /** The number of four bytes: lowest first, and two's complement for an int. */
  lemma NumberOfBytes(b: seq<Byte>)
    requires |b| == 4
    ensures var low: int := b[0] as int + 0x100 * (b[1] as int) + 0x1_0000 * (b[2] as int);
            && FloatFrom(b) == low + 0x100_0000 * (b[3] as int)
            && IntFrom(b) == low + 0x100_0000 * (if b[3] < 0x80 then b[3] as int else b[3] as int - 0x100)
  {
    assert FromLittleEndian(b[3..]) == b[3];
    assert FromLittleEndian(b[2..]) == b[2] as int + 0x100 * FromLittleEndian(b[2..][1..]) && b[2..][1..] == b[3..];
    assert FromLittleEndian(b[1..]) == b[1] as int + 0x100 * FromLittleEndian(b[1..][1..]) && b[1..][1..] == b[2..];
  }

  // ---------- what a capture holds ----------

  datatype Time = Time(seconds: Int64, micros: Int64)

  datatype Header = Header(version: Int32, start: Time, rate: Int32, channels: Int32)

  const HEADER_SIZE := 28

  function TimeBytes(t: Time): (bytes: seq<Byte>)
    ensures |bytes| == 16
  {
    LongBytes(t.seconds) + LongBytes(t.micros)
  }

  function HeaderBytes(h: Header): (bytes: seq<Byte>)
    ensures |bytes| == HEADER_SIZE
  {
    IntBytes(h.version) + TimeBytes(h.start) + IntBytes(h.rate) + IntBytes(h.channels)
  }

  function SampleBytes(samples: seq<Float>): (bytes: seq<Byte>)
    ensures |bytes| == 4 * |samples|
  {
    if samples == [] then [] else LittleEndian(samples[0], 4) + SampleBytes(samples[1..])
  }

  function CaptureBytes(h: Header, samples: seq<Float>, stop: Time): seq<Byte> {
    HeaderBytes(h) + SampleBytes(samples) + LittleEndian(INFINITY, 4) + TimeBytes(stop)
  }

  lemma {:induction false} SampleBytesAppend(a: seq<Float>, b: seq<Float>)
    ensures SampleBytes(a + b) == SampleBytes(a) + SampleBytes(b)
  {
    if a == [] {
      assert a + b == b;
    } else {
      assert (a + b)[0] == a[0] && (a + b)[1..] == a[1..] + b;
      SampleBytesAppend(a[1..], b);
    }
  }

  /** Where everything stands in a capture. */
  lemma CaptureLayout(file: seq<Byte>, h: Header, samples: seq<Float>, stop: Time, k: nat)
    requires file == CaptureBytes(h, samples, stop)
    ensures file[..4] == IntBytes(h.version)
    ensures file[4..12] == LongBytes(h.start.seconds) && file[12..20] == LongBytes(h.start.micros)
    ensures file[20..24] == IntBytes(h.rate) && file[24..28] == IntBytes(h.channels)
    ensures var e := 28 + 4 * |samples|;
            && |file| == e + 20
            && file[e..e + 4] == [0, 0, 0x80, 0x7f]
            && file[e + 4..e + 12] == LongBytes(stop.seconds) && file[e + 12..] == LongBytes(stop.micros)
    ensures k < |samples| ==> file[28 + 4 * k..28 + (4 * k + 4)] == LittleEndian(samples[k], 4)
  {
    HeaderLayout(file, h, samples, stop);
    TrailerLayout(file, h, samples, stop);
    if k < |samples| {
      SampleLayout(file, h, samples, stop, k);
    }
  }

  lemma HeaderLayout(file: seq<Byte>, h: Header, samples: seq<Float>, stop: Time)
    requires file == CaptureBytes(h, samples, stop)
    ensures |file| >= 28 && file[..4] == IntBytes(h.version)
    ensures file[4..12] == LongBytes(h.start.seconds) && file[12..20] == LongBytes(h.start.micros)
    ensures file[20..24] == IntBytes(h.rate) && file[24..28] == IntBytes(h.channels)
  {
    CaptureParts(h, samples, stop);
    HeaderParts(IntBytes(h.version), LongBytes(h.start.seconds), LongBytes(h.start.micros), IntBytes(h.rate),
                IntBytes(h.channels), SampleBytes(samples) + (LittleEndian(INFINITY, 4) + TimeBytes(stop)));
  }

  lemma TrailerLayout(file: seq<Byte>, h: Header, samples: seq<Float>, stop: Time)
    requires file == CaptureBytes(h, samples, stop)
    ensures var e := 28 + 4 * |samples|;
            && |file| == e + 20
            && file[e..e + 4] == [0, 0, 0x80, 0x7f]
            && file[e + 4..e + 12] == LongBytes(stop.seconds) && file[e + 12..] == LongBytes(stop.micros)
  {
    CaptureParts(h, samples, stop);
    InfinityBytes();
    TrailerParts(HeaderBytes(h), SampleBytes(samples), [0, 0, 0x80, 0x7f], LongBytes(stop.seconds),
                 LongBytes(stop.micros));
  }

  lemma InfinityBytes()
    ensures LittleEndian(INFINITY, 4) == [0, 0, 0x80, 0x7f]
  {
    BytesOfNumber(INFINITY);
  }

  lemma SampleLayout(file: seq<Byte>, h: Header, samples: seq<Float>, stop: Time, k: nat)
    requires file == CaptureBytes(h, samples, stop) && k < |samples|
    ensures |file| == 48 + 4 * |samples| && file[28 + 4 * k..28 + (4 * k + 4)] == LittleEndian(samples[k], 4)
  {
    CaptureParts(h, samples, stop);
    SampleAt(samples, k);
    Piece(HeaderBytes(h), SampleBytes(samples), LittleEndian(INFINITY, 4) + TimeBytes(stop), 4 * k, 4 * k + 4);
  }

  lemma Piece(head: seq<Byte>, middle: seq<Byte>, rest: seq<Byte>, i: nat, j: nat)
    requires i <= j <= |middle|
    ensures (head + (middle + rest))[|head| + i..|head| + j] == middle[i..j]
    ensures (head + (middle + rest))[|head| + |middle|..] == rest
  {
  }

  lemma TrailerParts(head: seq<Byte>, middle: seq<Byte>, a: seq<Byte>, b: seq<Byte>, c: seq<Byte>)
    requires |a| == 4 && |b| == |c| == 8
    ensures var file, e := head + (middle + (a + (b + c))), |head| + |middle|;
            |file| == e + 20 && file[e..e + 4] == a && file[e + 4..e + 12] == b && file[e + 12..] == c
  {
  }

  lemma {:induction false} SampleAt(samples: seq<Float>, k: nat)
    requires k < |samples|
    ensures SampleBytes(samples)[4 * k..4 * k + 4] == LittleEndian(samples[k], 4)
  {
    var later := SampleBytes(samples[1..]);
    if k > 0 {
      SampleAt(samples[1..], k - 1);
      assert SampleBytes(samples)[4 * k..4 * k + 4] == later[4 * (k - 1)..4 * (k - 1) + 4];
    }
  }

  /** The binary output of daqflex, value by value. */
  method WriteCapture(version: Int32, start: Time, rate: Int32, channels: Int32, samples: seq<Float>, stop: Time)
    returns (output: seq<Byte>)
    ensures output == CaptureBytes(Header(version, start, rate, channels), samples, stop)
  {
    output := IntBytes(version);
    output := output + LongBytes(start.seconds);
    output := output + LongBytes(start.micros);
    output := output + IntBytes(rate);
    output := output + IntBytes(channels);
    ghost var header := HeaderBytes(Header(version, start, rate, channels));
    assert output == header;
    for i := 0 to |samples|
      invariant output == header + SampleBytes(samples[..i])
    {
      SampleBytesAppend(samples[..i], [samples[i]]);
      assert samples[..i + 1] == samples[..i] + [samples[i]];
      output := output + LittleEndian(samples[i], 4);
    }
    assert samples[..|samples|] == samples;
    output := output + LittleEndian(INFINITY, 4);
    output := output + LongBytes(stop.seconds);
    output := output + LongBytes(stop.micros);
  }

  // ---------- reading ----------

  /** The header of a file that is long enough to have one. */
  function HeaderOf(file: seq<Byte>): Header
    requires |file| >= HEADER_SIZE
  {
    Header(IntFrom(file[..4]), Time(LongFrom(file[4..12]), LongFrom(file[12..20])),
           IntFrom(file[20..24]), IntFrom(file[24..28]))
  }

  /** What is left after reading `want` bytes. */
  function Skip(rest: seq<Byte>, want: nat): seq<Byte> {
    if want <= |rest| then rest[want..] else []
  }

  function Take(rest: seq<Byte>, want: nat): seq<Byte> {
    if want <= |rest| then rest[..want] else rest
  }

  /** A variable after a read into it: a short read leaves its tail as it was. */
  function Overlay(variable: seq<Byte>, got: seq<Byte>): seq<Byte>
    requires |got| <= |variable|
    ensures |Overlay(variable, got)| == |variable|
    ensures forall k :: 0 <= k < |variable| ==> Overlay(variable, got)[k] == if k < |got| then got[k] else variable[k]
  {
    got + variable[|got|..]
  }

  /** One pass of the channel loop: the samples read, whether it broke off, and what is left. */
  datatype Pass = Pass(line: seq<Float>, done: bool, rest: seq<Byte>)

  function ReadLine(rest: seq<Byte>, channels: nat): (p: Pass)
    ensures !p.done ==> |p.line| == channels && |p.rest| == |rest| - 4 * channels
    ensures |p.line| <= channels
    ensures forall i :: 0 <= i < |p.line| ==> !IsInf(p.line[i])
    decreases channels
  {
    if channels == 0 then Pass([], false, rest)
    else if |rest| < 4 then Pass([], true, [])
    else
      var f := FloatFrom(rest[..4]);
      if IsInf(f) then Pass([], true, rest[4..])
      else
        var later := ReadLine(rest[4..], channels - 1);
        later.(line := [f] + later.line)
  }

  /**
   A pass takes the samples in order up to the channel count, or up to where the file ends,
   or an infinity stands, which it takes off the file too.
   */
  lemma {:induction false} LineExactly(rest: seq<Byte>, channels: nat)
    ensures var p := ReadLine(rest, channels);
            var n := |p.line|;
            && n <= channels && 4 * n <= |rest|
            && (forall i :: 0 <= i < n ==>
                  p.line[i] == FloatFrom(rest[4 * i..4 * i + 4]) && !IsInf(p.line[i]))
            && (p.done <==> n < channels)
            && (p.rest
                == if n == channels then rest[4 * n..] else if |rest| < 4 * n + 4 then [] else rest[4 * n + 4..])
            && (n < channels && 4 * n + 4 <= |rest| ==> IsInf(FloatFrom(rest[4 * n..4 * n + 4])))
    decreases channels
  {
    if channels > 0 && |rest| >= 4 && !IsInf(FloatFrom(rest[..4])) {
      LineExactly(rest[4..], channels - 1);
      var p := ReadLine(rest[4..], channels - 1);
      forall i | 0 <= i <= |p.line| && 4 * i + 8 <= |rest|
        ensures rest[4..][4 * i..4 * i + 4] == rest[4 * (i + 1)..4 * (i + 1) + 4]
      {
      }
    }
  }

  /** All the passes: whole frames, then the one that breaks off. */
  datatype Body = Body(frames: seq<seq<Float>>, last: seq<Float>, rest: seq<Byte>)

  function ReadBody(rest: seq<Byte>, channels: nat): Body
    requires channels > 0
    decreases |rest|
  {
    var p := ReadLine(rest, channels);
    if p.done then Body([], p.line, p.rest)
    else
      var later := ReadBody(p.rest, channels);
      later.(frames := [p.line] + later.frames)
  }

  /** Frames of the same number of samples, none of them infinite. */
  ghost predicate Frames(frames: seq<seq<Float>>, channels: nat) {
    forall k :: 0 <= k < |frames| ==>
      |frames[k]| == channels && forall i :: 0 <= i < channels ==> !IsInf(frames[k][i])
  }

  function Flatten(frames: seq<seq<Float>>): seq<Float> {
    if frames == [] then [] else frames[0] + Flatten(frames[1..])
  }

  // ---------- round trip ----------

  lemma FloatReadsBack(f: Float)
    ensures FloatFrom(LittleEndian(f, 4)) == f
  {
    ScalarRoundTrips();
  }

  lemma FrontPart<T>(a: seq<T>, b: seq<T>, c: seq<T>)
    ensures (a + b + c)[..|a|] == a && (a + b + c)[|a|..] == b + c
  {
  }

  lemma {:induction false} ReadsLineBack(line: seq<Float>, tail: seq<Byte>)
    requires forall i :: 0 <= i < |line| ==> !IsInf(line[i])
    ensures ReadLine(SampleBytes(line) + tail, |line|) == Pass(line, false, tail)
  {
    if line == [] {
      assert SampleBytes(line) + tail == tail;
    } else {
      FloatReadsBack(line[0]);
      FrontPart(LittleEndian(line[0], 4), SampleBytes(line[1..]), tail);
      ReadsLineBack(line[1..], tail);
    }
  }

  /** The first frame's bytes, and the rest of the body. */
  lemma FirstFrame(frames: seq<seq<Float>>, rest: seq<Byte>)
    requires frames != []
    ensures SampleBytes(Flatten(frames)) + rest
            == SampleBytes(frames[0]) + (SampleBytes(Flatten(frames[1..])) + rest)
  {
    SampleBytesAppend(frames[0], Flatten(frames[1..]));
    Regroup(SampleBytes(frames[0]), SampleBytes(Flatten(frames[1..])), rest);
  }

  lemma Regroup<T>(a: seq<T>, b: seq<T>, c: seq<T>)
    ensures a + b + c == a + (b + c)
  {
  }

  /** A body's bytes; `rest` is its infinity and what follows. */
  lemma {:induction false} ReadsBodyBack(frames: seq<seq<Float>>, channels: nat, rest: seq<Byte>)
    requires channels > 0 && Frames(frames, channels)
    requires |rest| >= 4 && rest[..4] == LittleEndian(INFINITY, 4)
    ensures ReadBody(SampleBytes(Flatten(frames)) + rest, channels) == Body(frames, [], rest[4..])
  {
    if frames == [] {
      ScalarRoundTrips();
      assert SampleBytes(Flatten(frames)) + rest == rest;
    } else {
      FirstFrame(frames, rest);
      ReadsLineBack(frames[0], SampleBytes(Flatten(frames[1..])) + rest);
      ReadsBodyBack(frames[1..], channels, rest);
    }
  }

  lemma HeaderReadsBack(h: Header, rest: seq<Byte>)
    ensures HeaderOf(HeaderBytes(h) + rest) == h
  {
    HeaderParts(IntBytes(h.version), LongBytes(h.start.seconds), LongBytes(h.start.micros), IntBytes(h.rate),
                IntBytes(h.channels), rest);
    ScalarRoundTrips();
  }

  lemma HeaderParts(a: seq<Byte>, b: seq<Byte>, c: seq<Byte>, d: seq<Byte>, e: seq<Byte>, rest: seq<Byte>)
    requires |a| == |d| == |e| == 4 && |b| == |c| == 8
    ensures var file := a + (b + c) + d + e + rest;
            && file[..4] == a && file[4..12] == b && file[12..20] == c && file[20..24] == d && file[24..28] == e
  {
  }

  /** Reading what daqflex writes recovers the header, the frames and the stop time. */
  lemma CaptureReadsBack(h: Header, frames: seq<seq<Float>>, stop: Time)
    requires h.channels > 0 && Frames(frames, h.channels)
    ensures var file := CaptureBytes(h, Flatten(frames), stop);
            && HeaderOf(file) == h
            && ReadBody(file[HEADER_SIZE..], h.channels) == Body(frames, [], TimeBytes(stop))
            && LongFrom(TimeBytes(stop)[..8]) == stop.seconds && LongFrom(TimeBytes(stop)[8..]) == stop.micros
  {
    var rest := LittleEndian(INFINITY, 4) + TimeBytes(stop);
    CaptureParts(h, Flatten(frames), stop);
    HeaderReadsBack(h, SampleBytes(Flatten(frames)) + rest);
    ReadsBodyBack(frames, h.channels, rest);
    TimeReadsBack(stop);
  }

  lemma CaptureParts(h: Header, samples: seq<Float>, stop: Time)
    ensures var file := CaptureBytes(h, samples, stop);
            var body := SampleBytes(samples) + (LittleEndian(INFINITY, 4) + TimeBytes(stop));
            file == HeaderBytes(h) + body && file[HEADER_SIZE..] == body
  {
  }

  lemma TimeReadsBack(t: Time)
    ensures LongFrom(TimeBytes(t)[..8]) == t.seconds && LongFrom(TimeBytes(t)[8..]) == t.micros
  {
    ScalarRoundTrips();
    assert TimeBytes(t)[..8] == LongBytes(t.seconds) && TimeBytes(t)[8..] == LongBytes(t.micros);
  }

  lemma MoveHead<T>(a: seq<T>, x: T, b: seq<T>)
    ensures a + ([x] + b) == (a + [x]) + b
  {
  }

  /** The frames read so far, and what is left of the file, make up the body. */
  ghost predicate ReadSoFar(body: Body, frames: seq<seq<Float>>, done: bool, rest: seq<Byte>, channels: nat)
    requires channels > 0
  {
    if done then frames == body.frames && rest == body.rest
    else
      var later := ReadBody(rest, channels);
      body == later.(frames := frames + later.frames)
  }

  /** One more pass of the channel loop. */
  lemma ReadsOn(body: Body, frames: seq<seq<Float>>, rest: seq<Byte>, channels: nat)
    requires channels > 0 && ReadSoFar(body, frames, false, rest, channels)
    ensures var p := ReadLine(rest, channels);
            if p.done then ReadSoFar(body, frames, true, p.rest, channels) && p.line == body.last
            else ReadSoFar(body, frames + [p.line], false, p.rest, channels) && |p.rest| < |rest|
  {
    var p := ReadLine(rest, channels);
    if p.done {
      assert frames + [] == frames;
    } else {
      MoveHead(frames, p.line, ReadBody(p.rest, channels).frames);
    }
  }

  /** The samples read so far in a pass, and what the next read makes of it. */
  lemma ReadsPoint(points: seq<Float>, rest: seq<Byte>, channels: nat)
    requires channels > 0
    ensures var p := ReadLine(rest, channels);
            var whole := p.(line := points + p.line);
            if |rest| < 4 then whole == Pass(points, true, [])
            else if IsInf(FloatFrom(rest[..4])) then whole == Pass(points, true, rest[4..])
            else
              var q := ReadLine(rest[4..], channels - 1);
              whole == q.(line := (points + [FloatFrom(rest[..4])]) + q.line)
  {
    if |rest| >= 4 && !IsInf(FloatFrom(rest[..4])) {
      MoveHead(points, FloatFrom(rest[..4]), ReadLine(rest[4..], channels - 1).line);
    } else {
      assert points + [] == points;
    }
  }

  /** A stop time read over a 64-bit variable that still holds something else. */
  function StopTime(rest: seq<Byte>, variable: seq<Byte>): seq<Byte>
    requires |variable| == 8
    ensures |StopTime(rest, variable)| == 16
  {
    var seconds := Overlay(variable, Take(rest, 8));
    seconds + Overlay(seconds, Take(Skip(rest, 8), 8))
  }

  /** Complete, cut inside the second value, and cut inside the first. */
  lemma StopTimeCases(rest: seq<Byte>, variable: seq<Byte>)
    requires |variable| == 8
    ensures var stop, n := StopTime(rest, variable), |rest|;
            if n >= 16 then stop == rest[..16]
            else if n >= 8 then stop == rest + rest[n - 8..8]
            else stop == rest + variable[n..] + (rest + variable[n..])
  {
  }

  /** A file being read from front to back, by the loops the reading programs share. */
  class Input {
    var rest: seq<Byte>

    constructor (file: seq<Byte>)
      ensures rest == file
    {
      rest := file;
    }

    method Read(want: nat) returns (got: seq<Byte>)
      modifies this
      ensures got == Take(old(rest), want) && rest == Skip(old(rest), want)
    {
      got := Take(rest, want);
      rest := Skip(rest, want);
    }

    /** The five values of the header; temp64 is left holding the microseconds. */
    method ReadHeader() returns (header: Header, temp64: seq<Byte>)
      requires |rest| >= HEADER_SIZE
      modifies this
      ensures header == HeaderOf(old(rest)) && temp64 == old(rest)[12..20]
      ensures rest == old(rest)[HEADER_SIZE..]
    {
      ghost var file := rest;
      var version := Read(4);
      var seconds := Read(8);
      temp64 := Read(8);
      var rate := Read(4);
      var channels := Read(4);
      assert seconds == file[4..12] && temp64 == file[12..20] && rate == file[20..24] && channels == file[24..28];
      header := Header(IntFrom(version), Time(LongFrom(seconds), LongFrom(temp64)), IntFrom(rate), IntFrom(channels));
    }

    /** The channel loop: reads until a frame is complete, the file ends, or an infinity comes. */
    method ReadFrame(channels: nat) returns (points: seq<Float>, done: bool)
      modifies this
      ensures Pass(points, done, rest) == ReadLine(old(rest), channels)
    {
      points, done := [], false;
      var i := 0;
      while i < channels
        invariant i <= channels
        invariant var later := ReadLine(rest, channels - i);
                  ReadLine(old(rest), channels) == later.(line := points + later.line)
      {
        ReadsPoint(points, rest, channels - i);
        var bytes := Read(4);
        if |bytes| < 4 {
          done := true;
          break;
        }
        var point := FloatFrom(bytes);
        if IsInf(point) {
          done := true;
          break;
        }
        points := points + [point];
        i := i + 1;
      }
    }

    /** The two values of the trailer, as temp64 holds them. */
    method ReadStop(temp64: seq<Byte>) returns (stop: seq<Byte>)
      requires |temp64| == 8
      modifies this
      ensures stop == StopTime(old(rest), temp64)
    {
      var got := Read(8);
      var seconds := Overlay(temp64, got);
      got := Read(8);
      stop := seconds + Overlay(seconds, got);
    }
  }
}

/**
 The lock-free circular buffer between the USB thread (mc1208fs-plus/poll_thread.c) and
 the main loop (mc1208fs-plus/daqflex.c), as a state machine.  Slots hold positions in
 the stream of received samples, so that what a display shows can be told apart from
 what merely has the same value.

 The thread's loop body is three steps, and the main loop may poll between any two:
 the transfer fills the buffer, `currIndex` advances, and `currIndex` is wrapped.
 */
module RingBuffer {
  import opened Arithmetic

  datatype Half = FirstHalf | SecondHalf

  /** Where the USB thread is in its loop: before a transfer, before the addition, before the wrap. */
  datatype Phase = Waiting | Arrived(samples: nat) | Counted

  /** One half handed to displayAndWriteData, with the lap of the buffer it was written in. */
  datatype Display = Display(half: Half, lap: int, window: seq<int>)

  /**
   The shared state.  `quarter` is what a full transfer delivers, so numPoints is four of
   them; slots hold what was last stored in each: a stream position, -1 for nothing, or
   -2-k for the k-th odd byte, which overwrote half of a sample.
   */
  datatype Ring = Ring(
    quarter: nat,
    channels: nat,
    index: nat,             // currIndex
    phase: Phase,
    lastHalfRead: Half,
    slots: seq<int>,
    received: nat,          // whole samples received so far
    odds: nat,              // odd bytes received so far
    spoilt: bool,           // the slot to be written next holds an odd byte
    displays: seq<Display>,
    lap: nat,               // times wrapped
    lapStart: nat,          // index left by the last wrap
    lapBase: nat)           // samples received before this lap
  {
    /** numPoints */
    function Size(): nat { 4 * quarter }

    /** numPoints/2 */
    function Half(): nat { 2 * quarter }

    /** One past the last slot written in this lap. */
    function WrittenTo(): nat {
      index + if phase.Arrived? then phase.samples else 0
    }
  }

  /** A transfer of whole samples, and possibly one byte more. */
  datatype Event = Arrive(samples: nat, odd: bool) | Count | Wrap | Poll

  /** A buffer size main computes, and a channel count calSlope and calOffset have room for. */
  predicate Sized(quarter: nat, channels: nat) {
    quarter >= 32 && 1 <= channels <= 16
  }

  predicate Shaped(s: Ring) {
    Sized(s.quarter, s.channels) && |s.slots| == 2 * s.Size()
  }

  function Start(quarter: nat, channels: nat): Ring {
    Ring(quarter, channels, 0, Waiting, SecondHalf, seq(8 * quarter, _ => -1), 0, 0, false, [], 0, 0, 0)
  }

  // ---------- displays ----------

  /** Samples the display loop reads for n: it always finishes its round of channels. */
  function WholeRounds(n: int, channels: nat): (r: nat)
    requires channels > 0
    ensures n <= r < (if n <= 0 then 0 else n) + channels
    decreases n
  {
    if n <= 0 then 0 else channels + WholeRounds(n - channels, channels)
  }

  lemma {:induction false} WholeRoundsExact(n: nat, channels: nat)
    requires channels > 0 && n % channels == 0
    ensures WholeRounds(n, channels) == n
    decreases n
  {
    if n > 0 {
      assert n == channels * (n / channels);
      if n < channels {
        DivisionIsUnique(n, channels, 0, n);
      } else {
        SameRemainder(n - channels, channels, channels);
        WholeRoundsExact(n - channels, channels);
      }
    }
  }

  /** The main loop's test: the half it will display now, if any. */
  function Ready(s: Ring): (half: seq<Half>)
  {
    if s.index > s.Half() && s.lastHalfRead.SecondHalf? then [FirstHalf]
    else if s.index < s.Half() && s.lastHalfRead.FirstHalf? then [SecondHalf]
    else []
  }

  function HalfOffset(quarter: nat, half: Half): nat {
    if half.FirstHalf? then 0 else 2 * quarter
  }

  /** What displaying a half shows; a second half was written in the lap before. */
  function Show(s: Ring, half: Half): Display
    requires Shaped(s)
  {
    var at := HalfOffset(s.quarter, half);
    Display(half, if half.FirstHalf? then s.lap else s.lap - 1,
            s.slots[at..at + WholeRounds(s.Half(), s.channels)])
  }

  // ---------- steps ----------

  /** A transfer is asked for numPoints/2 bytes, a quarter of the buffer, and may deliver fewer. */
  predicate Enabled(s: Ring, e: Event) {
    match e
    case Arrive(n, odd) => s.phase.Waiting? && (if odd then 2 * n + 1 else 2 * n) <= s.Half()
    case Count => s.phase.Arrived?
    case Wrap => s.phase.Counted?
    case Poll => true
  }

  /** Slots from `at` on take the next n stream positions, and the one after them an odd byte. */
  function Fill(slots: seq<int>, at: nat, n: nat, next: nat, odd: bool, odds: nat): (r: seq<int>)
    ensures |r| == |slots|
  {
    seq(|slots|, p requires 0 <= p < |slots| =>
      if at <= p < at + n then next + (p - at) else if odd && p == at + n then -2 - odds else slots[p])
  }

  /** The transfer stores what arrives from currIndex on. */
  function AfterArrive(s: Ring, n: nat, odd: bool): Ring {
    s.(slots := Fill(s.slots, s.index, n, s.received, odd, s.odds),
       received := s.received + n,
       odds := if odd then s.odds + 1 else s.odds,
       spoilt := odd || (n == 0 && s.spoilt),
       phase := Arrived(n))
  }

  function AfterWrap(s: Ring): Ring {
    if s.index >= s.Size()
    then s.(index := s.index - s.Size(), phase := Waiting, spoilt := false,
            lap := s.lap + 1, lapStart := s.index - s.Size(), lapBase := s.received)
    else s.(phase := Waiting)
  }

  /** One pass of the main loop. */
  function AfterPoll(s: Ring): Ring
    requires Shaped(s)
  {
    var half := Ready(s);
    if half == [] then s
    else s.(displays := s.displays + [Show(s, half[0])], lastHalfRead := half[0])
  }

  function Step(s: Ring, e: Event): (t: Ring)
    requires Shaped(s) && Enabled(s, e)
    ensures Shaped(t) && t.quarter == s.quarter && t.channels == s.channels
  {
    match e
    case Arrive(n, odd) => AfterArrive(s, n, odd)
    case Count => s.(index := s.index + s.phase.samples, phase := Counted)
    case Wrap => AfterWrap(s)
    case Poll => AfterPoll(s)
  }

  // ---------- what a poll must do ----------

  /** Slots of a half of the buffer, and the lap they were written in, as a display shows them. */
  ghost predicate Shows(d: Display, s: Ring) {
    var from := if d.half.FirstHalf? then 0 else 2 * s.quarter;
    && d.lap == (if d.half.FirstHalf? then s.lap else s.lap - 1)
    && 2 * s.quarter <= |d.window| < 2 * s.quarter + s.channels
    && from + |d.window| <= |s.slots|
    && forall i :: 0 <= i < |d.window| ==> d.window[i] == s.slots[from + i]
  }

  /**
   A poll past the middle leaves the first half read and one before it the second; a half is
   displayed exactly when that changes which was read last, and then it is that half.
   */
  lemma PollDisplaysWhatIsDue(s: Ring)
    requires Shaped(s)
    ensures var t := Step(s, Poll);
            && (s.index > 2 * s.quarter ==> t.lastHalfRead.FirstHalf?)
            && (s.index < 2 * s.quarter ==> t.lastHalfRead.SecondHalf?)
            && (s.index == 2 * s.quarter ==> t == s)
            && (t.lastHalfRead == s.lastHalfRead ==> t == s)
            && (t.lastHalfRead != s.lastHalfRead ==>
                  && |t.displays| == |s.displays| + 1 && t.displays[..|s.displays|] == s.displays
                  && t.displays[|s.displays|].half == t.lastHalfRead
                  && Shows(t.displays[|s.displays|], s)
                  && t == s.(displays := t.displays, lastHalfRead := t.lastHalfRead))
  {
  }

  // ---------- what every run keeps ----------

  ghost predicate IndexInRange(s: Ring) {
    && s.lapStart < s.quarter
    && s.lapStart <= s.index
    && (s.phase.Counted? || s.index < s.Size())
    && (s.phase.Arrived? ==> s.phase.samples <= s.quarter)
    && s.WrittenTo() < s.Size() + s.quarter
  }

  /** This lap's slots continue from its base. */
  ghost predicate LapInOrder(s: Ring)
    requires Shaped(s) && IndexInRange(s)
  {
    && s.received == s.lapBase + (s.WrittenTo() - s.lapStart)
    && (forall p :: s.lapStart <= p < s.WrittenTo() ==> s.slots[p] == s.lapBase + (p - s.lapStart))
    && (forall p :: 0 <= p < s.lapStart ==> s.slots[p] < s.lapBase - 1)
  }

  /** The rest of the second half is the lap before, but for an odd byte. */
  ghost predicate LapBeforeInOrder(s: Ring)
    requires Shaped(s) && IndexInRange(s)
  {
    && (s.lap == 0 ==> s.lapStart == 0 && s.lapBase == 0)
    && (s.lap > 0 ==>
          && s.lapBase >= s.lapStart + s.Half()
          && forall p :: s.Half() <= p < s.Size() && s.WrittenTo() <= p && (s.spoilt ==> p != s.WrittenTo()) ==>
               s.slots[p] == s.lapBase - s.lapStart - s.Size() + p)
    && (s.spoilt ==> s.slots[s.WrittenTo()] < -1)
  }

  ghost predicate Inv(s: Ring) {
    && Shaped(s)
    && IndexInRange(s)
    && LapInOrder(s)
    && LapBeforeInOrder(s)
    && FirstLapShown(s)
  }

  /** In the first lap only the first half can have been displayed. */
  predicate FirstLapShown(s: Ring) {
    s.lastHalfRead.FirstHalf? && s.lap == 0 ==> s.index > s.Half()
  }

  lemma ArriveInv(s: Ring, n: nat, odd: bool)
    requires Inv(s) && Enabled(s, Arrive(n, odd))
    ensures Inv(AfterArrive(s, n, odd))
  {
    var t := AfterArrive(s, n, odd);
    assert forall p :: 0 <= p < |s.slots| ==>
      t.slots[p] == if s.index <= p < s.index + n then s.received + (p - s.index)
                    else if odd && p == s.index + n then -2 - s.odds else s.slots[p];
  }

  lemma WrapInv(s: Ring)
    requires Inv(s) && s.phase.Counted?
    ensures Inv(AfterWrap(s))
  {
  }

  lemma PollInv(s: Ring)
    requires Inv(s)
    ensures Inv(AfterPoll(s))
  {
  }

  /** Every step keeps the index in range and the slots in stream order. */
  lemma StepInv(s: Ring, e: Event)
    requires Inv(s) && Enabled(s, e)
    ensures Inv(Step(s, e))
  {
    match e
    case Arrive(n, odd) => ArriveInv(s, n, odd);
    case Count =>
    case Wrap => WrapInv(s);
    case Poll => PollInv(s);
  }

  /** Stream positions and odd bytes that have been received, or the -1 of a slot never written. */
  ghost predicate Within(window: seq<int>, received: nat, odds: nat) {
    forall i :: 0 <= i < |window| ==> -2 - odds < window[i] < received
  }

  ghost predicate Bounded(s: Ring)
    requires Shaped(s)
  {
    && Within(s.slots, s.received, s.odds)
    && forall k :: 0 <= k < |s.displays| ==>
         && |s.displays[k].window| == WholeRounds(s.Half(), s.channels)
         && Within(s.displays[k].window, s.received, s.odds)
  }

  lemma StepBounded(s: Ring, e: Event)
    requires Inv(s) && Enabled(s, e) && Bounded(s)
    ensures Bounded(Step(s, e))
  {
    if e.Poll? && Ready(s) != [] {
      var d := Show(s, Ready(s)[0]);
      assert Within(d.window, s.received, s.odds);
      assert Step(s, e).displays == s.displays + [d];
    }
  }

  // ---------- runs ----------

  /** Every event of the run is enabled when it happens. */
  ghost predicate Legal(quarter: nat, channels: nat, run: seq<Event>)
    requires Sized(quarter, channels)
    decreases |run|, 0
  {
    run == [] || (
      var before := run[..|run| - 1];
      && Legal(quarter, channels, before)
      && Enabled(State(quarter, channels, before), run[|run| - 1]))
  }

  /** The state after a run. */
  ghost function State(quarter: nat, channels: nat, run: seq<Event>): (s: Ring)
    requires Sized(quarter, channels) && Legal(quarter, channels, run)
    ensures Shaped(s) && s.quarter == quarter && s.channels == channels
    decreases |run|, 1
  {
    if run == [] then Start(quarter, channels)
    else Step(State(quarter, channels, run[..|run| - 1]), run[|run| - 1])
  }

  lemma {:induction false} RunInv(quarter: nat, channels: nat, run: seq<Event>)
    requires Sized(quarter, channels) && Legal(quarter, channels, run)
    ensures Inv(State(quarter, channels, run))
  {
    if run != [] {
      var before := run[..|run| - 1];
      RunInv(quarter, channels, before);
      StepInv(State(quarter, channels, before), run[|run| - 1]);
    }
  }

  lemma {:induction false} RunBounded(quarter: nat, channels: nat, run: seq<Event>)
    requires Sized(quarter, channels) && Legal(quarter, channels, run)
    ensures Bounded(State(quarter, channels, run))
  {
    if run != [] {
      var before := run[..|run| - 1];
      RunBounded(quarter, channels, before);
      RunInv(quarter, channels, before);
      StepBounded(State(quarter, channels, before), run[|run| - 1]);
    }
  }

  /**
   Whatever is transferred, even or odd byte counts up to those asked for, the thread asks
   for the next bytes at an index below numPoints and inside the 4 * numPoints allocated.
   */
  lemma TargetInsideBuffer(quarter: nat, channels: nat, run: seq<Event>)
    requires Sized(quarter, channels) && Legal(quarter, channels, run)
    ensures var s := State(quarter, channels, run);
            s.phase.Waiting? ==> s.index < s.Size() && 2 * s.index + s.Half() <= 4 * s.Size()
  {
    RunInv(quarter, channels, run);
  }

  // ---------- when a displayed half is torn ----------

  /** The half of a window: the samples after it belong to an unfinished round of channels. */
  function HalfOf(quarter: nat, d: Display): seq<int> {
    if 2 * quarter <= |d.window| then d.window[..2 * quarter] else d.window
  }

  /** Consecutive samples of the stream. */
  ghost predicate Whole(half: seq<int>) {
    && (forall i :: 0 <= i < |half| ==> half[i] >= 0)
    && (forall i :: 0 < i < |half| ==> half[i] == half[i - 1] + 1)
  }

  /** A transfer not yet added to currIndex has reached the second half. */
  predicate Overtaken(s: Ring) {
    s.phase.Arrived? && s.WrittenTo() + (if s.spoilt then 1 else 0) > s.Half()
  }

  lemma ShownSlots(s: Ring, half: Half)
    requires Shaped(s)
    ensures var shown := HalfOf(s.quarter, Show(s, half));
            && |shown| == s.Half()
            && (forall i :: 0 <= i < s.Half() ==> shown[i] == s.slots[HalfOffset(s.quarter, half) + i])
  {
    var at := HalfOffset(s.quarter, half);
    assert HalfOf(s.quarter, Show(s, half)) == s.slots[at..at + s.Half()];
  }

  lemma FirstHalfWhole(s: Ring)
    requires Inv(s) && s.index > s.Half()
    ensures var shown := HalfOf(s.quarter, Show(s, FirstHalf));
            && |shown| == s.Half()
            && (Whole(shown) <==> s.lapStart == 0)
            && (s.lapStart == 0 ==> forall i :: 0 <= i < s.Half() ==> shown[i] == s.lapBase + i)
  {
    ShownSlots(s, FirstHalf);
    var shown := HalfOf(s.quarter, Show(s, FirstHalf));
    var r := s.lapStart;
    if r > 0 {
      assert shown[r - 1] == s.slots[r - 1];
      assert shown[r] == s.slots[r] == s.lapBase;
    }
  }

  lemma SecondHalfTorn(s: Ring)
    requires Inv(s) && s.lap > 0 && s.index < s.Half() && Overtaken(s)
    ensures !Whole(HalfOf(s.quarter, Show(s, SecondHalf)))
  {
    ShownSlots(s, SecondHalf);
    var shown := HalfOf(s.quarter, Show(s, SecondHalf));
    var k := s.WrittenTo() - s.Half();
    assert shown[k] == s.slots[s.WrittenTo()] < s.received;
    if k > 0 {
      assert shown[k - 1] == s.slots[s.WrittenTo() - 1] == s.received - 1;
    }
  }

  lemma SecondHalfWhole(s: Ring)
    requires Inv(s) && s.lap > 0 && s.index < s.Half()
    ensures var shown := HalfOf(s.quarter, Show(s, SecondHalf));
            && |shown| == s.Half()
            && (Whole(shown) <==> !Overtaken(s))
            && (!Overtaken(s) ==>
                  forall i :: 0 <= i < s.Half() ==> shown[i] == s.lapBase - s.lapStart - s.Half() + i)
  {
    ShownSlots(s, SecondHalf);
    var shown := HalfOf(s.quarter, Show(s, SecondHalf));
    if Overtaken(s) {
      SecondHalfTorn(s);
    } else {
      assert forall i :: 0 <= i < s.Half() ==> shown[i] == s.lapBase - s.lapStart - s.Half() + i;
    }
  }

  /**
   For every run, whatever the transfers deliver: a first half is whole exactly when the
   last wrap left currIndex at 0 (no "Wrapping error!"), and a second half exactly when
   no transfer in flight has overtaken it.
   */
  lemma DisplayWholeExactly(quarter: nat, channels: nat, run: seq<Event>)
    requires Sized(quarter, channels) && Legal(quarter, channels, run)
    ensures var s := State(quarter, channels, run);
            Ready(s) != [] ==>
              var half := Ready(s)[0];
              (Whole(HalfOf(quarter, Show(s, half))) <==>
                if half.FirstHalf? then s.lapStart == 0 else !Overtaken(s))
  {
    RunInv(quarter, channels, run);
    var s := State(quarter, channels, run);
    if s.index > s.Half() {
      FirstHalfWhole(s);
    } else if s.index < s.Half() && s.lap > 0 {
      SecondHalfWhole(s);
    }
  }

  // ---------- order of the displayed halves ----------

  /** Halves numbered along the laps of the buffer: 0, 1 in the first lap, 2, 3 in the next. */
  function HalfNumber(d: Display): int {
    2 * d.lap + if d.half.FirstHalf? then 0 else 1
  }

  /** The halves of the buffer alternate from a first half, and no lap's half comes twice or late. */
  ghost predicate InOrder(displays: seq<Display>) {
    && (forall k :: 0 <= k < |displays| ==>
          displays[k].half == if k % 2 == 0 then FirstHalf else SecondHalf)
    && (forall k :: 0 <= k < |displays| ==> HalfNumber(displays[k]) >= 0)
    && (forall j, k :: 0 <= j < k < |displays| ==> HalfNumber(displays[j]) < HalfNumber(displays[k]))
  }

  ghost predicate OrderInv(s: Ring) {
    && InOrder(s.displays)
    && (s.lastHalfRead.FirstHalf? <==> |s.displays| % 2 == 1)
    && (s.displays != [] ==>
          var last := s.displays[|s.displays| - 1];
          last.lap < s.lap || (last.half.FirstHalf? && last.lap == s.lap && s.index > s.Half()))
  }

  lemma OrderPoll(s: Ring)
    requires Shaped(s) && IndexInRange(s) && FirstLapShown(s) && OrderInv(s)
    ensures OrderInv(AfterPoll(s))
  {
    if Ready(s) != [] {
      var d := Show(s, Ready(s)[0]);
      assert AfterPoll(s).displays == s.displays + [d];
      assert HalfNumber(d) >= 0;
      if s.displays != [] {
        assert HalfNumber(s.displays[|s.displays| - 1]) < HalfNumber(d);
      }
    }
  }

  lemma OrderStep(s: Ring, e: Event)
    requires Shaped(s) && IndexInRange(s) && FirstLapShown(s) && OrderInv(s) && Enabled(s, e)
    ensures OrderInv(Step(s, e))
  {
    if e.Poll? {
      OrderPoll(s);
    }
  }

  lemma {:induction false} DisplaysInOrder(quarter: nat, channels: nat, run: seq<Event>)
    requires Sized(quarter, channels) && Legal(quarter, channels, run)
    ensures OrderInv(State(quarter, channels, run))
  {
    if run != [] {
      var before := run[..|run| - 1];
      DisplaysInOrder(quarter, channels, before);
      RunInv(quarter, channels, before);
      OrderStep(State(quarter, channels, before), run[|run| - 1]);
    }
  }

  /** The number of halves passed over before each displayed one is even. */
  lemma SkipsAreEven(displays: seq<Display>, k: nat)
    requires InOrder(displays) && k < |displays|
    ensures var previous := if k == 0 then -1 else HalfNumber(displays[k - 1]);
            var skipped := HalfNumber(displays[k]) - previous - 1;
            skipped >= 0 && skipped % 2 == 0
  {
    assert displays[k].half == if k % 2 == 0 then FirstHalf else SecondHalf;
    if k > 0 {
      assert displays[k - 1].half == if k % 2 == 1 then FirstHalf else SecondHalf;
      assert HalfNumber(displays[k - 1]) < HalfNumber(displays[k]);
    }
  }

  // ---------- order of what they show ----------

  /** Every sample of a display's half is below a stream position. */
  ghost predicate Below(quarter: nat, d: Display, bound: int) {
    |d.window| >= 2 * quarter && forall i :: 0 <= i < 2 * quarter ==> d.window[i] < bound
  }

  /** Every sample of one display's half comes before every sample of another's. */
  ghost predicate Precedes(quarter: nat, d: Display, e: Display) {
    && |d.window| >= 2 * quarter && |e.window| >= 2 * quarter
    && forall x, y :: 0 <= x < 2 * quarter && 0 <= y < 2 * quarter ==> d.window[x] < e.window[y]
  }

  ghost predicate IsWhole(quarter: nat, d: Display) {
    |d.window| >= 2 * quarter && Whole(HalfOf(quarter, d))
  }

  /** Whole halves come in stream order and share no sample. */
  ghost predicate WholeInOrder(quarter: nat, displays: seq<Display>) {
    forall j, k :: 0 <= j < k < |displays| && IsWhole(quarter, displays[j]) && IsWhole(quarter, displays[k]) ==>
      Precedes(quarter, displays[j], displays[k])
  }

  /** The stream position the next whole half cannot begin before. */
  function Horizon(s: Ring): int {
    var lapAt := s.lapBase - s.lapStart;
    if s.lastHalfRead.SecondHalf? then lapAt
    else if s.displays != [] && s.displays[|s.displays| - 1].lap == s.lap then lapAt + s.Half()
    else lapAt - s.Half()
  }

  ghost predicate ContentInv(s: Ring) {
    && WholeInOrder(s.quarter, s.displays)
    && forall k :: 0 <= k < |s.displays| && IsWhole(s.quarter, s.displays[k]) ==>
         Below(s.quarter, s.displays[k], Horizon(s))
  }

  /** A whole half begins at the horizon, and the horizon moves past it. */
  lemma WholeAtHorizon(s: Ring, d: Display)
    requires Inv(s) && OrderInv(s) && Ready(s) != [] && d == Show(s, Ready(s)[0])
    requires IsWhole(s.quarter, d)
    ensures forall i :: 0 <= i < s.Half() ==> Horizon(s) <= d.window[i]
    ensures Below(s.quarter, d, Horizon(AfterPoll(s)))
  {
    var shown := HalfOf(s.quarter, d);
    assert forall i :: 0 <= i < s.Half() ==> d.window[i] == shown[i];
    if Ready(s)[0].FirstHalf? {
      FirstHalfWhole(s);
    } else {
      SecondHalfWhole(s);
    }
  }

  lemma HorizonRises(s: Ring, e: Event)
    requires Inv(s) && OrderInv(s) && Enabled(s, e)
    ensures Horizon(s) <= Horizon(Step(s, e))
  {
  }

  /** The next display's half comes after the whole ones before it. */
  lemma ContentPoll(s: Ring, d: Display, horizon: int)
    requires ContentInv(s) && Horizon(s) <= horizon
    requires IsWhole(s.quarter, d) ==>
               && Below(s.quarter, d, horizon)
               && forall i :: 0 <= i < s.Half() ==> Horizon(s) <= d.window[i]
    ensures WholeInOrder(s.quarter, s.displays + [d])
    ensures forall k :: 0 <= k <= |s.displays| && IsWhole(s.quarter, (s.displays + [d])[k]) ==>
              Below(s.quarter, (s.displays + [d])[k], horizon)
  {
  }

  lemma ContentStep(s: Ring, e: Event)
    requires Inv(s) && OrderInv(s) && ContentInv(s) && Enabled(s, e)
    ensures ContentInv(Step(s, e))
  {
    HorizonRises(s, e);
    if e.Poll? && Ready(s) != [] {
      var d := Show(s, Ready(s)[0]);
      if IsWhole(s.quarter, d) {
        WholeAtHorizon(s, d);
      }
      ContentPoll(s, d, Horizon(Step(s, e)));
    }
  }

  /**
   In every run, whatever the transfers deliver, the whole halves among the displays come
   in stream order and no sample is in two of them.
   */
  lemma {:induction false} WholeHalvesInOrder(quarter: nat, channels: nat, run: seq<Event>)
    requires Sized(quarter, channels) && Legal(quarter, channels, run)
    ensures ContentInv(State(quarter, channels, run))
    ensures WholeInOrder(quarter, State(quarter, channels, run).displays)
  {
    if run != [] {
      var before := run[..|run| - 1];
      WholeHalvesInOrder(quarter, channels, before);
      RunInv(quarter, channels, before);
      DisplaysInOrder(quarter, channels, before);
      ContentStep(State(quarter, channels, before), run[|run| - 1]);
    }
  }

  // ---------- full transfers ----------

  /** Every transfer brings all that was asked for, or nothing. */
  ghost predicate FullOrEmpty(quarter: nat, run: seq<Event>) {
    forall i :: 0 <= i < |run| && run[i].Arrive? ==> !run[i].odd && (run[i].samples == 0 || run[i].samples == quarter)
  }

  /** Where half h of the stream starts. */
  function HalfStart(quarter: nat, h: nat): nat {
    if h == 0 then 0 else HalfStart(quarter, h - 1) + 2 * quarter
  }

  lemma {:induction false} HalfStartIs(quarter: nat, h: nat)
    ensures HalfStart(quarter, h) == h * (2 * quarter)
  {
    if h > 0 {
      HalfStartIs(quarter, h - 1);
      assert h * (2 * quarter) == (h - 1) * (2 * quarter) + 2 * quarter;
    }
  }

  lemma HalfStartLap(quarter: nat, lap: nat)
    ensures HalfStart(quarter, 2 * lap + 1) == HalfStart(quarter, 2 * lap) + 2 * quarter
    ensures HalfStart(quarter, 2 * (lap + 1)) == HalfStart(quarter, 2 * lap) + 4 * quarter
    ensures lap > 0 ==> HalfStart(quarter, 2 * lap - 1) == HalfStart(quarter, 2 * lap) - 2 * quarter
  {
    assert HalfStart(quarter, 2 * lap + 2) == HalfStart(quarter, 2 * lap + 1) + 2 * quarter;
  }

  /** A display shows half h of the stream. */
  ghost predicate IsHalf(quarter: nat, d: Display, h: int) {
    && h >= 0
    && |d.window| >= 2 * quarter
    && forall i :: 0 <= i < 2 * quarter ==> d.window[i] == HalfStart(quarter, h) + i
  }

  /** Every display shows the half of the stream its number says. */
  ghost predicate AllHalves(quarter: nat, displays: seq<Display>) {
    forall k :: 0 <= k < |displays| ==> IsHalf(quarter, displays[k], HalfNumber(displays[k]))
  }

  predicate OnQuarter(index: nat, quarter: nat) {
    index == 0 || index == quarter || index == 2 * quarter || index == 3 * quarter
  }

  /** What full or empty transfers keep. */
  ghost predicate QuarterInv(s: Ring) {
    && (OnQuarter(s.index, s.quarter) || (s.phase.Counted? && s.index == s.Size()))
    && (s.phase.Arrived? ==> s.phase.samples == 0 || s.phase.samples == s.quarter)
    && s.lapStart == 0 && !s.spoilt
    && s.lapBase == HalfStart(s.quarter, 2 * s.lap)
    && AllHalves(s.quarter, s.displays)
  }

  /** A whole half shows consecutive samples from where this lap, or the last one's second half, began. */
  lemma ShowsFrom(s: Ring, d: Display)
    requires Inv(s) && s.lapStart == 0
    requires Ready(s) != [] && d == Show(s, Ready(s)[0]) && (d.half.SecondHalf? ==> !Overtaken(s))
    ensures var from := if d.half.FirstHalf? then s.lapBase else s.lapBase - s.Half();
            && |d.window| >= s.Half()
            && forall i :: 0 <= i < s.Half() ==> d.window[i] == from + i
  {
    var shown := HalfOf(s.quarter, d);
    assert forall i :: 0 <= i < s.Half() ==> d.window[i] == shown[i];
    if s.index > s.Half() {
      FirstHalfWhole(s);
    } else {
      SecondHalfWhole(s);
    }
  }

  lemma QuarterShow(s: Ring, d: Display)
    requires Inv(s) && QuarterInv(s) && Ready(s) != [] && d == Show(s, Ready(s)[0])
    ensures IsHalf(s.quarter, d, HalfNumber(d))
  {
    ShowsFrom(s, d);
    HalfStartLap(s.quarter, s.lap);
  }

  lemma QuarterWrap(s: Ring)
    requires IndexInRange(s) && QuarterInv(s) && s.phase.Counted?
    requires s.received == s.lapBase + s.index
    ensures QuarterInv(AfterWrap(s))
  {
    HalfStartLap(s.quarter, s.lap);
  }

  lemma QuarterStep(s: Ring, e: Event)
    requires Inv(s) && QuarterInv(s) && Enabled(s, e)
    requires e.Arrive? ==> !e.odd && (e.samples == 0 || e.samples == s.quarter)
    ensures QuarterInv(Step(s, e))
  {
    match e
    case Arrive(_, _) =>
    case Count =>
    case Wrap => QuarterWrap(s);
    case Poll =>
      if Ready(s) != [] {
        QuarterShow(s, Show(s, Ready(s)[0]));
      }
  }

  lemma {:induction false} QuarterRun(quarter: nat, channels: nat, run: seq<Event>)
    requires Sized(quarter, channels) && Legal(quarter, channels, run) && FullOrEmpty(quarter, run)
    ensures QuarterInv(State(quarter, channels, run))
  {
    if run != [] {
      var before := run[..|run| - 1];
      QuarterRun(quarter, channels, before);
      RunInv(quarter, channels, before);
      QuarterStep(State(quarter, channels, before), run[|run| - 1]);
    }
  }

  /**
   With full or empty transfers, in any interleaving with polls, every display shows a
   whole half of the stream, in order, and wraps leave no remainder.
   */
  lemma FullTransfersShowWholeHalves(quarter: nat, channels: nat, run: seq<Event>)
    requires Sized(quarter, channels) && Legal(quarter, channels, run) && FullOrEmpty(quarter, run)
    ensures var s := State(quarter, channels, run);
            && InOrder(s.displays)
            && AllHalves(quarter, s.displays)
            && (OnQuarter(s.index, quarter) || s.index == s.Size())
            && (s.phase.Waiting? ==> s.index < s.Size())
            && s.lapStart == 0
  {
    QuarterRun(quarter, channels, run);
    RunInv(quarter, channels, run);
    DisplaysInOrder(quarter, channels, run);
  }

  /** A display of half h of the stream is not torn. */
  lemma HalfIsWhole(quarter: nat, d: Display, h: nat)
    requires IsHalf(quarter, d, h)
    ensures Whole(HalfOf(quarter, d))
  {
    var half := HalfOf(quarter, d);
    assert forall i :: 0 <= i < |half| ==> half[i] == HalfStart(quarter, h) + i;
  }

  // ---------- attentive polling ----------

  /** Where currIndex stands for the main loop's tests. */
  datatype Zone = Low | Middle | High

  function ZoneOf(s: Ring): Zone {
    if s.index < s.Half() then Low else if s.index == s.Half() then Middle else High
  }

  /** The main loop has polled since currIndex came to where it is, above or below the middle. */
  ghost predicate Polled(quarter: nat, channels: nat, run: seq<Event>)
    requires Sized(quarter, channels) && Legal(quarter, channels, run)
    decreases |run|
  {
    run == [] || (
      var before := run[..|run| - 1];
      || run[|run| - 1].Poll?
      || (ZoneOf(State(quarter, channels, run)) == ZoneOf(State(quarter, channels, before))
          && Polled(quarter, channels, before)))
  }

  /** Each stay of currIndex above or below the middle sees a poll. */
  ghost predicate Attentive(quarter: nat, channels: nat, run: seq<Event>)
    requires Sized(quarter, channels) && Legal(quarter, channels, run)
    decreases |run|
  {
    run == [] || (
      var before := run[..|run| - 1];
      && Attentive(quarter, channels, before)
      && Leaves(State(quarter, channels, before), State(quarter, channels, run), Polled(quarter, channels, before)))
  }

  /** currIndex does not leave where it is before a poll, but for the middle. */
  predicate Leaves(s: Ring, t: Ring, polled: bool) {
    ZoneOf(s).Middle? || ZoneOf(s) == ZoneOf(t) || polled
  }

  /** How many halves have been displayed, wherever currIndex is: all that are complete, but for the last. */
  ghost predicate KeepingUp(s: Ring, polled: bool) {
    var shown := |s.displays|;
    && (match ZoneOf(s)
        case Low => shown == 2 * s.lap || (!polled && shown == 2 * s.lap - 1)
        case Middle => shown == 2 * s.lap
        case High => shown == 2 * s.lap + 1 || (!polled && shown == 2 * s.lap))
    && forall k :: 0 <= k < shown ==> HalfNumber(s.displays[k]) == k
  }

  lemma KeepingUpStep(s: Ring, e: Event, polled: bool)
    requires Inv(s) && QuarterInv(s) && OrderInv(s) && KeepingUp(s, polled) && Enabled(s, e)
    requires Leaves(s, Step(s, e), polled)
    ensures KeepingUp(Step(s, e), e.Poll? || (ZoneOf(Step(s, e)) == ZoneOf(s) && polled))
  {
    if e.Poll? && Ready(s) != [] {
      assert Step(s, e).displays == s.displays + [Show(s, Ready(s)[0])];
    }
  }

  lemma {:induction false} AttentiveKeepsUp(quarter: nat, channels: nat, run: seq<Event>)
    requires Sized(quarter, channels) && Legal(quarter, channels, run)
    requires FullOrEmpty(quarter, run) && Attentive(quarter, channels, run)
    ensures KeepingUp(State(quarter, channels, run), Polled(quarter, channels, run))
  {
    if run != [] {
      var before := run[..|run| - 1];
      AttentiveKeepsUp(quarter, channels, before);
      RunInv(quarter, channels, before);
      QuarterRun(quarter, channels, before);
      DisplaysInOrder(quarter, channels, before);
      KeepingUpStep(State(quarter, channels, before), run[|run| - 1], Polled(quarter, channels, before));
    }
  }

  /** A half is due for display, and the one after it has been filled too. */
  predicate NextHalfFull(s: Ring) {
    && Ready(s) != []
    && (s.WrittenTo() == s.Size() || (s.index < s.Half() && s.WrittenTo() == s.Half()))
  }

  /** Samples received and not yet displayed. */
  lemma KeepingUpLag(s: Ring, polled: bool)
    requires Inv(s) && QuarterInv(s) && OrderInv(s) && KeepingUp(s, polled)
    ensures var lag := s.received - HalfStart(s.quarter, |s.displays|);
            && 0 <= lag <= s.Size()
            && (lag <= 3 * s.quarter <==> !NextHalfFull(s))
            && (NextHalfFull(s) ==> lag == s.Size())
  {
    HalfStartLap(s.quarter, s.lap);
    assert s.received == HalfStart(s.quarter, 2 * s.lap) + s.WrittenTo();
  }

  /**
   If each stay of currIndex above or below the middle sees a poll, display k shows half k
   of the stream, so nothing is lost.  The samples received and not yet displayed are at
   most a whole buffer, and at most three quarters of it exactly when no second half has
   been filled behind the one that is due; then they are the whole buffer.
   */
  lemma AttentivePollingLosesNothing(quarter: nat, channels: nat, run: seq<Event>)
    requires Sized(quarter, channels) && Legal(quarter, channels, run)
    requires FullOrEmpty(quarter, run) && Attentive(quarter, channels, run)
    ensures var s := State(quarter, channels, run);
            var shown := HalfStart(quarter, |s.displays|);
            && (forall k :: 0 <= k < |s.displays| ==> IsHalf(quarter, s.displays[k], k))
            && shown <= s.received <= shown + s.Size()
            && (s.received <= shown + 3 * quarter <==> !NextHalfFull(s))
            && (NextHalfFull(s) ==> s.received == shown + s.Size())
            && (s.phase.Waiting? ==> s.received <= shown + 3 * quarter)
  {
    AttentiveKeepsUp(quarter, channels, run);
    QuarterRun(quarter, channels, run);
    RunInv(quarter, channels, run);
    DisplaysInOrder(quarter, channels, run);
    KeepingUpLag(State(quarter, channels, run), Polled(quarter, channels, run));
  }

  // ---------- runs that show what can happen ----------

  lemma Extend(quarter: nat, channels: nat, run: seq<Event>, e: Event)
    requires Sized(quarter, channels) && Legal(quarter, channels, run)
    requires Enabled(State(quarter, channels, run), e)
    ensures Legal(quarter, channels, run + [e])
    ensures State(quarter, channels, run + [e]) == Step(State(quarter, channels, run), e)
  {
    assert (run + [e])[..|run|] == run;
  }

  /** What an undisturbed pass of the thread that gets n samples does to all but the slots. */
  ghost predicate Delivered(s: Ring, t: Ring, n: nat) {
    && t.phase.Waiting? && t.quarter == s.quarter
    && t.received == s.received + n
    && t.displays == s.displays && t.lastHalfRead == s.lastHalfRead
    && if s.index + n < s.Size()
       then t.index == s.index + n && t.lap == s.lap && t.lapStart == s.lapStart && t.lapBase == s.lapBase
       else t.index == s.index + n - s.Size() == t.lapStart && t.lap == s.lap + 1 && t.lapBase == t.received
  }

  /** A pass of the thread with no poll between its steps. */
  lemma Deliver(quarter: nat, channels: nat, run: seq<Event>, n: nat) returns (longer: seq<Event>)
    requires Sized(quarter, channels) && Legal(quarter, channels, run)
    requires State(quarter, channels, run).phase.Waiting? && n <= quarter
    ensures longer == run + [Arrive(n, false)] + [Count] + [Wrap]
    ensures Legal(quarter, channels, longer)
    ensures Delivered(State(quarter, channels, run), State(quarter, channels, longer), n)
  {
    Extend(quarter, channels, run, Arrive(n, false));
    Extend(quarter, channels, run + [Arrive(n, false)], Count);
    Extend(quarter, channels, run + [Arrive(n, false)] + [Count], Wrap);
    longer := run + [Arrive(n, false)] + [Count] + [Wrap];
  }

  /** One transfer of 16 samples, and the first half of the next lap is torn when it is due. */
  lemma FirstHalfCanBeTorn() returns (run: seq<Event>)
    ensures Legal(32, 4, run)
    ensures var s := State(32, 4, run);
            Ready(s) == [FirstHalf] && !Whole(HalfOf(32, Show(s, FirstHalf)))
  {
    run := Deliver(32, 4, [], 32);
    run := Deliver(32, 4, run, 32);
    run := Deliver(32, 4, run, 32);
    run := Deliver(32, 4, run, 16);
    run := Deliver(32, 4, run, 32);
    run := Deliver(32, 4, run, 32);
    run := Deliver(32, 4, run, 32);
    DisplayWholeExactly(32, 4, run);
  }

  /** A first half displayed, a lap finished, and 48 samples of the next. */
  lemma DisplayThenWrap() returns (run: seq<Event>)
    ensures Legal(32, 4, run)
    ensures var s := State(32, 4, run);
            && s.phase.Waiting? && s.index == 48 && s.lap == 1 && s.lapStart == 0 && s.lapBase == 128
            && s.lastHalfRead.FirstHalf? && |s.displays| == 1
  {
    run := Deliver(32, 4, [], 32);
    run := Deliver(32, 4, run, 32);
    run := Deliver(32, 4, run, 32);
    Extend(32, 4, run, Poll);
    run := Deliver(32, 4, run + [Poll], 32);
    run := Deliver(32, 4, run, 32);
    run := Deliver(32, 4, run, 16);
  }

  /** A transfer that overtakes the second half before it is displayed. */
  lemma SecondHalfCanBeTorn() returns (run: seq<Event>)
    ensures Legal(32, 4, run)
    ensures var s := State(32, 4, run);
            && Ready(s) == [SecondHalf] && !Whole(HalfOf(32, Show(s, SecondHalf)))
            && s.phase == Arrived(32) && s.index == 48 && s.lap == 1 && s.lapBase == 128 && s.lapStart == 0
            && |s.displays| == 1
  {
    run := DisplayThenWrap();
    Extend(32, 4, run, Arrive(32, false));
    run := run + [Arrive(32, false)];
    DisplayWholeExactly(32, 4, run);
  }

  /** The same run, with the torn half displayed. */
  lemma TornHalfShown() returns (run: seq<Event>)
    ensures Legal(32, 4, run)
    ensures var s := State(32, 4, run);
            && s.phase == Arrived(32) && s.index == 48 && s.lap == 1 && s.lapBase == 128 && s.lapStart == 0
            && s.lastHalfRead.SecondHalf? && |s.displays| == 2 && SecondHalfFrom(s.displays[1], 0, 192)
  {
    run := SecondHalfCanBeTorn();
    RunInv(32, 4, run);
    Extend(32, 4, run, Poll);
    SecondShown(State(32, 4, run), 192);
    run := run + [Poll];
  }

  /** A display of a second half in some lap, beginning with a stream position. */
  predicate SecondHalfFrom(d: Display, lap: int, first: int) {
    d.half.SecondHalf? && d.lap == lap && |d.window| > 0 && d.window[0] == first
  }

  /** A second half begins with the slot in the middle of the buffer. */
  lemma SecondShown(s: Ring, first: int)
    requires Shaped(s) && s.slots[s.Half()] == first
    ensures SecondHalfFrom(Show(s, SecondHalf), s.lap - 1, first)
  {
  }

  lemma MiddleOfLapBefore(s: Ring)
    requires Inv(s) && s.lap > 0 && s.WrittenTo() < s.Half()
    ensures s.slots[s.Half()] == s.lapBase - s.lapStart - s.Half()
  {
  }

  /** The rest of that pass, and a poll, which displays the first half. */
  lemma TornHalfPassed() returns (run: seq<Event>)
    ensures Legal(32, 4, run)
    ensures var s := State(32, 4, run);
            && s.phase.Waiting? && s.index == 80 && s.lap == 1 && s.lapStart == 0 && s.received == 208
            && s.lastHalfRead.FirstHalf? && |s.displays| == 3 && SecondHalfFrom(s.displays[1], 0, 192)
  {
    run := TornHalfShown();
    RunInv(32, 4, run);
    Extend(32, 4, run, Count);
    Extend(32, 4, run + [Count], Wrap);
    Extend(32, 4, run + [Count] + [Wrap], Poll);
    run := run + [Count] + [Wrap] + [Poll];
  }

  /**
   With partial transfers what is displayed can repeat: the torn second half shows sample
   192 where it was overtaken, and the second half of the next lap shows it again.
   */
  lemma TornHalfRepeats() returns (run: seq<Event>)
    ensures Legal(32, 4, run)
    ensures var shown := State(32, 4, run).displays;
            |shown| == 4 && SecondHalfFrom(shown[1], 0, 192) && SecondHalfFrom(shown[3], 1, 192)
  {
    run := TornHalfPassed();
    run := Deliver(32, 4, run, 32);
    run := Deliver(32, 4, run, 16);
    RunInv(32, 4, run);
    MiddleOfLapBefore(State(32, 4, run));
    Extend(32, 4, run, Poll);
    SecondShown(State(32, 4, run), 192);
    run := run + [Poll];
  }

  // ---------- the longest lag ----------

  /** An attentive run of full transfers that ends between two passes of the thread. */
  ghost predicate Idle(quarter: nat, channels: nat, run: seq<Event>)
    requires Sized(quarter, channels)
  {
    && Legal(quarter, channels, run) && Attentive(quarter, channels, run) && FullOrEmpty(quarter, run)
    && State(quarter, channels, run).phase.Waiting?
  }

  lemma Continue(quarter: nat, channels: nat, run: seq<Event>, e: Event)
    requires Sized(quarter, channels) && Legal(quarter, channels, run)
    requires Attentive(quarter, channels, run) && FullOrEmpty(quarter, run)
    requires var s := State(quarter, channels, run);
             Enabled(s, e) && Leaves(s, Step(s, e), Polled(quarter, channels, run))
    requires e.Arrive? ==> e == Arrive(quarter, false)
    ensures Legal(quarter, channels, run + [e])
    ensures Attentive(quarter, channels, run + [e]) && FullOrEmpty(quarter, run + [e])
    ensures var s, t := State(quarter, channels, run), State(quarter, channels, run + [e]);
            && t == Step(s, e)
            && (ZoneOf(s) == ZoneOf(t) && Polled(quarter, channels, run) ==> Polled(quarter, channels, run + [e]))
  {
    Extend(quarter, channels, run, e);
    assert (run + [e])[..|run|] == run;
  }

  /** An undisturbed pass of the thread that gets a full transfer. */
  lemma Quarter(quarter: nat, channels: nat, run: seq<Event>) returns (longer: seq<Event>)
    requires Sized(quarter, channels) && Idle(quarter, channels, run)
    requires var s := State(quarter, channels, run);
             s.index == 2 * quarter || (s.index <= quarter && Polled(quarter, channels, run))
    ensures Idle(quarter, channels, longer)
    ensures var s, t := State(quarter, channels, run), State(quarter, channels, longer);
            && Delivered(s, t, quarter)
            && (s.index < quarter ==> Polled(quarter, channels, longer))
  {
    Continue(quarter, channels, run, Arrive(quarter, false));
    var arrived := run + [Arrive(quarter, false)];
    Continue(quarter, channels, arrived, Count);
    Continue(quarter, channels, arrived + [Count], Wrap);
    longer := arrived + [Count] + [Wrap];
  }

  /** For every size an attentive run of full transfers leaves a whole buffer undisplayed. */
  lemma LagReachesBufferSize(quarter: nat, channels: nat) returns (run: seq<Event>)
    requires Sized(quarter, channels)
    ensures Legal(quarter, channels, run) && FullOrEmpty(quarter, run) && Attentive(quarter, channels, run)
    ensures var s := State(quarter, channels, run);
            s.displays == [] && s.received == s.Size()
  {
    run := Quarter(quarter, channels, []);
    run := Quarter(quarter, channels, run);
    run := Quarter(quarter, channels, run);
    Continue(quarter, channels, run, Arrive(quarter, false));
    run := run + [Arrive(quarter, false)];
  }
}

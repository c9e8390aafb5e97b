/** The reading loop of wattsup/wattsup.c: retry, reset the meter, give up. */
module WattsupRetry {

  /** What one wu_read of the loop returns; the reset's own reads are not among these. */
  datatype Read<T> = Good(record: T) | Bad

  datatype Event<T> = Print(record: T) | Reset | GiveUp

  const WU_MAX_RETRY := 2

  // ---------- what happens at each read, seen from its neighbours ----------

  predicate BadAt<T>(results: seq<Read<T>>, j: int) {
    0 <= j < |results| && results[j].Bad?
  }

  /** A second failure in a row resets, a third gives up. */
  function EventAt<T>(results: seq<Read<T>>, j: nat): seq<Event<T>>
    requires j < |results|
  {
    match results[j]
    case Good(record) => [Print(record)]
    case Bad =>
      if !BadAt(results, j - 1) then []
      else if !BadAt(results, j - 2) then [Reset]
      else [GiveUp]
  }

  function EventsOf<T>(results: seq<Read<T>>): seq<Event<T>> {
    if results == [] then []
    else EventsOf(results[..|results| - 1]) + EventAt(results, |results| - 1)
  }

  function Records<T>(results: seq<Read<T>>): seq<T> {
    if results == [] then []
    else
      Records(results[..|results| - 1])
      + match results[|results| - 1] case Good(record) => [record] case Bad => []
  }

  /** The last read makes the loop stop: a third failure in a row, or the record asked for last. */
  ghost predicate Stops<T>(results: seq<Read<T>>, wuCount: int) {
    var n := |results|;
    || (BadAt(results, n - 1) && BadAt(results, n - 2) && BadAt(results, n - 3))
    || (n > 0 && results[n - 1].Good? && wuCount > 0 && |Records(results)| == wuCount)
  }

  // ---------- the loop ----------

  /**
   wu_read_data on the reads it makes; `used` of them are made before it returns, all if
   it is still reading.  A wuCount of 0 sets no limit.
   */
  method ReadData<T>(results: seq<Read<T>>, wuCount: int) returns (events: seq<Event<T>>, used: nat)
    ensures used <= |results|
    ensures events == EventsOf(results[..used])
    ensures forall m :: 0 <= m < used ==> !Stops(results[..m], wuCount)
    ensures used < |results| ==> Stops(results[..used], wuCount)
    ensures wuCount > 0 ==> |Records(results[..used])| <= wuCount
  {
    var retry, i := 0, 0;
    events, used := [], 0;
    while used < |results|
      invariant used <= |results|
      invariant events == EventsOf(results[..used])
      invariant forall m :: 0 <= m <= used ==> !Stops(results[..m], wuCount)
      invariant 0 <= retry <= WU_MAX_RETRY
      invariant retry >= 1 <==> BadAt(results[..used], used - 1)
      invariant retry == 2 <==> BadAt(results[..used], used - 1) && BadAt(results[..used], used - 2)
      invariant wuCount != 0 ==> i == |Records(results[..used])|
      invariant wuCount > 0 ==> i < wuCount
    {
      var ret := results[used];
      assert results[..used + 1][..used] == results[..used];
      used := used + 1;
      if ret.Bad? {
        retry := retry + 1;
        if retry < WU_MAX_RETRY {
          continue;
        } else if retry == WU_MAX_RETRY {
          events := events + [Reset];
          continue;
        }
        events := events + [GiveUp];
        return;
      } else if retry != 0 {
        retry := 0;
      }
      events := events + [Print(ret.record)];
      if wuCount != 0 {
        i := i + 1;
        if i == wuCount {
          return;
        }
      }
    }
  }

  // ---------- what the events amount to ----------

  function PrintedOf<T>(events: seq<Event<T>>): seq<T> {
    if events == [] then []
    else
      PrintedOf(events[..|events| - 1])
      + match events[|events| - 1] case Print(record) => [record] case _ => []
  }

  /** The loop stops at a third failure in a row, and after printing the last record asked for. */
  lemma StopsExactly<T>(results: seq<Read<T>>, wuCount: int)
    ensures Stops(results, wuCount) <==>
              var n := |results|;
              && n > 0
              && if results[n - 1].Bad? then n >= 3 && results[n - 2].Bad? && results[n - 3].Bad?
                 else wuCount > 0 && |Records(results)| == wuCount
  {
  }

  /** A good read is printed and nothing else; of failures in a row only the second resets, and the third gives up. */
  lemma EventExactly<T>(results: seq<Read<T>>, j: nat)
    requires j < |results|
    ensures results[j].Good? ==> EventAt(results, j) == [Print(results[j].record)]
    ensures results[j].Bad? && (j == 0 || results[j - 1].Good?) ==> EventAt(results, j) == []
    ensures results[j].Bad? && j >= 1 && results[j - 1].Bad? ==>
              EventAt(results, j) == if j == 1 || results[j - 2].Good? then [Reset] else [GiveUp]
  {
  }

  /** What is printed is exactly the records read, in order. */
  lemma {:induction false} PrintsTheRecords<T>(results: seq<Read<T>>)
    ensures PrintedOf(EventsOf(results)) == Records(results)
  {
    if results != [] {
      var earlier := results[..|results| - 1];
      PrintsTheRecords(earlier);
      var last := EventAt(results, |results| - 1);
      if last != [] {
        assert EventsOf(results)[..|EventsOf(results)| - 1] == EventsOf(earlier);
      } else {
        assert EventsOf(results) == EventsOf(earlier);
      }
    }
  }

  /** A longest stretch of failures. */
  ghost predicate FailureRun<T>(results: seq<Read<T>>, from: nat, end: nat) {
    && from < end <= |results|
    && (forall j :: from <= j < end ==> results[j].Bad?)
    && !BadAt(results, from - 1)
    && !BadAt(results, end)
  }

  /** A stretch of failures resets the meter once, at its second failure, if it has one. */
  lemma OneResetPerRun<T>(results: seq<Read<T>>, from: nat, end: nat, j: nat)
    requires FailureRun(results, from, end) && from <= j < end
    ensures EventAt(results, j) == [Reset] <==> j == from + 1
    ensures EventAt(results, j) == [GiveUp] <==> j >= from + 2
  {
    if j > from {
      assert results[j - 1].Bad?;
    }
    if j > from + 1 {
      assert results[j - 2].Bad?;
    }
  }

  /** Every read before the loop returns either succeeded, or failed with at most one failure before it. */
  lemma NoThreeFailuresBefore<T>(results: seq<Read<T>>, wuCount: int, used: nat, j: nat)
    requires j + 1 < used <= |results|
    requires forall m :: 0 <= m < used ==> !Stops(results[..m], wuCount)
    ensures EventAt(results, j) != [GiveUp]
  {
    assert !Stops(results[..j + 1], wuCount);
  }
}

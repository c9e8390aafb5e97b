/**
 The 64-bit totals that rasp-pi-pmu/rasp-pi-pmu.c keeps over three 32-bit
 hardware counters.  A history is the list of one counter's true event counts at the
 updates made since the counters were reset; the hardware shows each modulo 2^32.
 */
module PmuCounters {
  import opened Words

  /** The count at the last update; the reset leaves 0. */
  function Last(h: seq<nat>): nat {
    if h == [] then 0 else h[|h| - 1]
  }

  /** Event counts never fall. */
  ghost predicate Rising(h: seq<nat>) {
    forall i, j :: 0 <= i <= j < |h| ==> h[i] <= h[j]
  }

  /** Fewer than 2^32 events from each update to the next, and before the first. */
  ghost predicate PolledInTime(h: seq<nat>) {
    forall i :: 0 <= i < |h| ==> h[i] < Last(h[..i]) + MODULUS
  }

  // ---------- one counter ----------

  /** What one update adds to a total; 32-bit arithmetic does not wrap on the way. */
  function Increment(before: Word, now: Word): Word {
    if now < before then 0xffff_ffff - before + now + 1 else now - before
  }

  /** The total after a history of updates. */
  function Total(h: seq<nat>): nat {
    if h == [] then 0
    else var earlier := h[..|h| - 1];
         Total(earlier) + Increment(Truncate(Last(earlier)), Truncate(Last(h)))
  }

  /** How many updates of a history saw the counter smaller than before. */
  function Overflows(h: seq<nat>): nat {
    if h == [] then 0
    else var earlier := h[..|h| - 1];
         Overflows(earlier) + if Truncate(Last(h)) < Truncate(Last(earlier)) then 1 else 0
  }

  /** The increment is the distance from one reading to the next round the 32-bit circle. */
  lemma IncrementIsDistance(from: nat, to: nat)
    requires from <= to
    ensures var inc := Increment(Truncate(from), Truncate(to));
            var wrap := if Truncate(to) < Truncate(from) then 1 else 0;
            var crossings := to / MODULUS - from / MODULUS;
            && (to - from) - inc == MODULUS * (crossings - wrap)
            && wrap <= crossings
            && (wrap == crossings <==> to - from < MODULUS)
  {
    var a, b := from / MODULUS, to / MODULUS;
    assert from == MODULUS * a + Truncate(from) && to == MODULUS * b + Truncate(to);
  }

  /**
   Whatever the gaps between updates, the total falls short of the truth by 2^32 for
   each time round that no update noticed.
   */
  lemma {:induction false} TotalFallsShort(h: seq<nat>)
    requires Rising(h)
    ensures Overflows(h) <= Last(h) / MODULUS
    ensures Last(h) - Total(h) == MODULUS * (Last(h) / MODULUS - Overflows(h))
  {
    if h != [] {
      var earlier := h[..|h| - 1];
      RisingAtEnd(h);
      TotalFallsShort(earlier);
      IncrementIsDistance(Last(earlier), Last(h));
    }
  }

  lemma PolledInTimeAtEnd(h: seq<nat>)
    requires h != []
    ensures var earlier := h[..|h| - 1];
            PolledInTime(h) <==> PolledInTime(earlier) && Last(h) < Last(earlier) + MODULUS
  {
    var earlier := h[..|h| - 1];
    assert forall i :: 0 <= i < |earlier| ==> earlier[..i] == h[..i] && earlier[i] == h[i];
    if PolledInTime(h) {
      assert h[|h| - 1] < Last(h[..|h| - 1]) + MODULUS;
    }
    if PolledInTime(earlier) && Last(h) < Last(earlier) + MODULUS {
      forall i | 0 <= i < |h|
        ensures h[i] < Last(h[..i]) + MODULUS
      {
        if i < |earlier| {
          assert earlier[i] < Last(earlier[..i]) + MODULUS;
        }
      }
    }
  }

  lemma RisingAtEnd(h: seq<nat>)
    requires Rising(h) && h != []
    ensures Rising(h[..|h| - 1]) && Last(h[..|h| - 1]) <= Last(h)
  {
    if |h| > 1 {
      assert h[|h| - 2] <= h[|h| - 1];
    }
  }

  /** No wrap goes unnoticed exactly when every gap stays below 2^32 events. */
  lemma {:induction false} NoticedExactly(h: seq<nat>)
    requires Rising(h)
    ensures Overflows(h) == Last(h) / MODULUS <==> PolledInTime(h)
  {
    if h != [] {
      var earlier := h[..|h| - 1];
      RisingAtEnd(h);
      NoticedExactly(earlier);
      TotalFallsShort(earlier);
      PolledInTimeAtEnd(h);
      IncrementIsDistance(Last(earlier), Last(h));
    }
  }

  /**
   The 64-bit total never exceeds the true count, is congruent to it modulo 2^32, and
   is equal to it exactly when fewer than 2^32 events came between updates; the
   overflow count is then the number of times the counter went round.
   */
  lemma TotalExactly(h: seq<nat>)
    requires Rising(h)
    ensures Total(h) <= Last(h) && Truncate(Total(h)) == Truncate(Last(h))
    ensures Total(h) == Last(h) <==> PolledInTime(h)
    ensures Overflows(h) == Last(h) / MODULUS <==> PolledInTime(h)
  {
    TotalFallsShort(h);
    NoticedExactly(h);
    SameResidue(Total(h), Last(h), Last(h) / MODULUS - Overflows(h));
  }

  lemma SameResidue(a: nat, b: nat, k: nat)
    requires b - a == MODULUS * k
    ensures a <= b && Truncate(a) == Truncate(b)
    ensures a == b <==> k == 0
  {
    assert b == MODULUS * (a / MODULUS + k) + a % MODULUS;
  }

  // ---------- the driver's state ----------

  /** A counter's `old` and `total` variables after a history. */
  ghost predicate Tracks(h: seq<nat>, before: Word, total: int) {
    before == Truncate(Last(h)) && total == Total(h)
  }

  lemma Extend(h: seq<nat>, n: nat, before: Word, total: int)
    requires Tracks(h, before, total)
    ensures Tracks(h + [n], Truncate(n), total + Increment(before, Truncate(n)))
    ensures Overflows(h + [n]) == Overflows(h) + if Truncate(n) < before then 1 else 0
  {
    assert (h + [n])[..|h|] == h;
  }

  /** The block of update_counters that is written out for each of the counters. */
  method Accumulate(before: Word, now: Word, total: int, overflows: int, ghost h: seq<nat>, ghost trueCount: nat)
    returns (newTotal: int, newOverflows: int)
    requires Tracks(h, before, total) && now == Truncate(trueCount)
    ensures Tracks(h + [trueCount], now, newTotal)
    ensures newOverflows - overflows == Overflows(h + [trueCount]) - Overflows(h)
  {
    Extend(h, trueCount, before, total);
    newTotal, newOverflows := total, overflows;
    if now < before {
      newOverflows := newOverflows + 1;
      newTotal := newTotal + Truncate(Truncate(0xffff_ffff - before) + now + 1);
    } else {
      newTotal := newTotal + Truncate(now - before);
    }
  }

  /** The static variables of the module, with the histories of the three counters. */
  class Driver {
    var oldCycles: Word
    var oldCount1: Word
    var oldCount2: Word
    var totalCycles: int
    var totalCount1: int
    var totalCount2: int
    var overflows: int
    ghost var cyclesSeen: seq<nat>
    ghost var count1Seen: seq<nat>
    ghost var count2Seen: seq<nat>

    ghost predicate Valid()
      reads this
    {
      && Tracks(cyclesSeen, oldCycles, totalCycles)
      && Tracks(count1Seen, oldCount1, totalCount1)
      && Tracks(count2Seen, oldCount2, totalCount2)
      && overflows == Overflows(cyclesSeen) + Overflows(count1Seen) + Overflows(count2Seen)
    }

    /** Start-up: totals and hardware counters are reset. */
    constructor ()
      ensures Valid() && cyclesSeen == count1Seen == count2Seen == []
    {
      oldCycles, oldCount1, oldCount2 := 0, 0, 0;
      totalCycles, totalCount1, totalCount2 := 0, 0, 0;
      overflows := 0;
      cyclesSeen, count1Seen, count2Seen := [], [], [];
    }

    /** The block for the cycle counter. */
    method UpdateCycles(cycles: Word, ghost trueCycles: nat)
      requires Valid() && cycles == Truncate(trueCycles)
      modifies this`oldCycles, this`totalCycles, this`overflows, this`cyclesSeen
      ensures Valid() && cyclesSeen == old(cyclesSeen) + [trueCycles]
    {
      totalCycles, overflows := Accumulate(oldCycles, cycles, totalCycles, overflows, cyclesSeen, trueCycles);
      oldCycles := cycles;
      cyclesSeen := cyclesSeen + [trueCycles];
    }

    /** The block for event counter 1. */
    method UpdateCount1(count1: Word, ghost trueCount1: nat)
      requires Valid() && count1 == Truncate(trueCount1)
      modifies this`oldCount1, this`totalCount1, this`overflows, this`count1Seen
      ensures Valid() && count1Seen == old(count1Seen) + [trueCount1]
    {
      totalCount1, overflows := Accumulate(oldCount1, count1, totalCount1, overflows, count1Seen, trueCount1);
      oldCount1 := count1;
      count1Seen := count1Seen + [trueCount1];
    }

    /** The block for event counter 2. */
    method UpdateCount2(count2: Word, ghost trueCount2: nat)
      requires Valid() && count2 == Truncate(trueCount2)
      modifies this`oldCount2, this`totalCount2, this`overflows, this`count2Seen
      ensures Valid() && count2Seen == old(count2Seen) + [trueCount2]
    {
      totalCount2, overflows := Accumulate(oldCount2, count2, totalCount2, overflows, count2Seen, trueCount2);
      oldCount2 := count2;
      count2Seen := count2Seen + [trueCount2];
    }

    /** One update; the readings are what the hardware shows of the three true counts. */
    method UpdateCounters(cycles: Word, count1: Word, count2: Word,
                          ghost trueCycles: nat, ghost trueCount1: nat, ghost trueCount2: nat)
      requires Valid()
      requires cycles == Truncate(trueCycles)
      requires count1 == Truncate(trueCount1)
      requires count2 == Truncate(trueCount2)
      modifies this
      ensures Valid()
      ensures cyclesSeen == old(cyclesSeen) + [trueCycles]
      ensures count1Seen == old(count1Seen) + [trueCount1]
      ensures count2Seen == old(count2Seen) + [trueCount2]
    {
      UpdateCycles(cycles, trueCycles);
      UpdateCount1(count1, trueCount1);
      UpdateCount2(count2, trueCount2);
    }
  }

  /**
   For the three counters together: each reported total is at most the true count; all
   three are exact precisely when every counter is polled in time, and precisely then
   `overflows` is the sum of the three quotients by 2^32.
   */
  lemma ReportIsExact(cycles: seq<nat>, count1: seq<nat>, count2: seq<nat>)
    requires Rising(cycles) && Rising(count1) && Rising(count2)
    ensures Total(cycles) <= Last(cycles) && Total(count1) <= Last(count1) && Total(count2) <= Last(count2)
    ensures var exact := && Total(cycles) == Last(cycles)
                         && Total(count1) == Last(count1)
                         && Total(count2) == Last(count2);
            var inTime := PolledInTime(cycles) && PolledInTime(count1) && PolledInTime(count2);
            var overflows := Overflows(cycles) + Overflows(count1) + Overflows(count2);
            && (exact <==> inTime)
            && (inTime <==>
                  overflows == Last(cycles) / MODULUS + Last(count1) / MODULUS + Last(count2) / MODULUS)
  {
    TotalExactly(cycles);
    TotalExactly(count1);
    TotalExactly(count2);
    TotalFallsShort(cycles);
    TotalFallsShort(count1);
    TotalFallsShort(count2);
  }
}

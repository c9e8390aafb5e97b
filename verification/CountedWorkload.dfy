/**
 The workload measured by the counters: event 1 counts executed branches and event 2
 executed instructions, as rasp-pi-pmu.c configures them.
 */
module CountedWorkload {
  import opened Words
  import opened PmuCounters
  import T = TenBillion

  const PROGRAM := T.Program(T.SHIPPED_COUNT, T.SHIPPED_OUTER_COUNT)

  /** Instructions executed by each of some times; the workload stops at its system call. */
  function InstructionsAt(start: T.Cpu, at: seq<nat>): seq<nat> {
    seq(|at|, i requires 0 <= i < |at| => T.Executed(PROGRAM, start, at[i]))
  }

  /** Conditional branches executed by each of some times. */
  function BranchesAt(start: T.Cpu, at: seq<nat>): seq<nat> {
    seq(|at|, i requires 0 <= i < |at| => T.Branches(PROGRAM, start, at[i]))
  }

  /** Branches come no faster than instructions, so both counters are polled in time. */
  lemma BothPolledInTime(start: T.Cpu, at: seq<nat>)
    requires Rising(at) && PolledInTime(at)
    ensures Rising(BranchesAt(start, at)) && PolledInTime(BranchesAt(start, at))
    ensures Rising(InstructionsAt(start, at)) && PolledInTime(InstructionsAt(start, at))
  {
    var branches, instructions := BranchesAt(start, at), InstructionsAt(start, at);
    forall i, j | 0 <= i <= j < |at|
      ensures branches[i] <= branches[j] && instructions[i] <= instructions[j]
    {
      T.CountsBetween(PROGRAM, start, at[i], at[j]);
    }
    forall i | 0 <= i < |at|
      ensures branches[i] < Last(branches[..i]) + MODULUS
      ensures instructions[i] < Last(instructions[..i]) + MODULUS
    {
      assert at[i] < Last(at[..i]) + MODULUS;
      if i == 0 {
        T.CountsBounded(PROGRAM, start, at[0]);
      } else {
        T.CountsBetween(PROGRAM, start, at[i - 1], at[i]);
      }
    }
  }

  /**
   However the updates are spaced, if fewer than 2^32 cycles pass between two of them and
   the last finds the workload at its system call, the driver reports ten billion
   instructions, 3076923076 branches, and two wraps of the instruction counter.
   */
  lemma WorkloadIsCountedExactly(start: T.Cpu, at: seq<nat>)
    requires start.pc == 0
    requires Rising(at) && PolledInTime(at) && T.Halted(PROGRAM, T.After(PROGRAM, start, Last(at)))
    ensures Total(InstructionsAt(start, at)) == 10_000_000_000 && Overflows(InstructionsAt(start, at)) == 2
    ensures Total(BranchesAt(start, at)) == 3_076_923_076 && Overflows(BranchesAt(start, at)) == 0
  {
    BothPolledInTime(start, at);
    TotalExactly(InstructionsAt(start, at));
    TotalExactly(BranchesAt(start, at));
    T.ShippedProgramRunsTenBillion(start, Last(at));
  }
}

/**
 The ten-billion-instruction workload of rasp-pi-pmu/tenbillion.S, run by a
 small-step semantics of the six ARM instructions it uses.  The two literals
 `count` and `outer_count` are arbitrary 32-bit words here.
 */
module TenBillion {
  import opened Words

  datatype Reg = R0 | R2 | R3 | R7

  datatype Instr =
    | Ldr(rd: Reg, literal: Word)
    | Add(rd: Reg, rn: Reg, addend: int)
    | Cmp(rn: Reg, imm: Word)
    | Bne(target: nat)
    | Mov(rd: Reg, imm: Word)
    | Swi

  /** Program counter (in instructions), the registers used, and the Z flag. */
  datatype Cpu = Cpu(pc: nat, r0: Word, r2: Word, r3: Word, r7: Word, z: bool)
  {
    function Get(r: Reg): Word {
      match r
      case R0 => r0
      case R2 => r2
      case R3 => r3
      case R7 => r7
    }

    function Set(r: Reg, w: Word): Cpu {
      match r
      case R0 => this.(r0 := w)
      case R2 => this.(r2 := w)
      case R3 => this.(r3 := w)
      case R7 => this.(r7 := w)
    }
  }

  const SYSCALL_EXIT: Word := 1
  const OUTER_LOOP := 1
  const INNER_LOOP := 2
  const EXIT_CALL := 10

  /** The program text, with the two literal words at its end filled in. */
  function Program(count: Word, outerCount: Word): seq<Instr> {
    [ Ldr(R3, outerCount),
      Ldr(R2, count),           // outer_loop
      Add(R2, R2, -1),          // inner_loop
      Cmp(R2, 0),
      Bne(INNER_LOOP),
      Add(R3, R3, -1),
      Cmp(R3, 0),
      Bne(OUTER_LOOP),
      Mov(R0, 0),               // exit
      Mov(R7, SYSCALL_EXIT),
      Swi ]
  }

  /** The processor has arrived at the system call, or left the program. */
  predicate Halted(program: seq<Instr>, s: Cpu) {
    s.pc >= |program| || program[s.pc] == Swi
  }

  /** One instruction; a halted processor stays where it is. */
  function Step(program: seq<Instr>, s: Cpu): Cpu {
    if Halted(program, s) then s else
      var next := s.(pc := s.pc + 1);
      match program[s.pc]
      case Ldr(rd, w) => next.Set(rd, w)
      case Add(rd, rn, addend) => next.Set(rd, Truncate(s.Get(rn) + addend))
      case Cmp(rn, imm) => next.(z := s.Get(rn) == imm)
      case Bne(target) => if s.z then next else s.(pc := target)
      case Mov(rd, imm) => next.Set(rd, imm)
      case Swi => s
  }

  function After(program: seq<Instr>, s: Cpu, n: nat): Cpu
    decreases n
  {
    if n == 0 then s else After(program, Step(program, s), n - 1)
  }

  function IsBranch(program: seq<Instr>, s: Cpu): nat {
    if !Halted(program, s) && program[s.pc].Bne? then 1 else 0
  }

  /** Conditional branches executed, taken or not, in the first n instructions. */
  function Branches(program: seq<Instr>, s: Cpu, n: nat): nat
    decreases n
  {
    if n == 0 then 0 else IsBranch(program, s) + Branches(program, Step(program, s), n - 1)
  }

  /** Instructions executed in the first n cycles; a halted processor executes none. */
  function Executed(program: seq<Instr>, s: Cpu, n: nat): nat
    decreases n
  {
    if n == 0 then 0
    else (if Halted(program, s) then 0 else 1) + Executed(program, Step(program, s), n - 1)
  }

  // ---------- the countdown ----------

  /** How often a loop that decrements w to zero runs: 0 wraps round first. */
  function Iterations(w: Word): nat {
    if w == 0 then MODULUS else w
  }

  /** The cost of n passes of the outer loop, `pass` each. */
  function Passes(pass: nat, n: nat): nat {
    if n == 0 then 0 else pass + Passes(pass, n - 1)
  }

  lemma {:induction false} PassesMultiply(pass: nat, n: nat)
    ensures Passes(pass, n) == pass * n
  {
    if n > 0 {
      PassesMultiply(pass, n - 1);
      assert pass * n == pass + pass * (n - 1);
    }
  }

  /** States the program can be in: the Z flag is meaningful at the branches. */
  predicate Consistent(s: Cpu) {
    && s.pc <= EXIT_CALL
    && (s.pc == 4 ==> s.z == (s.r2 == 0))
    && (s.pc == 5 ==> s.r2 == 0)
    && (6 <= s.pc ==> s.r2 == 0)
    && (s.pc == 7 ==> s.z == (s.r3 == 0))
    && (8 <= s.pc ==> s.r3 == 0 && s.z)
    && (9 <= s.pc ==> s.r0 == 0)
    && (10 <= s.pc ==> s.r7 == SYSCALL_EXIT)
  }

  /** Instructions still to run before the system call. */
  function Remaining(count: Word, outerCount: Word, s: Cpu): nat
    requires s.pc <= EXIT_CALL
  {
    var pass := 4 + 3 * Iterations(count);
    match s.pc
    case 0 => 1 + Passes(pass, Iterations(outerCount)) + 2
    case 1 => Passes(pass, Iterations(s.r3)) + 2
    case 2 => 3 * Iterations(s.r2) + 3 + Passes(pass, Iterations(s.r3) - 1) + 2
    case 3 => 2 + 3 * s.r2 + 3 + Passes(pass, Iterations(s.r3) - 1) + 2
    case 4 => 1 + 3 * s.r2 + 3 + Passes(pass, Iterations(s.r3) - 1) + 2
    case 5 => 3 + Passes(pass, Iterations(s.r3) - 1) + 2
    case 6 => 2 + Passes(pass, s.r3) + 2
    case 7 => 1 + Passes(pass, s.r3) + 2
    case _ => EXIT_CALL - s.pc
  }

  /** Conditional branches still to run before the system call. */
  function RemainingBranches(count: Word, outerCount: Word, s: Cpu): nat
    requires s.pc <= EXIT_CALL
  {
    var pass := Iterations(count) + 1;
    match s.pc
    case 0 => Passes(pass, Iterations(outerCount))
    case 1 => Passes(pass, Iterations(s.r3))
    case 2 => Iterations(s.r2) + 1 + Passes(pass, Iterations(s.r3) - 1)
    case 3 => s.r2 + 2 + Passes(pass, Iterations(s.r3) - 1)
    case 4 => s.r2 + 2 + Passes(pass, Iterations(s.r3) - 1)
    case 5 => 1 + Passes(pass, Iterations(s.r3) - 1)
    case 6 => 1 + Passes(pass, s.r3)
    case 7 => 1 + Passes(pass, s.r3)
    case _ => 0
  }

  /** The state in which the system call is made. */
  function ExitState(): Cpu {
    Cpu(EXIT_CALL, 0, 0, 0, SYSCALL_EXIT, true)
  }

  /** The next state in closed form: decrementing 0 starts a count of 2^32. */
  function Next(count: Word, outerCount: Word, s: Cpu): Cpu
    requires Consistent(s) && s.pc < EXIT_CALL
  {
    var next := s.(pc := s.pc + 1);
    match s.pc
    case 0 => next.(r3 := outerCount)
    case 1 => next.(r2 := count)
    case 2 => next.(r2 := Iterations(s.r2) - 1)
    case 3 => next.(z := s.r2 == 0)
    case 4 => if s.r2 == 0 then next else s.(pc := INNER_LOOP)
    case 5 => next.(r3 := Iterations(s.r3) - 1)
    case 6 => next.(z := s.r3 == 0)
    case 7 => if s.r3 == 0 then next else s.(pc := OUTER_LOOP)
    case 8 => next.(r0 := 0)
    case _ => next.(r7 := SYSCALL_EXIT)
  }

  lemma StepIsNext(count: Word, outerCount: Word, s: Cpu)
    requires Consistent(s) && s.pc < EXIT_CALL
    ensures Step(Program(count, outerCount), s) == Next(count, outerCount, s)
    ensures !Halted(Program(count, outerCount), s)
    ensures IsBranch(Program(count, outerCount), s) == if s.pc == 4 || s.pc == 7 then 1 else 0
  {
    var program := Program(count, outerCount);
    match s.pc
    case 0 => assert program[0] == Ldr(R3, outerCount);
    case 1 => assert program[1] == Ldr(R2, count);
    case 2 => assert program[2] == Add(R2, R2, -1);
    case 3 => assert program[3] == Cmp(R2, 0);
    case 4 => assert program[4] == Bne(INNER_LOOP);
    case 5 => assert program[5] == Add(R3, R3, -1);
    case 6 => assert program[6] == Cmp(R3, 0);
    case 7 => assert program[7] == Bne(OUTER_LOOP);
    case 8 => assert program[8] == Mov(R0, 0);
    case _ => assert program[9] == Mov(R7, SYSCALL_EXIT);
  }

  /** Every instruction brings the system call exactly one instruction nearer. */
  lemma StepCounts(count: Word, outerCount: Word, s: Cpu)
    requires Consistent(s) && s.pc < EXIT_CALL
    ensures var program := Program(count, outerCount);
            var next := Step(program, s);
            && Consistent(next)
            && Remaining(count, outerCount, s) == 1 + Remaining(count, outerCount, next)
            && (RemainingBranches(count, outerCount, s)
               == IsBranch(program, s) + RemainingBranches(count, outerCount, next))
  {
    StepIsNext(count, outerCount, s);
  }

  lemma {:induction false} Countdown(count: Word, outerCount: Word, s: Cpu, n: nat)
    requires Consistent(s)
    ensures var program := Program(count, outerCount);
            var left := Remaining(count, outerCount, s);
            && (Halted(program, After(program, s, n)) <==> left <= n)
            && (left <= n ==>
                  && After(program, s, n) == ExitState()
                  && Branches(program, s, n) == RemainingBranches(count, outerCount, s))
    decreases n
  {
    var program := Program(count, outerCount);
    if s.pc == EXIT_CALL {
      Stuck(program, s, n);
    } else if n > 0 {
      StepCounts(count, outerCount, s);
      Countdown(count, outerCount, Step(program, s), n - 1);
    } else {
      StepCounts(count, outerCount, s);
    }
  }

  lemma {:induction false} Stuck(program: seq<Instr>, s: Cpu, n: nat)
    requires Halted(program, s)
    ensures After(program, s, n) == s && Branches(program, s, n) == 0 && Executed(program, s, n) == 0
    decreases n
  {
    if n > 0 {
      Stuck(program, s, n - 1);
    }
  }

  /** Every cycle executes an instruction, up to the system call and no further. */
  lemma {:induction false} ExecutedUntilExit(count: Word, outerCount: Word, s: Cpu, n: nat)
    requires Consistent(s)
    ensures var left := Remaining(count, outerCount, s);
            Executed(Program(count, outerCount), s, n) == if n <= left then n else left
    decreases n
  {
    var program := Program(count, outerCount);
    if s.pc == EXIT_CALL {
      Stuck(program, s, n);
    } else if n > 0 {
      StepCounts(count, outerCount, s);
      StepIsNext(count, outerCount, s);
      ExecutedUntilExit(count, outerCount, Step(program, s), n - 1);
    }
  }

  /**
   From any register contents the program first stands at its system call after
   exactly 1 + (4 + 3x)y + 2 instructions, having executed (x + 1)y conditional
   branches, where a literal of 0 stands for 2^32 iterations.
   */
  lemma ReachesExitExactly(count: Word, outerCount: Word, start: Cpu, n: nat)
    requires start.pc == 0
    ensures var program := Program(count, outerCount);
            var total := 1 + (4 + 3 * Iterations(count)) * Iterations(outerCount) + 2;
            && (Halted(program, After(program, start, n)) <==> total <= n)
            && After(program, start, total) == ExitState()
            && Executed(program, start, n) == (if n <= total then n else total)
            && (total <= n ==>
                  Branches(program, start, n) == (Iterations(count) + 1) * Iterations(outerCount))
  {
    PassesMultiply(4 + 3 * Iterations(count), Iterations(outerCount));
    PassesMultiply(Iterations(count) + 1, Iterations(outerCount));
    Countdown(count, outerCount, start, n);
    ExecutedUntilExit(count, outerCount, start, n);
    Countdown(count, outerCount, start, Remaining(count, outerCount, start));
  }

  /** The same counts, for a total that has been worked out. */
  lemma CountsAt(count: Word, outerCount: Word, start: Cpu, n: nat, total: nat, branches: nat)
    requires start.pc == 0
    requires total == 1 + (4 + 3 * Iterations(count)) * Iterations(outerCount) + 2
    requires branches == (Iterations(count) + 1) * Iterations(outerCount)
    ensures var program := Program(count, outerCount);
            && (Halted(program, After(program, start, n)) <==> total <= n)
            && Executed(program, start, n) == (if n <= total then n else total)
            && (total <= n ==> Branches(program, start, n) == branches)
  {
    ReachesExitExactly(count, outerCount, start, n);
  }

  const SHIPPED_COUNT: Word := 3
  const SHIPPED_OUTER_COUNT: Word := 769230769

  /** The shipped literals give the ten billion instructions of the file's name. */
  lemma ShippedProgramRunsTenBillion(start: Cpu, n: nat)
    requires start.pc == 0
    ensures var program := Program(SHIPPED_COUNT, SHIPPED_OUTER_COUNT);
            && (Halted(program, After(program, start, n)) <==> 10_000_000_000 <= n)
            && Executed(program, start, n) == (if n <= 10_000_000_000 then n else 10_000_000_000)
            && (10_000_000_000 <= n ==> Branches(program, start, n) == 3_076_923_076)
  {
    CountsAt(SHIPPED_COUNT, SHIPPED_OUTER_COUNT, start, n, 10_000_000_000, 3_076_923_076);
  }

  /** Fetch and execute until the system call, counting as the hardware does. */
  method Execute(count: Word, outerCount: Word, start: Cpu)
    returns (instructions: nat, branches: nat, s: Cpu)
    requires start.pc == 0
    ensures instructions == 1 + (4 + 3 * Iterations(count)) * Iterations(outerCount) + 2
    ensures branches == (Iterations(count) + 1) * Iterations(outerCount)
    ensures s == ExitState()
  {
    var program := Program(count, outerCount);
    PassesMultiply(4 + 3 * Iterations(count), Iterations(outerCount));
    PassesMultiply(Iterations(count) + 1, Iterations(outerCount));
    instructions, branches, s := 0, 0, start;
    while program[s.pc] != Swi
      invariant Consistent(s)
      invariant instructions + Remaining(count, outerCount, s) == Remaining(count, outerCount, start)
      invariant branches + RemainingBranches(count, outerCount, s) == RemainingBranches(count, outerCount, start)
      decreases Remaining(count, outerCount, s)
    {
      StepCounts(count, outerCount, s);
      branches := branches + IsBranch(program, s);
      instructions := instructions + 1;
      s := Step(program, s);
    }
  }

  // ---------- counts over part of a run ----------

  lemma {:induction false} CountsSplit(program: seq<Instr>, s: Cpu, n: nat, d: nat)
    ensures Branches(program, s, n + d) == Branches(program, s, n) + Branches(program, After(program, s, n), d)
    ensures Executed(program, s, n + d) == Executed(program, s, n) + Executed(program, After(program, s, n), d)
    decreases n
  {
    if n > 0 {
      CountsSplit(program, Step(program, s), n - 1, d);
    }
  }

  lemma {:induction false} CountsBounded(program: seq<Instr>, s: Cpu, n: nat)
    ensures Branches(program, s, n) <= Executed(program, s, n) <= n
    decreases n
  {
    if n > 0 {
      CountsBounded(program, Step(program, s), n - 1);
    }
  }

  /** Between two points of a run there are at most as many branches as instructions, and those as cycles. */
  lemma CountsBetween(program: seq<Instr>, s: Cpu, from: nat, to: nat)
    requires from <= to
    ensures var branches := Branches(program, s, to) - Branches(program, s, from);
            var instructions := Executed(program, s, to) - Executed(program, s, from);
            0 <= branches <= instructions <= to - from
  {
    CountsSplit(program, s, from, to - from);
    CountsBounded(program, After(program, s, from), to - from);
  }
}

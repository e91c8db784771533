/** Whole programs run through `Semantics.Run`: the machine's behaviour on
    small assembled programs, followed instruction by instruction. Register
    numbers and values are parameters, so each lemma covers a family of
    programs. */
module Scenarios {
  import opened Words
  import opened Wrappers
  import opened UmInstruction
  import opened SegmentTable
  import opened Semantics

  /** An instruction with a register triple. */
  function Triple(op: Opcode, a: Reg, b: Reg, c: Reg): (i: Instruction)
    requires op != Opcode.LoadValue && op != Err
    ensures Encodable(i)
  {
    Instruction(op, a, Some(b), Some(c), None)
  }

  /** An immediate load of `value` into register a. */
  function Immediate(a: Reg, value: nat): (i: Instruction)
    requires value < 0x200_0000
    ensures Encodable(i)
  {
    Instruction(Opcode.LoadValue, a, None, None, Some(value))
  }

  /** `step` is the emulator's step. Scenarios reason about a step passed
      as a parameter so that the proof of a whole program sees each step as
      one value and unfolds the dispatch only where a step lemma asks. */
  ghost predicate IsStep(step: State --> Outcome)
  {
    && Closed(step)
    && forall t {:trigger Step(t)} :: ValidState(t) ==> step(t) == Step(t)
  }

  /** Segment 0 holds the encoding of `i` at the instruction pointer. */
  predicate At(s: State, i: Instruction)
    requires ValidState(s) && Encodable(i)
  {
    s.ip < |s.machine.mem.instructions[0]| && s.machine.mem.instructions[0][s.ip] == Encode(i)
  }

  /** Running from a state whose `ip` holds the encoding of `i`: the outcome
      `o` of `i`'s handler with `ip` advanced, then the rest of the run. */
  lemma Advance(step: State --> Outcome, s: State, i: Instruction, fuel: nat, o: Outcome)
    requires IsStep(step) && ValidState(s) && 0 < fuel && Encodable(i) && At(s, i)
    requires Execute(i, s.(ip := s.ip + 1)) == o
    ensures Iterate(step, s, fuel) == if o.Running? then Iterate(step, o.state, fuel - 1) else o
  {
    StepFetches(s);
    DecodeEncode(i);
    assert step(s) == Step(s);
  }

  /** A step of an opcode that cannot fail: its handler's machine, then
      the run goes on. */
  lemma UpdateStep(step: State --> Outcome, s: State, i: Instruction, fuel: nat)
    requires IsStep(step) && ValidState(s) && 0 < fuel && Encodable(i) && Updates(i.opcode) && At(s, i)
    ensures Iterate(step, s, fuel) ==
      Iterate(step, s.(machine := Update(i, s.machine), ip := s.ip + 1), fuel - 1)
  {
    Advance(step, s, i, fuel, Running(s.(machine := Update(i, s.machine), ip := s.ip + 1)));
  }

  /** A `LoadValue` step: register a takes the immediate, then the run goes on. */
  lemma LoadValueStep(step: State --> Outcome, s: State, a: Reg, v: nat, fuel: nat)
    requires IsStep(step) && ValidState(s) && 0 < fuel && v < 0x200_0000 && At(s, Immediate(a, v))
    ensures Iterate(step, s, fuel) ==
      Iterate(step, s.(machine := s.machine.(regs := s.machine.regs[a := v]), ip := s.ip + 1), fuel - 1)
  {
    UpdateStep(step, s, Immediate(a, v), fuel);
  }

  /** An `Output` step of a byte-sized register c: the byte is appended. */
  lemma OutputStep(step: State --> Outcome, s: State, a: Reg, b: Reg, c: Reg, fuel: nat)
    requires IsStep(step) && ValidState(s) && 0 < fuel && At(s, Triple(Output, a, b, c))
    requires s.machine.regs[c] < 256
    ensures Iterate(step, s, fuel) ==
      Iterate(step, s.(ip := s.ip + 1, output := s.output + [s.machine.regs[c] as u8]), fuel - 1)
  {
    var t := s.(ip := s.ip + 1, output := s.output + [s.machine.regs[c] as u8]);
    Advance(step, s, Triple(Output, a, b, c), fuel, Running(t));
  }

  /** A `Halt` step ends the run. */
  lemma HaltStep(step: State --> Outcome, s: State, a: Reg, b: Reg, c: Reg, fuel: nat)
    requires IsStep(step) && ValidState(s) && 0 < fuel && At(s, Triple(Halt, a, b, c))
    ensures Iterate(step, s, fuel) == Halted(s.(ip := s.ip + 1))
  {
    Advance(step, s, Triple(Halt, a, b, c), fuel, Halted(s.(ip := s.ip + 1)));
  }

  /** `s` runs program `p` (segment 0) and is about to fetch word `ip`. */
  predicate Loaded(s: State, p: seq<u32>, ip: nat)
  {
    ValidState(s) && s.machine.mem.instructions[0] == p && s.ip == ip
  }

  // ---------------------------------------------------------------------
  // Printing a byte

  /** Load `v` into register r, output register r, halt. */
  function PrintOne(r: Reg, v: u8): seq<u32>
  {
    [Encode(Immediate(r, v)), Encode(Triple(Output, r, r, r)), Encode(Triple(Halt, r, r, r))]
  }

  lemma PrintOneLoad(step: State --> Outcome, r: Reg, v: u8, input: seq<u8>, fuel: nat) returns (t: State)
    requires IsStep(step) && fuel >= 1
    ensures Loaded(t, PrintOne(r, v), 1) && t.machine.regs[r] == v && t.output == []
    ensures Iterate(step, Boot(PrintOne(r, v), input), fuel) == Iterate(step, t, fuel - 1)
  {
    var s := Boot(PrintOne(r, v), input);
    t := s.(machine := s.machine.(regs := s.machine.regs[r := v]), ip := 1);
    LoadValueStep(step, s, r, v, fuel);
  }

  lemma PrintOneOutput(step: State --> Outcome, r: Reg, v: u8, s: State, fuel: nat) returns (t: State)
    requires IsStep(step) && fuel >= 1
    requires Loaded(s, PrintOne(r, v), 1) && s.machine.regs[r] == v && s.output == []
    ensures Loaded(t, PrintOne(r, v), 2) && t.output == [v]
    ensures Iterate(step, s, fuel) == Iterate(step, t, fuel - 1)
  {
    t := s.(ip := 2, output := s.output + [s.machine.regs[r] as u8]);
    OutputStep(step, s, r, r, r, fuel);
    assert t.output == [v];
  }

  lemma PrintOneSteps(step: State --> Outcome, r: Reg, v: u8, input: seq<u8>, fuel: nat)
    requires IsStep(step) && fuel >= 3
    ensures Iterate(step, Boot(PrintOne(r, v), input), fuel).Halted?
    ensures Iterate(step, Boot(PrintOne(r, v), input), fuel).state.output == [v]
  {
    var s1 := PrintOneLoad(step, r, v, input, fuel);
    var s2 := PrintOneOutput(step, r, v, s1, fuel - 1);
    HaltStep(step, s2, r, r, r, fuel - 2);
  }

  /** The program prints the single byte `v` (72 gives 'H') and halts,
      whatever the input and however much fuel beyond its three steps. */
  lemma PrintOneHalts(r: Reg, v: u8, input: seq<u8>, fuel: nat)
    requires fuel >= 3
    ensures Run(Boot(PrintOne(r, v), input), fuel).Halted?
    ensures Run(Boot(PrintOne(r, v), input), fuel).state.output == [v]
  {
    assert IsStep(Step);
    PrintOneSteps(Step, r, v, input, fuel);
  }

  // ---------------------------------------------------------------------
  // Addition wraps

  /** r1 := NAND(r0, r0), all ones since r0 starts at zero; r2 := 1;
      r3 := r1 + r2; halt. */
  function AddWrap(): seq<u32>
  {
    [ Encode(Triple(Nand, 1, 0, 0)), Encode(Immediate(2, 1)),
      Encode(Triple(Add, 3, 1, 2)), Encode(Triple(Halt, 0, 0, 0)) ]
  }

  lemma AddWrapNand(step: State --> Outcome, input: seq<u8>, fuel: nat) returns (t: State)
    requires IsStep(step) && fuel >= 1
    ensures Loaded(t, AddWrap(), 1) && t.machine.regs[1] == U32_MAX
    ensures Iterate(step, Boot(AddWrap(), input), fuel) == Iterate(step, t, fuel - 1)
  {
    var s := Boot(AddWrap(), input);
    t := s.(machine := Update(Triple(Nand, 1, 0, 0), s.machine), ip := 1);
    UpdateStep(step, s, Triple(Nand, 1, 0, 0), fuel);
    assert BitAnd(0, 0) == 0;
  }

  lemma AddWrapLoad(step: State --> Outcome, s: State, fuel: nat) returns (t: State)
    requires IsStep(step) && fuel >= 1
    requires Loaded(s, AddWrap(), 1) && s.machine.regs[1] == U32_MAX
    ensures Loaded(t, AddWrap(), 2) && t.machine.regs[1] == U32_MAX && t.machine.regs[2] == 1
    ensures Iterate(step, s, fuel) == Iterate(step, t, fuel - 1)
  {
    t := s.(machine := s.machine.(regs := s.machine.regs[2 := 1]), ip := 2);
    LoadValueStep(step, s, 2, 1, fuel);
  }

  lemma AddWrapAdd(step: State --> Outcome, s: State, fuel: nat) returns (t: State)
    requires IsStep(step) && fuel >= 1
    requires Loaded(s, AddWrap(), 2) && s.machine.regs[1] == U32_MAX && s.machine.regs[2] == 1
    ensures Loaded(t, AddWrap(), 3) && t.machine.regs[1] == U32_MAX && t.machine.regs[3] == 0
    ensures Iterate(step, s, fuel) == Iterate(step, t, fuel - 1)
  {
    t := s.(machine := Update(Triple(Add, 3, 1, 2), s.machine), ip := 3);
    UpdateStep(step, s, Triple(Add, 3, 1, 2), fuel);
  }

  lemma AddWrapSteps(step: State --> Outcome, input: seq<u8>, fuel: nat)
    requires IsStep(step) && fuel >= 4
    ensures Iterate(step, Boot(AddWrap(), input), fuel).Halted?
    ensures Iterate(step, Boot(AddWrap(), input), fuel).state.machine.regs[1] == U32_MAX
    ensures Iterate(step, Boot(AddWrap(), input), fuel).state.machine.regs[3] == 0
  {
    var s1 := AddWrapNand(step, input, fuel);
    var s2 := AddWrapLoad(step, s1, fuel - 1);
    var s3 := AddWrapAdd(step, s2, fuel - 2);
    HaltStep(step, s3, 0, 0, 0, fuel - 3);
  }

  /** All ones plus one is zero: addition wraps modulo 2^32 and the program
      halts normally. */
  lemma AddWrapHalts(input: seq<u8>, fuel: nat)
    requires fuel >= 4
    ensures Run(Boot(AddWrap(), input), fuel).Halted?
    ensures Run(Boot(AddWrap(), input), fuel).state.machine.regs[1] == U32_MAX
    ensures Run(Boot(AddWrap(), input), fuel).state.machine.regs[3] == 0
  {
    assert IsStep(Step);
    AddWrapSteps(Step, input, fuel);
  }

  // ---------------------------------------------------------------------
  // Division by zero

  /** A single division; every register is still zero. */
  function DivideByZero(a: Reg, b: Reg, c: Reg): seq<u32>
  {
    [Encode(Triple(Div, a, b, c))]
  }

  lemma DivideByZeroSteps(step: State --> Outcome, a: Reg, b: Reg, c: Reg, input: seq<u8>, fuel: nat)
    requires IsStep(step) && fuel >= 1
    ensures Iterate(step, Boot(DivideByZero(a, b, c), input), fuel) ==
      Failed(DivisionByZero, Boot(DivideByZero(a, b, c), input).(ip := 1))
  {
    var s0 := Boot(DivideByZero(a, b, c), input);
    Advance(step, s0, Triple(Div, a, b, c), fuel, Failed(DivisionByZero, s0.(ip := 1)));
  }

  /** Dividing by a zero register is fatal before anything is output. */
  lemma DivideByZeroFails(a: Reg, b: Reg, c: Reg, input: seq<u8>, fuel: nat)
    requires fuel >= 1
    ensures Run(Boot(DivideByZero(a, b, c), input), fuel).Failed?
    ensures Run(Boot(DivideByZero(a, b, c), input), fuel).fault == DivisionByZero
    ensures Run(Boot(DivideByZero(a, b, c), input), fuel).state.output == []
  {
    assert IsStep(Step);
    DivideByZeroSteps(Step, a, b, c, input, fuel);
  }

  // ---------------------------------------------------------------------
  // Segment reuse

  /** r1 := 3; map r1 words into r2; unmap r2; r1 := 5; map r1 words into
      r3; halt. */
  function Reuse(): seq<u32>
  {
    [ Encode(Immediate(1, 3)), Encode(Triple(Opcode.MapSegment, 0, 2, 1)),
      Encode(Triple(Opcode.UnmapSegment, 0, 0, 2)), Encode(Immediate(1, 5)),
      Encode(Triple(Opcode.MapSegment, 0, 3, 1)), Encode(Triple(Halt, 0, 0, 0)) ]
  }

  lemma ReuseLoad(step: State --> Outcome, input: seq<u8>, fuel: nat) returns (t: State)
    requires IsStep(step) && fuel >= 1
    ensures Loaded(t, Reuse(), 1) && t.machine.regs[1] == 3
    ensures t.machine.mem.addresses == [] && |t.machine.mem.instructions| == 1
    ensures Iterate(step, Boot(Reuse(), input), fuel) == Iterate(step, t, fuel - 1)
  {
    var s := Boot(Reuse(), input);
    t := s.(machine := s.machine.(regs := s.machine.regs[1 := 3]), ip := 1);
    LoadValueStep(step, s, 1, 3, fuel);
  }

  lemma ReuseMap(step: State --> Outcome, s: State, fuel: nat) returns (t: State)
    requires IsStep(step) && fuel >= 1
    requires Loaded(s, Reuse(), 1) && s.machine.regs[1] == 3
    requires s.machine.mem.addresses == [] && |s.machine.mem.instructions| == 1
    ensures Loaded(t, Reuse(), 2) && t.machine.regs[2] == 1
    ensures t.machine.mem.addresses == [] && |t.machine.mem.instructions| == 2
    ensures Iterate(step, s, fuel) == Iterate(step, t, fuel - 1)
  {
    t := s.(machine := Update(Triple(Opcode.MapSegment, 0, 2, 1), s.machine), ip := 2);
    UpdateStep(step, s, Triple(Opcode.MapSegment, 0, 2, 1), fuel);
  }

  lemma ReuseUnmap(step: State --> Outcome, s: State, fuel: nat) returns (t: State)
    requires IsStep(step) && fuel >= 1
    requires Loaded(s, Reuse(), 2) && s.machine.regs[2] == 1
    requires s.machine.mem.addresses == [] && |s.machine.mem.instructions| == 2
    ensures Loaded(t, Reuse(), 3) && t.machine.regs[2] == 1
    ensures t.machine.mem.addresses == [1] && |t.machine.mem.instructions| == 2
    ensures Iterate(step, s, fuel) == Iterate(step, t, fuel - 1)
  {
    t := s.(machine := Semantics.UnmapSegment(s.machine, 2).value, ip := 3);
    Advance(step, s, Triple(Opcode.UnmapSegment, 0, 0, 2), fuel, Running(t));
  }

  lemma ReuseReload(step: State --> Outcome, s: State, fuel: nat) returns (t: State)
    requires IsStep(step) && fuel >= 1
    requires Loaded(s, Reuse(), 3) && s.machine.regs[2] == 1
    requires s.machine.mem.addresses == [1] && |s.machine.mem.instructions| == 2
    ensures Loaded(t, Reuse(), 4) && t.machine.regs[1] == 5 && t.machine.regs[2] == 1
    ensures t.machine.mem.addresses == [1] && |t.machine.mem.instructions| == 2
    ensures Iterate(step, s, fuel) == Iterate(step, t, fuel - 1)
  {
    t := s.(machine := s.machine.(regs := s.machine.regs[1 := 5]), ip := 4);
    LoadValueStep(step, s, 1, 5, fuel);
  }

  lemma ReuseRemap(step: State --> Outcome, s: State, fuel: nat) returns (t: State)
    requires IsStep(step) && fuel >= 1
    requires Loaded(s, Reuse(), 4) && s.machine.regs[1] == 5 && s.machine.regs[2] == 1
    requires s.machine.mem.addresses == [1] && |s.machine.mem.instructions| == 2
    ensures Loaded(t, Reuse(), 5) && t.machine.regs[2] == 1 && t.machine.regs[3] == 1
    ensures |t.machine.mem.instructions| == 2 && t.machine.mem.instructions[1] == Zeros(5)
    ensures Iterate(step, s, fuel) == Iterate(step, t, fuel - 1)
  {
    t := s.(machine := Update(Triple(Opcode.MapSegment, 0, 3, 1), s.machine), ip := 5);
    UpdateStep(step, s, Triple(Opcode.MapSegment, 0, 3, 1), fuel);
  }

  /** The first three instructions: 3 words mapped at address 1, then freed. */
  lemma ReuseFirstHalf(step: State --> Outcome, input: seq<u8>, fuel: nat) returns (t: State)
    requires IsStep(step) && fuel >= 3
    ensures Loaded(t, Reuse(), 3) && t.machine.regs[2] == 1
    ensures t.machine.mem.addresses == [1] && |t.machine.mem.instructions| == 2
    ensures Iterate(step, Boot(Reuse(), input), fuel) == Iterate(step, t, fuel - 3)
  {
    var s1 := ReuseLoad(step, input, fuel);
    var s2 := ReuseMap(step, s1, fuel - 1);
    t := ReuseUnmap(step, s2, fuel - 2);
  }

  /** The last three instructions: 5 words mapped at the freed address, halt. */
  lemma ReuseSecondHalf(step: State --> Outcome, s: State, fuel: nat)
    requires IsStep(step) && fuel >= 3
    requires Loaded(s, Reuse(), 3) && s.machine.regs[2] == 1
    requires s.machine.mem.addresses == [1] && |s.machine.mem.instructions| == 2
    ensures Iterate(step, s, fuel).Halted?
    ensures Iterate(step, s, fuel).state.machine.regs[2] == 1
    ensures Iterate(step, s, fuel).state.machine.regs[3] == 1
    ensures |Iterate(step, s, fuel).state.machine.mem.instructions| == 2
    ensures Iterate(step, s, fuel).state.machine.mem.instructions[1] == Zeros(5)
  {
    var s4 := ReuseReload(step, s, fuel);
    var s5 := ReuseRemap(step, s4, fuel - 1);
    HaltStep(step, s5, 0, 0, 0, fuel - 2);
  }

  lemma ReuseSteps(step: State --> Outcome, input: seq<u8>, fuel: nat)
    requires IsStep(step) && fuel >= 6
    ensures Iterate(step, Boot(Reuse(), input), fuel).Halted?
    ensures Iterate(step, Boot(Reuse(), input), fuel).state.machine.regs[2] == 1
    ensures Iterate(step, Boot(Reuse(), input), fuel).state.machine.regs[3] == 1
    ensures |Iterate(step, Boot(Reuse(), input), fuel).state.machine.mem.instructions| == 2
    ensures Iterate(step, Boot(Reuse(), input), fuel).state.machine.mem.instructions[1] == Zeros(5)
  {
    var s3 := ReuseFirstHalf(step, input, fuel);
    ReuseSecondHalf(step, s3, fuel - 3);
  }

  /** Mapping 3 words gives address 1 (0 holds the program); after it is
      unmapped, mapping 5 words hands out address 1 again, holding 5 zero
      words. */
  lemma ReuseHandsOutOneTwice(input: seq<u8>, fuel: nat)
    requires fuel >= 6
    ensures Run(Boot(Reuse(), input), fuel).Halted?
    ensures Run(Boot(Reuse(), input), fuel).state.machine.regs[2] == 1
    ensures Run(Boot(Reuse(), input), fuel).state.machine.regs[3] == 1
    ensures |Run(Boot(Reuse(), input), fuel).state.machine.mem.instructions| == 2
    ensures Run(Boot(Reuse(), input), fuel).state.machine.mem.instructions[1] == Zeros(5)
  {
    assert IsStep(Step);
    ReuseSteps(Step, input, fuel);
  }

  // ---------------------------------------------------------------------
  // A jump within the program

  /** r1 := 3; load program from r0 (zero: keep segment 0) and jump to r1;
      output r0; halt. The output is skipped. */
  function JumpOver(): seq<u32>
  {
    [ Encode(Immediate(1, 3)), Encode(Triple(Opcode.LoadProgram, 0, 0, 1)),
      Encode(Triple(Output, 0, 0, 0)), Encode(Triple(Halt, 0, 0, 0)) ]
  }

  lemma JumpOverLoad(step: State --> Outcome, input: seq<u8>, fuel: nat) returns (t: State)
    requires IsStep(step) && fuel >= 1
    ensures Loaded(t, JumpOver(), 1) && t.machine.regs[0] == 0 && t.machine.regs[1] == 3
    ensures t.output == []
    ensures Iterate(step, Boot(JumpOver(), input), fuel) == Iterate(step, t, fuel - 1)
  {
    var s := Boot(JumpOver(), input);
    t := s.(machine := s.machine.(regs := s.machine.regs[1 := 3]), ip := 1);
    LoadValueStep(step, s, 1, 3, fuel);
  }

  lemma JumpOverJump(step: State --> Outcome, s: State, fuel: nat) returns (t: State)
    requires IsStep(step) && fuel >= 1
    requires Loaded(s, JumpOver(), 1) && s.machine.regs[0] == 0 && s.machine.regs[1] == 3
    requires s.output == []
    ensures Loaded(t, JumpOver(), 3) && t.output == []
    ensures Iterate(step, s, fuel) == Iterate(step, t, fuel - 1)
  {
    t := s.(ip := 3);
    Advance(step, s, Triple(Opcode.LoadProgram, 0, 0, 1), fuel, Running(t));
  }

  lemma JumpOverSteps(step: State --> Outcome, input: seq<u8>, fuel: nat)
    requires IsStep(step) && fuel >= 3
    ensures Iterate(step, Boot(JumpOver(), input), fuel).Halted?
    ensures Iterate(step, Boot(JumpOver(), input), fuel).state.output == []
    ensures Iterate(step, Boot(JumpOver(), input), fuel).state.machine.mem.instructions[0] == JumpOver()
  {
    var s1 := JumpOverLoad(step, input, fuel);
    var s3 := JumpOverJump(step, s1, fuel - 1);
    HaltStep(step, s3, 0, 0, 0, fuel - 2);
  }

  /** Loading "program 0" keeps segment 0 and only moves the instruction
      pointer: the output instruction it jumps over never runs. */
  lemma JumpOverSkipsOutput(input: seq<u8>, fuel: nat)
    requires fuel >= 3
    ensures Run(Boot(JumpOver(), input), fuel).Halted?
    ensures Run(Boot(JumpOver(), input), fuel).state.output == []
    ensures Run(Boot(JumpOver(), input), fuel).state.machine.mem.instructions[0] == JumpOver()
  {
    assert IsStep(Step);
    JumpOverSteps(Step, input, fuel);
  }

  // ---------------------------------------------------------------------
  // Output out of range

  /** r0 := 300; output r0. */
  function PrintTooLarge(): seq<u32>
  {
    [Encode(Immediate(0, 300)), Encode(Triple(Output, 0, 0, 0))]
  }

  lemma PrintTooLargeLoad(step: State --> Outcome, input: seq<u8>, fuel: nat) returns (t: State)
    requires IsStep(step) && fuel >= 1
    ensures Loaded(t, PrintTooLarge(), 1) && t.machine.regs[0] == 300 && t.output == []
    ensures Iterate(step, Boot(PrintTooLarge(), input), fuel) == Iterate(step, t, fuel - 1)
  {
    var s := Boot(PrintTooLarge(), input);
    t := s.(machine := s.machine.(regs := s.machine.regs[0 := 300]), ip := 1);
    LoadValueStep(step, s, 0, 300, fuel);
  }

  lemma PrintTooLargeSteps(step: State --> Outcome, input: seq<u8>, fuel: nat)
    requires IsStep(step) && fuel >= 2
    ensures Iterate(step, Boot(PrintTooLarge(), input), fuel).Failed?
    ensures Iterate(step, Boot(PrintTooLarge(), input), fuel).fault == OutputOutOfRange
    ensures Iterate(step, Boot(PrintTooLarge(), input), fuel).state.output == []
  {
    var s1 := PrintTooLargeLoad(step, input, fuel);
    Advance(step, s1, Triple(Output, 0, 0, 0), fuel - 1, Failed(OutputOutOfRange, s1.(ip := 2)));
  }

  /** Outputting 300 is fatal, and nothing is output. */
  lemma PrintTooLargeFails(input: seq<u8>, fuel: nat)
    requires fuel >= 2
    ensures Run(Boot(PrintTooLarge(), input), fuel).Failed?
    ensures Run(Boot(PrintTooLarge(), input), fuel).fault == OutputOutOfRange
    ensures Run(Boot(PrintTooLarge(), input), fuel).state.output == []
  {
    assert IsStep(Step);
    PrintTooLargeSteps(Step, input, fuel);
  }
}

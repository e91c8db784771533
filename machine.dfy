/** The machine's semantics as functions on values: one function per opcode
    handler, the fetch/advance/dispatch step, and a run bounded by a number of
    steps. The `Rum` class and the emulator loop are proved to compute exactly
    these. */
module Semantics {
  import opened Words
  import opened Wrappers
  import opened UmInstruction
  import opened SegmentTable

  /** A register number. */
  type Reg = r: nat | r < 8

  const WORD: nat := 0x1_0000_0000

  /** Registers and segment table: the state a `Rum` owns. */
  datatype Machine = Machine(regs: seq<u32>, mem: Memory)

  predicate Valid(m: Machine)
  {
    |m.regs| == 8 && Consistent(m.mem)
  }

  /** `Rum::new`: zero registers and the program as segment 0. */
  function NewMachine(program: seq<u32>): (m: Machine)
    ensures Valid(m)
  {
    Machine(seq(8, _ => 0), SegmentTable.Initial(program))
  }

  /** `m2` differs from `m` at most in register a; the segment table is the same. */
  predicate OnlyRegister(m: Machine, m2: Machine, a: Reg)
    requires Valid(m)
  {
    && m2.mem == m.mem
    && |m2.regs| == 8
    && forall k :: 0 <= k < 8 && k != a ==> m2.regs[k] == m.regs[k]
  }

  // ---------------------------------------------------------------------
  // Opcode handlers

  /** `conditional_move`: register a takes register b's value when register
      c is non-zero. */
  function ConditionalMove(m: Machine, a: Reg, b: Reg, c: Reg): (r: Machine)
    requires Valid(m)
    ensures Valid(r) && OnlyRegister(m, r, a)
    ensures m.regs[c] == 0 ==> r == m
    ensures m.regs[c] != 0 ==> r.regs[a] == m.regs[b]
  {
    if m.regs[c] != 0 then m.(regs := m.regs[a := m.regs[b]]) else m
  }

  /** `segment_load`: register a takes word `r[c]` of segment `r[b]`; a
      missing segment or word is fatal. */
  function SegmentLoad(m: Machine, a: Reg, b: Reg, c: Reg): (r: Option<Machine>)
    requires Valid(m)
    ensures r.None? <==>
      m.regs[b] >= |m.mem.instructions| || m.regs[c] >= |m.mem.instructions[m.regs[b]]|
    ensures r.Some? ==>
      && Valid(r.value) && OnlyRegister(m, r.value, a)
      && r.value.regs[a] == m.mem.instructions[m.regs[b]][m.regs[c]]
  {
    match GetSegmentValue(m.mem, m.regs[b])
    case None => None
    case Some(segment) =>
      if m.regs[c] < |segment| then Some(m.(regs := m.regs[a := segment[m.regs[c]]]))
      else None
  }

  /** `segment_store`: word `r[b]` of segment `r[a]` takes register c's value;
      a missing segment or word is fatal. No register changes. */
  function SegmentStore(m: Machine, a: Reg, b: Reg, c: Reg): (r: Option<Machine>)
    requires Valid(m)
    ensures r.None? <==>
      m.regs[a] >= |m.mem.instructions| || m.regs[b] >= |m.mem.instructions[m.regs[a]]|
    ensures r.Some? ==>
      && Valid(r.value) && r.value.regs == m.regs
      && r.value.mem == StoreWord(m.mem, m.regs[a], m.regs[b], m.regs[c]).value
  {
    match StoreWord(m.mem, m.regs[a], m.regs[b], m.regs[c])
    case None => None
    case Some(mem) => Some(m.(mem := mem))
  }

  /** `addition`: wrapping 32-bit sum; the carry out of bit 31 is dropped. */
  function Addition(m: Machine, a: Reg, b: Reg, c: Reg): (r: Machine)
    requires Valid(m)
    ensures Valid(r) && OnlyRegister(m, r, a)
    ensures r.regs[a] == if m.regs[b] + m.regs[c] < WORD then m.regs[b] + m.regs[c]
                         else m.regs[b] + m.regs[c] - WORD
  {
    m.(regs := m.regs[a := (m.regs[b] + m.regs[c]) % WORD])
  }

  /** `multiplication`: wrapping 32-bit product, the one word congruent to
      the full product modulo 2^32. */
  function Multiplication(m: Machine, a: Reg, b: Reg, c: Reg): (r: Machine)
    requires Valid(m)
    ensures Valid(r) && OnlyRegister(m, r, a)
    ensures (m.regs[b] * m.regs[c] - r.regs[a]) % WORD == 0
  {
    var p: int := m.regs[b] as int * m.regs[c];
    DivModUnique(p - p % WORD, WORD, p / WORD, 0);
    m.(regs := m.regs[a := p % WORD])
  }

  /** `division`: unsigned quotient, rounded down; a zero divisor is fatal. */
  function Division(m: Machine, a: Reg, b: Reg, c: Reg): (r: Option<Machine>)
    requires Valid(m)
    ensures r.None? <==> m.regs[c] == 0
    ensures r.Some? ==>
      && Valid(r.value) && OnlyRegister(m, r.value, a)
      && r.value.regs[a] as int * m.regs[c] <= m.regs[b] < (r.value.regs[a] as int + 1) * m.regs[c]
  {
    if m.regs[c] == 0 then None
    else
      var q := m.regs[b] / m.regs[c];
      DivBounds(m.regs[b], m.regs[c]);
      Some(m.(regs := m.regs[a := q]))
  }

  /** `bit_nand`: the complement of the bitwise AND (see `BitNandBits`). */
  function BitNand(m: Machine, a: Reg, b: Reg, c: Reg): (r: Machine)
    requires Valid(m)
    ensures Valid(r) && OnlyRegister(m, r, a)
  {
    BitAndAtMost(m.regs[b], m.regs[c]);
    m.(regs := m.regs[a := BitNot32(BitAnd(m.regs[b], m.regs[c]))])
  }

  /** `map_segment`: register b takes the address of a fresh segment of
      `r[c]` zero words (the address truncated to 32 bits, as `as u32` does). */
  function MapSegment(m: Machine, b: Reg, c: Reg): (r: Machine)
    requires Valid(m)
    ensures Valid(r) && r.mem == Map(m.mem, m.regs[c]).mem
    ensures r.regs == m.regs[b := Map(m.mem, m.regs[c]).address % WORD]
    ensures Map(m.mem, m.regs[c]).address < WORD ==>
      r.mem.instructions[r.regs[b]] == Zeros(m.regs[c])
  {
    var mapped := Map(m.mem, m.regs[c]);
    Machine(m.regs[b := mapped.address % WORD], mapped.mem)
  }

  /** `unmap_segment`: frees the segment at `r[c]`; only an address outside
      the table is fatal. No register changes. */
  function UnmapSegment(m: Machine, c: Reg): (r: Option<Machine>)
    requires Valid(m)
    ensures r.None? <==> m.regs[c] >= |m.mem.instructions|
    ensures r.Some? ==>
      Valid(r.value) && r.value.regs == m.regs && r.value.mem == Unmap(m.mem, m.regs[c]).value
  {
    match Unmap(m.mem, m.regs[c])
    case None => None
    case Some(mem) => Some(m.(mem := mem))
  }

  /** `output_program`: the byte to emit, register c; above 255 is fatal. */
  function OutputProgram(m: Machine, c: Reg): (r: Option<u8>)
    requires Valid(m)
    ensures r.None? <==> m.regs[c] > 255
    ensures r.Some? ==> r.value == m.regs[c]
  {
    if m.regs[c] > 255 then None else Some(m.regs[c])
  }

  /** `user_input`: register c takes the next input byte, or all ones at end
      of input; the sentinel is never a byte, so the two cannot be confused. */
  function UserInput(m: Machine, c: Reg, next: Option<u8>): (r: Machine)
    requires Valid(m)
    ensures Valid(r) && OnlyRegister(m, r, c)
    ensures r.regs[c] == U32_MAX <==> next.None?
    ensures next.Some? ==> r.regs[c] == next.value
  {
    m.(regs := m.regs[c := if next.Some? then next.value else U32_MAX])
  }

  /** The machine after `load_program` and the new instruction pointer. */
  datatype Jump = Jump(machine: Machine, target: nat)

  /** `load_program`: if `r[b]` is non-zero, segment 0 becomes a copy of
      segment `r[b]` (fatal if there is none); in every case the returned
      instruction pointer is `r[c]`. No register changes. */
  function LoadProgram(m: Machine, b: Reg, c: Reg): (r: Option<Jump>)
    requires Valid(m)
    ensures r.None? <==> m.regs[b] != 0 && m.regs[b] >= |m.mem.instructions|
    ensures r.Some? ==>
      && Valid(r.value.machine)
      && r.value.target == m.regs[c]
      && r.value.machine.regs == m.regs
      && (m.regs[b] == 0 ==> r.value.machine.mem == m.mem)
      && (m.regs[b] != 0 ==> r.value.machine.mem == ReplaceProgram(m.mem, m.regs[b]).value)
  {
    if m.regs[b] != 0 then
      match ReplaceProgram(m.mem, m.regs[b])
      case None => None
      case Some(mem) => Some(Jump(m.(mem := mem), m.regs[c]))
    else
      Some(Jump(m, m.regs[c]))
  }

  /** `load_value`: register a takes the immediate. */
  function LoadValue(m: Machine, a: Reg, value: u32): (r: Machine)
    requires Valid(m)
    ensures Valid(r) && OnlyRegister(m, r, a) && r.regs[a] == value
  {
    m.(regs := m.regs[a := value])
  }

  // ---------------------------------------------------------------------
  // Stepping and running

  /** The emulator's whole state: the machine, the instruction pointer, the
      input not yet read and the output emitted so far. */
  datatype State = State(machine: Machine, ip: nat, input: seq<u8>, output: seq<u8>)

  predicate ValidState(s: State)
  {
    Valid(s.machine)
  }

  /** Start of a run: instruction pointer 0, nothing output. */
  function Boot(program: seq<u32>, input: seq<u8>): (s: State)
    ensures ValidState(s)
  {
    State(NewMachine(program), 0, input, [])
  }

  datatype Fault =
    | FetchOutOfBounds | LoadOutOfBounds | StoreOutOfBounds | DivisionByZero
    | UnmapOutOfBounds | OutputOutOfRange | ProgramOutOfBounds | UnknownOpcode

  /** Still running, stopped by `Halt`, or stopped by a fatal error; each
      with the state reached. A fault leaves the state as it was before the
      failing handler. */
  datatype Outcome =
    | Running(state: State)
    | Halted(state: State)
    | Failed(fault: Fault, state: State)

  /** One iteration of the emulator loop: fetch word `ip` of segment 0,
      advance `ip`, run the decoded opcode's handler. */
  function Step(s: State): (o: Outcome)
    requires ValidState(s)
    ensures ValidState(o.state)
  {
    match FindInstruction(s.machine.mem, s.ip)
    case None => Failed(FetchOutOfBounds, s)
    case Some(i) => Execute(i, s.(ip := s.ip + 1))
  }

  /** The opcodes whose handler only computes a new machine and cannot
      fail. */
  predicate Updates(op: Opcode)
  {
    op in {CMov, Add, Mul, Nand, Opcode.MapSegment, Opcode.LoadValue}
  }

  /** The opcodes whose handler computes a new machine or meets a fatal
      error. */
  predicate Attempts(op: Opcode)
  {
    op in {Load, Store, Div, Opcode.UnmapSegment}
  }

  /** The handler of an opcode that cannot fail. All but `MapSegment`
      change at most register A. */
  function Update(i: Instruction, m: Machine): (r: Machine)
    requires Valid(m) && WellShaped(i) && Updates(i.opcode)
    ensures Valid(r)
    ensures i.opcode != Opcode.MapSegment ==> OnlyRegister(m, r, i.a)
  {
    match i.opcode
    case CMov => ConditionalMove(m, i.a, i.b.value, i.c.value)
    case Add => Addition(m, i.a, i.b.value, i.c.value)
    case Mul => Multiplication(m, i.a, i.b.value, i.c.value)
    case Nand => BitNand(m, i.a, i.b.value, i.c.value)
    case MapSegment => MapSegment(m, i.b.value, i.c.value)
    case LoadValue => LoadValue(m, i.a, i.value.value)
  }

  /** The handler of an opcode that can fail; `None` for the fault. Only
      `Div` changes a register, register A. */
  function Attempt(i: Instruction, m: Machine): (r: Option<Machine>)
    requires Valid(m) && WellShaped(i) && Attempts(i.opcode)
    ensures r.Some? ==> Valid(r.value)
    ensures r.Some? && i.opcode in {Load, Div} ==> OnlyRegister(m, r.value, i.a)
  {
    match i.opcode
    case Load => SegmentLoad(m, i.a, i.b.value, i.c.value)
    case Store => SegmentStore(m, i.a, i.b.value, i.c.value)
    case Div => Division(m, i.a, i.b.value, i.c.value)
    case UnmapSegment => UnmapSegment(m, i.c.value)
  }

  /** The fault each fallible opcode reports. */
  function FaultOf(op: Opcode): Fault
    requires Attempts(op)
  {
    match op
    case Load => LoadOutOfBounds
    case Store => StoreOutOfBounds
    case Div => DivisionByZero
    case UnmapSegment => UnmapOutOfBounds
  }

  /** The dispatch on the decoded opcode, in the state whose `ip` has
      already been advanced. */
  function Execute(i: Instruction, s: State): (o: Outcome)
    requires ValidState(s) && WellShaped(i)
    ensures ValidState(o.state)
    ensures o.Failed? ==> o.state == s
  {
    var m := s.machine;
    if Updates(i.opcode) then Running(s.(machine := Update(i, m)))
    else if Attempts(i.opcode) then
      (match Attempt(i, m)
       case None => Failed(FaultOf(i.opcode), s)
       case Some(m2) => Running(s.(machine := m2)))
    else
      match i.opcode
      case Halt => Halted(s)
      case Output =>
        (match OutputProgram(m, i.c.value)
         case None => Failed(OutputOutOfRange, s)
         case Some(byte) => Running(s.(output := s.output + [byte])))
      case Input =>
        if |s.input| > 0 then
          Running(s.(machine := UserInput(m, i.c.value, Some(s.input[0])), input := s.input[1..]))
        else
          Running(s.(machine := UserInput(m, i.c.value, None)))
      case LoadProgram =>
        (match LoadProgram(m, i.b.value, i.c.value)
         case None => Failed(ProgramOutOfBounds, s)
         case Some(j) => Running(s.(machine := j.machine, ip := j.target)))
      case Err => Failed(UnknownOpcode, s)
  }

  /** A step function defined on every valid state and keeping it valid. */
  ghost predicate Closed(step: State --> Outcome)
  {
    forall t {:trigger step.requires(t)} ::
      ValidState(t) ==> step.requires(t) && ValidState(step(t).state)
  }

  /** At most `fuel` applications of `step`, stopping early at the first
      outcome that is not `Running`. */
  function Iterate(step: State --> Outcome, s: State, fuel: nat): (o: Outcome)
    requires Closed(step) && ValidState(s)
    ensures ValidState(o.state)
    decreases fuel
  {
    if fuel == 0 then Running(s)
    else
      var o := step(s);
      if o.Running? then Iterate(step, o.state, fuel - 1) else o
  }

  /** The emulator loop: at most `fuel` iterations of `Step` (the source's
      bound is `usize::MAX`), stopping early at `Halt` or a fatal error. */
  function Run(s: State, fuel: nat): (o: Outcome)
    requires ValidState(s)
    ensures ValidState(o.state)
  {
    assert Closed(Step);
    Iterate(Step, s, fuel)
  }

  // ---------------------------------------------------------------------
  // Properties of the handlers and of running

  /** NAND bit by bit: each of the 32 bits of the result is clear exactly
      where both operands have that bit set. */
  lemma BitNandBits(m: Machine, a: Reg, b: Reg, c: Reg, i: nat)
    requires Valid(m) && i < 32
    ensures Bit(BitNand(m, a, b, c).regs[a], i) <==> !(Bit(m.regs[b], i) && Bit(m.regs[c], i))
  {
    var x, y := m.regs[b], m.regs[c];
    BitAndAtMost(x, y);
    Pow2Of32();
    ComplementBit(BitAnd(x, y), 32, i);
    BitAndBit(x, y, i);
  }

  /** The fetched instruction, when there is one. */
  function Fetched(s: State): Option<Instruction>
    requires ValidState(s)
  {
    FindInstruction(s.machine.mem, s.ip)
  }

  /** A step is a fault when there is no word to fetch and otherwise the
      fetched instruction's handler, run with `ip` already advanced. */
  lemma StepFetches(s: State)
    requires ValidState(s)
    ensures Fetched(s).None? <==> s.ip >= |s.machine.mem.instructions[0]|
    ensures Fetched(s).None? ==> Step(s) == Failed(FetchOutOfBounds, s)
    ensures Fetched(s).Some? ==> Step(s) == Execute(Fetched(s).value, s.(ip := s.ip + 1))
  {
  }

  /** After a handler that keeps running, the instruction pointer is the
      advanced one it was given, except after `LoadProgram`, which sets it
      to `r[c]`. */
  lemma ExecuteIp(i: Instruction, s: State)
    requires ValidState(s) && WellShaped(i) && Execute(i, s).Running?
    ensures i.opcode == Opcode.LoadProgram ==> Execute(i, s).state.ip == s.machine.regs[i.c.value]
    ensures i.opcode != Opcode.LoadProgram ==> Execute(i, s).state.ip == s.ip
  {
  }

  /** Output grows by exactly the one byte `r[c]` on `Output` and is left
      alone by every other handler; input loses its first byte on `Input`
      and is left alone otherwise. */
  lemma ExecuteStreams(i: Instruction, s: State)
    requires ValidState(s) && WellShaped(i)
    ensures Execute(i, s).Running? && i.opcode == Output ==>
      Execute(i, s).state.output == s.output + [s.machine.regs[i.c.value] as u8]
    ensures !(Execute(i, s).Running? && i.opcode == Output) ==>
      Execute(i, s).state.output == s.output
    ensures i.opcode == Input && |s.input| > 0 ==> Execute(i, s).state.input == s.input[1..]
    ensures !(i.opcode == Input && |s.input| > 0) ==> Execute(i, s).state.input == s.input
  {
  }

  /** Conditional move, the arithmetic, NAND and load-value write at most
      register A and leave the segment table alone. */
  lemma ExecuteRegisterOnly(i: Instruction, s: State)
    requires ValidState(s) && WellShaped(i) && Execute(i, s).Running?
    requires i.opcode in {CMov, Add, Mul, Div, Nand, Opcode.LoadValue}
    ensures OnlyRegister(s.machine, Execute(i, s).state.machine, i.a)
  {
  }

  /** A whole step never takes back output: the output after it starts with
      the output before it. */
  lemma StepAppends(s: State)
    requires ValidState(s)
    ensures s.output <= Step(s).state.output
  {
    StepFetches(s);
    if Fetched(s).Some? {
      ExecuteStreams(Fetched(s).value, s.(ip := s.ip + 1));
    }
  }

  /** A step function that only ever appends to the output. */
  ghost predicate Appends(step: State --> Outcome)
    requires Closed(step)
  {
    forall t {:trigger step(t)} :: ValidState(t) ==> t.output <= step(t).state.output
  }

  lemma {:induction false} IterateExtendsOutput(step: State --> Outcome, s: State, fuel: nat)
    requires Closed(step) && Appends(step) && ValidState(s)
    ensures s.output <= Iterate(step, s, fuel).state.output
    decreases fuel
  {
    if fuel > 0 {
      var o := step(s);
      assert s.output <= o.state.output;
      if o.Running? {
        var rest := Iterate(step, o.state, fuel - 1);
        IterateExtendsOutput(step, o.state, fuel - 1);
        assert Iterate(step, s, fuel) == rest;
        PrefixTransitive(s.output, o.state.output, rest.state.output);
      }
    }
  }

  lemma PrefixTransitive(a: seq<u8>, b: seq<u8>, c: seq<u8>)
    requires a <= b && b <= c
    ensures a <= c
  {
    assert a == b[..|a|] && b == c[..|b|];
  }

  /** Output is only ever appended to: what the machine has emitted stays a
      prefix of everything it emits later. */
  lemma RunExtendsOutput(s: State, fuel: nat)
    requires ValidState(s)
    ensures s.output <= Run(s, fuel).state.output
  {
    assert Closed(Step);
    forall t | ValidState(t)
      ensures t.output <= Step(t).state.output
    {
      StepAppends(t);
    }
    IterateExtendsOutput(Step, s, fuel);
  }

  lemma {:induction false} IterateAdditive(step: State --> Outcome, s: State, f1: nat, f2: nat)
    requires Closed(step) && ValidState(s)
    ensures Iterate(step, s, f1 + f2) ==
      if Iterate(step, s, f1).Running? then Iterate(step, Iterate(step, s, f1).state, f2)
      else Iterate(step, s, f1)
    decreases f1
  {
    if f1 > 0 && step(s).Running? {
      IterateAdditive(step, step(s).state, f1 - 1, f2);
    }
  }

  /** Running for `f1 + f2` iterations is running for `f1`, then, if the
      machine is still running, for `f2` more. */
  lemma RunAdditive(s: State, f1: nat, f2: nat)
    requires ValidState(s)
    ensures Run(s, f1 + f2) ==
      if Run(s, f1).Running? then Run(Run(s, f1).state, f2) else Run(s, f1)
  {
    assert Closed(Step);
    IterateAdditive(Step, s, f1, f2);
  }

  lemma IterateStops(step: State --> Outcome, s: State, f: nat, g: nat)
    requires Closed(step) && ValidState(s) && !Iterate(step, s, f).Running? && f <= g
    ensures Iterate(step, s, g) == Iterate(step, s, f)
  {
    IterateAdditive(step, s, f, g - f);
  }

  /** Once the machine has halted or failed, more fuel changes nothing. */
  lemma RunStops(s: State, f: nat, g: nat)
    requires ValidState(s) && !Run(s, f).Running? && f <= g
    ensures Run(s, g) == Run(s, f)
  {
    assert Closed(Step);
    IterateStops(Step, s, f, g);
  }

  // ---------------------------------------------------------------------
  // Output as `print!` writes it

  /** What `print!("{}", char::from_u32(c))` writes for a byte value c: its
      UTF-8 encoding, two bytes from 128 up. */
  function PrintedBytes(c: u8): (r: seq<u8>)
    ensures |r| == if c < 128 then 1 else 2
    ensures c < 128 ==> r == [c]
  {
    if c < 128 then [c] else [0xC0 + c / 64, 0x80 + c % 64]
  }

  /** The output handler as written: the bytes `print!` writes for `r[c]`. */
  function OutputAsWritten(m: Machine, c: Reg): (r: Option<seq<u8>>)
    requires Valid(m)
    ensures r.None? <==> OutputProgram(m, c).None?
    ensures r.Some? && m.regs[c] < 128 ==> r.value == [OutputProgram(m, c).value]
  {
    match OutputProgram(m, c)
    case None => None
    case Some(byte) => Some(PrintedBytes(byte))
  }

  /** With `r[c] = 200` the handler as written emits the two bytes C3 88
      instead of the single byte 200 the machine's output stream carries. */
  lemma OutputAsWrittenIsNotOneByte(m: Machine, c: Reg)
    requires Valid(m) && m.regs[c] == 200
    ensures OutputAsWritten(m, c) == Some([0xC3, 0x88])
    ensures OutputAsWritten(m, c) != Some([OutputProgram(m, c).value])
  {
    assert PrintedBytes(200) == [0xC3, 0x88];
  }
}

/** The `Rum` machine: a register file and a segment table, updated in place
    by one method per opcode handler. Each method is proved to leave the
    machine exactly where the matching function in `Semantics` says. Where
    the source panics (`unwrap` of a missing segment or word, a zero divisor,
    a byte out of range) the method reports `false` and changes nothing. */
module RumMachine {
  import opened Words
  import opened Wrappers
  import UmInstruction
  import SegmentTable
  import RegisterFile
  import Semantics

  /** An instruction whose three register operands are present, as every
      handler but `load_value` unwraps them. */
  predicate HasRegisters(i: UmInstruction.Instruction)
  {
    i.a < 8 && i.b.Some? && i.b.value < 8 && i.c.Some? && i.c.value < 8
  }

  /** An instruction carrying an immediate, as `load_value` unwraps it. */
  predicate HasValue(i: UmInstruction.Instruction)
  {
    i.a < 8 && i.value.Some?
  }

  class Rum {
    const segment: SegmentTable.Segment
    const register: RegisterFile.Register

    ghost predicate Valid()
      reads this, segment, register
    {
      segment.Valid() && register.Valid()
    }

    /** The machine's current value. */
    function Abs(): (m: Semantics.Machine)
      requires Valid()
      reads this, segment, register, register.slots
      ensures Semantics.Valid(m)
    {
      Semantics.Machine(register.Values(), segment.Abs())
    }

    /** `Rum::new`: the program as segment 0 and eight zero registers. */
    constructor(program: seq<u32>)
      ensures Valid() && fresh(segment) && fresh(register) && fresh(register.slots)
      ensures Abs() == Semantics.NewMachine(program)
    {
      segment := new SegmentTable.Segment(program);
      register := new RegisterFile.Register();
    }

    /** `get_instruction`: the decoded word c of segment 0, or `None` where
        the source's index panics. */
    function GetInstruction(c: nat): (r: Option<UmInstruction.Instruction>)
      requires Valid()
      reads this, segment, register
      ensures r.None? <==> c >= |segment.instructions[0]|
      ensures r.Some? ==> UmInstruction.WellShaped(r.value)
      ensures r.Some? ==> r.value == UmInstruction.NewInstruction(segment.instructions[0][c])
    {
      SegmentTable.FindInstruction(segment.Abs(), c)
    }

    /** `conditional_move`. */
    method ConditionalMove(i: UmInstruction.Instruction)
      requires Valid() && HasRegisters(i)
      modifies register.slots
      ensures Valid()
      ensures Abs() == Semantics.ConditionalMove(old(Abs()), i.a, i.b.value, i.c.value)
    {
      var a, b, c := i.a, i.b.value, i.c.value;
      if register.GetRegisterValue(c) != 0 {
        var value := register.GetRegisterValue(b);
        register.SetRegisterValue(a, value);
      }
    }

    /** `segment_load`: `false` where the source's `unwrap` or index panics. */
    method SegmentLoad(i: UmInstruction.Instruction) returns (ok: bool)
      requires Valid() && HasRegisters(i)
      modifies register.slots
      ensures Valid()
      ensures Semantics.SegmentLoad(old(Abs()), i.a, i.b.value, i.c.value) ==
        if ok then Some(Abs()) else None
      ensures !ok ==> Abs() == old(Abs())
    {
      var a, b, c := i.a, i.b.value, i.c.value;
      var address := register.GetRegisterValue(b);
      var found := SegmentTable.GetSegmentValue(segment.Abs(), address);
      if found.None? {
        return false;
      }
      var index := register.GetRegisterValue(c);
      if index >= |found.value| {
        return false;
      }
      register.SetRegisterValue(a, found.value[index]);
      ok := true;
    }

    /** `segment_store`: `false` where the source's `unwrap`s panic. */
    method SegmentStore(i: UmInstruction.Instruction) returns (ok: bool)
      requires Valid() && HasRegisters(i)
      modifies segment
      ensures Valid()
      ensures Semantics.SegmentStore(old(Abs()), i.a, i.b.value, i.c.value) ==
        if ok then Some(Abs()) else None
      ensures !ok ==> Abs() == old(Abs())
    {
      var a, b, c := i.a, i.b.value, i.c.value;
      var address := register.GetRegisterValue(a);
      var index := register.GetRegisterValue(b);
      var value := register.GetRegisterValue(c);
      ok := segment.SetSegmentValue(address, index, value);
    }

    /** `addition`: `wrapping_add`. */
    method Addition(i: UmInstruction.Instruction)
      requires Valid() && HasRegisters(i)
      modifies register.slots
      ensures Valid()
      ensures Abs() == Semantics.Addition(old(Abs()), i.a, i.b.value, i.c.value)
    {
      var a, b, c := i.a, i.b.value, i.c.value;
      var value := (register.GetRegisterValue(b) + register.GetRegisterValue(c)) % 0x1_0000_0000;
      register.SetRegisterValue(a, value);
    }

    /** `multiplication`: `wrapping_mul`. */
    method Multiplication(i: UmInstruction.Instruction)
      requires Valid() && HasRegisters(i)
      modifies register.slots
      ensures Valid()
      ensures Abs() == Semantics.Multiplication(old(Abs()), i.a, i.b.value, i.c.value)
    {
      var a, b, c := i.a, i.b.value, i.c.value;
      var product: int := register.GetRegisterValue(b) as int * register.GetRegisterValue(c);
      register.SetRegisterValue(a, product % 0x1_0000_0000);
    }

    /** `division`: `wrapping_div` on unsigned words, which is plain
        division; `false` for the zero divisor the source panics on. */
    method Division(i: UmInstruction.Instruction) returns (ok: bool)
      requires Valid() && HasRegisters(i)
      modifies register.slots
      ensures Valid()
      ensures Semantics.Division(old(Abs()), i.a, i.b.value, i.c.value) ==
        if ok then Some(Abs()) else None
      ensures !ok ==> Abs() == old(Abs())
    {
      var a, b, c := i.a, i.b.value, i.c.value;
      var divisor := register.GetRegisterValue(c);
      if divisor == 0 {
        return false;
      }
      var quotient := register.GetRegisterValue(b) / divisor;
      DivBounds(register.GetRegisterValue(b), divisor);
      register.SetRegisterValue(a, quotient);
      ok := true;
    }

    /** `bit_nand`: `!(r[b] & r[c])`. */
    method BitNand(i: UmInstruction.Instruction)
      requires Valid() && HasRegisters(i)
      modifies register.slots
      ensures Valid()
      ensures Abs() == Semantics.BitNand(old(Abs()), i.a, i.b.value, i.c.value)
    {
      var a, b, c := i.a, i.b.value, i.c.value;
      var x, y := register.GetRegisterValue(b), register.GetRegisterValue(c);
      BitAndAtMost(x, y);
      register.SetRegisterValue(a, BitNot32(BitAnd(x, y)));
    }

    /** `map_segment`: register b takes the new address, cut to 32 bits. */
    method MapSegment(i: UmInstruction.Instruction)
      requires Valid() && HasRegisters(i)
      modifies segment, register.slots
      ensures Valid()
      ensures Abs() == Semantics.MapSegment(old(Abs()), i.b.value, i.c.value)
    {
      var b, c := i.b.value, i.c.value;
      var size := register.GetRegisterValue(c);
      var address := segment.MapSegment(size);
      register.SetRegisterValue(b, address % 0x1_0000_0000);
    }

    /** `unmap_segment`: `false` where the source's `unwrap` panics. */
    method UnmapSegment(i: UmInstruction.Instruction) returns (ok: bool)
      requires Valid() && HasRegisters(i)
      modifies segment
      ensures Valid()
      ensures Semantics.UnmapSegment(old(Abs()), i.c.value) ==
        if ok then Some(Abs()) else None
      ensures !ok ==> Abs() == old(Abs())
    {
      var address := register.GetRegisterValue(i.c.value);
      ok := segment.UnmapSegment(address);
    }

    /** `output_program`: the byte to write, `None` where the source panics
        on a value above 255. The machine does not change. */
    method OutputProgram(i: UmInstruction.Instruction) returns (byte: Option<u8>)
      requires Valid() && HasRegisters(i)
      ensures byte.None? <==> register.Values()[i.c.value] > 255
      ensures byte.Some? ==> byte.value == register.Values()[i.c.value]
      ensures byte == Semantics.OutputProgram(Abs(), i.c.value)
    {
      var value := register.GetRegisterValue(i.c.value);
      if value > 255 {
        return None;
      }
      byte := Some(value);
    }

    /** `user_input`: register c takes the next byte read, or all ones when
        there is none; the byte read is a parameter here. */
    method UserInput(i: UmInstruction.Instruction, next: Option<u8>)
      requires Valid() && HasRegisters(i)
      modifies register.slots
      ensures Valid()
      ensures Abs() == Semantics.UserInput(old(Abs()), i.c.value, next)
    {
      var c := i.c.value;
      if next.Some? {
        register.SetRegisterValue(c, next.value);
      } else {
        register.SetRegisterValue(c, U32_MAX);
      }
    }

    /** `load_program`: the new instruction pointer; `false` where the
        source's `unwrap` panics. */
    method LoadProgram(i: UmInstruction.Instruction) returns (ok: bool, target: nat)
      requires Valid() && HasRegisters(i)
      modifies segment
      ensures Valid()
      ensures Semantics.LoadProgram(old(Abs()), i.b.value, i.c.value) ==
        if ok then Some(Semantics.Jump(Abs(), target)) else None
      ensures !ok ==> Abs() == old(Abs())
    {
      var b, c := i.b.value, i.c.value;
      var source := register.GetRegisterValue(b);
      ok := true;
      if source != 0 {
        ok := segment.InsertValue(source);
      }
      target := register.GetRegisterValue(c);
    }

    /** `load_value`. */
    method LoadValue(i: UmInstruction.Instruction)
      requires Valid() && HasValue(i)
      modifies register.slots
      ensures Valid()
      ensures Abs() == Semantics.LoadValue(old(Abs()), i.a, i.value.value)
    {
      register.SetRegisterValue(i.a, i.value.value);
    }
  }
}

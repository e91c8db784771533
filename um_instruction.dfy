/** The instruction decoder: a 32-bit word becomes an opcode and its operand
    fields.

    The opcode is the four-bit field at bit 28. `LoadValue` (opcode 13) has
    register A at bits 25..27 and a 25-bit immediate in bits 0..24; every
    other opcode has registers A, B and C at bits 6..8, 3..5 and 0..2. Fields
    an opcode does not have are `None`. */
module UmInstruction {
  import opened Words
  import opened Wrappers
  import Bitpack

  datatype Opcode =
    | CMov | Load | Store | Add | Mul | Div | Nand | Halt
    | MapSegment | UnmapSegment | Output | Input | LoadProgram | LoadValue
    | Err

  datatype Instruction = Instruction(
    opcode: Opcode, a: u32, b: Option<u32>, c: Option<u32>, value: Option<u32>)

  /** The opcode number of each operation in the Universal Machine's table. */
  function OpcodeNumber(op: Opcode): (k: nat)
    requires op != Err
    ensures k < 14
  {
    match op
    case CMov => 0
    case Load => 1
    case Store => 2
    case Add => 3
    case Mul => 4
    case Div => 5
    case Nand => 6
    case Halt => 7
    case MapSegment => 8
    case UnmapSegment => 9
    case Output => 10
    case Input => 11
    case LoadProgram => 12
    case LoadValue => 13
  }

  /** `get_opcode`: numbers 0 to 13 in the top four bits name an operation,
      14 and 15 decode to `Err`. */
  function GetOpcode(word: u32): (r: Opcode)
    ensures r == Err <==> Field(word, 28, 4) >= 14
    ensures r != Err ==> OpcodeNumber(r) == Field(word, 28, 4)
  {
    OpcodeFor(Bitpack.Getu(word, 28, 4))
  }

  /** The comparison chain of `get_opcode` on the opcode number k. */
  function OpcodeFor(k: nat): (r: Opcode)
    ensures r == Err <==> k >= 14
    ensures r != Err ==> OpcodeNumber(r) == k
  {
    if k == 0 then CMov
    else if k == 1 then Load
    else if k == 2 then Store
    else if k == 3 then Add
    else if k == 4 then Mul
    else if k == 5 then Div
    else if k == 6 then Nand
    else if k == 7 then Halt
    else if k == 8 then MapSegment
    else if k == 9 then UnmapSegment
    else if k == 10 then Output
    else if k == 11 then Input
    else if k == 12 then LoadProgram
    else if k == 13 then LoadValue
    else Err
  }

  /** Every named opcode is decoded from its own number. */
  lemma OpcodeForNumber(op: Opcode)
    requires op != Err
    ensures OpcodeFor(OpcodeNumber(op)) == op
  {
  }

  /** `get_a_bit`: register A, whose position depends on the opcode. */
  function GetA(word: u32, op: Opcode): (r: u32)
    ensures r < 8
    ensures r == Field(word, if op == LoadValue then 25 else 6, 3)
  {
    Pow2Constants();
    if op == LoadValue then Bitpack.Getu(word, 25, 3) else Bitpack.Getu(word, 6, 3)
  }

  /** `get_b_bit`: register B, absent for `LoadValue`. */
  function GetB(word: u32, op: Opcode): (r: Option<u32>)
    ensures r.None? <==> op == LoadValue
    ensures r.Some? ==> r.value < 8 && r.value == Field(word, 3, 3)
  {
    Pow2Constants();
    if op == LoadValue then None else Some(Bitpack.Getu(word, 3, 3))
  }

  /** `get_c_bit`: register C, absent for `LoadValue`. */
  function GetC(word: u32, op: Opcode): (r: Option<u32>)
    ensures r.None? <==> op == LoadValue
    ensures r.Some? ==> r.value < 8 && r.value == Field(word, 0, 3)
  {
    Pow2Constants();
    if op == LoadValue then None else Some(Bitpack.Getu(word, 0, 3))
  }

  /** `get_value`: the 25-bit immediate, present only for `LoadValue`. */
  function GetValue(word: u32, op: Opcode): (r: Option<u32>)
    ensures r.Some? <==> op == LoadValue
    ensures r.Some? ==> r.value < 0x200_0000 && r.value == Field(word, 0, 25)
  {
    Pow2Constants();
    if op == LoadValue then Some(Bitpack.Getu(word, 0, 25)) else None
  }

  /** The shape every decoded instruction has: register numbers below 8, an
      immediate below 2^25, and either the registers B and C or the immediate,
      never both; the immediate exactly for `LoadValue`. */
  predicate WellShaped(i: Instruction)
  {
    && i.a < 8
    && (i.b.Some? <==> i.value.None?)
    && (i.c.Some? <==> i.value.None?)
    && (i.value.Some? <==> i.opcode == LoadValue)
    && (i.b.Some? ==> i.b.value < 8)
    && (i.c.Some? ==> i.c.value < 8)
    && (i.value.Some? ==> i.value.value < 0x200_0000)
  }

  /** `Instruction::new`: decoding is total, every word gives a well-shaped
      instruction whose fields sit where the opcode's layout puts them. */
  function NewInstruction(word: u32): (r: Instruction)
    ensures WellShaped(r)
    ensures r.opcode == GetOpcode(word)
    ensures r.opcode == Err <==> Field(word, 28, 4) >= 14
    ensures r.opcode == LoadValue ==>
      r.a == Field(word, 25, 3) && r.value == Some(Field(word, 0, 25))
    ensures r.opcode != LoadValue ==>
      r.a == Field(word, 6, 3) && r.b == Some(Field(word, 3, 3)) &&
      r.c == Some(Field(word, 0, 3))
  {
    var op := GetOpcode(word);
    Instruction(op, GetA(word, op), GetB(word, op), GetC(word, op), GetValue(word, op))
  }

  // ---------------------------------------------------------------------
  // The encoding the decoder inverts

  /** An instruction an assembler can emit: a named opcode and a well-shaped
      operand set. */
  predicate Encodable(i: Instruction)
  {
    i.opcode != Err && WellShaped(i)
  }

  /** The word for an encodable instruction, written in mixed radix: opcode
      times 2^28, then either A times 2^25 plus the immediate, or A times 2^6,
      B times 2^3 and C. */
  function Encode(i: Instruction): (w: u32)
    requires Encodable(i)
  {
    if i.opcode == LoadValue then
      OpcodeNumber(i.opcode) * 0x1000_0000 + i.a * 0x200_0000 + i.value.value
    else
      OpcodeNumber(i.opcode) * 0x1000_0000 + i.a * 64 + i.b.value * 8 + i.c.value
  }

  /** The powers of two the instruction layout uses. */
  lemma LayoutPowers()
    ensures Pow2(3) == 8 && Pow2(4) == 16 && Pow2(6) == 64
    ensures Pow2(25) == 0x200_0000 && Pow2(28) == 0x1000_0000
  {
    Pow2Constants();
    Pow2Add(3, 3);
  }

  /** Decoding inverts encoding. */
  lemma DecodeEncode(i: Instruction)
    requires Encodable(i)
    ensures NewInstruction(Encode(i)) == i
  {
    if i.opcode == LoadValue {
      DecodeEncodeImmediate(i);
    } else {
      DecodeEncodeRegisters(i);
    }
  }

  lemma DecodeEncodeImmediate(i: Instruction)
    requires Encodable(i) && i.opcode == LoadValue
    ensures NewInstruction(Encode(i)) == i
  {
    var w, v := Encode(i), i.value.value;
    LayoutPowers();
    FieldOfDigits(w, 28, 4, 0, 13, i.a * 0x200_0000 + v, 16, 0x1000_0000);
    FieldOfDigits(w, 25, 3, 13, i.a, v, 8, 0x200_0000);
    FieldOfDigits(w, 0, 25, 13 * 8 + i.a, v, 0, 0x200_0000, 1);
  }

  lemma DecodeEncodeRegisters(i: Instruction)
    requires Encodable(i) && i.opcode != LoadValue
    ensures NewInstruction(Encode(i)) == i
  {
    var w, k := Encode(i), OpcodeNumber(i.opcode);
    var b, c := i.b.value, i.c.value;
    LayoutPowers();
    FieldOfDigits(w, 28, 4, 0, k, i.a * 64 + b * 8 + c, 16, 0x1000_0000);
    OpcodeForNumber(i.opcode);
    FieldOfDigits(w, 6, 3, k * 0x8_0000, i.a, b * 8 + c, 8, 64);
    FieldOfDigits(w, 3, 3, k * 0x40_0000 + i.a, b, c, 8, 8);
    FieldOfDigits(w, 0, 3, k * 0x200_0000 + i.a * 8 + b, c, 0, 8, 1);
  }

  /** Encoding is injective on encodable instructions: two different
      instructions never share a word. */
  lemma EncodeInjective(i: Instruction, j: Instruction)
    requires Encodable(i) && Encodable(j) && Encode(i) == Encode(j)
    ensures i == j
  {
    DecodeEncode(i);
    DecodeEncode(j);
  }

  /** Every word whose opcode is named decodes to an encodable instruction. */
  lemma DecodedIsEncodable(word: u32)
    requires Field(word, 28, 4) < 14
    ensures Encodable(NewInstruction(word))
  {
  }
}

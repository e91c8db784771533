# rum: a verified model of a Universal Machine emulator

`rum` is an emulator for the 14-opcode Universal Machine. The machine has:

- eight 32-bit registers;
- a table of segments of 32-bit words, where segment 0 holds the running program;
- a stack of freed segment addresses, which are reused last-freed-first;
- an instruction pointer into segment 0.

Each 32-bit instruction word carries a 4-bit opcode in bits 28..31. What follows depends on the opcode:

- `LoadValue` carries a register in bits 25..27 and a 25-bit immediate.
- Every other opcode carries three 3-bit register numbers A, B and C, in bits 6..8, 3..5 and 0..2.

The emulator reads the program image as big-endian words. It then loops:

1. fetch the word at the instruction pointer;
2. advance the pointer;
3. run the decoded opcode's handler.

The loop stops at `Halt` or at a fatal error.

This project models each layer of the emulator in Dafny.

- **`Bitpack`** (`bitpack.dfy`): the bit-field codec `fitsu`, `fitss`, `getu`, `gets`, `newu` and `news`.
  - Fields are written over unbounded integers as `(x / 2^lsb) % 2^width`.
  - Bit-level OR and AND are defined in `Words` (`words.dfy`), together with the arithmetic lemmas they need.
- **`UmInstruction`** (`um_instruction.dfy`): the decoder `Instruction::new` and its helpers.
  - It also has an encoder for the documented layout.
  - Decoding is proved to invert the encoder.
- **`RegisterFile`** (`register.dfy`): the register file, as a class over an 8-slot array.
- **`SegmentTable`** (`segment.dfy`): the segment table, in two parts.
  - Value-level functions (`Map`, `Unmap`, `StoreWord`, `ReplaceProgram`, …) carry the lemmas about reuse and copying.
  - A `Segment` class updates its two fields in place. Each of its methods is proved to produce exactly what the function says.
- **`Semantics`** (`machine.dfy`) holds the machine's semantics as functions on values:
  - one function per opcode handler;
  - `Execute`, the dispatch on a decoded instruction;
  - `Step`, which fetches, advances and dispatches;
  - `Run`, at most `fuel` steps.

  A step ends in one of three outcomes:
  - `Running`;
  - `Halted`;
  - `Failed`, with the fault. The state is kept as it was before the failing handler.
- **`RumMachine`** (`rum.dfy`): the `Rum` class, which owns a `Segment` and a `Register` and has one method per handler.
  - Each method is proved to leave the machine as the matching `Semantics` function says.
  - Where the source panics, the method returns `false` and changes nothing.
- **`Emulator`** (`emulator.dfy`): the bytes-to-words conversion and the emulator loop.
  - `Emulate` builds a `Rum` from a program image.
  - It then iterates fetch, advance and dispatch in a `while` loop.
  - It is proved to return exactly `Semantics.Run` of the booted state.
- **`Scenarios`** (`scenarios.dfy`): six small programs assembled with the encoder and followed through `Semantics.Run` to their outcome.

`Wrappers` (`wrappers.dfy`) holds the `Option` type.

Some parts of the running system become parameters of the model:

- **Input:** a sequence of bytes in the state. `Input` consumes its head. At end of input, `Input` stores all ones in register C.
- **Output:** a sequence the state appends to.
- **Loop cap:** the `0..usize::MAX` bound of the loop becomes the `fuel` bound of `Run`.

## Model

| member | source | states |
|---|---|---|
| Bitpack.Fitss | bitpack/src/bitpack.rs:8-19 | true exactly when -2^(w-1) <= n < 2^(w-1). Width 0, where `width - 1` underflows, and `i64::MIN`, whose negation overflows, are excluded by the precondition. |
| Bitpack.Fitsu | bitpack/src/bitpack.rs:26-44 | true exactly when n < 2^width. At width 0 this holds only for n = 0. |
| Bitpack.Getu | bitpack/src/bitpack.rs:67-73 | the shift-left/shift-right pair yields the unsigned field `(word / 2^lsb) mod 2^width`. |
| Bitpack.Gets | bitpack/src/bitpack.rs:53-58 | the result is the sign extension of the field. It lies in [-2^(w-1), 2^(w-1)) and is congruent to the unsigned field modulo 2^w. |
| Bitpack.GetsIsSignExtended | bitpack/src/bitpack.rs:57 | a 64-bit shift left, a cast to `i64` and an arithmetic shift right together compute the sign extension of the field. |
| Bitpack.GetuAbovePopulatedIsZero | bitpack/src/bitpack.rs:67-73 | a field lying wholly above every set bit of the word reads as 0. |
| Bitpack.GetsAbovePopulatedIsZero | bitpack/src/bitpack.rs:53-58 | the same for the signed field. |
| Bitpack.Newu | bitpack/src/bitpack.rs:86-102 | `None` exactly when the value does not fit in `width` unsigned bits. |
| Bitpack.NewuKeepsWordBits | bitpack/src/bitpack.rs:95 | every bit set in `word` is still set in the result, because the value is OR-ed in. |
| Bitpack.NewuField | bitpack/src/bitpack.rs:86-102 | the result's field is the OR of the old field and the value. Every bit outside the field is unchanged. Into an empty field the value is stored exactly. |
| Bitpack.NewuGetuRoundTrip | bitpack/src/bitpack.rs:67-102 | `getu(newu(0, w, lsb, v), lsb, w) == v` for every v that fits, and the packed word fits in 32 bits. |
| Bitpack.News | bitpack/src/bitpack.rs:115-130 | `None` exactly when the value does not fit in `width` signed bits. |
| Bitpack.NewsIntoZero | bitpack/src/bitpack.rs:115-130 | packing into a zero word gives `(value mod 2^w) * 2^lsb`. The mask `(1 << w) - 1` keeps the two's-complement low bits. |
| Bitpack.NewsField | bitpack/src/bitpack.rs:115-130 | for any word, the result's field is the OR of the old field and the value's low `width` two's-complement bits (`value mod 2^w`). Every bit outside the field is unchanged. |
| Bitpack.NewsGetsRoundTrip | bitpack/src/bitpack.rs:53-130 | `gets(news(0, w, lsb, v), w, lsb) == v` for every v that fits. |
| UmInstruction.GetOpcode | rum/src/um_instruction.rs:43-93 | `Err` exactly when the 4-bit field at bit 28 is 14 or 15. Otherwise the result is the opcode numbered by that field. |
| UmInstruction.OpcodeFor | rum/src/um_instruction.rs:48-92 | number k < 14 names the k-th opcode `CMov`..`LoadValue`; numbers from 14 up name `Err`. |
| UmInstruction.OpcodeForNumber | rum/src/um_instruction.rs:21-37 | the numbering is a bijection between 0..13 and the non-`Err` opcodes. |
| UmInstruction.GetA | rum/src/um_instruction.rs:107-114 | A is bits 25..27 for `LoadValue` and bits 6..8 otherwise, so it is always < 8. |
| UmInstruction.GetB | rum/src/um_instruction.rs:119-127 | `None` exactly for `LoadValue`. Otherwise bits 3..5, which are < 8. |
| UmInstruction.GetC | rum/src/um_instruction.rs:132-140 | `None` exactly for `LoadValue`. Otherwise bits 0..2, which are < 8. |
| UmInstruction.GetValue | rum/src/um_instruction.rs:146-153 | `Some` exactly for `LoadValue`, holding bits 0..24, which are < 2^25. |
| UmInstruction.NewInstruction | rum/src/um_instruction.rs:162-176 | decoding is total. The opcode is `get_opcode` of the word. Every word decodes to a well-shaped instruction: the register triple or the immediate is present, never both, with the bounds above. The fields sit where the opcode's layout puts them. |
| UmInstruction.DecodeEncode | rum/src/um_instruction.rs:162-176 | decoding the layout encoding of any instruction with a real opcode gives back that instruction. |
| UmInstruction.EncodeInjective | rum/src/um_instruction.rs:162-176 | distinct instructions have distinct words. |
| UmInstruction.DecodedIsEncodable | rum/src/um_instruction.rs:162-176 | every word whose opcode field is below 14 decodes to an instruction the encoder accepts. Decoding an encoded instruction gives it back (`DecodeEncode`). The converse does not hold for register opcodes, because decoding ignores bits 9..27. |
| RegisterFile.Register.constructor | rum/src/register.rs:19-23 | exactly 8 slots, all zero. |
| RegisterFile.Register.GetRegisterValue | rum/src/register.rs:31-40 | returns slot i. The read is unchecked, so i < 8 is required. |
| RegisterFile.Register.SetRegisterValue | rum/src/register.rs:47-49 | slot i reads back as v, the other seven slots are unchanged, and the length stays 8. |
| SegmentTable.Map | rum/src/segment.rs:36-55 | with an empty free stack, appends `size` zero words and returns the old table length (never 0). Otherwise it pops the most recently freed address, fills that slot with zeros and returns it, and the length is unchanged. No other segment changes. |
| SegmentTable.Unmap | rum/src/segment.rs:61-66 | fails exactly when the address is outside the table. Otherwise it pushes the address and empties its slot. Liveness and segment 0 are not checked. |
| SegmentTable.GetSegmentValue | rum/src/segment.rs:72-75 | `None` exactly when the address is outside the table. Otherwise the segment. |
| SegmentTable.FindInstruction | rum/src/segment.rs:81-87 | `None` exactly when the index is past the end of segment 0. Otherwise the decoded word. |
| SegmentTable.StoreWord | rum/src/segment.rs:95-100 | fails exactly when the address or index is out of range. Otherwise it changes only word i of segment a. Every other word, every segment length and the free stack are unchanged. |
| SegmentTable.ReplaceProgram | rum/src/segment.rs:106-111 | fails exactly when the address is outside the table. Otherwise segment 0 becomes segment a's contents and everything else is unchanged. |
| SegmentTable.MapUnmapMap | rum/src/segment.rs:36-66 | map, unmap, map again returns the same address, now holding only zeros. |
| SegmentTable.UnmapTwiceMapTwice | rum/src/segment.rs:36-66 | after unmapping x then y, two maps return y, then x. |
| SegmentTable.DoubleUnmapHandsOutTwice | rum/src/segment.rs:61-66 | because there is no double-free check, unmapping x twice makes the next two maps both return x. |
| SegmentTable.MapNeverShrinks | rum/src/segment.rs:40-54 | the table grows by one exactly when the free stack is empty. Otherwise its length is unchanged. |
| SegmentTable.InsertValueCopies | rum/src/segment.rs:106-111 | segment 0 is a copy, not an alias: a later store into segment a leaves segment 0 as a was. |
| SegmentTable.Segment.constructor | rum/src/segment.rs:24-30 | the table is `[program]` and the free stack is empty. |
| SegmentTable.Segment.MapSegment | rum/src/segment.rs:36-55 | the new table and the returned address are exactly `Map` of the old table. |
| SegmentTable.Segment.UnmapSegment | rum/src/segment.rs:61-66 | the new table is `Unmap` of the old one, or unchanged with `false` where the source panics. |
| SegmentTable.Segment.SetSegmentValue | rum/src/segment.rs:95-100 | the new table is `StoreWord` of the old one, or unchanged with `false` where the source panics. |
| SegmentTable.Segment.InsertValue | rum/src/segment.rs:106-111 | the new table is `ReplaceProgram` of the old one, or unchanged with `false` where the source panics. |
| Semantics.NewMachine | rum/src/rum.rs:26-33 | eight zero registers and the program as the only segment. |
| Semantics.ConditionalMove | rum/src/rum.rs:54-68 | if r[c] is not 0, r[a] takes r[b]. Otherwise the machine is unchanged. Nothing but r[a] changes. |
| Semantics.SegmentLoad | rum/src/rum.rs:76-93 | fails exactly when segment r[b] or its word r[c] is missing. Otherwise r[a] takes that word and nothing else changes. |
| Semantics.SegmentStore | rum/src/rum.rs:101-116 | fails exactly when segment r[a] or its word r[b] is missing. Otherwise the table is `StoreWord(r[a], r[b], r[c])` and the registers are unchanged. |
| Semantics.Addition | rum/src/rum.rs:123-134 | r[a] is r[b] + r[c], less 2^32 when the sum overflows, so 0xFFFFFFFF + 1 = 0. Nothing else changes. |
| Semantics.Multiplication | rum/src/rum.rs:142-153 | r[a] is the word congruent to r[b] * r[c] modulo 2^32. Nothing else changes. |
| Semantics.Division | rum/src/rum.rs:160-171 | fails exactly when r[c] = 0. Otherwise r[a] is the floor quotient, bounded as q*r[c] <= r[b] < (q+1)*r[c], and nothing else changes. |
| Semantics.BitNand | rum/src/rum.rs:178-189 | only r[a] changes. |
| Semantics.BitNandBits | rum/src/rum.rs:186 | each of the 32 bits of the new r[a] is set exactly when the same bits of r[b] and r[c] are not both set. |
| Semantics.MapSegment | rum/src/rum.rs:195-206 | the table is `Map(r[c])`. r[b] takes the address truncated to 32 bits. When the address is below 2^32, the segment at r[b] holds r[c] zero words. |
| Semantics.UnmapSegment | rum/src/rum.rs:213-223 | fails exactly when r[c] is outside the table. Otherwise the table is `Unmap(r[c])` and no register changes. |
| Semantics.OutputProgram | rum/src/rum.rs:229-242 | `None` (fatal) exactly when r[c] > 255. Otherwise the byte r[c]. |
| Semantics.UserInput | rum/src/rum.rs:247-261 | r[c] takes the next byte, or all ones at end of input. The two cases cannot be confused. Nothing else changes. |
| Semantics.LoadProgram | rum/src/rum.rs:268-280 | the new pointer is r[c] and no register changes. Segment 0 becomes a copy of segment r[b] only when r[b] is not 0, and this fails if that segment is missing. |
| Semantics.LoadValue | rum/src/rum.rs:286-293 | r[a] takes the immediate. Nothing else changes. |
| Semantics.Boot | rum/src/main.rs:43-45 | a valid state: the new machine, instruction pointer 0, nothing output. |
| Semantics.Step | rum/src/main.rs:50-100 | one pass of the loop body always yields a valid state: eight registers, segment 0 present, and every freed address inside the table. `StepFetches` states what the pass does: a fault past the end of segment 0, and otherwise the decoded handler with the pointer advanced. |
| Semantics.Run | rum/src/main.rs:47-101 | the state reached after at most `fuel` passes is valid in the same sense. `RunAdditive`, `RunStops` and `RunExtendsOutput` state how passes compose, that halting is final, and that output only grows. |
| Semantics.Execute | rum/src/main.rs:56-100 | the state stays valid, and a fatal outcome keeps the state from before the handler. |
| Semantics.StepFetches | rum/src/main.rs:50-52 | a step fails exactly when the pointer is past the end of segment 0. Otherwise it runs the decoded word's handler with the pointer already advanced by one. |
| Semantics.ExecuteIp | rum/src/main.rs:92-93 | after `LoadProgram` the pointer is overwritten with r[c]. After every other handler it stays at the advanced value. |
| Semantics.ExecuteStreams | rum/src/main.rs:86-91 | only a successful `Output` appends, and it appends exactly the byte r[c]. `Input` consumes exactly one byte when one is left. Every other handler leaves both streams alone. |
| Semantics.ExecuteRegisterOnly | rum/src/rum.rs:54-189 | `CMov`, `Add`, `Mul`, `Div`, `Nand` and `LoadValue` write at most register A and never touch the segment table. |
| Semantics.StepAppends | rum/src/main.rs:47-101 | one iteration never removes or rewrites output. |
| Semantics.RunExtendsOutput | rum/src/main.rs:47-101 | the output before a run is a prefix of the output after it. |
| Semantics.RunAdditive | rum/src/main.rs:47-101 | f1 + f2 iterations are f1 iterations followed, while still running, by f2 more. |
| Semantics.RunStops | rum/src/main.rs:77-78 | once halted or failed, more fuel changes nothing. |
| Semantics.PrintedBytes | rum/src/rum.rs:240 | `print!` of a `char` writes one byte below 128 and two bytes from 128 up. |
| Semantics.OutputAsWritten | rum/src/rum.rs:229-242 | fails exactly where `OutputProgram` fails, and agrees with it below 128. |
| Semantics.OutputAsWrittenIsNotOneByte | rum/src/rum.rs:240 | for r[c] = 200 the source writes the two bytes C3 88, not the one byte 200. |
| RumMachine.Rum.constructor | rum/src/rum.rs:26-33 | the machine is `NewMachine(program)`. |
| RumMachine.Rum.GetInstruction | rum/src/rum.rs:40-45 | `None` exactly when the index is past segment 0. Otherwise the well-shaped decoding of that word. |
| RumMachine.Rum.ConditionalMove | rum/src/rum.rs:54-68 | the machine afterwards is `Semantics.ConditionalMove` of the machine before. |
| RumMachine.Rum.SegmentLoad | rum/src/rum.rs:76-93 | the machine afterwards is `Semantics.SegmentLoad` of the machine before; `false` with nothing changed where it fails. |
| RumMachine.Rum.SegmentStore | rum/src/rum.rs:101-116 | the same, for `Semantics.SegmentStore`. |
| RumMachine.Rum.Addition | rum/src/rum.rs:123-134 | the machine afterwards is `Semantics.Addition` of the machine before. |
| RumMachine.Rum.Multiplication | rum/src/rum.rs:142-153 | the machine afterwards is `Semantics.Multiplication` of the machine before. |
| RumMachine.Rum.Division | rum/src/rum.rs:160-171 | `Semantics.Division` of the machine before; `false` with nothing changed for a zero divisor. |
| RumMachine.Rum.BitNand | rum/src/rum.rs:178-189 | the machine afterwards is `Semantics.BitNand` of the machine before. |
| RumMachine.Rum.MapSegment | rum/src/rum.rs:195-206 | the machine afterwards is `Semantics.MapSegment` of the machine before. |
| RumMachine.Rum.UnmapSegment | rum/src/rum.rs:213-223 | `Semantics.UnmapSegment` of the machine before; `false` with nothing changed where it fails. |
| RumMachine.Rum.OutputProgram | rum/src/rum.rs:229-242 | the byte to write, or `None` exactly when r[c] > 255. The machine does not change. |
| RumMachine.Rum.UserInput | rum/src/rum.rs:247-261 | the machine afterwards is `Semantics.UserInput` of the machine before and the byte read. |
| RumMachine.Rum.LoadProgram | rum/src/rum.rs:268-280 | the machine and the returned pointer are `Semantics.LoadProgram` of the machine before; `false` where it fails. |
| RumMachine.Rum.LoadValue | rum/src/rum.rs:286-293 | the machine afterwards is `Semantics.LoadValue` of the machine before. |
| Emulator.BytesToWords | rum/src/main.rs:22-25 | |buf| / 4 words, with 1-3 trailing bytes dropped. Word k is the big-endian value of bytes 4k..4k+3. |
| Emulator.WordOfBytesOf | rum/src/main.rs:24 | reading back a word's four big-endian bytes gives the word. |
| Emulator.BytesOfWordOf | rum/src/main.rs:24 | the four bytes of a word read from four bytes are those bytes. |
| Emulator.ImageRoundTrip | rum/src/main.rs:22-25 | converting the image of any word sequence gives back that sequence. |
| Emulator.WordsRoundTrip | rum/src/main.rs:22-25 | re-imaging the converted words gives the buffer with its trailing partial word removed. |
| Emulator.Dispatch | rum/src/main.rs:56-100 | exactly one handler runs, chosen by the decoded opcode. The outcome is `Semantics.Execute`, and the `Rum` afterwards holds the outcome's machine. |
| Emulator.Cycle | rum/src/main.rs:50-100 | one iteration of the loop body computes exactly `Semantics.Step` of the current state. |
| Emulator.Loop | rum/src/main.rs:47-101 | the loop computes exactly `fuel` iterations of `Semantics.Step`, stopping early at the first outcome that is not `Running`. Afterwards the `Rum` is valid and holds the outcome's machine. |
| Emulator.Emulate | rum/src/main.rs:39-101 | decoding the image, building the `Rum` and running the loop from pointer 0 gives exactly `Semantics.Run(Boot(BytesToWords(image), input), fuel)`. |
| Scenarios.PrintOneHalts | rum/src/rum.rs:229-242 | the program "load v into r, output r, halt" writes exactly [v] and halts, for any register, byte, input and fuel >= 3. |
| Scenarios.AddWrapHalts | rum/src/rum.rs:123-134 | NAND of the zero register gives all ones, and all ones plus one gives 0. The program halts normally. |
| Scenarios.DivideByZeroFails | rum/src/rum.rs:160-171 | a division by a zero register fails with `DivisionByZero`, and no output is produced. |
| Scenarios.ReuseHandsOutOneTwice | rum/src/segment.rs:36-66 | mapping 3 words returns address 1. After unmapping it, mapping 5 words returns 1 again, now holding 5 zero words. |
| Scenarios.JumpOverSkipsOutput | rum/src/main.rs:92-93 | `LoadProgram` with r[b] = 0 keeps segment 0 and jumps to r[c]. The skipped `Output` never runs. |
| Scenarios.PrintTooLargeFails | rum/src/rum.rs:235-238 | outputting 300 fails with `OutputOutOfRange` before any byte is written. |

## Left out

- Reading the program file, whether named on the command line or taken from stdin (`rum/src/main.rs:10-20, 33-36`). The model starts from the image bytes.
- Terminal I/O. `print!`/`flush` in `output_program` and `stdin().bytes()` in `user_input` become an output sequence and an input sequence in the state.
- Output is modelled as one code point per `Output`. The source writes UTF-8 (see Findings).
- `process::exit(0)` at `Halt` becomes the `Halted` outcome. A `panic!` becomes a `Failed` outcome naming the fault, or a `false`/`None` result from the method concerned.
- The `0..usize::MAX` bound of the loop becomes the `fuel` parameter. Termination is not modelled.
- `usize` and `as u32` widths are modelled only where they change a value.
  - `map_segment` truncates the new address to 32 bits, and the model does too.
  - Segment addresses and indices are otherwise unbounded naturals.
  - A memory-allocation failure of `vec![0; size]` is not modelled.
- `unsafe` and `get_unchecked` carry no semantics. An unchecked register read becomes the precondition `i < 8`.
- SegmentTable.Segment.UnmapSegment: the source pushes the address onto the free stack before its `unwrap` panics on a missing segment. The model reports the failure with the table unchanged, since the process ends there anyway.
- `Debug` derivations and the formatting of the `Err` panic message are presentation only.
- The copy of `getu` in `rum/src/um_instruction.rs:96-102` is byte-for-byte the one in `bitpack/src/bitpack.rs:67-73`. It is modelled once, as `Bitpack.Getu`. The decoder's fields are stated with the same `Field` function.
- `get_opcode` converts the word with `try_into().unwrap()` (`rum/src/um_instruction.rs:46`). The word always comes from a `u32`, so this never fails and the model takes a `u32`.
- Unmapping a segment that is not live, is already free, or is segment 0 is not detected. This follows the code rather than the Universal Machine's published description, which calls these failures; `SegmentTable.DoubleUnmapHandsOutTwice` states the consequence.
- Bitpack.Fitss, Bitpack.Gets, Bitpack.News: shifts by the full word width or more, and the `width - 1` underflow, panic in Rust debug builds. The model requires `1 <= width`, keeps shift amounts below the word width, and excludes `i64::MIN` from `fitss` and `news`, instead of modelling the panic.
- Bitpack.Getu: width 0 makes the right shift `32 - width` overflow, so the model requires `1 <= width` and `lsb + width <= 32`.
- Bitpack.Fitsu, Bitpack.Newu: a shift by 64 or more panics in Rust, so the model requires `width < 64` (and `lsb < 64` for `newu`).

## Findings

| source | as written | input that shows it | evidently intended | confidence | as-written member | corrected member |
|---|---|---|---|---|---|---|
| rum/src/rum.rs:240 | `print!("{}", char::from_u32(c_value).unwrap())` writes the UTF-8 encoding of code point `c_value` | register C holding 200: the bytes C3 88 are written instead of the single byte 200 (any value 128..255 writes two bytes) | `Output` writes exactly one byte, the value of register C | not executed | Semantics.OutputAsWrittenIsNotOneByte | Semantics.ExecuteStreams |

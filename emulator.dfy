/** The emulator's driver: the program image read as big-endian words, and
    the fetch/advance/dispatch loop over a `Rum`. The loop is proved to
    compute `Semantics.Run`; the file read, standard input and standard
    output become a byte sequence in, a byte sequence in and a byte
    sequence out. */
module Emulator {
  import opened Words
  import opened Wrappers
  import opened UmInstruction
  import Semantics
  import RumMachine

  // ---------------------------------------------------------------------
  // Program image

  /** `u32::from_be_bytes`: the first byte is the most significant. */
  function WordOf(chunk: seq<u8>): (w: u32)
    requires |chunk| == 4
  {
    chunk[0] as int * 0x100_0000 + chunk[1] as int * 0x1_0000 + chunk[2] as int * 0x100 + chunk[3]
  }

  /** The four big-endian bytes of a word (`u32::to_be_bytes`). */
  function BytesOf(w: u32): (b: seq<u8>)
    ensures |b| == 4
  {
    [w / 0x100_0000, (w / 0x1_0000) % 0x100, (w / 0x100) % 0x100, w % 0x100]
  }

  /** The image as words: one per complete group of four bytes, in order;
      trailing bytes that do not fill a word are dropped, as
      `chunks_exact(4)` drops them. */
  function BytesToWords(buf: seq<u8>): (ws: seq<u32>)
    ensures |ws| == |buf| / 4
    ensures forall k :: 0 <= k < |ws| ==> ws[k] == WordOf(buf[4 * k .. 4 * k + 4])
    decreases |buf|
  {
    if |buf| < 4 then []
    else
      var rest := BytesToWords(buf[4..]);
      assert forall k :: 0 <= k < |rest| ==> buf[4..][4 * k .. 4 * k + 4] == buf[4 * (k + 1) .. 4 * (k + 1) + 4];
      [WordOf(buf[..4])] + rest
  }

  /** A program image holding exactly the given words. */
  function WordsToBytes(ws: seq<u32>): (buf: seq<u8>)
    ensures |buf| == 4 * |ws|
  {
    if ws == [] then [] else BytesOf(ws[0]) + WordsToBytes(ws[1..])
  }

  /** Big-endian digits are unique: a word written with four byte digits
      has exactly those digits as its bytes. */
  lemma BytesOfDigits(w: u32, b0: u8, b1: u8, b2: u8, b3: u8)
    requires w == b0 as int * 0x100_0000 + b1 as int * 0x1_0000 + b2 as int * 0x100 + b3
    ensures BytesOf(w) == [b0, b1, b2, b3]
  {
    DivModUnique(w, 0x100_0000, b0, b1 * 0x1_0000 + b2 * 0x100 + b3);
    DivModUnique(w, 0x1_0000, b0 * 0x100 + b1, b2 * 0x100 + b3);
    DivModUnique(b0 * 0x100 + b1, 0x100, b0, b1);
    DivModUnique(w, 0x100, b0 * 0x1_0000 + b1 * 0x100 + b2, b3);
    DivModUnique(b0 * 0x1_0000 + b1 * 0x100 + b2, 0x100, b0 * 0x100 + b1, b2);
  }

  /** Reading back the bytes of a word gives the word. */
  lemma WordOfBytesOf(w: u32)
    ensures WordOf(BytesOf(w)) == w
  {
    var q1 := w / 0x100;
    var q2 := q1 / 0x100;
    var q3 := q2 / 0x100;
    DivBounds(w, 0x100);
    DivBounds(q1, 0x100);
    DivBounds(q2, 0x100);
    assert w == ((q3 * 0x100 + q2 % 0x100) * 0x100 + q1 % 0x100) * 0x100 + w % 0x100;
    BytesOfDigits(w, q3, q2 % 0x100, q1 % 0x100, w % 0x100);
  }

  /** Writing a word read from four bytes gives back those bytes. */
  lemma BytesOfWordOf(chunk: seq<u8>)
    requires |chunk| == 4
    ensures BytesOf(WordOf(chunk)) == chunk
  {
    BytesOfDigits(WordOf(chunk), chunk[0], chunk[1], chunk[2], chunk[3]);
  }

  /** Reading an image written from words gives back those words. */
  lemma {:induction false} ImageRoundTrip(ws: seq<u32>)
    ensures BytesToWords(WordsToBytes(ws)) == ws
  {
    if ws != [] {
      var buf := WordsToBytes(ws);
      assert buf[..4] == BytesOf(ws[0]);
      assert buf[4..] == WordsToBytes(ws[1..]);
      WordOfBytesOf(ws[0]);
      ImageRoundTrip(ws[1..]);
    }
  }

  /** Writing the words read from an image gives back the image without
      its trailing partial word. */
  lemma {:induction false} WordsRoundTrip(buf: seq<u8>)
    ensures WordsToBytes(BytesToWords(buf)) == buf[..|buf| / 4 * 4]
    decreases |buf|
  {
    if |buf| >= 4 {
      var ws := BytesToWords(buf);
      assert ws[1..] == BytesToWords(buf[4..]);
      BytesOfWordOf(buf[..4]);
      WordsRoundTrip(buf[4..]);
      assert buf[4..][..|buf[4..]| / 4 * 4] == buf[4..|buf| / 4 * 4];
      assert buf[..|buf| / 4 * 4] == buf[..4] + buf[4..|buf| / 4 * 4];
    }
  }

  // ---------------------------------------------------------------------
  // The loop

  /** One pass of the loop body: fetch word `ip` of segment 0, advance the
      instruction pointer, dispatch on the opcode. The outcome is the one
      `Semantics.Step` gives, and its machine is the `Rum`'s new state.

      `step` is `Semantics.Step` itself (the only caller passes it through);
      naming it as a parameter lets the loop's proof treat a step as one
      opaque value instead of opening the whole dispatch at every use. */
  method Cycle(rum: RumMachine.Rum, ip: nat, input: seq<u8>, output: seq<u8>,
               ghost step: Semantics.State --> Semantics.Outcome)
    returns (o: Semantics.Outcome)
    requires rum.Valid() && Semantics.Closed(step)
    requires forall t {:trigger Semantics.Step(t)} ::
      Semantics.ValidState(t) ==> step(t) == Semantics.Step(t)
    modifies rum.segment, rum.register.slots
    ensures rum.Valid()
    ensures o == step(Semantics.State(old(rum.Abs()), ip, input, output))
    ensures o.state.machine == rum.Abs()
  {
    ghost var s := Semantics.State(rum.Abs(), ip, input, output);
    Semantics.StepFetches(s);
    var fetched := rum.GetInstruction(ip);
    if fetched.None? {
      return Semantics.Failed(Semantics.FetchOutOfBounds, Semantics.State(rum.Abs(), ip, input, output));
    }
    var i := fetched.value;
    var next := ip + 1;
    o := Dispatch(rum, i, next, input, output, s.(ip := s.ip + 1));
  }

  /** The chain of opcode tests in the loop body, for an instruction already
      fetched and an instruction pointer already advanced to `next`. */
  method Dispatch(rum: RumMachine.Rum, i: Instruction, next: nat, input: seq<u8>, output: seq<u8>,
                  ghost s: Semantics.State)
    returns (o: Semantics.Outcome)
    requires rum.Valid() && WellShaped(i)
    requires s == Semantics.State(rum.Abs(), next, input, output)
    modifies rum.segment, rum.register.slots
    ensures rum.Valid()
    ensures o == Semantics.Execute(i, s)
    ensures o.state.machine == rum.Abs()
  {
    if i.opcode == CMov {
      rum.ConditionalMove(i);
      o := Semantics.Running(Semantics.State(rum.Abs(), next, input, output));
    } else if i.opcode == Load {
      var ok := rum.SegmentLoad(i);
      o := if ok then Semantics.Running(Semantics.State(rum.Abs(), next, input, output))
           else Semantics.Failed(Semantics.LoadOutOfBounds, Semantics.State(rum.Abs(), next, input, output));
    } else if i.opcode == Store {
      var ok := rum.SegmentStore(i);
      o := if ok then Semantics.Running(Semantics.State(rum.Abs(), next, input, output))
           else Semantics.Failed(Semantics.StoreOutOfBounds, Semantics.State(rum.Abs(), next, input, output));
    } else if i.opcode == Add {
      rum.Addition(i);
      o := Semantics.Running(Semantics.State(rum.Abs(), next, input, output));
    } else if i.opcode == Mul {
      rum.Multiplication(i);
      o := Semantics.Running(Semantics.State(rum.Abs(), next, input, output));
    } else if i.opcode == Div {
      var ok := rum.Division(i);
      o := if ok then Semantics.Running(Semantics.State(rum.Abs(), next, input, output))
           else Semantics.Failed(Semantics.DivisionByZero, Semantics.State(rum.Abs(), next, input, output));
    } else if i.opcode == Nand {
      rum.BitNand(i);
      o := Semantics.Running(Semantics.State(rum.Abs(), next, input, output));
    } else if i.opcode == Halt {
      o := Semantics.Halted(Semantics.State(rum.Abs(), next, input, output));
    } else if i.opcode == MapSegment {
      rum.MapSegment(i);
      o := Semantics.Running(Semantics.State(rum.Abs(), next, input, output));
    } else if i.opcode == UnmapSegment {
      var ok := rum.UnmapSegment(i);
      o := if ok then Semantics.Running(Semantics.State(rum.Abs(), next, input, output))
           else Semantics.Failed(Semantics.UnmapOutOfBounds, Semantics.State(rum.Abs(), next, input, output));
    } else if i.opcode == Output {
      var byte := rum.OutputProgram(i);
      o := if byte.Some? then Semantics.Running(Semantics.State(rum.Abs(), next, input, output + [byte.value]))
           else Semantics.Failed(Semantics.OutputOutOfRange, Semantics.State(rum.Abs(), next, input, output));
    } else if i.opcode == Input {
      if |input| > 0 {
        rum.UserInput(i, Some(input[0]));
        o := Semantics.Running(Semantics.State(rum.Abs(), next, input[1..], output));
      } else {
        rum.UserInput(i, None);
        o := Semantics.Running(Semantics.State(rum.Abs(), next, input, output));
      }
    } else if i.opcode == Opcode.LoadProgram {
      var ok, target := rum.LoadProgram(i);
      o := if ok then Semantics.Running(Semantics.State(rum.Abs(), target, input, output))
           else Semantics.Failed(Semantics.ProgramOutOfBounds, Semantics.State(rum.Abs(), next, input, output));
    } else if i.opcode == Opcode.LoadValue {
      rum.LoadValue(i);
      o := Semantics.Running(Semantics.State(rum.Abs(), next, input, output));
    } else {
      o := Semantics.Failed(Semantics.UnknownOpcode, Semantics.State(rum.Abs(), next, input, output));
    }
  }

  /** `main`: read the image as words, build a `Rum`, and run the loop for
      at most `fuel` iterations (the source's bound is `usize::MAX`). The
      result is exactly `Semantics.Run` from the boot state. */
  method Emulate(image: seq<u8>, input: seq<u8>, fuel: nat) returns (o: Semantics.Outcome)
    ensures o == Semantics.Run(Semantics.Boot(BytesToWords(image), input), fuel)
  {
    var program := BytesToWords(image);
    var rum := new RumMachine.Rum(program);
    assert Semantics.Closed(Semantics.Step);
    o := Loop(rum, 0, input, [], fuel, Semantics.Step);
  }

  /** The `for` loop of `main`, from a given machine, instruction pointer,
      pending input and output so far: at most `fuel` passes of `Cycle`,
      leaving at the first halt or fatal error. The outcome is
      `Semantics.Iterate` of `step`, which `Emulate` passes as
      `Semantics.Step`. */
  method Loop(rum: RumMachine.Rum, ip0: nat, input: seq<u8>, output: seq<u8>, fuel: nat,
              ghost step: Semantics.State --> Semantics.Outcome)
    returns (o: Semantics.Outcome)
    requires rum.Valid() && Semantics.Closed(step)
    requires forall t {:trigger Semantics.Step(t)} ::
      Semantics.ValidState(t) ==> step(t) == Semantics.Step(t)
    modifies rum.segment, rum.register.slots
    ensures o == Semantics.Iterate(step, Semantics.State(old(rum.Abs()), ip0, input, output), fuel)
    ensures rum.Valid() && o.state.machine == rum.Abs()
  {
    var ip, pending, emitted := ip0, input, output;
    var n := 0;
    ghost var current := Semantics.State(rum.Abs(), ip, pending, emitted);
    ghost var left: nat := fuel;
    while n < fuel
      invariant 0 <= n <= fuel && left == fuel - n && rum.Valid()
      invariant current == Semantics.State(rum.Abs(), ip, pending, emitted)
      invariant Semantics.Iterate(step, Semantics.State(old(rum.Abs()), ip0, input, output), fuel) ==
        Semantics.Iterate(step, current, left)
    {
      var next := Cycle(rum, ip, pending, emitted, step);
      if !next.Running? {
        return next;
      }
      ip, pending, emitted := next.state.ip, next.state.input, next.state.output;
      current, left := next.state, left - 1;
      n := n + 1;
    }
    o := Semantics.Running(Semantics.State(rum.Abs(), ip, pending, emitted));
  }
}

/** The segmented memory: a table of word segments plus a stack of freed
    addresses for reuse.

    The operations are first given as functions on a `Memory` value, and the
    class `Segment` then performs them by updating its two fields; each of its
    methods is proved to leave the value the function describes. */
module SegmentTable {
  import opened Words
  import opened Wrappers
  import opened UmInstruction

  /** `addresses` is the free stack, its top last; `instructions[k]` is the
      segment at address k, empty once unmapped. */
  datatype Memory = Memory(addresses: seq<nat>, instructions: seq<seq<u32>>)

  /** The table always has a slot 0, and every freed address names a slot
      (slots are never removed, so an address stays in range once pushed). */
  predicate Consistent(m: Memory)
  {
    && |m.instructions| >= 1
    && forall k :: 0 <= k < |m.addresses| ==> m.addresses[k] < |m.instructions|
  }

  /** `size` zero words. */
  function Zeros(size: nat): (z: seq<u32>)
    ensures |z| == size && forall k :: 0 <= k < size ==> z[k] == 0
  {
    seq(size, _ => 0)
  }

  /** The table `Segment::new` builds: the program as segment 0, nothing freed. */
  function Initial(program: seq<u32>): Memory
  {
    Memory([], [program])
  }

  /** Result of mapping: the new table and the address handed out. */
  datatype Mapped = Mapped(mem: Memory, address: nat)

  /** `map_segment`: a segment of `size` zeros. The most recently freed
      address is reused if there is one; otherwise the table grows by a slot
      at its end. No other segment changes. */
  function Map(m: Memory, size: nat): (r: Mapped)
    requires Consistent(m)
    ensures Consistent(r.mem) && |r.mem.instructions| >= |m.instructions|
    ensures r.address < |r.mem.instructions| && r.mem.instructions[r.address] == Zeros(size)
    ensures forall k :: 0 <= k < |m.instructions| && k != r.address ==>
      r.mem.instructions[k] == m.instructions[k]
    ensures m.addresses == [] ==>
      && r.address == |m.instructions| >= 1
      && |r.mem.instructions| == |m.instructions| + 1
      && r.mem.addresses == []
    ensures m.addresses != [] ==>
      && r.address == m.addresses[|m.addresses| - 1]
      && |r.mem.instructions| == |m.instructions|
      && r.mem.addresses == m.addresses[..|m.addresses| - 1]
  {
    if m.addresses == [] then
      Mapped(Memory([], m.instructions + [Zeros(size)]), |m.instructions|)
    else
      var a := m.addresses[|m.addresses| - 1];
      Mapped(Memory(m.addresses[..|m.addresses| - 1], m.instructions[a := Zeros(size)]), a)
  }

  /** `unmap_segment`: address x goes on the free stack and its slot is
      emptied. Only an address outside the table fails; whether x is live,
      already free, or 0 is not checked. */
  function Unmap(m: Memory, x: nat): (r: Option<Memory>)
    requires Consistent(m)
    ensures r.None? <==> x >= |m.instructions|
    ensures r.Some? ==>
      && Consistent(r.value)
      && r.value.addresses == m.addresses + [x]
      && |r.value.instructions| == |m.instructions|
      && r.value.instructions[x] == []
      && forall k :: 0 <= k < |m.instructions| && k != x ==>
           r.value.instructions[k] == m.instructions[k]
  {
    if x < |m.instructions| then
      Some(Memory(m.addresses + [x], m.instructions[x := []]))
    else
      None
  }

  /** `get_segment_value`: the segment at address a, if the table has one. */
  function GetSegmentValue(m: Memory, a: nat): (r: Option<seq<u32>>)
    ensures r.None? <==> a >= |m.instructions|
    ensures r.Some? ==> r.value == m.instructions[a]
  {
    if a < |m.instructions| then Some(m.instructions[a]) else None
  }

  /** `find_instruction`: word c of segment 0, decoded; out of range is fatal. */
  function FindInstruction(m: Memory, c: nat): (r: Option<Instruction>)
    requires Consistent(m)
    ensures r.None? <==> c >= |m.instructions[0]|
    ensures r.Some? ==> r.value == NewInstruction(m.instructions[0][c])
  {
    var program := m.instructions[0];
    if c < |program| then Some(NewInstruction(program[c])) else None
  }

  /** `set_segment_value`: word i of segment a becomes v; a missing segment
      or word is fatal. Every other word, every segment's length and the
      free stack are unchanged. */
  function StoreWord(m: Memory, a: nat, i: nat, v: u32): (r: Option<Memory>)
    requires Consistent(m)
    ensures r.None? <==> a >= |m.instructions| || i >= |m.instructions[a]|
    ensures r.Some? ==>
      && Consistent(r.value)
      && r.value.addresses == m.addresses
      && |r.value.instructions| == |m.instructions|
      && (forall k :: 0 <= k < |m.instructions| ==>
            |r.value.instructions[k]| == |m.instructions[k]|)
      && r.value.instructions[a][i] == v
      && (forall k, j ::
            0 <= k < |m.instructions| && 0 <= j < |m.instructions[k]| && (k != a || j != i) ==>
            r.value.instructions[k][j] == m.instructions[k][j])
  {
    if a < |m.instructions| && i < |m.instructions[a]| then
      var segment: seq<u32> := m.instructions[a];
      Some(m.(instructions := m.instructions[a := segment[i := v]]))
    else
      None
  }

  /** `insert_value`: segment 0 becomes a copy of segment a; a missing
      segment is fatal. Every other segment and the free stack are unchanged. */
  function ReplaceProgram(m: Memory, a: nat): (r: Option<Memory>)
    requires Consistent(m)
    ensures r.None? <==> a >= |m.instructions|
    ensures r.Some? ==>
      && Consistent(r.value)
      && r.value.addresses == m.addresses
      && |r.value.instructions| == |m.instructions|
      && r.value.instructions[0] == m.instructions[a]
      && forall k :: 1 <= k < |m.instructions| ==> r.value.instructions[k] == m.instructions[k]
  {
    if a < |m.instructions| then
      Some(m.(instructions := m.instructions[0 := m.instructions[a]]))
    else
      None
  }

  // ---------------------------------------------------------------------
  // Reuse and value semantics

  /** Mapping, unmapping the new address and mapping again hands out the same
      address, now holding zeros of the new size. */
  lemma MapUnmapMap(m: Memory, n: nat, k: nat)
    requires Consistent(m)
    ensures Unmap(Map(m, n).mem, Map(m, n).address).Some?
    ensures Map(Unmap(Map(m, n).mem, Map(m, n).address).value, k).address == Map(m, n).address
    ensures Map(Unmap(Map(m, n).mem, Map(m, n).address).value, k).mem.instructions ==
      Map(m, n).mem.instructions[Map(m, n).address := Zeros(k)]
  {
    var r1 := Map(m, n);
    var m2 := Unmap(r1.mem, r1.address).value;
    assert m2.addresses[|m2.addresses| - 1] == r1.address;
  }

  /** Freed addresses are reused last-freed first: unmapping x then y and
      mapping twice yields y, then x. */
  lemma UnmapTwiceMapTwice(m: Memory, x: nat, y: nat, n1: nat, n2: nat)
    requires Consistent(m) && x < |m.instructions| && y < |m.instructions|
    ensures Unmap(m, x).Some? && Unmap(Unmap(m, x).value, y).Some?
    ensures Map(Unmap(Unmap(m, x).value, y).value, n1).address == y
    ensures Map(Map(Unmap(Unmap(m, x).value, y).value, n1).mem, n2).address == x
  {
    var m1 := Unmap(m, x).value;
    var m2 := Unmap(m1, y).value;
    assert m2.addresses == m.addresses + [x] + [y];
    var m3 := Map(m2, n1).mem;
    assert m3.addresses == m.addresses + [x];
  }

  /** The table keeps its length while the free stack is non-empty and
      grows by exactly one slot otherwise, so it never shrinks. */
  lemma MapNeverShrinks(m: Memory, size: nat)
    requires Consistent(m)
    ensures |Map(m, size).mem.instructions| ==
      |m.instructions| + (if m.addresses == [] then 1 else 0)
  {
  }

  /** Segment 0 after `insert_value` is a copy, not a reference: a later
      store into the source segment leaves the program unchanged. */
  lemma InsertValueCopies(m: Memory, a: nat, i: nat, v: u32)
    requires Consistent(m) && 1 <= a < |m.instructions| && i < |m.instructions[a]|
    ensures ReplaceProgram(m, a).Some?
    ensures StoreWord(ReplaceProgram(m, a).value, a, i, v).Some?
    ensures StoreWord(ReplaceProgram(m, a).value, a, i, v).value.instructions[0] ==
      m.instructions[a]
  {
    var m1 := ReplaceProgram(m, a).value;
    var m2 := StoreWord(m1, a, i, v).value;
    assert |m2.instructions[0]| == |m1.instructions[0]|;
    forall j | 0 <= j < |m2.instructions[0]|
      ensures m2.instructions[0][j] == m.instructions[a][j]
    {
      assert m2.instructions[0][j] == m1.instructions[0][j];
    }
  }

  /** A double unmap of the same address puts it on the free stack twice, so
      two later maps both hand it out: the source does not detect the
      double free. */
  lemma DoubleUnmapHandsOutTwice(m: Memory, x: nat, n1: nat, n2: nat)
    requires Consistent(m) && x < |m.instructions|
    ensures Unmap(m, x).Some? && Unmap(Unmap(m, x).value, x).Some?
    ensures Map(Unmap(Unmap(m, x).value, x).value, n1).address == x
    ensures Map(Map(Unmap(Unmap(m, x).value, x).value, n1).mem, n2).address == x
  {
    UnmapTwiceMapTwice(m, x, x, n1, n2);
  }

  // ---------------------------------------------------------------------
  // The table as an object

  class Segment {
    var addresses: seq<nat>
    var instructions: seq<seq<u32>>

    /** The table's current value. */
    function Abs(): Memory
      reads this
    {
      Memory(addresses, instructions)
    }

    ghost predicate Valid()
      reads this
    {
      Consistent(Abs())
    }

    /** `Segment::new`: a copy of the program as segment 0, nothing freed. */
    constructor(program: seq<u32>)
      ensures Valid() && Abs() == Initial(program)
    {
      addresses := [];
      instructions := [program];
    }

    /** `map_segment`: pops or grows as `Map` says and returns the address. */
    method MapSegment(size: nat) returns (address: nat)
      requires Valid()
      modifies this
      ensures Valid() && Mapped(Abs(), address) == Map(old(Abs()), size)
    {
      var zeros := seq(size, _ => 0);
      if |addresses| == 0 {
        instructions := instructions + [zeros];
        address := |instructions| - 1;
      } else {
        address := addresses[|addresses| - 1];
        addresses := addresses[..|addresses| - 1];
        instructions := instructions[address := zeros];
      }
    }

    /** `unmap_segment`: pushes x and empties its slot; `false` (and no
        change) when x is outside the table, where the source panics. */
    method UnmapSegment(x: nat) returns (ok: bool)
      requires Valid()
      modifies this
      ensures Valid()
      ensures Unmap(old(Abs()), x) == if ok then Some(Abs()) else None
      ensures !ok ==> Abs() == old(Abs())
    {
      ok := x < |instructions|;
      if ok {
        addresses := addresses + [x];
        instructions := instructions[x := []];
      }
    }

    /** `set_segment_value`: stores v at word i of segment a; `false` (and
        no change) when the segment or the word is missing. */
    method SetSegmentValue(a: nat, i: nat, v: u32) returns (ok: bool)
      requires Valid()
      modifies this
      ensures Valid()
      ensures StoreWord(old(Abs()), a, i, v) == if ok then Some(Abs()) else None
      ensures !ok ==> Abs() == old(Abs())
    {
      ok := a < |instructions| && i < |instructions[a]|;
      if ok {
        var current := instructions[a];
        instructions := instructions[a := current[i := v]];
      }
    }

    /** `insert_value`: segment 0 becomes a copy of segment a; `false` (and
        no change) when there is no segment a. */
    method InsertValue(a: nat) returns (ok: bool)
      requires Valid()
      modifies this
      ensures Valid()
      ensures ReplaceProgram(old(Abs()), a) == if ok then Some(Abs()) else None
      ensures !ok ==> Abs() == old(Abs())
    {
      ok := a < |instructions|;
      if ok {
        var cloned := instructions[a];
        instructions := instructions[0 := cloned];
      }
    }
  }
}

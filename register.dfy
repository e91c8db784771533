/** The register file: eight 32-bit registers, all zero at start. */
module RegisterFile {
  import opened Words

  /** The number of registers. */
  const COUNT: nat := 8

  class Register {
    const slots: array<u32>

    ghost predicate Valid()
      reads this
    {
      slots.Length == COUNT
    }

    /** The registers' contents, register 0 first. */
    function Values(): seq<u32>
      reads this, slots
    {
      slots[..]
    }

    /** `Register::new`: eight registers holding zero. */
    constructor()
      ensures Valid() && fresh(slots)
      ensures |Values()| == COUNT && forall k :: 0 <= k < COUNT ==> Values()[k] == 0
    {
      slots := new u32[COUNT](_ => 0);
    }

    /** `get_register_value`: the contents of register i. The source reads
        without a bounds check, so i must name a register. */
    function GetRegisterValue(i: nat): (v: u32)
      requires Valid() && i < COUNT
      reads this, slots
      ensures v == Values()[i]
    {
      slots[i]
    }

    /** `set_register_value`: register i now holds v and the other seven
        keep their contents. */
    method SetRegisterValue(i: nat, v: u32)
      requires Valid() && i < COUNT
      modifies slots
      ensures Valid()
      ensures Values() == old(Values())[i := v]
      ensures GetRegisterValue(i) == v
      ensures forall k :: 0 <= k < COUNT && k != i ==> Values()[k] == old(Values())[k]
    {
      slots[i] := v;
    }
  }
}

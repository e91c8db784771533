/** Machine words as bounded integers.

    Rust's fixed-width unsigned and signed integers are modelled as subsets of
    `int`; a logical shift is multiplication or division by a power of two,
    with the bits shifted past the top of an n-bit word dropped by `% 2^n`.
    Bitwise OR and AND are defined bit by bit on natural numbers, and
    `Bit(x, i)` gives bit i of x, so that the lemmas below can speak about
    individual bits. */
module Words {

  type u8 = x: int | 0 <= x < 0x100
  type u32 = x: int | 0 <= x < 0x1_0000_0000
  type u64 = x: int | 0 <= x < 0x1_0000_0000_0000_0000
  type i64 = x: int | -0x8000_0000_0000_0000 <= x < 0x8000_0000_0000_0000

  /** `u32::MAX`, all 32 bits set. */
  const U32_MAX: u32 := 0xFFFF_FFFF

  function Pow2(n: nat): (r: nat)
    ensures r >= 1
  {
    if n == 0 then 1 else 2 * Pow2(n - 1)
  }

  lemma {:induction false} Pow2Add(a: nat, b: nat)
    ensures Pow2(a + b) == Pow2(a) * Pow2(b)
  {
    if a > 0 {
      Pow2Add(a - 1, b);
      assert Pow2(a + b) == 2 * Pow2(a - 1 + b);
    }
  }

  lemma Pow2Mono(a: nat, b: nat)
    requires a <= b
    ensures Pow2(a) <= Pow2(b)
  {
    Pow2Add(a, b - a);
  }

  /** The powers of two that name the word sizes used by the emulator. */
  lemma Pow2Constants()
    ensures Pow2(1) == 2 && Pow2(3) == 8 && Pow2(4) == 16 && Pow2(8) == 0x100
    ensures Pow2(25) == 0x200_0000 && Pow2(28) == 0x1000_0000
    ensures Pow2(31) == 0x8000_0000 && Pow2(32) == 0x1_0000_0000
    ensures Pow2(63) == 0x8000_0000_0000_0000 && Pow2(64) == 0x1_0000_0000_0000_0000
  {
    assert Pow2(2) == 4;
    assert Pow2(3) == 8;
    assert Pow2(4) == 16 by { Pow2Add(2, 2); }
    assert Pow2(8) == 0x100 by { Pow2Add(4, 4); }
    assert Pow2(16) == 0x1_0000 by { Pow2Add(8, 8); }
    assert Pow2(24) == 0x100_0000 by { Pow2Add(16, 8); }
    assert Pow2(25) == 0x200_0000;
    assert Pow2(28) == 0x1000_0000 by { Pow2Add(24, 4); }
    assert Pow2(31) == 0x8000_0000 by { Pow2Add(28, 3); }
    assert Pow2(32) == 0x1_0000_0000;
    assert Pow2(63) == 0x8000_0000_0000_0000 by { Pow2Add(32, 31); }
  }

  /** The size of a 32-bit word. */
  lemma Pow2Of32()
    ensures Pow2(32) == 0x1_0000_0000
  {
    Pow2Constants();
  }

  /** The sizes of a 64-bit word and of its sign bit. */
  lemma Pow2Of64()
    ensures Pow2(63) == 0x8000_0000_0000_0000 && Pow2(64) == 0x1_0000_0000_0000_0000
  {
    Pow2Constants();
  }

  // ---------------------------------------------------------------------
  // Division and remainder by positive divisors

  lemma DivModUnique(x: int, d: int, q: int, r: int)
    requires 0 < d && 0 <= r < d && x == q * d + r
    ensures x / d == q && x % d == r
  {
    var q0, r0 := x / d, x % d;
    assert (q - q0) * d == r0 - r;
    if q0 < q {
      MulAtLeast(q - q0, d);
    } else if q < q0 {
      MulAtLeast(q0 - q, d);
    }
  }

  lemma MulAtLeast(k: int, d: int)
    requires 1 <= k && 0 < d
    ensures k * d >= d
  {
  }

  lemma MulStrictMono(a: int, b: int, c: int)
    requires a < b && 0 < c
    ensures a * c < b * c
  {
    MulAtLeast(b - a, c);
  }

  lemma MulMono(a: int, b: int, c: int)
    requires a <= b && 0 <= c
    ensures a * c <= b * c
  {
    if a < b && 0 < c {
      MulStrictMono(a, b, c);
    }
  }

  /** The quotient of a non-negative x by d is the largest q with q * d <= x. */
  lemma DivBounds(x: int, d: int)
    requires 0 <= x && 0 < d
    ensures 0 <= x / d <= x
    ensures (x / d) * d <= x < (x / d + 1) * d
  {
    var q := x / d;
    assert x == q * d + x % d;
    MulMono(1, d, q);
    assert (q + 1) * d == q * d + d;
  }

  /** For a non-negative dividend, the quotient is zero exactly below the divisor. */
  lemma DivIsZero(x: int, d: int)
    requires 0 <= x && 0 < d
    ensures x / d == 0 <==> x < d
  {
    if x < d {
      DivModUnique(x, d, 0, x);
    } else {
      assert x == (x / d) * d + x % d;
    }
  }

  /** Dividing by a product is dividing twice; the remainder splits likewise. */
  lemma DivModProduct(x: int, a: int, b: int)
    requires 0 < a && 0 < b
    ensures x / (a * b) == (x / a) / b
    ensures x % (a * b) == ((x / a) % b) * a + x % a
  {
    var q1, r1 := x / a, x % a;
    var q2, r2 := q1 / b, q1 % b;
    assert x == (q2 * b + r2) * a + r1;
    assert x == q2 * (a * b) + (r2 * a + r1);
    assert r2 * a + r1 < a * b by {
      assert r2 * a <= (b - 1) * a;
    }
    DivModUnique(x, a * b, q2, r2 * a + r1);
  }

  /** The remainder modulo `a * b`, divided by `a`, is the quotient by `a` modulo `b`. */
  lemma ModProductDiv(x: int, a: int, b: int)
    requires 0 < a && 0 < b
    ensures (x % (a * b)) / a == (x / a) % b
  {
    DivModProduct(x, a, b);
    DivModUnique(x % (a * b), a, (x / a) % b, x % a);
  }

  /** Scaling the dividend and the divisor by the same `a`. */
  lemma MulDivMod(x: int, a: int, b: int)
    requires 0 < a && 0 < b
    ensures (x * a) / (a * b) == x / b
    ensures (x * a) % (a * b) == (x % b) * a
  {
    var q, r := x / b, x % b;
    assert x * a == q * (a * b) + r * a;
    assert r * a < a * b by {
      assert r * a <= (b - 1) * a;
    }
    DivModUnique(x * a, a * b, q, r * a);
  }

  lemma MulDivExact(x: int, a: int)
    requires 0 < a
    ensures (x * a) / a == x && (x * a) % a == 0
  {
    DivModUnique(x * a, a, x, 0);
  }

  // ---------------------------------------------------------------------
  // Shifts and bit fields

  /** `x << k` in an n-bit word: bits moved past bit n-1 are lost. */
  function Shl(x: nat, k: nat, n: nat): (r: nat)
    ensures r < Pow2(n)
  {
    (x * Pow2(k)) % Pow2(n)
  }

  /** Logical `x >> k`: the low k bits are dropped. */
  function Shr(x: nat, k: nat): nat
  {
    DivNonNegative(x, Pow2(k));
    x / Pow2(k)
  }

  lemma DivNonNegative(x: int, d: int)
    requires 0 <= x && 0 < d
    ensures 0 <= x / d
  {
  }

  /** Arithmetic (sign-propagating) `x >> k` on a signed value; `/` by a
      positive divisor rounds toward negative infinity, as the shift does. */
  function Sar(x: int, k: nat): int
  {
    x / Pow2(k)
  }

  /** The reference definition of a bit field: the `width` bits of x that
      start at bit `lsb`, as an unsigned number. */
  function Field(x: nat, lsb: nat, width: nat): nat
  {
    (x / Pow2(lsb)) % Pow2(width)
  }

  /** `x << s` in an n-bit word keeps the low n - s bits of x, moved up by s. */
  lemma ShlIsScaledLowBits(x: nat, s: nat, n: nat)
    requires s <= n
    ensures Shl(x, s, n) == (x % Pow2(n - s)) * Pow2(s)
  {
    Pow2Add(s, n - s);
    MulDivMod(x, Pow2(s), Pow2(n - s));
  }

  /** The low `lsb + width` bits of x are its field at `lsb` above its low `lsb` bits. */
  lemma LowBitsSplit(x: nat, lsb: nat, width: nat)
    ensures x % Pow2(lsb + width) == Field(x, lsb, width) * Pow2(lsb) + x % Pow2(lsb)
  {
    Pow2Add(lsb, width);
    DivModProduct(x, Pow2(lsb), Pow2(width));
  }

  /** Shifting a field's top bit to the top of an n-bit word and then back
      down to bit 0 extracts exactly that field. */
  lemma ShiftPairIsField(x: nat, n: nat, lsb: nat, width: nat)
    requires width + lsb <= n
    ensures Shr(Shl(x, n - width - lsb, n), n - width) == Field(x, lsb, width)
  {
    var s := n - width - lsb;
    var y := x % Pow2(width + lsb);
    ShlIsScaledLowBits(x, s, n);
    assert n - s == width + lsb;
    Pow2Add(s, lsb);
    assert n - width == s + lsb;
    MulDivMod(y, Pow2(s), Pow2(lsb));
    assert Shr(Shl(x, s, n), n - width) == y / Pow2(lsb);
    Pow2Add(lsb, width);
    ModProductDiv(x, Pow2(lsb), Pow2(width));
  }

  lemma FieldBound(x: nat, lsb: nat, width: nat)
    ensures Field(x, lsb, width) < Pow2(width)
  {
  }

  /** A number written in mixed radix as `hi | f | lo`, with `f` in a field of
      `width` bits at `lsb` (weights `W = 2^width` and `L = 2^lsb`), has `f`
      as that field. */
  lemma FieldOfDigits(x: nat, lsb: nat, width: nat, hi: nat, f: nat, lo: nat, W: nat, L: nat)
    requires W == Pow2(width) && L == Pow2(lsb)
    requires f < W && lo < L && x == (hi * W + f) * L + lo
    ensures Field(x, lsb, width) == f
  {
    DivModUnique(x, L, hi * W + f, lo);
    DivModUnique(hi * W + f, W, hi, f);
  }

  /** A value placed at bit `lsb` by multiplication comes back out of that field. */
  lemma FieldOfShifted(v: nat, lsb: nat, width: nat)
    requires v < Pow2(width)
    ensures Field(v * Pow2(lsb), lsb, width) == v
  {
    MulDivExact(v, Pow2(lsb));
    DivModUnique(v, Pow2(width), 0, v);
  }

  // ---------------------------------------------------------------------
  // Bits

  /** Bit i of x (bit 0 is the least significant). */
  predicate Bit(x: nat, i: nat)
  {
    (x / Pow2(i)) % 2 == 1
  }

  lemma BitSucc(x: nat, i: nat)
    ensures Bit(x, i + 1) == Bit(x / 2, i)
  {
    DivModProduct(x, 2, Pow2(i));
  }

  lemma BitsOfZero(i: nat)
    ensures !Bit(0, i)
  {
  }

  /** Every bit at or above n of a number below 2^n is clear. */
  lemma BitAboveBound(x: nat, n: nat, i: nat)
    requires x < Pow2(n) && n <= i
    ensures !Bit(x, i)
  {
    Pow2Mono(n, i);
    DivModUnique(x, Pow2(i), 0, x);
  }

  /** Two numbers below 2^n with the same n low bits are equal. */
  lemma {:induction false} BitsDetermine(x: nat, y: nat, n: nat)
    requires x < Pow2(n) && y < Pow2(n)
    requires forall i :: 0 <= i < n ==> Bit(x, i) == Bit(y, i)
    ensures x == y
  {
    if n > 0 {
      assert Bit(x, 0) == Bit(y, 0);
      assert x % 2 == y % 2;
      forall i | 0 <= i < n - 1
        ensures Bit(x / 2, i) == Bit(y / 2, i)
      {
        BitSucc(x, i);
        BitSucc(y, i);
        assert Bit(x, i + 1) == Bit(y, i + 1);
      }
      BitsDetermine(x / 2, y / 2, n - 1);
    }
  }

  /** Bit i of a field is bit `lsb + i` of the word, inside the field. */
  lemma FieldBit(x: nat, lsb: nat, width: nat, i: nat)
    ensures Bit(Field(x, lsb, width), i) == (i < width && Bit(x, lsb + i))
  {
    if i < width {
      var y := Shr(x, lsb);
      assert Field(x, lsb, width) == y % Pow2(width);
      LowBit(y, width, i);
      QuotientBit(x, lsb, i);
    } else {
      BitAboveBound(Field(x, lsb, width), width, i);
    }
  }

  /** Bit i of `x / 2^lsb` is bit `lsb + i` of x. */
  lemma QuotientBit(x: nat, lsb: nat, i: nat)
    ensures Bit(Shr(x, lsb), i) == Bit(x, lsb + i)
  {
    assert x / Pow2(lsb + i) == (x / Pow2(lsb)) / Pow2(i) by {
      Pow2Add(lsb, i);
      DivModProduct(x, Pow2(lsb), Pow2(i));
    }
  }

  /** Reducing modulo 2^width keeps every bit below `width`. */
  lemma LowBit(y: nat, width: nat, i: nat)
    requires i < width
    ensures Bit(y % Pow2(width), i) == Bit(y, i)
  {
    var P, Q := Pow2(i), Pow2(width - i - 1);
    assert Pow2(width) == P * (2 * Q) by {
      Pow2Add(i, width - i);
    }
    ModDigit(y, P, Q);
  }

  /** The digit of weight `P` survives reduction modulo `P * 2Q`. */
  lemma ModDigit(y: int, P: int, Q: int)
    requires 0 < P && 0 < Q
    ensures ((y % (P * (2 * Q))) / P) % 2 == (y / P) % 2
  {
    ModProductDiv(y, P, 2 * Q);
    var z := y / P;
    DivModProduct(z, 2, Q);
    DivModUnique(z % (2 * Q), 2, (z / 2) % Q, z % 2);
  }

  /** Bit i of `v * 2^lsb` is bit `i - lsb` of v, and clear below `lsb`. */
  lemma ShiftedBit(v: nat, lsb: nat, i: nat)
    ensures Bit(v * Pow2(lsb), i) == (lsb <= i && Bit(v, i - lsb))
  {
    if lsb <= i {
      ShiftedBitAbove(v, lsb, i);
    } else {
      ShiftedBitBelow(v, lsb, i);
    }
  }

  lemma ShiftedBitAbove(v: nat, lsb: nat, i: nat)
    requires lsb <= i
    ensures (v * Pow2(lsb)) / Pow2(i) == v / Pow2(i - lsb)
  {
    Pow2Add(lsb, i - lsb);
    MulDivMod(v, Pow2(lsb), Pow2(i - lsb));
  }

  lemma ShiftedBitBelow(v: nat, lsb: nat, i: nat)
    requires i < lsb
    ensures !Bit(v * Pow2(lsb), i)
  {
    var A, B := Pow2(i), Pow2(lsb - i - 1);
    assert Pow2(lsb) == A * (2 * B) by {
      Pow2Add(i, lsb - i);
    }
    EvenQuotient(v, A, B);
  }

  /** A multiple of `2A`, divided by A, is even. */
  lemma EvenQuotient(v: nat, A: nat, B: nat)
    requires 0 < A
    ensures ((v * (A * (2 * B))) / A) % 2 == 0
  {
    assert v * (A * (2 * B)) == (2 * (v * B)) * A;
    MulDivExact(2 * (v * B), A);
    MulDivExact(v * B, 2);
  }

  /** Bitwise OR (`|`). */
  function BitOr(a: nat, b: nat): nat
    decreases a + b
  {
    if a == 0 && b == 0 then 0
    else 2 * BitOr(a / 2, b / 2) + (if a % 2 == 1 || b % 2 == 1 then 1 else 0)
  }

  /** Bitwise AND (`&`). */
  function BitAnd(a: nat, b: nat): nat
    decreases a + b
  {
    if a == 0 && b == 0 then 0
    else 2 * BitAnd(a / 2, b / 2) + (if a % 2 == 1 && b % 2 == 1 then 1 else 0)
  }

  /** Bitwise NOT (`!`) of a 32-bit word. */
  function BitNot32(x: u32): u32
  {
    U32_MAX - x
  }

  lemma {:induction false} BitOrBit(a: nat, b: nat, i: nat)
    ensures Bit(BitOr(a, b), i) == (Bit(a, i) || Bit(b, i))
    decreases i
  {
    if a == 0 && b == 0 {
      BitsOfZero(i);
    } else {
      var low := if a % 2 == 1 || b % 2 == 1 then 1 else 0;
      DivModUnique(BitOr(a, b), 2, BitOr(a / 2, b / 2), low);
      if i > 0 {
        BitSucc(BitOr(a, b), i - 1);
        BitSucc(a, i - 1);
        BitSucc(b, i - 1);
        BitOrBit(a / 2, b / 2, i - 1);
      }
    }
  }

  lemma {:induction false} BitAndBit(a: nat, b: nat, i: nat)
    ensures Bit(BitAnd(a, b), i) == (Bit(a, i) && Bit(b, i))
    decreases i
  {
    if a == 0 && b == 0 {
      BitsOfZero(i);
    } else {
      var low := if a % 2 == 1 && b % 2 == 1 then 1 else 0;
      DivModUnique(BitAnd(a, b), 2, BitAnd(a / 2, b / 2), low);
      if i > 0 {
        BitSucc(BitAnd(a, b), i - 1);
        BitSucc(a, i - 1);
        BitSucc(b, i - 1);
        BitAndBit(a / 2, b / 2, i - 1);
      }
    }
  }

  /** OR never sets a bit at or above n when neither operand has one. */
  lemma {:induction false} BitOrBound(a: nat, b: nat, n: nat)
    requires a < Pow2(n) && b < Pow2(n)
    ensures BitOr(a, b) < Pow2(n)
  {
    if n > 0 && !(a == 0 && b == 0) {
      BitOrBound(a / 2, b / 2, n - 1);
    }
  }

  /** AND never exceeds its left operand. */
  lemma {:induction false} BitAndAtMost(a: nat, b: nat)
    ensures BitAnd(a, b) <= a
    decreases a + b
  {
    if !(a == 0 && b == 0) {
      BitAndAtMost(a / 2, b / 2);
    }
  }

  lemma {:induction false} BitOrZero(a: nat)
    ensures BitOr(0, a) == a && BitOr(a, 0) == a
  {
    if a != 0 {
      BitOrZero(a / 2);
    }
  }

  /** OR does not depend on the order of its operands. */
  lemma {:induction false} BitOrCommutes(a: nat, b: nat)
    ensures BitOr(a, b) == BitOr(b, a)
    decreases a + b
  {
    if a != 0 || b != 0 {
      BitOrCommutes(a / 2, b / 2);
    }
  }

  /** ORing `value * 2^lsb` into x ORs value into x's field at `lsb` and
      leaves every bit of x outside that field as it was. */
  lemma OrShiftedIntoField(x: nat, value: nat, lsb: nat, width: nat)
    requires value < Pow2(width)
    ensures Field(BitOr(value * Pow2(lsb), x), lsb, width) == BitOr(Field(x, lsb, width), value)
    ensures forall i: nat :: i < lsb || lsb + width <= i ==>
      (Bit(BitOr(value * Pow2(lsb), x), i) <==> Bit(x, i))
  {
    var r := BitOr(value * Pow2(lsb), x);
    var oldField := Field(x, lsb, width);
    BitOrBound(oldField, value, width);
    forall i | 0 <= i < width
      ensures Bit(Field(r, lsb, width), i) == Bit(BitOr(oldField, value), i)
    {
      OrShiftedFieldBit(x, value, lsb, width, i);
    }
    BitsDetermine(Field(r, lsb, width), BitOr(oldField, value), width);
    forall i: nat | i < lsb || lsb + width <= i
      ensures Bit(r, i) <==> Bit(x, i)
    {
      OrShiftedOutsideBit(x, value, lsb, width, i);
    }
  }

  lemma OrShiftedFieldBit(x: nat, value: nat, lsb: nat, width: nat, i: nat)
    requires i < width
    ensures Bit(Field(BitOr(value * Pow2(lsb), x), lsb, width), i) ==
      Bit(BitOr(Field(x, lsb, width), value), i)
  {
    var shifted := value * Pow2(lsb);
    FieldBit(BitOr(shifted, x), lsb, width, i);
    BitOrBit(shifted, x, lsb + i);
    ShiftedBit(value, lsb, lsb + i);
    FieldBit(x, lsb, width, i);
    BitOrBit(Field(x, lsb, width), value, i);
  }

  lemma OrShiftedOutsideBit(x: nat, value: nat, lsb: nat, width: nat, i: nat)
    requires value < Pow2(width)
    requires i < lsb || lsb + width <= i
    ensures Bit(BitOr(value * Pow2(lsb), x), i) <==> Bit(x, i)
  {
    BitOrBit(value * Pow2(lsb), x, i);
    ShiftedBit(value, lsb, i);
    if lsb + width <= i {
      BitAboveBound(value, width, i - lsb);
    }
  }

  /** Complementing a number below 2^n flips each of its n low bits. */
  lemma {:induction false} ComplementBit(z: nat, n: nat, i: nat)
    requires z < Pow2(n) && i < n
    ensures Bit(Pow2(n) - 1 - z, i) == !Bit(z, i)
  {
    var q, r := z / 2, z % 2;
    var c := Pow2(n) - 1 - z;
    assert Pow2(n) == 2 * Pow2(n - 1);
    assert q < Pow2(n - 1);
    assert c == 2 * (Pow2(n - 1) - 1 - q) + (1 - r);
    DivModUnique(c, 2, Pow2(n - 1) - 1 - q, 1 - r);
    if i > 0 {
      BitSucc(c, i - 1);
      BitSucc(z, i - 1);
      ComplementBit(q, n - 1, i - 1);
    }
  }

  /** Masking with `2^w - 1` keeps the low w bits: it is reduction mod 2^w. */
  lemma LowMask(x: nat, w: nat)
    ensures BitAnd(x, Pow2(w) - 1) == x % Pow2(w)
  {
    var m := Pow2(w) - 1;
    BitAndAtMost(m, x);
    assert BitAnd(x, m) == BitAnd(m, x) by { BitAndCommutes(x, m); }
    forall i | 0 <= i < w
      ensures Bit(BitAnd(x, m), i) == Bit(x % Pow2(w), i)
    {
      BitAndBit(x, m, i);
      ComplementBit(0, w, i);
      FieldBit(x, 0, w, i);
    }
    BitsDetermine(BitAnd(x, m), x % Pow2(w), w);
  }

  lemma {:induction false} BitAndCommutes(a: nat, b: nat)
    ensures BitAnd(a, b) == BitAnd(b, a)
    decreases a + b
  {
    if !(a == 0 && b == 0) {
      BitAndCommutes(a / 2, b / 2);
    }
  }
}

/** The bit-field codec: whether a value fits in a field of a given width,
    extracting a signed or unsigned field, and packing a value into a word.

    In the Rust source a shift by at least the width of its type, `width - 1`
    at width 0 and `-n` at `i64::MIN` all panic (debug builds); each of those
    is a `requires` here. */
module Bitpack {
  import opened Words
  import opened Wrappers

  const I64_MIN: int := -0x8000_0000_0000_0000

  /** `x as i64` for a `u64`: the same 64 bits read in two's complement. */
  function AsI64(x: nat): (r: i64)
    requires x < Pow2(64)
    ensures r % Pow2(64) == x
  {
    Pow2Of64();
    if x >= 0x8000_0000_0000_0000 then x - 0x1_0000_0000_0000_0000 else x
  }

  /** `x as u64` for an `i64`: the two's-complement bits as an unsigned number. */
  function AsU64(x: i64): (r: u64)
    ensures r % Pow2(64) == x % Pow2(64)
  {
    Pow2Of64();
    x % Pow2(64)
  }

  /** The two's-complement reading of a `width`-bit unsigned field. */
  function SignExtend(f: nat, width: nat): int
    requires 1 <= width
  {
    if f >= Pow2(width - 1) then f - Pow2(width) else f
  }

  /** A w-bit field read in two's complement lies in the signed range of w
      bits and differs from the unsigned reading by a multiple of 2^w. */
  lemma SignExtendRange(f: nat, width: nat)
    requires 1 <= width && f < Pow2(width)
    ensures -(Pow2(width - 1) as int) <= SignExtend(f, width) < Pow2(width - 1)
    ensures (SignExtend(f, width) - f) % Pow2(width) == 0
  {
    assert Pow2(width) == 2 * Pow2(width - 1);
    if f >= Pow2(width - 1) {
      DivModUnique(SignExtend(f, width) - f, Pow2(width), -1, 0);
    }
  }

  lemma ShlOne(k: nat, n: nat)
    requires k < n
    ensures Shl(1, k, n) == Pow2(k)
  {
    Pow2Mono(k + 1, n);
    DivModUnique(Pow2(k), Pow2(n), 0, Pow2(k));
  }

  /** `fitss`: n fits in `width` two's-complement bits. */
  function Fitss(n: i64, width: u64): (r: bool)
    requires 1 <= width <= 64
    requires n != I64_MIN
    ensures r <==> -(Pow2(width - 1) as int) <= n < Pow2(width - 1)
  {
    ShlOne(width - 1, 64);
    if n < 0 then -n <= Shl(1, width - 1, 64)
    else n < Shl(1, width - 1, 64)
  }

  /** `fitsu`: n fits in `width` unsigned bits. */
  function Fitsu(n: u64, width: u64): (r: bool)
    requires width < 64
    ensures r <==> n < Pow2(width)
    ensures width == 0 ==> (r <==> n == 0)
  {
    DivIsZero(n, Pow2(width));
    if Shr(n, width) == 0 then true
    else if width == 0 then n == 0
    else false
  }

  /** `getu`: the unsigned field of `width` bits at `lsb` of a 32-bit word. */
  function Getu(word: u32, lsb: u32, width: u32): (r: u32)
    requires 1 <= width && lsb + width <= 32
    ensures r == Field(word, lsb, width)
  {
    ShiftPairIsField(word, 32, lsb, width);
    Pow2Of32();
    Pow2Mono(width, 32);
    Shr(Shl(word, 32 - width - lsb, 32), 32 - width)
  }

  /** `gets`: the field of `width` bits at `lsb`, sign-extended. */
  function Gets(word: u64, width: u64, lsb: u64): (r: i64)
    requires 1 <= width && width + lsb <= 64
    ensures r == SignExtend(Field(word, lsb, width), width)
    ensures -(Pow2(width - 1) as int) <= r < Pow2(width - 1)
    ensures (r - Field(word, lsb, width)) % Pow2(width) == 0
  {
    Pow2Of64();
    GetsIsSignExtended(word, width, lsb);
    SignExtendRange(Field(word, lsb, width), width);
    Pow2Mono(width - 1, 63);
    Sar(AsI64(Shl(word, 64 - width - lsb, 64)), 64 - width)
  }

  /** The arithmetic behind a sign-extending extraction: a number made of a
      `2P`-valued digit f above a remainder below K is at least `P * K`
      exactly when f is at least P, and dividing by K recovers the digit. */
  lemma SignedDigit(f: int, K: int, low: int, P: int)
    requires 0 < K && 0 < P && 0 <= low < K && 0 <= f < 2 * P
    ensures (f * K + low >= P * K) <==> (f >= P)
    ensures (f * K + low) / K == f
    ensures (f * K + low - 2 * P * K) / K == f - 2 * P
  {
    DivModUnique(f * K + low, K, f, low);
    assert f * K + low - 2 * P * K == (f - 2 * P) * K + low;
    DivModUnique(f * K + low - 2 * P * K, K, f - 2 * P, low);
    if f >= P {
      MulMono(P, f, K);
    } else {
      MulMono(f + 1, P, K);
    }
  }

  /** After the left shift, the field is the digit above bit `64 - width`
      and the bits below the field sit under it. */
  lemma ShiftedFieldDigit(word: nat, width: nat, lsb: nat)
    requires 1 <= width && width + lsb <= 64
    ensures Shl(word, 64 - width - lsb, 64) ==
      Field(word, lsb, width) * Pow2(64 - width) + (word % Pow2(lsb)) * Pow2(64 - width - lsb)
    ensures 0 <= (word % Pow2(lsb)) * Pow2(64 - width - lsb) < Pow2(64 - width)
  {
    var s := 64 - width - lsb;
    var f := Field(word, lsb, width);
    var lo := word % Pow2(lsb);
    assert Shl(word, s, 64) == (word % Pow2(lsb + width)) * Pow2(s) by {
      ShlIsScaledLowBits(word, s, 64);
      assert 64 - s == lsb + width;
    }
    assert word % Pow2(lsb + width) == f * Pow2(lsb) + lo by {
      LowBitsSplit(word, lsb, width);
    }
    assert Pow2(64 - width) == Pow2(lsb) * Pow2(s) by {
      Pow2Add(lsb, s);
    }
    Distribute(f, Pow2(lsb), lo, Pow2(s));
    MulStrictMono(lo, Pow2(lsb), Pow2(s));
    MulMono(0, lo, Pow2(s));
  }

  lemma Distribute(f: int, a: int, lo: int, b: int)
    ensures (f * a + lo) * b == f * (a * b) + lo * b
  {
  }

  /** Reading the digit decomposition `t = f * K + low` in two's complement
      (bit weight H = P * K for the sign, F = 2 * P * K for the whole word)
      and dividing by K sign-extends the digit f. */
  lemma SignedReading(t: int, f: int, K: int, low: int, P: int, H: int, F: int)
    requires 0 < K && 0 < P && 0 <= low < K && 0 <= f < 2 * P
    requires t == f * K + low && H == P * K && F == 2 * P * K
    ensures (if t >= H then t - F else t) / K == (if f >= P then f - 2 * P else f)
  {
    SignedDigit(f, K, low, P);
  }

  lemma GetsIsSignExtended(word: nat, width: nat, lsb: nat)
    requires word < Pow2(64)
    requires 1 <= width && width + lsb <= 64
    ensures Sar(AsI64(Shl(word, 64 - width - lsb, 64)), 64 - width) ==
      SignExtend(Field(word, lsb, width), width)
  {
    ShiftedFieldDigit(word, width, lsb);
    FieldBound(word, lsb, width);
    SignedShiftRead(Shl(word, 64 - width - lsb, 64), Field(word, lsb, width),
      (word % Pow2(lsb)) * Pow2(64 - width - lsb), width);
  }

  /** A 64-bit word whose digit above bit `64 - width` is f, read as `i64`
      and shifted arithmetically right by `64 - width`, is f sign-extended. */
  lemma SignedShiftRead(t: nat, f: nat, low: int, width: nat)
    requires 1 <= width <= 64 && t < Pow2(64) && f < Pow2(width)
    requires t == f * Pow2(64 - width) + low && 0 <= low < Pow2(64 - width)
    ensures Sar(AsI64(t), 64 - width) == SignExtend(f, width)
  {
    var K := Pow2(64 - width);
    var P := Pow2(width - 1);
    assert Pow2(width) == 2 * P;
    assert Pow2(63) == P * K by {
      Pow2Add(width - 1, 64 - width);
    }
    assert Pow2(64) == 2 * P * K by {
      Pow2Add(width, 64 - width);
    }
    Pow2Of64();
    SignedReading(t, f, K, low, P, Pow2(63), Pow2(64));
  }

  /** `newu`: OR `value`, shifted to `lsb`, into `word`; None when it does not fit. */
  function Newu(word: u64, width: u64, lsb: u64, value: u64): (r: Option<u64>)
    requires width < 64 && lsb < 64
    ensures r.None? <==> value >= Pow2(width)
  {
    Pow2Of64();
    BitOrBound(Shl(value, lsb, 64), word, 64);
    if Fitsu(value, width) then Some(BitOr(Shl(value, lsb, 64), word))
    else None
  }

  /** `news`: OR the two's-complement bits of `value`, shifted to `lsb`, into
      `word`; None when it does not fit. */
  function News(word: u64, width: u64, lsb: u64, value: i64): (r: Option<u64>)
    requires 1 <= width < 64 && lsb < 64
    requires value != I64_MIN
    ensures r.None? <==> !(-(Pow2(width - 1) as int) <= value < Pow2(width - 1))
  {
    Pow2Of64();
    ShlOne(width, 64);
    var temp := Shl(1, width, 64) - 1;
    var masked := BitAnd(AsU64(value), temp);
    BitOrBound(word, Shl(masked, lsb, 64), 64);
    if Fitss(value, width) then Some(BitOr(word, Shl(masked, lsb, 64)))
    else None
  }

  // ---------------------------------------------------------------------
  // Properties

  /** Packing never clears a bit of the original word. */
  lemma NewuKeepsWordBits(word: u64, width: u64, lsb: u64, value: u64, i: nat)
    requires width < 64 && lsb < 64
    requires Newu(word, width, lsb, value).Some?
    requires Bit(word, i)
    ensures Bit(Newu(word, width, lsb, value).value, i)
  {
    BitOrBit(Shl(value, lsb, 64), word, i);
  }

  /** Packing ORs: the target field of the result is the old field OR `value`,
      and every bit outside the field is the word's own. With the field clear
      beforehand, the field afterwards holds exactly `value`. */
  lemma NewuField(word: u64, width: u64, lsb: u64, value: u64)
    requires width < 64 && lsb < 64 && lsb + width <= 64 && value < Pow2(width)
    ensures Newu(word, width, lsb, value).Some?
    ensures Field(Newu(word, width, lsb, value).value, lsb, width) ==
      BitOr(Field(word, lsb, width), value)
    ensures forall i: nat :: i < lsb || lsb + width <= i ==>
      (Bit(Newu(word, width, lsb, value).value, i) <==> Bit(word, i))
    ensures Field(word, lsb, width) == 0 ==>
      Field(Newu(word, width, lsb, value).value, lsb, width) == value
  {
    ShiftedNoLoss(value, width, lsb, 64);
    Pow2Of64();
    assert Newu(word, width, lsb, value) == Some(BitOr(value * Pow2(lsb), word));
    OrShiftedIntoField(word, value, lsb, width);
    BitOrZero(value);
  }

  /** A value that fits in `width` bits, moved up by `lsb`, stays below 2^n. */
  lemma ShiftedNoLoss(value: nat, width: nat, lsb: nat, n: nat)
    requires value < Pow2(width) && lsb + width <= n
    ensures value * Pow2(lsb) < Pow2(n)
    ensures Shl(value, lsb, n) == value * Pow2(lsb)
  {
    assert value * Pow2(lsb) < Pow2(n) by {
      Pow2Add(width, lsb);
      Pow2Mono(width + lsb, n);
      MulStrictMono(value, Pow2(width), Pow2(lsb));
    }
    DivModUnique(value * Pow2(lsb), Pow2(n), 0, value * Pow2(lsb));
  }

  /** Unsigned round trip: a value packed into a zero word at `lsb` is what
      `getu` extracts from there. */
  lemma NewuGetuRoundTrip(width: u32, lsb: u32, value: u64)
    requires 1 <= width && lsb + width <= 32 && value < Pow2(width)
    ensures Newu(0, width, lsb, value).Some?
    ensures Newu(0, width, lsb, value).value < 0x1_0000_0000
    ensures Getu(Newu(0, width, lsb, value).value, lsb, width) == value
  {
    var s := Shl(value, lsb, 64);
    assert s == value * Pow2(lsb) < Pow2(32) by {
      ShiftedNoLoss(value, width, lsb, 32);
      ShiftedNoLoss(value, width, lsb, 64);
    }
    assert s < 0x1_0000_0000 by {
      Pow2Of32();
    }
    assert Newu(0, width, lsb, value) == Some(s) by {
      BitOrZero(s);
    }
    FieldOfShifted(value, lsb, width);
  }

  /** Reading `value mod 2^w` as a w-bit two's-complement number gives back
      any value in the signed range of w bits. */
  lemma SignExtendOfMod(v: int, width: nat)
    requires 1 <= width && -(Pow2(width - 1) as int) <= v < Pow2(width - 1)
    ensures SignExtend(v % Pow2(width), width) == v
  {
    assert Pow2(width) == 2 * Pow2(width - 1);
    if v >= 0 {
      DivModUnique(v, Pow2(width), 0, v);
    } else {
      DivModUnique(v, Pow2(width), -1, v + Pow2(width));
    }
  }

  /** Signed round trip: a value packed by `news` into a zero word at `lsb`
      is what `gets` extracts from there. */
  lemma NewsGetsRoundTrip(width: u64, lsb: u64, value: i64)
    requires 1 <= width < 64 && width + lsb <= 64
    requires value != I64_MIN && -(Pow2(width - 1) as int) <= value < Pow2(width - 1)
    ensures News(0, width, lsb, value).Some?
    ensures Gets(News(0, width, lsb, value).value, width, lsb) == value
  {
    var m := value % Pow2(width);
    NewsIntoZero(width, lsb, value);
    assert m < Pow2(width);
    FieldOfShifted(m, lsb, width);
    SignExtendOfMod(value, width);
  }

  /** Masking the two's-complement bits of `value` to `width` bits leaves
      `value mod 2^width`. */
  lemma MaskedIsMod(value: i64, width: nat)
    requires width < 64
    ensures BitAnd(AsU64(value), Pow2(width) - 1) == value % Pow2(width)
  {
    LowMask(AsU64(value), width);
    Pow2Add(width, 64 - width);
    ModOfMod(value, Pow2(width), Pow2(64 - width));
  }

  lemma ModOfMod(x: int, a: int, b: int)
    requires 0 < a && 0 < b
    ensures (x % (a * b)) % a == x % a
  {
    DivModProduct(x, a, b);
    DivModUnique(x % (a * b), a, (x / a) % b, x % a);
  }

  /** Packed into a zero word, a fitting signed value is its low `width`
      two's-complement bits moved up to `lsb`. */
  lemma NewsIntoZero(width: u64, lsb: u64, value: i64)
    requires 1 <= width < 64 && width + lsb <= 64
    requires value != I64_MIN && -(Pow2(width - 1) as int) <= value < Pow2(width - 1)
    ensures News(0, width, lsb, value) == Some((value % Pow2(width)) * Pow2(lsb))
  {
    var m := value % Pow2(width);
    ShlOne(width, 64);
    MaskedIsMod(value, width);
    ShiftedNoLoss(m, width, lsb, 64);
    BitOrZero(Shl(m, lsb, 64));
  }

  /** Signed packing into any word ORs the value's low `width`
      two's-complement bits into the target field and leaves every bit of the
      word outside that field as it was. */
  lemma NewsField(word: u64, width: u64, lsb: u64, value: i64)
    requires 1 <= width < 64 && width + lsb <= 64
    requires value != I64_MIN && -(Pow2(width - 1) as int) <= value < Pow2(width - 1)
    ensures News(word, width, lsb, value).Some?
    ensures Field(News(word, width, lsb, value).value, lsb, width) ==
      BitOr(Field(word, lsb, width), value % Pow2(width))
    ensures forall i: nat :: i < lsb || lsb + width <= i ==>
      (Bit(News(word, width, lsb, value).value, i) <==> Bit(word, i))
  {
    var m := value % Pow2(width);
    ShlOne(width, 64);
    MaskedIsMod(value, width);
    ShiftedNoLoss(m, width, lsb, 64);
    BitOrCommutes(word, m * Pow2(lsb));
    assert News(word, width, lsb, value) == Some(BitOr(m * Pow2(lsb), word));
    OrShiftedIntoField(word, m, lsb, width);
  }

  /** A field that lies wholly above the populated bits of a word reads as 0,
      unsigned ... */
  lemma GetuAbovePopulatedIsZero(word: u32, lsb: u32, width: u32)
    requires 1 <= width && lsb + width <= 32
    requires word < Pow2(lsb)
    ensures Getu(word, lsb, width) == 0
  {
    DivModUnique(word, Pow2(lsb), 0, word);
  }

  /** ... and signed. */
  lemma GetsAbovePopulatedIsZero(word: u64, width: u64, lsb: u64)
    requires 1 <= width && width + lsb <= 64
    requires word < Pow2(lsb)
    ensures Gets(word, width, lsb) == 0
  {
    DivModUnique(word, Pow2(lsb), 0, word);
  }
}

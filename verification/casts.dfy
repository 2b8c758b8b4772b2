/** Rust's `as` casts between the integer widths of a record's slot word:
    truncation to the low bits, and zero or sign extension to 64 bits. */
module Casts {
  import opened Bits

  /** The low 32, 16 and 8 bits of a word, as `as u32`, `as u16` and
      `as u8` take them. */
  function Low32(w: bv64): bv32 {
    (w & 0xFFFF_FFFF) as bv32
  }

  function Low16(w: bv64): bv16 {
    (w & 0xFFFF) as bv16
  }

  function Low8(w: bv64): bv8 {
    (w & 0xFF) as bv8
  }

  /** `w` is `x` sign-extended from `n` bits: its low bits are `x`, and
      every bit above copies the sign bit of `x`. */
  ghost predicate SignExtended32(w: bv64, x: bv32) {
    Low32(w) == x && forall i: bv7 | 32 <= i < 64 :: Bit(w, i) == Bit32(x, 31)
  }

  ghost predicate SignExtended16(w: bv64, x: bv16) {
    Low16(w) == x && forall i: bv7 | 16 <= i < 64 :: Bit(w, i) == Bit16(x, 15)
  }

  /** `w` is `x` zero-extended from `n` bits: its low bits are `x`, and
      every bit above is clear. */
  ghost predicate ZeroExtended32(w: bv64, x: bv32) {
    Low32(w) == x && forall i: bv7 | 32 <= i < 64 :: !Bit(w, i)
  }

  ghost predicate ZeroExtended16(w: bv64, x: bv16) {
    Low16(w) == x && forall i: bv7 | 16 <= i < 64 :: !Bit(w, i)
  }

  ghost predicate ZeroExtended8(w: bv64, x: bv8) {
    Low8(w) == x && forall i: bv7 | 8 <= i < 64 :: !Bit(w, i)
  }

  /** `i32 as u64`: truncating back to 32 bits gives `x`. */
  function SignExtend32(x: bv32): (w: bv64)
    ensures Low32(w) == x
  {
    if x & 0x8000_0000 != 0 then
      Low32OfHigh(x);
      x as bv64 | 0xFFFF_FFFF_0000_0000
    else
      x as bv64
  }

  lemma Low32OfHigh(x: bv32)
    ensures Low32(x as bv64 | 0xFFFF_FFFF_0000_0000) == x
  {
  }

  /** The low 32 bits of `i32 as u64` are `x`, every higher bit copies the
      sign bit 31. */
  lemma SignExtend32Bits(x: bv32)
    ensures forall i: bv7 | i < 32 :: Bit(SignExtend32(x), i) == Bit32(x, i)
    ensures forall i: bv7 | 32 <= i < 64 :: Bit(SignExtend32(x), i) == Bit32(x, 31)
    ensures SignExtended32(SignExtend32(x), x)
  {
  }

  /** `i16 as u64`: truncating back to 16 bits gives `x`. */
  function SignExtend16(x: bv16): (w: bv64)
    ensures Low16(w) == x
  {
    if x & 0x8000 != 0 then
      Low16OfHigh(x);
      x as bv64 | 0xFFFF_FFFF_FFFF_0000
    else
      x as bv64
  }

  lemma Low16OfHigh(x: bv16)
    ensures Low16(x as bv64 | 0xFFFF_FFFF_FFFF_0000) == x
  {
  }

  /** The low 16 bits of `i16 as u64` are `x`, every higher bit copies the
      sign bit 15. */
  lemma SignExtend16Bits(x: bv16)
    ensures forall i: bv7 | i < 16 :: Bit(SignExtend16(x), i) == Bit16(x, i)
    ensures forall i: bv7 | 16 <= i < 64 :: Bit(SignExtend16(x), i) == Bit16(x, 15)
    ensures SignExtended16(SignExtend16(x), x)
  {
  }

  /** `u32 as u64`: truncating back to 32 bits gives `x`. */
  function ZeroExtend32(x: bv32): (w: bv64)
    ensures Low32(w) == x
  {
    x as bv64
  }

  /** The low 32 bits of `u32 as u64` are `x`, every higher bit is clear. */
  lemma ZeroExtend32Bits(x: bv32)
    ensures forall i: bv7 | i < 32 :: Bit(ZeroExtend32(x), i) == Bit32(x, i)
    ensures forall i: bv7 | 32 <= i < 64 :: !Bit(ZeroExtend32(x), i)
    ensures ZeroExtended32(ZeroExtend32(x), x)
  {
  }

  /** `u16 as u64`: truncating back to 16 bits gives `x`. */
  function ZeroExtend16(x: bv16): (w: bv64)
    ensures Low16(w) == x
  {
    x as bv64
  }

  /** The low 16 bits of `u16 as u64` are `x`, every higher bit is clear. */
  lemma ZeroExtend16Bits(x: bv16)
    ensures forall i: bv7 | i < 16 :: Bit(ZeroExtend16(x), i) == Bit16(x, i)
    ensures forall i: bv7 | 16 <= i < 64 :: !Bit(ZeroExtend16(x), i)
    ensures ZeroExtended16(ZeroExtend16(x), x)
  {
  }

  /** `u8 as u64`: truncating back to 8 bits gives `x`. */
  function ZeroExtend8(x: bv8): (w: bv64)
    ensures Low8(w) == x
  {
    x as bv64
  }

  /** The low 8 bits of `u8 as u64` are `x`, every higher bit is clear. */
  lemma ZeroExtend8Bits(x: bv8)
    ensures forall i: bv7 | i < 8 :: Bit(ZeroExtend8(x), i) == Bit8(x, i)
    ensures forall i: bv7 | 8 <= i < 64 :: !Bit(ZeroExtend8(x), i)
    ensures ZeroExtended8(ZeroExtend8(x), x)
  {
  }
}

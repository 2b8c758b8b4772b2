/** Single bits of fixed-width words, counted from the least significant bit. */
module Bits {

  predicate Bit(w: bv64, i: bv7)
    requires i < 64
  {
    (w >> i) & 1 == 1
  }

  predicate Bit32(x: bv32, i: bv7)
    requires i < 32
  {
    (x >> i) & 1 == 1
  }

  predicate Bit16(x: bv16, i: bv7)
    requires i < 16
  {
    (x >> i) & 1 == 1
  }

  predicate Bit8(x: bv8, i: bv7)
    requires i < 8
  {
    (x >> i) & 1 == 1
  }

  /** Bit position `k` of a 64-bit word as a shift amount, built from the
      binary digits of `k`. */
  function Pos(k: nat): (r: bv7)
    requires k < 64
    ensures k < 2 ==> r < 2
    ensures k < 4 ==> r < 4
    ensures k < 8 ==> r < 8
    ensures k < 16 ==> r < 16
    ensures k < 32 ==> r < 32
    ensures r < 64
  {
    if k == 0 then 0 else (Pos(k / 2) << 1) | (if k % 2 == 1 then 1 else 0)
  }

  /** `Pos` is one-to-one: equal shift amounts come from equal positions. */
  lemma {:induction false} PosInjective(c: nat, b: nat)
    requires c < 64 && b < 64
    ensures (Pos(c) == Pos(b)) == (c == b)
    decreases c + b
  {
    if Pos(c) == Pos(b) && c + b != 0 {
      PosInjective(c / 2, b / 2);
    }
  }

  /** The word with only bit `k` set: `1 << k`. */
  function Mask(k: nat): bv64
    requires k < 64
  {
    1 << Pos(k)
  }

  /** Bit `c` of `w | Mask(c)` is set. */
  lemma OrSameBit(w: bv64, c: nat)
    requires c < 64
    ensures Bit(w | Mask(c), Pos(c))
  {
    ShiftedSame(w, Pos(c));
  }

  lemma ShiftedSame(w: bv64, c: bv7)
    requires c < 64
    ensures Bit(w | (1 << c), c)
  {
  }

  /** Every other bit of `w | Mask(c)` is the bit of `w`. */
  lemma OrOtherBit(w: bv64, c: nat, b: nat)
    requires c < 64 && b < 64 && Pos(c) != Pos(b)
    ensures Bit(w | Mask(c), Pos(b)) == Bit(w, Pos(b))
  {
    ShiftedOther(w, Pos(c), Pos(b));
  }

  lemma ShiftedOther(w: bv64, c: bv7, b: bv7)
    requires c < 64 && b < 64 && c != b
    ensures Bit(w | (1 << c), b) == Bit(w, b)
  {
  }

  /** Setting bit `c` sets exactly that bit and keeps every other one. */
  lemma OrMask(w: bv64, c: nat, b: nat)
    requires c < 64 && b < 64
    ensures Bit(w | Mask(c), Pos(b)) == (Bit(w, Pos(b)) || b == c)
  {
    PosInjective(c, b);
    if b == c {
      OrSameBit(w, c);
    } else {
      OrOtherBit(w, c, b);
    }
  }
}

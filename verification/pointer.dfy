/** The pointer word codec: a `Pointer` packed into one 64-bit word as

      word_index:32 | segment_id_offset:16 | length:15 | is_composite:1

    from the most to the least significant bit. `Decode` masks every field to
    its width; `Encode` shifts the fields into place and does NOT mask
    `length`, so a `length` of 2^15 or more spills into the lowest bit of the
    segment field. */
module PointerCodec {
  import opened Bits

  /** Rust's `pointer::Pointer`; `length` is a `u16` although the wire field
      has 15 bits. */
  datatype Pointer = Pointer(wordIndex: bv32, segmentIdOffset: bv16, length: bv16, isComposite: bool)

  /** `pointer::decode`. */
  function Decode(w: bv64): (p: Pointer)
    ensures p.length < 0x8000
    ensures p.isComposite <==> Bit(w, 0)
  {
    Pointer(
      ((w >> 32) & 0xFFFF_FFFF) as bv32,
      ((w >> 16) & 0xFFFF) as bv16,
      ((w >> 1) & 0x7FFF) as bv16,
      w & 1 != 0)
  }

  /** Each field of the decoded pointer is its bit range of the word. */
  lemma DecodeFields(w: bv64)
    ensures forall i: bv7 | i < 32 :: Bit32(Decode(w).wordIndex, i) == Bit(w, i + 32)
    ensures forall i: bv7 | i < 16 :: Bit16(Decode(w).segmentIdOffset, i) == Bit(w, i + 16)
    ensures forall i: bv7 | i < 15 :: Bit16(Decode(w).length, i) == Bit(w, i + 1)
  {
  }

  /** `pointer::encode`. */
  function Encode(p: Pointer): (w: bv64)
    ensures Bit(w, 0) <==> p.isComposite
  {
    var fields := (p.wordIndex as bv64 << 32) | (p.segmentIdOffset as bv64 << 16) | (p.length as bv64 << 1);
    if p.isComposite then 1 | fields else fields
  }

  /** Every word is the encoding of its decoding. */
  lemma EncodeDecode(w: bv64)
    ensures Encode(Decode(w)) == w
  {
  }

  /** A pointer whose length fits in 15 bits survives the round trip. */
  lemma DecodeEncode(p: Pointer)
    requires p.length < 0x8000
    ensures Decode(Encode(p)) == p
  {
  }

  /** A longer length loses its top bit, which is OR-ed into the lowest bit
      of the segment field. */
  lemma DecodeEncodeLongLength(p: Pointer)
    requires p.length >= 0x8000
    ensures Decode(Encode(p)) == p.(segmentIdOffset := p.segmentIdOffset | 1, length := p.length & 0x7FFF)
    ensures Decode(Encode(p)) != p
  {
  }

  /** Encoding is injective on pointers whose length fits in 15 bits. */
  lemma EncodeInjective(p: Pointer, q: Pointer)
    requires p.length < 0x8000 && q.length < 0x8000
    requires Encode(p) == Encode(q)
    ensures p == q
  {
    DecodeEncode(p);
    DecodeEncode(q);
  }

  /** The all-zero word is exactly the encoding of the all-zero non-composite
      pointer, whatever the length. */
  lemma ZeroWord(p: Pointer)
    ensures Encode(p) == 0 <==> p == Pointer(0, 0, 0, false)
  {
  }
}

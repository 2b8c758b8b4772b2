/** An older pointer draft with its own layout:

      segment:31 | offset:32 | tag:1

    from the most to the least significant bit. Tag 1 marks a segment
    pointer; tag 0 a "local" pointer whose other 63 bits are type-specific
    and not decoded here. */
module SegmentPointers {
  import opened Common
  import opened Bits

  /** Rust's `pointers::SegmentPointer`; both fields are `u32` although the
      wire field for `segment` has 31 bits. */
  datatype SegmentPointer = SegmentPointer(segment: bv32, offset: bv32)

  /** `is_local_pointer`: the tag bit is clear. */
  predicate IsLocalPointer(w: bv64)
    ensures IsLocalPointer(w) <==> w % 2 == 0
  {
    w & 1 == 0
  }

  /** `to_segment_pointer`. */
  function ToSegmentPointer(w: bv64): (r: Option<SegmentPointer>)
    ensures r.None? <==> !Bit(w, 0)
    ensures r.Some? ==> forall i: bv7 | i < 32 :: Bit32(r.value.offset, i) == Bit(w, i + 1)
    ensures r.Some? ==> forall i: bv7 | i < 31 :: Bit32(r.value.segment, i) == Bit(w, i + 33)
    ensures r.Some? ==> r.value.segment < 0x8000_0000
  {
    if IsLocalPointer(w) then None
    else Some(SegmentPointer(((w >> 33) & 0xFFFF_FFFF) as bv32, ((w >> 1) & 0xFFFF_FFFF) as bv32))
  }

  /** `encode_segment_pointer`: the tag bit is always set. */
  function EncodeSegmentPointer(p: SegmentPointer): (w: bv64)
    ensures !IsLocalPointer(w)
  {
    1 | (p.offset as bv64 << 1) | (p.segment as bv64 << 33)
  }

  /** A segment number below 2^31 survives the round trip. */
  lemma SegmentRoundTrip(p: SegmentPointer)
    requires p.segment < 0x8000_0000
    ensures ToSegmentPointer(EncodeSegmentPointer(p)) == Some(p)
  {
  }

  /** The top bit of a larger segment number is shifted out of the word. */
  lemma SegmentRoundTripLosesTopBit(p: SegmentPointer)
    requires p.segment >= 0x8000_0000
    ensures ToSegmentPointer(EncodeSegmentPointer(p)) == Some(p.(segment := p.segment & 0x7FFF_FFFF))
  {
  }

  /** Every tagged word is the encoding of what it decodes to. */
  lemma WordRoundTrip(w: bv64)
    requires !IsLocalPointer(w)
    ensures ToSegmentPointer(w).Some?
    ensures EncodeSegmentPointer(ToSegmentPointer(w).value) == w
  {
  }
}

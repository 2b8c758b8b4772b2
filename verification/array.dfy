/** The array pointer encoder: the reference-site word of a `u64` array. An
    empty array is the zero word whatever its location; any other array is a
    non-composite `Pointer` whose `length` is the element count. Composite
    pointers are not implemented, so long arrays panic, and decoding anything
    but the zero word is not implemented either.

    `encode_u64_array` reads nothing of its slice but `len()`, so the model
    takes that `usize` length, `arrLen`, instead of the elements.

    The length guard as written admits up to `u16::MAX` elements while the
    wire field has 15 bits; `EncodeU64ArrayChecked` is the encoder with the
    guard the wire format needs. */
module ArrayPointer {
  import opened Common
  import opened Bits
  import opened PointerCodec

  const CompositeUnsupported: Panic := Unsupported("Composite Pointers aren't supported yet!")
  const ArrayDecodeUnsupported: Panic := Unsupported("We don't know how to decode arrays yet!")

  /** The largest element count a non-composite pointer can carry. */
  const MaxInlineLength: bv64 := 0x7FFF

  /** `encode_u64_array`, as written: the guard is `length > u16::MAX`. */
  function EncodeU64Array(wordIndex: bv32, segmentIdOffset: bv16, arrLen: bv64): (r: Result<bv64, Panic>)
    ensures arrLen == 0 ==> r == Success(0)
    ensures arrLen > 0xFFFF ==> r == Failure(CompositeUnsupported)
    ensures 0 < arrLen <= 0xFFFF ==> r.Success? && r.value != 0 && !Bit(r.value, 0)
  {
    if arrLen == 0 then Success(0)
    else if arrLen > 0xFFFF then Failure(CompositeUnsupported)
    else Success(Encode(Pointer(wordIndex, segmentIdOffset, arrLen as bv16, false)))
  }

  /** `encode_u64_array` with the guard at the 15-bit limit of the wire field. */
  function EncodeU64ArrayChecked(wordIndex: bv32, segmentIdOffset: bv16, arrLen: bv64): (r: Result<bv64, Panic>)
    ensures r.Failure? <==> arrLen > MaxInlineLength
    ensures arrLen == 0 ==> r == Success(0)
  {
    if arrLen == 0 then Success(0)
    else if arrLen > MaxInlineLength then Failure(CompositeUnsupported)
    else Success(Encode(Pointer(wordIndex, segmentIdOffset, arrLen as bv16, false)))
  }

  /** `decode_u64_array`: only the empty-array word is understood. */
  function DecodeU64Array(raw: bv64): (r: Result<seq<bv64>, Panic>)
    ensures r.Success? <==> raw == 0
    ensures r.Success? ==> r.value == []
  {
    if raw == 0 then Success([]) else Failure(ArrayDecodeUnsupported)
  }

  /** With the corrected guard, every non-empty array's word decodes back to
      the array's location, its element count and the non-composite tag, and
      never collides with the empty-array word. */
  lemma CheckedRoundTrip(wordIndex: bv32, segmentIdOffset: bv16, arrLen: bv64)
    requires 0 < arrLen <= MaxInlineLength
    ensures EncodeU64ArrayChecked(wordIndex, segmentIdOffset, arrLen).Success?
    ensures var p := Decode(EncodeU64ArrayChecked(wordIndex, segmentIdOffset, arrLen).value);
      p.wordIndex == wordIndex && p.segmentIdOffset == segmentIdOffset
      && p.length as bv64 == arrLen && !p.isComposite
    ensures EncodeU64ArrayChecked(wordIndex, segmentIdOffset, arrLen).value != 0
  {
    DecodeEncode(Pointer(wordIndex, segmentIdOffset, arrLen as bv16, false));
  }

  /** Up to 32767 elements, the encoder as written is the corrected one. */
  lemma AsWrittenAgreesWhenShort(wordIndex: bv32, segmentIdOffset: bv16, arrLen: bv64)
    requires arrLen <= MaxInlineLength
    ensures EncodeU64Array(wordIndex, segmentIdOffset, arrLen) == EncodeU64ArrayChecked(wordIndex, segmentIdOffset, arrLen)
  {
  }

  /** FINDING, as written: 32768..65535 elements pass the guard, but the
      decoded pointer has lost 32768 from its length and, unless the lowest
      bit of the segment offset was already set, names a different segment. */
  lemma AsWrittenLongArrayCorrupts(wordIndex: bv32, segmentIdOffset: bv16, arrLen: bv64)
    requires 0x8000 <= arrLen <= 0xFFFF
    ensures EncodeU64Array(wordIndex, segmentIdOffset, arrLen).Success?
    ensures var p := Decode(EncodeU64Array(wordIndex, segmentIdOffset, arrLen).value);
      p.wordIndex == wordIndex && p.segmentIdOffset == segmentIdOffset | 1
      && p.length as bv64 == arrLen - 0x8000 && !p.isComposite
  {
    DecodeEncodeLongLength(Pointer(wordIndex, segmentIdOffset, arrLen as bv16, false));
  }

  /** The empty-array convention round-trips, and no non-empty array that the
      encoder accepts is mistaken for an empty one. */
  lemma EmptyMarkerUnambiguous(wordIndex: bv32, segmentIdOffset: bv16, arrLen: bv64)
    requires arrLen <= 0xFFFF
    ensures DecodeU64Array(EncodeU64Array(wordIndex, segmentIdOffset, arrLen).value).Success?
        <==> arrLen == 0
  {
  }
}

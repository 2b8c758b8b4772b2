# wirefunc binary codec, modelled in Dafny

This project models the binary codec layer of wirefunc, a draft wire format in
which values are packed into 64-bit words. The model covers:

- **Field-ID minifier** (`src/field_id.rs`): `to_string` turns a `u64` field ID
  into a short lowercase name (`0` is "a", `25` is "z", `26` is "aa"), and
  `from_string` parses such a name back.
- **Pointer word codec** (`src/pointer.rs`): packs
  `word_index:32 | segment_id_offset:16 | length:15 | is_composite:1` into one
  `u64`, plus the older segment-pointer draft (`src/pointers.rs`) with its own
  `segment:31 | offset:32 | tag:1` layout.
- **Array reference word** (`src/array.rs`): an empty `u64` array is the zero
  word, and any other array is a non-composite pointer.
- **Length-prefixed primitive arrays** (`src/arrays.rs`): an 8-byte
  little-endian count, then the elements. An odd `i32` count gets four zero
  bytes of padding so the array ends on a word boundary.
- **Presence table** (`src/record.rs`): `decode_presence_table` scans 8-byte
  pages until it finds one whose continuation bit is clear.
- **Record encoder** (`tests/test_records.rs`): `encode_field` and
  `encode_fields` lay out one slot word per field, then the presence pages.

Every Rust panic in these functions is modelled as a `Failure` result: an index
out of bounds, an arithmetic overflow (debug-build semantics), or an explicit
`panic!`. Readers are modelled as the bytes still to be read, and their only
error is running out of input (`UnexpectedEof`). Writers are modelled as the
bytes written so far, and cannot fail.

Modules follow the source files:

| file | module | models |
|---|---|---|
| common.dfy | `Common` | `Option`, `Result`, panic kinds, powers |
| bits.dfy | `Bits` | single bits of words, `1 << k` |
| casts.dfy | `Casts` | Rust `as` casts between integer widths |
| field_id.dfy | `FieldId` | `field_id.rs` |
| pointer.dfy | `PointerCodec` | `pointer.rs` |
| pointers.dfy | `SegmentPointers` | `pointers.rs` |
| array.dfy | `ArrayPointer` | `array.rs` |
| arrays.dfy | `Arrays` | `arrays.rs` (integer readers and writers) |
| record.dfy | `PresenceTable` | `record.rs` |
| layout.dfy | `PresencePages` | the page loop of `encode_fields` |
| records.dfy | `RecordEncoder` | `encode_field`, `encode_fields`, `Value` |

Where the code and its documentation disagree, the model follows the code:

- **Pointer lengths.** `pointer::encode` does not reject a length of 2^15 or
  more. It corrupts the segment field instead (`DecodeEncodeLongLength`).
- **`encode_fields` output.** It writes the presence pages at the END of the
  output, in reverse page order, with 64 presence bits per page and no
  continuation bit. `decode_presence_table` scans pages at the START of its
  input for a continuation flag in bit 0 of each page's last byte. The two
  drafts are modelled separately and not reconciled.
- **`test_encode_record`.** The test expects an all-ones slot for `true` and
  the presence bit in the last byte. The code writes the words `[1, 1]`
  (`SingleBoolRecord`): slot word 1, and bit 0 set on the page.
- **Reading slots back.** Nothing in the source decodes a record slot.
  `DecodeField` is the inverse the model defines for `encode_field`, so that
  `FieldRoundTrip` can state which values survive their slot.
- **Returned slices.** `encode_fields` returns a slice of a vector that is
  dropped when it returns. The model returns the words themselves.

## Model

| member | source | states |
|---|---|---|
| FieldId.LetterValue | src/field_id.rs:42-48 | a lowercase letter's digit value `num - 96` lies in 1..26 |
| FieldId.ToDigit | src/field_id.rs:81-83 | `to_digit(n)` is a lowercase letter whose digit value is `n + 1` |
| FieldId.ToString | src/field_id.rs:61-79 | `to_string` always yields a non-empty string of lowercase letters |
| FieldId.ToStringNumeral | src/field_id.rs:61-79 | the name of `id`, read as a bijective base-26 numeral (a=1..z=26), is `id + 1` |
| FieldId.ToStringOfNumeral | src/field_id.rs:61-79 | every non-empty letter string is the name of its numeral minus one, so `to_string` is onto |
| FieldId.ToStringInjective | src/field_id.rs:61-79 | distinct IDs get distinct names |
| FieldId.ToStringExamples | tests/test_field_id.rs:212-376 | `to_string` gives the names the tests list: 0 "a", 25 "z", 26 "aa", 701 "zz", 702 "aaa", 1406 "bbc", and others |
| FieldId.Utf8LenBounds | src/field_id.rs:37 | `str.len()` counts UTF-8 bytes: at least the character count, and equal to it on letters |
| FieldId.PowerSumIsNumeral | src/field_id.rs:39-54 | the loop's sum of `26^(last_index - index) * (num - 96)` over a letter string equals its numeral |
| FieldId.FromStringChecked | src/field_id.rs:30-58 | the parser in exact arithmetic returns a value exactly for non-empty letter strings whose value is below 2^64, and that value is the numeral minus one |
| FieldId.FromToRoundTrip | tests/test_field_id.rs:10-17 | for every `u64` ID, parsing its name gives the ID back |
| FieldId.ToFromRoundTrip | src/field_id.rs:30-79 | a name that parses is the name of the ID it parses to |
| FieldId.FromString | src/field_id.rs:31-33 | `from_string("")` is `None` |
| FieldId.SingleCharacter | tests/test_field_id.rs:19-47 | a single character parses to its digit value minus one if it is a lowercase letter, and to `None` otherwise ("a" is 0, "A" and codes 0..96, 123..254 are rejected) |
| FieldId.Scan | src/field_id.rs:39-57 | the loop panics only on arithmetic overflow, and returns `None` only when some remaining character is not a lowercase letter |
| FieldId.ScanNone | src/field_id.rs:42-51 | `from_string` returns `None` only if some character is not a lowercase letter |
| FieldId.ScanSome | src/field_id.rs:39-57 | a parse that yields a value saw only letters, used exponents of at most 6, and ends below 2^64 |
| FieldId.PowOfSevenOverflowsU32 | src/field_id.rs:45 | `26u32.pow(e)` overflows a `u32` for every exponent of 7 or more |
| FieldId.ScanShortNoPanic | src/field_id.rs:39-54 | on a string of at most 7 bytes, no addition, power or index increment in the loop overflows |
| FieldId.FromStringAgrees | src/field_id.rs:30-58 | whenever `from_string` does not panic, it returns what the exact parser returns |
| FieldId.ScanValue | src/field_id.rs:39-57 | on letters, the loop accumulates exactly the power sum of the remaining characters |
| FieldId.FromStringShort | src/field_id.rs:30-58 | every string of at most 7 bytes parses without a panic, to the exact parser's result |
| FieldId.NumeralBounds | src/field_id.rs:61-79 | an n-letter name's numeral lies between that of "a...a" and "z...z" |
| FieldId.ScanRunsOut | src/field_id.rs:45 | a letters-only string longer than `last_index + 1` makes the loop panic, at the latest when `last_index - index` underflows |
| FieldId.LongNamePanics | src/field_id.rs:45 | every name of eight or more letters makes `from_string` panic |
| FieldId.RoundTripAsWritten | tests/test_field_id.rs:10-17 | as written, the round trip holds exactly for IDs below 8353082582, and panics for every larger `u64` |
| FieldId.EightLetterNamePanics | src/field_id.rs:45 | the name of 8353082582 is "aaaaaaaa", which the exact parser accepts but `from_string` panics on |
| FieldId.MultiByteNamePanics | src/field_id.rs:37 | "aéééé" panics in `26u32.pow` because `len()` counts bytes, although the exact parser rejects it |
| PointerCodec.Decode | src/pointer.rs:95-114 | a decoded length always fits in 15 bits, and the composite flag is bit 0 |
| PointerCodec.DecodeFields | src/pointer.rs:95-114 | each decoded field is its bit range of the word (32..63, 16..31, 1..15) |
| PointerCodec.Encode | src/pointer.rs:117-136 | bit 0 of the word is the composite flag |
| PointerCodec.EncodeDecode | src/pointer.rs:95-136 | every word re-encodes to itself after decoding |
| PointerCodec.DecodeEncode | src/pointer.rs:95-136 | a pointer whose length fits in 15 bits decodes back to itself |
| PointerCodec.DecodeEncodeLongLength | src/pointer.rs:121-126 | a length of 2^15 or more loses its top bit, which turns on the segment field's lowest bit, so the round trip fails |
| PointerCodec.EncodeInjective | src/pointer.rs:117-136 | distinct pointers with 15-bit lengths get distinct words |
| PointerCodec.ZeroWord | src/pointer.rs:117-136 | for every pointer, including lengths of 2^15 or more, the zero word encodes only the all-zero, non-composite pointer |
| SegmentPointers.IsLocalPointer | src/pointers.rs:20-22 | a word is a local pointer exactly when it is even |
| SegmentPointers.ToSegmentPointer | src/pointers.rs:24-39 | `None` exactly for local pointers; otherwise the offset is bits 1..32 and the segment is bits 33..63, below 2^31 |
| SegmentPointers.EncodeSegmentPointer | src/pointers.rs:42-47 | an encoded segment pointer is never a local pointer |
| SegmentPointers.SegmentRoundTrip | src/pointers.rs:24-47 | a segment number below 2^31 survives encoding then decoding |
| SegmentPointers.SegmentRoundTripLosesTopBit | src/pointers.rs:47 | a segment number of 2^31 or more loses its top bit |
| SegmentPointers.WordRoundTrip | src/pointers.rs:24-47 | every tagged word decodes, and re-encodes to itself |
| ArrayPointer.EncodeU64Array | src/array.rs:7-29 | empty gives the zero word; more than 65535 elements panic; otherwise a non-zero word with the composite bit clear |
| ArrayPointer.EncodeU64ArrayChecked | src/array.rs:7-29 | fails exactly when the count exceeds 32767; empty gives the zero word |
| ArrayPointer.DecodeU64Array | src/array.rs:31-40 | succeeds exactly on the zero word, with the empty array; panics otherwise |
| ArrayPointer.CheckedRoundTrip | src/array.rs:14-28 | a non-empty array up to 32767 elements decodes to its word index, segment offset, count and the non-composite tag, and is never the zero word |
| ArrayPointer.AsWrittenAgreesWhenShort | src/array.rs:17 | up to 32767 elements, the guard as written behaves as the corrected guard |
| ArrayPointer.AsWrittenLongArrayCorrupts | src/array.rs:17-28 | 32768..65535 elements pass the guard but decode with the count reduced by 32768 and the segment's low bit set |
| ArrayPointer.EmptyMarkerUnambiguous | src/array.rs:14-40 | among accepted arrays, the decoder recognises a word as empty exactly when the array was empty |
| Arrays.LeBytes | src/arrays.rs:28-30 | `write_u64::<LittleEndian>` and the other little-endian writers emit exactly `width` bytes |
| Arrays.LeValue | src/arrays.rs:23-25 | the value `read_u64::<LittleEndian>` reads from `n` bytes is below 256^n |
| Arrays.LeValueOfBytes | src/arrays.rs:28-29 | little-endian bytes of a number read back as the number |
| Arrays.LeBytesOfValue | src/arrays.rs:23-24 | any bytes are the little-endian bytes of their value |
| Arrays.EncodeElem | src/arrays.rs:119-120 | one element is written as `Width` little-endian bytes whose value is its two's complement bit pattern |
| Arrays.DecodeElem | src/arrays.rs:57 | the element read from `Width` bytes is in range, and writing it gives those bytes back |
| Arrays.DecodeEncodeElem | src/arrays.rs:120 | one element's two's complement little-endian bytes read back as the element |
| Arrays.EncodeElems | src/arrays.rs:119-121 | `n` elements written back to back take `n * Width` bytes |
| Arrays.DecodeElems | src/arrays.rs:57 | decoding `n` elements gives `n` in-range values whose encoding is the input bytes |
| Arrays.DecodeEncodeElems | src/arrays.rs:119-121 | back-to-back encoded elements read back as the same sequence |
| Arrays.ReadLength | src/arrays.rs:23-25 | fails with end-of-file exactly on fewer than 8 bytes; otherwise the value is below 2^64, its bytes are the first 8 and the rest is untouched |
| Arrays.WriteLength | src/arrays.rs:28-30 | appends exactly 8 bytes and keeps what the buffer held |
| Arrays.LengthRoundTrip | src/arrays.rs:23-30 | a written length reads back and consumes exactly its 8 bytes |
| Arrays.ReadIntArrayFrom | src/arrays.rs:53-110 | each integer reader succeeds exactly when the body holds as many elements as the count says; it yields that many in-range elements whose encoding is the body, and leaves the rest unread |
| Arrays.ReaderRejectsShortBody | src/arrays.rs:57 | a body shorter than the count announces is an end-of-file error |
| Arrays.WriteI64ArrayTo | src/arrays.rs:112-124 | appends 8 + 8n bytes after what the writer held |
| Arrays.I64RoundTrip | src/arrays.rs:53-60 | `read_i64_array_from` reads back what `write_i64_array_to` wrote and leaves what follows |
| Arrays.EmptyI64Array | src/arrays.rs:112-124 | an empty `i64` array is eight zero bytes and reads back empty |
| Arrays.I32SizeAligned | src/arrays.rs:136-140 | count, elements and padding of an `i32` array fill whole 8-byte words |
| Arrays.I32ArrayBytesLength | src/arrays.rs:126-143 | an `i32` array takes 8 + 4n bytes plus 4 after an odd count, a multiple of 8 |
| Arrays.WriteI32ArrayTo | src/arrays.rs:126-143 | appends to the buffer without touching it, and what it appends does not depend on the buffer |
| Arrays.I32RoundTrip | src/arrays.rs:73-80 | `read_i32_array_from` reads back what `write_i32_array_to` wrote and leaves the padding unread |
| Arrays.I32BytesRoundTrip | src/arrays.rs:73-80 | the bytes of one `i32` array read back as the array, padding left unread |
| Arrays.WriteInnerArrays | src/arrays.rs:155-157 | the loop appends every inner array's bytes in order |
| Arrays.InnerBytesWords | src/arrays.rs:155-157 | the inner arrays together fill whole words |
| Arrays.WriteNestedI32ArrayTo | src/arrays.rs:145-160 | appends the outer count then every inner array, in whole words |
| Arrays.ChunkLayout | src/arrays.rs:155-157 | each appended chunk sits between its start and the next chunk's start |
| Arrays.NestedHead | src/arrays.rs:149-152 | reading the outer count back gives the number of inner arrays and leaves exactly their bytes |
| Arrays.NestedLayout | src/arrays.rs:145-160 | inner array `i` occupies the bytes from its start to the next one's, on an 8-byte boundary |
| Arrays.NestedElementReads | src/arrays.rs:73-80 | reading an `i32` array where inner array `i` starts yields that array, then its padding and the later arrays |
| PresenceTable.CountPages | src/record.rs:29-31 | the page count is the first page at or after `k` whose continuation bit is clear, and every page before it continues; the loop panics exactly when every page in the input continues |
| PresenceTable.DecodePresenceTable | src/record.rs:24-34 | as written, it panics exactly when no page in the input ends the chain; otherwise it returns a prefix as long as the PAGE count |
| PresenceTable.DecodePresenceTableSized | src/record.rs:24-34 | the documented table: every page in full, 8 bytes each, ending at the first clear continuation bit |
| PresenceTable.SizedExtendsAsWritten | src/record.rs:33 | both versions succeed on the same inputs; the as-written table is the first eighth of the full one |
| PresenceTable.PageCountIsFirstEnd | src/record.rs:29-33 | the table ends at the first page whose continuation bit is clear |
| PresenceTable.SinglePage | src/record.rs:29-33 | a single page that does not continue yields one byte |
| PresenceTable.ShortInputPanics | src/record.rs:16-29 | fewer than 8 bytes panic |
| PresenceTable.UnterminatedChainPanics | src/record.rs:21-33 | any input, of any length, in which every whole page has its continuation bit set panics with an out-of-bounds index |
| PresenceTable.OnePageTruncated | src/record.rs:33 | one zero page: the as-written decoder returns 1 byte, the full table is 8 |
| PresenceTable.DecodePresenceTableLoop | src/record.rs:24-34 | the `while` loop, step by step, computes the as-written result |
| PresencePages.PageCount | tests/test_records.rs:128 | the page count is `ceil((highest + 1) / 64)`: at least 1, with `highest` on its last page |
| PresencePages.PageCountCovers | tests/test_records.rs:128 | `ceil((highest + 1) / 64)` pages hold every field up to `highest` |
| PresencePages.AdvancePage | tests/test_records.rs:146-148 | the inner loop stops at the field's page, or stays put if already past it |
| PresencePages.Visit | tests/test_records.rs:138-163 | one iteration panics exactly when the page index is past the output (the `usize` subtraction underflows) or the field lies before the current page (negative shift); otherwise it moves the index to the field's page |
| PresencePages.Place | tests/test_records.rs:137-164 | the loop, when it does not panic, keeps the output length |
| PresencePages.Store | tests/test_records.rs:141-163 | one iteration's writes keep the output length |
| PresencePages.PageStepHere | tests/test_records.rs:163 | setting a field's bit on its page adds exactly that field to the page |
| PresencePages.PageStepElsewhere | tests/test_records.rs:155-163 | a field not on a page leaves that page's meaning unchanged |
| PresencePages.StepKeepsPlaced | tests/test_records.rs:137-164 | one iteration keeps the loop invariant: slots written in order, every page describes the fields seen so far |
| PresencePages.PlaceSorted | tests/test_records.rs:137-164 | on input whose pages never go down, within the pages, the loop does not panic and ends with the invariant for all fields |
| PresencePages.BehindPanics | tests/test_records.rs:160-163 | a field on a page before the current one makes the offset negative and the shift panic |
| PresencePages.SortedPagesInOrder | tests/test_records.rs:135-148 | fields in ascending id order have their pages in order |
| PresencePages.DescentPanics | tests/test_records.rs:137-164 | a later field on an earlier page than an earlier field makes the loop panic |
| PresencePages.PlaceLayout | tests/test_records.rs:131-164 | for fields within the pages whose pages never go down, slot word `i` is field `i`'s and page word `p` holds exactly the fields on page `p` |
| RecordEncoder.EncodeField | tests/test_records.rs:218-237 | `i64`/`u64` keep their bit pattern; `i32` and `i16` are sign-extended (low bits the value, every higher bit the sign bit); `u32`, `u16` and `u8` are zero-extended; `true` is 1 and `false` 0; a pointer variant is its pointer word |
| RecordEncoder.EncodeNarrow | tests/test_records.rs:222-226 | the narrow integers: `i32`/`i16` sign-extended, `u32`/`u16`/`u8` zero-extended |
| Casts.SignExtend32 | tests/test_records.rs:222 | `i32 as u64` keeps the value in its low 32 bits |
| Casts.SignExtend32Bits | tests/test_records.rs:222 | `i32 as u64` copies bit 31 into every higher bit |
| Casts.SignExtend16 | tests/test_records.rs:224 | `i16 as u64` keeps the value in its low 16 bits |
| Casts.SignExtend16Bits | tests/test_records.rs:224 | `i16 as u64` copies bit 15 into every higher bit |
| Casts.ZeroExtend32 | tests/test_records.rs:223 | `u32 as u64` keeps the value in its low 32 bits |
| Casts.ZeroExtend32Bits | tests/test_records.rs:223 | `u32 as u64` clears every higher bit |
| Casts.ZeroExtend16 | tests/test_records.rs:225 | `u16 as u64` keeps the value in its low 16 bits |
| Casts.ZeroExtend16Bits | tests/test_records.rs:225 | `u16 as u64` clears every higher bit |
| Casts.ZeroExtend8 | tests/test_records.rs:226 | `u8 as u64` keeps the value in its low 8 bits |
| Casts.ZeroExtend8Bits | tests/test_records.rs:226 | `u8 as u64` clears every higher bit |
| RecordEncoder.SlotTags | tests/test_records.rs:229-235 | a boolean slot is 1 or 0 as the value, and a pointer slot's bit 0 is its composite flag |
| RecordEncoder.ScalarRoundTrip | tests/test_records.rs:220-229 | every scalar slot word reads back as the scalar |
| RecordEncoder.PointerRoundTrip | tests/test_records.rs:230-235 | every pointer with a 15-bit length reads back from its slot |
| RecordEncoder.FieldRoundTrip | tests/test_records.rs:218-237 | every encodable value reads back from its slot word |
| RecordEncoder.LongPointerFieldCorrupts | tests/test_records.rs:230 | a pointer with a length of 2^15 or more does not survive its slot |
| RecordEncoder.Encoded | tests/test_records.rs:137-141 | converting values to slot words keeps the number of fields and their ids |
| RecordEncoder.EncodedHasField | tests/test_records.rs:137-141 | the same ids are present before and after encoding the values |
| RecordEncoder.EncodeFields | tests/test_records.rs:115-168 | no fields give no output; `highest + 1` overflows at the largest id; otherwise one word per field plus `ceil((highest + 1) / 64)` pages |
| RecordEncoder.SortedLayout | tests/test_records.rs:115-168 | for fields up to `highest` whose pages never go down (ascending ids among them), word `i` is field `i`'s slot and page `p` (word `total - 1 - p`) holds exactly the fields on it |
| RecordEncoder.EncodeFieldsSucceeds | tests/test_records.rs:135-163 | for fields up to `highest`, `encode_fields` succeeds exactly when the pages of the fields never go down |
| RecordEncoder.SamePageAnyOrder | tests/test_records.rs:137-164 | fields 3 then 1, on one page, encode to `[1, 0, 10]`: order within a page does not matter |
| RecordEncoder.UnsortedPagesPanic | tests/test_records.rs:135-163 | fields out of page order make `encode_fields` panic |
| RecordEncoder.SingleBoolRecord | tests/test_records.rs:170-196 | one `true` at field 0 encodes to the words `[1, 1]` |

## Left out

- Floating-point arrays and values: `read_f64_array_from`, `read_f32_array_from` and the `Float`/`Float32` variants of `Value` are not modelled. They need IEEE 754 arithmetic.
- Allocation: `vec![0; array_length as usize]` with an untrusted length can fail to allocate before any read. The model goes straight to reading the elements.
- Partial reads: on a failed read, the model does not say how many bytes the reader consumed.
- `usize` overflow of `arr.len() as u64` is not modelled. Lengths are assumed below 2^64.
- Release builds are not modelled. Overflow follows debug builds, where it panics.
- Readers fail only at the end of input. Any other error that the underlying `io::Read` reports, and that `read_length` or a `read_*_into` call passes on with `?`, is not modelled.
- The generic `io::Write` target of `write_i64_array_to` and `write_nested_i32_array_to` is modelled as a byte sequence that cannot fail. I/O errors of the writer are not modelled.
- RecordEncoder.EncodeFields: `encode_field` is applied to every value before the loop (`Encoded`). This is equivalent because the call is pure.
- RecordEncoder.EncodeFields: the output is words, not their little-endian bytes.
- RecordEncoder.EncodeFields: returns words instead of the dangling slice the source returns.
- PresencePages.PageCount: `f64::ceil` of `(highest + 1) / 64.0` is modelled as exact integer rounding up. This is exact for every `u32`.
- Composite pointers are not implemented in the source, so there is nothing to model.
- The CLI, code generation, the type tables, segment resolution and the JavaScript client are not part of this model.

## Findings

| source | as written | input that shows it | evidently intended | confidence | as-written member | corrected member |
|---|---|---|---|---|---|---|
| src/field_id.rs:45 | `26u32.pow(last_index - index)` overflows a `u32` for exponents of 7 or more | the name "aaaaaaaa" of ID 8353082582 | every `u64` ID round-trips through its name | not executed | FieldId.EightLetterNamePanics | FieldId.FromToRoundTrip |
| src/field_id.rs:37 | `str.len()` counts UTF-8 bytes, not characters, so the exponent is too large | "aéééé" panics instead of returning `None` | a string with a non-letter character is `None` | not executed | FieldId.MultiByteNamePanics | FieldId.FromStringChecked |
| src/array.rs:17 | the guard admits up to `u16::MAX` elements, but the length field has 15 bits | an array of 32768 elements | counts above 32767 are rejected as needing a composite pointer | not executed | ArrayPointer.AsWrittenLongArrayCorrupts | ArrayPointer.CheckedRoundTrip |
| src/record.rs:33 | `&bytes[0..presence_table_length]` returns as many bytes as there are pages | one page of 8 zero bytes gives a 1-byte table | the table as `8 * pages` bytes | not executed | PresenceTable.OnePageTruncated | PresenceTable.SizedExtendsAsWritten |

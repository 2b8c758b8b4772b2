/** Length-prefixed primitive arrays: an 8-byte little-endian element count,
    then the elements back to back, each in little-endian two's complement at
    its natural width. A writer of `i32` elements pads an odd count with four
    zero bytes so that what follows starts on an 8-byte boundary.

    A reader is modelled as the bytes it has still to deliver: a read returns
    the decoded value with the remaining bytes, or `UnexpectedEof` when the
    input runs out. A writer is the bytes written so far; writes append. */
module Arrays {
  import opened Common

  /** The integer element kinds that have a reader. */
  datatype IntKind = I64 | U64 | I32 | U32 | I16 | U16 {

    /** Width of one element in bytes. */
    function Width(): nat {
      match this
      case I64 | U64 => 8
      case I32 | U32 => 4
      case I16 | U16 => 2
    }

    predicate Signed() {
      I64? || I32? || I16?
    }

    /** `2^(8 * Width())`, the number of bit patterns of one element. */
    function Modulus(): nat {
      match this
      case I64 | U64 => Pow2To64
      case I32 | U32 => Pow2To32
      case I16 | U16 => 0x1_0000
    }

    predicate InRange(x: int) {
      if Signed() then -(Modulus() / 2) <= x < Modulus() / 2 else 0 <= x < Modulus()
    }
  }

  predicate AllInRange(k: IntKind, xs: seq<int>) {
    forall i :: 0 <= i < |xs| ==> k.InRange(xs[i])
  }

  lemma ModulusIsPow(k: IntKind)
    ensures k.Modulus() == Pow(256, k.Width())
  {
    assert Pow(256, 2) == 0x1_0000;
    assert Pow(256, 4) == Pow2To32;
    assert Pow(256, 8) == Pow2To64;
  }

  // ---------------------------------------------------------------------------
  // Little-endian unsigned integers
  // ---------------------------------------------------------------------------

  /** The `width` little-endian bytes of `n`, least significant first. */
  function LeBytes(n: nat, width: nat): (bs: seq<Byte>)
    requires n < Pow(256, width)
    ensures |bs| == width
  {
    if width == 0 then [] else [n % 256] + LeBytes(n / 256, width - 1)
  }

  /** The unsigned value of little-endian bytes. */
  function LeValue(bs: seq<Byte>): (n: nat)
    ensures n < Pow(256, |bs|)
  {
    if |bs| == 0 then 0 else bs[0] + 256 * LeValue(bs[1..])
  }

  lemma {:induction false} LeValueOfBytes(n: nat, width: nat)
    requires n < Pow(256, width)
    ensures LeValue(LeBytes(n, width)) == n
  {
    if width > 0 {
      var bs := LeBytes(n, width);
      assert bs[1..] == LeBytes(n / 256, width - 1);
      LeValueOfBytes(n / 256, width - 1);
    }
  }

  lemma {:induction false} LeBytesOfValue(bs: seq<Byte>)
    ensures LeBytes(LeValue(bs), |bs|) == bs
  {
    if |bs| > 0 {
      LeBytesOfValue(bs[1..]);
      assert LeValue(bs) % 256 == bs[0] && LeValue(bs) / 256 == LeValue(bs[1..]);
    }
  }

  // ---------------------------------------------------------------------------
  // Elements
  // ---------------------------------------------------------------------------

  /** The bit pattern of `x` read as an unsigned number (two's complement). */
  function ToBits(k: IntKind, x: int): (u: nat)
    requires k.InRange(x)
    ensures u < k.Modulus()
  {
    if x < 0 then x + k.Modulus() else x
  }

  /** The element a bit pattern stands for. */
  function FromBits(k: IntKind, u: nat): (x: int)
    requires u < k.Modulus()
    ensures k.InRange(x)
    ensures ToBits(k, x) == u
  {
    if k.Signed() && u >= k.Modulus() / 2 then u - k.Modulus() else u
  }

  lemma FromToBits(k: IntKind, x: int)
    requires k.InRange(x)
    ensures FromBits(k, ToBits(k, x)) == x
  {
  }

  /** One element as the `Width` little-endian bytes of its two's
      complement bit pattern. */
  function EncodeElem(k: IntKind, x: int): (bs: seq<Byte>)
    requires k.InRange(x)
    ensures |bs| == k.Width()
    ensures LeValue(bs) == if x < 0 then x + k.Modulus() else x
  {
    ModulusIsPow(k);
    LeValueOfBytes(ToBits(k, x), k.Width());
    LeBytes(ToBits(k, x), k.Width())
  }

  function DecodeElem(k: IntKind, bs: seq<Byte>): (x: int)
    requires |bs| == k.Width()
    ensures k.InRange(x)
    ensures EncodeElem(k, x) == bs
  {
    ModulusIsPow(k);
    LeBytesOfValue(bs);
    FromBits(k, LeValue(bs))
  }

  lemma DecodeEncodeElem(k: IntKind, x: int)
    requires k.InRange(x)
    ensures DecodeElem(k, EncodeElem(k, x)) == x
  {
    ModulusIsPow(k);
    LeValueOfBytes(ToBits(k, x), k.Width());
  }

  /** The number of bytes `n` elements take, `n * k.Width()`, counted
      element by element. */
  function Span(k: IntKind, n: nat): nat {
    if n == 0 then 0 else k.Width() + Span(k, n - 1)
  }

  lemma {:induction false} SpanIsProduct(k: IntKind, n: nat)
    ensures Span(k, n) == n * k.Width()
  {
    if n > 0 {
      SpanIsProduct(k, n - 1);
    }
  }

  /** The elements written back to back. */
  function EncodeElems(k: IntKind, xs: seq<int>): (bs: seq<Byte>)
    requires AllInRange(k, xs)
    ensures |bs| == Span(k, |xs|)
  {
    if |xs| == 0 then [] else EncodeElem(k, xs[0]) + EncodeElems(k, xs[1..])
  }

  /** The `n` elements a body of back-to-back encodings stands for. */
  function DecodeElems(k: IntKind, n: nat, bs: seq<Byte>): (xs: seq<int>)
    requires |bs| == Span(k, n)
    ensures |xs| == n
    ensures AllInRange(k, xs)
    ensures EncodeElems(k, xs) == bs
  {
    if n == 0 then []
    else
      var x := DecodeElem(k, bs[..k.Width()]);
      var xs := DecodeElems(k, n - 1, bs[k.Width()..]);
      assert ([x] + xs)[1..] == xs;
      [x] + xs
  }

  lemma {:induction false} DecodeEncodeElems(k: IntKind, xs: seq<int>)
    requires AllInRange(k, xs)
    ensures DecodeElems(k, |xs|, EncodeElems(k, xs)) == xs
  {
    if |xs| > 0 {
      var bs := EncodeElems(k, xs);
      var head := EncodeElem(k, xs[0]);
      assert bs == head + EncodeElems(k, xs[1..]);
      assert bs[..k.Width()] == head;
      assert bs[k.Width()..] == EncodeElems(k, xs[1..]);
      DecodeEncodeElem(k, xs[0]);
      DecodeEncodeElems(k, xs[1..]);
      assert xs == [xs[0]] + xs[1..];
    }
  }

  // ---------------------------------------------------------------------------
  // The length prefix
  // ---------------------------------------------------------------------------

  /** `read_length`: a little-endian `u64` from the next 8 bytes. */
  function ReadLength(input: seq<Byte>): (r: Result<(nat, seq<Byte>), IoError>)
    ensures r.Failure? <==> |input| < 8
    ensures r.Success? ==> r.value.0 < Pow2To64
    ensures r.Success? ==> LeBytes(r.value.0, 8) == input[..8] && r.value.1 == input[8..]
  {
    if |input| < 8 then Failure(UnexpectedEof)
    else
      LeBytesOfValue(input[..8]);
      Success((LeValue(input[..8]), input[8..]))
  }

  /** `write_length`: append `length` as a little-endian `u64`. */
  function WriteLength(buffer: seq<Byte>, length: nat): (r: seq<Byte>)
    requires length < Pow2To64
    ensures |r| == |buffer| + 8 && r[..|buffer|] == buffer
  {
    assert Pow(256, 8) == Pow2To64;
    buffer + LeBytes(length, 8)
  }

  /** Reading back a written length consumes exactly its 8 bytes. */
  lemma LengthRoundTrip(length: nat, rest: seq<Byte>)
    requires length < Pow2To64
    ensures ReadLength(WriteLength([], length) + rest) == Success((length, rest))
  {
    var input := WriteLength([], length) + rest;
    assert Pow(256, 8) == Pow2To64;
    assert input[..8] == LeBytes(length, 8);
    assert input[8..] == rest;
    LeValueOfBytes(length, 8);
  }

  // ---------------------------------------------------------------------------
  // Readers
  // ---------------------------------------------------------------------------

  /** `read_i64_array_from`, `read_u64_array_from`, `read_i32_array_from`,
      `read_u32_array_from`, `read_i16_array_from` and `read_u16_array_from`:
      the count, then exactly that many elements. A body shorter than the
      count announces is an error, never a shorter array. */
  function ReadIntArrayFrom(k: IntKind, input: seq<Byte>): (r: Result<(seq<int>, seq<Byte>), IoError>)
    ensures r.Success? <==> |input| >= 8 && |input| - 8 >= Span(k, LeValue(input[..8]))
    ensures r.Success? ==>
      var n := LeValue(input[..8]);
      && |r.value.0| == n
      && AllInRange(k, r.value.0)
      && EncodeElems(k, r.value.0) == input[8..8 + Span(k, n)]
      && r.value.1 == input[8 + Span(k, n)..]
  {
    var (n, body) :- ReadLength(input);
    var size := Span(k, n);
    if |body| < size then Failure(UnexpectedEof)
    else Success((DecodeElems(k, n, body[..size]), body[size..]))
  }

  // ---------------------------------------------------------------------------
  // Writers
  // ---------------------------------------------------------------------------

  /** `write_i64_array_to`: the count, then every element, appended to what
      the writer holds. */
  function WriteI64ArrayTo(writer: seq<Byte>, arr: seq<int>): (r: seq<Byte>)
    requires AllInRange(I64, arr) && |arr| < Pow2To64
    ensures |r| == |writer| + 8 + 8 * |arr|
    ensures r[..|writer|] == writer
  {
    SpanIsProduct(I64, |arr|);
    writer + (WriteLength([], |arr|) + EncodeElems(I64, arr))
  }

  /** The zero padding `write_i32_array_to` adds after an odd count. */
  function I32Padding(count: nat): seq<Byte> {
    if count % 2 == 1 then [0, 0, 0, 0] else []
  }

  /** An odd count's four padding bytes round the array up to whole words. */
  lemma {:induction false} I32SizeAligned(n: nat)
    ensures (8 + 4 * n + |I32Padding(n)|) % 8 == 0
  {
    var q := n / 2;
    if n % 2 == 1 {
      assert 8 + 4 * n + 4 == 8 * (q + 2);
    } else {
      assert 8 + 4 * n == 8 * (q + 1);
    }
  }

  lemma AlignedSum(a: int, b: int)
    requires a % 8 == 0 && b % 8 == 0
    ensures (a + b) % 8 == 0
  {
  }

  /** The bytes `write_i32_array_to` appends for `arr`: the count, the
      elements, and the padding of an odd count. */
  function I32ArrayBytes(arr: seq<int>): seq<Byte>
    requires AllInRange(I32, arr) && |arr| < Pow2To64
  {
    WriteLength([], |arr|) + EncodeElems(I32, arr) + I32Padding(|arr|)
  }

  /** An `i32` array takes eight bytes for its count, four per element and
      four more after an odd count, which makes a whole number of 8-byte
      words. */
  lemma I32ArrayBytesLength(arr: seq<int>)
    requires AllInRange(I32, arr) && |arr| < Pow2To64
    ensures |I32ArrayBytes(arr)| == 8 + 4 * |arr| + |I32Padding(|arr|)|
    ensures |I32ArrayBytes(arr)| % 8 == 0
  {
    SpanIsProduct(I32, |arr|);
    I32SizeAligned(|arr|);
  }

  /** `write_i32_array_to`: appends to `buffer` without clearing it; what
      it appends does not depend on what the buffer already holds. */
  function WriteI32ArrayTo(buffer: seq<Byte>, arr: seq<int>): (r: seq<Byte>)
    requires AllInRange(I32, arr) && |arr| < Pow2To64
    ensures r == buffer + I32ArrayBytes(arr)
  {
    assert WriteLength(buffer, |arr|) == buffer + WriteLength([], |arr|);
    WriteLength(buffer, |arr|) + EncodeElems(I32, arr) + I32Padding(|arr|)
  }

  predicate NestedInRange(arrs: seq<seq<int>>) {
    forall i :: 0 <= i < |arrs| ==> AllInRange(I32, arrs[i]) && |arrs[i]| < Pow2To64
  }

  lemma NestedTail(arrs: seq<seq<int>>)
    requires NestedInRange(arrs) && |arrs| > 0
    ensures NestedInRange(arrs[1..])
  {
  }

  /** Byte strings one after the other. */
  function Concat(chunks: seq<seq<Byte>>): seq<Byte>
    decreases |chunks|
  {
    if |chunks| == 0 then [] else chunks[0] + Concat(chunks[1..])
  }

  /** Where chunk `i` starts in `Concat(chunks)`: after the chunks before
      it. */
  function Start(chunks: seq<seq<Byte>>, i: nat): nat
    requires i <= |chunks|
  {
    if i == 0 then 0 else Start(chunks, i - 1) + |chunks[i - 1]|
  }

  /** What each inner array of `write_nested_i32_array_to` contributes. */
  function InnerChunks(arrs: seq<seq<int>>): (cs: seq<seq<Byte>>)
    requires NestedInRange(arrs)
    ensures |cs| == |arrs|
    ensures forall i :: 0 <= i < |arrs| ==> cs[i] == I32ArrayBytes(arrs[i])
  {
    seq(|arrs|, i requires 0 <= i < |arrs| => I32ArrayBytes(arrs[i]))
  }

  lemma InnerChunksTail(arrs: seq<seq<int>>)
    requires NestedInRange(arrs) && |arrs| > 0
    ensures NestedInRange(arrs[1..])
    ensures InnerChunks(arrs) == [I32ArrayBytes(arrs[0])] + InnerChunks(arrs[1..])
  {
    NestedTail(arrs);
    assert InnerChunks(arrs)[1..] == InnerChunks(arrs[1..]);
  }

  lemma AppendAssoc(a: seq<Byte>, b: seq<Byte>, c: seq<Byte>)
    ensures (a + b) + c == a + (b + c)
  {
  }

  /** The loop of `write_nested_i32_array_to`: every inner array in order,
      appended to the buffer. */
  function WriteInnerArrays(buffer: seq<Byte>, arrs: seq<seq<int>>): (r: seq<Byte>)
    requires NestedInRange(arrs)
    ensures r == buffer + Concat(InnerChunks(arrs))
    decreases |arrs|
  {
    if |arrs| == 0 then buffer
    else
      InnerChunksTail(arrs);
      var next := WriteI32ArrayTo(buffer, arrs[0]);
      var r := WriteInnerArrays(next, arrs[1..]);
      AppendAssoc(buffer, I32ArrayBytes(arrs[0]), Concat(InnerChunks(arrs[1..])));
      r
  }

  /** Chunks of whole words start on word boundaries and fill whole words. */
  lemma {:induction false} ChunksAligned(chunks: seq<seq<Byte>>, i: nat)
    requires forall j :: 0 <= j < |chunks| ==> |chunks[j]| % 8 == 0
    requires i <= |chunks|
    ensures Start(chunks, i) % 8 == 0
  {
    if i > 0 {
      ChunksAligned(chunks, i - 1);
      AlignedSum(Start(chunks, i - 1), |chunks[i - 1]|);
    }
  }

  lemma {:induction false} StartIsLength(chunks: seq<seq<Byte>>, i: nat)
    requires i <= |chunks|
    ensures Start(chunks, i) == |Concat(chunks[..i])|
  {
    if i > 0 {
      StartIsLength(chunks, i - 1);
      ConcatSnoc(chunks[..i - 1], chunks[i - 1]);
      assert chunks[..i] == chunks[..i - 1] + [chunks[i - 1]];
    }
  }

  lemma {:induction false} ConcatSnoc(chunks: seq<seq<Byte>>, c: seq<Byte>)
    ensures Concat(chunks + [c]) == Concat(chunks) + c
    decreases |chunks|
  {
    if |chunks| == 0 {
      assert chunks + [c] == [c];
    } else {
      assert (chunks + [c])[1..] == chunks[1..] + [c];
      ConcatSnoc(chunks[1..], c);
    }
  }

  /** The inner arrays together are a whole number of words. */
  lemma InnerBytesWords(arrs: seq<seq<int>>)
    requires NestedInRange(arrs)
    ensures |Concat(InnerChunks(arrs))| % 8 == 0
  {
    var cs := InnerChunks(arrs);
    forall j | 0 <= j < |cs|
      ensures |cs[j]| % 8 == 0
    {
      I32ArrayBytesLength(arrs[j]);
    }
    ChunksAligned(cs, |cs|);
    StartIsLength(cs, |cs|);
    assert cs[..|cs|] == cs;
  }

  /** `write_nested_i32_array_to`: the outer count, then each inner array,
      appended to what the writer holds as a whole number of words. */
  function WriteNestedI32ArrayTo(writer: seq<Byte>, arrs: seq<seq<int>>): (r: seq<Byte>)
    requires NestedInRange(arrs) && |arrs| < Pow2To64
    ensures r == writer + WriteLength([], |arrs|) + Concat(InnerChunks(arrs))
    ensures (|r| - |writer|) % 8 == 0
  {
    var buffer := WriteInnerArrays(WriteLength([], |arrs|), arrs);
    InnerBytesWords(arrs);
    AlignedSum(8, |Concat(InnerChunks(arrs))|);
    writer + buffer
  }

  // ---------------------------------------------------------------------------
  // Properties
  // ---------------------------------------------------------------------------

  /** What `write_i64_array_to` writes, `read_i64_array_from` reads back,
      leaving whatever follows untouched. */
  lemma I64RoundTrip(arr: seq<int>, rest: seq<Byte>)
    requires AllInRange(I64, arr) && |arr| < Pow2To64
    ensures ReadIntArrayFrom(I64, WriteI64ArrayTo([], arr) + rest) == Success((arr, rest))
  {
    var body := EncodeElems(I64, arr);
    var input := WriteI64ArrayTo([], arr) + rest;
    assert input == WriteLength([], |arr|) + (body + rest);
    LengthRoundTrip(|arr|, body + rest);
    assert (body + rest)[..|body|] == body;
    assert (body + rest)[|body|..] == rest;
    DecodeEncodeElems(I64, arr);
  }

  /** An empty `i64` array is eight zero bytes, and reads back as empty. */
  lemma EmptyI64Array(rest: seq<Byte>)
    ensures WriteI64ArrayTo([], []) == [0, 0, 0, 0, 0, 0, 0, 0]
    ensures ReadIntArrayFrom(I64, [0, 0, 0, 0, 0, 0, 0, 0] + rest) == Success(([], rest))
  {
    I64RoundTrip([], rest);
  }

  /** `read_i32_array_from` reads exactly the elements `write_i32_array_to`
      wrote and leaves the padding of an odd count unread. */
  lemma I32RoundTrip(arr: seq<int>, rest: seq<Byte>)
    requires AllInRange(I32, arr) && |arr| < Pow2To64
    ensures ReadIntArrayFrom(I32, WriteI32ArrayTo([], arr) + rest) == Success((arr, I32Padding(|arr|) + rest))
  {
    var body := EncodeElems(I32, arr);
    var after := I32Padding(|arr|) + rest;
    var input := WriteI32ArrayTo([], arr) + rest;
    assert input == WriteLength([], |arr|) + (body + after);
    LengthRoundTrip(|arr|, body + after);
    assert (body + after)[..|body|] == body;
    assert (body + after)[|body|..] == after;
    DecodeEncodeElems(I32, arr);
  }

  /** Every reader fails on a body shorter than its count announces. */
  lemma ReaderRejectsShortBody(k: IntKind, input: seq<Byte>)
    requires |input| >= 8 && |input| < 8 + Span(k, LeValue(input[..8]))
    ensures ReadIntArrayFrom(k, input) == Failure(UnexpectedEof)
  {
  }

  lemma {:induction false} StartShift(chunks: seq<seq<Byte>>, i: nat)
    requires 1 <= i <= |chunks|
    ensures Start(chunks, i) == |chunks[0]| + Start(chunks[1..], i - 1)
    decreases i
  {
    if i > 1 {
      StartShift(chunks, i - 1);
      assert chunks[1..][i - 2] == chunks[i - 1];
    }
  }

  /** Chunk `i` occupies the bytes from its start to the next one's. */
  lemma {:induction false} ChunkLayout(chunks: seq<seq<Byte>>, i: nat)
    requires i < |chunks|
    ensures Start(chunks, i + 1) <= |Concat(chunks)|
    ensures Concat(chunks)[Start(chunks, i)..Start(chunks, i + 1)] == chunks[i]
    decreases i
  {
    var first := chunks[0];
    var rest := Concat(chunks[1..]);
    assert Concat(chunks) == first + rest;
    if i == 0 {
      SliceShift(first, rest, Concat(chunks), 0, 0, []);
    } else {
      var lo := Start(chunks[1..], i - 1);
      var hi := Start(chunks[1..], i);
      ChunkLayout(chunks[1..], i - 1);
      StartShift(chunks, i);
      StartShift(chunks, i + 1);
      SliceShift(first, rest, Concat(chunks), lo, hi, chunks[i]);
    }
  }

  /** A slice of the tail of a concatenation, seen from its start. */
  lemma SliceShift(first: seq<Byte>, rest: seq<Byte>, total: seq<Byte>, lo: nat, hi: nat, c: seq<Byte>)
    requires total == first + rest && lo <= hi <= |rest| && rest[lo..hi] == c
    ensures total[|first| + lo..|first| + hi] == c
    ensures total[..|first|] == first
  {
  }

  /** `write_nested_i32_array_to` writes the outer count first: reading it
      back leaves exactly the inner arrays. */
  lemma NestedHead(writer: seq<Byte>, arrs: seq<seq<int>>)
    requires NestedInRange(arrs) && |arrs| < Pow2To64
    ensures var r := WriteNestedI32ArrayTo(writer, arrs);
      && |writer| + 8 <= |r|
      && ReadLength(r[|writer|..]) == Success((|arrs|, Concat(InnerChunks(arrs))))
  {
    var head := WriteLength([], |arrs|);
    var inner := Concat(InnerChunks(arrs));
    var r := WriteNestedI32ArrayTo(writer, arrs);
    LengthRoundTrip(|arrs|, inner);
    assert r == (writer + head) + inner;
    assert r[|writer|..] == head + inner;
  }

  /** After the count, `write_nested_i32_array_to` writes each inner array
      in order: inner array `i` occupies the bytes from its start to the next
      one's, and starts on an 8-byte boundary of what the function writes. */
  lemma NestedLayout(arrs: seq<seq<int>>, i: nat)
    requires NestedInRange(arrs) && i < |arrs|
    ensures var cs := InnerChunks(arrs);
      && Start(cs, i + 1) <= |Concat(cs)|
      && Concat(cs)[Start(cs, i)..Start(cs, i + 1)] == I32ArrayBytes(arrs[i])
      && (8 + Start(cs, i)) % 8 == 0
  {
    var cs := InnerChunks(arrs);
    ChunkLayout(cs, i);
    forall j | 0 <= j < |cs|
      ensures |cs[j]| % 8 == 0
    {
      I32ArrayBytesLength(arrs[j]);
    }
    ChunksAligned(cs, i);
    AlignedSum(8, Start(cs, i));
  }

  /** What `write_i32_array_to` appends reads back as the array, leaving
      the padding of an odd count unread. */
  lemma I32BytesRoundTrip(arr: seq<int>, rest: seq<Byte>)
    requires AllInRange(I32, arr) && |arr| < Pow2To64
    ensures ReadIntArrayFrom(I32, I32ArrayBytes(arr) + rest) == Success((arr, I32Padding(|arr|) + rest))
  {
    I32RoundTrip(arr, rest);
    assert WriteI32ArrayTo([], arr) == I32ArrayBytes(arr);
  }

  /** Reading an `i32` array where inner array `i` of
      `write_nested_i32_array_to` starts yields that inner array; what is
      left is its padding followed by the inner arrays after it. */
  lemma NestedElementReads(arrs: seq<seq<int>>, i: nat)
    requires NestedInRange(arrs) && i < |arrs|
    ensures var cs := InnerChunks(arrs);
      && Start(cs, i + 1) <= |Concat(cs)|
      && ReadIntArrayFrom(I32, Concat(cs)[Start(cs, i)..])
         == Success((arrs[i], I32Padding(|arrs[i]|) + Concat(cs)[Start(cs, i + 1)..]))
  {
    var cs := InnerChunks(arrs);
    NestedLayout(arrs, i);
    ReadAtChunk(Concat(cs), Start(cs, i), Start(cs, i + 1), arrs[i]);
  }

  /** An `i32` array's bytes found inside a longer byte string read back as
      that array. */
  lemma ReadAtChunk(all: seq<Byte>, lo: nat, hi: nat, arr: seq<int>)
    requires AllInRange(I32, arr) && |arr| < Pow2To64
    requires lo <= hi <= |all| && all[lo..hi] == I32ArrayBytes(arr)
    ensures ReadIntArrayFrom(I32, all[lo..]) == Success((arr, I32Padding(|arr|) + all[hi..]))
  {
    assert all[lo..] == all[lo..hi] + all[hi..];
    I32BytesRoundTrip(arr, all[hi..]);
  }
}

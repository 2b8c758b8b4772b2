/** The record encoder of the record tests: `encode_field` turns one value
    into a 64-bit slot word, and `encode_fields` lays out the slot words of
    a record followed by its presence pages. The pages are stored at the END
    of the output in reverse order: page `p` is word `total - 1 - p`. Bit
    `b` of page `p` says whether field `64 * p + b` is present.

    The output is modelled as words; `encode_fields` hands them out as their
    bytes in the machine's (little-endian) order. */
module RecordEncoder {
  import opened Common
  import opened Bits
  import opened Casts
  import opened PointerCodec
  import opened PresenceTable
  import opened PresencePages

  /** The `Value` enum of the record tests without its floating-point
      variants. Integer payloads are kept as their bit patterns. */
  datatype Value =
    | Int(i64: bv64)
    | UInt64(u64: bv64)
    | Int32(i32: bv32)
    | UInt32(u32: bv32)
    | Int16(i16: bv16)
    | UInt16(u16: bv16)
    | Byte(u8: bv8)
    | Bool(b: bool)
    | String(ptr: Pointer)
    | Array(ptr: Pointer)
    | Dict(ptr: Pointer)
    | Set(ptr: Pointer)
    | Custom(ptr: Pointer)
    | Record(ptr: Pointer)

  /** Which variant a value is, without its payload. */
  datatype Kind =
    | IntKind | UInt64Kind | Int32Kind | UInt32Kind | Int16Kind | UInt16Kind | ByteKind | BoolKind
    | StringKind | ArrayKind | DictKind | SetKind | CustomKind | RecordKind

  function KindOf(v: Value): Kind {
    match v
    case Int(_) => IntKind
    case UInt64(_) => UInt64Kind
    case Int32(_) => Int32Kind
    case UInt32(_) => UInt32Kind
    case Int16(_) => Int16Kind
    case UInt16(_) => UInt16Kind
    case Byte(_) => ByteKind
    case Bool(_) => BoolKind
    case String(_) => StringKind
    case Array(_) => ArrayKind
    case Dict(_) => DictKind
    case Set(_) => SetKind
    case Custom(_) => CustomKind
    case Record(_) => RecordKind
  }

  /** The variants that carry a pointer. */
  predicate IsPointer(v: Value) {
    v.String? || v.Array? || v.Dict? || v.Set? || v.Custom? || v.Record?
  }

  /** `encode_field`: the slot word of one value. A 64-bit integer is its
      own bit pattern; a narrower signed one is sign-extended and an
      unsigned one zero-extended; `true` is 1 and `false` 0; a pointer is
      its pointer word. */
  function EncodeField(v: Value): (r: bv64)
    ensures v.Int? ==> r == v.i64
    ensures v.UInt64? ==> r == v.u64
    ensures v.Int32? ==> SignExtended32(r, v.i32)
    ensures v.UInt32? ==> ZeroExtended32(r, v.u32)
    ensures v.Int16? ==> SignExtended16(r, v.i16)
    ensures v.UInt16? ==> ZeroExtended16(r, v.u16)
    ensures v.Byte? ==> ZeroExtended8(r, v.u8)
    ensures v.Bool? ==> r == if v.b then 1 else 0
    ensures IsPointer(v) ==> r == Encode(v.ptr)
  {
    if IsPointer(v) then Encode(v.ptr)
    else if v.Int32? || v.UInt32? || v.Int16? || v.UInt16? || v.Byte? then EncodeNarrow(v)
    else
      match v
      case Int(x) => x
      case UInt64(x) => x
      case Bool(b) => if b then 1 else 0
  }

  /** The integers narrower than 64 bits, each widened by its own cast. */
  function EncodeNarrow(v: Value): (r: bv64)
    requires v.Int32? || v.UInt32? || v.Int16? || v.UInt16? || v.Byte?
    ensures v.Int32? ==> SignExtended32(r, v.i32)
    ensures v.UInt32? ==> ZeroExtended32(r, v.u32)
    ensures v.Int16? ==> SignExtended16(r, v.i16)
    ensures v.UInt16? ==> ZeroExtended16(r, v.u16)
    ensures v.Byte? ==> ZeroExtended8(r, v.u8)
  {
    match v
    case Int32(x) => SignExtend32Bits(x); SignExtend32(x)
    case UInt32(x) => ZeroExtend32Bits(x); ZeroExtend32(x)
    case Int16(x) => SignExtend16Bits(x); SignExtend16(x)
    case UInt16(x) => ZeroExtend16Bits(x); ZeroExtend16(x)
    case Byte(x) => ZeroExtend8Bits(x); ZeroExtend8(x)
  }

  /** Reading a slot word back as a value of a known kind: integers keep
      their own low bits, a boolean is any non-zero word, and a pointer is
      decoded. */
  function DecodeField(k: Kind, w: bv64): (v: Value)
    ensures KindOf(v) == k
  {
    match k
    case IntKind => Int(w)
    case UInt64Kind => UInt64(w)
    case Int32Kind => Int32(Low32(w))
    case UInt32Kind => UInt32(Low32(w))
    case Int16Kind => Int16(Low16(w))
    case UInt16Kind => UInt16(Low16(w))
    case ByteKind => Byte(Low8(w))
    case BoolKind => Bool(w != 0)
    case StringKind => String(Decode(w))
    case ArrayKind => Array(Decode(w))
    case DictKind => Dict(Decode(w))
    case SetKind => Set(Decode(w))
    case CustomKind => Custom(Decode(w))
    case RecordKind => Record(Decode(w))
  }

  /** A boolean is the word 1 or 0, and a pointer's lowest bit is its
      composite flag. */
  lemma SlotTags(v: Value)
    ensures v.Bool? ==> (EncodeField(v) == 1 <==> v.b) && (EncodeField(v) == 0 <==> !v.b)
    ensures IsPointer(v) ==> Bit(EncodeField(v), 0) == v.ptr.isComposite
  {
  }

  /** A value whose pointer, if any, has a length that fits its 15-bit
      field. */
  predicate Encodable(v: Value) {
    IsPointer(v) ==> v.ptr.length < 0x8000
  }

  lemma ScalarRoundTrip(v: Value)
    requires !IsPointer(v)
    ensures DecodeField(KindOf(v), EncodeField(v)) == v
  {
    match v
    case Int32(x) => assert EncodeField(v) == SignExtend32(x);
    case UInt32(x) => assert EncodeField(v) == ZeroExtend32(x);
    case Int16(x) => assert EncodeField(v) == SignExtend16(x);
    case UInt16(x) => assert EncodeField(v) == ZeroExtend16(x);
    case Byte(x) => assert EncodeField(v) == ZeroExtend8(x);
    case _ =>
  }

  lemma PointerRoundTrip(v: Value)
    requires IsPointer(v) && v.ptr.length < 0x8000
    ensures DecodeField(KindOf(v), EncodeField(v)) == v
  {
    var w := Encode(v.ptr);
    assert EncodeField(v) == w;
    DecodeEncode(v.ptr);
  }

  /** Every slot word reads back as the value it encodes. */
  lemma FieldRoundTrip(v: Value)
    requires Encodable(v)
    ensures DecodeField(KindOf(v), EncodeField(v)) == v
  {
    if IsPointer(v) {
      PointerRoundTrip(v);
    } else {
      ScalarRoundTrip(v);
    }
  }

  /** A pointer with a length of 2^15 or more does not survive its slot. */
  lemma LongPointerFieldCorrupts(p: Pointer)
    requires p.length >= 0x8000
    ensures DecodeField(StringKind, EncodeField(String(p))) != String(p)
  {
    DecodeEncodeLongLength(p);
  }

  // ---------------------------------------------------------------------------
  // encode_fields
  // ---------------------------------------------------------------------------

  /** The fields with their values already turned into slot words.
      `encode_fields` calls `encode_field` inside its loop; the call is
      pure, so doing it first changes nothing. */
  function Encoded(fields: seq<(FieldId, Value)>): (es: seq<(FieldId, bv64)>)
    ensures |es| == |fields|
    ensures forall i :: 0 <= i < |fields| ==> es[i].0 == fields[i].0
  {
    seq(|fields|, i requires 0 <= i < |fields| => (fields[i].0, EncodeField(fields[i].1)))
  }

  /** `encode_fields`: no words for no fields; otherwise one slot word per
      field followed by the presence pages for fields `0..=highest`. The
      `highest + 1` of the page count overflows a `u32` at the largest id. */
  function EncodeFields(fields: seq<(FieldId, Value)>, highest: FieldId): (r: Result<seq<bv64>, Panic>)
    ensures |fields| == 0 ==> r == Success([])
    ensures |fields| > 0 && highest == Pow2To32 - 1 ==> r == Failure(ArithmeticOverflow)
    ensures |fields| > 0 && r.Success? ==> |r.value| == |fields| + PageCount(highest)
  {
    if |fields| == 0 then Success([])
    else if highest + 1 >= Pow2To32 then Failure(ArithmeticOverflow)
    else
      var total := |fields| + PageCount(highest);
      Place(Encoded(fields), 0, Zeros(total), 0)
  }

  /** Past its two early returns, `encode_fields` is its loop over zeroed
      words. */
  lemma EncodeFieldsLoop(fields: seq<(FieldId, Value)>, highest: FieldId)
    requires |fields| > 0 && highest < Pow2To32 - 1
    ensures EncodeFields(fields, highest) == Place(Encoded(fields), 0, Zeros(|fields| + PageCount(highest)), 0)
  {
  }

  /** Encoding the values keeps the ids: the order of the fields and the
      pages that describe them carry over. */
  lemma EncodedPagesInOrder(fields: seq<(FieldId, Value)>)
    requires PagesInOrder(fields)
    ensures PagesInOrder(Encoded(fields))
  {
  }

  lemma EncodedHasField(fields: seq<(FieldId, Value)>, id: int)
    ensures HasField(Encoded(fields), id) <==> HasField(fields, id)
  {
    var es := Encoded(fields);
    if HasField(es, id) {
      var i :| 0 <= i < |es| && es[i].0 == id;
      assert fields[i].0 == id;
    }
    if HasField(fields, id) {
      var i :| 0 <= i < |fields| && fields[i].0 == id;
      assert es[i].0 == id;
    }
  }

  lemma EncodedPage(fields: seq<(FieldId, Value)>, w: bv64, p: nat)
    requires IsPage(w, Encoded(fields), p)
    ensures IsPage(w, fields, p)
  {
    forall b: nat | b < 64
      ensures Bit(w, Pos(b)) <==> HasField(fields, 64 * p + b)
    {
      EncodedHasField(fields, 64 * p + b);
    }
  }


  /** For fields whose pages never go down (ascending ids are one case, see
      `SortedPagesInOrder`), none above `highest`: the output is
      the slot word of every field in input order, followed by the presence
      pages, page `p` at word `total - 1 - p`, each holding exactly the bits
      of the fields on it. */
  lemma {:induction false} SortedLayout(fields: seq<(FieldId, Value)>, highest: FieldId)
    requires |fields| > 0 && PagesInOrder(fields) && highest < Pow2To32 - 1
    requires forall i :: 0 <= i < |fields| ==> fields[i].0 <= highest
    ensures var r := EncodeFields(fields, highest);
      && r.Success?
      && |r.value| == |fields| + PageCount(highest)
      && (forall i :: 0 <= i < |fields| ==> r.value[i] == EncodeField(fields[i].1))
      && (forall p :: 0 <= p < PageCount(highest) ==> IsPage(PageWord(r.value, p), fields, p))
  {
    var pages := PageCount(highest);
    var es := Encoded(fields);
    EncodedPagesInOrder(fields);
    forall i | 0 <= i < |es|
      ensures es[i].0 < 64 * pages
    {
      PageCountCovers(highest, es[i].0);
    }
    var r := PlaceLayout(es, pages);
    EncodeFieldsLoop(fields, highest);
    assert |es| == |fields|;
    assert Zeros(|fields| + PageCount(highest)) == Zeros(|es| + pages);
    assert EncodeFields(fields, highest) == Place(es, 0, Zeros(|es| + pages), 0);
    assert EncodeFields(fields, highest) == Success(r);
    forall i | 0 <= i < |fields|
      ensures r[i] == EncodeField(fields[i].1)
    {
      assert r[i] == es[i].1;
    }
    forall p | 0 <= p < pages
      ensures IsPage(PageWord(r, p), fields, p)
    {
      EncodedPage(fields, PageWord(r, p), p);
    }
  }

  /** Correctness depends on the order of the input: a field whose page
      comes before the page of an earlier field makes `encode_fields`
      panic. */
  lemma UnsortedPagesPanic(fields: seq<(FieldId, Value)>, highest: FieldId, i: nat, j: nat)
    requires i < j < |fields|
    requires fields[j].0 / 64 < fields[i].0 / 64
    ensures EncodeFields(fields, highest).Failure?
  {
    if highest + 1 < Pow2To32 {
      DescentPanics(Encoded(fields), 0, Zeros(|fields| + PageCount(highest)), 0, i, j);
    }
  }

  /** For fields up to a `highest` below the largest id, `encode_fields`
      succeeds exactly when the pages of the fields never go down. */
  lemma EncodeFieldsSucceeds(fields: seq<(FieldId, Value)>, highest: FieldId)
    requires |fields| > 0 && highest < Pow2To32 - 1
    requires forall i :: 0 <= i < |fields| ==> fields[i].0 <= highest
    ensures EncodeFields(fields, highest).Success? <==> PagesInOrder(fields)
  {
    if PagesInOrder(fields) {
      SortedLayout(fields, highest);
    } else {
      var i, j :| 0 <= i < j < |fields| && fields[i].0 / 64 > fields[j].0 / 64;
      UnsortedPagesPanic(fields, highest, i, j);
    }
  }

  /** The record of the two fields 3 and 1 on one page: out of id order,
      yet laid out exactly. */
  lemma SamePageAnyOrder()
    ensures EncodeFields([(3, Bool(true)), (1, Bool(false))], 3) == Success([1, 0, 10])
  {
    var fields: seq<(FieldId, Value)> := [(3, Bool(true)), (1, Bool(false))];
    assert Encoded(fields) == [(3, 1), (1, 0)];
    assert PageCount(3) == 1;
    assert Zeros(|fields| + PageCount(3)) == [0, 0, 0];
    EncodeFieldsLoop(fields, 3);
    SamePageLoop();
    assert EncodeFields(fields, 3) == Place([(3, 1), (1, 0)], 0, [0, 0, 0], 0);
  }

  /** The loop of `encode_fields` over the slot words of `SamePageAnyOrder`. */
  lemma SamePageLoop()
    ensures Place([(3, 1), (1, 0)], 0, [0, 0, 0], 0) == Success([1, 0, 10])
  {
    var es: seq<(FieldId, bv64)> := [(3, 1), (1, 0)];
    assert Mask(3) == 8 && Mask(1) == 2;
    assert AdvancePage(0, 3) == 0 && AdvancePage(0, 1) == 0;
    assert Store([0, 0, 0], 0, 1, 2, Mask(3)) == [1, 0, 8];
    assert Store([1, 0, 8], 1, 0, 2, Mask(1)) == [1, 0, 10];
    assert Visit(es, 0, [0, 0, 0], 0) == Some(([1, 0, 8], 0));
    assert Visit(es, 1, [1, 0, 8], 0) == Some(([1, 0, 10], 0));
  }

  /** A record with the single boolean field 0 set to true: the slot word 1,
      then one presence page with only bit 0 set. */
  lemma SingleBoolRecord()
    ensures EncodeFields([(0, Bool(true))], 0) == Success([1, 1])
  {
    var fields: seq<(FieldId, Value)> := [(0, Bool(true))];
    var es := Encoded(fields);
    assert es == [(0, 1)];
    assert Mask(0) == 1;
    var zeros := Zeros(2);
    assert AdvancePage(0, 0) == 0;
    assert Store(zeros, 0, 1, 1, Mask(0)) == [1, 1];
    assert Place(es, 1, [1, 1], 0) == Success([1, 1]);
    assert Place(es, 0, zeros, 0) == Place(es, 1, [1, 1], 0);
  }

}

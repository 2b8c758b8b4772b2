/** The presence table at the start of a record's data bytes: one or more
    8-byte pages, where bit 0 of a page's last byte says whether another
    page follows. */
module PresenceTable {
  import opened Common

  /** `record::FieldId`, a `u32`. */
  type FieldId = x: int | 0 <= x < Pow2To32

  /** Page `k` (counted from 1) lies inside `bytes` and has its continuation
      bit, bit 0 of byte `8k - 1`, set. */
  predicate Continues(bytes: seq<Byte>, k: nat)
    requires k >= 1
  {
    8 * k <= |bytes| && bytes[8 * k - 1] % 2 == 1
  }

  /** Page `k` lies inside `bytes` and is the last one: its continuation bit
      is clear. */
  predicate Ends(bytes: seq<Byte>, k: nat)
    requires k >= 1
  {
    8 * k <= |bytes| && bytes[8 * k - 1] % 2 == 0
  }

  /** The `while` loop of `decode_presence_table`, entered with page count
      `k`: it reads byte `8k - 1`, which panics once that index is past the
      end of `bytes`. The count is `k` for the first page at or after `k`
      that ends the chain. */
  function CountPages(bytes: seq<Byte>, k: nat): (r: Result<nat, Panic>)
    requires k >= 1
    ensures r.Success? ==>
      && r.value >= k
      && Ends(bytes, r.value)
      && forall j :: k <= j < r.value ==> Continues(bytes, j)
    ensures r.Failure? ==>
      && r.error == IndexOutOfBounds
      && forall j :: k <= j && 8 * j <= |bytes| ==> Continues(bytes, j)
    decreases |bytes| - 8 * k
  {
    if 8 * k - 1 >= |bytes| then Failure(IndexOutOfBounds)
    else if bytes[8 * k - 1] % 2 != 0 then CountPages(bytes, k + 1)
    else Success(k)
  }

  /** `decode_presence_table` as written: the page count is used as a
      BYTE count, so the result is the first `pages` bytes. */
  function DecodePresenceTable(bytes: seq<Byte>): (r: Result<seq<Byte>, Panic>)
    ensures r.Success? ==>
      && 1 <= |r.value| <= |bytes|
      && r.value == bytes[..|r.value|]
      && Ends(bytes, |r.value|)
      && forall j :: 1 <= j < |r.value| ==> Continues(bytes, j)
    ensures r.Failure? <==> forall j :: 1 <= j && 8 * j <= |bytes| ==> Continues(bytes, j)
  {
    var pages :- CountPages(bytes, 1);
    assert !Continues(bytes, pages);
    Success(bytes[0..pages])
  }

  /** The presence table the documentation describes: every page in full,
      eight bytes each. */
  function DecodePresenceTableSized(bytes: seq<Byte>): (r: Result<seq<Byte>, Panic>)
    ensures r.Success? ==>
      && 8 <= |r.value| <= |bytes|
      && r.value == bytes[..|r.value|]
      && |r.value| % 8 == 0
      && Ends(bytes, |r.value| / 8)
      && forall j :: 1 <= j < |r.value| / 8 ==> Continues(bytes, j)
    ensures r.Failure? <==> forall j :: 1 <= j && 8 * j <= |bytes| ==> Continues(bytes, j)
  {
    var pages :- CountPages(bytes, 1);
    assert !Continues(bytes, pages);
    Success(bytes[0..8 * pages])
  }

  /** Both versions count the same pages; the as-written one returns the
      first `pages` of the `8 * pages` bytes the table occupies. */
  lemma SizedExtendsAsWritten(bytes: seq<Byte>)
    ensures DecodePresenceTable(bytes).Success? <==> DecodePresenceTableSized(bytes).Success?
    ensures DecodePresenceTable(bytes).Success? ==>
      var short := DecodePresenceTable(bytes).value;
      var full := DecodePresenceTableSized(bytes).value;
      |full| == 8 * |short| && short == full[..|short|]
  {
  }

  /** The scan stops at the first page that does not continue: the page
      count is determined by the bytes alone. */
  lemma {:induction false} PageCountIsFirstEnd(bytes: seq<Byte>, n: nat)
    requires n >= 1 && Ends(bytes, n)
    requires forall j :: 1 <= j < n ==> Continues(bytes, j)
    ensures DecodePresenceTable(bytes) == Success(bytes[..n])
  {
    CountFrom(bytes, 1, n);
  }

  lemma {:induction false} CountFrom(bytes: seq<Byte>, k: nat, n: nat)
    requires 1 <= k <= n && Ends(bytes, n)
    requires forall j :: k <= j < n ==> Continues(bytes, j)
    ensures CountPages(bytes, k) == Success(n)
    decreases n - k
  {
    if k < n {
      assert Continues(bytes, k);
      CountFrom(bytes, k + 1, n);
    }
  }

  /** A single page whose continuation bit is clear yields one byte. */
  lemma SinglePage(bytes: seq<Byte>)
    requires |bytes| >= 8 && bytes[7] % 2 == 0
    ensures DecodePresenceTable(bytes) == Success(bytes[0..1])
  {
  }

  /** Fewer than eight bytes always panic. */
  lemma ShortInputPanics(bytes: seq<Byte>)
    requires |bytes| < 8
    ensures DecodePresenceTable(bytes) == Failure(IndexOutOfBounds)
  {
  }

  /** A chain of continuation bits that runs off the end panics: every
      page that fits in the input continues. */
  lemma UnterminatedChainPanics(bytes: seq<Byte>)
    requires forall j :: 1 <= j && 8 * j <= |bytes| ==> Continues(bytes, j)
    ensures DecodePresenceTable(bytes) == Failure(IndexOutOfBounds)
  {
  }

  /** One page of zeros: the table is eight bytes long, but the as-written
      decoder returns one. */
  lemma OnePageTruncated()
    ensures DecodePresenceTable([0, 0, 0, 0, 0, 0, 0, 0]) == Success([0])
    ensures DecodePresenceTableSized([0, 0, 0, 0, 0, 0, 0, 0]) == Success([0, 0, 0, 0, 0, 0, 0, 0])
  {
    var zeros: seq<Byte> := [0, 0, 0, 0, 0, 0, 0, 0];
    CountFrom(zeros, 1, 1);
    assert zeros[0..1] == [0] && zeros[0..8] == zeros;
  }

  /** The `while` loop of `decode_presence_table`, step by step. */
  method DecodePresenceTableLoop(bytes: seq<Byte>) returns (r: Result<seq<Byte>, Panic>)
    ensures r == DecodePresenceTable(bytes)
  {
    var pages := 1;
    while true
      invariant pages >= 1
      invariant forall j :: 1 <= j < pages ==> Continues(bytes, j)
      invariant CountPages(bytes, pages) == CountPages(bytes, 1)
      decreases |bytes| - 8 * pages
    {
      if 8 * pages - 1 >= |bytes| {
        return Failure(IndexOutOfBounds);
      }
      if bytes[8 * pages - 1] % 2 == 0 {
        break;
      }
      pages := pages + 1;
    }
    return Success(bytes[0..pages]);
  }
}

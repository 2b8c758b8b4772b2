/** The presence pages `encode_fields` writes after the slot words, and
    its `for` loop over the fields as a walk over `(id, slot word)` entries.
    Page `p` of a `total`-word output is word `total - 1 - p`; its bit `b`
    says whether field `64 * p + b` is present. */
module PresencePages {
  import opened Common
  import opened Bits
  import opened PresenceTable

  // ---------------------------------------------------------------------------
  // encode_fields
  // ---------------------------------------------------------------------------

  /** The number of presence pages for fields `0..=highest`:
      `ceil((highest + 1) / 64)`. */
  function PageCount(highest: FieldId): (r: nat)
    ensures r >= 1 && 64 * (r - 1) <= highest < 64 * r
  {
    (highest + 64) / 64
  }

  /** Every field up to `highest` lies on one of the `PageCount(highest)`
      pages. */
  lemma PageCountCovers(highest: FieldId, id: FieldId)
    requires id <= highest
    ensures id / 64 < PageCount(highest) && id < 64 * PageCount(highest)
  {
    assert PageCount(highest) == highest / 64 + 1;
  }

  /** The inner `while` of `encode_fields`: advance the page index until
      the page holds field `id`. The index never moves backwards. */
  function AdvancePage(pti: nat, id: FieldId): (r: nat)
    ensures r == if pti <= id / 64 then id / 64 else pti
    decreases id - 64 * pti
  {
    if (pti + 1) * 64 <= id then AdvancePage(pti + 1, id) else pti
  }

  /** One iteration of the `for` loop of `encode_fields` for entry `k`,
      entered with page index `pti`: the new words and page index, or
      `None` where Rust's debug build panics: on the `usize` subtraction
      `total_words - pti - 1`, and on a shift by a negative amount, which a
      field on an earlier page than the one before it causes. */
  function Visit(entries: seq<(FieldId, bv64)>, k: nat, result: seq<bv64>, pti: nat): (r: Option<(seq<bv64>, nat)>)
    requires k < |entries| <= |result|
    ensures var page := AdvancePage(pti, entries[k].0);
      && (r.None? <==> page + 1 > |result| || entries[k].0 < 64 * page)
      && (r.Some? ==> |r.value.0| == |result| && r.value.1 == page)
  {
    var id := entries[k].0;
    var page := AdvancePage(pti, id);
    if page + 1 > |result| then None
    else if id - 64 * page < 0 then None
    else Some((Store(result, k, entries[k].1, |result| - page - 1, Mask(id - 64 * page)), page))
  }

  /** The `for` loop of `encode_fields` from entry `k` on. */
  function Place(entries: seq<(FieldId, bv64)>, k: nat, result: seq<bv64>, pti: nat): (r: Result<seq<bv64>, Panic>)
    requires k <= |entries| <= |result|
    ensures r.Success? ==> |r.value| == |result|
    decreases |entries| - k
  {
    if k == |entries| then Success(result)
    else
      match Visit(entries, k, result, pti)
      case None => Failure(ArithmeticOverflow)
      case Some((next, page)) => Place(entries, k + 1, next, page)
  }

  /** The writes of one iteration: `result[k] = slot`, then
      `result[at] = result[at] | bit`, word by word. */
  function Store(result: seq<bv64>, k: nat, slot: bv64, at: nat, bit: bv64): (r: seq<bv64>)
    requires k < |result| && at < |result|
    ensures |r| == |result|
  {
    seq(|result|, i requires 0 <= i < |result| =>
      if i == at then (if at == k then slot else result[at]) | bit
      else if i == k then slot
      else result[i])
  }

  /** `Store` ORs the bit into the page word, on top of the slot if the
      two share a word. */
  lemma StoreAt(result: seq<bv64>, k: nat, slot: bv64, at: nat, bit: bv64)
    requires k < |result| && at < |result|
    ensures Store(result, k, slot, at, bit)[at] == (if at == k then slot else result[at]) | bit
  {
  }

  /** Every other word holds the slot or is left alone. */
  lemma StoreElsewhere(result: seq<bv64>, k: nat, slot: bv64, at: nat, bit: bv64, i: nat)
    requires k < |result| && at < |result|
    requires i < |result| && i != at
    ensures Store(result, k, slot, at, bit)[i] == if i == k then slot else result[i]
  {
  }

  // ---------------------------------------------------------------------------
  // The layout of sorted records
  // ---------------------------------------------------------------------------

  /** Field ids in ascending order, duplicates allowed. */
  predicate Sorted<T>(fields: seq<(FieldId, T)>) {
    forall i, j :: 0 <= i < j < |fields| ==> fields[i].0 <= fields[j].0
  }

  /** The weaker order the loop relies on: the pages of the fields never
      go down, whatever the order of the fields within one page. */
  predicate PagesInOrder<T>(fields: seq<(FieldId, T)>) {
    forall i, j :: 0 <= i < j < |fields| ==> fields[i].0 / 64 <= fields[j].0 / 64
  }

  /** Ascending ids have ascending pages. */
  lemma SortedPagesInOrder<T>(fields: seq<(FieldId, T)>)
    requires Sorted(fields)
    ensures PagesInOrder(fields)
  {
  }

  predicate HasField<T>(fields: seq<(FieldId, T)>, id: int) {
    exists i :: 0 <= i < |fields| && fields[i].0 == id
  }

  lemma HasFieldSnoc<T>(fields: seq<(FieldId, T)>, f: (FieldId, T), id: int)
    ensures HasField(fields + [f], id) <==> HasField(fields, id) || f.0 == id
  {
    var after := fields + [f];
    if HasField(fields, id) {
      var i :| 0 <= i < |fields| && fields[i].0 == id;
      assert after[i] == fields[i];
    }
    if f.0 == id {
      assert after[|fields|] == f;
    }
  }

  /** Word `w` is presence page `p` of `fields`: bit `b` is set exactly
      when field `64 * p + b` is among them. */
  predicate IsPage<T>(w: bv64, fields: seq<(FieldId, T)>, p: nat) {
    forall b: nat | b < 64 :: Bit(w, Pos(b)) <==> HasField(fields, 64 * p + b)
  }

  /** Presence page `p` of an output of `total` words: word `total - 1 - p`. */
  function PageWord(words: seq<bv64>, p: nat): bv64
    requires p < |words|
  {
    words[|words| - 1 - p]
  }

  /** The state of the `for` loop after `k` sorted entries: their slot
      words are in place, and every presence page covers exactly them. */
  predicate Placed(entries: seq<(FieldId, bv64)>, pages: nat, k: nat, result: seq<bv64>)
    requires k <= |entries|
  {
    && |result| == |entries| + pages
    && (forall i :: 0 <= i < k ==> result[i] == entries[i].1)
    && (forall p :: 0 <= p < pages ==> IsPage(PageWord(result, p), entries[..k], p))
  }

  /** The page index of the loop after `k` sorted entries: the page of the
      last one. */
  function LastPage(entries: seq<(FieldId, bv64)>, k: nat): nat
    requires k <= |entries|
  {
    if k == 0 then 0 else entries[k - 1].0 / 64
  }

  lemma PageOfEmpty(p: nat)
    ensures IsPage<bv64>(0, [], p)
  {
    forall b: nat | b < 64
      ensures !Bit(0, Pos(b))
    {
    }
  }

  lemma SameSlot(id: nat, p: nat, b: nat)
    requires id / 64 == p && b < 64
    ensures (b == id % 64) == (id == 64 * p + b)
  {
  }

  lemma {:induction false} PageBitHere(before: seq<(FieldId, bv64)>, f: (FieldId, bv64), w: bv64, p: nat, b: nat)
    requires b < 64 && f.0 / 64 == p
    requires Bit(w, Pos(b)) <==> HasField(before, 64 * p + b)
    ensures Bit(w | Mask(f.0 % 64), Pos(b)) <==> HasField(before + [f], 64 * p + b)
  {
    var c := f.0 % 64;
    var id := 64 * p + b;
    SameSlot(f.0, p, b);
    HasFieldSnoc(before, f, id);
    OrMask(w, c, b);
  }

  /** Setting the bit of field `id` on its own page adds exactly that field. */
  lemma {:induction false} PageStepHere(before: seq<(FieldId, bv64)>, f: (FieldId, bv64), w: bv64, p: nat)
    requires IsPage(w, before, p) && f.0 / 64 == p
    ensures IsPage(w | Mask(f.0 % 64), before + [f], p)
  {
    var marked := w | Mask(f.0 % 64);
    var after := before + [f];
    forall b: nat | b < 64
      ensures Bit(marked, Pos(b)) <==> HasField(after, 64 * p + b)
    {
      PageBitHere(before, f, w, p, b);
    }
  }

  /** Every other page is unchanged by a field that is not on it. */
  lemma {:induction false} PageStepElsewhere(before: seq<(FieldId, bv64)>, f: (FieldId, bv64), w: bv64, p: nat)
    requires IsPage(w, before, p) && f.0 / 64 != p
    ensures IsPage(w, before + [f], p)
  {
    var after := before + [f];
    forall b: nat | b < 64
      ensures Bit(w, Pos(b)) <==> HasField(after, 64 * p + b)
    {
      HasFieldSnoc(before, f, 64 * p + b);
    }
  }

  /** What one iteration does to the words when entry `e` is on a
      presence page: its slot, and its bit on its page. */
  function Step(result: seq<bv64>, k: nat, e: (FieldId, bv64)): seq<bv64>
    requires k < |result| && e.0 / 64 < |result|
  {
    Store(result, k, e.1, |result| - e.0 / 64 - 1, Mask(e.0 % 64))
  }

  /** After one iteration the entry's page word has gained the entry's
      bit. */
  lemma StepHere(result: seq<bv64>, k: nat, e: (FieldId, bv64), pages: nat)
    requires k + pages < |result| && e.0 / 64 < pages
    ensures PageWord(Step(result, k, e), e.0 / 64) == PageWord(result, e.0 / 64) | Mask(e.0 % 64)
  {
    StorePage(result, k, e.1, e.0 / 64, Mask(e.0 % 64));
  }

  lemma StorePage(result: seq<bv64>, k: nat, slot: bv64, page: nat, bit: bv64)
    requires k + page + 1 < |result|
    ensures PageWord(Store(result, k, slot, |result| - page - 1, bit), page) == PageWord(result, page) | bit
  {
    StoreAt(result, k, slot, |result| - page - 1, bit);
  }

  /** Every other page word is unchanged by one iteration. */
  lemma StepElsewhere(result: seq<bv64>, k: nat, e: (FieldId, bv64), pages: nat, p: nat)
    requires k + pages < |result| && e.0 / 64 < pages && p < pages && p != e.0 / 64
    ensures PageWord(Step(result, k, e), p) == PageWord(result, p)
  {
    var i := |result| - 1 - p;
    assert i != k;
    StoreElsewhere(result, k, e.1, |result| - e.0 / 64 - 1, Mask(e.0 % 64), i);
  }

  /** One iteration keeps `Placed` when the entry's page is a presence
      page. */
  lemma {:induction false} StepKeepsPlaced(entries: seq<(FieldId, bv64)>, pages: nat, k: nat, result: seq<bv64>)
    requires k < |entries| && entries[k].0 < 64 * pages
    requires Placed(entries, pages, k, result)
    ensures Placed(entries, pages, k + 1, Step(result, k, entries[k]))
  {
    var e := entries[k];
    var next := Step(result, k, e);
    assert entries[..k + 1] == entries[..k] + [e];
    forall i | 0 <= i < k + 1
      ensures next[i] == entries[i].1
    {
      StoreElsewhere(result, k, e.1, |result| - e.0 / 64 - 1, Mask(e.0 % 64), i);
    }
    forall p | 0 <= p < pages
      ensures IsPage(PageWord(next, p), entries[..k + 1], p)
    {
      if e.0 / 64 == p {
        StepHere(result, k, e, pages);
        PageStepHere(entries[..k], e, PageWord(result, p), p);
      } else {
        StepElsewhere(result, k, e, pages, p);
        PageStepElsewhere(entries[..k], e, PageWord(result, p), p);
      }
    }
  }

  /** On input in page order within the pages, one iteration of `Place` neither
      panics nor does anything but `Step`. */
  lemma {:induction false} PlaceUnfold(entries: seq<(FieldId, bv64)>, pages: nat, k: nat, result: seq<bv64>)
    requires k < |entries| && LastPage(entries, k) <= entries[k].0 / 64
    requires entries[k].0 < 64 * pages && |result| == |entries| + pages
    ensures Place(entries, k, result, LastPage(entries, k))
         == Place(entries, k + 1, Step(result, k, entries[k]), LastPage(entries, k + 1))
  {
    var e := entries[k];
    var page := AdvancePage(LastPage(entries, k), e.0);
    assert page == e.0 / 64 == LastPage(entries, k + 1);
    assert e.0 - 64 * page == e.0 % 64;
    assert Visit(entries, k, result, LastPage(entries, k)) == Some((Step(result, k, e), page));
  }

  lemma {:induction false} PlaceSorted(entries: seq<(FieldId, bv64)>, pages: nat, k: nat, result: seq<bv64>)
    requires k <= |entries| && PagesInOrder(entries)
    requires forall i :: 0 <= i < |entries| ==> entries[i].0 < 64 * pages
    requires Placed(entries, pages, k, result)
    ensures Place(entries, k, result, LastPage(entries, k)).Success?
    ensures Placed(entries, pages, |entries|, Place(entries, k, result, LastPage(entries, k)).value)
    decreases |entries| - k
  {
    if k < |entries| {
      if k > 0 {
        assert entries[k - 1].0 / 64 <= entries[k].0 / 64;
      }
      PlaceUnfold(entries, pages, k, result);
      StepKeepsPlaced(entries, pages, k, result);
      PlaceSorted(entries, pages, k + 1, Step(result, k, entries[k]));
    }
  }

  /** The page index only moves forward, so an entry on an earlier page than
      the current index makes the shift amount negative: the loop panics. */
  lemma {:induction false} BehindPanics(entries: seq<(FieldId, bv64)>, k: nat, result: seq<bv64>, pti: nat, j: nat)
    requires k <= j < |entries| <= |result|
    requires entries[j].0 / 64 < pti
    ensures Place(entries, k, result, pti).Failure?
    decreases |entries| - k
  {
    var v := Visit(entries, k, result, pti);
    if v.Some? {
      var (next, page) := v.value;
      BehindPanics(entries, k + 1, next, page, j);
      FailureCarriesBack(entries, k, result, pti);
    }
  }

  lemma {:induction false} DescentPanics(entries: seq<(FieldId, bv64)>, k: nat, result: seq<bv64>, pti: nat, i: nat, j: nat)
    requires k <= i < j < |entries| <= |result|
    requires entries[j].0 / 64 < entries[i].0 / 64
    ensures Place(entries, k, result, pti).Failure?
    decreases |entries| - k
  {
    var v := Visit(entries, k, result, pti);
    if v.Some? {
      var (next, page) := v.value;
      if k < i {
        DescentPanics(entries, k + 1, next, page, i, j);
      } else {
        BehindPanics(entries, k + 1, next, page, j);
      }
      FailureCarriesBack(entries, k, result, pti);
    }
  }

  /** The loop panics from entry `k` on if this iteration panics, or if it
      goes through and a later one panics. */
  lemma FailureCarriesBack(entries: seq<(FieldId, bv64)>, k: nat, result: seq<bv64>, pti: nat)
    requires k < |entries| <= |result|
    requires Visit(entries, k, result, pti).Some? ==>
      var (next, page) := Visit(entries, k, result, pti).value;
      Place(entries, k + 1, next, page).Failure?
    ensures Place(entries, k, result, pti).Failure?
  {
  }

  /** The zeroed output vector `vec![0; n]`. */
  function Zeros(n: nat): (r: seq<bv64>)
    ensures |r| == n && forall i :: 0 <= i < n ==> r[i] == 0
  {
    seq(n, _ => 0)
  }

  /** For entries whose pages never go down, all on the `pages` presence pages:
      the loop runs to the end over zeroed words, leaving the slot words in
      entry order and exactly the entries' bits on each page. */
  lemma {:induction false} PlaceLayout(entries: seq<(FieldId, bv64)>, pages: nat) returns (r: seq<bv64>)
    requires PagesInOrder(entries)
    requires forall i :: 0 <= i < |entries| ==> entries[i].0 < 64 * pages
    ensures Place(entries, 0, Zeros(|entries| + pages), 0) == Success(r)
    ensures forall i :: 0 <= i < |entries| ==> r[i] == entries[i].1
    ensures forall p :: 0 <= p < pages ==> IsPage(PageWord(r, p), entries, p)
  {
    var zeros := Zeros(|entries| + pages);
    forall p | 0 <= p < pages
      ensures IsPage(PageWord(zeros, p), entries[..0], p)
    {
      PageOfEmpty(p);
      assert entries[..0] == [];
    }
    PlaceSorted(entries, pages, 0, zeros);
    assert entries[..|entries|] == entries;
    r := Place(entries, 0, zeros, 0).value;
  }
}

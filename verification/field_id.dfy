/** The field-ID minifier: a bijective base-26 numbering between `u64` field
    IDs and non-empty strings of lowercase ASCII letters (`0` is "a", `25` is
    "z", `26` is "aa").

    `ToString` is `to_string` in field_id.rs. `FromString` is its `from_string`
    as written, overflow panics included; `FromStringChecked` is the corrected
    parser, with the same loop in exact arithmetic and a final `u64` range
    check. `Numeral` is the reference reading of a letter string as a bijective
    base-26 numeral (digits `a` = 1 .. `z` = 26), and the lemmas connect all
    three. */
module FieldId {
  import opened Common

  /** `26^7`, the first power of 26 that does not fit in a `u32`. */
  const Pow26Of7: nat := 8_031_810_176

  predicate IsLetter(c: char) {
    'a' <= c <= 'z'
  }

  predicate AllLetters(s: string) {
    forall i :: 0 <= i < |s| ==> IsLetter(s[i])
  }

  /** Digit value of a letter: `a` is 1, `z` is 26 (`num - 96` in `from_string`). */
  function LetterValue(c: char): (d: nat)
    requires IsLetter(c)
    ensures 1 <= d <= 26
  {
    c as int - 96
  }

  /** Number of bytes of the UTF-8 encoding of `c`; Rust's `str::len` counts these. */
  function Utf8Width(c: char): nat {
    if c as int < 0x80 then 1
    else if c as int < 0x800 then 2
    else if c as int < 0x1_0000 then 3
    else 4
  }

  function Utf8Len(s: string): nat {
    if |s| == 0 then 0 else Utf8Width(s[0]) + Utf8Len(s[1..])
  }

  lemma {:induction false} Utf8LenBounds(s: string)
    ensures Utf8Len(s) >= |s|
    ensures AllLetters(s) ==> Utf8Len(s) == |s|
  {
    if |s| > 0 {
      Utf8LenBounds(s[1..]);
    }
  }

  // ---------------------------------------------------------------------------
  // to_string
  // ---------------------------------------------------------------------------

  /** `to_digit`: the letter whose code is `97 + n`. */
  function ToDigit(n: nat): (c: char)
    requires n < 26
    ensures IsLetter(c) && LetterValue(c) == n + 1
  {
    (97 + n) as char
  }

  /** `to_string`: emit `id % 26` as the least significant letter and continue
      with `id / 26 - 1` until the remaining value is below 26. `to_string`
      pushes letters least significant first and reverses at the end; here
      each recursive call prepends the more significant letters instead. */
  function ToString(id: nat): (s: string)
    ensures |s| >= 1
    ensures AllLetters(s)
  {
    if id < 26 then [ToDigit(id)] else ToString(id / 26 - 1) + [ToDigit(id % 26)]
  }

  // ---------------------------------------------------------------------------
  // The reference numeral
  // ---------------------------------------------------------------------------

  /** The value of an all-letter string read as a bijective base-26 numeral,
      most significant letter first. */
  function Numeral(s: string): nat
    requires AllLetters(s)
  {
    if |s| == 0 then 0 else 26 * Numeral(s[..|s| - 1]) + LetterValue(s[|s| - 1])
  }

  lemma {:induction false} NumeralPositive(s: string)
    requires AllLetters(s) && |s| >= 1
    ensures Numeral(s) >= 1
  {
  }

  lemma LettersPrefix(s: string)
    requires AllLetters(s) && |s| >= 1
    ensures AllLetters(s[..|s| - 1])
  {
    var t := s[..|s| - 1];
    forall j | 0 <= j < |t|
      ensures IsLetter(t[j])
    {
      assert t[j] == s[j];
    }
  }

  /** `to_string(id)` spells `id + 1` as a bijective base-26 numeral. */
  lemma {:induction false} ToStringNumeral(id: nat)
    ensures Numeral(ToString(id)) == id + 1
    decreases id
  {
    if id >= 26 {
      var s := ToString(id);
      assert s[..|s| - 1] == ToString(id / 26 - 1);
      ToStringNumeral(id / 26 - 1);
    }
  }

  /** Every non-empty letter string is what `to_string` produces for the value
      it spells, minus one: the mapping is onto. */
  lemma {:induction false} ToStringOfNumeral(s: string)
    requires AllLetters(s) && |s| >= 1
    ensures ToString(Numeral(s) - 1) == s
    decreases |s|
  {
    var t := s[..|s| - 1];
    var c := s[|s| - 1];
    var n := Numeral(s) - 1;
    LettersPrefix(s);
    assert s == t + [c];
    assert Numeral(s) == 26 * Numeral(t) + LetterValue(c);
    if |t| == 0 {
      assert n == LetterValue(c) - 1;
      assert ToDigit(n) == c;
    } else {
      NumeralPositive(t);
      assert n == 26 * Numeral(t) + (LetterValue(c) - 1);
      assert n % 26 == LetterValue(c) - 1 && n / 26 - 1 == Numeral(t) - 1;
      ToStringOfNumeral(t);
      assert ToDigit(n % 26) == c;
    }
  }

  /** Distinct IDs minify to distinct names. */
  lemma ToStringInjective(a: nat, b: nat)
    requires ToString(a) == ToString(b)
    ensures a == b
  {
    ToStringNumeral(a);
    ToStringNumeral(b);
  }

  /** The mappings the tests in test_field_id.rs list, one per group. */
  lemma ToStringExamples()
    ensures ToString(0) == "a" && ToString(25) == "z"
    ensures ToString(26) == "aa" && ToString(51) == "az"
    ensures ToString(78) == "ca" && ToString(675) == "yz"
    ensures ToString(701) == "zz" && ToString(702) == "aaa"
    ensures ToString(729) == "abb" && ToString(1378) == "baa"
    ensures ToString(1406) == "bbc"
  {
  }

  // ---------------------------------------------------------------------------
  // from_string, corrected
  // ---------------------------------------------------------------------------

  /** The term of a letter with digit value `d` at exponent `e`. */
  function Term(e: nat, d: nat): nat {
    Pow(26, e) * d
  }

  /** The sum `from_string` accumulates from character `i` on, in exact
      arithmetic: `Σ_{j ≥ i} LetterValue(s[j]) * 26^(|s| - 1 - j)`. */
  function PowerSum(s: string, i: nat): nat
    requires AllLetters(s) && i <= |s|
    decreases |s| - i
  {
    if i == |s| then 0 else Term(|s| - 1 - i, LetterValue(s[i])) + PowerSum(s, i + 1)
  }

  lemma {:induction false} PowerSumSnoc(t: string, c: char, i: nat)
    requires AllLetters(t) && IsLetter(c) && i <= |t|
    ensures AllLetters(t + [c])
    ensures PowerSum(t + [c], i) == 26 * PowerSum(t, i) + LetterValue(c)
    decreases |t| - i
  {
    var s := t + [c];
    assert AllLetters(s) by {
      forall j | 0 <= j < |s| ensures IsLetter(s[j]) {
        if j < |t| { assert s[j] == t[j]; }
      }
    }
    if i < |t| {
      PowerSumSnoc(t, c, i + 1);
      var e := |t| - 1 - i;
      var d := LetterValue(t[i]);
      assert s[i] == t[i];
      TermShift(e, d);
      assert PowerSum(s, i) == Term(e + 1, d) + PowerSum(s, i + 1);
      assert PowerSum(t, i) == Term(e, d) + PowerSum(t, i + 1);
    }
  }

  /** One more letter after this one multiplies its term by 26. */
  lemma TermShift(e: nat, d: nat)
    ensures Term(e + 1, d) == 26 * Term(e, d)
  {
    assert Pow(26, e + 1) == 26 * Pow(26, e);
  }

  /** The power sum of `from_string` and the numeral agree. */
  lemma {:induction false} PowerSumIsNumeral(s: string)
    requires AllLetters(s)
    ensures PowerSum(s, 0) == Numeral(s)
    decreases |s|
  {
    if |s| > 0 {
      var t := s[..|s| - 1];
      assert s == t + [s[|s| - 1]];
      PowerSumIsNumeral(t);
      PowerSumSnoc(t, s[|s| - 1], 0);
    }
  }

  /** `from_string` with exact arithmetic: the empty string and any character
      outside `a`..`z` give `None`, and so does a numeral too large for a `u64`. */
  function FromStringChecked(s: string): (r: Option<nat>)
    ensures r.Some? <==> |s| >= 1 && AllLetters(s) && Numeral(s) <= Pow2To64
    ensures r.Some? ==> r.value + 1 == Numeral(s) && r.value < Pow2To64
  {
    if |s| == 0 || !AllLetters(s) then None
    else
      PowerSumIsNumeral(s);
      NumeralPositive(s);
      var total := PowerSum(s, 0);
      if total - 1 < Pow2To64 then Some(total - 1) else None
  }

  /** The round trip the tests in test_field_id.rs check, for every `u64`. */
  lemma FromToRoundTrip(id: nat)
    requires id < Pow2To64
    ensures FromStringChecked(ToString(id)) == Some(id)
  {
    ToStringNumeral(id);
  }

  /** The other direction: a name that parses is the name of what it parses to. */
  lemma ToFromRoundTrip(s: string, id: nat)
    requires FromStringChecked(s) == Some(id)
    ensures ToString(id) == s
  {
    ToStringOfNumeral(s);
  }

  // ---------------------------------------------------------------------------
  // from_string, as written
  // ---------------------------------------------------------------------------

  /** The `for` loop of `from_string` from character `i` on: `lastIndex` is the
      `u32` `last_index`, `acc` the `u64` `result` so far, and `i` the `u32`
      `index`. Every overflowing operation panics. */
  function Scan(s: string, lastIndex: nat, i: nat, acc: nat): (r: Result<Option<nat>, Panic>)
    requires i <= |s|
    ensures r.Failure? ==> r.error == ArithmeticOverflow
    ensures r == Success(None) ==> exists j :: i <= j < |s| && !IsLetter(s[j])
    decreases |s| - i
  {
    if i == |s| then
      if acc == 0 then Failure(ArithmeticOverflow) else Success(Some(acc - 1))
    else if s[i] as int > 122 then Success(None)
    else if s[i] as int >= 97 then
      if i > lastIndex then Failure(ArithmeticOverflow)
      else if Pow(26, lastIndex - i) >= Pow2To32 then Failure(ArithmeticOverflow)
      else
        var acc' := acc + Term(lastIndex - i, s[i] as int - 96);
        if acc' >= Pow2To64 then Failure(ArithmeticOverflow)
        else if i + 1 >= Pow2To32 then Failure(ArithmeticOverflow)
        else Scan(s, lastIndex, i + 1, acc')
    else Success(None)
  }

  /** `from_string` as written. The exponent of each letter is measured from
      the string's length in UTF-8 BYTES (`str.len() as u32 - 1`), while
      letters are counted in characters. */
  function FromString(s: string): (r: Result<Option<nat>, Panic>)
    ensures |s| == 0 ==> r == Success(None)
  {
    if |s| == 0 then Success(None)
    else if Utf8Len(s) % Pow2To32 == 0 then Failure(ArithmeticOverflow)
    else Scan(s, Utf8Len(s) % Pow2To32 - 1, 0, 0)
  }

  lemma {:induction false} PowOfSevenOverflowsU32(e: nat)
    requires e >= 7
    ensures Pow(26, e) >= Pow2To32
  {
    assert Pow(26, 7) == Pow26Of7;
    PowMonotonic(26, 7, e);
  }

  lemma {:induction false} ScanSome(s: string, lastIndex: nat, i: nat, acc: nat)
    requires i <= |s|
    requires Scan(s, lastIndex, i, acc).Success? && Scan(s, lastIndex, i, acc).value.Some?
    ensures forall j :: i <= j < |s| ==> IsLetter(s[j])
    ensures i < |s| ==> |s| - 1 <= lastIndex && lastIndex - i <= 6
    ensures acc < Pow2To64 ==> Scan(s, lastIndex, i, acc).value.value < Pow2To64
    decreases |s| - i
  {
    if i < |s| {
      assert 97 <= s[i] as int <= 122;
      assert i <= lastIndex;
      if lastIndex - i >= 7 {
        PowOfSevenOverflowsU32(lastIndex - i);
      }
      var acc' := acc + Term(lastIndex - i, s[i] as int - 96);
      ScanSome(s, lastIndex, i + 1, acc');
    }
  }

  lemma {:induction false} ScanNone(s: string, lastIndex: nat, i: nat, acc: nat)
    requires i <= |s|
    requires Scan(s, lastIndex, i, acc) == Success(None)
    ensures exists j :: i <= j < |s| && !IsLetter(s[j])
    decreases |s| - i
  {
    if i < |s| && IsLetter(s[i]) {
      var acc' := acc + Term(lastIndex - i, s[i] as int - 96);
      ScanNone(s, lastIndex, i + 1, acc');
    }
  }

  /** A letter's term in the loop, `26^e * d`, for an exponent of at most 6:
      positive, at most `26^7`, and with a `u32` power. */
  lemma {:induction false} TermBound(e: nat, d: nat)
    requires e <= 6 && 1 <= d <= 26
    ensures 1 <= Term(e, d) <= Pow26Of7
    ensures Pow(26, e) < Pow2To32
  {
    PowPositive(26, e);
    PowMonotonic(26, e, 6);
    assert Pow(26, 6) * 26 == Pow26Of7;
    ScaleUp(d, Pow(26, e));
    assert Pow(26, e) * d <= Pow(26, e) * 26 <= Pow(26, 6) * 26;
  }

  /** One more term keeps the accumulator within `(i + 1) * 26^7`. */
  lemma AccStep(acc: nat, i: nat, t: nat)
    requires i < 7 && i <= acc <= i * Pow26Of7 && 1 <= t <= Pow26Of7
    ensures i + 1 <= acc + t <= (i + 1) * Pow26Of7 < Pow2To64
  {
  }

  /** On a string of at most 7 bytes, no operation of the loop overflows. */
  lemma {:induction false} ScanShortNoPanic(s: string, lastIndex: nat, i: nat, acc: nat)
    requires 1 <= |s| <= lastIndex + 1 <= 7
    requires i <= |s|
    requires i <= acc <= i * Pow26Of7
    ensures Scan(s, lastIndex, i, acc).Success?
    decreases |s| - i
  {
    if i < |s| && 97 <= s[i] as int <= 122 {
      var e := lastIndex - i;
      var d := s[i] as int - 96;
      TermBound(e, d);
      var t := Term(e, d);
      AccStep(acc, i, t);
      ScanShortNoPanic(s, lastIndex, i + 1, acc + t);
    }
  }

  /** Whenever `from_string` does not panic, it returns what the corrected
      parser returns: a value only for an all-letter string, and that value
      is the numeral minus one. */
  lemma FromStringAgrees(s: string)
    requires FromString(s).Success?
    ensures FromString(s).value == FromStringChecked(s)
  {
    if |s| > 0 {
      var lastIndex := Utf8Len(s) % Pow2To32 - 1;
      match FromString(s).value
      case None =>
        ScanNone(s, lastIndex, 0, 0);
      case Some(v) =>
        ScanSome(s, lastIndex, 0, 0);
        assert AllLetters(s);
        assert v < Pow2To64;
        Utf8LenBounds(s);
        assert |s| <= 7 && lastIndex == |s| - 1;
        ScanValue(s, 0, 0);
    }
  }

  /** One letter step of the loop, when the loop ends in a value. */
  lemma ScanStep(s: string, lastIndex: nat, i: nat, acc: nat)
    requires i < |s| && IsLetter(s[i])
    requires Scan(s, lastIndex, i, acc).Success? && Scan(s, lastIndex, i, acc).value.Some?
    ensures i <= lastIndex
    ensures Scan(s, lastIndex, i, acc)
         == Scan(s, lastIndex, i + 1, acc + Term(lastIndex - i, LetterValue(s[i])))
  {
  }

  /** The letters-only run of the loop accumulates exactly the power sum. */
  lemma {:induction false} ScanValue(s: string, i: nat, acc: nat)
    requires AllLetters(s) && 1 <= |s| && i <= |s|
    requires Scan(s, |s| - 1, i, acc).Success? && Scan(s, |s| - 1, i, acc).value.Some?
    ensures Scan(s, |s| - 1, i, acc).value.value + 1 == acc + PowerSum(s, i)
    decreases |s| - i
  {
    if i < |s| {
      ScanStep(s, |s| - 1, i, acc);
      ScanValue(s, i + 1, acc + Term(|s| - 1 - i, LetterValue(s[i])));
    }
  }

  /** A name of at most 7 bytes never makes `from_string` panic; with
      `FromStringAgrees` this makes it exactly the corrected parser there. */
  lemma FromStringShort(s: string)
    requires Utf8Len(s) <= 7
    ensures FromString(s) == Success(FromStringChecked(s))
  {
    if |s| > 0 {
      var n := Utf8Len(s);
      Utf8LenBounds(s);
      assert 1 <= |s| <= n <= 7;
      ScanShortNoPanic(s, n - 1, 0, 0);
      assert n % Pow2To32 == n;
      assert FromString(s) == Scan(s, n - 1, 0, 0);
      FromStringAgrees(s);
    }
  }

  /** A single character: a letter parses to its digit value minus one,
      anything else is no field ID (the one-character cases of the tests in
      test_field_id.rs, `"a"`, `"A"` and every other character below 255 among them). */
  lemma SingleCharacter(c: char)
    ensures FromString([c]) == Success(if IsLetter(c) then Some(LetterValue(c) - 1) else None)
  {
    var s := [c];
    assert Utf8Len(s) == Utf8Width(c);
    if IsLetter(c) {
      var d := LetterValue(c);
      assert Term(0, d) == d;
      assert Scan(s, 0, 1, d) == Success(Some(d - 1));
      assert Scan(s, 0, 0, 0) == Scan(s, 0, 1, d);
    }
  }

  // ---------------------------------------------------------------------------
  // The round trip as written
  // ---------------------------------------------------------------------------

  /** The numerals of `n` letters: from `a...a` ... */
  function MinNumeral(n: nat): nat {
    if n == 0 then 0 else 26 * MinNumeral(n - 1) + 1
  }

  /** ... to `z...z`. */
  function MaxNumeral(n: nat): nat {
    if n == 0 then 0 else 26 * MaxNumeral(n - 1) + 26
  }

  lemma {:induction false} NumeralBounds(s: string)
    requires AllLetters(s)
    ensures MinNumeral(|s|) <= Numeral(s) <= MaxNumeral(|s|)
    decreases |s|
  {
    if |s| > 0 {
      LettersPrefix(s);
      NumeralBounds(s[..|s| - 1]);
    }
  }

  /** Eight or more letters spell at least `8353082583`, the numeral of
      "aaaaaaaa". */
  lemma {:induction false} MinNumeralOfEight(n: nat)
    requires n >= 8
    ensures MinNumeral(n) >= 8_353_082_583
  {
    if n > 8 {
      MinNumeralOfEight(n - 1);
    } else {
      assert MinNumeral(7) == 321_272_407;
    }
  }

  /** Seven or fewer letters spell at most `8353082582`, the numeral of
      "zzzzzzz". */
  lemma {:induction false} MaxNumeralOfSeven(n: nat)
    requires n <= 7
    ensures MaxNumeral(n) <= 8_353_082_582
    decreases 7 - n
  {
    if n < 7 {
      MaxNumeralOfSeven(n + 1);
    } else {
      assert MaxNumeral(6) == 321_272_406;
    }
  }

  /** The loop runs past `last_index` on a letters-only string longer than
      `last_index + 1`: the `u32` subtraction `last_index - index`
      underflows unless something overflowed before. */
  lemma {:induction false} ScanRunsOut(s: string, lastIndex: nat, i: nat, acc: nat)
    requires i <= lastIndex + 1 < |s|
    requires forall j :: i <= j < |s| ==> IsLetter(s[j])
    ensures Scan(s, lastIndex, i, acc) == Failure(ArithmeticOverflow)
    decreases |s| - i
  {
    if i <= lastIndex && Pow(26, lastIndex - i) < Pow2To32 {
      assert IsLetter(s[i]);
      var acc' := acc + Term(lastIndex - i, s[i] as int - 96);
      if acc' < Pow2To64 && i + 1 < Pow2To32 {
        ScanRunsOut(s, lastIndex, i + 1, acc');
      }
    }
  }

  /** Every name of eight or more letters makes `from_string` panic. */
  lemma LongNamePanics(s: string)
    requires AllLetters(s) && |s| >= 8
    ensures FromString(s) == Failure(ArithmeticOverflow)
  {
    Utf8LenBounds(s);
    var len := |s| % Pow2To32;
    if len != 0 {
      if len == |s| {
        assert IsLetter(s[0]);
        PowOfSevenOverflowsU32(len - 1);
      } else {
        ScanRunsOut(s, len - 1, 0, 0);
      }
    }
  }

  /** The round trip of the tests in test_field_id.rs, as written: it
      holds exactly for the IDs whose names have at most seven letters, and
      every larger ID panics. */
  lemma RoundTripAsWritten(id: nat)
    requires id < Pow2To64
    ensures FromString(ToString(id))
         == if id < 8_353_082_582 then Success(Some(id)) else Failure(ArithmeticOverflow)
  {
    var s := ToString(id);
    ToStringNumeral(id);
    NumeralBounds(s);
    Utf8LenBounds(s);
    if id < 8_353_082_582 {
      if |s| >= 8 {
        MinNumeralOfEight(|s|);
      }
      FromStringShort(s);
      FromToRoundTrip(id);
    } else {
      if |s| <= 7 {
        MaxNumeralOfSeven(|s|);
      }
      LongNamePanics(s);
    }
  }

  /** FINDING, as written: the name of `8353082582` is "aaaaaaaa", yet
      `from_string("aaaaaaaa")` panics computing `26u32.pow(7)`, so the round
      trip fails for every ID whose name has 8 or more letters. */
  lemma EightLetterNamePanics()
    ensures ToString(8_353_082_582) == "aaaaaaaa"
    ensures FromString("aaaaaaaa") == Failure(ArithmeticOverflow)
    ensures FromStringChecked("aaaaaaaa") == Some(8_353_082_582)
  {
    EightLetterName();
    EightLettersOverflow();
    ToStringNumeral(8_353_082_582);
  }

  /** With eight letters the first exponent is 7, and `26u32.pow(7)` already
      overflows. */
  lemma EightLettersOverflow()
    ensures FromString("aaaaaaaa") == Failure(ArithmeticOverflow)
  {
    var s := "aaaaaaaa";
    assert Utf8Len(s) == 8;
    assert Pow(26, 7) == Pow26Of7;
    assert FromString(s) == Scan(s, 7, 0, 0);
  }

  /** The first ID whose name has eight letters. */
  lemma EightLetterName()
    ensures ToString(8_353_082_582) == "aaaaaaaa"
  {
    assert ToString(0) == "a";
    AppendA(0);
    assert ToString(26) == "aa";
    AppendA(26);
    assert ToString(702) == "aaa";
    AppendA(702);
    assert ToString(18_278) == "aaaa";
    AppendA(18_278);
    assert ToString(475_254) == "aaaaa";
    AppendA(475_254);
    assert ToString(12_356_630) == "aaaaaa";
    AppendA(12_356_630);
    assert ToString(321_272_406) == "aaaaaaa";
    AppendA(321_272_406);
  }

  /** Appending `a` to a name multiplies its numeral by 26. */
  lemma AppendA(n: nat)
    ensures ToString(26 * n + 26) == ToString(n) + "a"
  {
    assert (26 * n + 26) / 26 - 1 == n && (26 * n + 26) % 26 == 0;
  }

  /** FINDING, as written: "aéééé" must be rejected because `é` is not a
      letter, but its 9 UTF-8 bytes give the leading `a` the exponent 8, and
      `from_string` panics before it reaches the `é`. */
  lemma MultiByteNamePanics()
    ensures FromString("aéééé") == Failure(ArithmeticOverflow)
    ensures FromStringChecked("aéééé") == None
  {
    assert Utf8Len("aéééé") == 9;
    PowOfSevenOverflowsU32(8);
    assert !IsLetter("aéééé"[1]);
  }
}

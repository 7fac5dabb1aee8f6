/**
 * What the string scanner of the in-memory reader promises: the borrowed
 * fast path, the error for each malformed input, the escape letters, the
 * surrogate-pair rules, and how its decoding and skipping loops both
 * reject a raw control byte. That the skipping loop accepts every string the validating
 * decoder accepts is `StringBodyFacts.IgnoreAgrees`.
 */
module ReaderFacts {
  import opened Common
  import opened Errors
  import Utf8
  import opened Reader

  /** The verbatim run from `i` ends at `j` when `j` is the first stop byte. */
  lemma SkipPlainIs(slice: Bytes, i: nat, j: nat)
    requires i <= j <= |slice|
    requires forall k :: i <= k < j ==> !EscapeStop(slice[k])
    requires j == |slice| || EscapeStop(slice[j])
    ensures SkipPlain(slice, i) == j
    decreases j - i
  {
    if i < j {
      SkipPlainIs(slice, i + 1, j);
    }
  }

  /** No quote or backslash before `q`, and (when validating) no control byte. */
  predicate PlainUpTo(slice: Bytes, i: nat, q: nat, validate: bool)
    requires i <= q <= |slice|
  {
    forall k :: i <= k < q ==> slice[k] != QUOTE && slice[k] != BACKSLASH && (validate ==> slice[k] >= 0x20)
  }

  /** The outer loop first skips the verbatim run, then looks at the byte that stopped it. */
  lemma LoopSkips(r: SliceRead, rj: SliceRead, start: nat, scratch: Bytes, validate: bool, checkUtf8: bool)
    requires start <= r.index
    requires rj == Cursor(r.slice, SkipPlain(r.slice, r.index))
    ensures start <= rj.index
    ensures ParseStrLoop(r, start, scratch, validate, checkUtf8) == AtStop(rj, start, scratch, validate, checkUtf8)
  {
  }

  /** A closing quote finishes the string: borrowed when nothing was copied yet. */
  lemma StopAtQuote(r: SliceRead, r1: SliceRead, start: nat, scratch: Bytes, validate: bool, checkUtf8: bool)
    requires start <= r.index < |r.slice| && r.slice[r.index] == QUOTE
    requires r1 == Cursor(r.slice, r.index + 1)
    ensures |scratch| == 0 ==>
              AtStop(r, start, scratch, validate, checkUtf8) == Finish(r1, Borrowed(r.slice[start..r.index]), checkUtf8)
    ensures |scratch| > 0 ==>
              AtStop(r, start, scratch, validate, checkUtf8) == Finish(r1, Copied(scratch + r.slice[start..r.index]), checkUtf8)
  {
    if |scratch| == 0 {
      assert AtStop(r, start, scratch, validate, checkUtf8) == Finish(r1, Borrowed(r.slice[start..r.index]), checkUtf8);
    } else {
      assert AtStop(r, start, scratch, validate, checkUtf8) == Finish(r1, Copied(scratch + r.slice[start..r.index]), checkUtf8);
    }
  }

  /** A raw control byte: an error just after it when validating, else part of the run. */
  lemma StopAtControl(r: SliceRead, r1: SliceRead, start: nat, scratch: Bytes, validate: bool, checkUtf8: bool)
    requires start <= r.index < |r.slice| && r.slice[r.index] < 0x20
    requires r1 == Cursor(r.slice, r.index + 1)
    ensures validate ==>
              AtStop(r, start, scratch, validate, checkUtf8) == Failure(ErrorAt(r1, ControlCharacterWhileParsingString))
    ensures !validate ==>
              AtStop(r, start, scratch, validate, checkUtf8) == ParseStrLoop(r1, start, scratch, validate, checkUtf8)
  {
    assert r.slice[r.index] != QUOTE && r.slice[r.index] != BACKSLASH;
    assert Discard(r) == r1;
    if validate {
      assert AtStop(r, start, scratch, validate, checkUtf8) == Failure(ErrorAt(r1, ControlCharacterWhileParsingString));
    } else {
      assert AtStop(r, start, scratch, validate, checkUtf8) == ParseStrLoop(r1, start, scratch, validate, checkUtf8);
    }
  }

  /**
   * A backslash: the run so far is appended to the scratch buffer, the
   * escape is decoded after it, and the loop resumes with a new run.
   */
  lemma StopAtBackslash(r: SliceRead, r1: SliceRead, start: nat, scratch: Bytes, validate: bool, checkUtf8: bool)
    requires start <= r.index < |r.slice| && r.slice[r.index] == BACKSLASH
    requires r1 == Cursor(r.slice, r.index + 1)
    ensures var e := ParseEscape(r1, validate, scratch + r.slice[start..r.index]);
            e.Failure? ==> AtStop(r, start, scratch, validate, checkUtf8) == Failure(e.error)
    ensures var e := ParseEscape(r1, validate, scratch + r.slice[start..r.index]);
            e.Success? ==>
              AtStop(r, start, scratch, validate, checkUtf8) ==
              ParseStrLoop(e.value.0, e.value.0.index, e.value.1, validate, checkUtf8)
  {
    assert Discard(r) == r1;
    assert AtStop(r, start, scratch, validate, checkUtf8) == AtBackslash(r, start, scratch, validate, checkUtf8);
    var e := ParseEscape(r1, validate, scratch + r.slice[start..r.index]);
    if e.Failure? {
      assert AtBackslash(r, start, scratch, validate, checkUtf8) == Failure(e.error);
    } else {
      var res := ParseStrLoop(e.value.0, e.value.0.index, e.value.1, validate, checkUtf8);
      assert AtBackslash(r, start, scratch, validate, checkUtf8) == res;
    }
  }

  /** Once an escape has been decoded the string can only come back copied. */
  lemma EscapedIsCopied(r: SliceRead, start: nat, scratch: Bytes, validate: bool, checkUtf8: bool)
    requires start <= r.index < |r.slice| && r.slice[r.index] == BACKSLASH
    ensures var res := AtStop(r, start, scratch, validate, checkUtf8);
            res.Success? ==> res.value.0.Copied? && |res.value.0.copied| > 0
  {
    assert AtStop(r, start, scratch, validate, checkUtf8) == AtBackslash(r, start, scratch, validate, checkUtf8);
  }

  /** The end of the input where a byte was expected. */
  lemma StopAtEnd(r: SliceRead, start: nat, scratch: Bytes, validate: bool, checkUtf8: bool)
    requires start <= r.index == |r.slice|
    ensures AtStop(r, start, scratch, validate, checkUtf8) == Failure(ErrorAt(r, EofWhileParsingString))
  {
  }

  lemma {:induction false} PlainLoop(r: SliceRead, start: nat, q: nat, scratch: Bytes, validate: bool, checkUtf8: bool)
    requires start <= r.index <= q < |r.slice| && r.slice[q] == QUOTE
    requires PlainUpTo(r.slice, r.index, q, validate)
    ensures |scratch| == 0 ==>
              ParseStrLoop(r, start, scratch, validate, checkUtf8) ==
              Finish(Cursor(r.slice, q + 1), Borrowed(r.slice[start..q]), checkUtf8)
    ensures |scratch| > 0 ==>
              ParseStrLoop(r, start, scratch, validate, checkUtf8) ==
              Finish(Cursor(r.slice, q + 1), Copied(scratch + r.slice[start..q]), checkUtf8)
    decreases q - r.index
  {
    var rj: SliceRead := Cursor(r.slice, SkipPlain(r.slice, r.index));
    var r1: SliceRead := Cursor(r.slice, rj.index + 1);
    LoopSkips(r, rj, start, scratch, validate, checkUtf8);
    if rj.index < q {
      StopAtControl(rj, r1, start, scratch, validate, checkUtf8);
      PlainLoop(r1, start, q, scratch, validate, checkUtf8);
    } else {
      SkipPlainIs(r.slice, r.index, q);
      StopAtQuote(rj, r1, start, scratch, validate, checkUtf8);
    }
  }

  /**
   * The fast path: with no backslash before the closing quote at `q` (and,
   * when validating, no control byte), the string is borrowed from the
   * input as is, and the cursor ends just past the quote. Without
   * validation, control bytes are kept verbatim.
   */
  lemma BorrowedWhenPlain(r: SliceRead, q: nat, validate: bool)
    requires r.index <= q < |r.slice| && r.slice[q] == QUOTE
    requires PlainUpTo(r.slice, r.index, q, validate)
    ensures ParseStrBytes(r, [], validate, false) == Success((Borrowed(r.slice[r.index..q]), Cursor(r.slice, q + 1)))
  {
    PlainLoop(r, r.index, q, [], validate, false);
  }

  /** Text already in the scratch buffer makes the same run come back copied after it. */
  lemma CopiedAfterScratch(r: SliceRead, q: nat, scratch: Bytes, validate: bool)
    requires r.index <= q < |r.slice| && r.slice[q] == QUOTE
    requires PlainUpTo(r.slice, r.index, q, validate) && |scratch| > 0
    ensures ParseStrBytes(r, scratch, validate, false) ==
              Success((Copied(scratch + r.slice[r.index..q]), Cursor(r.slice, q + 1)))
  {
    PlainLoop(r, r.index, q, scratch, validate, false);
  }

  lemma {:induction false} UnterminatedLoop(r: SliceRead, start: nat, scratch: Bytes, validate: bool, checkUtf8: bool)
    requires start <= r.index
    requires PlainUpTo(r.slice, r.index, |r.slice|, validate)
    ensures ParseStrLoop(r, start, scratch, validate, checkUtf8) ==
              Failure(ErrorAt(Cursor(r.slice, |r.slice|), EofWhileParsingString))
    decreases |r.slice| - r.index
  {
    var rj: SliceRead := Cursor(r.slice, SkipPlain(r.slice, r.index));
    LoopSkips(r, rj, start, scratch, validate, checkUtf8);
    if rj.index < |r.slice| {
      var r1: SliceRead := Cursor(r.slice, rj.index + 1);
      StopAtControl(rj, r1, start, scratch, validate, checkUtf8);
      UnterminatedLoop(r1, start, scratch, validate, checkUtf8);
    } else {
      StopAtEnd(rj, start, scratch, validate, checkUtf8);
    }
  }

  /** A string that runs off the end of the input fails there with `EofWhileParsingString`. */
  lemma MissingQuote(r: SliceRead, scratch: Bytes, validate: bool, checkUtf8: bool)
    requires PlainUpTo(r.slice, r.index, |r.slice|, validate)
    ensures ParseStrBytes(r, scratch, validate, checkUtf8) ==
              Failure(ErrorAt(Cursor(r.slice, |r.slice|), EofWhileParsingString))
  {
    UnterminatedLoop(r, r.index, scratch, validate, checkUtf8);
  }

  /** With validation, the first raw control byte fails the string, reported just after it. */
  lemma ControlByteRejected(r: SliceRead, j: nat, scratch: Bytes, checkUtf8: bool)
    requires r.index <= j < |r.slice| && r.slice[j] < 0x20
    requires forall k :: r.index <= k < j ==> !EscapeStop(r.slice[k])
    ensures ParseStrBytes(r, scratch, true, checkUtf8) ==
              Failure(ErrorAt(Cursor(r.slice, j + 1), ControlCharacterWhileParsingString))
    ensures IgnoreStr(r) == Failure(ErrorAt(Cursor(r.slice, j), ControlCharacterWhileParsingString))
  {
    SkipPlainIs(r.slice, r.index, j);
    ControlStops(r, j, scratch, checkUtf8);
    ControlIgnored(r, j);
  }

  lemma ControlStops(r: SliceRead, j: nat, scratch: Bytes, checkUtf8: bool)
    requires r.index <= j < |r.slice| && r.slice[j] < 0x20 && SkipPlain(r.slice, r.index) == j
    ensures ParseStrBytes(r, scratch, true, checkUtf8) ==
              Failure(ErrorAt(Cursor(r.slice, j + 1), ControlCharacterWhileParsingString))
  {
    var c := Cursor(r.slice, j);
    LoopSkips(r, c, r.index, scratch, true, checkUtf8);
    assert AtStop(c, r.index, scratch, true, checkUtf8) == Failure(ErrorAt(Discard(c), ControlCharacterWhileParsingString));
  }

  lemma ControlIgnored(r: SliceRead, j: nat)
    requires r.index <= j < |r.slice| && r.slice[j] < 0x20 && SkipPlain(r.slice, r.index) == j
    ensures IgnoreStr(r) == Failure(ErrorAt(Cursor(r.slice, j), ControlCharacterWhileParsingString))
  {
    assert IgnoreStr(r) == IgnoreAtStop(Cursor(r.slice, j));
  }

  /** The eight short escapes decode to their byte and consume just the letter. */
  lemma ShortEscapeDecodes(r: SliceRead, validate: bool, scratch: Bytes)
    requires r.index < |r.slice| && ShortEscape(r.slice[r.index]).Some?
    ensures ParseEscape(r, validate, scratch) ==
              Success((Cursor(r.slice, r.index + 1), scratch + [ShortEscape(r.slice[r.index]).value]))
    ensures IgnoreEscape(r) == Success(Cursor(r.slice, r.index + 1))
  {
  }

  /** The bytes the eight short escape letters stand for. */
  lemma ShortEscapeTable()
    ensures ShortEscape(QUOTE) == Some(QUOTE) && ShortEscape(BACKSLASH) == Some(BACKSLASH)
    ensures ShortEscape(SLASH) == Some(SLASH)
    ensures ShortEscape(0x62) == Some(0x08) && ShortEscape(0x66) == Some(0x0C)
    ensures ShortEscape(0x6E) == Some(0x0A) && ShortEscape(0x72) == Some(0x0D)
    ensures ShortEscape(0x74) == Some(0x09)
  {
  }

  /** Any other letter than the eight and `u` fails with `InvalidEscape`, reported after it. */
  lemma UnknownEscapeRejected(r: SliceRead, validate: bool, scratch: Bytes)
    requires r.index < |r.slice| && ShortEscape(r.slice[r.index]).None? && r.slice[r.index] != 0x75
    ensures ParseEscape(r, validate, scratch) == Failure(ErrorAt(Cursor(r.slice, r.index + 1), InvalidEscape))
    ensures IgnoreEscape(r) == Failure(ErrorAt(Cursor(r.slice, r.index + 1), InvalidEscape))
  {
  }

  /** A backslash at the very end of the input fails with `EofWhileParsingString`. */
  lemma EscapeAtEnd(r: SliceRead, validate: bool, scratch: Bytes)
    requires r.index == |r.slice|
    ensures ParseEscape(r, validate, scratch) == Failure(ErrorAt(r, EofWhileParsingString))
  {
  }

  /** The first steps of `parse_escape` on `u`: read the letter, then four hex digits. */
  lemma UnicodeEscapeStep(r: SliceRead, validate: bool, scratch: Bytes, n: nat)
    requires r.index < |r.slice| && r.slice[r.index] == 0x75
    requires DecodeHexEscape(Cursor(r.slice, r.index + 1)) == Success((n, Cursor(r.slice, r.index + 5)))
    ensures n < 0x1_0000
    ensures ParseEscape(r, validate, scratch) == CodeUnit(Cursor(r.slice, r.index + 5), n, validate, scratch)
  {
    var r1: SliceRead := Cursor(r.slice, r.index + 1);
    var r5: SliceRead := Cursor(r.slice, r.index + 5);
    LetterU(r, validate, scratch);
    HexEscapeRead(r1, r5, validate, scratch, n);
  }

  lemma LetterU(r: SliceRead, validate: bool, scratch: Bytes)
    requires r.index < |r.slice| && r.slice[r.index] == 0x75
    ensures ParseEscape(r, validate, scratch) == ParseHexEscape(Cursor(r.slice, r.index + 1), validate, scratch)
  {
    assert NextOrEof(r) == Success((0x75, Cursor(r.slice, r.index + 1)));
  }

  lemma HexEscapeRead(r: SliceRead, r': SliceRead, validate: bool, scratch: Bytes, n: nat)
    requires DecodeHexEscape(r) == Success((n, r'))
    ensures n < 0x1_0000
    ensures ParseHexEscape(r, validate, scratch) == CodeUnit(r', n, validate, scratch)
  {
  }

  /** `\u` with `n` that is not a surrogate appends the UTF-8 encoding of `n`. */
  lemma BmpEscape(r: SliceRead, validate: bool, scratch: Bytes, n: nat)
    requires r.index < |r.slice| && r.slice[r.index] == 0x75
    requires DecodeHexEscape(Cursor(r.slice, r.index + 1)) == Success((n, Cursor(r.slice, r.index + 5)))
    requires n < 0xD800 || n > 0xDFFF
    ensures Utf8.IsScalar(n)
    ensures ParseEscape(r, validate, scratch) == Success((Cursor(r.slice, r.index + 5), scratch + Utf8.Encode(n)))
  {
    UnicodeEscapeStep(r, validate, scratch, n);
  }

  /** A high surrogate code unit waits for its partner. */
  lemma HighCodeUnit(r: SliceRead, validate: bool, scratch: Bytes, n1: nat)
    requires 0xD800 <= n1 <= 0xDBFF
    ensures CodeUnit(r, n1, validate, scratch) == HighSurrogate(r, n1, validate, scratch)
  {
  }

  /** At `r`: `u` and four hex digits that spell the high surrogate `n`. */
  predicate HighEscapeAt(r: SliceRead, n: nat) {
    && r.index + 5 <= |r.slice| && r.slice[r.index] == 0x75
    && DecodeHexEscape(Cursor(r.slice, r.index + 1)) == Success((n, Cursor(r.slice, r.index + 5)))
    && 0xD800 <= n <= 0xDBFF
  }

  /** A `\u` escape of a high surrogate: what follows is the search for its partner. */
  lemma HighPrefix(r: SliceRead, validate: bool, scratch: Bytes, n: nat)
    requires HighEscapeAt(r, n)
    ensures ParseEscape(r, validate, scratch) == HighSurrogate(Cursor(r.slice, r.index + 5), n, validate, scratch)
  {
    UnicodeEscapeStep(r, validate, scratch, n);
    HighCodeUnit(Cursor(r.slice, r.index + 5), validate, scratch, n);
  }

  /** After the high surrogate, a byte other than a backslash ends the pair early. */
  lemma OtherAt(r: SliceRead, validate: bool, scratch: Bytes, n: nat)
    requires HighEscapeAt(r, n) && r.index + 5 < |r.slice| && r.slice[r.index + 5] != BACKSLASH
    ensures validate ==>
              HighSurrogate(Cursor(r.slice, r.index + 5), n, validate, scratch) ==
              Failure(ErrorAt(Cursor(r.slice, r.index + 6), UnexpectedEndOfHexEscape))
    ensures !validate ==>
              HighSurrogate(Cursor(r.slice, r.index + 5), n, validate, scratch) ==
              Success((Cursor(r.slice, r.index + 5), scratch + Utf8.ThreeBytes(n)))
  {
    var r5: SliceRead := Cursor(r.slice, r.index + 5);
    assert PeekOrEof(r5) == Success(r.slice[r.index + 5]);
    assert Discard(r5) == Cursor(r.slice, r.index + 6);
  }

  /** After the high surrogate, a backslash is consumed and `u` is looked for. */
  lemma BackslashAt(r: SliceRead, validate: bool, scratch: Bytes, n: nat)
    requires HighEscapeAt(r, n) && r.index + 5 < |r.slice| && r.slice[r.index + 5] == BACKSLASH
    ensures HighSurrogate(Cursor(r.slice, r.index + 5), n, validate, scratch) ==
            AfterBackslash(Cursor(r.slice, r.index + 6), n, validate, scratch)
  {
    var r5: SliceRead := Cursor(r.slice, r.index + 5);
    assert PeekOrEof(r5) == Success(BACKSLASH);
    assert Discard(r5) == Cursor(r.slice, r.index + 6);
  }

  /** After the high surrogate and a backslash, a letter other than `u`. */
  lemma OtherLetterAt(r: SliceRead, validate: bool, scratch: Bytes, n: nat)
    requires HighEscapeAt(r, n) && r.index + 6 < |r.slice| && r.slice[r.index + 6] != 0x75
    ensures validate ==>
              AfterBackslash(Cursor(r.slice, r.index + 6), n, validate, scratch) ==
              Failure(ErrorAt(Cursor(r.slice, r.index + 7), UnexpectedEndOfHexEscape))
    ensures !validate ==>
              AfterBackslash(Cursor(r.slice, r.index + 6), n, validate, scratch) ==
              ParseEscape(Cursor(r.slice, r.index + 6), validate, scratch + Utf8.ThreeBytes(n))
  {
    var r6: SliceRead := Cursor(r.slice, r.index + 6);
    assert PeekOrEof(r6) == Success(r.slice[r.index + 6]);
    assert Discard(r6) == Cursor(r.slice, r.index + 7);
  }

  /** After the high surrogate and a backslash, `u` is consumed and the low half read. */
  lemma LetterUAt(r: SliceRead, validate: bool, scratch: Bytes, n: nat)
    requires HighEscapeAt(r, n) && r.index + 6 < |r.slice| && r.slice[r.index + 6] == 0x75
    ensures AfterBackslash(Cursor(r.slice, r.index + 6), n, validate, scratch) ==
            LowHalf(Cursor(r.slice, r.index + 7), n, scratch)
  {
    var r6: SliceRead := Cursor(r.slice, r.index + 6);
    assert PeekOrEof(r6) == Success(0x75);
    assert Discard(r6) == Cursor(r.slice, r.index + 7);
  }

  /** The low half after `\u`: a low surrogate completes the pair, anything else is an error. */
  lemma LowHalfAt(r: SliceRead, scratch: Bytes, n1: nat, n2: nat)
    requires HighEscapeAt(r, n1) && r.index + 7 <= |r.slice|
    requires DecodeHexEscape(Cursor(r.slice, r.index + 7)) == Success((n2, Cursor(r.slice, r.index + 11)))
    ensures 0xDC00 <= n2 <= 0xDFFF ==>
              LowHalf(Cursor(r.slice, r.index + 7), n1, scratch) ==
              Success((Cursor(r.slice, r.index + 11), scratch + Utf8.Encode(CombineSurrogates(n1, n2))))
    ensures !(0xDC00 <= n2 <= 0xDFFF) ==>
              LowHalf(Cursor(r.slice, r.index + 7), n1, scratch) ==
              Failure(ErrorAt(Cursor(r.slice, r.index + 11), LoneLeadingSurrogateInHexEscape))
  {
    hide Utf8.Encode, CombineSurrogates, DecodeHexEscape, ParseEscape, AfterBackslash;
  }

  /** `parse_escape` at `r` succeeds, leaving the reader at `r'` with `out` as the scratch buffer. */
  predicate EscapeReads(r: SliceRead, validate: bool, scratch: Bytes, r': SliceRead, out: Bytes) {
    ParseEscape(r, validate, scratch) == Success((r', out))
  }

  /**
   * A high surrogate, `\u`, and a low surrogate append the UTF-8 encoding
   * of the code point the pair stands for (section 2.2 of RFC 2781).
   */
  lemma SurrogatePair(r: SliceRead, validate: bool, scratch: Bytes, n1: nat, n2: nat)
    requires r.index + 11 <= |r.slice| && r.slice[r.index] == 0x75
    requires DecodeHexEscape(Cursor(r.slice, r.index + 1)) == Success((n1, Cursor(r.slice, r.index + 5)))
    requires 0xD800 <= n1 <= 0xDBFF
    requires r.slice[r.index + 5] == BACKSLASH && r.slice[r.index + 6] == 0x75
    requires DecodeHexEscape(Cursor(r.slice, r.index + 7)) == Success((n2, Cursor(r.slice, r.index + 11)))
    requires 0xDC00 <= n2 <= 0xDFFF
    ensures EscapeReads(r, validate, scratch, Cursor(r.slice, r.index + 11), scratch + Utf8.Encode(CombineSurrogates(n1, n2)))
  {
    hide ParseEscape, ParseHexEscape, CodeUnit, HighSurrogate, AfterBackslash, LowHalf, DecodeHexEscape, HexLoop, Utf8.Encode, CombineSurrogates;
    LowHalfAt(r, scratch, n1, n2);
    PairPrefix(r, validate, scratch, n1);
  }

  /** `\ud83d\ude00` is U+1F600, written as the four bytes F0 9F 98 80. */
  lemma SurrogatePairExample(s: Bytes, validate: bool)
    requires |s| >= 11 && s[..11] == [0x75] + Hex4(0xD83D) + [BACKSLASH, 0x75] + Hex4(0xDE00)
    ensures EscapeReads(Cursor(s, 0), validate, [], Cursor(s, 11), [0xF0, 0x9F, 0x98, 0x80])
  {
    PairLayout(s);
    SurrogatePair(Cursor(s, 0), validate, [], 0xD83D, 0xDE00);
    assert CombineSurrogates(0xD83D, 0xDE00) == 0x1_F600;
    EncodeU1F600();
    assert [] + Utf8.Encode(0x1_F600) == [0xF0, 0x9F, 0x98, 0x80];
  }

  lemma PairLayout(s: Bytes)
    requires |s| >= 11 && s[..11] == [0x75] + Hex4(0xD83D) + [BACKSLASH, 0x75] + Hex4(0xDE00)
    ensures s[0] == 0x75 && s[5] == BACKSLASH && s[6] == 0x75
    ensures DecodeHexEscape(Cursor(s, 1)) == Success((0xD83D, Cursor(s, 5)))
    ensures DecodeHexEscape(Cursor(s, 7)) == Success((0xDE00, Cursor(s, 11)))
  {
    var t := s[..11];
    assert s[0] == t[0] == 0x75;
    assert s[5] == t[5] == BACKSLASH && s[6] == t[6] == 0x75;
    assert s[1..5] == t[1..5] == Hex4(0xD83D);
    assert s[7..11] == t[7..11] == Hex4(0xDE00);
    DecodeHex4(Cursor(s, 1), 0xD83D);
    DecodeHex4(Cursor(s, 7), 0xDE00);
  }

  lemma EncodeU1F600()
    ensures Utf8.Encode(0x1_F600) == [0xF0, 0x9F, 0x98, 0x80]
  {
    assert 0x1_F600 / 0x4_0000 == 0 && 0x1_F600 / 0x1000 % 0x40 == 0x1F;
    assert 0x1_F600 / 0x40 % 0x40 == 0x18 && 0x1_F600 % 0x40 == 0;
  }

  /** A `\u` escape of a high surrogate followed by `\u`: what remains is the low half. */
  lemma PairPrefix(r: SliceRead, validate: bool, scratch: Bytes, n1: nat)
    requires HighEscapeAt(r, n1) && r.index + 7 <= |r.slice|
    requires r.slice[r.index + 5] == BACKSLASH && r.slice[r.index + 6] == 0x75
    ensures ParseEscape(r, validate, scratch) == LowHalf(Cursor(r.slice, r.index + 7), n1, scratch)
  {
    LetterUAt(r, validate, scratch, n1);
    OtherPrefix(r, validate, scratch, n1);
  }

  /** A `\u` escape of a high surrogate and a backslash: the letter after it decides. */
  lemma OtherPrefix(r: SliceRead, validate: bool, scratch: Bytes, n: nat)
    requires HighEscapeAt(r, n) && r.index + 6 <= |r.slice| && r.slice[r.index + 5] == BACKSLASH
    ensures ParseEscape(r, validate, scratch) == AfterBackslash(Cursor(r.slice, r.index + 6), n, validate, scratch)
  {
    BackslashAt(r, validate, scratch, n);
    HighPrefix(r, validate, scratch, n);
  }

  /**
   * A low surrogate with nothing before it: an error when validating
   * (reported with the source's `LoneLeadingSurrogateInHexEscape` code),
   * otherwise its three-byte form.
   */
  lemma LoneLowSurrogate(r: SliceRead, validate: bool, scratch: Bytes, n: nat)
    requires r.index < |r.slice| && r.slice[r.index] == 0x75
    requires DecodeHexEscape(Cursor(r.slice, r.index + 1)) == Success((n, Cursor(r.slice, r.index + 5)))
    requires 0xDC00 <= n <= 0xDFFF
    ensures validate ==>
              ParseEscape(r, validate, scratch) ==
              Failure(ErrorAt(Cursor(r.slice, r.index + 5), LoneLeadingSurrogateInHexEscape))
    ensures !validate ==>
              ParseEscape(r, validate, scratch) == Success((Cursor(r.slice, r.index + 5), scratch + Utf8.ThreeBytes(n)))
  {
    UnicodeEscapeStep(r, validate, scratch, n);
  }

  /**
   * A high surrogate followed by something other than a backslash: an
   * error just past that byte when validating, otherwise its three-byte
   * form with the byte left unread.
   */
  lemma HighSurrogateWithoutBackslash(r: SliceRead, validate: bool, scratch: Bytes, n: nat)
    requires r.index + 5 < |r.slice| && r.slice[r.index] == 0x75
    requires DecodeHexEscape(Cursor(r.slice, r.index + 1)) == Success((n, Cursor(r.slice, r.index + 5)))
    requires 0xD800 <= n <= 0xDBFF && r.slice[r.index + 5] != BACKSLASH
    ensures validate ==>
              ParseEscape(r, validate, scratch) ==
              Failure(ErrorAt(Cursor(r.slice, r.index + 6), UnexpectedEndOfHexEscape))
    ensures !validate ==>
              ParseEscape(r, validate, scratch) == Success((Cursor(r.slice, r.index + 5), scratch + Utf8.ThreeBytes(n)))
  {
    OtherAt(r, validate, scratch, n);
    HighPrefix(r, validate, scratch, n);
  }

  /**
   * A high surrogate followed by a backslash and a letter other than `u`:
   * an error just past that letter when validating; otherwise its
   * three-byte form, then that escape decoded in turn.
   */
  lemma HighSurrogateThenOtherEscape(r: SliceRead, validate: bool, scratch: Bytes, n: nat)
    requires r.index + 6 < |r.slice| && r.slice[r.index] == 0x75
    requires DecodeHexEscape(Cursor(r.slice, r.index + 1)) == Success((n, Cursor(r.slice, r.index + 5)))
    requires 0xD800 <= n <= 0xDBFF
    requires r.slice[r.index + 5] == BACKSLASH && r.slice[r.index + 6] != 0x75
    ensures validate ==>
              ParseEscape(r, validate, scratch) ==
              Failure(ErrorAt(Cursor(r.slice, r.index + 7), UnexpectedEndOfHexEscape))
    ensures !validate ==>
              ParseEscape(r, validate, scratch) ==
              ParseEscape(Cursor(r.slice, r.index + 6), validate, scratch + Utf8.ThreeBytes(n))
  {
    OtherLetterAt(r, validate, scratch, n);
    OtherPrefix(r, validate, scratch, n);
  }

  /** A high surrogate followed by `\u` and anything but a low surrogate is always an error. */
  lemma HighSurrogateThenNonLow(r: SliceRead, validate: bool, scratch: Bytes, n1: nat, n2: nat)
    requires r.index + 11 <= |r.slice| && r.slice[r.index] == 0x75
    requires DecodeHexEscape(Cursor(r.slice, r.index + 1)) == Success((n1, Cursor(r.slice, r.index + 5)))
    requires 0xD800 <= n1 <= 0xDBFF
    requires r.slice[r.index + 5] == BACKSLASH && r.slice[r.index + 6] == 0x75
    requires DecodeHexEscape(Cursor(r.slice, r.index + 7)) == Success((n2, Cursor(r.slice, r.index + 11)))
    requires n2 < 0xDC00 || n2 > 0xDFFF
    ensures ParseEscape(r, validate, scratch) ==
              Failure(ErrorAt(Cursor(r.slice, r.index + 11), LoneLeadingSurrogateInHexEscape))
  {
    hide ParseEscape, ParseHexEscape, CodeUnit, HighSurrogate, AfterBackslash, LowHalf, DecodeHexEscape, HexLoop, Utf8.Encode, CombineSurrogates;
    LowHalfAt(r, scratch, n1, n2);
    PairPrefix(r, validate, scratch, n1);
  }

  /**
   * The UTF-8 check happens only once the closing quote is found: with it
   * the loop ends in exactly the same way, except that a finished string
   * must then pass `Finish`'s check.
   */
  predicate CheckedAgrees(checked: Result<(Reference, SliceRead), Error>, unchecked: Result<(Reference, SliceRead), Error>) {
    && (unchecked.Failure? ==> checked == unchecked)
    && (unchecked.Success? ==> checked == Finish(unchecked.value.1, unchecked.value.0, true))
  }

  lemma {:induction false} LoopChecksAtFinish(r: SliceRead, start: nat, scratch: Bytes, validate: bool)
    requires start <= r.index
    ensures CheckedAgrees(ParseStrLoop(r, start, scratch, validate, true), ParseStrLoop(r, start, scratch, validate, false))
    decreases |r.slice| - r.index, 1
  {
    var rj: SliceRead := Cursor(r.slice, SkipPlain(r.slice, r.index));
    LoopSkips(r, rj, start, scratch, validate, true);
    LoopSkips(r, rj, start, scratch, validate, false);
    AtStopChecksAtFinish(rj, start, scratch, validate);
  }

  lemma {:induction false} AtStopChecksAtFinish(r: SliceRead, start: nat, scratch: Bytes, validate: bool)
    requires start <= r.index
    requires r.index == |r.slice| || EscapeStop(r.slice[r.index])
    ensures CheckedAgrees(AtStop(r, start, scratch, validate, true), AtStop(r, start, scratch, validate, false))
    decreases |r.slice| - r.index, 0
  {
    if r.index == |r.slice| {
      StopAtEnd(r, start, scratch, validate, true);
      StopAtEnd(r, start, scratch, validate, false);
    } else {
      var r1: SliceRead := Cursor(r.slice, r.index + 1);
      var b := r.slice[r.index];
      if b == QUOTE {
        StopAtQuote(r, r1, start, scratch, validate, true);
        StopAtQuote(r, r1, start, scratch, validate, false);
      } else if b == BACKSLASH {
        StopAtBackslash(r, r1, start, scratch, validate, true);
        StopAtBackslash(r, r1, start, scratch, validate, false);
        var e := ParseEscape(r1, validate, scratch + r.slice[start..r.index]);
        if e.Success? {
          LoopChecksAtFinish(e.value.0, e.value.0.index, e.value.1, validate);
        }
      } else {
        StopAtControl(r, r1, start, scratch, validate, true);
        StopAtControl(r, r1, start, scratch, validate, false);
        if !validate {
          LoopChecksAtFinish(r1, start, scratch, validate);
        }
      }
    }
  }

  /**
   * `StrRead::parse_str` skips the UTF-8 check that `SliceRead::parse_str`
   * makes: both fail alike, and whenever the text found is valid UTF-8 the
   * two return the same string and position.
   */
  lemma StrParseStrAgrees(r: StrRead, scratch: Bytes)
    ensures StrParseStr(r, scratch).Failure? ==> ParseStr(r.delegate, scratch) == Failure(StrParseStr(r, scratch).error)
    ensures StrParseStr(r, scratch).Success? ==>
              var (reference, rest) := StrParseStr(r, scratch).value;
              ParseStr(r.delegate, scratch) ==
              if Utf8.Valid(reference.Bytes()) then Success((reference, rest.delegate))
              else Failure(ErrorAt(rest.delegate, InvalidUnicodeCodePoint))
  {
    LoopChecksAtFinish(r.delegate, r.delegate.index, scratch, true);
  }
}

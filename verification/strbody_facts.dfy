/**
 * The reader's string loops against the meaning of a string body:
 * `parse_str_bytes` stops at a closing quote exactly when the body before
 * it decodes, and returns what it decodes to; `ignore_str` accepts every
 * string the validating loop accepts and stops at the same quote.
 */
module StringBodyFacts {
  import opened Common
  import opened Errors
  import Utf8
  import opened Reader
  import opened ReaderFacts
  import opened StringBody

  /** The scan succeeded just past the quote at `q` with bytes `out`, borrowed exactly when `plain`. */
  predicate Reaches(res: Result<(Reference, SliceRead), Error>, slice: Bytes, q: nat, out: Bytes, plain: bool) {
    && res.Success? && res.value.1 == Cursor(slice, q + 1)
    && res.value.0.Bytes() == out && (res.value.0.Borrowed? <==> plain)
  }

  /**
   * Without validation: a high surrogate escape followed by a backslash
   * that does not start `\u`. The reader decodes the next escape in the
   * same call; the body's units split there.
   */
  predicate StrayHigh(body: Bytes, validate: bool) {
    && !validate && 7 <= |body| && body[0] == BACKSLASH && body[1] == 0x75 && HexAt(body, 2)
    && 0xD800 <= HexValue4(body, 2) <= 0xDBFF && body[6] == BACKSLASH && !PairNext(body, 6)
  }

  lemma BodyFrom(s: Bytes, i: nat, k: nat, q: nat)
    requires i + k <= q <= |s|
    ensures s[i..q][k..] == s[i + k..q]
  {
  }

  /** A decoding body is its first unit followed by the rest. */
  lemma DecodedStep(body: Bytes, validate: bool)
    requires |body| > 0 && Decoded(body, validate).Some?
    ensures FirstUnit(body, validate).Some?
    ensures Decoded(body[FirstUnit(body, validate).value.1..], validate).Some?
    ensures Decoded(body, validate).value ==
              FirstUnit(body, validate).value.0 + Decoded(body[FirstUnit(body, validate).value.1..], validate).value
  {
  }

  /** Four hex digits inside the body are the four digits `decode_hex_escape` reads there. */
  lemma HexInBody(s: Bytes, i: nat, q: nat, k: nat)
    requires i <= q <= |s| && HexAt(s[i..q], k)
    ensures DecodeHexEscape(Cursor(s, i + k)) == Success((HexValue4(s[i..q], k), Cursor(s, i + k + 4)))
  {
    var b := s[i..q];
    assert b[k] == s[i + k] && b[k + 1] == s[i + k + 1] && b[k + 2] == s[i + k + 2] && b[k + 3] == s[i + k + 3];
    assert IsHex(b[k]) && IsHex(b[k + 1]) && IsHex(b[k + 2]) && IsHex(b[k + 3]);
    FourHex(s, i + k);
    DecodeHexEscapeValue(Cursor(s, i + k));
  }

  lemma FourHex(s: Bytes, j: nat)
    requires j + 4 <= |s| && IsHex(s[j]) && IsHex(s[j + 1]) && IsHex(s[j + 2]) && IsHex(s[j + 3])
    ensures DecodeHexEscape(Cursor(s, j)).Success?
  {
    assert forall x :: j <= x < j + 4 ==> IsHex(s[x]) by {
      forall x | j <= x < j + 4 ensures IsHex(s[x]) {
        assert x == j || x == j + 1 || x == j + 2 || x == j + 3;
      }
    }
  }

  /** Four digits `decode_hex_escape` read before the quote are hex digits of the body. */
  lemma HexFromBody(s: Bytes, i: nat, q: nat, k: nat)
    requires i + k + 4 <= q <= |s| && DecodeHexEscape(Cursor(s, i + k)).Success?
    ensures HexAt(s[i..q], k)
    ensures DecodeHexEscape(Cursor(s, i + k)) == Success((HexValue4(s[i..q], k), Cursor(s, i + k + 4)))
  {
    var b := s[i..q];
    assert forall x :: k <= x < k + 4 ==> IsHex(b[x]) by {
      forall x | k <= x < k + 4 ensures IsHex(b[x]) {
        assert b[x] == s[i + x];
      }
    }
    HexInBody(s, i, q, k);
  }

  // ---- the escape at a backslash, read against its unit ----

  /** A short escape is a two-byte unit. */
  lemma UnitShort(b: Bytes, validate: bool)
    requires 2 <= |b| && b[0] == BACKSLASH && ShortEscape(b[1]).Some?
    ensures FirstUnit(b, validate) == Some(([ShortEscape(b[1]).value], 2))
  {
  }

  /** Any other escape unit starts with `\u` and four hex digits. */
  lemma UnitHex(b: Bytes, validate: bool)
    requires |b| > 0 && b[0] == BACKSLASH && FirstUnit(b, validate).Some?
    requires 2 <= |b| ==> ShortEscape(b[1]).None?
    ensures 2 <= |b| && b[1] == 0x75 && HexAt(b, 2) && 6 <= |b|
  {
  }

  /** `\u` and a low surrogate: only without validation, as its three-byte form. */
  lemma UnitLow(b: Bytes, validate: bool)
    requires 6 <= |b| && b[0] == BACKSLASH && b[1] == 0x75 && HexAt(b, 2) && FirstUnit(b, validate).Some?
    requires 0xDC00 <= HexValue4(b, 2) <= 0xDFFF
    ensures !validate && FirstUnit(b, validate) == Some((Utf8.ThreeBytes(HexValue4(b, 2)), 6))
  {
    assert ShortEscape(b[1]).None?;
  }

  /** `\u` and a code unit outside the surrogates: its UTF-8 encoding. */
  lemma UnitBmp(b: Bytes, validate: bool)
    requires 6 <= |b| && b[0] == BACKSLASH && b[1] == 0x75 && HexAt(b, 2)
    requires HexValue4(b, 2) < 0xD800 || HexValue4(b, 2) > 0xDFFF
    ensures FirstUnit(b, validate) == Some((Utf8.Encode(HexValue4(b, 2)), 6))
  {
    assert ShortEscape(b[1]).None?;
  }

  /** A high surrogate followed by `\u`: the pair must complete, twelve bytes in all. */
  lemma UnitPair(b: Bytes, validate: bool)
    requires 6 <= |b| && b[0] == BACKSLASH && b[1] == 0x75 && HexAt(b, 2) && FirstUnit(b, validate).Some?
    requires 0xD800 <= HexValue4(b, 2) <= 0xDBFF && PairNext(b, 6)
    ensures HexAt(b, 8) && 0xDC00 <= HexValue4(b, 8) <= 0xDFFF
    ensures FirstUnit(b, validate) ==
              Some((Utf8.Encode(CombineSurrogates(HexValue4(b, 2), HexValue4(b, 8))), 12))
  {
    assert ShortEscape(b[1]).None?;
  }

  /** A high surrogate not followed by `\u`: only without validation, as its three-byte form. */
  lemma UnitLoneHigh(b: Bytes, validate: bool)
    requires 6 <= |b| && b[0] == BACKSLASH && b[1] == 0x75 && HexAt(b, 2) && FirstUnit(b, validate).Some?
    requires 0xD800 <= HexValue4(b, 2) <= 0xDBFF && !PairNext(b, 6)
    ensures !validate && FirstUnit(b, validate) == Some((Utf8.ThreeBytes(HexValue4(b, 2)), 6))
  {
    assert ShortEscape(b[1]).None?;
  }

  /** The reader's side of a completed pair inside the body. */
  lemma PairParses(s: Bytes, i: nat, q: nat, validate: bool, copied: Bytes, n: nat)
    requires i < q < |s| && s[i + 1] == 0x75 && PairNext(s[i..q], 6) && HexAt(s[i..q], 8)
    requires DecodeHexEscape(Cursor(s, i + 2)) == Success((n, Cursor(s, i + 6))) && 0xD800 <= n <= 0xDBFF
    requires 0xDC00 <= HexValue4(s[i..q], 8) <= 0xDFFF
    ensures EscapeReads(Cursor(s, i + 1), validate, copied, Cursor(s, i + 12),
                        copied + Utf8.Encode(CombineSurrogates(n, HexValue4(s[i..q], 8))))
  {
    hide ParseStrLoop, AtStop, AtBackslash, ParseEscape, ParseHexEscape, CodeUnit, HighSurrogate, AfterBackslash, LowHalf, DecodeHexEscape, HexLoop, IgnoreStr, IgnoreAtStop, IgnoreEscape, SkipPlain, Decoded, FirstUnit;
    var b := s[i..q];
    HexInBody(s, i, q, 8);
    assert s[i + 6] == b[6] && s[i + 7] == b[7];
    SurrogatePair(Cursor(s, i + 1), validate, copied, n, HexValue4(b, 8));
  }

  /** The reader's side of a high surrogate that no backslash follows inside the body. */
  lemma LoneHighParses(s: Bytes, i: nat, q: nat, copied: Bytes, n: nat)
    requires i + 6 <= q < |s| && s[q] == QUOTE && s[i + 1] == 0x75
    requires i + 6 < q ==> s[i + 6] != BACKSLASH
    requires DecodeHexEscape(Cursor(s, i + 2)) == Success((n, Cursor(s, i + 6))) && 0xD800 <= n <= 0xDBFF
    ensures EscapeReads(Cursor(s, i + 1), false, copied, Cursor(s, i + 6), copied + Utf8.ThreeBytes(n))
  {
    hide ParseStrLoop, AtStop, AtBackslash, ParseEscape, ParseHexEscape, CodeUnit, HighSurrogate, AfterBackslash, LowHalf, DecodeHexEscape, HexLoop, IgnoreStr, IgnoreAtStop, IgnoreEscape, SkipPlain, Decoded, FirstUnit;
    HighSurrogateWithoutBackslash(Cursor(s, i + 1), false, copied, n);
  }

  /** Outside the stray case, the reader's escape at the backslash `i` reads exactly its unit. */
  lemma UnitParses(s: Bytes, i: nat, q: nat, validate: bool, copied: Bytes, u: Bytes, k: nat)
    requires i < q < |s| && s[q] == QUOTE && s[i] == BACKSLASH
    requires FirstUnit(s[i..q], validate) == Some((u, k)) && !StrayHigh(s[i..q], validate)
    ensures EscapeReads(Cursor(s, i + 1), validate, copied, Cursor(s, i + k), copied + u)
  {
    hide ParseStrLoop, AtStop, AtBackslash, ParseEscape, ParseHexEscape, CodeUnit, HighSurrogate, AfterBackslash, LowHalf, DecodeHexEscape, HexLoop, IgnoreStr, IgnoreAtStop, IgnoreEscape, SkipPlain, Decoded, FirstUnit;
    var b := s[i..q];
    assert b[0] == BACKSLASH;
    if 2 <= |b| && ShortEscape(b[1]).Some? {
      UnitShort(b, validate);
      assert b[1] == s[i + 1];
      ShortEscapeDecodes(Cursor(s, i + 1), validate, copied);
    } else {
      UnitHex(b, validate);
      assert b[1] == s[i + 1];
      HexInBody(s, i, q, 2);
      var n := HexValue4(b, 2);
      if 0xDC00 <= n <= 0xDFFF {
        UnitLow(b, validate);
        LoneLowSurrogate(Cursor(s, i + 1), validate, copied, n);
      } else if n < 0xD800 || n > 0xDBFF {
        UnitBmp(b, validate);
        BmpEscape(Cursor(s, i + 1), validate, copied, n);
      } else if PairNext(b, 6) {
        UnitPair(b, validate);
        PairParses(s, i, q, validate, copied, n);
      } else {
        UnitLoneHigh(b, validate);
        assert i + 6 < q ==> s[i + 6] == b[6];
        LoneHighParses(s, i, q, copied, n);
      }
    }
  }

  /** In the stray case the body goes on with a short escape, which the reader decodes in the same call. */
  lemma StrayDecoded(body: Bytes)
    requires StrayHigh(body, false) && Decoded(body, false).Some?
    ensures 8 <= |body| && ShortEscape(body[7]).Some? && Decoded(body[8..], false).Some?
    ensures Decoded(body, false).value ==
              Utf8.ThreeBytes(HexValue4(body, 2)) + [ShortEscape(body[7]).value] + Decoded(body[8..], false).value
  {
    hide Decoded, FirstUnit;
    UnitStray(body);
    var t := body[6..];
    DecodedStep(body, false);
    DecodedStep(t, false);
    BackslashUnit(t, false);
    assert t[1] == body[7] && t[2..] == body[8..];
  }

  lemma UnitStray(body: Bytes)
    requires StrayHigh(body, false)
    ensures FirstUnit(body, false) == Some((Utf8.ThreeBytes(HexValue4(body, 2)), 6))
  {
  }

  /** A unit that starts with a backslash and not with `\\u` is a short escape. */
  lemma BackslashUnit(t: Bytes, validate: bool)
    requires |t| > 0 && t[0] == BACKSLASH && FirstUnit(t, validate).Some?
    requires !(2 <= |t| && t[1] == 0x75)
    ensures 2 <= |t| && ShortEscape(t[1]).Some? && FirstUnit(t, validate) == Some(([ShortEscape(t[1]).value], 2))
  {
  }

  lemma StrayParses(s: Bytes, i: nat, q: nat, copied: Bytes, n: nat)
    requires i + 8 <= q < |s| && s[i + 1] == 0x75
    requires DecodeHexEscape(Cursor(s, i + 2)) == Success((n, Cursor(s, i + 6)))
    requires 0xD800 <= n <= 0xDBFF && s[i + 6] == BACKSLASH && ShortEscape(s[i + 7]).Some?
    ensures EscapeReads(Cursor(s, i + 1), false, copied, Cursor(s, i + 8),
                        copied + Utf8.ThreeBytes(n) + [ShortEscape(s[i + 7]).value])
  {
    hide ParseStrLoop, AtStop, AtBackslash, ParseEscape, ParseHexEscape, CodeUnit, HighSurrogate, AfterBackslash, LowHalf, DecodeHexEscape, HexLoop, IgnoreStr, IgnoreAtStop, IgnoreEscape, SkipPlain, Decoded, FirstUnit;
    HighSurrogateThenOtherEscape(Cursor(s, i + 1), false, copied, n);
    ShortEscapeDecodes(Cursor(s, i + 7), false, copied + Utf8.ThreeBytes(n));
  }

  /**
   * The escape at the backslash `i` as the loop sees it: where the reader
   * resumes (`j`) and what it appended (`u`), with the body from `i`
   * decoding to `u` followed by the body from `j`.
   */
  lemma EscapeDecodes(s: Bytes, i: nat, q: nat, validate: bool, copied: Bytes) returns (j: nat, u: Bytes)
    requires i < q < |s| && s[q] == QUOTE && s[i] == BACKSLASH
    requires Decoded(s[i..q], validate).Some?
    ensures i + 1 < j <= q && |u| > 0
    ensures EscapeReads(Cursor(s, i + 1), validate, copied, Cursor(s, j), copied + u)
    ensures Decoded(s[j..q], validate).Some?
    ensures Decoded(s[i..q], validate).value == u + Decoded(s[j..q], validate).value
  {
    if StrayHigh(s[i..q], validate) {
      j, u := StrayStep(s, i, q, copied);
    } else {
      j, u := UnitStep(s, i, q, validate, copied);
    }
  }

  lemma StrayStep(s: Bytes, i: nat, q: nat, copied: Bytes) returns (j: nat, u: Bytes)
    requires i < q < |s| && s[q] == QUOTE && s[i] == BACKSLASH
    requires StrayHigh(s[i..q], false) && Decoded(s[i..q], false).Some?
    ensures i + 1 < j <= q && |u| > 0
    ensures EscapeReads(Cursor(s, i + 1), false, copied, Cursor(s, j), copied + u)
    ensures Decoded(s[j..q], false).Some?
    ensures Decoded(s[i..q], false).value == u + Decoded(s[j..q], false).value
  {
    hide ParseStrLoop, AtStop, AtBackslash, ParseEscape, ParseHexEscape, CodeUnit, HighSurrogate, AfterBackslash, LowHalf, DecodeHexEscape, HexLoop, IgnoreStr, IgnoreAtStop, IgnoreEscape, SkipPlain;
    var b := s[i..q];
    StrayDecoded(b);
    HexInBody(s, i, q, 2);
    assert s[i + 1] == b[1] && s[i + 6] == b[6] && s[i + 7] == b[7];
    var n := HexValue4(b, 2);
    var c := ShortEscape(s[i + 7]).value;
    StrayParses(s, i, q, copied, n);
    j, u := i + 8, Utf8.ThreeBytes(n) + [c];
    BodyFrom(s, i, 8, q);
    assert copied + Utf8.ThreeBytes(n) + [c] == copied + u;
  }

  lemma UnitStep(s: Bytes, i: nat, q: nat, validate: bool, copied: Bytes) returns (j: nat, u: Bytes)
    requires i < q < |s| && s[q] == QUOTE && s[i] == BACKSLASH
    requires !StrayHigh(s[i..q], validate) && Decoded(s[i..q], validate).Some?
    ensures i + 1 < j <= q && |u| > 0
    ensures EscapeReads(Cursor(s, i + 1), validate, copied, Cursor(s, j), copied + u)
    ensures Decoded(s[j..q], validate).Some?
    ensures Decoded(s[i..q], validate).value == u + Decoded(s[j..q], validate).value
  {
    hide ParseStrLoop, AtStop, AtBackslash, ParseEscape, ParseHexEscape, CodeUnit, HighSurrogate, AfterBackslash, LowHalf, DecodeHexEscape, HexLoop, IgnoreStr, IgnoreAtStop, IgnoreEscape, SkipPlain;
    var b := s[i..q];
    DecodedStep(b, validate);
    var (u', k) := FirstUnit(b, validate).value;
    UnitParses(s, i, q, validate, copied, u', k);
    BodyFrom(s, i, k, q);
    j, u := i + k, u';
  }

  // ---- completeness: a decoding body is read to its quote ----

  /** A byte outside any escape leaves the loop where it was, one byte further on. */
  lemma VerbatimStep(s: Bytes, i: nat, start: nat, scratch: Bytes, validate: bool)
    requires start <= i < |s| && s[i] != QUOTE && s[i] != BACKSLASH && (validate ==> s[i] >= 0x20)
    ensures ParseStrLoop(Cursor(s, i), start, scratch, validate, false) ==
            ParseStrLoop(Cursor(s, i + 1), start, scratch, validate, false)
  {
    var r: SliceRead := Cursor(s, i);
    var r1: SliceRead := Cursor(s, i + 1);
    if s[i] < 0x20 {
      SkipPlainIs(s, i, i);
      LoopSkips(r, r, start, scratch, validate, false);
      StopAtControl(r, r1, start, scratch, validate, false);
    } else {
      assert SkipPlain(s, i) == SkipPlain(s, i + 1);
      LoopSkips(r, Cursor(s, SkipPlain(s, i)), start, scratch, validate, false);
      LoopSkips(r1, Cursor(s, SkipPlain(s, i)), start, scratch, validate, false);
    }
  }

  /** At the quote the loop ends with what it holds. */
  lemma QuoteReached(s: Bytes, q: nat, start: nat, scratch: Bytes, validate: bool)
    requires start <= q < |s| && s[q] == QUOTE
    ensures Reaches(ParseStrLoop(Cursor(s, q), start, scratch, validate, false), s, q,
                    scratch + s[start..q], |scratch| == 0)
  {
    var r: SliceRead := Cursor(s, q);
    SkipPlainIs(s, q, q);
    LoopSkips(r, r, start, scratch, validate, false);
    StopAtQuote(r, Cursor(s, q + 1), start, scratch, validate, false);
  }

  /** At a backslash the loop resumes after the escape with the decoded bytes in scratch. */
  lemma BackslashResumes(s: Bytes, i: nat, start: nat, scratch: Bytes, validate: bool, j: nat, out: Bytes)
    requires start <= i < j <= |s| && s[i] == BACKSLASH
    requires EscapeReads(Cursor(s, i + 1), validate, scratch + s[start..i], Cursor(s, j), out)
    ensures ParseStrLoop(Cursor(s, i), start, scratch, validate, false) ==
            ParseStrLoop(Cursor(s, j), j, out, validate, false)
  {
    var r: SliceRead := Cursor(s, i);
    SkipPlainIs(s, i, i);
    LoopSkips(r, r, start, scratch, validate, false);
    StopAtBackslash(r, Cursor(s, i + 1), start, scratch, validate, false);
  }

  lemma VerbatimJoin(res: Result<(Reference, SliceRead), Error>, s: Bytes, start: nat, i: nat, q: nat,
                     scratch: Bytes, d: Bytes, tail: Bytes)
    requires start <= i < q <= |s| && s[i] != BACKSLASH && d == [s[i]] + tail
    requires Reaches(res, s, q, scratch + s[start..i + 1] + tail, |scratch| == 0 && BACKSLASH !in s[i + 1..q])
    ensures Reaches(res, s, q, scratch + s[start..i] + d, |scratch| == 0 && BACKSLASH !in s[i..q])
  {
    assert s[start..i + 1] == s[start..i] + [s[i]];
    assert s[i..q] == [s[i]] + s[i + 1..q];
  }

  lemma EscapeJoin(res: Result<(Reference, SliceRead), Error>, s: Bytes, start: nat, i: nat, j: nat, q: nat,
                   scratch: Bytes, u: Bytes, d: Bytes, tail: Bytes)
    requires start <= i < j <= q <= |s| && s[i] == BACKSLASH && d == u + tail
    requires Reaches(res, s, q, scratch + s[start..i] + u + s[j..j] + tail, |scratch + s[start..i] + u| == 0)
    requires |u| > 0
    ensures Reaches(res, s, q, scratch + s[start..i] + d, |scratch| == 0 && BACKSLASH !in s[i..q])
  {
    assert s[j..j] == [];
    assert s[i..q][0] == BACKSLASH;
  }

  /** The loop at `i`, over a body up to the quote at `q` that decodes. */
  lemma {:induction false} LoopDecodes(s: Bytes, i: nat, start: nat, q: nat, scratch: Bytes, validate: bool)
    requires start <= i <= q < |s| && s[q] == QUOTE && Decoded(s[i..q], validate).Some?
    ensures Reaches(ParseStrLoop(Cursor(s, i), start, scratch, validate, false), s, q,
                    scratch + s[start..i] + Decoded(s[i..q], validate).value,
                    |scratch| == 0 && BACKSLASH !in s[i..q])
    decreases q - i
  {
    hide ParseStrLoop, AtStop, AtBackslash, ParseEscape, ParseHexEscape, CodeUnit, HighSurrogate, AfterBackslash, LowHalf, DecodeHexEscape, HexLoop, IgnoreStr, IgnoreAtStop, IgnoreEscape, SkipPlain;
    var d := Decoded(s[i..q], validate).value;
    if i == q {
      QuoteReached(s, q, start, scratch, validate);
      assert s[i..q] == [] && d == [];
    } else if s[i] != BACKSLASH {
      DecodedStep(s[i..q], validate);
      BodyFrom(s, i, 1, q);
      VerbatimStep(s, i, start, scratch, validate);
      LoopDecodes(s, i + 1, start, q, scratch, validate);
      VerbatimJoin(ParseStrLoop(Cursor(s, i), start, scratch, validate, false), s, start, i, q,
                   scratch, d, Decoded(s[i + 1..q], validate).value);
    } else {
      var copied := scratch + s[start..i];
      var j, u := EscapeDecodes(s, i, q, validate, copied);
      BackslashResumes(s, i, start, scratch, validate, j, copied + u);
      LoopDecodes(s, j, j, q, copied + u, validate);
      EscapeJoin(ParseStrLoop(Cursor(s, i), start, scratch, validate, false), s, start, i, j, q,
                 scratch, u, d, Decoded(s[j..q], validate).value);
    }
  }

  // ---- soundness: what the loop reads decodes ----

  /**
   * A successful escape at the backslash `i`, with a decoding body from
   * where it stopped to the quote, makes the body from `i` decode.
   */
  lemma {:induction false} EscapeSound(s: Bytes, i: nat, q: nat, validate: bool, copied: Bytes, j: nat, out: Bytes)
    requires i < q < |s| && s[q] == QUOTE && s[i] == BACKSLASH
    requires j <= q && EscapeReads(Cursor(s, i + 1), validate, copied, Cursor(s, j), out)
    requires Decoded(s[j..q], validate).Some?
    ensures Decoded(s[i..q], validate).Some?
    decreases q - i, 1
  {
    hide ParseStrLoop, AtStop, AtBackslash, ParseEscape, ParseHexEscape, CodeUnit, HighSurrogate, AfterBackslash, LowHalf, DecodeHexEscape, HexLoop, IgnoreStr, IgnoreAtStop, IgnoreEscape, SkipPlain, Decoded, FirstUnit;
    var r: SliceRead := Cursor(s, i + 1);
    EscapeLetter(r, validate, copied, Cursor(s, j), out);
    if ShortEscape(s[i + 1]).Some? {
      ShortEscapeDecodes(r, validate, copied);
      ShortSound(s, i, q, validate);
    } else {
      HexEscapeSound(s, i, q, validate, copied, j, out);
    }
  }

  /** A successful escape starts with a short escape letter or `u`. */
  lemma EscapeLetter(r: SliceRead, validate: bool, copied: Bytes, r': SliceRead, out: Bytes)
    requires r.index < |r.slice| && EscapeReads(r, validate, copied, r', out)
    ensures ShortEscape(r.slice[r.index]).Some? || r.slice[r.index] == 0x75
  {
  }

  /** A body whose first unit spans `k` bytes, and which decodes after them, decodes. */
  lemma RestThenWhole(s: Bytes, i: nat, q: nat, validate: bool, k: nat)
    requires i < i + k <= q <= |s| && FirstUnit(s[i..q], validate).Some? && FirstUnit(s[i..q], validate).value.1 == k
    requires Decoded(s[i + k..q], validate).Some?
    ensures Decoded(s[i..q], validate).Some?
  {
    BodyFrom(s, i, k, q);
  }

  lemma ShortSound(s: Bytes, i: nat, q: nat, validate: bool)
    requires i + 2 <= q <= |s| && s[i] == BACKSLASH && ShortEscape(s[i + 1]).Some?
    requires Decoded(s[i + 2..q], validate).Some?
    ensures Decoded(s[i..q], validate).Some?
  {
    var b := s[i..q];
    assert b[0] == BACKSLASH && b[1] == s[i + 1];
    UnitShort(b, validate);
    RestThenWhole(s, i, q, validate, 2);
  }

  /** The `\\u` case of `EscapeSound`. */
  lemma {:induction false} HexEscapeSound(s: Bytes, i: nat, q: nat, validate: bool, copied: Bytes, j: nat, out: Bytes)
    requires i < q < |s| && s[q] == QUOTE && s[i] == BACKSLASH && s[i + 1] == 0x75
    requires j <= q && EscapeReads(Cursor(s, i + 1), validate, copied, Cursor(s, j), out)
    requires Decoded(s[j..q], validate).Some?
    ensures Decoded(s[i..q], validate).Some?
    decreases q - i, 0
  {
    hide ParseStrLoop, AtStop, AtBackslash, ParseEscape, ParseHexEscape, CodeUnit, HighSurrogate, AfterBackslash, LowHalf, DecodeHexEscape, HexLoop, IgnoreStr, IgnoreAtStop, IgnoreEscape, SkipPlain, Decoded, FirstUnit;
    var r: SliceRead := Cursor(s, i + 1);
    var n := HexOfEscape(s, i, validate, copied, j, out);
    HexFromBody(s, i, q, 2);
    if 0xDC00 <= n <= 0xDFFF {
      LoneLowSurrogate(r, validate, copied, n);
      SingleSound(s, i, q, validate);
    } else if n < 0xD800 || n > 0xDBFF {
      BmpEscape(r, validate, copied, n);
      SingleSound(s, i, q, validate);
    } else if i + 8 <= q && s[i + 6] == BACKSLASH && s[i + 7] == 0x75 {
      PairSound(s, i, q, validate, copied, n, j, out);
      PairWhole(s, i, q, validate);
    } else if i + 6 < q && s[i + 6] == BACKSLASH {
      HighSurrogateThenOtherEscape(r, validate, copied, n);
      EscapeSound(s, i + 6, q, validate, copied + Utf8.ThreeBytes(n), j, out);
      SingleSound(s, i, q, validate);
    } else {
      HighSurrogateWithoutBackslash(r, validate, copied, n);
      SingleSound(s, i, q, validate);
    }
  }

  /**
   * A `\\uXXXX` unit that does not complete a pair is six bytes long, and
   * exists when it is not a surrogate or the body is not validated.
   */
  lemma SingleSound(s: Bytes, i: nat, q: nat, validate: bool)
    requires i + 6 <= q <= |s| && s[i] == BACKSLASH && s[i + 1] == 0x75 && HexAt(s[i..q], 2)
    requires var n := HexValue4(s[i..q], 2);
             (0xD800 <= n <= 0xDFFF ==> !validate) &&
             (0xD800 <= n <= 0xDBFF ==> !(i + 8 <= q && s[i + 6] == BACKSLASH && s[i + 7] == 0x75))
    requires Decoded(s[i + 6..q], validate).Some?
    ensures Decoded(s[i..q], validate).Some?
  {
    var b := s[i..q];
    assert b[0] == BACKSLASH && b[1] == 0x75;
    assert PairNext(b, 6) ==> b[6] == s[i + 6] && b[7] == s[i + 7];
    assert FirstUnit(b, validate).Some? && FirstUnit(b, validate).value.1 == 6;
    RestThenWhole(s, i, q, validate, 6);
  }

  lemma PairWhole(s: Bytes, i: nat, q: nat, validate: bool)
    requires i + 12 <= q <= |s| && s[i] == BACKSLASH && s[i + 1] == 0x75 && HexAt(s[i..q], 2)
    requires 0xD800 <= HexValue4(s[i..q], 2) <= 0xDBFF && s[i + 6] == BACKSLASH && s[i + 7] == 0x75
    requires HexAt(s[i..q], 8) && 0xDC00 <= HexValue4(s[i..q], 8) <= 0xDFFF
    requires Decoded(s[i + 12..q], validate).Some?
    ensures Decoded(s[i..q], validate).Some?
  {
    var b := s[i..q];
    assert b[0] == BACKSLASH && b[1] == 0x75 && b[6] == s[i + 6] && b[7] == s[i + 7];
    assert FirstUnit(b, validate).Some? && FirstUnit(b, validate).value.1 == 12;
    RestThenWhole(s, i, q, validate, 12);
  }

  /** A successful `\u` escape read four hex digits, and went on past them. */
  lemma HexOfEscape(s: Bytes, i: nat, validate: bool, copied: Bytes, j: nat, out: Bytes) returns (n: nat)
    requires i + 1 < |s| && s[i + 1] == 0x75 && j <= |s|
    requires EscapeReads(Cursor(s, i + 1), validate, copied, Cursor(s, j), out)
    ensures i + 6 <= j && n < 0x1_0000
    ensures DecodeHexEscape(Cursor(s, i + 2)) == Success((n, Cursor(s, i + 6)))
    ensures ParseEscape(Cursor(s, i + 1), validate, copied) == CodeUnit(Cursor(s, i + 6), n, validate, copied)
  {
    LetterU(Cursor(s, i + 1), validate, copied);
    n := DecodeHexEscape(Cursor(s, i + 2)).value.0;
    HexEscapeRead(Cursor(s, i + 2), Cursor(s, i + 6), validate, copied, n);
  }

  /** A successful pair read a low surrogate after `\u`, and stopped after it. */
  lemma PairSound(s: Bytes, i: nat, q: nat, validate: bool, copied: Bytes, n: nat, j: nat, out: Bytes)
    requires i + 8 <= q < |s| && s[i + 1] == 0x75 && s[i + 6] == BACKSLASH && s[i + 7] == 0x75
    requires DecodeHexEscape(Cursor(s, i + 2)) == Success((n, Cursor(s, i + 6))) && 0xD800 <= n <= 0xDBFF
    requires j <= q && EscapeReads(Cursor(s, i + 1), validate, copied, Cursor(s, j), out)
    ensures j == i + 12 && HexAt(s[i..q], 8) && 0xDC00 <= HexValue4(s[i..q], 8) <= 0xDFFF
  {
    hide *;
    PairSoundAt(Cursor(s, i + 1), validate, copied, n, Cursor(s, j), out);
    HexFromBody(s, i, q, 8);
  }

  lemma PairSoundAt(r: SliceRead, validate: bool, copied: Bytes, n: nat, r': SliceRead, out: Bytes)
    requires HighEscapeAt(r, n) && r.index + 7 <= |r.slice|
    requires r.slice[r.index + 5] == BACKSLASH && r.slice[r.index + 6] == 0x75
    requires EscapeReads(r, validate, copied, r', out)
    ensures DecodeHexEscape(Cursor(r.slice, r.index + 7)).Success?
    ensures 0xDC00 <= DecodeHexEscape(Cursor(r.slice, r.index + 7)).value.0 <= 0xDFFF
    ensures r'.index == r.index + 11
  {
    PairPrefix(r, validate, copied, n);
    LowHalfSucceeds(Cursor(r.slice, r.index + 7), n, copied);
  }

  lemma LowHalfSucceeds(r: SliceRead, n1: nat, scratch: Bytes)
    requires 0xD800 <= n1 <= 0xDBFF && LowHalf(r, n1, scratch).Success?
    ensures DecodeHexEscape(r).Success? && 0xDC00 <= DecodeHexEscape(r).value.0 <= 0xDFFF
    ensures LowHalf(r, n1, scratch).value.0 == DecodeHexEscape(r).value.1
  {
  }

  /** A successful scan from `i` stopped at a quote before which the body decodes. */
  predicate SoundFrom(s: Bytes, i: nat, validate: bool, res: Result<(Reference, SliceRead), Error>) {
    res.Success? ==> i < res.value.1.index <= |s| && Decoded(s[i..res.value.1.index - 1], validate).Some?
  }

  /** The loop at `i`: when it succeeds, the body up to the quote where it stopped decodes. */
  lemma {:induction false} LoopSound(s: Bytes, i: nat, start: nat, scratch: Bytes, validate: bool)
    requires start <= i <= |s|
    ensures SoundFrom(s, i, validate, ParseStrLoop(Cursor(s, i), start, scratch, validate, false))
    decreases |s| - i, 1
  {
    if i == |s| || (validate && s[i] < 0x20) {
      LoopFails(s, i, start, scratch, validate);
    } else if s[i] == QUOTE {
      QuoteReached(s, i, start, scratch, validate);
      assert s[i..i] == [];
    } else if s[i] == BACKSLASH {
      BackslashLoopSound(s, i, start, scratch, validate);
    } else {
      VerbatimLoopSound(s, i, start, scratch, validate);
    }
  }

  lemma {:induction false} BackslashLoopSound(s: Bytes, i: nat, start: nat, scratch: Bytes, validate: bool)
    requires start <= i < |s| && s[i] == BACKSLASH
    ensures SoundFrom(s, i, validate, ParseStrLoop(Cursor(s, i), start, scratch, validate, false))
    decreases |s| - i, 0
  {
    hide ParseStrLoop, AtStop, AtBackslash, ParseEscape, ParseHexEscape, CodeUnit, HighSurrogate, AfterBackslash, LowHalf, DecodeHexEscape, HexLoop, IgnoreStr, IgnoreAtStop, IgnoreEscape, SkipPlain, Decoded, FirstUnit;
    var res := ParseStrLoop(Cursor(s, i), start, scratch, validate, false);
    if res.Success? {
      var j, out := BackslashSound(s, i, start, scratch, validate);
      LoopSound(s, j, j, out, validate);
      var q: nat := res.value.1.index - 1;
      EscapeSound(s, i, q, validate, scratch + s[start..i], j, out);
    }
  }

  lemma {:induction false} VerbatimLoopSound(s: Bytes, i: nat, start: nat, scratch: Bytes, validate: bool)
    requires start <= i < |s| && s[i] != QUOTE && s[i] != BACKSLASH && (validate ==> s[i] >= 0x20)
    ensures SoundFrom(s, i, validate, ParseStrLoop(Cursor(s, i), start, scratch, validate, false))
    decreases |s| - i, 0
  {
    hide ParseStrLoop, AtStop, AtBackslash, ParseEscape, ParseHexEscape, CodeUnit, HighSurrogate, AfterBackslash, LowHalf, DecodeHexEscape, HexLoop, IgnoreStr, IgnoreAtStop, IgnoreEscape, SkipPlain, Decoded, FirstUnit;
    var res := ParseStrLoop(Cursor(s, i), start, scratch, validate, false);
    VerbatimStep(s, i, start, scratch, validate);
    LoopSound(s, i + 1, start, scratch, validate);
    if res.Success? {
      var q: nat := res.value.1.index - 1;
      VerbatimSound(s, i, q, validate);
    }
  }

  /** The loop fails at the end of the input, and at a control byte when validating. */
  lemma LoopFails(s: Bytes, i: nat, start: nat, scratch: Bytes, validate: bool)
    requires start <= i <= |s| && (i == |s| || (validate && s[i] < 0x20))
    ensures ParseStrLoop(Cursor(s, i), start, scratch, validate, false).Failure?
  {
    var r: SliceRead := Cursor(s, i);
    SkipPlainIs(s, i, i);
    LoopSkips(r, r, start, scratch, validate, false);
    if i < |s| {
      StopAtControl(r, Cursor(s, i + 1), start, scratch, validate, false);
    }
  }

  /** A loop that succeeds past a backslash decoded the escape there and resumed after it. */
  lemma BackslashSound(s: Bytes, i: nat, start: nat, scratch: Bytes, validate: bool) returns (j: nat, out: Bytes)
    requires start <= i < |s| && s[i] == BACKSLASH
    requires ParseStrLoop(Cursor(s, i), start, scratch, validate, false).Success?
    ensures i + 1 < j <= |s| && EscapeReads(Cursor(s, i + 1), validate, scratch + s[start..i], Cursor(s, j), out)
    ensures ParseStrLoop(Cursor(s, j), j, out, validate, false) == ParseStrLoop(Cursor(s, i), start, scratch, validate, false)
  {
    var r: SliceRead := Cursor(s, i);
    SkipPlainIs(s, i, i);
    LoopSkips(r, r, start, scratch, validate, false);
    StopAtBackslash(r, Cursor(s, i + 1), start, scratch, validate, false);
    var esc := ParseEscape(Cursor(s, i + 1), validate, scratch + s[start..i]);
    j, out := esc.value.0.index, esc.value.1;
  }

  lemma VerbatimSound(s: Bytes, i: nat, q: nat, validate: bool)
    requires i < q <= |s| && s[i] != QUOTE && s[i] != BACKSLASH && (validate ==> s[i] >= 0x20)
    requires Decoded(s[i + 1..q], validate).Some?
    ensures Decoded(s[i..q], validate).Some?
  {
    BodyFrom(s, i, 1, q);
  }

  // ---- the reader's entry points ----

  /** A successful scan from the cursor stopped just past a quote, and the body before it decodes. */
  lemma StrBytesStops(r: SliceRead, scratch: Bytes, validate: bool) returns (q: nat)
    requires ParseStrBytes(r, scratch, validate, false).Success?
    ensures r.index <= q < |r.slice| && r.slice[q] == QUOTE
    ensures ParseStrBytes(r, scratch, validate, false).value.1 == Cursor(r.slice, q + 1)
    ensures Decoded(r.slice[r.index..q], validate).Some?
  {
    LoopSound(r.slice, r.index, r.index, scratch, validate);
    q := ParseStrBytes(r, scratch, validate, false).value.1.index - 1;
  }

  /** The UTF-8 check only ever turns a success into a failure. */
  lemma CheckedSuccess(r: SliceRead, scratch: Bytes, validate: bool, checkUtf8: bool)
    requires ParseStrBytes(r, scratch, validate, checkUtf8).Success?
    ensures ParseStrBytes(r, scratch, validate, false) == ParseStrBytes(r, scratch, validate, checkUtf8)
  {
    if checkUtf8 {
      LoopChecksAtFinish(r, r.index, scratch, validate);
    }
  }

  /**
   * `parse_str_bytes` without the UTF-8 check, against the meaning of the
   * body: it stops at the quote `q` exactly when the body before `q`
   * decodes; it then returns the scratch buffer followed by the decoded
   * body, borrowed exactly when the buffer was empty and the body has no
   * escape.
   */
  lemma StrBytesMeaning(r: SliceRead, q: nat, scratch: Bytes, validate: bool)
    requires r.index <= q < |r.slice| && r.slice[q] == QUOTE
    ensures var res := ParseStrBytes(r, scratch, validate, false);
            (res.Success? && res.value.1.index == q + 1) <==> Decoded(r.slice[r.index..q], validate).Some?
    ensures Decoded(r.slice[r.index..q], validate).Some? ==>
              Reaches(ParseStrBytes(r, scratch, validate, false), r.slice, q,
                      scratch + Decoded(r.slice[r.index..q], validate).value,
                      |scratch| == 0 && BACKSLASH !in r.slice[r.index..q])
  {
    hide ParseStrLoop, AtStop, AtBackslash, ParseEscape, ParseHexEscape, CodeUnit, HighSurrogate, AfterBackslash, LowHalf, DecodeHexEscape, HexLoop, IgnoreStr, IgnoreAtStop, IgnoreEscape, SkipPlain, Decoded, FirstUnit, ParseStrBytes;
    if Decoded(r.slice[r.index..q], validate).Some? {
      StrBytesDecode(r, q, scratch, validate);
    } else if ParseStrBytes(r, scratch, validate, false).Success? {
      var q' := StrBytesStops(r, scratch, validate);
    }
  }

  lemma StrBytesDecode(r: SliceRead, q: nat, scratch: Bytes, validate: bool)
    requires r.index <= q < |r.slice| && r.slice[q] == QUOTE
    requires Decoded(r.slice[r.index..q], validate).Some?
    ensures Reaches(ParseStrBytes(r, scratch, validate, false), r.slice, q,
                    scratch + Decoded(r.slice[r.index..q], validate).value,
                    |scratch| == 0 && BACKSLASH !in r.slice[r.index..q])
  {
    hide ParseStrLoop, AtStop, AtBackslash, ParseEscape, ParseHexEscape, CodeUnit, HighSurrogate, AfterBackslash, LowHalf, DecodeHexEscape, HexLoop, IgnoreStr, IgnoreAtStop, IgnoreEscape, SkipPlain, Decoded, FirstUnit;
    LoopDecodes(r.slice, r.index, r.index, q, scratch, validate);
    assert scratch + r.slice[r.index..r.index] == scratch;
  }

  /** `parse_str_raw`: no validation, no UTF-8 check. */
  lemma RawMeaning(r: SliceRead, q: nat, scratch: Bytes)
    requires r.index <= q < |r.slice| && r.slice[q] == QUOTE
    ensures var res := ParseStrRaw(r, scratch);
            (res.Success? && res.value.1.index == q + 1) <==> Decoded(r.slice[r.index..q], false).Some?
    ensures Decoded(r.slice[r.index..q], false).Some? ==>
              Reaches(ParseStrRaw(r, scratch), r.slice, q,
                      scratch + Decoded(r.slice[r.index..q], false).value,
                      |scratch| == 0 && BACKSLASH !in r.slice[r.index..q])
  {
    StrBytesMeaning(r, q, scratch, false);
  }

  /**
   * `parse_str`: where the validated body up to `q` decodes, the string
   * ends at `q` when its bytes are valid UTF-8 and fails with
   * `InvalidUnicodeCodePoint` just past the quote otherwise.
   */
  lemma ParseStrMeaning(r: SliceRead, q: nat, scratch: Bytes)
    requires r.index <= q < |r.slice| && r.slice[q] == QUOTE
    requires Decoded(r.slice[r.index..q], true).Some?
    ensures var out := scratch + Decoded(r.slice[r.index..q], true).value;
            Utf8.Valid(out) ==>
              Reaches(ParseStr(r, scratch), r.slice, q, out, |scratch| == 0 && BACKSLASH !in r.slice[r.index..q])
    ensures var out := scratch + Decoded(r.slice[r.index..q], true).value;
            !Utf8.Valid(out) ==> ParseStr(r, scratch) == Failure(ErrorAt(Cursor(r.slice, q + 1), InvalidUnicodeCodePoint))
  {
    hide ParseStrLoop, AtStop, AtBackslash, ParseEscape, ParseHexEscape, CodeUnit, HighSurrogate, AfterBackslash, LowHalf, DecodeHexEscape, HexLoop, IgnoreStr, IgnoreAtStop, IgnoreEscape, SkipPlain, Decoded, FirstUnit;
    StrBytesDecode(r, q, scratch, true);
    LoopChecksAtFinish(r, r.index, scratch, true);
  }

  /** Every string `parse_str` accepts is its validated body, decoded. */
  lemma ParseStrSound(r: SliceRead, scratch: Bytes)
    requires ParseStr(r, scratch).Success?
    ensures var q := ParseStr(r, scratch).value.1.index - 1;
            r.index <= q && Decoded(r.slice[r.index..q], true).Some? &&
            ParseStr(r, scratch).value.0.Bytes() == scratch + Decoded(r.slice[r.index..q], true).value
  {
    hide ParseStrLoop, AtStop, AtBackslash, ParseEscape, ParseHexEscape, CodeUnit, HighSurrogate, AfterBackslash, LowHalf, DecodeHexEscape, HexLoop, IgnoreStr, IgnoreAtStop, IgnoreEscape, SkipPlain, Decoded, FirstUnit, ParseStrBytes;
    CheckedSuccess(r, scratch, true, true);
    var q := StrBytesStops(r, scratch, true);
    StrBytesDecode(r, q, scratch, true);
  }

  // ---- `ignore_str` ----

  lemma IgnoreVerbatim(s: Bytes, i: nat, j: nat)
    requires i < |s| && j == i + 1 && s[i] != QUOTE && s[i] != BACKSLASH && s[i] >= 0x20
    ensures IgnoreStr(Cursor(s, i)) == IgnoreStr(Cursor(s, j))
  {
    assert SkipPlain(s, i) == SkipPlain(s, j);
  }

  lemma IgnoreBackslash(s: Bytes, i: nat, j: nat)
    requires i < |s| && s[i] == BACKSLASH && j <= |s|
    requires IgnoreEscape(Cursor(s, i + 1)) == Success(Cursor(s, j))
    ensures IgnoreStr(Cursor(s, i)) == IgnoreStr(Cursor(s, j))
  {
    hide *;
    IgnoreAtBackslash(Cursor(s, i), Cursor(s, j));
  }

  /** At a stop byte `ignore_str` goes straight to its decision. */
  lemma IgnoreStops(r: SliceRead)
    requires r.index < |r.slice| && EscapeStop(r.slice[r.index])
    ensures IgnoreStr(r) == IgnoreAtStop(r)
  {
    SkipPlainIs(r.slice, r.index, r.index);
  }

  lemma IgnoreAtBackslash(r: SliceRead, r2: SliceRead)
    requires r.index < |r.slice| && r.slice[r.index] == BACKSLASH
    requires IgnoreEscape(Discard(r)) == Success(r2)
    ensures IgnoreStr(r) == IgnoreStr(r2)
  {
    IgnoreStops(r);
  }

  lemma IgnoreQuote(s: Bytes, q: nat)
    requires q < |s| && s[q] == QUOTE
    ensures IgnoreStr(Cursor(s, q)) == Success(Cursor(s, q + 1))
  {
    IgnoreStops(Cursor(s, q));
  }

  /** `ignore_escape` skips `\u` and four hex digits, whatever they spell. */
  lemma IgnoreHexStep(s: Bytes, i: nat, n: nat)
    requires i + 6 <= |s| && s[i] == BACKSLASH && s[i + 1] == 0x75
    requires DecodeHexEscape(Cursor(s, i + 2)) == Success((n, Cursor(s, i + 6)))
    ensures IgnoreStr(Cursor(s, i)) == IgnoreStr(Cursor(s, i + 6))
  {
    hide *;
    IgnoreHexAt(Cursor(s, i), n);
  }

  lemma IgnoreHexAt(r: SliceRead, n: nat)
    requires r.index + 6 <= |r.slice| && r.slice[r.index] == BACKSLASH && r.slice[r.index + 1] == 0x75
    requires DecodeHexEscape(Cursor(r.slice, r.index + 2)) == Success((n, Cursor(r.slice, r.index + 6)))
    ensures IgnoreStr(r) == IgnoreStr(Cursor(r.slice, r.index + 6))
  {
    hide *;
    EscapeSkipsHexAt(Discard(r), n);
    IgnoreAtBackslash(r, Cursor(r.slice, r.index + 6));
  }

  lemma EscapeSkipsHexAt(r: SliceRead, n: nat)
    requires r.index < |r.slice| && r.slice[r.index] == 0x75
    requires DecodeHexEscape(Discard(r)) == Success((n, Cursor(r.slice, r.index + 5)))
    ensures IgnoreEscape(r) == Success(Cursor(r.slice, r.index + 5))
  {
  }

  lemma IgnoreShortStep(s: Bytes, i: nat)
    requires i + 2 <= |s| && s[i] == BACKSLASH && ShortEscape(s[i + 1]).Some?
    ensures IgnoreStr(Cursor(s, i)) == IgnoreStr(Cursor(s, i + 2))
  {
    ShortEscapeDecodes(Cursor(s, i + 1), false, []);
    IgnoreBackslash(s, i, i + 2);
  }

  /** `ignore_str` skips an escape unit of the body as a whole; a pair is skipped as two `\u` escapes. */
  lemma IgnoreUnit(s: Bytes, i: nat, q: nat, u: Bytes, j: nat)
    requires i < j <= q < |s| && s[q] == QUOTE && s[i] == BACKSLASH
    requires FirstUnit(s[i..q], false) == Some((u, j - i))
    ensures IgnoreStr(Cursor(s, i)) == IgnoreStr(Cursor(s, j))
  {
    var b := s[i..q];
    assert b[0] == BACKSLASH && b[1] == s[i + 1];
    if ShortEscape(b[1]).Some? {
      UnitShort(b, false);
      IgnoreShortStep(s, i);
    } else {
      IgnoreHexUnit(s, i, q, u, j);
    }
  }

  lemma IgnoreHexUnit(s: Bytes, i: nat, q: nat, u: Bytes, j: nat)
    requires i < j <= q < |s| && s[q] == QUOTE && s[i] == BACKSLASH && 2 <= q - i
    requires ShortEscape(s[i + 1]).None?
    requires FirstUnit(s[i..q], false) == Some((u, j - i))
    ensures IgnoreStr(Cursor(s, i)) == IgnoreStr(Cursor(s, j))
  {
    var b := s[i..q];
    assert b[0] == BACKSLASH && b[1] == s[i + 1];
    UnitHex(b, false);
    HexInBody(s, i, q, 2);
    var n := HexValue4(b, 2);
    IgnoreHexStep(s, i, n);
    if 0xD800 <= n <= 0xDBFF && PairNext(b, 6) {
      UnitPair(b, false);
      IgnoreSecondHalf(s, i, q);
    } else {
      UnitSingle(b, n);
    }
  }

  /** A `\uXXXX` unit that does not start a pair spans six bytes. */
  lemma UnitSingle(b: Bytes, n: nat)
    requires |b| >= 6 && b[0] == BACKSLASH && b[1] == 0x75 && HexAt(b, 2) && n == HexValue4(b, 2)
    requires !(0xD800 <= n <= 0xDBFF && PairNext(b, 6)) && FirstUnit(b, false).Some?
    ensures FirstUnit(b, false).value.1 == 6
  {
    if 0xDC00 <= n <= 0xDFFF {
      UnitLow(b, false);
    } else if n < 0xD800 || n > 0xDBFF {
      UnitBmp(b, false);
    } else {
      UnitLoneHigh(b, false);
    }
  }

  lemma IgnoreSecondHalf(s: Bytes, i: nat, q: nat)
    requires i < q < |s| && PairNext(s[i..q], 6) && HexAt(s[i..q], 8)
    ensures IgnoreStr(Cursor(s, i + 6)) == IgnoreStr(Cursor(s, i + 12))
  {
    hide ParseStrLoop, AtStop, AtBackslash, ParseEscape, ParseHexEscape, CodeUnit, HighSurrogate, AfterBackslash, LowHalf, DecodeHexEscape, HexLoop, IgnoreStr, IgnoreAtStop, IgnoreEscape, SkipPlain;
    var b := s[i..q];
    HexInBody(s, i, q, 8);
    assert s[i + 6] == b[6] && s[i + 7] == b[7];
    IgnoreHexStep(s, i + 6, HexValue4(b, 8));
  }

  /** `ignore_str` over a body that decodes without validation and holds no control byte. */
  lemma {:induction false} IgnoreDecodes(s: Bytes, i: nat, q: nat)
    requires i <= q < |s| && s[q] == QUOTE && Decoded(s[i..q], false).Some?
    requires forall x :: i <= x < q ==> s[x] >= 0x20
    ensures IgnoreStr(Cursor(s, i)) == Success(Cursor(s, q + 1))
    decreases q - i
  {
    if i == q {
      IgnoreQuote(s, q);
    } else {
      var j := IgnoreStep(s, i, q);
      IgnoreDecodes(s, j, q);
    }
  }

  /** `ignore_str` skips the first unit of a body that decodes. */
  lemma IgnoreStep(s: Bytes, i: nat, q: nat) returns (j: nat)
    requires i < q < |s| && s[q] == QUOTE && Decoded(s[i..q], false).Some?
    requires forall x :: i <= x < q ==> s[x] >= 0x20
    ensures i < j <= q && Decoded(s[j..q], false).Some?
    ensures forall x :: j <= x < q ==> s[x] >= 0x20
    ensures IgnoreStr(Cursor(s, i)) == IgnoreStr(Cursor(s, j))
  {
    var u;
    u, j := RestDecodes(s, i, q, false);
    if s[i] != BACKSLASH {
      IgnoreVerbatim(s, i, j);
    } else {
      IgnoreUnit(s, i, q, u, j);
    }
  }

  /** The first unit of the body from `i`, which ends at `j`, and the rest of the body, which decodes too. */
  lemma RestDecodes(s: Bytes, i: nat, q: nat, validate: bool) returns (u: Bytes, j: nat)
    requires i < q <= |s| && Decoded(s[i..q], validate).Some?
    ensures i < j <= q && FirstUnit(s[i..q], validate) == Some((u, j - i))
    ensures Decoded(s[j..q], validate).Some?
    ensures s[i] != BACKSLASH ==> j == i + 1 && s[i] != QUOTE && (validate ==> s[i] >= 0x20)
  {
    hide ParseStrLoop, AtStop, AtBackslash, ParseEscape, ParseHexEscape, CodeUnit, HighSurrogate, AfterBackslash, LowHalf, DecodeHexEscape, HexLoop, IgnoreStr, IgnoreAtStop, IgnoreEscape, SkipPlain, Decoded, FirstUnit;
    var b := s[i..q];
    DecodedStep(b, validate);
    var k;
    u, k := FirstUnit(b, validate).value.0, FirstUnit(b, validate).value.1;
    BodyFrom(s, i, k, q);
    assert b[0] == s[i];
    j := i + k;
  }

  /** The validated body up to `q` holds no control byte. */
  lemma NoControl(s: Bytes, i: nat, q: nat)
    requires i <= q <= |s| && Decoded(s[i..q], true).Some?
    ensures Decoded(s[i..q], false).Some?
    ensures forall x :: i <= x < q ==> s[x] >= 0x20
  {
    ValidatedDecoded(s[i..q]);
    forall x | i <= x < q ensures s[x] >= 0x20 {
      assert s[x] == s[i..q][x - i];
    }
  }

  /**
   * `ignore_str` accepts every string the validating `parse_str_bytes`
   * accepts, with or without the UTF-8 check, and stops just past the
   * same quote.
   */
  lemma IgnoreAgrees(r: SliceRead, scratch: Bytes, checkUtf8: bool)
    requires ParseStrBytes(r, scratch, true, checkUtf8).Success?
    ensures IgnoreStr(r) == Success(ParseStrBytes(r, scratch, true, checkUtf8).value.1)
  {
    hide ParseStrLoop, AtStop, AtBackslash, ParseEscape, ParseHexEscape, CodeUnit, HighSurrogate, AfterBackslash, LowHalf, DecodeHexEscape, HexLoop, IgnoreStr, IgnoreAtStop, IgnoreEscape, SkipPlain, Decoded, FirstUnit, ParseStrBytes;
    CheckedSuccess(r, scratch, true, checkUtf8);
    var q := StrBytesStops(r, scratch, true);
    NoControl(r.slice, r.index, q);
    IgnoreDecodes(r.slice, r.index, q);
  }
}

/**
 * The in-memory JSON reader: a cursor over a byte slice with one-byte
 * lookahead, line/column reporting, and the string scanner that turns the
 * body of a JSON string literal into bytes, either borrowed straight from
 * the input or decoded into a scratch buffer.
 */
module Reader {
  import opened Common
  import opened Errors
  import Utf8

  datatype Cursor = Cursor(slice: Bytes, index: nat)

  /** `SliceRead`: the index never passes the end of the slice. */
  type SliceRead = c: Cursor | c.index <= |c.slice| witness Cursor([], 0)

  datatype Position = Position(line: nat, column: nat)

  function New(slice: Bytes): (r: SliceRead)
    ensures r.slice == slice && r.index == 0
  {
    Cursor(slice, 0)
  }

  /**
   * `position_of_index`: line 1 column 0, then per byte of `slice[..i]` a
   * new line at each line feed and one more column otherwise.
   */
  function PositionOfIndex(slice: Bytes, i: nat): (p: Position)
    requires i <= |slice|
    ensures p.line == 1 + Newlines(slice[..i])
    ensures p.column == i - LineStart(slice[..i])
  {
    if i == 0 then Position(1, 0)
    else
      var p := PositionOfIndex(slice, i - 1);
      assert slice[..i] == slice[..i - 1] + [slice[i - 1]];
      LineFacts(slice[..i - 1], slice[i - 1]);
      if slice[i - 1] == NEWLINE then Position(p.line + 1, 0) else Position(p.line, p.column + 1)
  }

  /** `Read::position`. */
  function CurrentPosition(r: SliceRead): Position {
    PositionOfIndex(r.slice, r.index)
  }

  /** `Read::peek_position`: the position after the next byte, clamped to the end. */
  function PeekPosition(r: SliceRead): Position {
    PositionOfIndex(r.slice, if r.index + 1 < |r.slice| then r.index + 1 else |r.slice|)
  }

  /** `Read::byte_offset`. */
  function ByteOffset(r: SliceRead): nat {
    r.index
  }

  /** `Read::next`: the byte under the cursor, consumed; None at the end. */
  function Next(r: SliceRead): (res: (Option<byte>, SliceRead))
    ensures res.1.slice == r.slice
    ensures r.index < |r.slice| ==> res.0 == Some(r.slice[r.index]) && res.1.index == r.index + 1
    ensures r.index == |r.slice| ==> res.0 == None && res.1 == r
  {
    if r.index < |r.slice| then (Some(r.slice[r.index]), Cursor(r.slice, r.index + 1)) else (None, r)
  }

  /** `Read::peek`: the byte under the cursor, without consuming it. */
  function Peek(r: SliceRead): Option<byte> {
    if r.index < |r.slice| then Some(r.slice[r.index]) else None
  }

  /** `Read::discard`; the caller has just peeked a byte. */
  function Discard(r: SliceRead): (r': SliceRead)
    requires r.index < |r.slice|
    ensures r'.slice == r.slice && r'.index == r.index + 1
  {
    Cursor(r.slice, r.index + 1)
  }

  /** `set_failed`: the slice is cut at the cursor, so nothing more can be read. */
  function SetFailed(r: SliceRead): (r': SliceRead)
    ensures r'.slice == r.slice[..r.index] && r'.index == r.index
    ensures Next(r').0 == None
    ensures CurrentPosition(r') == CurrentPosition(r)
  {
    assert r.slice[..r.index][..r.index] == r.slice[..r.index];
    Cursor(r.slice[..r.index], r.index)
  }

  /** `peek` sees what `next` returns, and `discard` after it moves like `next`. */
  lemma PeekAgreesWithNext(r: SliceRead)
    ensures Peek(r) == Next(r).0
    ensures Peek(r).Some? ==> Discard(r) == Next(r).1
  {
  }

  /** `peek_position` is where the cursor stands once the peeked byte is consumed. */
  lemma PeekPositionAfterNext(r: SliceRead)
    ensures PeekPosition(r) == CurrentPosition(Next(r).1)
  {
  }

  /** Each `next` that yields a byte moves the byte offset by one. */
  lemma ByteOffsetCountsNext(r: SliceRead)
    ensures Next(r).0.Some? ==> ByteOffset(Next(r).1) == ByteOffset(r) + 1
    ensures Next(r).0.None? ==> ByteOffset(Next(r).1) == ByteOffset(r) == |r.slice|
  {
  }

  /** The reader's `error`: a syntax error at the cursor's position. */
  function ErrorAt(r: SliceRead, code: ErrorCode): (e: Error)
    ensures e.code == code
    ensures e.line == 1 + Newlines(r.slice[..r.index])
    ensures e.column == r.index - LineStart(r.slice[..r.index])
  {
    var p := CurrentPosition(r);
    SyntaxError(code, p.line, p.column)
  }

  /**
   * A byte the `unescaped` rule of section 7 of RFC 8259 admits inside a
   * string: 0x20-0x21, 0x23-0x5B, or 0x5D and above (bytes from 0x80 on
   * are pieces of UTF-8 sequences).
   */
  predicate Unescaped(b: byte) {
    (0x20 <= b <= 0x21) || (0x23 <= b <= 0x5B) || 0x5D <= b
  }

  /**
   * The `ESCAPE` table: the bytes that stop a verbatim run inside a
   * string, which are exactly those the grammar does not admit unescaped.
   */
  function EscapeStop(b: byte): (stop: bool)
    ensures stop <==> !Unescaped(b)
  {
    b < 0x20 || b == QUOTE || b == BACKSLASH
  }

  /** `next_or_eof`. */
  function NextOrEof(r: SliceRead): (res: Result<(byte, SliceRead), Error>)
    ensures r.index < |r.slice| ==> res == Success((r.slice[r.index], Discard(r)))
    ensures r.index == |r.slice| ==> res == Failure(ErrorAt(r, EofWhileParsingString))
  {
    match Next(r)
    case (Some(b), r') => Success((b, r'))
    case (None, _) => Failure(ErrorAt(r, EofWhileParsingString))
  }

  /** `peek_or_eof`. */
  function PeekOrEof(r: SliceRead): (res: Result<byte, Error>)
    ensures r.index < |r.slice| ==> res == Success(r.slice[r.index])
    ensures r.index == |r.slice| ==> res == Failure(ErrorAt(r, EofWhileParsingString))
  {
    match Peek(r)
    case Some(b) => Success(b)
    case None => Failure(ErrorAt(r, EofWhileParsingString))
  }

  /** `decode_hex_val`: the `HEX` table, 255 meaning "not a hex digit". */
  function DecodeHexVal(b: byte): (r: Option<nat>)
    ensures r.Some? <==> 0x30 <= b <= 0x39 || 0x41 <= b <= 0x46 || 0x61 <= b <= 0x66
    ensures r.Some? ==> r.value < 16
  {
    if 0x30 <= b <= 0x39 then Some(b - 0x30)
    else if 0x41 <= b <= 0x46 then Some(b - 0x41 + 10)
    else if 0x61 <= b <= 0x66 then Some(b - 0x61 + 10)
    else None
  }

  predicate IsHex(b: byte) {
    DecodeHexVal(b).Some?
  }

  /** The value of a hex digit. */
  function HexDigitValue(b: byte): nat
    requires IsHex(b)
  {
    DecodeHexVal(b).value
  }

  /** Each digit value has one lowercase and one uppercase digit, and the table reads both back. */
  lemma HexDigitsRoundTrip(n: nat)
    requires n < 16
    ensures DecodeHexVal(LowerHex(n)) == Some(n)
    ensures n >= 10 ==> DecodeHexVal(LowerHex(n) - 0x20) == Some(n)
  {
  }

  /** `n` followed by the digits of `s`, accumulated most significant first. */
  function HexFold(n: nat, s: Bytes): nat
    requires forall i :: 0 <= i < |s| ==> IsHex(s[i])
    decreases |s|
  {
    if |s| == 0 then n else HexFold(n * 16 + HexDigitValue(s[0]), s[1..])
  }

  /** The loop of `decode_hex_escape` with `k` digits still to read. */
  function HexLoop(r: SliceRead, k: nat, n: nat): (res: Result<(nat, SliceRead), Error>)
    requires r.index + k <= |r.slice|
    ensures res.Success? <==> forall i :: r.index <= i < r.index + k ==> IsHex(r.slice[i])
    ensures res.Success? ==> res.value.1 == Cursor(r.slice, r.index + k)
    ensures res.Success? ==> res.value.0 == HexFold(n, r.slice[r.index..r.index + k])
    decreases k
  {
    if k == 0 then Success((n, r))
    else
      var b := r.slice[r.index];
      var r' := Discard(r);
      match DecodeHexVal(b)
      case None => Failure(ErrorAt(r', InvalidEscape))
      case Some(v) =>
        assert r.slice[r.index..r.index + k][1..] == r.slice[r.index + 1..r.index + k];
        HexLoop(r', k - 1, n * 16 + v)
  }

  /**
   * `decode_hex_escape`: four hex digits of either case, big-endian. With
   * fewer than four bytes left it fails at the end of the slice.
   */
  function DecodeHexEscape(r: SliceRead): (res: Result<(nat, SliceRead), Error>)
    ensures r.index + 4 > |r.slice| ==>
              res == Failure(ErrorAt(Cursor(r.slice, |r.slice|), EofWhileParsingString))
    ensures res.Success? <==>
              r.index + 4 <= |r.slice| && forall i :: r.index <= i < r.index + 4 ==> IsHex(r.slice[i])
    ensures res.Success? ==> res.value.1 == Cursor(r.slice, r.index + 4) && res.value.0 < 0x1_0000
  {
    if r.index + 4 > |r.slice| then Failure(ErrorAt(Cursor(r.slice, |r.slice|), EofWhileParsingString))
    else
      var res := HexLoop(r, 4, 0);
      if res.Success? then
        HexLoopFour(r);
        res
      else res
  }

  /** The four digits, most significant first. */
  function HexValue4(s: Bytes, i: nat): nat
    requires i + 4 <= |s| && forall k :: i <= k < i + 4 ==> IsHex(s[k])
  {
    0x1000 * HexDigitValue(s[i]) + 0x100 * HexDigitValue(s[i + 1]) + 0x10 * HexDigitValue(s[i + 2]) + HexDigitValue(s[i + 3])
  }

  lemma HexLoopFour(r: SliceRead)
    requires r.index + 4 <= |r.slice| && HexLoop(r, 4, 0).Success?
    ensures HexLoop(r, 4, 0).value.0 == HexValue4(r.slice, r.index) < 0x1_0000
  {
    var s := r.slice[r.index..r.index + 4];
    assert s[1..][1..][1..][1..] == [];
  }

  /** A successful `decode_hex_escape` reads the four digits big-endian. */
  lemma DecodeHexEscapeValue(r: SliceRead)
    requires DecodeHexEscape(r).Success?
    ensures DecodeHexEscape(r).value.0 == HexValue4(r.slice, r.index)
  {
    HexLoopFour(r);
  }

  /** The first digit that is not hex fails the escape, reported just after that digit. */
  lemma HexLoopBadDigit(r: SliceRead, k: nat, n: nat, j: nat)
    requires r.index <= j < r.index + k <= |r.slice|
    requires forall i :: r.index <= i < j ==> IsHex(r.slice[i])
    requires !IsHex(r.slice[j])
    ensures HexLoop(r, k, n) == Failure(ErrorAt(Cursor(r.slice, j + 1), InvalidEscape))
    decreases k
  {
    if j > r.index {
      HexLoopBadDigit(Discard(r), k - 1, n * 16 + HexDigitValue(r.slice[r.index]), j);
    }
  }

  lemma DecodeHexEscapeBadDigit(r: SliceRead, j: nat)
    requires r.index <= j < r.index + 4 <= |r.slice|
    requires forall i :: r.index <= i < j ==> IsHex(r.slice[i])
    requires !IsHex(r.slice[j])
    ensures DecodeHexEscape(r) == Failure(ErrorAt(Cursor(r.slice, j + 1), InvalidEscape))
  {
    HexLoopBadDigit(r, 4, 0, j);
  }

  /** Four lowercase digits of a 16-bit value. */
  function Hex4(n: nat): (r: Bytes)
    requires n < 0x1_0000
    ensures |r| == 4
  {
    [LowerHex(n / 0x1000), LowerHex(n / 0x100 % 0x10), LowerHex(n / 0x10 % 0x10), LowerHex(n % 0x10)]
  }

  /** The four digits of `Hex4`, weighted, add back up to the value. */
  lemma Hex4Digits(n: nat)
    requires n < 0x1_0000
    ensures n / 0x1000 < 16
    ensures n == 0x1000 * (n / 0x1000) + 0x100 * (n / 0x100 % 0x10) + 0x10 * (n / 0x10 % 0x10) + n % 0x10
  {
    var q1 := n / 0x10;
    var q2 := n / 0x100;
    assert n == 0x10 * q1 + n % 0x10;
    assert q2 == q1 / 0x10;
    assert q1 == 0x10 * q2 + q1 % 0x10;
    assert q1 % 0x10 == n / 0x10 % 0x10;
    assert n / 0x1000 == q2 / 0x10;
    assert q2 == 0x10 * (n / 0x1000) + q2 % 0x10;
  }

  /** `decode_hex_escape` reads back any 16-bit value written as four hex digits. */
  lemma DecodeHex4(r: SliceRead, n: nat)
    requires n < 0x1_0000
    requires r.index + 4 <= |r.slice| && r.slice[r.index..r.index + 4] == Hex4(n)
    ensures DecodeHexEscape(r) == Success((n, Cursor(r.slice, r.index + 4)))
  {
    var s, i := r.slice, r.index;
    Hex4Digits(n);
    var a, b, c, d := n / 0x1000, n / 0x100 % 0x10, n / 0x10 % 0x10, n % 0x10;
    assert s[i] == LowerHex(a) && s[i + 1] == LowerHex(b) by {
      assert s[i] == s[i..i + 4][0] && s[i + 1] == s[i..i + 4][1];
    }
    assert s[i + 2] == LowerHex(c) && s[i + 3] == LowerHex(d) by {
      assert s[i + 2] == s[i..i + 4][2] && s[i + 3] == s[i..i + 4][3];
    }
    HexDigitsRoundTrip(a);
    HexDigitsRoundTrip(b);
    HexDigitsRoundTrip(c);
    HexDigitsRoundTrip(d);
    assert forall k :: i <= k < i + 4 ==> IsHex(s[k]) by {
      forall k | i <= k < i + 4 ensures IsHex(s[k]) {
        assert k == i || k == i + 1 || k == i + 2 || k == i + 3;
      }
    }
    var res := DecodeHexEscape(r);
    assert res.Success?;
    DecodeHexEscapeValue(r);
    assert res.value.0 == 0x1000 * a + 0x100 * b + 0x10 * c + d;
  }

  /**
   * The code point of a UTF-16 surrogate pair. The source shifts the high
   * half left by ten bits and ORs in the low half; the low ten bits of the
   * shifted value are zero, so the OR is this sum.
   */
  function CombineSurrogates(n1: nat, n2: nat): (c: nat)
    requires 0xD800 <= n1 <= 0xDBFF && 0xDC00 <= n2 <= 0xDFFF
    ensures 0x1_0000 <= c < 0x11_0000 && Utf8.IsScalar(c)
  {
    (n1 - 0xD800) * 0x400 + (n2 - 0xDC00) + 0x1_0000
  }

  /** Every supplementary code point has exactly one surrogate pair, found by splitting it. */
  lemma CombineSurrogatesInverse(c: nat)
    requires 0x1_0000 <= c < 0x11_0000
    ensures var n1 := 0xD800 + (c - 0x1_0000) / 0x400;
            var n2 := 0xDC00 + (c - 0x1_0000) % 0x400;
            0xD800 <= n1 <= 0xDBFF && 0xDC00 <= n2 <= 0xDFFF && CombineSurrogates(n1, n2) == c
  {
  }

  /** The byte an escape letter stands for, for the eight short escapes. */
  function ShortEscape(letter: byte): (r: Option<byte>)
    ensures r.Some? <==> letter in {QUOTE, BACKSLASH, SLASH, 0x62, 0x66, 0x6E, 0x72, 0x74}
  {
    if letter == QUOTE then Some(QUOTE)
    else if letter == BACKSLASH then Some(BACKSLASH)
    else if letter == SLASH then Some(SLASH)
    else if letter == 0x62 then Some(0x08)
    else if letter == 0x66 then Some(0x0C)
    else if letter == 0x6E then Some(0x0A)
    else if letter == 0x72 then Some(0x0D)
    else if letter == 0x74 then Some(0x09)
    else None
  }

  /**
   * `parse_escape`: decodes the escape after a backslash, appending its
   * bytes to `scratch`. Without validation a lone surrogate is written in
   * the three-byte form; with it, a lone surrogate is an error.
   */
  function ParseEscape(r: SliceRead, validate: bool, scratch: Bytes): (res: Result<(SliceRead, Bytes), Error>)
    ensures res.Success? ==> res.value.0.slice == r.slice && r.index < res.value.0.index
    decreases |r.slice| - r.index, 0
  {
    var (ch, r1) :- NextOrEof(r);
    if ShortEscape(ch).Some? then Success((r1, scratch + [ShortEscape(ch).value]))
    else if ch != 0x75 then Failure(ErrorAt(r1, InvalidEscape))
    else ParseHexEscape(r1, validate, scratch)
  }

  /** The `u` arm of `parse_escape`, after the letter. */
  function ParseHexEscape(r: SliceRead, validate: bool, scratch: Bytes): (res: Result<(SliceRead, Bytes), Error>)
    ensures res.Success? ==> res.value.0.slice == r.slice && r.index < res.value.0.index
    decreases |r.slice| - r.index, 0
  {
    var (n, r2) :- DecodeHexEscape(r);
    CodeUnit(r2, n, validate, scratch)
  }

  /** What `parse_escape` does with the code unit `n` just read. */
  function CodeUnit(r: SliceRead, n: nat, validate: bool, scratch: Bytes): (res: Result<(SliceRead, Bytes), Error>)
    requires n < 0x1_0000
    ensures res.Success? ==> res.value.0.slice == r.slice && r.index <= res.value.0.index
    decreases |r.slice| - r.index, 2
  {
    if 0xDC00 <= n <= 0xDFFF then
      if validate then Failure(ErrorAt(r, LoneLeadingSurrogateInHexEscape))
      else Success((r, scratch + Utf8.ThreeBytes(n)))
    else if 0xD800 <= n <= 0xDBFF then HighSurrogate(r, n, validate, scratch)
    else Success((r, scratch + Utf8.Encode(n)))
  }

  /** After a high surrogate `n1`: a backslash must follow. */
  function HighSurrogate(r: SliceRead, n1: nat, validate: bool, scratch: Bytes): (res: Result<(SliceRead, Bytes), Error>)
    requires 0xD800 <= n1 <= 0xDBFF
    ensures res.Success? ==> res.value.0.slice == r.slice && r.index <= res.value.0.index
    decreases |r.slice| - r.index, 1
  {
    var b :- PeekOrEof(r);
    if b != BACKSLASH then
      if validate then Failure(ErrorAt(Discard(r), UnexpectedEndOfHexEscape))
      else Success((r, scratch + Utf8.ThreeBytes(n1)))
    else AfterBackslash(Discard(r), n1, validate, scratch)
  }

  /** After a high surrogate and a backslash: `u` must follow. */
  function AfterBackslash(r: SliceRead, n1: nat, validate: bool, scratch: Bytes): (res: Result<(SliceRead, Bytes), Error>)
    requires 0xD800 <= n1 <= 0xDBFF
    ensures res.Success? ==> res.value.0.slice == r.slice && r.index < res.value.0.index
    decreases |r.slice| - r.index, 1
  {
    var b :- PeekOrEof(r);
    if b != 0x75 then
      if validate then Failure(ErrorAt(Discard(r), UnexpectedEndOfHexEscape))
      else
        ParseEscape(r, validate, scratch + Utf8.ThreeBytes(n1))
    else LowHalf(Discard(r), n1, scratch)
  }

  /** After a high surrogate and `\u`: the low half of the pair. */
  function LowHalf(r: SliceRead, n1: nat, scratch: Bytes): (res: Result<(SliceRead, Bytes), Error>)
    requires 0xD800 <= n1 <= 0xDBFF
    ensures res.Success? ==> res.value.0.slice == r.slice && r.index < res.value.0.index
  {
    var (n2, r2) :- DecodeHexEscape(r);
    if n2 < 0xDC00 || n2 > 0xDFFF then Failure(ErrorAt(r2, LoneLeadingSurrogateInHexEscape))
    else Success((r2, scratch + Utf8.Encode(CombineSurrogates(n1, n2))))
  }

  /** An escape only ever appends to the scratch buffer, and appends at least one byte. */
  lemma {:induction false} EscapeExtends(r: SliceRead, validate: bool, scratch: Bytes)
    ensures Extends(ParseEscape(r, validate, scratch), scratch)
    decreases |r.slice| - r.index, 0
  {
    if r.index < |r.slice| {
      var ch := r.slice[r.index];
      if ShortEscape(ch).Some? {
        AppendExtends(scratch, [ShortEscape(ch).value]);
      } else if ch == 0x75 {
        assert ParseEscape(r, validate, scratch) == ParseHexEscape(Discard(r), validate, scratch);
        HexEscapeExtends(Discard(r), validate, scratch);
      }
    }
  }

  /** A successful decode appends to scratch and keeps what it held in front. */
  predicate Extends(res: Result<(SliceRead, Bytes), Error>, scratch: Bytes) {
    res.Success? ==> |scratch| < |res.value.1| && res.value.1[..|scratch|] == scratch
  }

  lemma AppendExtends(scratch: Bytes, more: Bytes)
    requires |more| > 0
    ensures forall r: SliceRead :: Extends(Success((r, scratch + more)), scratch)
  {
    assert (scratch + more)[..|scratch|] == scratch;
  }

  lemma {:induction false} HexEscapeExtends(r: SliceRead, validate: bool, scratch: Bytes)
    ensures Extends(ParseHexEscape(r, validate, scratch), scratch)
    decreases |r.slice| - r.index, 0
  {
    var d := DecodeHexEscape(r);
    if d.Success? {
      CodeUnitExtends(d.value.1, d.value.0, validate, scratch);
    }
  }

  lemma {:induction false} CodeUnitExtends(r: SliceRead, n: nat, validate: bool, scratch: Bytes)
    requires n < 0x1_0000
    ensures Extends(CodeUnit(r, n, validate, scratch), scratch)
    decreases |r.slice| - r.index, 2
  {
    if 0xDC00 <= n <= 0xDFFF {
      AppendExtends(scratch, Utf8.ThreeBytes(n));
    } else if 0xD800 <= n <= 0xDBFF {
      HighSurrogateExtends(r, n, validate, scratch);
    } else {
      AppendExtends(scratch, Utf8.Encode(n));
    }
  }

  lemma {:induction false} HighSurrogateExtends(r: SliceRead, n1: nat, validate: bool, scratch: Bytes)
    requires 0xD800 <= n1 <= 0xDBFF
    ensures Extends(HighSurrogate(r, n1, validate, scratch), scratch)
    decreases |r.slice| - r.index, 1
  {
    AppendExtends(scratch, Utf8.ThreeBytes(n1));
    if r.index < |r.slice| && r.slice[r.index] == BACKSLASH {
      AfterBackslashExtends(Discard(r), n1, validate, scratch);
    }
  }

  lemma {:induction false} AfterBackslashExtends(r: SliceRead, n1: nat, validate: bool, scratch: Bytes)
    requires 0xD800 <= n1 <= 0xDBFF
    ensures Extends(AfterBackslash(r, n1, validate, scratch), scratch)
    decreases |r.slice| - r.index, 1
  {
    if r.index < |r.slice| {
      if r.slice[r.index] != 0x75 {
        var t := scratch + Utf8.ThreeBytes(n1);
        EscapeExtends(r, validate, t);
        var res := ParseEscape(r, validate, t);
        if res.Success? {
          assert res.value.1[..|scratch|] == res.value.1[..|t|][..|scratch|];
        }
      } else {
        var d := DecodeHexEscape(Discard(r));
        if d.Success? && 0xDC00 <= d.value.0 <= 0xDFFF {
          AppendExtends(scratch, Utf8.Encode(CombineSurrogates(n1, d.value.0)));
        }
      }
    }
  }

  /** `ignore_escape`: checks the escape letter and skips four hex digits after `u`. */
  function IgnoreEscape(r: SliceRead): (res: Result<SliceRead, Error>)
    ensures res.Success? ==> res.value.slice == r.slice && r.index < res.value.index
  {
    var (ch, r1) :- NextOrEof(r);
    if ShortEscape(ch).Some? then Success(r1)
    else if ch != 0x75 then Failure(ErrorAt(r1, InvalidEscape))
    else
      var (_, r2) :- DecodeHexEscape(r1);
      Success(r2)
  }

  /** The inner `while` of the string loops: the end of the verbatim run starting at `i`. */
  function SkipPlain(slice: Bytes, i: nat): (j: nat)
    requires i <= |slice|
    ensures i <= j <= |slice|
    ensures forall k :: i <= k < j ==> !EscapeStop(slice[k])
    ensures j == |slice| || EscapeStop(slice[j])
    decreases |slice| - i
  {
    if i == |slice| || EscapeStop(slice[i]) then i else SkipPlain(slice, i + 1)
  }

  /** `Reference`: string bytes borrowed from the input, or copied into scratch space. */
  datatype Reference = Borrowed(borrowed: Bytes) | Copied(copied: Bytes) {
    function Bytes(): Common.Bytes {
      match this
      case Borrowed(b) => b
      case Copied(c) => c
    }
  }

  /**
   * The `result` callback of `parse_str_bytes`: with `checkUtf8` the bytes
   * must be well-formed UTF-8 (`as_str`), otherwise they pass unchanged.
   */
  function Finish(r: SliceRead, reference: Reference, checkUtf8: bool): (res: Result<(Reference, SliceRead), Error>)
    ensures res.Success? <==> !checkUtf8 || Utf8.Valid(reference.Bytes())
    ensures res.Success? ==> res.value == (reference, r)
    ensures res.Failure? ==> res.error == ErrorAt(r, InvalidUnicodeCodePoint)
  {
    if checkUtf8 && !Utf8.Valid(reference.Bytes()) then Failure(ErrorAt(r, InvalidUnicodeCodePoint))
    else Success((reference, r))
  }

  /**
   * The outer loop of `parse_str_bytes`; `slice[start..r.index]` is the
   * part of the current verbatim run not yet copied to `scratch`.
   */
  function ParseStrLoop(r: SliceRead, start: nat, scratch: Bytes, validate: bool, checkUtf8: bool)
    : (res: Result<(Reference, SliceRead), Error>)
    requires start <= r.index
    ensures res.Success? ==> res.value.1.slice == r.slice && r.index < res.value.1.index
    ensures res.Success? ==> r.slice[res.value.1.index - 1] == QUOTE
    ensures res.Success? && res.value.0.Borrowed? ==> |scratch| == 0
    ensures res.Success? && res.value.0.Copied? ==>
              |scratch| <= |res.value.0.copied| && res.value.0.copied[..|scratch|] == scratch
    ensures res.Success? && checkUtf8 ==> Utf8.Valid(res.value.0.Bytes())
    decreases |r.slice| - r.index, 2
  {
    AtStop(Cursor(r.slice, SkipPlain(r.slice, r.index)), start, scratch, validate, checkUtf8)
  }

  /** One round of the outer loop, with the cursor on the byte that ended the run (or at the end). */
  function AtStop(r: SliceRead, start: nat, scratch: Bytes, validate: bool, checkUtf8: bool)
    : (res: Result<(Reference, SliceRead), Error>)
    requires start <= r.index
    ensures res.Success? ==> res.value.1.slice == r.slice && r.index < res.value.1.index
    ensures res.Success? ==> r.slice[res.value.1.index - 1] == QUOTE
    ensures res.Success? && res.value.0.Borrowed? ==> |scratch| == 0
    ensures res.Success? && res.value.0.Copied? ==>
              |scratch| <= |res.value.0.copied| && res.value.0.copied[..|scratch|] == scratch
    ensures res.Success? && checkUtf8 ==> Utf8.Valid(res.value.0.Bytes())
    decreases |r.slice| - r.index, 1
  {
    var j := r.index;
    if j == |r.slice| then Failure(ErrorAt(r, EofWhileParsingString))
    else if r.slice[j] == QUOTE then
      if |scratch| == 0 then Finish(Discard(r), Borrowed(r.slice[start..j]), checkUtf8)
      else Finish(Discard(r), Copied(scratch + r.slice[start..j]), checkUtf8)
    else if r.slice[j] == BACKSLASH then AtBackslash(r, start, scratch, validate, checkUtf8)
    else if validate then Failure(ErrorAt(Discard(r), ControlCharacterWhileParsingString))
    else ParseStrLoop(Discard(r), start, scratch, validate, checkUtf8)
  }

  /**
   * A backslash ends the run: the run is copied to scratch, the escape
   * after it is decoded onto it, and a new run starts after the escape.
   */
  function AtBackslash(r: SliceRead, start: nat, scratch: Bytes, validate: bool, checkUtf8: bool)
    : (res: Result<(Reference, SliceRead), Error>)
    requires start <= r.index < |r.slice|
    ensures res.Success? ==> res.value.1.slice == r.slice && r.index < res.value.1.index
    ensures res.Success? ==> r.slice[res.value.1.index - 1] == QUOTE
    ensures res.Success? ==> res.value.0.Copied? && |scratch| < |res.value.0.copied|
    ensures res.Success? ==> res.value.0.copied[..|scratch|] == scratch
    ensures res.Success? && checkUtf8 ==> Utf8.Valid(res.value.0.Bytes())
    decreases |r.slice| - r.index, 0
  {
    var copied := scratch + r.slice[start..r.index];
    EscapeExtends(Discard(r), validate, copied);
    var (r2, decoded) :- ParseEscape(Discard(r), validate, copied);
    var res := ParseStrLoop(r2, r2.index, decoded, validate, checkUtf8);
    if res.Success? then
      PrefixChain(scratch, copied, decoded, res.value.0.copied);
      res
    else res
  }

  /** A prefix of a prefix: what scratch held before the run and the escape stays at its front. */
  lemma PrefixChain(scratch: Bytes, copied: Bytes, decoded: Bytes, out: Bytes)
    requires |scratch| <= |copied| && copied[..|scratch|] == scratch
    requires |copied| < |decoded| && decoded[..|copied|] == copied
    requires |decoded| <= |out| && out[..|decoded|] == decoded
    ensures |scratch| < |out| && out[..|scratch|] == scratch
  {
    assert out[..|scratch|] == out[..|decoded|][..|copied|][..|scratch|];
  }

  /**
   * `parse_str_bytes`: the body of a string whose opening quote has been
   * consumed, up to and including the closing quote.
   */
  function ParseStrBytes(r: SliceRead, scratch: Bytes, validate: bool, checkUtf8: bool)
    : (res: Result<(Reference, SliceRead), Error>)
    ensures res.Success? ==> res.value.1.slice == r.slice && r.index < res.value.1.index
    ensures res.Success? ==> r.slice[res.value.1.index - 1] == QUOTE
    ensures res.Success? && checkUtf8 ==> Utf8.Valid(res.value.0.Bytes())
  {
    ParseStrLoop(r, r.index, scratch, validate, checkUtf8)
  }

  /** `SliceRead::parse_str`: validated escapes and a UTF-8 check on the result. */
  function ParseStr(r: SliceRead, scratch: Bytes): (res: Result<(Reference, SliceRead), Error>)
    ensures res.Success? ==> res.value.1.slice == r.slice && r.index < res.value.1.index
    ensures res.Success? ==> r.slice[res.value.1.index - 1] == QUOTE
    ensures res.Success? ==> Utf8.Valid(res.value.0.Bytes())
  {
    ParseStrBytes(r, scratch, true, true)
  }

  /** `parse_str_raw`: no escape validation, no UTF-8 check. */
  function ParseStrRaw(r: SliceRead, scratch: Bytes): (res: Result<(Reference, SliceRead), Error>)
    ensures res.Success? ==> res.value.1.slice == r.slice && r.index < res.value.1.index
    ensures res.Success? ==> r.slice[res.value.1.index - 1] == QUOTE
  {
    ParseStrBytes(r, scratch, false, false)
  }

  /** The loop of `ignore_str`: control bytes are always rejected. */
  function IgnoreStr(r: SliceRead): (res: Result<SliceRead, Error>)
    ensures res.Success? ==> res.value.slice == r.slice && r.index < res.value.index
    ensures res.Success? ==> r.slice[res.value.index - 1] == QUOTE
    decreases |r.slice| - r.index, 1
  {
    IgnoreAtStop(Cursor(r.slice, SkipPlain(r.slice, r.index)))
  }

  function IgnoreAtStop(r: SliceRead): (res: Result<SliceRead, Error>)
    ensures res.Success? ==> res.value.slice == r.slice && r.index < res.value.index
    ensures res.Success? ==> r.slice[res.value.index - 1] == QUOTE
    decreases |r.slice| - r.index, 0
  {
    if r.index == |r.slice| then Failure(ErrorAt(r, EofWhileParsingString))
    else if r.slice[r.index] == QUOTE then Success(Discard(r))
    else if r.slice[r.index] == BACKSLASH then
      var r2 :- IgnoreEscape(Discard(r));
      IgnoreStr(r2)
    else Failure(ErrorAt(r, ControlCharacterWhileParsingString))
  }

  /** `StrRead`: a reader over text already known to be UTF-8. */
  datatype StrRead = StrRead(delegate: SliceRead)

  function StrNew(s: Bytes): (r: StrRead)
    requires Utf8.Valid(s)
    ensures r.delegate == New(s)
  {
    StrRead(New(s))
  }

  /** `StrRead::parse_str`: validated escapes, the result taken as UTF-8 unchecked. */
  function StrParseStr(r: StrRead, scratch: Bytes): (res: Result<(Reference, StrRead), Error>)
  {
    match ParseStrBytes(r.delegate, scratch, true, false)
    case Success((reference, d)) => Success((reference, StrRead(d)))
    case Failure(e) => Failure(e)
  }
}

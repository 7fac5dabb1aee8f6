/**
 * Errors raised while reading or writing JSON: the error codes, their
 * classification into categories, the human-readable rendering, and the
 * parser that recovers a position suffix from a custom message.
 */
module Errors {
  import opened Common

  datatype ErrorCode =
    | Message(msg: Bytes)
    | Io(detail: Bytes)
    | EofWhileParsingList
    | EofWhileParsingObject
    | EofWhileParsingString
    | EofWhileParsingValue
    | ExpectedColon
    | ExpectedListCommaOrEnd
    | ExpectedObjectCommaOrEnd
    | ExpectedSomeIdent
    | ExpectedSomeValue
    | InvalidEscape
    | InvalidNumber
    | NumberOutOfRange
    | InvalidUnicodeCodePoint
    | ControlCharacterWhileParsingString
    | KeyMustBeAString
    | LoneLeadingSurrogateInHexEscape
    | TrailingComma
    | TrailingCharacters
    | UnexpectedEndOfHexEscape
    | RecursionLimitExceeded

  datatype Category = Io | Syntax | Data | Eof

  /** An error with the 1-based line and the column where it was detected; line 0 means "no position". */
  datatype Error = Error(code: ErrorCode, line: nat, column: nat)

  predicate IsEofCode(code: ErrorCode) {
    code.EofWhileParsingList? || code.EofWhileParsingObject? ||
    code.EofWhileParsingString? || code.EofWhileParsingValue?
  }

  function Classify(e: Error): (c: Category)
    ensures c == Category.Data <==> e.code.Message?
    ensures c == Category.Io <==> e.code.Io?
    ensures c == Category.Eof <==> IsEofCode(e.code)
    ensures c == Category.Syntax <==> !e.code.Message? && !e.code.Io? && !IsEofCode(e.code)
  {
    match e.code
    case Message(_) => Category.Data
    case Io(_) => Category.Io
    case EofWhileParsingList => Category.Eof
    case EofWhileParsingObject => Category.Eof
    case EofWhileParsingString => Category.Eof
    case EofWhileParsingValue => Category.Eof
    case _ => Category.Syntax
  }

  predicate IsIo(e: Error) {
    Classify(e) == Category.Io
  }

  predicate IsSyntax(e: Error) {
    Classify(e) == Category.Syntax
  }

  predicate IsData(e: Error) {
    Classify(e) == Category.Data
  }

  predicate IsEof(e: Error) {
    Classify(e) == Category.Eof
  }

  /** Every error answers exactly one of the four category questions. */
  lemma ExactlyOneCategory(e: Error)
    ensures (if IsIo(e) then 1 else 0) + (if IsSyntax(e) then 1 else 0) +
            (if IsData(e) then 1 else 0) + (if IsEof(e) then 1 else 0) == 1
  {
  }

  /** `Error::syntax`: a code together with the position it was found at. */
  function SyntaxError(code: ErrorCode, line: nat, column: nat): Error {
    Error(code, line, column)
  }

  /** `Error::io`: an I/O failure carries no position. */
  function IoError(detail: Bytes): (e: Error)
    ensures e.line == 0 && e.column == 0
    ensures IsIo(e) && e.code == ErrorCode.Io(detail)
  {
    Error(ErrorCode.Io(detail), 0, 0)
  }

  /** `fix_position`: only an error without a position is rebuilt by `f`. */
  function FixPosition(e: Error, f: ErrorCode -> Error): (r: Error)
    ensures e.line != 0 ==> r == e
    ensures e.line == 0 ==> r == f(e.code)
  {
    if e.line == 0 then f(e.code) else e
  }

  /** `Display for ErrorCode`. */
  function CodeText(code: ErrorCode): Bytes {
    match code
    case Message(msg) => msg
    case Io(detail) => detail
    case EofWhileParsingList => Ascii("EOF while parsing a list")
    case EofWhileParsingObject => Ascii("EOF while parsing an object")
    case EofWhileParsingString => Ascii("EOF while parsing a string")
    case EofWhileParsingValue => Ascii("EOF while parsing a value")
    case ExpectedColon => Ascii("expected `:`")
    case ExpectedListCommaOrEnd => Ascii("expected `,` or `]`")
    case ExpectedObjectCommaOrEnd => Ascii("expected `,` or `}`")
    case ExpectedSomeIdent => Ascii("expected ident")
    case ExpectedSomeValue => Ascii("expected value")
    case InvalidEscape => Ascii("invalid escape")
    case InvalidNumber => Ascii("invalid number")
    case NumberOutOfRange => Ascii("number out of range")
    case InvalidUnicodeCodePoint => Ascii("invalid unicode code point")
    case ControlCharacterWhileParsingString =>
      Ascii("control character (\\u0000-\\u001F) found while parsing a string")
    case KeyMustBeAString => Ascii("key must be a string")
    case LoneLeadingSurrogateInHexEscape => Ascii("lone leading surrogate in hex escape")
    case TrailingComma => Ascii("trailing comma")
    case TrailingCharacters => Ascii("trailing characters")
    case UnexpectedEndOfHexEscape => Ascii("unexpected end of hex escape")
    case RecursionLimitExceeded => Ascii("recursion limit exceeded")
  }

  /** The text ` at line ` that introduces a position suffix. */
  function AtLine(): (r: Bytes)
    ensures |r| == 9
  {
    [0x20, 0x61, 0x74, 0x20, 0x6C, 0x69, 0x6E, 0x65, 0x20]
  }

  /** The text ` column ` between the two numbers of a position suffix. */
  function Column(): (r: Bytes)
    ensures |r| == 8
  {
    [0x20, 0x63, 0x6F, 0x6C, 0x75, 0x6D, 0x6E, 0x20]
  }

  /** ` at line L column C`, given the digits of L and of C. */
  function PositionSuffix(dl: Bytes, dc: Bytes): (r: Bytes)
    ensures |r| == 17 + |dl| + |dc|
  {
    AtLine() + dl + Column() + dc
  }

  /** `Display for ErrorImpl`: the code's text, then the position unless the line is 0. */
  function Display(e: Error): (r: Bytes)
    ensures |CodeText(e.code)| <= |r| && r[..|CodeText(e.code)|] == CodeText(e.code)
    ensures e.line == 0 <==> |r| == |CodeText(e.code)|
  {
    if e.line == 0 then CodeText(e.code)
    else CodeText(e.code) + PositionSuffix(Decimal(e.line), Decimal(e.column))
  }

  /** `starts_with_digit`. */
  function StartsWithDigit(s: Bytes): (r: bool)
    ensures r <==> |s| > 0 && IsDigit(s[0])
  {
    if |s| == 0 then false else IsDigit(s[0])
  }

  predicate OccursAt(s: Bytes, pat: Bytes, i: nat) {
    i + |pat| <= |s| && s[i..i + |pat|] == pat
  }

  /** `str::rfind`: the start of the last occurrence of `pat`. */
  function LastIndexOf(s: Bytes, pat: Bytes): (r: Option<nat>)
    ensures r.Some? ==> OccursAt(s, pat, r.value)
    ensures r.Some? ==> forall j: nat :: r.value < j ==> !OccursAt(s, pat, j)
    ensures r.None? ==> forall j: nat :: !OccursAt(s, pat, j)
    decreases |s|
  {
    if |s| < |pat| then None
    else if s[|s| - |pat|..] == pat then Some(|s| - |pat|)
    else
      var r := LastIndexOf(s[..|s| - 1], pat);
      PrefixOccurrences(s, pat);
      r
  }

  /** Away from the very end, `pat` occurs in `s` where it occurs in `s` without its last byte. */
  lemma PrefixOccurrences(s: Bytes, pat: Bytes)
    requires |pat| <= |s| && 0 < |s| && s[|s| - |pat|..] != pat
    ensures forall j: nat :: OccursAt(s, pat, j) <==> OccursAt(s[..|s| - 1], pat, j)
  {
    forall j: nat
      ensures OccursAt(s, pat, j) <==> OccursAt(s[..|s| - 1], pat, j)
    {
      if j + |pat| < |s| {
        assert s[..|s| - 1][j..j + |pat|] == s[j..j + |pat|];
      }
    }
  }

  /** The `while starts_with_digit(&msg[end..]) { end += 1 }` scan. */
  function DigitRunEnd(s: Bytes, i: nat): (e: nat)
    requires i <= |s|
    ensures i <= e <= |s|
    ensures AllDigits(s[i..e])
    ensures !StartsWithDigit(s[e..])
    decreases |s| - i
  {
    if StartsWithDigit(s[i..]) then
      var e := DigitRunEnd(s, i + 1);
      assert s[i..e] == [s[i]] + s[i + 1..e];
      e
    else i
  }

  /**
   * `parse_line_col`: when `msg` ends in ` at line L column C`, the two
   * numbers and the message with that suffix cut off.
   */
  function ParseLineCol(msg: Bytes): Option<(nat, nat, Bytes)> {
    match LastIndexOf(msg, AtLine())
    case None => None
    case Some(startOfSuffix) => ParsePositionAt(msg, startOfSuffix)
  }

  /** The part of `parse_line_col` after ` at line ` was found at `startOfSuffix`. */
  function ParsePositionAt(msg: Bytes, startOfSuffix: nat): Option<(nat, nat, Bytes)>
    requires startOfSuffix + |AtLine()| <= |msg|
  {
    var startOfLine := startOfSuffix + |AtLine()|;
    var endOfLine := DigitRunEnd(msg, startOfLine);
    if !(endOfLine + |Column()| <= |msg| && msg[endOfLine..endOfLine + |Column()|] == Column()) then None
    else
      var startOfColumn := endOfLine + |Column()|;
      var endOfColumn := DigitRunEnd(msg, startOfColumn);
      if endOfColumn < |msg| then None
      else ParseNumbers(msg[startOfLine..endOfLine], msg[startOfColumn..endOfColumn], msg[..startOfSuffix])
  }

  /** The last step of `parse_line_col`: both numbers must parse as `usize`. */
  function ParseNumbers(lineDigits: Bytes, columnDigits: Bytes, rest: Bytes): Option<(nat, nat, Bytes)> {
    match ParseUsize(lineDigits)
    case None => None
    case Some(line) =>
      match ParseUsize(columnDigits)
      case None => None
      case Some(column) => Some((line, column, rest))
  }

  /** On runs of digits, the numbers parse exactly when both runs are non-empty and fit a `usize`. */
  lemma NumbersOfDigits(lineDigits: Bytes, columnDigits: Bytes, rest: Bytes)
    requires AllDigits(lineDigits) && AllDigits(columnDigits)
    ensures ParseNumbers(lineDigits, columnDigits, rest).Some? <==>
              && |lineDigits| > 0 && DigitsValue(lineDigits) <= USIZE_MAX
              && |columnDigits| > 0 && DigitsValue(columnDigits) <= USIZE_MAX
    ensures ParseNumbers(lineDigits, columnDigits, rest).Some? ==>
              ParseNumbers(lineDigits, columnDigits, rest).value ==
                (DigitsValue(lineDigits), DigitsValue(columnDigits), rest)
  {
    DigitsParse(lineDigits);
    DigitsParse(columnDigits);
  }

  /** `make_error`: a custom message, with its position suffix moved into the error. */
  function MakeError(msg: Bytes): (e: Error)
    ensures IsData(e)
  {
    match ParseLineCol(msg)
    case Some((line, column, rest)) => Error(Message(rest), line, column)
    case None => Error(Message(msg), 0, 0)
  }

  /**
   * What a successful `parse_line_col` has seen: the message, then
   * ` at line `, non-empty digits for the line, ` column `, and non-empty
   * digits for the column running to the end.
   */
  lemma ParseLineColSound(msg: Bytes)
    requires ParseLineCol(msg).Some?
    ensures var (line, column, m) := ParseLineCol(msg).value;
            exists dl: Bytes, dc: Bytes ::
              && msg == m + PositionSuffix(dl, dc)
              && |dl| > 0 && AllDigits(dl) && DigitsValue(dl) == line
              && |dc| > 0 && AllDigits(dc) && DigitsValue(dc) == column
  {
    var s := LastIndexOf(msg, AtLine()).value;
    ParsePositionAtSound(msg, s);
  }

  lemma ParsePositionAtSound(msg: Bytes, s: nat)
    requires OccursAt(msg, AtLine(), s)
    requires ParsePositionAt(msg, s).Some?
    ensures var (line, column, m) := ParsePositionAt(msg, s).value;
            exists dl: Bytes, dc: Bytes ::
              && msg == m + PositionSuffix(dl, dc)
              && |dl| > 0 && AllDigits(dl) && DigitsValue(dl) == line
              && |dc| > 0 && AllDigits(dc) && DigitsValue(dc) == column
  {
    var el := ParsePositionAtFacts(msg, s);
    SplitAtSuffix(msg, s, el);
  }

  /** What `parse_line_col` checked before returning a position; `el` ends the line digits. */
  lemma ParsePositionAtFacts(msg: Bytes, s: nat) returns (el: nat)
    requires s + 9 <= |msg|
    requires ParsePositionAt(msg, s).Some?
    ensures s + 9 <= el && el + 8 <= |msg| && msg[el..el + 8] == Column()
    ensures |msg[s + 9..el]| > 0 && AllDigits(msg[s + 9..el])
    ensures |msg[el + 8..]| > 0 && AllDigits(msg[el + 8..])
    ensures ParsePositionAt(msg, s).value ==
              (DigitsValue(msg[s + 9..el]), DigitsValue(msg[el + 8..]), msg[..s])
  {
    el := DigitRunEnd(msg, s + 9);
    PositionLineFacts(msg, s, el);
    PositionColumnFacts(msg, s, el);
  }

  /** A position was found: the column marker follows the line digits, the column digits end the message. */
  lemma PositionShape(msg: Bytes, s: nat, el: nat)
    requires s + 9 <= |msg| && el == DigitRunEnd(msg, s + 9)
    requires ParsePositionAt(msg, s).Some?
    ensures el + 8 <= |msg| && msg[el..el + 8] == Column()
    ensures DigitRunEnd(msg, el + 8) == |msg|
    ensures ParsePositionAt(msg, s) == ParseNumbers(msg[s + 9..el], msg[el + 8..], msg[..s])
  {
    assert msg[el + 8..] == msg[el + 8..|msg|];
  }

  lemma PositionLineFacts(msg: Bytes, s: nat, el: nat)
    requires s + 9 <= |msg| && el == DigitRunEnd(msg, s + 9)
    requires ParsePositionAt(msg, s).Some?
    ensures el + 8 <= |msg| && msg[el..el + 8] == Column()
    ensures |msg[s + 9..el]| > 0 && AllDigits(msg[s + 9..el])
    ensures ParsePositionAt(msg, s).value.0 == DigitsValue(msg[s + 9..el])
    ensures ParsePositionAt(msg, s).value.2 == msg[..s]
  {
    PositionShape(msg, s, el);
    PositionDigits(msg, el);
    NumbersOfDigits(msg[s + 9..el], msg[el + 8..], msg[..s]);
  }

  lemma PositionColumnFacts(msg: Bytes, s: nat, el: nat)
    requires s + 9 <= |msg| && el == DigitRunEnd(msg, s + 9)
    requires ParsePositionAt(msg, s).Some?
    ensures el + 8 <= |msg|
    ensures |msg[el + 8..]| > 0 && AllDigits(msg[el + 8..])
    ensures ParsePositionAt(msg, s).value.1 == DigitsValue(msg[el + 8..])
  {
    PositionShape(msg, s, el);
    PositionDigits(msg, el);
    NumbersOfDigits(msg[s + 9..el], msg[el + 8..], msg[..s]);
  }

  /** The column digits run to the end of the message. */
  lemma PositionDigits(msg: Bytes, el: nat)
    requires el + 8 <= |msg| && DigitRunEnd(msg, el + 8) == |msg|
    ensures AllDigits(msg[el + 8..])
  {
    assert msg[el + 8..] == msg[el + 8..|msg|];
  }

  /** On a run of digits, `usize::from_str` reads their value, when it is non-empty and fits. */
  lemma DigitsParse(d: Bytes)
    requires AllDigits(d)
    ensures ParseUsize(d).Some? <==> |d| > 0 && DigitsValue(d) <= USIZE_MAX
    ensures ParseUsize(d).Some? ==> ParseUsize(d).value == DigitsValue(d)
  {
  }

  /** A message whose suffix has the shape of a position suffix is split by it. */
  lemma SplitAtSuffix(msg: Bytes, s: nat, el: nat)
    requires OccursAt(msg, AtLine(), s)
    requires s + 9 <= el && el + 8 <= |msg| && msg[el..el + 8] == Column()
    ensures msg == msg[..s] + PositionSuffix(msg[s + 9..el], msg[el + 8..])
  {
    assert msg[s..s + 9] == AtLine();
  }

  /** Inside a position suffix, no space after the first is followed by `a`. */
  lemma SuffixSpaces(dl: Bytes, dc: Bytes, k: nat)
    requires AllDigits(dl) && |dc| > 0 && AllDigits(dc)
    requires 0 < k && k + 1 < |PositionSuffix(dl, dc)|
    ensures var t := PositionSuffix(dl, dc);
            t[k] != 0x20 || t[k + 1] != 0x61
  {
    var t := PositionSuffix(dl, dc);
    if k < 8 {
      assert t[k] == AtLine()[k] && t[k + 1] == AtLine()[k + 1];
    } else if k < 9 + |dl| {
      assert t[k + 1] == if k + 1 < 9 + |dl| then dl[k + 1 - 9] else 0x20;
    } else if k < 16 + |dl| {
      assert t[k] == Column()[k - 9 - |dl|] && t[k + 1] == Column()[k + 1 - 9 - |dl|];
    } else if k == 16 + |dl| {
      assert t[k + 1] == dc[0];
    } else {
      assert t[k] == dc[k - 17 - |dl|];
    }
  }

  /** An occurrence with none after it is the one `rfind` reports. */
  lemma LastIndexOfIs(s: Bytes, pat: Bytes, p: nat)
    requires OccursAt(s, pat, p)
    requires forall j: nat :: p < j ==> !OccursAt(s, pat, j)
    ensures LastIndexOf(s, pat) == Some(p)
  {
  }

  /** No ` at line ` starts inside a position suffix after its first byte. */
  lemma SuffixNoLater(m: Bytes, dl: Bytes, dc: Bytes, j: nat)
    requires AllDigits(dl) && |dc| > 0 && AllDigits(dc)
    requires |m| < j
    ensures !OccursAt(m + PositionSuffix(dl, dc), AtLine(), j)
  {
    var t := PositionSuffix(dl, dc);
    var msg := m + t;
    if j + 9 <= |msg| {
      var k := j - |m|;
      SuffixSpaces(dl, dc, k);
      assert msg[j] == t[k] && msg[j + 1] == t[k + 1];
      assert msg[j..j + 9][0] == msg[j] && msg[j..j + 9][1] == msg[j + 1];
    }
  }

  /** The last ` at line ` of a message ending in a position suffix starts that suffix. */
  lemma SuffixFound(m: Bytes, dl: Bytes, dc: Bytes)
    requires AllDigits(dl) && |dc| > 0 && AllDigits(dc)
    ensures LastIndexOf(m + PositionSuffix(dl, dc), AtLine()) == Some(|m|)
  {
    SuffixStartsAt(m, dl, dc);
    forall j: nat | |m| < j
      ensures !OccursAt(m + PositionSuffix(dl, dc), AtLine(), j)
    {
      SuffixNoLater(m, dl, dc, j);
    }
    LastIndexOfIs(m + PositionSuffix(dl, dc), AtLine(), |m|);
  }

  lemma SuffixStartsAt(m: Bytes, dl: Bytes, dc: Bytes)
    ensures OccursAt(m + PositionSuffix(dl, dc), AtLine(), |m|)
  {
    var t := PositionSuffix(dl, dc);
    assert (m + t)[|m|..|m| + 9] == t[..9] == AtLine();
  }

  /**
   * `parse_line_col` accepts every position suffix whose numbers fit in a
   * `usize`, and cuts it off.
   */
  lemma ParseLineColComplete(m: Bytes, dl: Bytes, dc: Bytes)
    requires |dl| > 0 && AllDigits(dl) && DigitsValue(dl) <= USIZE_MAX
    requires |dc| > 0 && AllDigits(dc) && DigitsValue(dc) <= USIZE_MAX
    ensures ParseLineCol(m + PositionSuffix(dl, dc)) == Some((DigitsValue(dl), DigitsValue(dc), m))
  {
    SuffixFound(m, dl, dc);
    ParsePositionAtSuffix(m, dl, dc);
  }

  lemma ParsePositionAtSuffix(m: Bytes, dl: Bytes, dc: Bytes)
    requires |dl| > 0 && AllDigits(dl) && DigitsValue(dl) <= USIZE_MAX
    requires |dc| > 0 && AllDigits(dc) && DigitsValue(dc) <= USIZE_MAX
    ensures ParsePositionAt(m + PositionSuffix(dl, dc), |m|) == Some((DigitsValue(dl), DigitsValue(dc), m))
  {
    SuffixScans(m, dl, dc);
    ParsePositionAtSteps(m + PositionSuffix(dl, dc), |m|, |m| + 9 + |dl|, dl, dc);
  }

  /**
   * The scans of `parse_line_col` starting at `s` stop at `el` after the
   * line digits `dl` and at the end after the column digits `dc`.
   */
  predicate Scanned(msg: Bytes, s: nat, el: nat, dl: Bytes, dc: Bytes) {
    && s + 9 <= el && el + 8 <= |msg|
    && DigitRunEnd(msg, s + 9) == el
    && msg[el..el + 8] == Column()
    && DigitRunEnd(msg, el + 8) == |msg|
    && msg[s + 9..el] == dl
    && msg[el + 8..|msg|] == dc
  }

  /** Where each scan of `parse_line_col` stops on a position suffix. */
  lemma SuffixScans(m: Bytes, dl: Bytes, dc: Bytes)
    requires |dl| > 0 && AllDigits(dl) && |dc| > 0 && AllDigits(dc)
    ensures Scanned(m + PositionSuffix(dl, dc), |m|, |m| + 9 + |dl|, dl, dc)
    ensures (m + PositionSuffix(dl, dc))[..|m|] == m
  {
    var msg := m + PositionSuffix(dl, dc);
    var sl := |m| + 9;
    var el := sl + |dl|;
    var sc := el + 8;
    assert msg[sl..] == dl + (Column() + dc);
    assert !StartsWithDigit(Column() + dc) by {
      assert (Column() + dc)[0] == 0x20;
    }
    DigitRunOver(msg, sl, dl, Column() + dc);
    assert msg[el..sc] == Column();
    assert msg[sc..] == dc + [];
    DigitRunOver(msg, sc, dc, []);
    assert msg[sl..el] == dl;
    assert msg[sc..|msg|] == dc;
    assert msg[..|m|] == m;
  }

  /** `parse_line_col` once each of its scans is known to succeed on digits that fit. */
  lemma ParsePositionAtSteps(msg: Bytes, s: nat, el: nat, dl: Bytes, dc: Bytes)
    requires Scanned(msg, s, el, dl, dc)
    requires |dl| > 0 && AllDigits(dl) && DigitsValue(dl) <= USIZE_MAX
    requires |dc| > 0 && AllDigits(dc) && DigitsValue(dc) <= USIZE_MAX
    ensures ParsePositionAt(msg, s) == Some((DigitsValue(dl), DigitsValue(dc), msg[..s]))
  {
    ScannedReachesNumbers(msg, s, el, dl, dc);
    NumbersOfDigits(dl, dc, msg[..s]);
  }

  /** Past both scans, `parse_line_col` is left to parse the two digit runs. */
  lemma ScannedReachesNumbers(msg: Bytes, s: nat, el: nat, dl: Bytes, dc: Bytes)
    requires Scanned(msg, s, el, dl, dc)
    ensures ParsePositionAt(msg, s) == ParseNumbers(dl, dc, msg[..s])
  {
  }

  /**
   * `make_error` undoes `Display`: a message followed by ` at line L column C`
   * gives back the message with line L and column C.
   */
  lemma MakeErrorRoundTrip(m: Bytes, line: nat, column: nat)
    requires line <= USIZE_MAX && column <= USIZE_MAX
    ensures MakeError(m + PositionSuffix(Decimal(line), Decimal(column))) == Error(Message(m), line, column)
  {
    DecimalRoundTrip(line);
    DecimalRoundTrip(column);
    ParseLineColComplete(m, Decimal(line), Decimal(column));
  }

  /** Running the digit scan over a known run of digits stops right after it. */
  lemma DigitRunOver(s: Bytes, i: nat, d: Bytes, rest: Bytes)
    requires i <= |s| && s[i..] == d + rest && AllDigits(d)
    requires !StartsWithDigit(rest)
    ensures DigitRunEnd(s, i) == i + |d|
    decreases |d|
  {
    if |d| > 0 {
      assert s[i + 1..] == d[1..] + rest;
      DigitRunOver(s, i + 1, d[1..], rest);
    } else {
      assert s[i..] == rest;
    }
  }

  /** A message without a position suffix keeps its text and gets line 0, column 0. */
  lemma MakeErrorWithoutSuffix(msg: Bytes)
    requires LastIndexOf(msg, AtLine()).None?
    ensures MakeError(msg) == Error(Message(msg), 0, 0)
  {
  }

  /** Rendering an error with a position and parsing it back recovers the position. */
  lemma DisplayThenMakeError(e: Error)
    requires 0 < e.line <= USIZE_MAX && e.column <= USIZE_MAX
    ensures MakeError(Display(e)) == Error(Message(CodeText(e.code)), e.line, e.column)
  {
    MakeErrorRoundTrip(CodeText(e.code), e.line, e.column);
  }
}

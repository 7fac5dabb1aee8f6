/**
 * Facts that tie the writer and the reader together: both use the same
 * set of bytes that need escaping, a string the writer escapes reads back
 * as the original bytes, and the streaming line/column tracker agrees with
 * the slice reader's position computation.
 */
module Agreement {
  import opened Common
  import opened Errors
  import Utf8
  import opened Escape
  import opened Reader
  import opened ReaderFacts
  import LineCol

  /** The writer's `ESCAPE` table marks exactly the bytes at which the reader's string loop stops. */
  lemma EscapeTablesAgree(b: byte)
    ensures EscapeTable(b) != 0 <==> EscapeStop(b)
  {
  }

  /** The four hex digits after `\u` in the writer's form of a control byte. */
  lemma ControlHex(b: byte)
    requires b < 0x20
    ensures Hex4(b) == [ZERO, ZERO, LowerHex(b / 16), LowerHex(b % 16)]
  {
  }

  /** The reader decodes one escape the writer emits back to its byte, consuming all of it. */
  lemma EscapeDecodes(slice: Bytes, i: nat, b: byte, validate: bool, scratch: Bytes)
    requires EscapeTable(b) != 0
    requires i + |EscapeForm(b)| <= |slice| && slice[i..i + |EscapeForm(b)|] == EscapeForm(b)
    ensures ParseEscape(Cursor(slice, i + 1), validate, scratch) ==
              Success((Cursor(slice, i + |EscapeForm(b)|), scratch + [b]))
  {
    if b < 0x20 && b != 0x08 && b != 0x09 && b != 0x0A && b != 0x0C && b != 0x0D {
      ControlDecodes(slice, i, b, validate, scratch);
    } else {
      ShortDecodes(slice, i, b, validate, scratch);
    }
  }

  /** A two-byte escape: the letter after the backslash stands for `b`. */
  lemma ShortDecodes(slice: Bytes, i: nat, b: byte, validate: bool, scratch: Bytes)
    requires b == 0x08 || b == 0x09 || b == 0x0A || b == 0x0C || b == 0x0D || b == QUOTE || b == BACKSLASH
    requires i + 2 <= |slice| && slice[i..i + 2] == EscapeForm(b)
    ensures ParseEscape(Cursor(slice, i + 1), validate, scratch) == Success((Cursor(slice, i + 2), scratch + [b]))
  {
    assert slice[i + 1] == EscapeForm(b)[1];
    ShortEscapeTable();
    ShortEscapeDecodes(Cursor(slice, i + 1), validate, scratch);
  }

  /** `\u00XX`: four hex digits naming a code point below 0x80, written back as that one byte. */
  lemma ControlDecodes(slice: Bytes, i: nat, b: byte, validate: bool, scratch: Bytes)
    requires b < 0x20
    requires i + 6 <= |slice| && slice[i..i + 6] == [BACKSLASH, 0x75, ZERO, ZERO, LowerHex(b / 16), LowerHex(b % 16)]
    ensures ParseEscape(Cursor(slice, i + 1), validate, scratch) == Success((Cursor(slice, i + 6), scratch + [b]))
  {
    ControlHex(b);
    assert slice[i + 2..i + 6] == Hex4(b);
    DecodeHex4(Cursor(slice, i + 2), b);
    BmpEscape(Cursor(slice, i + 1), validate, scratch, b);
  }

  /** A byte the string loop does not stop at is simply part of the current run. */
  lemma PlainStep(slice: Bytes, i: nat, start: nat, scratch: Bytes, validate: bool, checkUtf8: bool)
    requires start <= i < |slice| && !EscapeStop(slice[i])
    ensures ParseStrLoop(Cursor(slice, i), start, scratch, validate, checkUtf8) ==
            ParseStrLoop(Cursor(slice, i + 1), start, scratch, validate, checkUtf8)
  {
    assert SkipPlain(slice, i) == SkipPlain(slice, i + 1);
  }

  /** An escape the writer emits: the run so far and the decoded byte go to scratch, and a new run starts after it. */
  lemma EscapeStep(slice: Bytes, i: nat, start: nat, scratch: Bytes, b: byte, validate: bool, checkUtf8: bool)
    requires start <= i && EscapeTable(b) != 0
    requires i + |EscapeForm(b)| <= |slice| && slice[i..i + |EscapeForm(b)|] == EscapeForm(b)
    ensures ParseStrLoop(Cursor(slice, i), start, scratch, validate, checkUtf8) ==
            ParseStrLoop(Cursor(slice, i + |EscapeForm(b)|), i + |EscapeForm(b)|,
                         scratch + slice[start..i] + [b], validate, checkUtf8)
  {
    BackslashAt(slice, i, b);
    EscapeDecodes(slice, i, b, validate, scratch + slice[start..i]);
    StopAfterEscape(slice, i, i + |EscapeForm(b)|, start, scratch, b, validate, checkUtf8);
  }

  /** An escape at `i` that decodes to `b` and ends at `j`: the loop goes on from `j` with a new run. */
  lemma StopAfterEscape(slice: Bytes, i: nat, j: nat, start: nat, scratch: Bytes, b: byte, validate: bool, checkUtf8: bool)
    requires start <= i < |slice| && slice[i] == BACKSLASH && j <= |slice|
    requires ParseEscape(Cursor(slice, i + 1), validate, scratch + slice[start..i]) ==
               Success((Cursor(slice, j), scratch + slice[start..i] + [b]))
    ensures ParseStrLoop(Cursor(slice, i), start, scratch, validate, checkUtf8) ==
            ParseStrLoop(Cursor(slice, j), j, scratch + slice[start..i] + [b], validate, checkUtf8)
  {
    BackslashStops(slice, i, start, scratch, validate, checkUtf8);
    StopAtBackslash(Cursor(slice, i), Cursor(slice, i + 1), start, scratch, validate, checkUtf8);
  }

  /** Where the writer put an escape, the slice holds a backslash. */
  lemma BackslashAt(slice: Bytes, i: nat, b: byte)
    requires EscapeTable(b) != 0
    requires i + |EscapeForm(b)| <= |slice| && slice[i..i + |EscapeForm(b)|] == EscapeForm(b)
    ensures i < |slice| && slice[i] == BACKSLASH
  {
    FormStartsWithBackslash(b);
    assert slice[i] == slice[i..i + |EscapeForm(b)|][0];
  }

  /** Every escape the writer emits starts with a backslash. */
  lemma FormStartsWithBackslash(b: byte)
    requires EscapeTable(b) != 0
    ensures |EscapeForm(b)| >= 2 && EscapeForm(b)[0] == BACKSLASH
  {
  }

  /** The string loop at a backslash goes straight to its stop handling. */
  lemma BackslashStops(slice: Bytes, i: nat, start: nat, scratch: Bytes, validate: bool, checkUtf8: bool)
    requires start <= i < |slice| && slice[i] == BACKSLASH
    ensures ParseStrLoop(Cursor(slice, i), start, scratch, validate, checkUtf8) ==
            AtStop(Cursor(slice, i), start, scratch, validate, checkUtf8)
  {
    SkipPlainIs(slice, i, i);
    LoopSkips(Cursor(slice, i), Cursor(slice, i), start, scratch, validate, checkUtf8);
  }

  /** The closing quote: the string is the scratch and the pending run. */
  lemma QuoteStep(slice: Bytes, i: nat, start: nat, scratch: Bytes, validate: bool, checkUtf8: bool)
    requires start <= i < |slice| && slice[i] == QUOTE
    requires checkUtf8 ==> Utf8.Valid(scratch + slice[start..i])
    ensures var res := ParseStrLoop(Cursor(slice, i), start, scratch, validate, checkUtf8);
            && res.Success?
            && res.value.1 == Cursor(slice, i + 1)
            && res.value.0.Bytes() == scratch + slice[start..i]
  {
    var r: SliceRead := Cursor(slice, i);
    var r1: SliceRead := Cursor(slice, i + 1);
    SkipPlainIs(slice, i, i);
    LoopSkips(r, r, start, scratch, validate, checkUtf8);
    StopAtQuote(r, r1, start, scratch, validate, checkUtf8);
    var reference := if |scratch| == 0 then Borrowed(slice[start..i]) else Copied(scratch + slice[start..i]);
    assert reference.Bytes() == scratch + slice[start..i];
    assert ParseStrLoop(r, start, scratch, validate, checkUtf8) == Finish(r1, reference, checkUtf8);
  }

  /** A slice that holds `a + b` at `i` holds `a` at `i` and `b` right after it. */
  lemma SliceParts(slice: Bytes, i: nat, a: Bytes, b: Bytes)
    requires i + |a + b| <= |slice| && slice[i..i + |a + b|] == a + b
    ensures slice[i..i + |a|] == a
    ensures slice[i + |a|..i + |a| + |b|] == b
  {
    assert slice[i..i + |a|] == slice[i..i + |a + b|][..|a|];
    assert slice[i + |a|..i + |a| + |b|] == slice[i..i + |a + b|][|a|..];
  }

  /**
   * How far the reader has got through the escaped text of `rest`: the
   * loop is at `at`, with the run from `runStart` pending after `scratch`.
   */
  datatype Progress = Progress(at: nat, runStart: nat, scratch: Bytes, rest: Bytes)

  /** The text the loop will return from `p`: what it holds so far, then the bytes still to read. */
  function Text(slice: Bytes, p: Progress): Bytes
    requires p.runStart <= p.at <= |slice|
  {
    p.scratch + slice[p.runStart..p.at] + p.rest
  }

  /**
   * The escaped form of `p.rest` sits at `p.at`, a quote follows it, and
   * (when UTF-8 is checked) the text the loop will return is valid.
   */
  predicate LoopPre(slice: Bytes, p: Progress, checkUtf8: bool) {
    && p.runStart <= p.at
    && EscapedAt(slice, p.at, p.rest)
    && p.at + |EscapeBytes(p.rest)| < |slice|
    && slice[p.at + |EscapeBytes(p.rest)|] == QUOTE
    && (checkUtf8 ==> Utf8.Valid(Text(slice, p)))
  }

  /** The string loop from `p` ends just after the quote and returns `Text(slice, p)`. */
  predicate LoopReads(slice: Bytes, p: Progress, validate: bool, checkUtf8: bool) {
    && p.runStart <= p.at <= |slice|
    && var res := ParseStrLoop(Cursor(slice, p.at), p.runStart, p.scratch, validate, checkUtf8);
       && res.Success?
       && res.value.1 == Cursor(slice, p.at + |EscapeBytes(p.rest)| + 1)
       && res.value.0.Bytes() == Text(slice, p)
  }

  /** Where the reader is once the first byte of `p.rest` has been read back. */
  function After(slice: Bytes, p: Progress): Progress
    requires |p.rest| > 0 && p.runStart <= p.at <= |slice|
  {
    var b := p.rest[0];
    if EscapeTable(b) == 0 then Progress(p.at + 1, p.runStart, p.scratch, p.rest[1..])
    else
      var next := p.at + |EscapeForm(b)|;
      Progress(next, next, p.scratch + slice[p.runStart..p.at] + [b], p.rest[1..])
  }

  /**
   * One step from `p` to `q`: the loop's result is the same from both, the
   * escaped text left at `q` ends where the text at `p` ends, and the text
   * returned is unchanged.
   */
  predicate Advances(slice: Bytes, p: Progress, q: Progress, validate: bool, checkUtf8: bool) {
    && p.runStart <= p.at <= |slice| && q.runStart <= q.at <= |slice|
    && ParseStrLoop(Cursor(slice, p.at), p.runStart, p.scratch, validate, checkUtf8) ==
       ParseStrLoop(Cursor(slice, q.at), q.runStart, q.scratch, validate, checkUtf8)
    && q.at + |EscapeBytes(q.rest)| == p.at + |EscapeBytes(p.rest)|
    && Text(slice, q) == Text(slice, p)
  }

  /**
   * The string loop over escaped text and a closing quote: it ends just
   * after the quote, and the string it returns is the pending scratch and
   * run followed by the unescaped bytes.
   */
  lemma {:induction false} LoopReadsEscaped(slice: Bytes, p: Progress, validate: bool, checkUtf8: bool)
    requires LoopPre(slice, p, checkUtf8)
    ensures LoopReads(slice, p, validate, checkUtf8)
    decreases |p.rest|
  {
    if |p.rest| == 0 {
      assert Text(slice, p) == p.scratch + slice[p.runStart..p.at];
      QuoteStep(slice, p.at, p.runStart, p.scratch, validate, checkUtf8);
    } else {
      StepReads(slice, p, validate, checkUtf8);
      LoopReadsEscaped(slice, After(slice, p), validate, checkUtf8);
      LoopReadsFrom(slice, p, After(slice, p), validate, checkUtf8);
    }
  }

  /** `LoopReads` carried back over a step that leaves the loop's result unchanged. */
  lemma LoopReadsFrom(slice: Bytes, p: Progress, q: Progress, validate: bool, checkUtf8: bool)
    requires Advances(slice, p, q, validate, checkUtf8) && LoopReads(slice, q, validate, checkUtf8)
    ensures LoopReads(slice, p, validate, checkUtf8)
  {
  }

  /** Reading back one byte keeps the loop's result and the layout of what is left. */
  lemma StepReads(slice: Bytes, p: Progress, validate: bool, checkUtf8: bool)
    requires LoopPre(slice, p, checkUtf8) && |p.rest| > 0
    ensures LoopPre(slice, After(slice, p), checkUtf8)
    ensures Advances(slice, p, After(slice, p), validate, checkUtf8)
  {
    StepPre(slice, p, checkUtf8);
    StepAdvances(slice, p, validate, checkUtf8);
  }

  lemma StepPre(slice: Bytes, p: Progress, checkUtf8: bool)
    requires LoopPre(slice, p, checkUtf8) && |p.rest| > 0
    ensures LoopPre(slice, After(slice, p), checkUtf8)
  {
    StepLayout(slice, p, checkUtf8);
    StepText(slice, p, checkUtf8);
  }

  lemma StepAdvances(slice: Bytes, p: Progress, validate: bool, checkUtf8: bool)
    requires LoopPre(slice, p, checkUtf8) && |p.rest| > 0
    ensures Advances(slice, p, After(slice, p), validate, checkUtf8)
  {
    StepLayout(slice, p, checkUtf8);
    StepText(slice, p, checkUtf8);
    StepSame(slice, p, validate, checkUtf8);
  }

  /** After one byte, the rest of the escaped text sits where the first byte's form ends. */
  lemma StepLayout(slice: Bytes, p: Progress, checkUtf8: bool)
    requires LoopPre(slice, p, checkUtf8) && |p.rest| > 0
    ensures After(slice, p).runStart <= After(slice, p).at <= |slice|
    ensures After(slice, p).at + |EscapeBytes(After(slice, p).rest)| == p.at + |EscapeBytes(p.rest)|
    ensures EscapedAt(slice, After(slice, p).at, After(slice, p).rest)
  {
    LayoutLength(p.rest);
    LayoutTail(slice, p.at, p.rest);
    if EscapeTable(p.rest[0]) == 0 {
      TableAgreesWithForm(p.rest[0]);
    }
  }

  /** After one byte, the text the loop will return is unchanged. */
  lemma StepText(slice: Bytes, p: Progress, checkUtf8: bool)
    requires LoopPre(slice, p, checkUtf8) && |p.rest| > 0
    ensures After(slice, p).runStart <= After(slice, p).at <= |slice|
    ensures Text(slice, After(slice, p)) == Text(slice, p)
  {
    LayoutLength(p.rest);
    LayoutHead(slice, p.at, p.rest);
    if EscapeTable(p.rest[0]) == 0 {
      TableAgreesWithForm(p.rest[0]);
      PlainText(slice, p);
    } else {
      EscapedText(slice, p);
    }
  }

  /** After one byte, the string loop's result is unchanged. */
  lemma StepSame(slice: Bytes, p: Progress, validate: bool, checkUtf8: bool)
    requires LoopPre(slice, p, checkUtf8) && |p.rest| > 0
    ensures After(slice, p).runStart <= After(slice, p).at <= |slice|
    ensures ParseStrLoop(Cursor(slice, p.at), p.runStart, p.scratch, validate, checkUtf8) ==
            ParseStrLoop(Cursor(slice, After(slice, p).at), After(slice, p).runStart, After(slice, p).scratch,
                         validate, checkUtf8)
  {
    if EscapeTable(p.rest[0]) == 0 {
      PlainSame(slice, p, validate, checkUtf8);
    } else {
      EscapedSame(slice, p, validate, checkUtf8);
    }
  }

  lemma PlainSame(slice: Bytes, p: Progress, validate: bool, checkUtf8: bool)
    requires p.runStart <= p.at && |p.rest| > 0 && EscapedAt(slice, p.at, p.rest) && EscapeTable(p.rest[0]) == 0
    ensures After(slice, p).runStart <= After(slice, p).at <= |slice|
    ensures ParseStrLoop(Cursor(slice, p.at), p.runStart, p.scratch, validate, checkUtf8) ==
            ParseStrLoop(Cursor(slice, After(slice, p).at), After(slice, p).runStart, After(slice, p).scratch,
                         validate, checkUtf8)
  {
    var b := p.rest[0];
    LayoutHead(slice, p.at, p.rest);
    TableAgreesWithForm(b);
    assert slice[p.at] == b by {
      assert slice[p.at] == slice[p.at..p.at + 1][0];
    }
    EscapeTablesAgree(b);
    PlainStep(slice, p.at, p.runStart, p.scratch, validate, checkUtf8);
    assert After(slice, p) == Progress(p.at + 1, p.runStart, p.scratch, p.rest[1..]);
  }

  lemma EscapedSame(slice: Bytes, p: Progress, validate: bool, checkUtf8: bool)
    requires p.runStart <= p.at && |p.rest| > 0 && EscapedAt(slice, p.at, p.rest) && EscapeTable(p.rest[0]) != 0
    ensures After(slice, p).runStart <= After(slice, p).at <= |slice|
    ensures ParseStrLoop(Cursor(slice, p.at), p.runStart, p.scratch, validate, checkUtf8) ==
            ParseStrLoop(Cursor(slice, After(slice, p).at), After(slice, p).runStart, After(slice, p).scratch,
                         validate, checkUtf8)
  {
    var b := p.rest[0];
    var n := p.at + |EscapeForm(b)|;
    LayoutHead(slice, p.at, p.rest);
    EscapeStep(slice, p.at, p.runStart, p.scratch, b, validate, checkUtf8);
    assert After(slice, p) == Progress(n, n, p.scratch + slice[p.runStart..p.at] + [b], p.rest[1..]);
  }

  /** A byte written as itself joins the pending run. */
  lemma PlainText(slice: Bytes, p: Progress)
    requires |p.rest| > 0 && EscapeTable(p.rest[0]) == 0
    requires p.runStart <= p.at < |slice| && slice[p.at] == p.rest[0]
    ensures Text(slice, After(slice, p)) == Text(slice, p)
  {
    var b := p.rest[0];
    assert slice[p.runStart..p.at + 1] == slice[p.runStart..p.at] + [b];
    assert p.rest == [b] + p.rest[1..];
  }

  /** The decoded byte moves from the bytes still to read to the scratch. */
  lemma EscapedText(slice: Bytes, p: Progress)
    requires |p.rest| > 0 && EscapeTable(p.rest[0]) != 0
    requires p.runStart <= p.at && p.at + |EscapeForm(p.rest[0])| <= |slice|
    ensures Text(slice, After(slice, p)) == Text(slice, p)
  {
    var q := After(slice, p);
    assert slice[q.runStart..q.at] == [];
    ScratchGrows(p.scratch, slice[p.runStart..p.at], p.rest, slice[q.runStart..q.at]);
  }

  /** The escape of the first byte and the rest's escaped text add up to the whole. */
  lemma LayoutLength(s: Bytes)
    requires |s| > 0
    ensures |EscapeForm(s[0])| + |EscapeBytes(s[1..])| == |EscapeBytes(s)|
  {
    EscapeBytesCons(s);
  }

  /** The escape of the first byte sits at `i`. */
  lemma LayoutHead(slice: Bytes, i: nat, s: Bytes)
    requires |s| > 0 && EscapedAt(slice, i, s)
    ensures i + |EscapeForm(s[0])| <= |slice| && slice[i..i + |EscapeForm(s[0])|] == EscapeForm(s[0])
  {
    EscapeBytesCons(s);
    HeadTail(slice, i, EscapeForm(s[0]), EscapeBytes(s[1..]), EscapeBytes(s));
  }

  /** The escaped form of `t` sits in `slice` at `i`. */
  predicate EscapedAt(slice: Bytes, i: nat, t: Bytes) {
    i + |EscapeBytes(t)| <= |slice| && slice[i..i + |EscapeBytes(t)|] == EscapeBytes(t)
  }

  /** The rest of the escaped text follows the first byte's escape. */
  lemma LayoutTail(slice: Bytes, i: nat, s: Bytes)
    requires |s| > 0 && EscapedAt(slice, i, s)
    ensures EscapedAt(slice, i + |EscapeForm(s[0])|, s[1..])
  {
    EscapeBytesCons(s);
    HeadTail(slice, i, EscapeForm(s[0]), EscapeBytes(s[1..]), EscapeBytes(s));
  }

  /** Escaped text is the first byte's form followed by the rest's. */
  lemma EscapeBytesCons(s: Bytes)
    requires |s| > 0
    ensures EscapeBytes(s) == EscapeForm(s[0]) + EscapeBytes(s[1..])
  {
  }

  /** A slice holding `a + b` at `i` holds `a` at `i` and `b` right after it. */
  lemma HeadTail(slice: Bytes, i: nat, a: Bytes, b: Bytes, ab: Bytes)
    requires ab == a + b
    requires i + |ab| <= |slice| && slice[i..i + |ab|] == ab
    ensures i + |a| + |b| == i + |ab|
    ensures slice[i..i + |a|] == a
    ensures slice[i + |a|..i + |a| + |b|] == b
  {
    SliceParts(slice, i, a, b);
  }

  /** The text read so far grows by the decoded byte, with an empty new run. */
  lemma ScratchGrows(scratch: Bytes, run: Bytes, s: Bytes, empty: Bytes)
    requires |s| > 0 && empty == []
    ensures (scratch + run + [s[0]]) + empty + s[1..] == scratch + run + s
  {
    assert s == [s[0]] + s[1..];
  }

  /** The string loop started just after the writer's opening quote. */
  lemma ReadsBack(s: Bytes, after: Bytes, validate: bool, checkUtf8: bool)
    requires checkUtf8 ==> Utf8.Valid(s)
    ensures var w := FormatEscapedStr(s);
            var res := ParseStrBytes(Cursor(w + after, 1), [], validate, checkUtf8);
            && res.Success?
            && res.value.0.Bytes() == s
            && res.value.1 == Cursor(w + after, |w|)
  {
    var slice := FormatEscapedStr(s) + after;
    StartPre(s, after, checkUtf8);
    LoopReadsEscaped(slice, Progress(1, 1, [], s), validate, checkUtf8);
  }

  /** Just after the writer's opening quote the escaped text and the closing quote follow. */
  lemma StartPre(s: Bytes, after: Bytes, checkUtf8: bool)
    requires checkUtf8 ==> Utf8.Valid(s)
    ensures LoopPre(FormatEscapedStr(s) + after, Progress(1, 1, [], s), checkUtf8)
    ensures 1 + |EscapeBytes(s)| + 1 == |FormatEscapedStr(s)|
    ensures Text(FormatEscapedStr(s) + after, Progress(1, 1, [], s)) == s
  {
    var w := FormatEscapedStr(s);
    QuotedLayout(w, EscapeBytes(s), after);
    assert Text(w + after, Progress(1, 1, [], s)) == s by {
      assert (w + after)[1..1] == [];
    }
  }

  /** Text wrapped in quotes, then anything: the text sits at 1 and the closing quote right after it. */
  lemma QuotedLayout(w: Bytes, e: Bytes, after: Bytes)
    requires |w| >= 2 && w[|w| - 1] == QUOTE && w[1..|w| - 1] == e
    ensures 1 + |e| + 1 == |w|
    ensures 1 + |e| < |w + after| && (w + after)[1..1 + |e|] == e && (w + after)[1 + |e|] == QUOTE
  {
    assert (w + after)[1..1 + |e|] == w[1..|w| - 1];
  }

  /**
   * Whatever `format_escaped_str` writes, `parse_str_bytes` (after the
   * opening quote) reads back as the original string, ending just after
   * the closing quote, whatever follows it. Validation of escapes never
   * rejects the writer's output.
   */
  lemma EscapedStringReadsBack(s: Bytes, after: Bytes, validate: bool)
    ensures var w := FormatEscapedStr(s);
            var res := ParseStrBytes(Cursor(w + after, 1), [], validate, false);
            && res.Success?
            && res.value.0.Bytes() == s
            && res.value.1 == Cursor(w + after, |w|)
  {
    ReadsBack(s, after, validate, false);
  }

  /** With the UTF-8 check of `SliceRead::parse_str`: valid text reads back unchanged. */
  lemma EscapedStrReadsBack(s: Bytes, after: Bytes)
    requires Utf8.Valid(s)
    ensures var w := FormatEscapedStr(s);
            var res := ParseStr(Cursor(w + after, 1), []);
            && res.Success?
            && res.value.0.Bytes() == s
            && res.value.1 == Cursor(w + after, |w|)
  {
    ReadsBack(s, after, true, true);
  }

  /** The bytes of a slice as the items of a byte iterator that never fails. */
  function Items(slice: Bytes): (items: seq<LineCol.Item>)
    ensures |items| == |slice|
    ensures LineCol.BytesOf(items) == slice
    decreases |slice|
  {
    if |slice| == 0 then []
    else
      var init := slice[..|slice| - 1];
      var items := Items(init) + [LineCol.Byte(slice[|slice| - 1])];
      assert items[..|items| - 1] == Items(init);
      assert slice == init + [slice[|slice| - 1]];
      items
  }

  lemma {:induction false} ItemsPrefix(slice: Bytes, n: nat)
    requires n <= |slice|
    ensures Items(slice)[..n] == Items(slice[..n])
    decreases |slice|
  {
    if n < |slice| {
      var init := slice[..|slice| - 1];
      ItemsPrefix(init, n);
      ItemsInit(slice);
      assert init[..n] == slice[..n];
      assert Items(slice)[..n] == Items(slice)[..|slice| - 1][..n];
    } else {
      assert slice[..n] == slice;
    }
  }

  /** Dropping the last byte drops the last item. */
  lemma ItemsInit(slice: Bytes)
    requires |slice| > 0
    ensures Items(slice)[..|slice| - 1] == Items(slice[..|slice| - 1])
  {
  }

  /**
   * After `n` bytes, the streaming tracker's line and column are the
   * position the slice reader computes for index `n`, and its byte
   * offset is `n`.
   */
  lemma TrackerMatchesPosition(slice: Bytes, n: nat)
    requires n <= |slice|
    ensures var it := LineCol.Advance(LineCol.New(Items(slice)), n);
            && PositionOfIndex(slice, n) == Position(it.line, it.col)
            && LineCol.ByteOffset(it) == n
  {
    LineCol.FromStart(Items(slice), n);
    ItemsPrefix(slice, n);
  }
}

/**
 * The string writer of the serializer: the `ESCAPE` table, the
 * `CharEscape` it selects, the bytes `write_char_escape` emits for each,
 * and `format_escaped_str(_contents)`, which copies verbatim runs and
 * escapes the bytes in between.
 */
module Escape {
  import opened Common

  /** The letters the `ESCAPE` table stores (`BB`, `TT`, ... `UU`); 0 means "write as is". */
  const BB: byte := 0x62
  const TT: byte := 0x74
  const NN: byte := 0x6E
  const FF: byte := 0x66
  const RR: byte := 0x72
  const QU: byte := 0x22
  const BS: byte := 0x5C
  const UU: byte := 0x75

  /** The writer's `ESCAPE` table, row by row. */
  function EscapeTable(b: byte): (e: byte)
    ensures e == 0 <==> 0x20 <= b && b != QUOTE && b != BACKSLASH
    ensures e != 0 ==> IsTableLetter(e)
    ensures e == UU ==> b < 0x20
  {
    if b == 0x08 then BB
    else if b == 0x09 then TT
    else if b == 0x0A then NN
    else if b == 0x0C then FF
    else if b == 0x0D then RR
    else if b < 0x20 then UU
    else if b == QUOTE then QU
    else if b == BACKSLASH then BS
    else 0
  }

  predicate IsTableLetter(e: byte) {
    e == BB || e == TT || e == NN || e == FF || e == RR || e == QU || e == BS || e == UU
  }

  /** `CharEscape`: the escapes a formatter can be asked to write. */
  datatype CharEscape =
    | Quote
    | ReverseSolidus
    | Solidus
    | Backspace
    | FormFeed
    | LineFeed
    | CarriageReturn
    | Tab
    | AsciiControl(code: byte)

  /** `CharEscape::from_escape_table`; any other table value is unreachable in the source. */
  function FromEscapeTable(escape: byte, b: byte): (c: CharEscape)
    requires IsTableLetter(escape)
    ensures c.AsciiControl? <==> escape == UU
    ensures c.AsciiControl? ==> c.code == b
  {
    if escape == BB then Backspace
    else if escape == TT then Tab
    else if escape == NN then LineFeed
    else if escape == FF then FormFeed
    else if escape == RR then CarriageReturn
    else if escape == QU then Quote
    else if escape == BS then ReverseSolidus
    else AsciiControl(b)
  }

  predicate Printable(s: Bytes) {
    forall k :: 0 <= k < |s| ==> 0x20 <= s[k] < 0x7F
  }

  /** `Formatter::write_char_escape`: a backslash, then a letter or `u00` and two lowercase hex digits. */
  function CharEscapeBytes(c: CharEscape): (r: Bytes)
    requires c.AsciiControl? ==> c.code < 0x20
    ensures 2 <= |r| && r[0] == BACKSLASH && Printable(r)
    ensures forall k :: 1 < k < |r| ==> r[k] != QUOTE && r[k] != BACKSLASH
  {
    match c
    case Quote => [BACKSLASH, QUOTE]
    case ReverseSolidus => [BACKSLASH, BACKSLASH]
    case Solidus => [BACKSLASH, SLASH]
    case Backspace => [BACKSLASH, 0x62]
    case FormFeed => [BACKSLASH, 0x66]
    case LineFeed => [BACKSLASH, 0x6E]
    case CarriageReturn => [BACKSLASH, 0x72]
    case Tab => [BACKSLASH, 0x74]
    case AsciiControl(b) => [BACKSLASH, 0x75, 0x30, 0x30, LowerHex(b / 16), LowerHex(b % 16)]
  }

  /**
   * The escaped form of one byte, stated directly as section 7 of RFC 8259
   * allows it: the two-character forms for backspace, tab, line feed, form
   * feed, carriage return, quote and backslash, `\u00XX` for the other
   * control bytes, and every other byte (including `/` and bytes from
   * 0x80 on) unchanged.
   */
  function EscapeForm(b: byte): (r: Bytes)
    ensures |r| > 0
  {
    if b == 0x08 then [BACKSLASH, 0x62]
    else if b == 0x09 then [BACKSLASH, 0x74]
    else if b == 0x0A then [BACKSLASH, 0x6E]
    else if b == 0x0C then [BACKSLASH, 0x66]
    else if b == 0x0D then [BACKSLASH, 0x72]
    else if b < 0x20 then [BACKSLASH, 0x75, 0x30, 0x30, LowerHex(b / 16), LowerHex(b % 16)]
    else if b == QUOTE then [BACKSLASH, QUOTE]
    else if b == BACKSLASH then [BACKSLASH, BACKSLASH]
    else [b]
  }

  /** The table and `write_char_escape` together give exactly `EscapeForm`. */
  lemma TableAgreesWithForm(b: byte)
    ensures EscapeTable(b) == 0 ==> EscapeForm(b) == [b]
    ensures EscapeTable(b) != 0 ==>
              IsTableLetter(EscapeTable(b)) &&
              CharEscapeBytes(FromEscapeTable(EscapeTable(b), b)) == EscapeForm(b)
  {
  }

  /** Byte by byte: the reference for the writer's fragment loop. */
  function EscapeBytes(s: Bytes): (r: Bytes)
    ensures |r| >= |s|
  {
    if |s| == 0 then [] else EscapeForm(s[0]) + EscapeBytes(s[1..])
  }

  /**
   * The `for` loop of `format_escaped_str_contents` at byte `i`, with the
   * verbatim run `value[start..i]` not yet written: a byte the table marks
   * flushes the run and writes its escape; the tail run is flushed at the end.
   */
  function ContentsLoop(value: Bytes, start: nat, i: nat): Bytes
    requires start <= i <= |value|
    decreases |value| - i
  {
    if i == |value| then
      if start == |value| then [] else value[start..]
    else
      var e := EscapeTable(value[i]);
      if e == 0 then ContentsLoop(value, start, i + 1)
      else
        (if start < i then value[start..i] else []) + CharEscapeBytes(FromEscapeTable(e, value[i]))
        + ContentsLoop(value, i + 1, i + 1)
  }

  lemma {:induction false} ContentsLoopIs(value: Bytes, start: nat, i: nat)
    requires start <= i <= |value|
    requires PlainRun(value, start, i)
    ensures ContentsLoop(value, start, i) == value[start..i] + EscapeBytes(value[i..])
    decreases |value| - i
  {
    if i < |value| {
      if EscapeTable(value[i]) == 0 {
        PlainStep(value, start, i);
        ContentsLoopIs(value, start, i + 1);
        PlainJoin(value, start, i, ContentsLoop(value, start, i + 1));
      } else {
        EscapeStep(value, start, i);
        assert PlainRun(value, i + 1, i + 1);
        ContentsLoopIs(value, i + 1, i + 1);
        EscapeJoin(value, start, i, ContentsLoop(value, i + 1, i + 1));
      }
    } else {
      assert value[i..] == [];
    }
  }

  /** The run grows by a plain byte: its text is the same either way. */
  lemma PlainJoin(value: Bytes, start: nat, i: nat, tail: Bytes)
    requires start <= i < |value| && EscapeTable(value[i]) == 0
    requires tail == value[start..i + 1] + EscapeBytes(value[i + 1..])
    ensures tail == value[start..i] + EscapeBytes(value[i..])
  {
    EscapeBytesAt(value, i);
    assert value[start..i + 1] == value[start..i] + [value[i]];
    ConcatAssoc(value[start..i], [value[i]], EscapeBytes(value[i + 1..]));
  }

  /** The run, the escape of the byte at `i`, then the rest. */
  lemma EscapeJoin(value: Bytes, start: nat, i: nat, tail: Bytes)
    requires start <= i < |value|
    requires tail == value[i + 1..i + 1] + EscapeBytes(value[i + 1..])
    ensures value[start..i] + EscapeForm(value[i]) + tail == value[start..i] + EscapeBytes(value[i..])
  {
    EscapeBytesAt(value, i);
    assert value[i + 1..i + 1] == [];
    ConcatAssoc(value[start..i], EscapeForm(value[i]), EscapeBytes(value[i + 1..]));
  }

  lemma ConcatAssoc(a: Bytes, b: Bytes, c: Bytes)
    ensures a + b + c == a + (b + c)
  {
  }

  /** No byte of `value[start..i]` needs escaping. */
  predicate PlainRun(value: Bytes, start: nat, i: nat)
    requires start <= i <= |value|
  {
    forall k :: start <= k < i ==> EscapeTable(value[k]) == 0
  }

  /** A byte the table leaves alone joins the pending run. */
  lemma PlainStep(value: Bytes, start: nat, i: nat)
    requires start <= i < |value| && PlainRun(value, start, i) && EscapeTable(value[i]) == 0
    ensures PlainRun(value, start, i + 1)
    ensures ContentsLoop(value, start, i) == ContentsLoop(value, start, i + 1)
  {
  }

  /** A byte the table marks flushes the pending run and writes its escape form. */
  lemma EscapeStep(value: Bytes, start: nat, i: nat)
    requires start <= i < |value| && EscapeTable(value[i]) != 0
    ensures ContentsLoop(value, start, i) == value[start..i] + EscapeForm(value[i]) + ContentsLoop(value, i + 1, i + 1)
  {
    TableAgreesWithForm(value[i]);
  }

  /** The escape of a suffix is the first byte's form, then the rest's. */
  lemma EscapeBytesAt(value: Bytes, i: nat)
    requires i < |value|
    ensures EscapeBytes(value[i..]) == EscapeForm(value[i]) + EscapeBytes(value[i + 1..])
    ensures EscapeTable(value[i]) == 0 ==> EscapeForm(value[i]) == [value[i]]
  {
    assert value[i..][1..] == value[i + 1..];
    TableAgreesWithForm(value[i]);
  }

  /** `format_escaped_str_contents`: the loop writes exactly the byte-by-byte escape. */
  function FormatEscapedStrContents(value: Bytes): (r: Bytes)
    ensures r == EscapeBytes(value)
  {
    assert PlainRun(value, 0, 0);
    ContentsLoopIs(value, 0, 0);
    assert value[0..] == value;
    ContentsLoop(value, 0, 0)
  }

  /** `format_escaped_str`: `begin_string`, the escaped contents, `end_string`. */
  function FormatEscapedStr(value: Bytes): (r: Bytes)
    ensures |r| >= 2 && r[0] == QUOTE && r[|r| - 1] == QUOTE
    ensures r[1..|r| - 1] == EscapeBytes(value)
  {
    [QUOTE] + FormatEscapedStrContents(value) + [QUOTE]
  }

  /** Escaped text never holds a raw control byte. */
  lemma {:induction false} NoRawControl(s: Bytes)
    ensures forall k :: 0 <= k < |EscapeBytes(s)| ==> EscapeBytes(s)[k] >= 0x20
  {
    if |s| > 0 {
      NoRawControl(s[1..]);
    }
  }

  /** The first byte of an escaped piece, and whether it opens an escape. */
  lemma FormShape(b: byte)
    ensures EscapeTable(b) == 0 ==> EscapeForm(b) == [b]
    ensures EscapeTable(b) != 0 ==>
              2 <= |EscapeForm(b)| && EscapeForm(b)[0] == BACKSLASH &&
              forall k :: 1 < k < |EscapeForm(b)| ==> EscapeForm(b)[k] != QUOTE && EscapeForm(b)[k] != BACKSLASH
  {
    TableAgreesWithForm(b);
  }

  /**
   * Every quote or backslash in escaped text belongs to an escape: the
   * text splits into pieces that are either one byte the table lets
   * through or a backslash and the rest of an escape.
   */
  predicate Pieces(t: Bytes)
    decreases |t|
  {
    |t| == 0 ||
    (EscapeTable(t[0]) == 0 && Pieces(t[1..])) ||
    (t[0] == BACKSLASH && 2 <= |t| &&
     exists n :: 2 <= n <= 6 && n <= |t| && EscapeIsPiece(t[..n]) && Pieces(t[n..]))
  }

  /** One escape as the writer emits it. */
  predicate EscapeIsPiece(p: Bytes) {
    exists b: byte :: EscapeTable(b) != 0 && EscapeForm(b) == p
  }

  lemma {:induction false} EscapedIsPieces(s: Bytes)
    ensures Pieces(EscapeBytes(s))
  {
    if |s| > 0 {
      var b := s[0];
      var t := EscapeBytes(s);
      EscapedIsPieces(s[1..]);
      FormShape(b);
      if EscapeTable(b) == 0 {
        assert t[1..] == EscapeBytes(s[1..]);
      } else {
        var n := |EscapeForm(b)|;
        assert t[..n] == EscapeForm(b);
        assert t[n..] == EscapeBytes(s[1..]);
        assert EscapeIsPiece(t[..n]);
      }
    }
  }
}

# serde_json core, modelled in Dafny

This project models the byte-level core of a trimmed `serde_json` fork.
Everything works on `seq<byte>`, with `byte` an integer in `0..256`. A Rust
`String` is its UTF-8 bytes, and so is an error message.

- **Reader** (`read.dfy`, `read_facts.dfy`) is the `SliceRead` cursor
  (`slice`, `index`). It covers `next`, `peek`, `discard` and
  `set_failed`, and the line/column of a position. It also covers the
  JSON string scanner `parse_str_bytes`: the verbatim-run fast path, the
  stop table, the eight short escapes, `\uXXXX` with `decode_hex_escape`,
  UTF-16 surrogate pairs (section 7 of RFC 8259), the Borrowed/Copied
  result, and every error code on the way. `StrRead` delegates to it.
- **Escape** (`escape.dfy`) is the writer's escape table,
  `CharEscape::from_escape_table`, `write_char_escape`, and
  `format_escaped_str(_contents)`.
- **Ser** (`ser.dfy`, `ser_facts.dfy`) is the `Serializer` driven by a
  `Data` tree. A `Data` tree is the sequence of serde data-model calls a
  value makes. The module covers the compact and pretty formatters, the
  `State` machine (First/Rest/Empty) in `Compound`, `MapKeySerializer`,
  `to_vec` and `to_vec_pretty`.
- **JsonMap** (`map.dfy`) is `Map<String, Value>` in its default BTreeMap
  build. It is a strictly key-sorted sequence of items whose view is a
  Dafny `map`. It covers insert, remove, entry, retain, append,
  `visit_map` and iteration order.
- **Values** (`value.dfy`, `value_ser.dfy`) is the `Value` enum, its
  accessors, `take`, `Default`, `parse_index`, and JSON Pointer (section 4
  of RFC 6901). `pointer` is modelled for reading; `pointer_mut` is
  modelled as assigning or taking through a pointer. `Display` is modelled
  on top of the serializer.
- **Errors** (`error.dfy`) is `classify`, `Error::io`, `fix_position`,
  `Display`, and the `" at line L column C"` suffix parser behind
  `make_error`.
- **LineCol** (`linecol.dfy`) is `LineColIterator`.
- **Utf8** and **Common** (`utf8.dfy`, `common.dfy`) hold the shared
  definitions: UTF-8 encoding and validity (the RFC 3629 table), decimal
  text, `usize::from_str`, and line counting.
- **StringBody** (`strbody.dfy`, `strbody_facts.dfy`) is a reference
  meaning for a string body, separate from the cursor loop. A body is a
  sequence of units: a verbatim byte, a short escape, a `\uXXXX` escape
  or a surrogate pair. `Decoded` gives the bytes each unit stands for.
  The facts module proves that `parse_str_bytes`, `parse_str`,
  `parse_str_raw` and `ignore_str` agree with it.
- **Agreement** (`agreement.dfy`) relates the modules to each other:
  - the writer's escaping read back by the reader gives the original
    bytes;
  - the two stop tables agree;
  - the line tracker agrees with `position_of_index`.

Results use a `Result<T, Error>` datatype and `:-` in place of `tri!`. A
reader call that fails returns only its `Error`. The cursor a failed call
leaves behind is not returned, because nothing reads from it afterwards.

Where the code and its prose description disagree, the model follows the
code. A NaN or infinite `f32`/`f64` is written as `null`
(`src/ser.rs:152-177`). It is not rejected with an error.

## Model

| member | source | states |
|---|---|---|
| Reader.New | src/read.rs:316-324 | A new reader is positioned at index 0 of the given slice |
| Reader.PositionOfIndex | src/read.rs:326-340 | The line is 1 plus the number of `\n` before index i; the column is the number of bytes since the last `\n` before i |
| Reader.Next | src/read.rs:396-406 | Before the end, `next` returns `slice[index]` and advances by exactly one; at the end it returns None and leaves the reader unchanged |
| Reader.Discard | src/read.rs:418-421 | `discard` advances past one byte and keeps the slice |
| Reader.PeekAgreesWithNext | src/read.rs:408-416 | `peek` returns the byte `next` would return, without moving; discarding a peeked byte is the same as `next` |
| Reader.PeekPositionAfterNext | src/read.rs:427-431 | `peek_position` (`index + 1` clamped to the length) is the position after one more `next` |
| Reader.ByteOffsetCountsNext | src/read.rs:433-435 | `byte_offset` grows by one for each byte `next` returns and stays at the slice length at the end |
| Reader.SetFailed | src/read.rs:495-500 | `set_failed` cuts the slice at the current index: the position is unchanged and every later `next` returns None |
| Reader.ErrorAt | src/read.rs:689-695 | An error carries its code and the line and column of the current index |
| Reader.NextOrEof | src/read.rs:669-677 | Returns the next byte and advances, or fails with `EofWhileParsingString` at the end of input |
| Reader.PeekOrEof | src/read.rs:679-687 | Returns the next byte without moving, or fails with `EofWhileParsingString` at the end of input |
| Reader.DecodeHexVal | src/read.rs:820-850 | The HEX table gives a value exactly for `0-9`, `A-F` and `a-f`, and that value is below 16 |
| Reader.HexDigitsRoundTrip | src/read.rs:820-850 | Every digit value below 16 is read back from its lower-case digit, and from its upper-case digit when it is 10 or more |
| Reader.DecodeHexEscape | src/read.rs:472-490 | With fewer than 4 bytes left it fails with `EofWhileParsingString` at the end of the slice; it succeeds exactly when the next 4 bytes are hex digits, consumes exactly 4, and yields a value below 0x10000 |
| Reader.DecodeHexEscapeValue | src/read.rs:478-489 | The value read is the four digits accumulated big-endian (`n << 4 + digit`) |
| Reader.DecodeHexEscapeBadDigit | src/read.rs:478-485 | The first non-hex byte fails with `InvalidEscape`, reported just past that byte |
| Reader.DecodeHex4 | src/read.rs:472-490 | Four lower-case hex digits of n are read back as n, consuming exactly 4 bytes |
| Reader.CombineSurrogates | src/read.rs:772-779 | A high/low surrogate pair combines into a Unicode scalar in 0x10000..0x10FFFF, so the `char::from_u32` failure branch cannot be taken |
| Reader.CombineSurrogatesInverse | src/read.rs:772 | Every supplementary-plane code point splits into a high and a low surrogate that combine back into it |
| Reader.ShortEscape | src/read.rs:710-718 | Exactly the eight letters `" \ / b f n r t` are short escapes |
| Reader.ParseEscape | src/read.rs:703-794 | A successful escape consumes at least one byte of the same slice |
| Reader.EscapeExtends | src/read.rs:703-794 | A successful escape only appends to the scratch buffer: the old buffer is a strict prefix of the new one |
| Reader.IgnoreEscape | src/read.rs:798-818 | A skipped escape consumes at least one byte of the same slice |
| Reader.SkipPlain | src/read.rs:357-359 | The fast path stops at the first byte of the stop table, or at the end, and skips only bytes outside it |
| Reader.Finish | src/read.rs:697-699 | The UTF-8 check succeeds exactly when checking is off or the bytes are valid UTF-8; otherwise it fails with `InvalidUnicodeCodePoint` at the current position |
| Reader.ParseStrLoop | src/read.rs:356-389 | A success ends just past a closing quote; a Borrowed result only comes with an empty scratch buffer; a Copied result extends the scratch buffer; a checked result is valid UTF-8 |
| Reader.AtBackslash | src/read.rs:376-381 | After a backslash, a successful result is Copied and strictly extends the scratch buffer |
| Reader.ParseStrBytes | src/read.rs:343-390 | A successful string ends just past its closing quote on the same slice, and is valid UTF-8 when checked |
| Reader.ParseStr | src/read.rs:437-439 | `parse_str` only returns valid UTF-8 |
| Reader.ParseStrRaw | src/read.rs:441-446 | `parse_str_raw` ends on the same slice, just past a closing quote |
| Reader.EscapeStop | src/read.rs:643-667 | The stop table flags a byte exactly when the `unescaped` rule of section 7 of RFC 8259 does not admit it: control bytes, the quote and the backslash |
| StringBody.PlainDecoded | src/read.rs:356-375 | A body with no quote, backslash or control byte stands for itself |
| StringBody.QuoteNotDecoded | src/read.rs:364-375 | A bare quote before any backslash makes the body undecodable: it can only be the closing quote |
| StringBody.ValidatedDecoded | src/read.rs:382-387 | Validation only rejects: a body that decodes with it decodes the same without it, and holds no control byte |
| StringBodyFacts.LoopDecodes | src/read.rs:356-389 | From any point of a body that decodes, the scan reaches its closing quote with the scratch buffer, the run so far and the decoded rest |
| StringBodyFacts.LoopSound | src/read.rs:356-389 | Wherever the scan succeeds, the body up to the quote where it stopped decodes |
| StringBodyFacts.StrBytesMeaning | src/read.rs:343-390 | `parse_str_bytes` stops at quote q exactly when the body before q decodes under the reference decoder; it then returns the scratch buffer followed by the decoded body, borrowed exactly when the buffer is empty and the body has no backslash |
| StringBodyFacts.RawMeaning | src/read.rs:441-446 | `parse_str_raw` stops at quote q exactly when the body decodes without validation, and returns scratch followed by that decoding |
| StringBodyFacts.ParseStrMeaning | src/read.rs:437-439 | Where the validated body decodes, `parse_str` returns scratch followed by it when that is valid UTF-8, and fails with `InvalidUnicodeCodePoint` just past the quote otherwise |
| StringBodyFacts.ParseStrSound | src/read.rs:437-439 | Every string `parse_str` returns is the scratch buffer followed by its validated body, decoded |
| StringBodyFacts.IgnoreAgrees | src/read.rs:448-470 | `ignore_str` accepts every string the validating `parse_str_bytes` accepts, and stops just past the same quote |
| Reader.IgnoreStr | src/read.rs:448-470 | A skipped string consumes at least its closing quote, and the byte before where it stops is a quote |
| Reader.StrNew | src/read.rs:504-512 | A `StrRead` is a `SliceRead` over the string's bytes, starting at index 0 |
| ReaderFacts.SkipPlainIs | src/read.rs:357-359 | The fast-path scan ends exactly at the first stop byte, or at the end |
| ReaderFacts.EscapedIsCopied | src/read.rs:376-381 | Once an escape is met, a successful result is Copied |
| ReaderFacts.BorrowedWhenPlain | src/read.rs:364-369 | A string with no escape (and no control byte when validating) is returned Borrowed as the bytes up to the quote, with the reader past the quote |
| ReaderFacts.CopiedAfterScratch | src/read.rs:370-374 | With a non-empty scratch buffer, the same input gives Copied(scratch ++ bytes) |
| ReaderFacts.MissingQuote | src/read.rs:360-362 | Input that ends with no closing quote fails with `EofWhileParsingString` at the end |
| ReaderFacts.ControlByteRejected | src/read.rs:382-387 | With validation, the first raw control byte fails with `ControlCharacterWhileParsingString` past it; `ignore_str` reports it at the byte itself |
| ReaderFacts.ShortEscapeDecodes | src/read.rs:710-718 | A short escape appends its one decoded byte and consumes one byte; `ignore_escape` also consumes one byte |
| ReaderFacts.ShortEscapeTable | src/read.rs:711-718 | The short escapes decode to 0x22 0x5C 0x2F 0x08 0x0C 0x0A 0x0D 0x09 |
| ReaderFacts.UnknownEscapeRejected | src/read.rs:788-790 | Any other escape letter fails with `InvalidEscape`, in `parse_escape` and in `ignore_escape` alike |
| ReaderFacts.EscapeAtEnd | src/read.rs:708 | A backslash at the end of input fails with `EofWhileParsingString` |
| ReaderFacts.UnicodeEscapeStep | src/read.rs:719-728 | `\u` reads four hex digits and goes on with that code unit |
| ReaderFacts.BmpEscape | src/read.rs:783-786 | A code unit outside D800-DFFF is a scalar, and its UTF-8 encoding is appended |
| ReaderFacts.SurrogatePair | src/read.rs:739-786 | A high surrogate, then `\u` and a low surrogate, appends the UTF-8 encoding of `((n1 - 0xD800) << 10 \| (n2 - 0xDC00)) + 0x10000` and consumes all 11 bytes |
| ReaderFacts.SurrogatePairExample | src/read.rs:739-786 | The pair `\ud83d\ude00` decodes to U+1F600 and appends the four bytes F0 9F 98 80 |
| ReaderFacts.LoneLowSurrogate | src/read.rs:729-736 | A low surrogate first fails with `LoneLeadingSurrogateInHexEscape` when validating, and otherwise appends its three-byte form |
| ReaderFacts.HighSurrogateWithoutBackslash | src/read.rs:740-750 | A high surrogate not followed by a backslash fails with `UnexpectedEndOfHexEscape` past that byte when validating; otherwise it appends its three-byte form and leaves the byte unread |
| ReaderFacts.HighSurrogateThenOtherEscape | src/read.rs:752-764 | A high surrogate followed by a backslash and a letter other than `u` fails with `UnexpectedEndOfHexEscape` when validating; otherwise it appends its three-byte form and decodes that escape |
| ReaderFacts.HighSurrogateThenNonLow | src/read.rs:766-770 | A high surrogate followed by `\u` and a code unit that is not a low surrogate fails with `LoneLeadingSurrogateInHexEscape` |
| ReaderFacts.LoopChecksAtFinish | src/read.rs:343-390 | Checking UTF-8 changes nothing but the final result: the checked scan fails exactly when the unchecked one fails or its text is not valid UTF-8 |
| ReaderFacts.StrParseStrAgrees | src/read.rs:544-551 | `StrRead::parse_str` skips the UTF-8 check: it fails exactly as `SliceRead::parse_str` does, and agrees with it whenever the text is valid UTF-8 |
| Escape.EscapeTable | src/ser.rs:1603-1634 | A byte is escaped exactly when it is below 0x20, `"` or `\`; its entry is one of the eight letters, and `u` only for control bytes |
| Escape.FromEscapeTable | src/ser.rs:1060-1074 | The table letter picks the `CharEscape`; `u` gives `AsciiControl` carrying the byte |
| Escape.CharEscapeBytes | src/ser.rs:1276-1306 | Every escape is printable ASCII starting with a backslash, and holds no quote or backslash after its second byte |
| Escape.TableAgreesWithForm | src/ser.rs:1580-1591 | An unescaped byte is written as itself; an escaped one as `\` and its letter, or `\u00` and two lower-case hex digits |
| Escape.FormShape | src/ser.rs:1282-1305 | An escape form holds no raw quote or backslash after its second byte |
| Escape.ContentsLoopIs | src/ser.rs:1578-1600 | The fragment-and-escape loop writes the pending verbatim run followed by the byte-wise escaping of the rest |
| Escape.FormatEscapedStrContents | src/ser.rs:1567-1601 | The contents written are the concatenation, over the input bytes, of each byte's escape form |
| Escape.FormatEscapedStr | src/ser.rs:1557-1565 | The escaped contents are wrapped in exactly one `"` on each side |
| Escape.NoRawControl | src/ser.rs:1567-1601 | Escaped output contains no byte below 0x20 |
| Escape.EscapedIsPieces | src/ser.rs:1567-1601 | Escaped output is a sequence of single unescaped bytes and whole escape forms, so no quote or backslash stands outside an escape |
| Ser.WithIndent | src/ser.rs:1446-1452 | A new pretty formatter starts at depth 0, with no value, and the given indent |
| Ser.IndentBlocks | src/ser.rs:1740-1749 | Block k of `indent(n, unit)` is exactly `unit`, for every k < n |
| Ser.Open | src/ser.rs:1463-1470 | Opening writes the bracket; the pretty formatter goes one level deeper with no value yet |
| Ser.Close | src/ser.rs:1473-1485 | Closing goes back a level; after a value the pretty formatter writes a newline and the indent first |
| Ser.ValueDone | src/ser.rs:1497-1503 | After a value the pretty formatter records that it has one, at the same depth |
| Ser.KeyMustBeAStringError | src/ser.rs:720-722 | A rejected key is a `KeyMustBeAString` error with no position |
| Ser.MapKey | src/ser.rs:724-1027 | A key is accepted exactly when it is a string, char, unit variant or integer, possibly inside a newtype; it is then written between quotes, and every other key fails with `KeyMustBeAString` |
| Ser.QuotedInt | src/ser.rs:767-782 | An integer key is its decimal text between quotes |
| Ser.Serialize | src/ser.rs:60-404 | Serializing leaves the formatter at its depth; a scalar is written as its text and never fails |
| Ser.Begin | src/ser.rs:284-304 | A length hint of 0 writes the empty brackets at once (state Empty); any other hint opens the compound (state First) |
| Ser.Elements | src/ser.rs:484-502 | After any element the state is Rest and the formatter is back at its depth |
| Ser.Entries | src/ser.rs:601-640 | After any entry the state is Rest and the formatter is back at its depth |
| Ser.Fields | src/ser.rs:661-669 | After any field the state is Rest and the formatter is back at its depth |
| Ser.ByteElements | src/ser.rs:192-199 | Bytes are written as integer elements; the state ends as Rest when there were any |
| Ser.SerializeBytes | src/ser.rs:192-199 | `serialize_bytes` never fails and leaves the formatter at its depth |
| Ser.SerializeSeq | src/ser.rs:284-304 | `serialize_seq` with its elements and `end` leaves the formatter at its depth |
| Ser.SerializeMap | src/ser.rs:349-369 | `serialize_map` with its entries and `end` leaves the formatter at its depth |
| Ser.SerializeStruct | src/ser.rs:371-376 | A struct leaves the formatter at its depth; that it is a map with the field count as its hint is `SerFacts.StructIsMap` |
| Ser.VariantOpen | src/ser.rs:243-259 | A variant opens an object, one level deeper, whose key is the variant name |
| Ser.SerializeNewtypeVariant | src/ser.rs:233-268 | `{"variant":value}` leaves the formatter at its depth |
| Ser.SerializeTupleVariant | src/ser.rs:321-346 | `{"variant":[...]}` leaves the formatter at its depth |
| Ser.SerializeStructVariant | src/ser.rs:379-404 | `{"variant":{...}}` leaves the formatter at its depth |
| Ser.SerializeFails | src/ser.rs:720-1027 | Serializing fails exactly when some map key, at any depth, is not one `MapKeySerializer` accepts, and then with `KeyMustBeAString` |
| Ser.ToVec | src/ser.rs:1677-1684 | `to_vec` succeeds exactly when every map key is accepted, and otherwise fails with `KeyMustBeAString` |
| Ser.ToVecPretty | src/ser.rs:1693-1700 | `to_vec_pretty` succeeds exactly when every map key is accepted, and otherwise fails with `KeyMustBeAString` |
| SerFacts.CompactElements | src/ser.rs:484-502 | In compact mode the elements are their texts joined by `,`, with nothing before the first |
| SerFacts.CompactSeq | src/ser.rs:284-304 | A compact sequence is `[`, the comma-joined elements, `]` |
| SerFacts.CompactMap | src/ser.rs:601-650 | A compact map is `{`, then `key:value` pairs joined by `,`, then `}` |
| SerFacts.PrettyScalarElements | src/ser.rs:1488-1503 | In pretty mode each element starts on a new line at the current depth, with `,` ending every line but the last |
| SerFacts.PrettyEmptySeq | src/ser.rs:1463-1485 | An empty pretty sequence is `[]` with no newline |
| SerFacts.PrettyScalarSeq | src/ser.rs:1463-1503 | A non-empty pretty sequence puts each element on its own line one level deeper and the `]` on a new line at the outer depth |
| SerFacts.PrettyScalarMap | src/ser.rs:1506-1554 | A non-empty pretty map puts each `key: value` on its own line one level deeper and the `}` on a new line at the outer depth |
| SerFacts.EmptyCompounds | src/ser.rs:349-369 | A sequence, map or struct that is empty, with a length hint of 0 or none, is written `[]` or `{}` in either formatter |
| SerFacts.FieldsAreEntries | src/ser.rs:661-669 | Writing struct fields is writing map entries keyed by the field names as strings, with the same state, formatter and bytes |
| SerFacts.StructIsMap | src/ser.rs:371-376 | A struct is serialized exactly as a map with the number of fields as its length hint and the fields as string-keyed entries |
| SerFacts.CompactStruct | src/ser.rs:371-376 | A compact non-empty struct is `{`, each `"name":value` joined by commas, `}` |
| SerFacts.NonFiniteIsNull | src/ser.rs:152-177 | NaN and infinities are written as `null` |
| SerFacts.RejectedKeys | src/ser.rs:937-1027 | bool, float, unit, none, some, bytes, seq, map and newtype-variant keys fail with `KeyMustBeAString` |
| SerFacts.IntegerKey | src/ser.rs:767-782 | An integer key is written as its decimal text between quotes |
| SerFacts.PlainText | src/ser.rs:1580-1584 | Bytes that need no escape are written unchanged |
| SerFacts.QuotedPlain | src/ser.rs:733-735 | A string that needs no escape is written between quotes, as a key and as a value |
| SerFacts.CompactTwo | src/ser.rs:601-650 | A two-entry object is written `{k1:v1,k2:v2}` in compact mode |
| SerFacts.PrettyTwo | src/ser.rs:1506-1554 | A two-entry object is written on four lines with a two-space indent in pretty mode |
| SerFacts.CompactDocExample | src/value/mod.rs:200-202 | The documented object is written `{"city":"London","street":"10 Downing Street"}` |
| SerFacts.PrettyDocExample | src/value/mod.rs:210-212 | The documented object is written with one entry per line, two spaces in |
| JsonMap.LessTransitive | src/map.rs:29-30 | The byte-wise key order of the BTreeMap is transitive |
| JsonMap.LessTotal | src/map.rs:29-30 | Any two distinct keys are ordered one way or the other |
| JsonMap.New | src/map.rs:36-40 | A new map is empty |
| JsonMap.Clear | src/map.rs:58-60 | `clear` leaves the map empty |
| JsonMap.Get | src/map.rs:65-72 | `get` finds a value exactly for the keys present, and it is the stored one |
| JsonMap.ContainsKey | src/map.rs:76-82 | `contains_key` holds exactly when `get` finds a value |
| JsonMap.LenCountsKeys | src/map.rs:165-167 | `len` is the number of distinct keys |
| JsonMap.IsEmpty | src/map.rs:171-173 | `is_empty` holds exactly when `len` is 0, that is, when the map has no entry |
| JsonMap.Insert | src/map.rs:110-112 | After `insert(k, v)` k maps to v and nothing else changes; it returns the previous value, if any; the length grows by one exactly when k was absent |
| JsonMap.Remove | src/map.rs:118-127 | `remove(k)` returns the stored value, if any; afterwards k is absent and nothing else changes |
| JsonMap.RemoveEntry | src/map.rs:132-140 | `remove_entry(k)` returns the key with its value exactly when k was present, and removes only k |
| JsonMap.Append | src/map.rs:144-147 | `append` moves every entry of the other map in, replacing values on shared keys, and leaves the other map empty |
| JsonMap.EntryOf | src/map.rs:150-161 | `entry(k)` is Occupied exactly when k is present |
| JsonMap.OrInsert | src/map.rs:491-496 | `or_insert(d)` inserts d only into a vacant entry and keeps an existing value; either way it returns the value now stored at the key |
| JsonMap.AndModify | src/map.rs:542-553 | `and_modify(f)` applies f to an occupied entry's value and leaves a vacant entry as it was |
| JsonMap.ModifyOrInsertTwice | src/map.rs:529-540 | The documented chain `and_modify(f).or_insert(d)` stores d the first time and f(d) the second time |
| JsonMap.Retain | src/map.rs:219-226 | `retain(f)` keeps exactly the keys for which f returns true, each with the value f left behind, and stays sorted |
| JsonMap.VisitMap | src/map.rs:359-370 | Deserializing inserts the pairs in input order, so a repeated key ends with its last value and each key appears once |
| JsonMap.Iter | src/map.rs:769-790 | Iteration yields each stored pair once, in strictly ascending key order |
| JsonMap.IterCovers | src/map.rs:769-790 | Every key of the map is visited by the iteration |
| JsonMap.ViewDeterminesItems | src/map.rs:253-258 | Two maps with the same key/value pairs are equal |
| Values.AsObject | src/value/mod.rs:356-361 | `as_object` is Some exactly for an Object, and returns its map |
| Values.IsObject | src/value/mod.rs:338-340 | `is_object` holds exactly when `as_object` is Some |
| Values.AsArray | src/value/mod.rs:414-419 | `as_array` is Some exactly for an Array, and returns its elements |
| Values.IsArray | src/value/mod.rs:396-398 | `is_array` holds exactly when `as_array` is Some |
| Values.AsStr | src/value/mod.rs:481-486 | `as_str` is Some exactly for a String, and returns its text |
| Values.IsString | src/value/mod.rs:454-456 | `is_string` holds exactly when `as_str` is Some |
| Values.IsNumber | src/value/mod.rs:500-505 | `is_number` holds exactly for a Number |
| Values.AsBool | src/value/mod.rs:674-679 | `as_bool` is Some exactly for a Bool, and returns it |
| Values.IsBoolean | src/value/mod.rs:657-659 | `is_boolean` holds exactly when `as_bool` is Some |
| Values.AsNull | src/value/mod.rs:712-717 | `as_null` is Some exactly for Null |
| Values.IsNull | src/value/mod.rs:696-698 | `is_null` holds exactly when `as_null` is Some |
| Values.ExactlyOneKind | src/value/mod.rs:112-167 | Every value is exactly one of null, boolean, number, string, array and object |
| Values.Default | src/value/mod.rs:841-845 | `Value::default()` is Null |
| Values.Take | src/value/mod.rs:807-809 | `take` returns the old value and leaves Null in its place |
| Values.ParseIndex | src/value/mod.rs:253-258 | An index is accepted exactly when it is `0` or non-empty decimal digits with no `+` and no leading zero, whose value fits in usize |
| Values.ParseIndexDecimal | src/value/mod.rs:253-258 | The decimal text of every usize is accepted as that index |
| Values.ParseIndexCanonical | src/value/mod.rs:253-258 | An accepted index is exactly the decimal text of its value |
| Values.SplitJoin | src/value/mod.rs:746-747 | Splitting at `/` gives pieces without `/` that rejoin to the pointer |
| Values.UnescapeEscape | src/value/mod.rs:749 | Replacing `~1` by `/` and then `~0` by `~` undoes the escaping of section 3 of RFC 6901 |
| Values.ReplacementOrder | src/value/mod.rs:749 | The order matters: `~01` reads as `~1`, not as `/` |
| Values.Tokens | src/value/mod.rs:746-749 | The tokens are the pieces after the first `/`, each unescaped |
| Values.TokensOfPointer | src/value/mod.rs:739-749 | The tokens of a pointer built from keys are those keys |
| Values.Step | src/value/mod.rs:750-754 | An object looks the token up; an array applies `parse_index` and a bounds check; any other value gives None |
| Values.Pointer | src/value/mod.rs:739-745 | The empty pointer names the value itself; a pointer not starting with `/` names nothing |
| Values.WalkKeys | src/value/mod.rs:739-754 | A pointer built from a path of object keys finds the value at the end of that path |
| Values.AssignAt | src/value/mod.rs:780-796 | Assigning through `pointer_mut` succeeds exactly when `pointer` finds a value, and a later `pointer` then finds the new value |
| Values.TakeAt | src/value/mod.rs:766-777 | Taking through `pointer_mut` returns the value `pointer` found and leaves `pointer` finding Null |
| Values.AssignFrame | src/value/mod.rs:780-796 | Assigning through a pointer leaves every pointer whose path diverges from it finding what it found before, and a pointer extending it finds what the new value holds at the extension |
| Values.TakeFrame | src/value/mod.rs:766-796 | Taking through a pointer leaves every pointer whose path diverges from it finding what it found before |
| Values.PointerDocExample | src/value/mod.rs:736-737 | `/x/y/1` finds `"zz"` and `/a/b/c` finds nothing in the documented data |
| ValueSer.ToData | src/map.rs:321-331 | A value's serialization has honest length hints; an array announces its length; an object announces its number of entries |
| ValueSer.ObjectSerializationOrder | src/map.rs:321-331 | An object is written with its key count as the hint and each key once, with its value, in strictly ascending key order |
| ValueSer.ToDataKeys | src/map.rs:321-331 | Every map key a value hands to the serializer is accepted: object keys are strings |
| ValueSer.Display | src/value/mod.rs:214-250 | `Display` of a value never fails, in compact or pretty form, so its `fmt::Error` branch cannot be reached |
| ValueSer.DisplayDocExample | src/value/mod.rs:189-212 | `{}` of the documented object is the compact text and `{:#}` the two-space pretty text |
| Errors.Classify | src/error.rs:64-89 | Message is Data, Io is Io, the four `EofWhileParsing*` codes are Eof, and every other code is Syntax |
| Errors.ExactlyOneCategory | src/error.rs:92-109 | Exactly one of `is_io`, `is_syntax`, `is_data` and `is_eof` holds |
| Errors.IoError | src/error.rs:244-252 | An I/O error has line 0 and column 0 |
| Errors.FixPosition | src/error.rs:255-265 | The error is replaced only when its line is 0 |
| Errors.StartsWithDigit | src/error.rs:422-427 | True exactly when the first byte is `0`..`9` |
| Errors.LastIndexOf | src/error.rs:381-384 | `rfind` returns the last occurrence of the pattern, or None when there is none |
| Errors.DigitRunEnd | src/error.rs:388-391 | The digit scan stops at the first non-digit |
| Errors.DigitsParse | src/error.rs:407-414 | `usize::from_str` on a digit run succeeds exactly when the run is non-empty and fits in usize, with its decimal value |
| Errors.MakeError | src/error.rs:369-378 | `make_error` always produces a data error (a Message) |
| Errors.ParseLineColSound | src/error.rs:380-420 | A success means the message is m, `" at line "`, non-empty digits for the line, `" column "`, and non-empty digits for the column running to the end; m is what remains |
| Errors.ParseLineColComplete | src/error.rs:380-420 | Every such suffix on any message is parsed back to its line and column, and the message is cut to m |
| Errors.SuffixFound | src/error.rs:381-384 | The last `" at line "` in `m ++ suffix` is the one the suffix starts with |
| Errors.MakeErrorRoundTrip | src/error.rs:369-378 | `make_error(m ++ " at line L column C")` is message m with line L and column C |
| Errors.MakeErrorWithoutSuffix | src/error.rs:369-384 | A message without `" at line "` is kept whole with line and column 0 |
| Errors.DisplayThenMakeError | src/error.rs:316-328 | Parsing the `Display` text of a positioned error gives back its line, column and code text |
| Errors.Display | src/error.rs:316-328 | The message starts with the code text, and is exactly the code text when the line is 0 |
| LineCol.New | src/iter.rs:21-28 | A new tracker starts at line 1, column 0, line start 0 |
| LineCol.Next | src/iter.rs:49-64 | `\n` moves to the next line and column 0 and moves the line start to just past it; another byte advances the column; an I/O failure or the end of input passes through unchanged |
| LineCol.ByteOffsetCounts | src/iter.rs:38-40 | `byte_offset` (line start plus column) is the number of bytes consumed |
| LineCol.NextTracks | src/iter.rs:49-64 | Each step keeps line, column and line start equal to those of the bytes consumed so far |
| LineCol.AdvanceTracks | src/iter.rs:49-64 | After any number of steps the tracker describes all bytes consumed |
| LineCol.FromStart | src/iter.rs:21-64 | From a new tracker, after n items the line and column are those of the bytes among them and `byte_offset` counts them |
| Utf8.Encode | src/read.rs:786 | `encode_utf8` writes 1 to 4 bytes, and 1 exactly for ASCII |
| Utf8.EncodeRoundTrip | src/read.rs:786 | Decoding the encoding of a scalar gives it back, with the lead byte announcing the full width |
| Utf8.EncodeValid | src/read.rs:786 | The encoding of a scalar is valid UTF-8 |
| Utf8.SurrogateBytesInvalid | src/read.rs:720-726 | The three bytes written for a lone surrogate are not valid UTF-8, so a later UTF-8 check rejects them |
| Common.ParseUsize | src/error.rs:407-414 | `usize::from_str` accepts an optional `+` then non-empty digits whose value fits in usize |
| Common.DecimalRoundTrip | src/ser.rs:1103-1112 | The decimal text written for an integer reads back as that integer |
| Agreement.EscapeTablesAgree | src/read.rs:643-667 | Table consistency: the reader's stop table and the writer's escape table flag the same bytes |
| Agreement.ControlHex | src/ser.rs:1291-1300 | Table consistency: the `\u00XX` digits of a control byte decode back to it |
| Agreement.EscapeDecodes | src/ser.rs:1282-1305 | The reader decodes each escape form the writer emits back to the original byte, consuming exactly the form |
| Agreement.EscapedStringReadsBack | src/ser.rs:1557-1601 | Reading back `format_escaped_str(s)` with `parse_str_bytes` gives s and leaves the reader just past the closing quote, with or without validation |
| Agreement.EscapedStrReadsBack | src/read.rs:437-439 | `parse_str` reads back the escaped form of any valid UTF-8 string |
| Agreement.TrackerMatchesPosition | src/iter.rs:49-64 | After n bytes the line tracker's line and column equal `position_of_index(n)` over the same bytes, and its byte offset is n |

## Left out

- `IoRead` (src/read.rs:103-312) is not modelled: it wraps `std::io::Bytes`. Its position logic is `LineColIterator`, which is modelled.
- `collect_str` and its `Adapter` (src/ser.rs:406-455) are not modelled. They are `fmt::Write` plumbing.
- Integer text is the decimal function `Common.Decimal`/`IntText` (the role of itoa). Float text is opaque bytes carried by `FloatClass.Finite` (the role of ryu). No floating-point arithmetic is modelled.
- `fmt` machinery, `Debug`, and the `From<Error> for io::Error` conversion are not modelled.
- The writer is a byte sequence that is appended to and never fails, as a `Vec<u8>` is. I/O errors from other writers are not modelled.
- `macros.rs` (`json!`) is compile-time token rewriting, and `lib.rs` only re-exports. Both are left out. `tri!` is Dafny's `:-`.
- `number.rs`, `de.rs` and the value submodules (`de`, `ser`, `index`, `from`, `partial_eq`) are not part of this model.
  - The parser, the depth guard and number classification are therefore not modelled.
  - `ValueSer.ToData` assumes `value/ser.rs` maps each variant to the data-model call of the same kind.
- The `preserve_order` IndexMap branches of src/map.rs are not compiled in the default build. They are left out.
- `get_mut`, `iter_mut`, `values_mut`, `keys`, `values`, `with_capacity`, `get_key_value`, `FromIterator`, `Extend` and the owning iterators of src/map.rs are left out. They are borrowing views or thin BTreeMap delegations with no logic of their own.
- The Borrow-generic lookups are modelled with byte-string keys only.
- The reader's `Position`/`byte_offset` for `StrRead` and the `&mut R` forwarding impl are pure delegation. Only `StrRead::new` and `StrRead::parse_str` are modelled.
- A reader call that fails returns only its `Error`, not the reader state it leaves behind.
- `as_i64`, `as_u64`, `as_f64`, `is_i64`, `is_u64` and `is_f64` depend on `Number`, which is not part of this model. Numbers are an integer or opaque finite text.
- `as_object_mut`, `as_array_mut`, `get` and `get_mut` on `Value` are left out. They are borrowing accessors, or `Index` dispatch that is not part of this model.
- Ser.Serialize: with the pretty formatter, the length hints must be honest. A sequence or map announced with length 0 must not then receive elements. The source would close such a compound a second time, and at the top level its `usize` depth would go below zero (a panic in debug builds).
- Ser.SerializeSeq: the contract states only that the formatter returns to its depth. The exact text is stated by `SerFacts.CompactSeq`, `SerFacts.PrettyScalarSeq` and `SerFacts.EmptyCompounds`.
- Ser.SerializeMap: the contract states only that the formatter returns to its depth. The exact text is stated by `SerFacts.CompactMap`, `SerFacts.PrettyScalarMap` and `SerFacts.EmptyCompounds`.
- Ser.SerializeStruct: the contract states only that the formatter returns to its depth. `SerFacts.StructIsMap` states that a struct is the map of its fields with the field count as hint, and `SerFacts.CompactStruct` gives its compact text.
- Ser.SerializeBytes: the contract states only that the call cannot fail and the formatter returns to its depth.
- Ser.SerializeNewtypeVariant: the contract states only that the formatter returns to its depth.
- Ser.SerializeTupleVariant: the contract states only that the formatter returns to its depth.
- Ser.SerializeStructVariant: the contract states only that the formatter returns to its depth.
- Ser.Entries: the contract states the final state and depth. The exact compact and pretty texts are `SerFacts.CompactMap` and `SerFacts.PrettyScalarMap`.
- Ser.Fields: the contract states only the final state and depth. `SerFacts.FieldsAreEntries` relates it to `Ser.Entries`.
- SerFacts.PrettyScalarSeq: the exact pretty layout is proved for sequences of scalars only. Nested compounds are covered by the depth contracts of `Ser`.
- SerFacts.PrettyScalarMap: the exact pretty layout is proved for maps with scalar values only.
- Reader.ParseEscape: its own contract states progress only. The decoded bytes are stated case by case in `ReaderFacts`, and the prefix property in `Reader.EscapeExtends`.
- ReaderFacts.SurrogatePair: a high surrogate at the very end of input, just before `\`, or just before `u`, fails with `EofWhileParsingString` through `peek_or_eof`. The model does this, but no separate lemma states it.
- JsonMap.Retain: the callback is a pure function of key and value. State that an `FnMut` closure carries from one call to the next is not modelled.
- StringBodyFacts.IgnoreAgrees: holds in one direction only. `ignore_str` also accepts lone surrogate escapes and invalid UTF-8 that `parse_str` rejects.
- Values.AssignFrame: covers pointers that diverge from the assigned one and pointers that extend it. No lemma states what a pointer that is a proper prefix of it finds. Both pointers start with `/`: the empty pointer names the whole value, and one without `/` names nothing.
- Values.TakeFrame: covers pointers that diverge from the taken one only. No lemma states what prefixes and extensions of it find. Both pointers start with `/`, as for `Values.AssignFrame`.
- Values.Pointer: the walk itself is stated by `Values.Step` and `Values.WalkKeys`. Pointer's own contract covers the empty pointer and the missing `/`.

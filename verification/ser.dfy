/**
 * The serializer: what `Serializer` writes for each call a `Serialize`
 * implementation makes, with the compact and pretty formatters, the
 * `First`/`Rest`/`Empty` separator state of `Compound`, and the map-key
 * serializer. The calls are given as a `Data` tree; the writer is a
 * growing byte string (`Vec<u8>`), so writing never fails.
 */
module Ser {
  import opened Common
  import opened Errors
  import Utf8
  import opened Escape

  /** A Rust `char`. */
  type CharCode = c: nat | Utf8.IsScalar(c)

  /** A float as `classify` sees it; the text `ryu` would print for a finite one is taken as given. */
  datatype FloatClass = Finite(text: Bytes) | Nan | Infinite

  /**
   * The serde data-model calls a value makes on the serializer. Integers of
   * every width are one case (`itoa` prints them all the same way); a tuple
   * and a tuple struct are a `Seq` with a known length; a unit struct and
   * `None` write what a unit does.
   */
  datatype Data =
    | Unit
    | NoneValue
    | UnitStruct(name: Bytes)
    | Bool(b: bool)
    | Int(i: int)
    | Float(kind: FloatClass)
    | Char(c: CharCode)
    | Str(s: Bytes)
    | ByteString(bytes: Bytes)
    | SomeValue(inner: Data)
    | UnitVariant(variant: Bytes)
    | NewtypeStruct(inner: Data)
    | NewtypeVariant(variant: Bytes, inner: Data)
    | Seq(len: Option<nat>, elems: seq<Data>)
    | TupleVariant(variant: Bytes, elems: seq<Data>)
    | Map(len: Option<nat>, entries: seq<Entry>)
    | Struct(fields: seq<Field>)
    | StructVariant(variant: Bytes, fields: seq<Field>)

  /** A map entry: `serialize_key`, then `serialize_value`. */
  datatype Entry = Entry(key: Data, value: Data)

  /** A struct field: its name and value. */
  datatype Field = Field(name: Bytes, value: Data)

  /**
   * Every length hint of 0 comes with no elements. The pretty formatter
   * needs this: a sequence or map closed at once by its hint and then
   * given elements would be closed a second time by `end`, taking the
   * `usize` depth below zero.
   */
  predicate HintsHonest(d: Data)
    decreases d
  {
    match d
    case SomeValue(inner) => HintsHonest(inner)
    case NewtypeStruct(inner) => HintsHonest(inner)
    case NewtypeVariant(_, inner) => HintsHonest(inner)
    case Seq(len, elems) => (len == Some(0) ==> |elems| == 0) && forall i :: 0 <= i < |elems| ==> HintsHonest(elems[i])
    case TupleVariant(_, elems) => forall i :: 0 <= i < |elems| ==> HintsHonest(elems[i])
    case Map(len, entries) =>
      (len == Some(0) ==> |entries| == 0) && forall i :: 0 <= i < |entries| ==> HintsHonest(entries[i].value)
    case Struct(fields) => forall i :: 0 <= i < |fields| ==> HintsHonest(fields[i].value)
    case StructVariant(_, fields) => forall i :: 0 <= i < |fields| ==> HintsHonest(fields[i].value)
    case _ => true
  }

  /**
   * `CompactFormatter`, or `PrettyFormatter` with its nesting depth,
   * whether the current compound has a value yet, and the indent unit.
   */
  datatype Formatter = Compact | Pretty(currentIndent: nat, hasValue: bool, indent: Bytes)

  /** `PrettyFormatter::with_indent`. */
  function WithIndent(indent: Bytes): (f: Formatter)
    ensures f.Pretty? && f.currentIndent == 0 && !f.hasValue && f.indent == indent
  {
    Pretty(0, false, indent)
  }

  /** `PrettyFormatter::new`: two spaces. */
  function PrettyNew(): (f: Formatter)
    ensures f == WithIndent([0x20, 0x20])
  {
    WithIndent([0x20, 0x20])
  }

  /** `Compound`'s separator state. */
  datatype State = Empty | First | Rest

  const OPEN_BRACKET: byte := 0x5B
  const CLOSE_BRACKET: byte := 0x5D
  const OPEN_BRACE: byte := 0x7B
  const CLOSE_BRACE: byte := 0x7D
  const COMMA: byte := 0x2C
  const COLON: byte := 0x3A
  const SPACE: byte := 0x20

  function NullText(): Bytes {
    [0x6E, 0x75, 0x6C, 0x6C]
  }

  function BoolText(b: bool): Bytes {
    if b then [0x74, 0x72, 0x75, 0x65] else [0x66, 0x61, 0x6C, 0x73, 0x65]
  }

  /** The `indent` helper: the unit written `n` times. */
  function Indent(n: nat, unit: Bytes): (r: Bytes)
    ensures |r| == n * |unit|
  {
    if n == 0 then [] else Indent(n - 1, unit) + unit
  }

  /** Block `k` of an indentation, counting from 0, is the unit. */
  lemma {:induction false} IndentBlocks(n: nat, unit: Bytes, k: nat)
    requires k < n
    ensures (k + 1) * |unit| <= |Indent(n, unit)|
    ensures Indent(n, unit)[k * |unit|..(k + 1) * |unit|] == unit
    decreases n
  {
    var w := |unit|;
    var prev := Indent(n - 1, unit);
    assert Indent(n, unit) == prev + unit;
    assert (k + 1) * w == k * w + w;
    if k == n - 1 {
      assert |prev| == k * w;
    } else {
      IndentBlocks(n - 1, unit, k);
      assert (prev + unit)[k * w..(k + 1) * w] == prev[k * w..(k + 1) * w];
    }
  }

  /** Same kind of formatter, same depth, same indent unit. */
  predicate SameShape(f: Formatter, g: Formatter) {
    && (f.Compact? <==> g.Compact?)
    && (f.Pretty? ==> g.Pretty? && g.currentIndent == f.currentIndent && g.indent == f.indent)
  }

  /** `begin_array` and `begin_object`: the pretty formatter goes one level deeper. */
  function Open(f: Formatter, bracket: byte): (r: (Formatter, Bytes))
    ensures r.1 == [bracket]
    ensures f.Compact? ==> r.0 == Compact
    ensures f.Pretty? ==> r.0 == Pretty(f.currentIndent + 1, false, f.indent)
  {
    match f
    case Compact => (Compact, [bracket])
    case Pretty(n, _, unit) => (Pretty(n + 1, false, unit), [bracket])
  }

  /**
   * `end_array` and `end_object`: the pretty formatter goes back a level
   * and, if the compound had a value, starts a new line at that depth.
   * The depth is a `usize` that the matching `Open` raised.
   */
  function Close(f: Formatter, bracket: byte): (r: (Formatter, Bytes))
    requires f.Pretty? ==> f.currentIndent > 0
    ensures f.Compact? ==> r == (Compact, [bracket])
    ensures f.Pretty? ==> r.0 == Pretty(f.currentIndent - 1, f.hasValue, f.indent)
    ensures f.Pretty? && !f.hasValue ==> r.1 == [bracket]
    ensures f.Pretty? && f.hasValue ==> r.1 == [NEWLINE] + Indent(f.currentIndent - 1, f.indent) + [bracket]
  {
    match f
    case Compact => (Compact, [bracket])
    case Pretty(n, has, unit) =>
      (Pretty(n - 1, has, unit), (if has then [NEWLINE] + Indent(n - 1, unit) else []) + [bracket])
  }

  /** `begin_array_value` and `begin_object_key`: the separator before an element or key. */
  function Separator(f: Formatter, first: bool): (r: Bytes)
    ensures f.Compact? ==> r == if first then [] else [COMMA]
    ensures f.Pretty? ==>
              r == (if first then [NEWLINE] else [COMMA, NEWLINE]) + Indent(f.currentIndent, f.indent)
  {
    match f
    case Compact => if first then [] else [COMMA]
    case Pretty(n, _, unit) => (if first then [NEWLINE] else [COMMA, NEWLINE]) + Indent(n, unit)
  }

  /** `begin_object_value`. */
  function KeyValueSeparator(f: Formatter): (r: Bytes)
    ensures r == if f.Compact? then [COLON] else [COLON, SPACE]
  {
    if f.Compact? then [COLON] else [COLON, SPACE]
  }

  /** `end_array_value` and `end_object_value`: the pretty formatter notes a value was written. */
  function ValueDone(f: Formatter): (g: Formatter)
    ensures SameShape(f, g)
    ensures g.Pretty? ==> g.hasValue
  {
    match f
    case Compact => Compact
    case Pretty(n, _, unit) => Pretty(n, true, unit)
  }

  /** `key_must_be_a_string`: a syntax error with no position. */
  function KeyMustBeAStringError(): (e: Error)
    ensures e.code == KeyMustBeAString && e.line == 0 && e.column == 0
  {
    SyntaxError(KeyMustBeAString, 0, 0)
  }

  /** Map keys `MapKeySerializer` accepts: strings, chars, unit variants, integers, and newtypes of these. */
  predicate KeyAllowed(k: Data) {
    k.Str? || k.Char? || k.UnitVariant? || k.Int? || (k.NewtypeStruct? && KeyAllowed(k.inner))
  }

  /** Every map key anywhere in `d`, at any depth, is one `MapKeySerializer` accepts. */
  predicate KeysAllowed(d: Data)
    decreases d
  {
    match d
    case SomeValue(inner) => KeysAllowed(inner)
    case NewtypeStruct(inner) => KeysAllowed(inner)
    case NewtypeVariant(_, inner) => KeysAllowed(inner)
    case Seq(_, elems) => forall i :: 0 <= i < |elems| ==> KeysAllowed(elems[i])
    case TupleVariant(_, elems) => forall i :: 0 <= i < |elems| ==> KeysAllowed(elems[i])
    case Map(_, entries) => forall i :: 0 <= i < |entries| ==> KeyAllowed(entries[i].key) && KeysAllowed(entries[i].value)
    case Struct(fields) => forall i :: 0 <= i < |fields| ==> KeysAllowed(fields[i].value)
    case StructVariant(_, fields) => forall i :: 0 <= i < |fields| ==> KeysAllowed(fields[i].value)
    case _ => true
  }

  /**
   * `MapKeySerializer`: a string-like key is written as an escaped
   * string, an integer key as its decimal text between quotes, and every
   * other key fails with `KeyMustBeAString`. The formatter is not changed.
   */
  function MapKey(k: Data): (r: Result<Bytes, Error>)
    ensures r.Success? <==> KeyAllowed(k)
    ensures r.Failure? ==> r.error == KeyMustBeAStringError()
    ensures r.Success? ==> |r.value| >= 2 && r.value[0] == QUOTE && r.value[|r.value| - 1] == QUOTE
  {
    if k.Str? then Success(FormatEscapedStr(k.s))
    else if k.Char? then Success(FormatEscapedStr(Utf8.Encode(k.c)))
    else if k.UnitVariant? then Success(FormatEscapedStr(k.variant))
    else if k.Int? then Success(QuotedInt(k.i))
    else if k.NewtypeStruct? then MapKey(k.inner)
    else Failure(KeyMustBeAStringError())
  }

  /** An integer key: `begin_string`, the decimal text, `end_string`. */
  function QuotedInt(i: int): (r: Bytes)
    ensures |r| >= 2 && r[0] == QUOTE && r[|r| - 1] == QUOTE
    ensures r[1..|r| - 1] == IntText(i)
  {
    [QUOTE] + IntText(i) + [QUOTE]
  }

  /** The text of a scalar value (no nesting, no failure). */
  function ScalarText(d: Data): Bytes
    requires IsScalarData(d)
  {
    match d
    case Bool(b) => BoolText(b)
    case Int(i) => IntText(i)
    case Float(Finite(text)) => text
    case Float(_) => NullText()
    case Char(c) => FormatEscapedStr(Utf8.Encode(c))
    case Str(s) => FormatEscapedStr(s)
    case UnitVariant(v) => FormatEscapedStr(v)
    case _ => NullText()
  }

  predicate IsScalarData(d: Data) {
    d.Unit? || d.NoneValue? || d.UnitStruct? || d.Bool? || d.Int? || d.Float? || d.Char? || d.Str? || d.UnitVariant?
  }

  /** The serializer's outcome: the formatter after the call and the bytes written. */
  type Out = Result<(Formatter, Bytes), Error>

  /** `value.serialize(&mut serializer)` for each kind of call. */
  function Serialize(d: Data, f: Formatter): (r: Out)
    requires f.Pretty? ==> HintsHonest(d)
    ensures r.Success? ==> SameShape(f, r.value.0)
    ensures IsScalarData(d) ==> r == Success((f, ScalarText(d)))
    decreases d, 0
  {
    match d
    case SomeValue(inner) => Serialize(inner, f)
    case NewtypeStruct(inner) => Serialize(inner, f)
    case ByteString(bytes) => SerializeBytes(bytes, f)
    case NewtypeVariant(v, inner) => SerializeNewtypeVariant(v, inner, f)
    case Seq(len, elems) => SerializeSeq(len, elems, f)
    case TupleVariant(v, elems) => SerializeTupleVariant(v, elems, f)
    case Map(len, entries) => SerializeMap(len, entries, f)
    case Struct(fields) => SerializeStruct(fields, f)
    case StructVariant(v, fields) => SerializeStructVariant(v, fields, f)
    case _ => Success((f, ScalarText(d)))
  }

  /** `serialize_seq` and `serialize_map`: open, and with a length hint of 0 close at once. */
  function Begin(len: Option<nat>, f: Formatter, open: byte, close: byte): (r: (State, Formatter, Bytes))
    ensures r.0 != Rest
    ensures r.0 == Empty <==> len == Some(0)
    ensures r.0 == Empty ==> SameShape(f, r.1) && r.2 == [open, close]
    ensures r.0 == First ==> r.1 == Open(f, open).0 && r.2 == [open]
  {
    var (f1, w1) := Open(f, open);
    if len == Some(0) then
      var (f2, w2) := Close(f1, close);
      (Empty, f2, w1 + w2)
    else (First, f1, w1)
  }

  /** `SerializeSeq::end` and `SerializeMap::end`: nothing more after an early close. */
  function End(state: State, f: Formatter, close: byte): (r: (Formatter, Bytes))
    requires state != Empty && f.Pretty? ==> f.currentIndent > 0
    ensures state == Empty ==> r == (f, [])
    ensures state != Empty ==> r == Close(f, close)
  {
    if state == Empty then (f, []) else Close(f, close)
  }

  /** The elements of a sequence: a separator (none before the first), the value, `end_array_value`. */
  function Elements(elems: seq<Data>, state: State, f: Formatter): (r: Result<(State, Formatter, Bytes), Error>)
    requires f.Pretty? ==> forall i :: 0 <= i < |elems| ==> HintsHonest(elems[i])
    ensures r.Success? ==> SameShape(f, r.value.1)
    ensures r.Success? ==> r.value.0 == if |elems| == 0 then state else Rest
    decreases elems, 0
  {
    if |elems| == 0 then Success((state, f, []))
    else
      var sep := Separator(f, state == First);
      var (f1, w1) :- Serialize(elems[0], f);
      var (s2, f2, w2) :- Elements(elems[1..], Rest, ValueDone(f1));
      Success((s2, f2, sep + w1 + w2))
  }

  /** The entries of a map: separator, key through `MapKeySerializer`, `:`, value. */
  function Entries(entries: seq<Entry>, state: State, f: Formatter): (r: Result<(State, Formatter, Bytes), Error>)
    requires f.Pretty? ==> forall i :: 0 <= i < |entries| ==> HintsHonest(entries[i].value)
    ensures r.Success? ==> SameShape(f, r.value.1)
    ensures r.Success? ==> r.value.0 == if |entries| == 0 then state else Rest
    decreases entries, 0
  {
    if |entries| == 0 then Success((state, f, []))
    else
      var sep := Separator(f, state == First);
      var e := entries[0];
      assert e in entries && e.value < e;
      var key := MapKey(e.key);
      if key.Failure? then Failure(key.error)
      else
        var (f1, w1) :- Serialize(e.value, f);
        var (s2, f2, w2) :- Entries(entries[1..], Rest, ValueDone(f1));
        Success((s2, f2, sep + key.value + KeyValueSeparator(f) + w1 + w2))
  }

  /** The fields of a struct: `serialize_field` is `serialize_entry` with a string key. */
  function Fields(fields: seq<Field>, state: State, f: Formatter): (r: Result<(State, Formatter, Bytes), Error>)
    requires f.Pretty? ==> forall i :: 0 <= i < |fields| ==> HintsHonest(fields[i].value)
    ensures r.Success? ==> SameShape(f, r.value.1)
    ensures r.Success? ==> r.value.0 == if |fields| == 0 then state else Rest
    decreases fields, 0
  {
    if |fields| == 0 then Success((state, f, []))
    else
      var sep := Separator(f, state == First);
      var (f1, w1) :- Serialize(fields[0].value, f);
      var (s2, f2, w2) :- Fields(fields[1..], Rest, ValueDone(f1));
      Success((s2, f2, sep + FormatEscapedStr(fields[0].name) + KeyValueSeparator(f) + w1 + w2))
  }

  /** `serialize_bytes`: a sequence of the byte values as integers. */
  function ByteElements(bytes: Bytes, state: State, f: Formatter): (r: (State, Formatter, Bytes))
    ensures SameShape(f, r.1)
    ensures r.0 == if |bytes| == 0 then state else Rest
  {
    if |bytes| == 0 then (state, f, [])
    else
      var (s2, f2, w2) := ByteElements(bytes[1..], Rest, ValueDone(f));
      (s2, f2, Separator(f, state == First) + IntText(bytes[0]) + w2)
  }

  function SerializeBytes(bytes: Bytes, f: Formatter): (r: Out)
    ensures r.Success? && SameShape(f, r.value.0)
  {
    var (s1, f1, w1) := Begin(Some(|bytes|), f, OPEN_BRACKET, CLOSE_BRACKET);
    var (s2, f2, w2) := ByteElements(bytes, s1, f1);
    var (f3, w3) := End(s2, f2, CLOSE_BRACKET);
    Success((f3, w1 + w2 + w3))
  }

  /** `serialize_seq` with its elements and `end`. */
  function SerializeSeq(len: Option<nat>, elems: seq<Data>, f: Formatter): (r: Out)
    requires f.Pretty? ==> HintsHonest(Seq(len, elems))
    ensures r.Success? ==> SameShape(f, r.value.0)
    decreases elems, 1
  {
    var (s1, f1, w1) := Begin(len, f, OPEN_BRACKET, CLOSE_BRACKET);
    var (s2, f2, w2) :- Elements(elems, s1, f1);
    var (f3, w3) := End(s2, f2, CLOSE_BRACKET);
    Success((f3, w1 + w2 + w3))
  }

  /** `serialize_map` with its entries and `end`. */
  function SerializeMap(len: Option<nat>, entries: seq<Entry>, f: Formatter): (r: Out)
    requires f.Pretty? ==> HintsHonest(Map(len, entries))
    ensures r.Success? ==> SameShape(f, r.value.0)
    decreases entries, 1
  {
    var (s1, f1, w1) := Begin(len, f, OPEN_BRACE, CLOSE_BRACE);
    var (s2, f2, w2) :- Entries(entries, s1, f1);
    var (f3, w3) := End(s2, f2, CLOSE_BRACE);
    Success((f3, w1 + w2 + w3))
  }

  /** `serialize_struct`: a map whose length is the number of fields. */
  function SerializeStruct(fields: seq<Field>, f: Formatter): (r: Out)
    requires f.Pretty? ==> HintsHonest(Struct(fields))
    ensures r.Success? ==> SameShape(f, r.value.0)
    decreases fields, 1
  {
    var (s1, f1, w1) := Begin(Some(|fields|), f, OPEN_BRACE, CLOSE_BRACE);
    var (s2, f2, w2) :- Fields(fields, s1, f1);
    var (f3, w3) := End(s2, f2, CLOSE_BRACE);
    Success((f3, w1 + w2 + w3))
  }

  /** The opening shared by the variant forms: `{`, the variant name as the only key, and the `:`. */
  function VariantOpen(v: Bytes, f: Formatter): (r: (Formatter, Bytes))
    ensures r.0 == Open(f, OPEN_BRACE).0
  {
    var (f1, w1) := Open(f, OPEN_BRACE);
    (f1, w1 + Separator(f1, true) + FormatEscapedStr(v) + KeyValueSeparator(f1))
  }

  /** The closing shared by the variant forms: `end_object_value`, then `}`. */
  function VariantClose(f: Formatter): (r: (Formatter, Bytes))
    requires f.Pretty? ==> f.currentIndent > 0
    ensures f.Compact? ==> r == (Compact, [CLOSE_BRACE])
    ensures f.Pretty? ==> r.0 == Pretty(f.currentIndent - 1, true, f.indent)
    ensures f.Pretty? ==> r.1 == [NEWLINE] + Indent(f.currentIndent - 1, f.indent) + [CLOSE_BRACE]
  {
    Close(ValueDone(f), CLOSE_BRACE)
  }

  /** `serialize_newtype_variant`: `{"variant":value}`. */
  function SerializeNewtypeVariant(v: Bytes, inner: Data, f: Formatter): (r: Out)
    requires f.Pretty? ==> HintsHonest(inner)
    ensures r.Success? ==> SameShape(f, r.value.0)
    decreases inner, 1
  {
    var (f1, w1) := VariantOpen(v, f);
    var (f2, w2) :- Serialize(inner, f1);
    assert f2.Pretty? ==> f2.currentIndent == f.currentIndent + 1;
    var (f3, w3) := VariantClose(f2);
    Success((f3, w1 + w2 + w3))
  }

  /** `serialize_tuple_variant`: `{"variant":[elements]}`. */
  function SerializeTupleVariant(v: Bytes, elems: seq<Data>, f: Formatter): (r: Out)
    requires f.Pretty? ==> HintsHonest(TupleVariant(v, elems))
    ensures r.Success? ==> SameShape(f, r.value.0)
    decreases elems, 2
  {
    var (f1, w1) := VariantOpen(v, f);
    var (f2, w2) :- SerializeSeq(Some(|elems|), elems, f1);
    var (f3, w3) := VariantClose(f2);
    Success((f3, w1 + w2 + w3))
  }

  /** `serialize_struct_variant`: `{"variant":{fields}}`. */
  function SerializeStructVariant(v: Bytes, fields: seq<Field>, f: Formatter): (r: Out)
    requires f.Pretty? ==> HintsHonest(StructVariant(v, fields))
    ensures r.Success? ==> SameShape(f, r.value.0)
    decreases fields, 2
  {
    var (f1, w1) := VariantOpen(v, f);
    var (f2, w2) :- SerializeStruct(fields, f1);
    var (f3, w3) := VariantClose(f2);
    Success((f3, w1 + w2 + w3))
  }

  // ---- the only way serializing fails ----

  /**
   * The writer never fails, so the serializer fails exactly when some map
   * key is rejected, and then with `KeyMustBeAString`.
   */
  lemma {:induction false} SerializeFails(d: Data, f: Formatter)
    requires f.Pretty? ==> HintsHonest(d)
    ensures Serialize(d, f).Success? <==> KeysAllowed(d)
    ensures Serialize(d, f).Failure? ==> Serialize(d, f).error == KeyMustBeAStringError()
    decreases d, 0
  {
    hide SerializeSeq, SerializeMap, SerializeStruct, SerializeNewtypeVariant, SerializeTupleVariant, SerializeStructVariant, SerializeBytes, ScalarText, FormatEscapedStr, Elements, Entries, Fields;
    match d
    case SomeValue(inner) => SerializeFails(inner, f);
    case NewtypeStruct(inner) => SerializeFails(inner, f);
    case NewtypeVariant(v, inner) => NewtypeVariantFails(v, inner, f);
    case Seq(len, elems) => SeqFails(len, elems, f);
    case TupleVariant(v, elems) => TupleVariantFails(v, elems, f);
    case Map(len, entries) => MapFails(len, entries, f);
    case Struct(fields) => StructFails(fields, f);
    case StructVariant(v, fields) => StructVariantFails(v, fields, f);
    case _ =>
  }

  lemma {:induction false} ElementsFail(elems: seq<Data>, state: State, f: Formatter)
    requires f.Pretty? ==> forall i :: 0 <= i < |elems| ==> HintsHonest(elems[i])
    ensures Elements(elems, state, f).Success? <==> forall i :: 0 <= i < |elems| ==> KeysAllowed(elems[i])
    ensures Elements(elems, state, f).Failure? ==> Elements(elems, state, f).error == KeyMustBeAStringError()
    decreases elems, 0
  {
    hide Serialize, FormatEscapedStr, Separator, KeyValueSeparator;
    if |elems| > 0 {
      SerializeFails(elems[0], f);
      var r1 := Serialize(elems[0], f);
      if r1.Success? {
        ElementsFail(elems[1..], Rest, ValueDone(r1.value.0));
        assert forall i :: 1 <= i < |elems| ==> elems[i] == elems[1..][i - 1];
      }
    }
  }

  lemma {:induction false} EntriesFail(entries: seq<Entry>, state: State, f: Formatter)
    requires f.Pretty? ==> forall i :: 0 <= i < |entries| ==> HintsHonest(entries[i].value)
    ensures Entries(entries, state, f).Success? <==>
              forall i :: 0 <= i < |entries| ==> KeyAllowed(entries[i].key) && KeysAllowed(entries[i].value)
    ensures Entries(entries, state, f).Failure? ==> Entries(entries, state, f).error == KeyMustBeAStringError()
    decreases entries, 0
  {
    hide Serialize, FormatEscapedStr, Separator, KeyValueSeparator;
    if |entries| > 0 {
      var e := entries[0];
      assert e in entries && e.value < e;
      if KeyAllowed(e.key) {
        SerializeFails(e.value, f);
        var r1 := Serialize(e.value, f);
        if r1.Success? {
          EntriesFail(entries[1..], Rest, ValueDone(r1.value.0));
          assert forall i :: 1 <= i < |entries| ==> entries[i] == entries[1..][i - 1];
        }
      }
    }
  }

  lemma {:induction false} FieldsFail(fields: seq<Field>, state: State, f: Formatter)
    requires f.Pretty? ==> forall i :: 0 <= i < |fields| ==> HintsHonest(fields[i].value)
    ensures Fields(fields, state, f).Success? <==> forall i :: 0 <= i < |fields| ==> KeysAllowed(fields[i].value)
    ensures Fields(fields, state, f).Failure? ==> Fields(fields, state, f).error == KeyMustBeAStringError()
    decreases fields, 0
  {
    hide Serialize, FormatEscapedStr, Separator, KeyValueSeparator;
    if |fields| > 0 {
      SerializeFails(fields[0].value, f);
      var r1 := Serialize(fields[0].value, f);
      if r1.Success? {
        FieldsFail(fields[1..], Rest, ValueDone(r1.value.0));
        assert forall i :: 1 <= i < |fields| ==> fields[i] == fields[1..][i - 1];
      }
    }
  }

  lemma SeqFails(len: Option<nat>, elems: seq<Data>, f: Formatter)
    requires f.Pretty? ==> HintsHonest(Seq(len, elems))
    ensures SerializeSeq(len, elems, f).Success? <==> KeysAllowed(Seq(len, elems))
    ensures SerializeSeq(len, elems, f).Failure? ==> SerializeSeq(len, elems, f).error == KeyMustBeAStringError()
    decreases elems, 1
  {
    hide Elements, Entries, Fields, Serialize, FormatEscapedStr, Separator, KeyValueSeparator;
    var (s1, f1, w1) := Begin(len, f, OPEN_BRACKET, CLOSE_BRACKET);
    ElementsFail(elems, s1, f1);
  }

  lemma MapFails(len: Option<nat>, entries: seq<Entry>, f: Formatter)
    requires f.Pretty? ==> HintsHonest(Map(len, entries))
    ensures SerializeMap(len, entries, f).Success? <==> KeysAllowed(Map(len, entries))
    ensures SerializeMap(len, entries, f).Failure? ==> SerializeMap(len, entries, f).error == KeyMustBeAStringError()
    decreases entries, 1
  {
    hide Elements, Entries, Fields, Serialize, SerializeSeq, SerializeStruct, FormatEscapedStr, Separator, KeyValueSeparator;
    var (s1, f1, w1) := Begin(len, f, OPEN_BRACE, CLOSE_BRACE);
    EntriesFail(entries, s1, f1);
  }

  lemma StructFails(fields: seq<Field>, f: Formatter)
    requires f.Pretty? ==> HintsHonest(Struct(fields))
    ensures SerializeStruct(fields, f).Success? <==> KeysAllowed(Struct(fields))
    ensures SerializeStruct(fields, f).Failure? ==> SerializeStruct(fields, f).error == KeyMustBeAStringError()
    decreases fields, 1
  {
    hide Elements, Entries, Fields, Serialize, FormatEscapedStr, Separator, KeyValueSeparator;
    var (s1, f1, w1) := Begin(Some(|fields|), f, OPEN_BRACE, CLOSE_BRACE);
    FieldsFail(fields, s1, f1);
  }

  lemma NewtypeVariantFails(v: Bytes, inner: Data, f: Formatter)
    requires f.Pretty? ==> HintsHonest(inner)
    ensures SerializeNewtypeVariant(v, inner, f).Success? <==> KeysAllowed(inner)
    ensures SerializeNewtypeVariant(v, inner, f).Failure? ==> SerializeNewtypeVariant(v, inner, f).error == KeyMustBeAStringError()
    decreases inner, 1
  {
    hide Elements, Entries, Fields, Serialize, SerializeSeq, SerializeStruct, FormatEscapedStr, Separator, KeyValueSeparator;
    SerializeFails(inner, VariantOpen(v, f).0);
  }

  lemma TupleVariantFails(v: Bytes, elems: seq<Data>, f: Formatter)
    requires f.Pretty? ==> HintsHonest(TupleVariant(v, elems))
    ensures SerializeTupleVariant(v, elems, f).Success? <==> KeysAllowed(TupleVariant(v, elems))
    ensures SerializeTupleVariant(v, elems, f).Failure? ==> SerializeTupleVariant(v, elems, f).error == KeyMustBeAStringError()
    decreases elems, 2
  {
    hide Elements, Entries, Fields, Serialize, SerializeSeq, SerializeStruct, FormatEscapedStr, Separator, KeyValueSeparator;
    SeqFails(Some(|elems|), elems, VariantOpen(v, f).0);
  }

  lemma StructVariantFails(v: Bytes, fields: seq<Field>, f: Formatter)
    requires f.Pretty? ==> HintsHonest(StructVariant(v, fields))
    ensures SerializeStructVariant(v, fields, f).Success? <==> KeysAllowed(StructVariant(v, fields))
    ensures SerializeStructVariant(v, fields, f).Failure? ==> SerializeStructVariant(v, fields, f).error == KeyMustBeAStringError()
    decreases fields, 2
  {
    hide Elements, Entries, Fields, Serialize, SerializeSeq, SerializeStruct, FormatEscapedStr, Separator, KeyValueSeparator;
    StructFails(fields, VariantOpen(v, f).0);
  }

  /** `to_vec`: the compact formatter. It fails only on a rejected map key. */
  function ToVec(d: Data): (r: Result<Bytes, Error>)
    ensures r.Success? <==> KeysAllowed(d)
    ensures r.Failure? ==> r.error == KeyMustBeAStringError()
  {
    SerializeFails(d, Compact);
    var (_, w) :- Serialize(d, Compact);
    Success(w)
  }

  /** `to_vec_pretty`: the pretty formatter with two-space indent. It fails only on a rejected map key. */
  function ToVecPretty(d: Data): (r: Result<Bytes, Error>)
    requires HintsHonest(d)
    ensures r.Success? <==> KeysAllowed(d)
    ensures r.Failure? ==> r.error == KeyMustBeAStringError()
  {
    SerializeFails(d, PrettyNew());
    var (_, w) :- Serialize(d, PrettyNew());
    Success(w)
  }
}

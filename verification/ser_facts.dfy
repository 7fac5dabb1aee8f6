/**
 * What the serializer's output looks like: the comma rule of the compact
 * formatter, the line layout of the pretty formatter, empty compounds,
 * non-finite floats, rejected map keys, and the two outputs the `Display`
 * documentation of `Value` shows.
 */
module SerFacts {
  import opened Common
  import opened Errors
  import opened Escape
  import opened Ser

  /** Each part preceded by a comma. */
  function CommaLed(parts: seq<Bytes>): Bytes {
    if |parts| == 0 then [] else [COMMA] + parts[0] + CommaLed(parts[1..])
  }

  /** The parts separated by commas. */
  function Join(parts: seq<Bytes>): Bytes {
    if |parts| == 0 then [] else parts[0] + CommaLed(parts[1..])
  }

  /** Each key followed by `:` and its value, for the compact formatter. */
  function CompactPairs(keys: seq<Bytes>, values: seq<Bytes>): (r: seq<Bytes>)
    requires |keys| == |values|
    ensures |r| == |keys|
  {
    if |keys| == 0 then [] else [keys[0] + [COLON] + values[0]] + CompactPairs(keys[1..], values[1..])
  }

  /** `Join` is `CommaLed` without the first comma. */
  lemma JoinFirst(parts: seq<Bytes>)
    requires |parts| > 0
    ensures Join(parts) == [] + parts[0] + CommaLed(parts[1..])
    ensures CommaLed(parts) == [COMMA] + parts[0] + CommaLed(parts[1..])
  {
    assert [] + parts[0] == parts[0];
  }

  /** The text `serialize` writes for each element, with the compact formatter. */
  predicate CompactOuts(elems: seq<Data>, outs: seq<Bytes>) {
    |outs| == |elems| && forall i :: 0 <= i < |elems| ==> Serialize(elems[i], Compact) == Success((Compact, outs[i]))
  }

  /** One element: its separator, its text, then the rest. */
  lemma ElementsStep(elems: seq<Data>, state: State, f: Formatter, f1: Formatter, w1: Bytes)
    requires |elems| > 0
    requires f.Pretty? ==> forall i :: 0 <= i < |elems| ==> HintsHonest(elems[i])
    requires Serialize(elems[0], f) == Success((f1, w1))
    ensures f.Pretty? ==> forall i :: 0 <= i < |elems[1..]| ==> HintsHonest(elems[1..][i])
    ensures Elements(elems[1..], Rest, ValueDone(f1)).Failure? ==>
              Elements(elems, state, f) == Failure(Elements(elems[1..], Rest, ValueDone(f1)).error)
    ensures Elements(elems[1..], Rest, ValueDone(f1)).Success? ==>
              var (s2, f2, w2) := Elements(elems[1..], Rest, ValueDone(f1)).value;
              Elements(elems, state, f) == Success((s2, f2, Separator(f, state == First) + w1 + w2))
  {
    assert f.Pretty? ==> forall i :: 0 <= i < |elems[1..]| ==> HintsHonest(elems[1..][i]) by {
      if f.Pretty? {
        forall i | 0 <= i < |elems[1..]| ensures HintsHonest(elems[1..][i]) {
          assert elems[1..][i] == elems[i + 1];
        }
      }
    }
  }

  /** One entry: separator, key, `:`, value, then the rest. */
  lemma EntriesStep(entries: seq<Entry>, state: State, f: Formatter, key: Bytes, f1: Formatter, w1: Bytes,
                    s2: State, f2: Formatter, w2: Bytes)
    requires |entries| > 0
    requires f.Pretty? ==> forall i :: 0 <= i < |entries| ==> HintsHonest(entries[i].value)
    requires MapKey(entries[0].key) == Success(key)
    requires Serialize(entries[0].value, f) == Success((f1, w1))
    requires f.Pretty? ==> forall i :: 0 <= i < |entries[1..]| ==> HintsHonest(entries[1..][i].value)
    requires Entries(entries[1..], Rest, ValueDone(f1)) == Success((s2, f2, w2))
    ensures Entries(entries, state, f) == Success((s2, f2, Separator(f, state == First) + key + KeyValueSeparator(f) + w1 + w2))
  {
  }

  lemma HonestEntriesTail(entries: seq<Entry>)
    requires |entries| > 0
    requires forall i :: 0 <= i < |entries| ==> HintsHonest(entries[i].value)
    ensures forall i :: 0 <= i < |entries[1..]| ==> HintsHonest(entries[1..][i].value)
  {
    forall i | 0 <= i < |entries[1..]| ensures HintsHonest(entries[1..][i].value) {
      assert entries[1..][i] == entries[i + 1];
    }
  }

  lemma CompactOutsTail(elems: seq<Data>, outs: seq<Bytes>)
    requires |elems| > 0 && CompactOuts(elems, outs)
    ensures CompactOuts(elems[1..], outs[1..])
  {
    forall i | 0 <= i < |elems[1..]|
      ensures Serialize(elems[1..][i], Compact) == Success((Compact, outs[1..][i]))
    {
      assert elems[1..][i] == elems[i + 1];
    }
  }

  lemma {:induction false} CompactElementsFrom(elems: seq<Data>, outs: seq<Bytes>, state: State)
    requires CompactOuts(elems, outs) && state != Empty
    ensures |elems| > 0 ==>
              Elements(elems, state, Compact) ==
              Success((Rest, Compact, (if state == First then [] else [COMMA]) + outs[0] + CommaLed(outs[1..])))
    ensures |elems| == 0 ==> Elements(elems, state, Compact) == Success((state, Compact, []))
  {
    if |elems| > 0 {
      CompactOutsTail(elems, outs);
      ElementsStep(elems, state, Compact, Compact, outs[0]);
      if |elems| > 1 {
        CompactElementsFrom(elems[1..], outs[1..], Rest);
        assert outs[1..][1..] == outs[2..];
      }
    }
  }

  /** With the compact formatter the elements are written separated by commas, none before the first. */
  lemma CompactElements(elems: seq<Data>, outs: seq<Bytes>)
    requires CompactOuts(elems, outs)
    ensures Elements(elems, First, Compact) == Success((if |elems| == 0 then First else Rest, Compact, Join(outs)))
  {
    CompactElementsFrom(elems, outs, First);
    if |elems| > 0 {
      JoinFirst(outs);
    }
  }

  /** An array with elements and no zero hint: `[`, the elements, then `end_array`. */
  lemma SeqOfElements(len: Option<nat>, elems: seq<Data>, f: Formatter, s2: State, f2: Formatter, w2: Bytes)
    requires len != Some(0) && |elems| > 0
    requires f.Pretty? ==> HintsHonest(Seq(len, elems))
    requires Elements(elems, First, Open(f, OPEN_BRACKET).0) == Success((s2, f2, w2))
    requires f2.Pretty? ==> f2.currentIndent > 0
    ensures Serialize(Seq(len, elems), f) == Success((Close(f2, CLOSE_BRACKET).0, [OPEN_BRACKET] + w2 + Close(f2, CLOSE_BRACKET).1))
  {
    assert Serialize(Seq(len, elems), f) == SerializeSeq(len, elems, f);
  }

  /** The same for an object. */
  lemma MapOfEntries(len: Option<nat>, entries: seq<Entry>, f: Formatter, s2: State, f2: Formatter, w2: Bytes)
    requires len != Some(0) && |entries| > 0
    requires f.Pretty? ==> HintsHonest(Map(len, entries))
    requires Entries(entries, First, Open(f, OPEN_BRACE).0) == Success((s2, f2, w2))
    requires f2.Pretty? ==> f2.currentIndent > 0
    ensures Serialize(Map(len, entries), f) == Success((Close(f2, CLOSE_BRACE).0, [OPEN_BRACE] + w2 + Close(f2, CLOSE_BRACE).1))
  {
    assert Serialize(Map(len, entries), f) == SerializeMap(len, entries, f);
  }

  /** A compact array: `[`, the elements joined by commas, `]`. */
  lemma CompactSeq(len: Option<nat>, elems: seq<Data>, outs: seq<Bytes>)
    requires len != Some(0) && CompactOuts(elems, outs)
    ensures Serialize(Seq(len, elems), Compact) == Success((Compact, [OPEN_BRACKET] + Join(outs) + [CLOSE_BRACKET]))
  {
    CompactElements(elems, outs);
    if |elems| > 0 {
      SeqOfElements(len, elems, Compact, Rest, Compact, Join(outs));
    } else {
      assert Serialize(Seq(len, elems), Compact) == SerializeSeq(len, elems, Compact);
    }
  }

  /** The keys and values of map entries as the compact formatter writes them. */
  predicate CompactEntryOuts(entries: seq<Entry>, keys: seq<Bytes>, values: seq<Bytes>) {
    && |keys| == |entries| && |values| == |entries|
    && (forall i :: 0 <= i < |entries| ==> MapKey(entries[i].key) == Success(keys[i]))
    && (forall i :: 0 <= i < |entries| ==> Serialize(entries[i].value, Compact) == Success((Compact, values[i])))
  }

  lemma CompactEntryOutsTail(entries: seq<Entry>, keys: seq<Bytes>, values: seq<Bytes>)
    requires |entries| > 0 && CompactEntryOuts(entries, keys, values)
    ensures CompactEntryOuts(entries[1..], keys[1..], values[1..])
  {
    forall i | 0 <= i < |entries| - 1
      ensures MapKey(entries[1..][i].key) == Success(keys[1..][i])
      ensures Serialize(entries[1..][i].value, Compact) == Success((Compact, values[1..][i]))
    {
      assert entries[1..][i] == entries[i + 1];
    }
  }

  /** The first compact pair and the pairs after it. */
  lemma CompactPairsFirst(keys: seq<Bytes>, values: seq<Bytes>)
    requires |keys| == |values| > 0
    ensures CompactPairs(keys, values)[0] == keys[0] + [COLON] + values[0]
    ensures CompactPairs(keys, values)[1..] == CompactPairs(keys[1..], values[1..])
  {
  }

  /** Five pieces, with the middle three grouped. */
  lemma Regroup(a: Bytes, b: Bytes, c: Bytes, d: Bytes, e: Bytes)
    ensures a + b + c + d + e == a + (b + c + d) + e
  {
  }

  lemma CompactEntryUnfold(entries: seq<Entry>, state: State, key: Bytes, value: Bytes, rest: Bytes)
    requires |entries| > 0
    requires MapKey(entries[0].key) == Success(key)
    requires Serialize(entries[0].value, Compact) == Success((Compact, value))
    requires Entries(entries[1..], Rest, Compact) == Success((Rest, Compact, rest))
    ensures Entries(entries, state, Compact) ==
              Success((Rest, Compact, Separator(Compact, state == First) + key + [COLON] + value + rest))
  {
  }

  /** One compact entry in front of the compact text of the rest. */
  lemma CompactEntryStep(entries: seq<Entry>, state: State, key: Bytes, value: Bytes, rest: Bytes)
    requires |entries| > 0
    requires MapKey(entries[0].key) == Success(key)
    requires Serialize(entries[0].value, Compact) == Success((Compact, value))
    requires Entries(entries[1..], Rest, Compact) == Success((Rest, Compact, rest))
    ensures Entries(entries, state, Compact) ==
              Success((Rest, Compact, (if state == First then [] else [COMMA]) + (key + [COLON] + value) + rest))
  {
    CompactEntryUnfold(entries, state, key, value, rest);
    Regroup(Separator(Compact, state == First), key, [COLON], value, rest);
  }

  lemma {:induction false} CompactEntriesFrom(entries: seq<Entry>, keys: seq<Bytes>, values: seq<Bytes>, state: State)
    requires CompactEntryOuts(entries, keys, values) && state != Empty
    ensures |entries| > 0 ==>
              Entries(entries, state, Compact) ==
              Success((Rest, Compact, (if state == First then [] else [COMMA]) + CompactPairs(keys, values)[0]
                                      + CommaLed(CompactPairs(keys, values)[1..])))
    ensures |entries| == 0 ==> Entries(entries, state, Compact) == Success((state, Compact, []))
  {
    if |entries| > 0 {
      CompactEntryOutsTail(entries, keys, values);
      var pairs := CompactPairs(keys, values);
      CompactPairsFirst(keys, values);
      if |entries| > 1 {
        CompactEntriesFrom(entries[1..], keys[1..], values[1..], Rest);
        JoinFirst(pairs[1..]);
      }
      CompactEntryStep(entries, state, keys[0], values[0], CommaLed(pairs[1..]));
    }
  }

  /** A compact object: `{`, each key, `:` and value, joined by commas, `}`. */
  lemma CompactMap(len: Option<nat>, entries: seq<Entry>, keys: seq<Bytes>, values: seq<Bytes>)
    requires len != Some(0) && CompactEntryOuts(entries, keys, values)
    ensures Serialize(Map(len, entries), Compact) ==
              Success((Compact, [OPEN_BRACE] + Join(CompactPairs(keys, values)) + [CLOSE_BRACE]))
  {
    CompactEntriesFrom(entries, keys, values, First);
    if |entries| > 0 {
      JoinFirst(CompactPairs(keys, values));
      MapOfEntries(len, entries, Compact, Rest, Compact, Join(CompactPairs(keys, values)));
    } else {
      assert Serialize(Map(len, entries), Compact) == SerializeMap(len, entries, Compact);
    }
  }

  /**
   * The pretty layout at one depth: each part on its own line, indented
   * `depth` times, with a comma ending every line but the last.
   */
  function PrettyLines(parts: seq<Bytes>, depth: nat, unit: Bytes, first: bool): Bytes {
    if |parts| == 0 then []
    else (if first then [NEWLINE] else [COMMA, NEWLINE]) + Indent(depth, unit) + parts[0]
         + PrettyLines(parts[1..], depth, unit, false)
  }

  predicate AllScalars(elems: seq<Data>) {
    forall i :: 0 <= i < |elems| ==> IsScalarData(elems[i])
  }

  function ScalarTexts(elems: seq<Data>): (r: seq<Bytes>)
    requires AllScalars(elems)
    ensures |r| == |elems|
  {
    if |elems| == 0 then [] else [ScalarText(elems[0])] + ScalarTexts(elems[1..])
  }

  lemma {:induction false} PrettyScalarElements(elems: seq<Data>, state: State, n: nat, has: bool, unit: Bytes)
    requires AllScalars(elems) && state != Empty
    ensures Elements(elems, state, Pretty(n, has, unit)) ==
              Success((if |elems| == 0 then state else Rest,
                       Pretty(n, has || |elems| > 0, unit),
                       PrettyLines(ScalarTexts(elems), n, unit, state == First)))
  {
    if |elems| > 0 {
      var f := Pretty(n, has, unit);
      ElementsStep(elems, state, f, f, ScalarText(elems[0]));
      assert AllScalars(elems[1..]) by {
        forall i | 0 <= i < |elems[1..]| ensures IsScalarData(elems[1..][i]) {
          assert elems[1..][i] == elems[i + 1];
        }
      }
      PrettyScalarElements(elems[1..], Rest, n, true, unit);
      assert ScalarTexts(elems)[1..] == ScalarTexts(elems[1..]);
    }
  }

  /** Closing a compound that had a value, one level below depth `n + 1`. */
  lemma CloseAfterValue(n: nat, unit: Bytes, bracket: byte, open: byte, lines: Bytes)
    ensures Close(Pretty(n + 1, true, unit), bracket) == (Pretty(n, true, unit), [NEWLINE] + Indent(n, unit) + [bracket])
    ensures [open] + lines + Close(Pretty(n + 1, true, unit), bracket).1 == [open] + lines + [NEWLINE] + Indent(n, unit) + [bracket]
  {
  }

  /** An empty pretty array is `[]`, with or without a length hint. */
  lemma PrettyEmptySeq(len: Option<nat>, n: nat, has: bool, unit: Bytes)
    requires len == Some(0) || len == None
    ensures Serialize(Seq(len, []), Pretty(n, has, unit)) == Success((Pretty(n, false, unit), [OPEN_BRACKET, CLOSE_BRACKET]))
  {
    var f := Pretty(n, has, unit);
    assert Serialize(Seq(len, []), f) == SerializeSeq(len, [], f);
    var f1 := Pretty(n + 1, false, unit);
    if len == Some(0) {
      assert Begin(len, f, OPEN_BRACKET, CLOSE_BRACKET) == (Empty, Pretty(n, false, unit), [OPEN_BRACKET] + [CLOSE_BRACKET]);
      assert Elements([], Empty, Pretty(n, false, unit)) == Success((Empty, Pretty(n, false, unit), []));
      assert End(Empty, Pretty(n, false, unit), CLOSE_BRACKET) == (Pretty(n, false, unit), []);
      assert [OPEN_BRACKET] + [CLOSE_BRACKET] + [] + [] == [OPEN_BRACKET, CLOSE_BRACKET];
    } else {
      assert Begin(len, f, OPEN_BRACKET, CLOSE_BRACKET) == (First, f1, [OPEN_BRACKET]);
      assert Elements([], First, f1) == Success((First, f1, []));
      assert End(First, f1, CLOSE_BRACKET) == (Pretty(n, false, unit), [CLOSE_BRACKET]);
      assert [OPEN_BRACKET] + [] + [CLOSE_BRACKET] == [OPEN_BRACKET, CLOSE_BRACKET];
    }
  }

  /**
   * A pretty array of scalars at depth `n`: `[`, each element on its own
   * line one level deeper, then a new line at depth `n` and `]`.
   */
  lemma PrettyScalarSeq(len: Option<nat>, elems: seq<Data>, n: nat, has: bool, unit: Bytes)
    requires AllScalars(elems) && len != Some(0) && |elems| > 0
    ensures Serialize(Seq(len, elems), Pretty(n, has, unit)) ==
              Success((Pretty(n, true, unit),
                       [OPEN_BRACKET] + PrettyLines(ScalarTexts(elems), n + 1, unit, true)
                       + [NEWLINE] + Indent(n, unit) + [CLOSE_BRACKET]))
  {
    var lines := PrettyLines(ScalarTexts(elems), n + 1, unit, true);
    assert HintsHonest(Seq(len, elems));
    PrettyScalarElements(elems, First, n + 1, false, unit);
    assert Open(Pretty(n, has, unit), OPEN_BRACKET).0 == Pretty(n + 1, false, unit);
    SeqOfElements(len, elems, Pretty(n, has, unit), Rest, Pretty(n + 1, true, unit), lines);
    CloseAfterValue(n, unit, CLOSE_BRACKET, OPEN_BRACKET, lines);
  }

  /** Each key followed by `: ` and its value, for the pretty formatter. */
  function PrettyPairs(keys: seq<Bytes>, values: seq<Bytes>): (r: seq<Bytes>)
    requires |keys| == |values|
    ensures |r| == |keys|
  {
    if |keys| == 0 then [] else [keys[0] + [COLON, SPACE] + values[0]] + PrettyPairs(keys[1..], values[1..])
  }

  /** Map entries whose values are all scalars. */
  predicate ScalarValues(entries: seq<Entry>) {
    forall i :: 0 <= i < |entries| ==> IsScalarData(entries[i].value)
  }

  /** Map entries whose values are scalars, with their key texts. */
  predicate ScalarEntries(entries: seq<Entry>, keys: seq<Bytes>) {
    && |keys| == |entries|
    && (forall i :: 0 <= i < |entries| ==> MapKey(entries[i].key) == Success(keys[i]))
    && ScalarValues(entries)
  }

  /** The texts of the scalar values, in entry order. */
  function ValueTexts(entries: seq<Entry>): (r: seq<Bytes>)
    requires ScalarValues(entries)
    ensures |r| == |entries|
  {
    if |entries| == 0 then []
    else
      assert entries[1..] == entries[1..] && forall i :: 0 <= i < |entries[1..]| ==> entries[1..][i] == entries[i + 1];
      [ScalarText(entries[0].value)] + ValueTexts(entries[1..])
  }

  lemma ScalarEntriesTail(entries: seq<Entry>, keys: seq<Bytes>)
    requires |entries| > 0 && ScalarEntries(entries, keys)
    ensures ScalarEntries(entries[1..], keys[1..])
  {
    forall i | 0 <= i < |entries| - 1
      ensures MapKey(entries[1..][i].key) == Success(keys[1..][i]) && IsScalarData(entries[1..][i].value)
    {
      assert entries[1..][i] == entries[i + 1];
    }
  }

  /** A scalar value is honest about its hints, having none. */
  lemma ScalarValuesHonest(entries: seq<Entry>)
    requires ScalarValues(entries)
    ensures forall i :: 0 <= i < |entries| ==> HintsHonest(entries[i].value)
  {
  }

  lemma PrettyEntryUnfold(entries: seq<Entry>, state: State, n: nat, has: bool, unit: Bytes, key: Bytes, rest: Bytes)
    requires |entries| > 0 && ScalarValues(entries)
    requires MapKey(entries[0].key) == Success(key)
    requires Entries(entries[1..], Rest, Pretty(n, true, unit)) == Success((Rest, Pretty(n, true, unit), rest))
    ensures Entries(entries, state, Pretty(n, has, unit)) ==
              Success((Rest, Pretty(n, true, unit),
                       Separator(Pretty(n, has, unit), state == First) + key + [COLON, SPACE] + ScalarText(entries[0].value) + rest))
  {
    ScalarValuesHonest(entries);
  }

  lemma ScalarMapHonest(len: Option<nat>, entries: seq<Entry>)
    requires ScalarValues(entries) && len != Some(0)
    ensures HintsHonest(Map(len, entries))
  {
    ScalarValuesHonest(entries);
  }

  /** One pretty entry with a scalar value in front of the rest. */
  lemma PrettyEntryStep(entries: seq<Entry>, state: State, n: nat, has: bool, unit: Bytes, key: Bytes, rest: Bytes)
    requires |entries| > 0 && ScalarValues(entries)
    requires MapKey(entries[0].key) == Success(key)
    requires Entries(entries[1..], Rest, Pretty(n, true, unit)) == Success((Rest, Pretty(n, true, unit), rest))
    ensures Entries(entries, state, Pretty(n, has, unit)) ==
              Success((Rest, Pretty(n, true, unit),
                       (if state == First then [NEWLINE] else [COMMA, NEWLINE]) + Indent(n, unit)
                       + (key + [COLON, SPACE] + ScalarText(entries[0].value)) + rest))
  {
    PrettyEntryUnfold(entries, state, n, has, unit, key, rest);
    Regroup(Separator(Pretty(n, has, unit), state == First), key, [COLON, SPACE], ScalarText(entries[0].value), rest);
  }

  lemma {:induction false} PrettyScalarEntries(entries: seq<Entry>, keys: seq<Bytes>, state: State, n: nat, has: bool, unit: Bytes)
    requires ScalarEntries(entries, keys) && state != Empty
    ensures Entries(entries, state, Pretty(n, has, unit)) ==
              Success((if |entries| == 0 then state else Rest,
                       Pretty(n, has || |entries| > 0, unit),
                       PrettyLines(PrettyPairs(keys, ValueTexts(entries)), n, unit, state == First)))
  {
    if |entries| > 0 {
      ScalarEntriesTail(entries, keys);
      PrettyScalarEntries(entries[1..], keys[1..], Rest, n, true, unit);
      var pairs := PrettyPairs(keys, ValueTexts(entries));
      assert ValueTexts(entries)[1..] == ValueTexts(entries[1..]);
      assert pairs[0] == keys[0] + [COLON, SPACE] + ScalarText(entries[0].value);
      assert pairs[1..] == PrettyPairs(keys[1..], ValueTexts(entries[1..]));
      PrettyEntryStep(entries, state, n, has, unit, keys[0], PrettyLines(pairs[1..], n, unit, false));
    }
  }

  /**
   * A pretty object with scalar values at depth `n`: `{`, each `key: value`
   * on its own line one level deeper, then a new line at depth `n` and `}`.
   */
  lemma PrettyScalarMap(len: Option<nat>, entries: seq<Entry>, keys: seq<Bytes>, n: nat, has: bool, unit: Bytes)
    requires ScalarEntries(entries, keys) && len != Some(0) && |entries| > 0
    ensures Serialize(Map(len, entries), Pretty(n, has, unit)) ==
              Success((Pretty(n, true, unit),
                       [OPEN_BRACE] + PrettyLines(PrettyPairs(keys, ValueTexts(entries)), n + 1, unit, true)
                       + [NEWLINE] + Indent(n, unit) + [CLOSE_BRACE]))
  {
    var lines := PrettyLines(PrettyPairs(keys, ValueTexts(entries)), n + 1, unit, true);
    var inner := Pretty(n + 1, false, unit);
    ScalarMapHonest(len, entries);
    PrettyScalarEntries(entries, keys, First, n + 1, false, unit);
    assert Open(Pretty(n, has, unit), OPEN_BRACE).0 == inner;
    assert Entries(entries, First, inner) == Success((Rest, Pretty(n + 1, true, unit), lines));
    MapOfEntries(len, entries, Pretty(n, has, unit), Rest, Pretty(n + 1, true, unit), lines);
    CloseAfterValue(n, unit, CLOSE_BRACE, OPEN_BRACE, lines);
  }

  /**
   * A length hint of 0 writes `[]` or `{}` at once and `end` adds nothing;
   * without a hint, an empty sequence or map is closed by `end`. The
   * result is the same in both cases and for both formatters.
   */
  lemma EmptyCompounds(f: Formatter, len: Option<nat>)
    requires len == Some(0) || len == None
    ensures Serialize(Seq(len, []), f).Success? && Serialize(Seq(len, []), f).value.1 == [OPEN_BRACKET, CLOSE_BRACKET]
    ensures Serialize(Map(len, []), f).Success? && Serialize(Map(len, []), f).value.1 == [OPEN_BRACE, CLOSE_BRACE]
    ensures Serialize(Struct([]), f).Success? && Serialize(Struct([]), f).value.1 == [OPEN_BRACE, CLOSE_BRACE]
  {
    EmptySeq(f, len);
    EmptyMap(f, len);
    EmptyStruct(f);
  }

  lemma EmptySeq(f: Formatter, len: Option<nat>)
    requires len == Some(0) || len == None
    ensures Serialize(Seq(len, []), f).Success? && Serialize(Seq(len, []), f).value.1 == [OPEN_BRACKET, CLOSE_BRACKET]
  {
    assert HintsHonest(Seq(len, []));
    assert Serialize(Seq(len, []), f) == SerializeSeq(len, [], f);
  }

  lemma EmptyMap(f: Formatter, len: Option<nat>)
    requires len == Some(0) || len == None
    ensures Serialize(Map(len, []), f).Success? && Serialize(Map(len, []), f).value.1 == [OPEN_BRACE, CLOSE_BRACE]
  {
    assert HintsHonest(Map(len, []));
    assert Serialize(Map(len, []), f) == SerializeMap(len, [], f);
  }

  lemma EmptyStruct(f: Formatter)
    ensures Serialize(Struct([]), f).Success? && Serialize(Struct([]), f).value.1 == [OPEN_BRACE, CLOSE_BRACE]
  {
    assert HintsHonest(Struct([]));
    assert Serialize(Struct([]), f) == SerializeStruct([], f);
  }

  /** NaN and the infinities are written as `null`. */
  lemma NonFiniteIsNull(f: Formatter, x: FloatClass)
    requires !x.Finite?
    ensures Serialize(Float(x), f) == Success((f, [0x6E, 0x75, 0x6C, 0x6C]))
  {
  }

  /** The keys `MapKeySerializer` turns away, each with `KeyMustBeAString` at line 0, column 0. */
  lemma RejectedKeys(b: bool, x: FloatClass, bytes: Bytes, inner: Data, v: Bytes, len: Option<nat>)
    ensures var e := Failure(Error(KeyMustBeAString, 0, 0));
            && MapKey(Bool(b)) == e && MapKey(Float(x)) == e && MapKey(Unit) == e
            && MapKey(NoneValue) == e && MapKey(SomeValue(inner)) == e && MapKey(ByteString(bytes)) == e
            && MapKey(Seq(len, [])) == e && MapKey(Map(len, [])) == e && MapKey(NewtypeVariant(v, inner)) == e
  {
  }

  /** An integer key is written as its decimal text inside quotes. */
  lemma IntegerKey(i: int)
    ensures MapKey(Int(i)) == Success([QUOTE] + IntText(i) + [QUOTE])
  {
  }

  /** Text with nothing to escape is written as is. */
  lemma {:induction false} PlainText(s: Bytes)
    requires forall k :: 0 <= k < |s| ==> EscapeTable(s[k]) == 0
    ensures EscapeBytes(s) == s
  {
    if |s| > 0 {
      TableAgreesWithForm(s[0]);
      PlainText(s[1..]);
    }
  }

  /** Quotes around text that needs no escaping. */
  function Quoted(s: Bytes): Bytes {
    [QUOTE] + s + [QUOTE]
  }

  /** A string that needs no escaping is written in quotes, as a key or as a value. */
  lemma QuotedPlain(s: Bytes, f: Formatter)
    requires EscapeBytes(s) == s
    ensures MapKey(Str(s)) == Success(Quoted(s))
    ensures Serialize(Str(s), f) == Success((f, Quoted(s)))
  {
  }

  /** An object with two string entries, as `Value`'s serializer presents it. */
  function TwoEntries(k1: Bytes, v1: Bytes, k2: Bytes, v2: Bytes): Data {
    Map(Some(2), [Entry(Str(k1), Str(v1)), Entry(Str(k2), Str(v2))])
  }

  lemma TwoScalarEntries(k1: Bytes, v1: Bytes, k2: Bytes, v2: Bytes)
    requires EscapeBytes(k1) == k1 && EscapeBytes(k2) == k2
    ensures ScalarEntries(TwoEntries(k1, v1, k2, v2).entries, [Quoted(k1), Quoted(k2)])
  {
    var e := TwoEntries(k1, v1, k2, v2).entries;
    var keys := [Quoted(k1), Quoted(k2)];
    QuotedPlain(k1, Compact);
    QuotedPlain(k2, Compact);
    forall i | 0 <= i < 2
      ensures MapKey(e[i].key) == Success(keys[i]) && IsScalarData(e[i].value)
    {
      if i == 1 {
      }
    }
  }

  lemma TwoValueTexts(k1: Bytes, v1: Bytes, k2: Bytes, v2: Bytes)
    requires EscapeBytes(v1) == v1 && EscapeBytes(v2) == v2
    ensures ScalarValues(TwoEntries(k1, v1, k2, v2).entries)
    ensures ValueTexts(TwoEntries(k1, v1, k2, v2).entries) == [Quoted(v1), Quoted(v2)]
  {
    var e := TwoEntries(k1, v1, k2, v2).entries;
    assert e[1..] == [e[1]];
  }

  lemma TwoCompactOuts(e: seq<Entry>, keys: seq<Bytes>, values: seq<Bytes>)
    requires |e| == 2 && |keys| == 2 && |values| == 2
    requires MapKey(e[0].key) == Success(keys[0]) && MapKey(e[1].key) == Success(keys[1])
    requires Serialize(e[0].value, Compact) == Success((Compact, values[0]))
    requires Serialize(e[1].value, Compact) == Success((Compact, values[1]))
    ensures CompactEntryOuts(e, keys, values)
  {
    forall i | 0 <= i < 2
      ensures MapKey(e[i].key) == Success(keys[i])
      ensures Serialize(e[i].value, Compact) == Success((Compact, values[i]))
    {
      if i == 1 {
      }
    }
  }

  lemma TwoPlainOuts(k1: Bytes, v1: Bytes, k2: Bytes, v2: Bytes)
    requires EscapeBytes(k1) == k1 && EscapeBytes(v1) == v1 && EscapeBytes(k2) == k2 && EscapeBytes(v2) == v2
    ensures CompactEntryOuts(TwoEntries(k1, v1, k2, v2).entries, [Quoted(k1), Quoted(k2)], [Quoted(v1), Quoted(v2)])
  {
    QuotedPlain(k1, Compact);
    QuotedPlain(v1, Compact);
    QuotedPlain(k2, Compact);
    QuotedPlain(v2, Compact);
    TwoCompactOuts(TwoEntries(k1, v1, k2, v2).entries, [Quoted(k1), Quoted(k2)], [Quoted(v1), Quoted(v2)]);
  }

  lemma JoinTwo(k1: Bytes, v1: Bytes, k2: Bytes, v2: Bytes)
    ensures Join(CompactPairs([k1, k2], [v1, v2])) == k1 + [COLON] + v1 + [COMMA] + k2 + [COLON] + v2
  {
    var p := CompactPairs([k1, k2], [v1, v2]);
    CompactPairsFirst([k1, k2], [v1, v2]);
    assert [k1, k2][1..] == [k2] && [v1, v2][1..] == [v2];
    CompactPairsFirst([k2], [v2]);
    JoinFirst(p);
    JoinFirst(p[1..]);
  }

  /** Two entries whose text needs no escaping, compact: `{"k1":"v1","k2":"v2"}`. */
  lemma CompactTwo(k1: Bytes, v1: Bytes, k2: Bytes, v2: Bytes)
    requires EscapeBytes(k1) == k1 && EscapeBytes(v1) == v1 && EscapeBytes(k2) == k2 && EscapeBytes(v2) == v2
    ensures ToVec(TwoEntries(k1, v1, k2, v2)) ==
              Success([OPEN_BRACE] + Quoted(k1) + [COLON] + Quoted(v1) + [COMMA] + Quoted(k2) + [COLON] + Quoted(v2) + [CLOSE_BRACE])
  {
    var m := TwoEntries(k1, v1, k2, v2);
    var q1, r1, q2, r2 := Quoted(k1), Quoted(v1), Quoted(k2), Quoted(v2);
    TwoPlainOuts(k1, v1, k2, v2);
    CompactMap(Some(2), m.entries, [q1, q2], [r1, r2]);
    JoinTwo(q1, r1, q2, r2);
    CompactTwoLayout(q1, r1, q2, r2);
    ToVecOf(m, Compact, [OPEN_BRACE] + q1 + [COLON] + r1 + [COMMA] + q2 + [COLON] + r2 + [CLOSE_BRACE]);
  }

  lemma CompactTwoLayout(k1: Bytes, v1: Bytes, k2: Bytes, v2: Bytes)
    ensures [OPEN_BRACE] + (k1 + [COLON] + v1 + [COMMA] + k2 + [COLON] + v2) + [CLOSE_BRACE]
         == [OPEN_BRACE] + k1 + [COLON] + v1 + [COMMA] + k2 + [COLON] + v2 + [CLOSE_BRACE]
  {
  }

  lemma ToVecOf(d: Data, f: Formatter, w: Bytes)
    requires Serialize(d, Compact) == Success((f, w))
    ensures ToVec(d) == Success(w)
  {
  }

  lemma ToVecPrettyOf(d: Data, f: Formatter, w: Bytes)
    requires HintsHonest(d) && Serialize(d, PrettyNew()) == Success((f, w))
    ensures ToVecPretty(d) == Success(w)
  {
  }

  lemma PrettyLinesTwo(k1: Bytes, v1: Bytes, k2: Bytes, v2: Bytes, unit: Bytes)
    ensures PrettyLines(PrettyPairs([k1, k2], [v1, v2]), 1, unit, true) ==
            [NEWLINE] + unit + k1 + [COLON, SPACE] + v1 + [COMMA, NEWLINE] + unit + k2 + [COLON, SPACE] + v2
  {
    var p1 := k1 + [COLON, SPACE] + v1;
    var p2 := k2 + [COLON, SPACE] + v2;
    PairsTwo(k1, v1, k2, v2);
    LinesTwo(p1, p2, unit);
  }

  lemma PairsTwo(k1: Bytes, v1: Bytes, k2: Bytes, v2: Bytes)
    ensures PrettyPairs([k1, k2], [v1, v2]) == [k1 + [COLON, SPACE] + v1, k2 + [COLON, SPACE] + v2]
  {
    assert [k1, k2][1..] == [k2] && [v1, v2][1..] == [v2];
    assert PrettyPairs([k2], [v2]) == [k2 + [COLON, SPACE] + v2];
  }

  lemma LinesTwo(a: Bytes, b: Bytes, unit: Bytes)
    ensures PrettyLines([a, b], 1, unit, true) == [NEWLINE] + unit + a + [COMMA, NEWLINE] + unit + b
  {
    assert Indent(1, unit) == unit;
    assert [a, b][1..] == [b];
    assert [b][1..] == [];
    assert PrettyLines([b], 1, unit, false) == [COMMA, NEWLINE] + unit + b;
  }

  lemma PrettyTwoLayout(k1: Bytes, v1: Bytes, k2: Bytes, v2: Bytes)
    ensures [OPEN_BRACE] + ([NEWLINE] + [SPACE, SPACE] + k1 + [COLON, SPACE] + v1 + [COMMA, NEWLINE] + [SPACE, SPACE] + k2 + [COLON, SPACE] + v2)
            + [NEWLINE] + Indent(0, [SPACE, SPACE]) + [CLOSE_BRACE]
         == [OPEN_BRACE, NEWLINE, SPACE, SPACE] + k1 + [COLON, SPACE] + v1 + [COMMA]
            + [NEWLINE, SPACE, SPACE] + k2 + [COLON, SPACE] + v2 + [NEWLINE, CLOSE_BRACE]
  {
    assert Indent(0, [SPACE, SPACE]) == [];
  }

  /** The same two entries with the pretty formatter: one entry per line, two spaces in. */
  lemma PrettyTwo(k1: Bytes, v1: Bytes, k2: Bytes, v2: Bytes)
    requires EscapeBytes(k1) == k1 && EscapeBytes(v1) == v1 && EscapeBytes(k2) == k2 && EscapeBytes(v2) == v2
    ensures HintsHonest(TwoEntries(k1, v1, k2, v2))
    ensures ToVecPretty(TwoEntries(k1, v1, k2, v2)) ==
              Success([OPEN_BRACE, NEWLINE, SPACE, SPACE] + Quoted(k1) + [COLON, SPACE] + Quoted(v1) + [COMMA]
                      + [NEWLINE, SPACE, SPACE] + Quoted(k2) + [COLON, SPACE] + Quoted(v2) + [NEWLINE, CLOSE_BRACE])
  {
    var m := TwoEntries(k1, v1, k2, v2);
    var q1, r1, q2, r2 := Quoted(k1), Quoted(v1), Quoted(k2), Quoted(v2);
    TwoScalarEntries(k1, v1, k2, v2);
    TwoValueTexts(k1, v1, k2, v2);
    ScalarMapHonest(Some(2), m.entries);
    var u: Bytes := [SPACE, SPACE];
    assert PrettyNew() == Pretty(0, false, u);
    PrettyScalarMap(Some(2), m.entries, [q1, q2], 0, false, u);
    var lines := PrettyLines(PrettyPairs([q1, q2], ValueTexts(m.entries)), 1, u, true);
    PrettyLinesTwo(q1, r1, q2, r2, u);
    assert lines == [NEWLINE] + u + q1 + [COLON, SPACE] + r1 + [COMMA, NEWLINE] + u + q2 + [COLON, SPACE] + r2;
    assert Serialize(m, PrettyNew()) == Success((Pretty(0, true, u), [OPEN_BRACE] + lines + [NEWLINE] + Indent(0, u) + [CLOSE_BRACE]));
    PrettyTwoLayout(q1, r1, q2, r2);
    ToVecPrettyOf(m, Pretty(0, true, [SPACE, SPACE]),
                  [OPEN_BRACE, NEWLINE, SPACE, SPACE] + q1 + [COLON, SPACE] + r1 + [COMMA]
                  + [NEWLINE, SPACE, SPACE] + q2 + [COLON, SPACE] + r2 + [NEWLINE, CLOSE_BRACE]);
  }

  function City(): Bytes { Ascii("city") }
  function London(): Bytes { Ascii("London") }
  function Street(): Bytes { Ascii("street") }
  function Downing(): Bytes { Ascii("10 Downing Street") }

  lemma DocStringsPlain()
    ensures EscapeBytes(City()) == City() && EscapeBytes(London()) == London()
    ensures EscapeBytes(Street()) == Street() && EscapeBytes(Downing()) == Downing()
  {
    PlainText(City());
    PlainText(London());
    PlainText(Street());
    PlainText(Downing());
  }

  /** A struct's fields as the map entries `serialize_field` hands to `serialize_entry`: the name as a string key. */
  function StrEntries(fields: seq<Field>): (es: seq<Entry>)
    ensures |es| == |fields|
    ensures forall i :: 0 <= i < |fields| ==> es[i].key == Str(fields[i].name) && es[i].value == fields[i].value
  {
    seq(|fields|, i requires 0 <= i < |fields| => Entry(Str(fields[i].name), fields[i].value))
  }

  /** Writing the fields of a struct is writing them as map entries with string keys. */
  lemma {:induction false} FieldsAreEntries(fields: seq<Field>, state: State, f: Formatter)
    requires f.Pretty? ==> forall i :: 0 <= i < |fields| ==> HintsHonest(fields[i].value)
    ensures Fields(fields, state, f) == Entries(StrEntries(fields), state, f)
    decreases |fields|
  {
    hide Serialize, Separator, KeyValueSeparator, FormatEscapedStr;
    if |fields| > 0 {
      var es := StrEntries(fields);
      assert es[0] == Entry(Str(fields[0].name), fields[0].value);
      assert es[1..] == StrEntries(fields[1..]);
      var r1 := Serialize(fields[0].value, f);
      if r1.Success? {
        FieldsAreEntries(fields[1..], Rest, ValueDone(r1.value.0));
      }
    }
  }

  /** `serialize_struct` is `serialize_map` with the number of fields as the length hint. */
  lemma StructIsMap(fields: seq<Field>, f: Formatter)
    requires f.Pretty? ==> HintsHonest(Struct(fields))
    ensures f.Pretty? ==> HintsHonest(Map(Some(|fields|), StrEntries(fields)))
    ensures Serialize(Struct(fields), f) == Serialize(Map(Some(|fields|), StrEntries(fields)), f)
  {
    hide Fields, Entries, Elements, FormatEscapedStr, Separator, KeyValueSeparator, MapKey;
    var es := StrEntries(fields);
    assert f.Pretty? ==> HintsHonest(Map(Some(|fields|), es));
    var (s1, f1, w1) := Begin(Some(|fields|), f, OPEN_BRACE, CLOSE_BRACE);
    FieldsAreEntries(fields, s1, f1);
    assert Serialize(Struct(fields), f) == SerializeStruct(fields, f);
    assert Serialize(Map(Some(|fields|), es), f) == SerializeMap(Some(|fields|), es, f);
  }

  /** A compact struct: `{`, each `"name":value`, joined by commas, `}`. */
  lemma CompactStruct(fields: seq<Field>, keys: seq<Bytes>, values: seq<Bytes>)
    requires |fields| > 0 && CompactEntryOuts(StrEntries(fields), keys, values)
    ensures Serialize(Struct(fields), Compact) ==
              Success((Compact, [OPEN_BRACE] + Join(CompactPairs(keys, values)) + [CLOSE_BRACE]))
  {
    StructIsMap(fields, Compact);
    CompactMap(Some(|fields|), StrEntries(fields), keys, values);
  }

  /** The object of the `Display` documentation of `Value`. */
  function DocObject(): Data {
    TwoEntries(City(), London(), Street(), Downing())
  }

  /** `{"city":"London","street":"10 Downing Street"}`. */
  lemma CompactDocExample()
    ensures ToVec(DocObject()) ==
              Success([OPEN_BRACE] + Quoted(City()) + [COLON] + Quoted(London()) + [COMMA]
                      + Quoted(Street()) + [COLON] + Quoted(Downing()) + [CLOSE_BRACE])
  {
    DocStringsPlain();
    CompactTwo(City(), London(), Street(), Downing());
  }

  /**
   * The same object pretty-printed with two-space indent:
   * `{`, then `  "city": "London",` and `  "street": "10 Downing Street"`
   * on lines of their own, then `}` on the last line.
   */
  lemma PrettyDocExample()
    ensures HintsHonest(DocObject())
    ensures ToVecPretty(DocObject()) ==
              Success([OPEN_BRACE, NEWLINE, SPACE, SPACE] + Quoted(City()) + [COLON, SPACE] + Quoted(London()) + [COMMA]
                      + [NEWLINE, SPACE, SPACE] + Quoted(Street()) + [COLON, SPACE] + Quoted(Downing()) + [NEWLINE, CLOSE_BRACE])
  {
    DocStringsPlain();
    PrettyTwo(City(), London(), Street(), Downing());
  }
}

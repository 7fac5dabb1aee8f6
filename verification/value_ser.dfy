/**
 * How a `Value` reaches the serializer, and `Display` on top of it: an
 * object is one `serialize_map` call with its length as the hint and its
 * entries in iteration order, an array one `serialize_seq` call with its
 * length; `{}` writes compactly and `{:#}` with the two-space pretty
 * formatter.
 */
module ValueSer {
  import opened Common
  import opened Errors
  import JsonMap
  import Values
  import opened Ser
  import opened SerFacts

  /** The data-model calls serializing `v` makes. */
  function ToData(v: Values.Value): (d: Data)
    ensures HintsHonest(d)
    ensures v.Array? ==> d.Seq? && d.len == Some(|v.elems|) && |d.elems| == |v.elems|
    ensures v.Object? ==> d.Map? && d.len == Some(JsonMap.Len(v.fields)) && |d.entries| == JsonMap.Len(v.fields)
    decreases v
  {
    match v
    case Null => Unit
    case Bool(b) => Data.Bool(b)
    case Number(Integer(i)) => Int(i)
    case Number(Finite(text)) => Float(FloatClass.Finite(text))
    case String(s) => Str(s)
    case Array(a) => Seq(Some(|a|), seq(|a|, i requires 0 <= i < |a| => ToData(a[i])))
    case Object(m) =>
      Map(Some(JsonMap.Len(m)),
          seq(|m.items|, i requires 0 <= i < |m.items| => Entry(Str(m.items[i].key), ToData(m.items[i].value))))
  }

  /**
   * An object is written with the number of distinct keys as its length
   * hint and its entries in strictly ascending key order, each key once
   * with its value.
   */
  lemma ObjectSerializationOrder(m: JsonMap.Map<Values.Value>)
    requires JsonMap.Valid(m)
    ensures var d := ToData(Values.Object(m));
            && d.Map? && d.len == Some(|JsonMap.View(m).Keys|)
            && (forall i :: 0 <= i < |d.entries| ==>
                  d.entries[i].key.Str? && d.entries[i].key.s in JsonMap.View(m)
                  && d.entries[i].value == ToData(JsonMap.View(m)[d.entries[i].key.s]))
            && (forall i, j :: 0 <= i < j < |d.entries| ==>
                  JsonMap.Less(d.entries[i].key.s, d.entries[j].key.s))
            && (forall k :: k in JsonMap.View(m) ==> exists i :: 0 <= i < |d.entries| && d.entries[i].key == Str(k))
  {
    var d := ToData(Values.Object(m));
    var items := JsonMap.Iter(m);
    JsonMap.LenCountsKeys(m);
    forall k | k in JsonMap.View(m)
      ensures exists i :: 0 <= i < |items| && items[i].key == k
    {
      JsonMap.IterCovers(m, k);
    }
    EntriesInOrder(d.entries, items, JsonMap.View(m));
  }

  /** Entries made one for one from key-ordered items inherit their order and their values. */
  lemma EntriesInOrder(entries: seq<Entry>, items: seq<JsonMap.Item<Values.Value>>, view: map<Bytes, Values.Value>)
    requires |entries| == |items|
    requires forall i :: 0 <= i < |items| ==> entries[i] == Entry(Str(items[i].key), ToData(items[i].value))
    requires forall i, j :: 0 <= i < j < |items| ==> JsonMap.Less(items[i].key, items[j].key)
    requires forall i :: 0 <= i < |items| ==> items[i].key in view && view[items[i].key] == items[i].value
    requires forall k :: k in view ==> exists i :: 0 <= i < |items| && items[i].key == k
    ensures forall i :: 0 <= i < |entries| ==>
              entries[i].key.Str? && entries[i].key.s in view && entries[i].value == ToData(view[entries[i].key.s])
    ensures forall i, j :: 0 <= i < j < |entries| ==> JsonMap.Less(entries[i].key.s, entries[j].key.s)
    ensures forall k :: k in view ==> exists i :: 0 <= i < |entries| && entries[i].key == Str(k)
  {
    forall k | k in view
      ensures exists i :: 0 <= i < |entries| && entries[i].key == Str(k)
    {
      var i :| 0 <= i < |items| && items[i].key == k;
      assert entries[i].key == Str(k);
    }
  }

  /** Every map key a value hands the serializer is a string: objects are keyed by strings. */
  lemma {:induction false} ToDataKeys(v: Values.Value)
    ensures KeysAllowed(ToData(v))
    decreases v
  {
    match v
    case Array(a) =>
      forall i | 0 <= i < |a| ensures KeysAllowed(ToData(v).elems[i]) {
        ToDataKeys(a[i]);
      }
    case Object(m) =>
      forall i | 0 <= i < |m.items| ensures KeysAllowed(ToData(v).entries[i].value) {
        assert m.items[i] in m.items;
        ToDataKeys(m.items[i].value);
      }
    case _ =>
  }

  /**
   * `impl Display for Value`: `{}` is compact, `{:#}` pretty with a
   * two-space indent. Serializing a value never fails, so the
   * `fmt::Error` branch, and the panic of `to_string` behind it, cannot
   * be reached.
   */
  function Display(v: Values.Value, alternate: bool): (r: Result<Bytes, Error>)
    ensures r.Success?
  {
    ToDataKeys(v);
    if alternate then ToVecPretty(ToData(v)) else ToVec(ToData(v))
  }

  /** `json!({"city": "London", "street": "10 Downing Street"})`: two insertions into a new map. */
  function DocValue(): Values.Value {
    var m1 := JsonMap.Insert(JsonMap.New(), City(), Values.String(London())).0;
    Values.Object(JsonMap.Insert(m1, Street(), Values.String(Downing())).0)
  }

  lemma CityBeforeStreet()
    ensures JsonMap.Less(City(), Street()) && !JsonMap.Less(Street(), City()) && City() != Street()
  {
    assert City()[0] == 0x63 && Street()[0] == 0x73;
  }

  /** Whatever the insertion order, `city` is stored before `street`. */
  lemma DocValueData()
    ensures ToData(DocValue()) == DocObject()
  {
    CityBeforeStreet();
    var m0: JsonMap.Map<Values.Value> := JsonMap.New();
    var first := JsonMap.Item(City(), Values.String(London()));
    var second := JsonMap.Item(Street(), Values.String(Downing()));
    assert JsonMap.InsertItems(m0.items, City(), Values.String(London())) == [first];
    assert [first][1..] == [];
    assert JsonMap.InsertItems([first], Street(), Values.String(Downing())) == [first] + [second];
    var d := ToData(DocValue());
    assert d.entries[0] == Entry(Str(City()), Str(London()));
    assert d.entries[1] == Entry(Str(Street()), Str(Downing()));
    assert d.entries == [Entry(Str(City()), Str(London())), Entry(Str(Street()), Str(Downing()))];
  }

  /**
   * `format!("{}", json)` is `{"city":"London","street":"10 Downing Street"}` and
   * `format!("{:#}", json)` puts each entry on its own line, two spaces in.
   */
  lemma DisplayDocExample()
    ensures Display(DocValue(), false) ==
              Success([OPEN_BRACE] + Quoted(City()) + [COLON] + Quoted(London()) + [COMMA]
                      + Quoted(Street()) + [COLON] + Quoted(Downing()) + [CLOSE_BRACE])
    ensures Display(DocValue(), true) ==
              Success([OPEN_BRACE, NEWLINE, SPACE, SPACE] + Quoted(City()) + [COLON, SPACE] + Quoted(London()) + [COMMA]
                      + [NEWLINE, SPACE, SPACE] + Quoted(Street()) + [COLON, SPACE] + Quoted(Downing()) + [NEWLINE, CLOSE_BRACE])
  {
    DocValueData();
    CompactDocExample();
    PrettyDocExample();
  }
}

/**
 * `serde_json::Value`: the JSON tree, its kind accessors, and JSON Pointer
 * (RFC 6901) lookup and update. Objects are `JsonMap.Map<Value>`; a
 * number is kept as the integer or the finite float text it prints as,
 * since the `Number` type itself is not part of this model.
 */
module Values {
  import opened Common
  import JsonMap

  /** What a `Number` holds, as far as this model needs: an integer, or the text of a finite float. */
  datatype JsonNumber = Integer(i: int) | Finite(text: Bytes)

  datatype Value =
    | Null
    | Bool(b: bool)
    | Number(n: JsonNumber)
    | String(s: Bytes)
    | Array(elems: seq<Value>)
    | Object(fields: JsonMap.Map<Value>)

  /** Every object in the tree keeps the map invariant (sorted, one entry per key). */
  predicate WellFormed(v: Value)
    decreases v
  {
    match v
    case Array(a) => forall i :: 0 <= i < |a| ==> WellFormed(a[i])
    case Object(m) =>
      JsonMap.Valid(m) && forall i :: 0 <= i < |m.items| ==> WellFormed(m.items[i].value)
    case _ => true
  }

  /** The same condition on an object, read off its view. */
  predicate ValuesWellFormed(m: JsonMap.Map<Value>) {
    forall k :: k in JsonMap.View(m) ==> WellFormed(JsonMap.View(m)[k])
  }

  lemma ObjectWellFormed(m: JsonMap.Map<Value>)
    requires JsonMap.Valid(m)
    ensures WellFormed(Object(m)) <==> ValuesWellFormed(m)
  {
    if WellFormed(Object(m)) {
      forall k | k in JsonMap.View(m) ensures WellFormed(JsonMap.View(m)[k]) {
        JsonMap.ContentsKeys(m.items, k);
        var i :| 0 <= i < |m.items| && m.items[i].key == k;
        JsonMap.ContentsAt(m.items, i);
      }
    }
    if ValuesWellFormed(m) {
      forall i | 0 <= i < |m.items| ensures WellFormed(m.items[i].value) {
        JsonMap.ContentsAt(m.items, i);
        var k := m.items[i].key;
        assert WellFormed(JsonMap.View(m)[k]);
      }
    }
  }

  // ----- kind accessors -----

  function AsObject(v: Value): (r: Option<JsonMap.Map<Value>>)
    ensures r.Some? <==> v.Object?
    ensures r.Some? ==> v == Object(r.value)
  {
    match v
    case Object(m) => Some(m)
    case _ => None
  }

  function IsObject(v: Value): (b: bool)
    ensures b <==> AsObject(v).Some?
  {
    AsObject(v).Some?
  }

  function AsArray(v: Value): (r: Option<seq<Value>>)
    ensures r.Some? <==> v.Array?
    ensures r.Some? ==> v == Array(r.value)
  {
    match v
    case Array(a) => Some(a)
    case _ => None
  }

  function IsArray(v: Value): (b: bool)
    ensures b <==> AsArray(v).Some?
  {
    AsArray(v).Some?
  }

  function AsStr(v: Value): (r: Option<Bytes>)
    ensures r.Some? <==> v.String?
    ensures r.Some? ==> v == String(r.value)
  {
    match v
    case String(s) => Some(s)
    case _ => None
  }

  function IsString(v: Value): (b: bool)
    ensures b <==> AsStr(v).Some?
  {
    AsStr(v).Some?
  }

  function IsNumber(v: Value): (b: bool)
    ensures b <==> v.Number?
  {
    match v
    case Number(_) => true
    case _ => false
  }

  function AsBool(v: Value): (r: Option<bool>)
    ensures r.Some? <==> v.Bool?
    ensures r.Some? ==> v == Bool(r.value)
  {
    match v
    case Bool(b) => Some(b)
    case _ => None
  }

  function IsBoolean(v: Value): (b: bool)
    ensures b <==> AsBool(v).Some?
  {
    AsBool(v).Some?
  }

  function AsNull(v: Value): (r: Option<()>)
    ensures r.Some? <==> v == Null
  {
    match v
    case Null => Some(())
    case _ => None
  }

  function IsNull(v: Value): (b: bool)
    ensures b <==> AsNull(v).Some?
  {
    AsNull(v).Some?
  }

  /** Every value answers exactly one `is_*` question. */
  lemma ExactlyOneKind(v: Value)
    ensures (if IsNull(v) then 1 else 0) + (if IsBoolean(v) then 1 else 0) + (if IsNumber(v) then 1 else 0)
            + (if IsString(v) then 1 else 0) + (if IsArray(v) then 1 else 0) + (if IsObject(v) then 1 else 0) == 1
  {
  }

  /** `Value::default()`. */
  function Default(): (v: Value)
    ensures IsNull(v) && WellFormed(v)
  {
    Null
  }

  /** `take`: the value that was there, and the `Null` left in its place. */
  function Take(v: Value): (r: (Value, Value))
    ensures r.0 == v && IsNull(r.1)
  {
    (v, Default())
  }

  // ----- array indices -----

  /** The indices `parse_index` accepts: `0`, or decimal digits without a leading zero, within `usize`. */
  predicate CanonicalIndex(s: Bytes) {
    |s| > 0 && AllDigits(s) && (s[0] != ZERO || |s| == 1) && DigitsValue(s) <= USIZE_MAX
  }

  /** `parse_index`: no `+` sign and no leading zero, then `usize::from_str`. */
  function ParseIndex(s: Bytes): (r: Option<nat>)
    ensures r.Some? <==> CanonicalIndex(s)
    ensures r.Some? ==> AllDigits(s) && r.value == DigitsValue(s) && r.value <= USIZE_MAX
  {
    if |s| > 0 && (s[0] == PLUS || (s[0] == ZERO && |s| != 1)) then None
    else ParseUsize(s)
  }

  lemma {:induction false} LeadingDigitBound(s: Bytes)
    requires |s| > 0 && AllDigits(s)
    ensures DigitsValue(s) >= s[0] - ZERO
    decreases |s|
  {
    if |s| > 1 {
      LeadingDigitBound(s[..|s| - 1]);
    }
  }

  /** Canonical digits are the minimal decimal text of their value. */
  lemma {:induction false} CanonicalIsDecimal(s: Bytes)
    requires |s| > 0 && AllDigits(s) && (s[0] != ZERO || |s| == 1)
    ensures Decimal(DigitsValue(s)) == s
    decreases |s|
  {
    if |s| > 1 {
      var init := s[..|s| - 1];
      LeadingDigitBound(init);
      CanonicalIsDecimal(init);
      var n := DigitsValue(s);
      assert n / 10 == DigitsValue(init) && n % 10 == s[|s| - 1] - ZERO;
      assert s == init + [s[|s| - 1]];
    }
  }

  /** `parse_index` reads back exactly the indices the decimal writer prints, and nothing else. */
  lemma ParseIndexDecimal(n: nat)
    requires n <= USIZE_MAX
    ensures ParseIndex(Decimal(n)) == Some(n)
  {
    DecimalRoundTrip(n);
  }

  lemma ParseIndexCanonical(s: Bytes)
    requires ParseIndex(s).Some?
    ensures s == Decimal(ParseIndex(s).value)
  {
    CanonicalIsDecimal(s);
  }

  // ----- reference tokens -----

  /** `str::split('/')`: the pieces between slashes, empty ones included; never an empty list. */
  function Split(s: Bytes): (r: seq<Bytes>)
    ensures |r| >= 1
    decreases |s|
  {
    if |s| == 0 then [[]]
    else
      var rest := Split(s[1..]);
      if s[0] == SLASH then [[]] + rest
      else [[s[0]] + rest[0]] + rest[1..]
  }

  /** Pieces joined back with `/`. */
  function JoinSlash(parts: seq<Bytes>): Bytes
    requires |parts| >= 1
    decreases |parts|
  {
    if |parts| == 1 then parts[0] else parts[0] + [SLASH] + JoinSlash(parts[1..])
  }

  /** Splitting loses nothing, and no piece holds a slash. */
  lemma {:induction false} SplitJoin(s: Bytes)
    ensures JoinSlash(Split(s)) == s
    ensures forall i :: 0 <= i < |Split(s)| ==> SLASH !in Split(s)[i]
    decreases |s|
  {
    if |s| > 0 {
      var rest := Split(s[1..]);
      SplitJoin(s[1..]);
      if s[0] == SLASH {
        assert Split(s)[1..] == rest;
      } else {
        var r := Split(s);
        assert r[0] == [s[0]] + rest[0];
        if |rest| > 1 {
          assert r[1..] == rest[1..];
          assert JoinSlash(rest) == rest[0] + [SLASH] + JoinSlash(rest[1..]);
        }
        forall i | 0 <= i < |r| ensures SLASH !in r[i] {
          if i > 0 {
            assert r[i] == rest[i];
          }
        }
      }
    }
  }

  /**
   * `str::replace` for a two-byte pattern: occurrences found left to
   * right, without overlap, each replaced by `with`.
   */
  function ReplacePair(s: Bytes, a: byte, b: byte, with: Bytes): Bytes
    decreases |s|
  {
    if |s| < 2 then s
    else if s[0] == a && s[1] == b then with + ReplacePair(s[2..], a, b, with)
    else [s[0]] + ReplacePair(s[1..], a, b, with)
  }

  const ONE: byte := 0x31

  /** Section 4 of RFC 6901: `~1` becomes `/` first, then `~0` becomes `~`. */
  function Unescape(token: Bytes): Bytes {
    ReplacePair(ReplacePair(token, TILDE, ONE, [SLASH]), TILDE, ZERO, [TILDE])
  }

  /** Section 3 of RFC 6901: how a key is written into a pointer (`~` as `~0`, `/` as `~1`). */
  function EscapeToken(key: Bytes): (r: Bytes)
    ensures SLASH !in r
    decreases |key|
  {
    if |key| == 0 then []
    else if key[0] == TILDE then [TILDE, ZERO] + EscapeToken(key[1..])
    else if key[0] == SLASH then [TILDE, ONE] + EscapeToken(key[1..])
    else [key[0]] + EscapeToken(key[1..])
  }

  /** The key with `/` already restored but `~` still written `~0`: the text between the two replacements. */
  function TildesEscaped(key: Bytes): Bytes
    decreases |key|
  {
    if |key| == 0 then []
    else if key[0] == TILDE then [TILDE, ZERO] + TildesEscaped(key[1..])
    else [key[0]] + TildesEscaped(key[1..])
  }

  lemma {:induction false} FirstReplacement(key: Bytes)
    ensures ReplacePair(EscapeToken(key), TILDE, ONE, [SLASH]) == TildesEscaped(key)
    decreases |key|
  {
    if |key| > 0 {
      FirstReplacement(key[1..]);
      var e := EscapeToken(key);
      var rest := EscapeToken(key[1..]);
      if key[0] == TILDE {
        assert e[1..] == [ZERO] + rest;
        if |rest| > 0 {
          assert ([ZERO] + rest)[1..] == rest;
        }
      } else if key[0] == SLASH {
        assert e[2..] == rest;
      } else if |rest| > 0 {
        assert e[1..] == rest;
      }
    }
  }

  lemma {:induction false} SecondReplacement(key: Bytes)
    ensures ReplacePair(TildesEscaped(key), TILDE, ZERO, [TILDE]) == key
    decreases |key|
  {
    if |key| > 0 {
      SecondReplacement(key[1..]);
      var e := TildesEscaped(key);
      var rest := TildesEscaped(key[1..]);
      if key[0] == TILDE {
        assert e[2..] == rest;
      } else if |rest| > 0 {
        assert e[1..] == rest;
      }
      assert key == [key[0]] + key[1..];
    }
  }

  /** Unescaping undoes escaping, so every key can be named by some token. */
  lemma UnescapeEscape(key: Bytes)
    ensures Unescape(EscapeToken(key)) == key
  {
    FirstReplacement(key);
    SecondReplacement(key);
  }

  /** The order of the two replacements matters: `~01` names the key `~1`, not `~/`. */
  lemma ReplacementOrder()
    ensures Unescape([TILDE, ZERO, ONE]) == [TILDE, ONE]
  {
    assert ReplacePair([ONE], TILDE, ONE, [SLASH]) == [ONE];
    assert [ZERO, ONE][1..] == [ONE];
    assert ReplacePair([ZERO, ONE], TILDE, ONE, [SLASH]) == [ZERO, ONE];
    assert [TILDE, ZERO, ONE][1..] == [ZERO, ONE];
    assert ReplacePair([TILDE, ZERO, ONE], TILDE, ONE, [SLASH]) == [TILDE, ZERO, ONE];
    assert [TILDE, ZERO, ONE][2..] == [ONE];
    assert ReplacePair([ONE], TILDE, ZERO, [TILDE]) == [ONE];
  }

  /** The reference tokens of a pointer that starts with `/`: split, drop the empty first piece, unescape. */
  function Tokens(pointer: Bytes): (r: seq<Bytes>)
    requires |pointer| > 0 && pointer[0] == SLASH
    ensures |r| == |Split(pointer)| - 1
    ensures forall i :: 0 <= i < |r| ==> r[i] == Unescape(Split(pointer)[i + 1])
  {
    var parts := Split(pointer)[1..];
    seq(|parts|, i requires 0 <= i < |parts| => Unescape(parts[i]))
  }

  /** A pointer built from keys, one `/` and escaped key each. */
  function PointerOf(keys: seq<Bytes>): Bytes
    decreases |keys|
  {
    if |keys| == 0 then [] else [SLASH] + EscapeToken(keys[0]) + PointerOf(keys[1..])
  }

  lemma {:induction false} SplitNoSlash(s: Bytes)
    requires SLASH !in s
    ensures Split(s) == [s]
    decreases |s|
  {
    if |s| > 0 {
      SplitNoSlash(s[1..]);
      assert s == [s[0]] + s[1..];
    }
  }

  lemma {:induction false} SplitAppendSlash(a: Bytes, b: Bytes)
    requires SLASH !in a
    ensures Split(a + [SLASH] + b) == [a] + Split(b)
    decreases |a|
  {
    if |a| == 0 {
      assert a + [SLASH] + b == [SLASH] + b;
      assert ([SLASH] + b)[1..] == b;
    } else {
      var s := a + [SLASH] + b;
      assert s[1..] == a[1..] + [SLASH] + b;
      SplitAppendSlash(a[1..], b);
      assert a == [a[0]] + a[1..];
    }
  }

  /** The escaped form of each key, in order. */
  function EscapeAll(keys: seq<Bytes>): (r: seq<Bytes>)
    ensures |r| == |keys|
    ensures forall i :: 0 <= i < |keys| ==> r[i] == EscapeToken(keys[i])
    decreases |keys|
  {
    if |keys| == 0 then [] else [EscapeToken(keys[0])] + EscapeAll(keys[1..])
  }

  lemma {:induction false} SplitPointerOf(keys: seq<Bytes>)
    ensures Split(PointerOf(keys)) == [[]] + EscapeAll(keys)
    decreases |keys|
  {
    if |keys| > 0 {
      var rest := PointerOf(keys[1..]);
      SplitPointerOf(keys[1..]);
      PointerStartsWithSlash(keys[1..]);
      SplitCons(EscapeToken(keys[0]), rest, EscapeAll(keys[1..]));
    }
  }

  lemma PointerStartsWithSlash(keys: seq<Bytes>)
    ensures |PointerOf(keys)| > 0 ==> PointerOf(keys)[0] == SLASH
  {
  }

  /** One more escaped token in front of a pointer: the split gains it as its second piece. */
  lemma SplitCons(e: Bytes, rest: Bytes, tail: seq<Bytes>)
    requires SLASH !in e
    requires |rest| > 0 ==> rest[0] == SLASH
    requires Split(rest) == [[]] + tail
    ensures Split([SLASH] + e + rest) == [[]] + ([e] + tail)
  {
    SplitAfterSlash(e + rest);
    assert [SLASH] + e + rest == [SLASH] + (e + rest);
    if |rest| == 0 {
      assert e + rest == e;
      SplitNoSlash(e);
    } else {
      SplitAfterSlash(rest[1..]);
      assert [SLASH] + rest[1..] == rest;
      assert tail == ([[]] + tail)[1..] == ([[]] + Split(rest[1..]))[1..] == Split(rest[1..]);
      assert e + rest == e + [SLASH] + rest[1..];
      SplitAppendSlash(e, rest[1..]);
    }
  }

  /** A leading slash contributes an empty first piece. */
  lemma SplitAfterSlash(x: Bytes)
    ensures Split([SLASH] + x) == [[]] + Split(x)
  {
    assert ([SLASH] + x)[1..] == x;
  }

  /** The tokens of a pointer built from keys are those keys. */
  lemma TokensOfPointer(keys: seq<Bytes>)
    requires |keys| > 0
    ensures |PointerOf(keys)| > 0 && PointerOf(keys)[0] == SLASH
    ensures Tokens(PointerOf(keys)) == keys
  {
    SplitPointerOf(keys);
    var t := Tokens(PointerOf(keys));
    forall i | 0 <= i < |keys| ensures t[i] == keys[i] {
      UnescapeEscape(keys[i]);
    }
  }

  // ----- evaluation -----

  /**
   * One step of the `try_fold`: an object looks the token up, an array
   * parses it as an index and checks the bound, anything else fails.
   */
  function Step(v: Value, token: Bytes): (r: Option<Value>)
    ensures v.Object? ==> r == JsonMap.Get(v.fields, token)
    ensures v.Array? ==>
              (r.Some? <==> ParseIndex(token).Some? && ParseIndex(token).value < |v.elems|)
    ensures v.Array? && r.Some? ==> r.value == v.elems[ParseIndex(token).value]
    ensures !v.Object? && !v.Array? ==> r.None?
  {
    match v
    case Object(m) => JsonMap.Get(m, token)
    case Array(a) =>
      var index := ParseIndex(token);
      if index.Some? && index.value < |a| then Some(a[index.value]) else None
    case _ => None
  }

  /** Following tokens from `v`; the first failing step ends the walk. */
  function Walk(v: Value, tokens: seq<Bytes>): Option<Value>
    decreases |tokens|
  {
    if |tokens| == 0 then Some(v)
    else
      match Step(v, tokens[0])
      case None => None
      case Some(next) => Walk(next, tokens[1..])
  }

  /** `pointer`: the empty pointer names the whole value; any other must start with `/`. */
  function Pointer(v: Value, pointer: Bytes): (r: Option<Value>)
    ensures |pointer| == 0 ==> r == Some(v)
    ensures |pointer| > 0 && pointer[0] != SLASH ==> r.None?
  {
    if |pointer| == 0 then Some(v)
    else if pointer[0] != SLASH then None
    else Walk(v, Tokens(pointer))
  }

  /** A step into a well-formed value lands on a well-formed value. */
  lemma StepWellFormed(v: Value, token: Bytes)
    requires WellFormed(v) && Step(v, token).Some?
    ensures WellFormed(Step(v, token).value)
  {
    if v.Object? {
      ObjectWellFormed(v.fields);
    }
  }

  /**
   * `pointer_mut` followed by an assignment: the value at the end of the
   * walk is replaced by `x`. `None` when the walk fails, exactly as for `Walk`.
   */
  function ReplaceAt(v: Value, tokens: seq<Bytes>, x: Value): (r: Option<Value>)
    requires WellFormed(v) && WellFormed(x)
    ensures r.Some? <==> Walk(v, tokens).Some?
    ensures r.Some? ==> WellFormed(r.value)
    ensures r.Some? ==> Walk(r.value, tokens) == Some(x)
    decreases |tokens|
  {
    if |tokens| == 0 then Some(x)
    else
      var next := Step(v, tokens[0]);
      if next.None? then None
      else
        StepWellFormed(v, tokens[0]);
        var inner := ReplaceAt(next.value, tokens[1..], x);
        if inner.None? then None
        else
          match v
          case Object(m) =>
            var m' := JsonMap.Insert(m, tokens[0], inner.value).0;
            ObjectWellFormed(m);
            ObjectWellFormed(m');
            assert Step(Object(m'), tokens[0]) == Some(inner.value);
            Some(Object(m'))
          case Array(a) =>
            var i := ParseIndex(tokens[0]).value;
            var a' := a[i := inner.value];
            assert Step(Array(a'), tokens[0]) == Some(inner.value);
            Some(Array(a'))
  }

  /**
   * `pointer_mut(p)` then `*target = x`: it succeeds exactly when
   * `pointer(p)` does, and a later `pointer(p)` sees `x`.
   */
  function AssignAt(v: Value, pointer: Bytes, x: Value): (r: Option<Value>)
    requires WellFormed(v) && WellFormed(x)
    ensures r.Some? <==> Pointer(v, pointer).Some?
    ensures r.Some? ==> WellFormed(r.value) && Pointer(r.value, pointer) == Some(x)
  {
    if |pointer| == 0 then Some(x)
    else if pointer[0] != SLASH then None
    else ReplaceAt(v, Tokens(pointer), x)
  }

  /**
   * `pointer_mut(p).map(Value::take)`: the value that was at `p`, and the
   * tree with `Null` there instead.
   */
  function TakeAt(v: Value, pointer: Bytes): (r: Option<(Value, Value)>)
    requires WellFormed(v)
    ensures r.Some? <==> Pointer(v, pointer).Some?
    ensures r.Some? ==> Some(r.value.0) == Pointer(v, pointer)
    ensures r.Some? ==> Pointer(r.value.1, pointer) == Some(Null)
  {
    match Pointer(v, pointer)
    case None => None
    case Some(target) =>
      var (taken, left) := Take(target);
      Some((taken, AssignAt(v, pointer, left).value))
  }

  /** Two token paths part ways: at some position both have a token, and the tokens differ. */
  predicate Diverge(a: seq<Bytes>, b: seq<Bytes>) {
    exists k :: 0 <= k < |a| && k < |b| && a[k] != b[k]
  }

  /** Distinct tokens never name the same array element: `parse_index` only reads canonical digits. */
  lemma IndexInjective(t1: Bytes, t2: Bytes)
    requires ParseIndex(t1).Some? && ParseIndex(t2).Some? && ParseIndex(t1) == ParseIndex(t2)
    ensures t1 == t2
  {
    ParseIndexCanonical(t1);
    ParseIndexCanonical(t2);
  }

  /** Replacing the child under one token leaves every other token's step as it was. */
  lemma StepFrame(v: Value, tokens: seq<Bytes>, x: Value, other: Bytes)
    requires WellFormed(v) && WellFormed(x) && |tokens| > 0 && ReplaceAt(v, tokens, x).Some?
    requires other != tokens[0]
    ensures Step(ReplaceAt(v, tokens, x).value, other) == Step(v, other)
  {
    var v' := ReplaceAt(v, tokens, x).value;
    if v.Array? {
      var i := ParseIndex(tokens[0]).value;
      if ParseIndex(other).Some? && ParseIndex(other).value == i {
        IndexInjective(other, tokens[0]);
      }
    }
  }

  /** After a replacement, the child under the replaced path's first token is the replacement one level down. */
  lemma StepInto(v: Value, tokens: seq<Bytes>, x: Value)
    requires WellFormed(v) && WellFormed(x) && |tokens| > 0 && ReplaceAt(v, tokens, x).Some?
    ensures Step(v, tokens[0]).Some? && WellFormed(Step(v, tokens[0]).value)
    ensures Step(ReplaceAt(v, tokens, x).value, tokens[0]) == ReplaceAt(Step(v, tokens[0]).value, tokens[1..], x)
  {
    StepWellFormed(v, tokens[0]);
  }

  /** A path that parts ways with the replaced one walks to what it walked to before. */
  lemma {:induction false} ReplaceFrame(v: Value, tokens: seq<Bytes>, x: Value, other: seq<Bytes>)
    requires WellFormed(v) && WellFormed(x) && ReplaceAt(v, tokens, x).Some?
    requires Diverge(tokens, other)
    ensures Walk(ReplaceAt(v, tokens, x).value, other) == Walk(v, other)
    decreases |tokens|
  {
    var v' := ReplaceAt(v, tokens, x).value;
    if tokens[0] != other[0] {
      StepFrame(v, tokens, x, other[0]);
    } else {
      var k :| 0 <= k < |tokens| && k < |other| && tokens[k] != other[k];
      assert tokens[1..][k - 1] != other[1..][k - 1];
      StepInto(v, tokens, x);
      ReplaceFrame(Step(v, tokens[0]).value, tokens[1..], x, other[1..]);
    }
  }

  /** Walking a path in two pieces is walking the first, then the second from where it ended. */
  lemma {:induction false} WalkAppend(v: Value, a: seq<Bytes>, b: seq<Bytes>)
    requires Walk(v, a).Some?
    ensures Walk(v, a + b) == Walk(Walk(v, a).value, b)
    decreases |a|
  {
    if |a| > 0 {
      assert (a + b)[0] == a[0] && (a + b)[1..] == a[1..] + b;
      WalkAppend(Step(v, a[0]).value, a[1..], b);
    } else {
      assert a + b == b;
    }
  }

  /** Below the replaced path, the walk continues inside the replacement. */
  lemma ReplaceBelow(v: Value, tokens: seq<Bytes>, x: Value, rest: seq<Bytes>)
    requires WellFormed(v) && WellFormed(x) && ReplaceAt(v, tokens, x).Some?
    ensures Walk(ReplaceAt(v, tokens, x).value, tokens + rest) == Walk(x, rest)
  {
    WalkAppend(ReplaceAt(v, tokens, x).value, tokens, rest);
  }

  /**
   * Assigning through `pointer_mut(p)` changes nothing that a pointer `p2`
   * parting ways with `p` finds, and below `p` it is the assigned value
   * that later pointers walk into.
   */
  lemma AssignFrame(v: Value, p: Bytes, x: Value, p2: Bytes)
    requires WellFormed(v) && WellFormed(x) && AssignAt(v, p, x).Some?
    requires |p| > 0 && p[0] == SLASH && |p2| > 0 && p2[0] == SLASH
    ensures Diverge(Tokens(p), Tokens(p2)) ==> Pointer(AssignAt(v, p, x).value, p2) == Pointer(v, p2)
    ensures forall rest :: Tokens(p2) == Tokens(p) + rest ==>
              Pointer(AssignAt(v, p, x).value, p2) == Walk(x, rest)
  {
    if Diverge(Tokens(p), Tokens(p2)) {
      ReplaceFrame(v, Tokens(p), x, Tokens(p2));
    }
    forall rest | Tokens(p2) == Tokens(p) + rest
      ensures Pointer(AssignAt(v, p, x).value, p2) == Walk(x, rest)
    {
      ReplaceBelow(v, Tokens(p), x, rest);
    }
  }

  /** `take` through `pointer_mut(p)` leaves everything a pointer parting ways with `p` finds. */
  lemma TakeFrame(v: Value, p: Bytes, p2: Bytes)
    requires WellFormed(v) && TakeAt(v, p).Some?
    requires |p| > 0 && p[0] == SLASH && |p2| > 0 && p2[0] == SLASH
    requires Diverge(Tokens(p), Tokens(p2))
    ensures Pointer(TakeAt(v, p).value.1, p2) == Pointer(v, p2)
  {
    AssignFrame(v, p, Null, p2);
  }

  /** A pointer built from the keys of nested objects finds the innermost value. */
  lemma {:induction false} WalkKeys(v: Value, keys: seq<Bytes>, target: Value)
    requires |keys| > 0 && v.Object?
    requires JsonMap.Get(v.fields, keys[0]).Some?
    requires Walk(JsonMap.Get(v.fields, keys[0]).value, keys[1..]) == Some(target)
    ensures Pointer(v, PointerOf(keys)) == Some(target)
  {
    TokensOfPointer(keys);
  }

  /** `{"x": {"y": ["z", "zz"]}}`, the value of the `pointer` example. */
  function PointerDocData(): Value {
    var inner := Object(JsonMap.Map([JsonMap.Item([0x79], Array([String([0x7A]), String([0x7A, 0x7A])]))]));
    Object(JsonMap.Map([JsonMap.Item([0x78], inner)]))
  }

  /** A one-byte token other than `~` and `/` is written as itself. */
  lemma PlainByteToken(b: byte)
    requires b != TILDE && b != SLASH
    ensures EscapeToken([b]) == [b]
  {
    assert [b][1..] == [];
  }

  lemma PointerOfThree(a: byte, b: byte, c: byte)
    requires a != TILDE && a != SLASH && b != TILDE && b != SLASH && c != TILDE && c != SLASH
    ensures PointerOf([[a], [b], [c]]) == [SLASH, a, SLASH, b, SLASH, c]
  {
    var keys: seq<Bytes> := [[a], [b], [c]];
    PlainByteToken(a);
    PlainByteToken(b);
    PlainByteToken(c);
    assert keys[1..] == [[b], [c]];
    assert keys[1..][1..] == [[c]];
    assert keys[1..][1..][1..] == [];
    assert PointerOf([[c]]) == [SLASH] + [c] + PointerOf([]);
    assert PointerOf([[b], [c]]) == [SLASH] + [b] + [SLASH, c];
    assert PointerOf(keys) == [SLASH] + [a] + [SLASH, b, SLASH, c];
  }

  lemma IndexOne()
    ensures ParseIndex([ONE]) == Some(1)
  {
    assert [ONE][..0] == [];
    assert DigitsValue([ONE]) == 1;
  }

  /** `/x/y/1` finds `"zz"`; `/a/b/c` finds nothing. */
  lemma PointerDocExample()
    ensures Pointer(PointerDocData(), [SLASH, 0x78, SLASH, 0x79, SLASH, ONE]) == Some(String([0x7A, 0x7A]))
    ensures Pointer(PointerDocData(), [SLASH, 0x61, SLASH, 0x62, SLASH, 0x63]) == None
  {
    var data := PointerDocData();
    var found: seq<Bytes> := [[0x78], [0x79], [ONE]];
    var missing: seq<Bytes> := [[0x61], [0x62], [0x63]];
    PointerOfThree(0x78, 0x79, ONE);
    PointerOfThree(0x61, 0x62, 0x63);
    TokensOfPointer(found);
    TokensOfPointer(missing);
    IndexOne();
    var y := Step(data, [0x78]).value;
    var list := Step(y, [0x79]).value;
    assert list == Array([String([0x7A]), String([0x7A, 0x7A])]);
    assert Step(list, [ONE]) == Some(String([0x7A, 0x7A]));
    assert found[1..] == [[0x79], [ONE]] && found[1..][1..] == [[ONE]];
    assert Walk(list, [[ONE]]) == Some(String([0x7A, 0x7A]));
    assert Walk(y, [[0x79], [ONE]]) == Some(String([0x7A, 0x7A]));
    assert Walk(data, found) == Some(String([0x7A, 0x7A]));
    assert Step(data, [0x61]) == None;
  }
}

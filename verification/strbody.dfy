/**
 * What a JSON string body means, independently of the reader's cursor
 * loop: the body between the quotes is a sequence of units, each a
 * verbatim byte or one escape, and each unit stands for some bytes.
 */
module StringBody {
  import opened Common
  import Utf8
  import opened Reader

  /** Four hex digits at offset `k` of `s`. */
  predicate HexAt(s: Bytes, k: nat) {
    k + 4 <= |s| && forall x :: k <= x < k + 4 ==> IsHex(s[x])
  }

  /** `s` continues at offset `k` with `\u`. */
  predicate PairNext(s: Bytes, k: nat) {
    k + 2 <= |s| && s[k] == BACKSLASH && s[k + 1] == 0x75
  }

  /**
   * The first unit of a non-empty body: the bytes it stands for and how
   * many bytes of the body it spans, or `None` when the body does not
   * start with a well-formed unit. A quote never appears unescaped; with
   * `validate`, neither does a control byte nor an unpaired surrogate
   * escape. Without it, an unpaired surrogate stands for its three-byte
   * form, and the bytes after it start the next unit.
   */
  function FirstUnit(body: Bytes, validate: bool): (u: Option<(Bytes, nat)>)
    requires |body| > 0
    ensures u.Some? ==> 0 < u.value.1 <= |body| && |u.value.0| > 0
    ensures u.Some? ==> body[0] != QUOTE && (validate ==> body[0] >= 0x20)
    ensures u.Some? ==> forall x :: 1 <= x < u.value.1 ==> body[x] >= 0x20
    ensures u.Some? && body[0] != BACKSLASH ==> u.value == ([body[0]], 1)
  {
    var b := body[0];
    if b == QUOTE then None
    else if b != BACKSLASH then
      if validate && b < 0x20 then None else Some(([b], 1))
    else if |body| < 2 then None
    else if ShortEscape(body[1]).Some? then Some(([ShortEscape(body[1]).value], 2))
    else if body[1] != 0x75 || !HexAt(body, 2) then None
    else
      var n := HexValue4(body, 2);
      if 0xDC00 <= n <= 0xDFFF then
        if validate then None else Some((Utf8.ThreeBytes(n), 6))
      else if n < 0xD800 || n > 0xDBFF then Some((Utf8.Encode(n), 6))
      else if PairNext(body, 6) then
        if HexAt(body, 8) && 0xDC00 <= HexValue4(body, 8) <= 0xDFFF then
          Some((Utf8.Encode(CombineSurrogates(n, HexValue4(body, 8))), 12))
        else None
      else if validate then None
      else Some((Utf8.ThreeBytes(n), 6))
  }

  /** The bytes a whole body stands for, unit after unit, or `None` if some unit is malformed. */
  function Decoded(body: Bytes, validate: bool): (d: Option<Bytes>)
    decreases |body|
  {
    if |body| == 0 then Some([])
    else match FirstUnit(body, validate)
      case None => None
      case Some((u, k)) =>
        match Decoded(body[k..], validate)
        case None => None
        case Some(rest) => Some(u + rest)
  }

  /** A body with no quote, no backslash and no control byte stands for itself. */
  lemma {:induction false} PlainDecoded(body: Bytes, validate: bool)
    requires forall k :: 0 <= k < |body| ==> body[k] != QUOTE && body[k] != BACKSLASH && body[k] >= 0x20
    ensures Decoded(body, validate) == Some(body)
    decreases |body|
  {
    if |body| > 0 {
      PlainDecoded(body[1..], validate);
      assert body == [body[0]] + body[1..];
    }
  }

  /** A bare quote can only be the closing one: no body containing it decodes. */
  lemma {:induction false} QuoteNotDecoded(body: Bytes, validate: bool, k: nat)
    requires k < |body| && body[k] == QUOTE
    requires forall x :: 0 <= x < k ==> body[x] != BACKSLASH
    ensures Decoded(body, validate).None?
    decreases k
  {
    if k > 0 && FirstUnit(body, validate).Some? {
      assert body[1..][k - 1] == QUOTE;
      QuoteNotDecoded(body[1..], validate, k - 1);
    }
  }

  /**
   * Validation only rejects: whatever a body means with it, it means the
   * same without it, and it holds no control byte.
   */
  lemma {:induction false} ValidatedDecoded(body: Bytes)
    requires Decoded(body, true).Some?
    ensures Decoded(body, false) == Decoded(body, true)
    ensures forall x :: 0 <= x < |body| ==> body[x] >= 0x20
    decreases |body|
  {
    if |body| > 0 {
      var (u, k) := FirstUnit(body, true).value;
      UnitValidated(body);
      ValidatedDecoded(body[k..]);
      forall x | 0 <= x < |body| ensures body[x] >= 0x20 {
        if x >= k {
          assert body[x] == body[k..][x - k];
        }
      }
    }
  }

  lemma UnitValidated(body: Bytes)
    requires |body| > 0 && FirstUnit(body, true).Some?
    ensures FirstUnit(body, false) == FirstUnit(body, true)
  {
  }
}

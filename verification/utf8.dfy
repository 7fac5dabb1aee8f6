/**
 * UTF-8 as the reader produces and checks it: the encoding of a code
 * point (what `char::encode_utf8` and the reader's `encode_surrogate`
 * write) and well-formedness of a byte string per section 4 of RFC 3629
 * (what `str::from_utf8` accepts).
 */
module Utf8 {
  import opened Common

  /** A Unicode scalar value: a code point that is not a surrogate. */
  predicate IsScalar(c: nat) {
    c < 0xD800 || 0xE000 <= c < 0x11_0000
  }

  predicate IsContinuation(b: byte) {
    0x80 <= b <= 0xBF
  }

  /** The three-byte form, which `encode_surrogate` also writes for surrogate code points. */
  function ThreeBytes(n: nat): (r: Bytes)
    requires n < 0x1_0000
    ensures |r| == 3
  {
    [0xE0 + n / 0x1000, 0x80 + n / 0x40 % 0x40, 0x80 + n % 0x40]
  }

  /** The shortest UTF-8 encoding of a code point below 0x110000. */
  function Encode(c: nat): (r: Bytes)
    requires c < 0x11_0000
    ensures 1 <= |r| <= 4
    ensures |r| == 1 <==> c < 0x80
  {
    if c < 0x80 then [c]
    else if c < 0x800 then [0xC0 + c / 0x40, 0x80 + c % 0x40]
    else if c < 0x1_0000 then [0xE0 + c / 0x1000, 0x80 + c / 0x40 % 0x40, 0x80 + c % 0x40]
    else [0xF0 + c / 0x4_0000, 0x80 + c / 0x1000 % 0x40, 0x80 + c / 0x40 % 0x40, 0x80 + c % 0x40]
  }

  /**
   * The length of the well-formed character that starts `s`, or 0 when
   * `s` does not start with one (the table in section 4 of RFC 3629).
   */
  function FirstWidth(s: Bytes): (w: nat)
    ensures w <= |s| && w <= 4
    ensures |s| > 0 && s[0] < 0x80 ==> w == 1
  {
    if |s| == 0 then 0
    else
      var b := s[0];
      if b < 0x80 then 1
      else if 0xC2 <= b <= 0xDF then
        if |s| >= 2 && IsContinuation(s[1]) then 2 else 0
      else if 0xE0 <= b <= 0xEF then
        var lo := if b == 0xE0 then 0xA0 else 0x80;
        var hi := if b == 0xED then 0x9F else 0xBF;
        if |s| >= 3 && lo <= s[1] <= hi && IsContinuation(s[2]) then 3 else 0
      else if 0xF0 <= b <= 0xF4 then
        var lo := if b == 0xF0 then 0x90 else 0x80;
        var hi := if b == 0xF4 then 0x8F else 0xBF;
        if |s| >= 4 && lo <= s[1] <= hi && IsContinuation(s[2]) && IsContinuation(s[3]) then 4 else 0
      else 0
  }

  /** Well-formed UTF-8: a sequence of well-formed characters. */
  predicate Valid(s: Bytes)
    decreases |s|
  {
    |s| == 0 || (FirstWidth(s) > 0 && Valid(s[FirstWidth(s)..]))
  }

  /** The code point of the first `w` bytes of `s`. */
  function DecodeFirst(s: Bytes, w: nat): int
    requires 1 <= w <= 4 && w <= |s|
  {
    if w == 1 then s[0]
    else if w == 2 then (s[0] as int - 0xC0) * 0x40 + (s[1] as int - 0x80)
    else if w == 3 then ((s[0] as int - 0xE0) * 0x40 + (s[1] as int - 0x80)) * 0x40 + (s[2] as int - 0x80)
    else (((s[0] as int - 0xF0) * 0x40 + (s[1] as int - 0x80)) * 0x40 + (s[2] as int - 0x80)) * 0x40 + (s[3] as int - 0x80)
  }

  /** A scalar value encodes to one well-formed character that decodes back to it. */
  lemma EncodeRoundTrip(c: nat)
    requires IsScalar(c)
    ensures FirstWidth(Encode(c)) == |Encode(c)|
    ensures DecodeFirst(Encode(c), |Encode(c)|) == c
  {
    if c < 0x80 {
    } else if c < 0x800 {
      TwoByteRoundTrip(c);
    } else if c < 0x1_0000 {
      ThreeByteRoundTrip(c);
    } else {
      FourByteRoundTrip(c);
    }
  }

  lemma TwoByteRoundTrip(c: nat)
    requires 0x80 <= c < 0x800
    ensures FirstWidth(Encode(c)) == 2
    ensures DecodeFirst(Encode(c), 2) == c
  {
    var q, r := c / 0x40, c % 0x40;
    assert c == q * 0x40 + r;
    assert 2 <= q < 0x20;
  }

  lemma ThreeByteRoundTrip(c: nat)
    requires 0x800 <= c < 0x1_0000 && IsScalar(c)
    ensures FirstWidth(Encode(c)) == 3
    ensures DecodeFirst(Encode(c), 3) == c
  {
    var e := Encode(c);
    var a, m, r := c / 0x1000, c / 0x40 % 0x40, c % 0x40;
    assert c / 0x40 == a * 0x40 + m;
    assert c == (c / 0x40) * 0x40 + r;
    assert e == [0xE0 + a, 0x80 + m, 0x80 + r];
    assert a == 0 ==> m >= 0x20;
    assert a == 0xD ==> m < 0x20;
  }

  lemma FourByteRoundTrip(c: nat)
    requires 0x1_0000 <= c < 0x11_0000
    ensures FirstWidth(Encode(c)) == 4
    ensures DecodeFirst(Encode(c), 4) == c
  {
    var e := Encode(c);
    var a, m1, m2, r := c / 0x4_0000, c / 0x1000 % 0x40, c / 0x40 % 0x40, c % 0x40;
    assert c / 0x1000 == a * 0x40 + m1;
    assert c / 0x40 == (c / 0x1000) * 0x40 + m2;
    assert c == (c / 0x40) * 0x40 + r;
    assert e == [0xF0 + a, 0x80 + m1, 0x80 + m2, 0x80 + r];
    assert a == 0 ==> m1 >= 0x10;
    assert a == 4 ==> m1 < 0x10;
  }

  lemma EncodeValid(c: nat)
    requires IsScalar(c)
    ensures Valid(Encode(c))
  {
    EncodeRoundTrip(c);
    assert Encode(c)[|Encode(c)|..] == [];
  }

  /** A surrogate code point written with the three-byte form is never well-formed. */
  lemma SurrogateBytesInvalid(n: nat)
    requires 0xD800 <= n <= 0xDFFF
    ensures !Valid(ThreeBytes(n))
  {
    assert FirstWidth(ThreeBytes(n)) == 0;
  }

  /** The width of the first character does not depend on what follows it. */
  lemma FirstWidthAppend(a: Bytes, b: Bytes)
    requires FirstWidth(a) > 0
    ensures FirstWidth(a + b) == FirstWidth(a)
  {
    var w := FirstWidth(a);
    assert (a + b)[0] == a[0];
    if w >= 2 {
      assert (a + b)[1] == a[1];
    }
    if w >= 3 {
      assert (a + b)[2] == a[2];
    }
    if w >= 4 {
      assert (a + b)[3] == a[3];
    }
  }

  /** Well-formed strings are closed under concatenation. */
  lemma {:induction false} ValidAppend(a: Bytes, b: Bytes)
    requires Valid(a) && Valid(b)
    ensures Valid(a + b)
    decreases |a|
  {
    if |a| == 0 {
      assert a + b == b;
    } else {
      var w := FirstWidth(a);
      FirstWidthAppend(a, b);
      ValidAppend(a[w..], b);
      assert (a + b)[w..] == a[w..] + b;
      ValidFrom(a + b, w);
    }
  }

  /** A well-formed first character followed by well-formed text is well-formed. */
  lemma ValidFrom(s: Bytes, w: nat)
    requires 0 < w <= |s| && FirstWidth(s) == w && Valid(s[w..])
    ensures Valid(s)
  {
  }

  /** ASCII text is well-formed. */
  lemma {:induction false} AsciiValid(s: Bytes)
    requires forall i :: 0 <= i < |s| ==> s[i] < 0x80
    ensures Valid(s)
    decreases |s|
  {
    if |s| > 0 {
      AsciiValid(s[1..]);
    }
  }
}

/**
 * Shared vocabulary of the model: bytes, the Option/Result wrappers that
 * stand in for Rust's `Option` and `Result` (with `tri!` becoming `:-`),
 * decimal text as produced by `itoa` and read back by `usize::from_str`,
 * and the line/column arithmetic used by both position trackers.
 */
module Common {

  /** Rust's `u8`. */
  type byte = b: int | 0 <= b < 0x100

  /** A byte slice, a `Vec<u8>`, or the UTF-8 bytes of a `String`. */
  type Bytes = seq<byte>

  /** The target's `usize::MAX` (a 64-bit platform). */
  const USIZE_MAX: nat := 0xFFFF_FFFF_FFFF_FFFF

  const NEWLINE: byte := 0x0A
  const QUOTE: byte := 0x22
  const BACKSLASH: byte := 0x5C
  const SLASH: byte := 0x2F
  const TILDE: byte := 0x7E
  const PLUS: byte := 0x2B
  const ZERO: byte := 0x30

  datatype Option<+T> = None | Some(value: T)

  datatype Result<+T, +E> = Success(value: T) | Failure(error: E) {
    predicate IsFailure() {
      Failure?
    }

    function PropagateFailure<U>(): Result<U, E>
      requires Failure?
    {
      Failure(error)
    }

    function Extract(): T
      requires Success?
    {
      value
    }
  }

  /** The bytes of an ASCII string literal (characters beyond ASCII never occur in one). */
  function Ascii(s: string): (r: Bytes)
    ensures |r| == |s|
    ensures forall i :: 0 <= i < |s| && s[i] as int < 0x80 ==> r[i] == s[i] as int
  {
    seq(|s|, i requires 0 <= i < |s| => if s[i] as int < 0x80 then s[i] as int else 0x3F)
  }

  predicate IsDigit(b: byte) {
    0x30 <= b <= 0x39
  }

  predicate AllDigits(s: Bytes) {
    forall i :: 0 <= i < |s| ==> IsDigit(s[i])
  }

  /** The value of a string of decimal digits, most significant first. */
  function DigitsValue(s: Bytes): nat
    requires AllDigits(s)
  {
    if |s| == 0 then 0 else DigitsValue(s[..|s| - 1]) * 10 + (s[|s| - 1] - 0x30)
  }

  /** Minimal decimal text of a natural number (the `itoa` contract). */
  function Decimal(n: nat): (r: Bytes)
    ensures |r| > 0 && AllDigits(r)
    ensures r[0] == ZERO ==> n == 0 && |r| == 1
  {
    if n < 10 then [0x30 + n] else Decimal(n / 10) + [0x30 + n % 10]
  }

  /** Decimal text of a signed integer: a `-` sign, then the digits. */
  function IntText(i: int): Bytes {
    if i < 0 then [0x2D] + Decimal(-i) else Decimal(i)
  }

  lemma {:induction false} DecimalRoundTrip(n: nat)
    ensures DigitsValue(Decimal(n)) == n
  {
    if n >= 10 {
      DecimalRoundTrip(n / 10);
      var d := Decimal(n);
      assert d[..|d| - 1] == Decimal(n / 10);
    }
  }

  /** Appending digits scales the value: the step `usize::from_str` takes per digit. */
  lemma {:induction false} DigitsValueAppend(a: Bytes, b: Bytes)
    requires AllDigits(a) && AllDigits(b)
    ensures AllDigits(a + b)
    ensures DigitsValue(a + b) >= DigitsValue(a)
  {
    if |b| > 0 {
      DigitsValueAppend(a, b[..|b| - 1]);
      assert (a + b)[..|a + b| - 1] == a + b[..|b| - 1];
    } else {
      assert a + b == a;
    }
  }

  /**
   * `usize::from_str`: an optional leading `+`, then at least one decimal
   * digit and nothing else, with a value that fits in a `usize`.
   */
  function ParseUsize(s: Bytes): (r: Option<nat>)
    ensures r.Some? <==>
              var d := if |s| > 0 && s[0] == PLUS then s[1..] else s;
              |d| > 0 && AllDigits(d) && DigitsValue(d) <= USIZE_MAX
    ensures r.Some? ==> r.value <= USIZE_MAX
  {
    var digits := if |s| > 0 && s[0] == PLUS then s[1..] else s;
    if |digits| == 0 || !AllDigits(digits) then None
    else
      var v := DigitsValue(digits);
      if v > USIZE_MAX then None else Some(v)
  }

  /** The lowercase hexadecimal digit for `n` (the writer's `0123456789abcdef`). */
  function LowerHex(n: nat): byte
    requires n < 16
  {
    if n < 10 then 0x30 + n else 0x61 + (n - 10)
  }

  /** Number of line feeds in `s`. */
  function Newlines(s: Bytes): nat {
    multiset(s)[NEWLINE]
  }

  /**
   * Offset of the first byte of the last line of `s`: just past the last
   * line feed, or 0 when there is none.
   */
  function LineStart(s: Bytes): (k: nat)
    ensures k <= |s|
    ensures k == 0 || s[k - 1] == NEWLINE
    ensures forall i :: k <= i < |s| ==> s[i] != NEWLINE
  {
    if |s| == 0 then 0
    else if s[|s| - 1] == NEWLINE then |s|
    else LineStart(s[..|s| - 1])
  }

  /** Appending one byte: the facts both position trackers rely on. */
  lemma LineFacts(s: Bytes, b: byte)
    ensures Newlines(s + [b]) == Newlines(s) + (if b == NEWLINE then 1 else 0)
    ensures LineStart(s + [b]) == if b == NEWLINE then |s| + 1 else LineStart(s)
  {
    assert (s + [b])[..|s + [b]| - 1] == s;
  }
}

/**
 * The line/column tracker that wraps a byte iterator for the streaming
 * reader: it passes every item through unchanged and counts lines, the
 * column within the current line, and the offset of the line's start.
 */
module LineCol {
  import opened Common

  /** One item of the wrapped iterator: a byte, or an I/O error passed through. */
  datatype Item = Byte(b: byte) | IoFailure(detail: Bytes)

  /**
   * The tracker. `input` is what the wrapped iterator has left to yield;
   * `col` counts the bytes of the current line consumed so far.
   */
  datatype LineColIterator = LineColIterator(input: seq<Item>, line: nat, col: nat, startOfLine: nat)

  function New(input: seq<Item>): (it: LineColIterator)
    ensures it.input == input
    ensures it.line == 1 && it.col == 0 && it.startOfLine == 0
    ensures Tracks(it, [])
  {
    LineColIterator(input, 1, 0, 0)
  }

  function ByteOffset(it: LineColIterator): nat {
    it.startOfLine + it.col
  }

  /** `Iterator::next`: the next item of the wrapped iterator, and the tracker after it. */
  function Next(it: LineColIterator): (r: (Option<Item>, LineColIterator))
    ensures |it.input| == 0 ==> r == (None, it)
    ensures |it.input| > 0 ==> r.0 == Some(it.input[0]) && r.1.input == it.input[1..]
    ensures |it.input| > 0 && it.input[0].Byte? && it.input[0].b == NEWLINE ==>
              r.1.startOfLine == it.startOfLine + it.col + 1 && r.1.line == it.line + 1 && r.1.col == 0
    ensures |it.input| > 0 && it.input[0].Byte? && it.input[0].b != NEWLINE ==>
              r.1.startOfLine == it.startOfLine && r.1.line == it.line && r.1.col == it.col + 1
    ensures |it.input| > 0 && it.input[0].IoFailure? ==>
              r.1.startOfLine == it.startOfLine && r.1.line == it.line && r.1.col == it.col
  {
    if |it.input| == 0 then (None, it)
    else
      var item := it.input[0];
      var rest := it.input[1..];
      match item
      case Byte(b) =>
        if b == NEWLINE then
          (Some(item), LineColIterator(rest, it.line + 1, 0, it.startOfLine + it.col + 1))
        else
          (Some(item), LineColIterator(rest, it.line, it.col + 1, it.startOfLine))
      case IoFailure(_) => (Some(item), it.(input := rest))
  }

  /** The bytes among a run of items, errors skipped. */
  function BytesOf(items: seq<Item>): (r: Bytes)
    ensures |r| <= |items|
  {
    if |items| == 0 then []
    else BytesOf(items[..|items| - 1]) + (if items[|items| - 1].Byte? then [items[|items| - 1].b] else [])
  }

  /**
   * The tracker's counters describe the bytes `consumed` so far: one line
   * per line feed plus one, the column is the length of the last line, and
   * the line starts where that last line starts.
   */
  predicate Tracks(it: LineColIterator, consumed: Bytes) {
    && it.line == 1 + Newlines(consumed)
    && it.col == |consumed| - LineStart(consumed)
    && it.startOfLine == LineStart(consumed)
  }

  /** `byte_offset` counts the bytes consumed so far. */
  lemma ByteOffsetCounts(it: LineColIterator, consumed: Bytes)
    requires Tracks(it, consumed)
    ensures ByteOffset(it) == |consumed|
  {
  }

  /** `next` keeps the counters in step with the bytes it hands out. */
  lemma NextTracks(it: LineColIterator, consumed: Bytes)
    requires Tracks(it, consumed) && |it.input| > 0
    ensures Tracks(Next(it).1, consumed + BytesOf([it.input[0]]))
  {
    assert BytesOf([it.input[0]]) == BytesOf([]) + (if it.input[0].Byte? then [it.input[0].b] else []);
    if it.input[0].Byte? {
      LineFacts(consumed, it.input[0].b);
    } else {
      assert consumed + BytesOf([it.input[0]]) == consumed;
    }
  }

  /** The tracker after `n` calls to `next`. */
  function Advance(it: LineColIterator, n: nat): (r: LineColIterator)
    requires n <= |it.input|
    ensures r.input == it.input[n..]
    decreases n
  {
    if n == 0 then it else Advance(Next(it).1, n - 1)
  }

  lemma BytesOfAppend(a: seq<Item>, b: seq<Item>)
    ensures BytesOf(a + b) == BytesOf(a) + BytesOf(b)
    decreases |b|
  {
    if |b| == 0 {
      assert a + b == a;
    } else {
      assert (a + b)[..|a + b| - 1] == a + b[..|b| - 1];
      BytesOfAppend(a, b[..|b| - 1]);
    }
  }

  /**
   * After `n` items of `input`, the tracker describes the bytes among
   * those items; in particular `byte_offset` is their number.
   */
  lemma {:induction false} AdvanceTracks(it: LineColIterator, consumed: Bytes, n: nat)
    requires Tracks(it, consumed) && n <= |it.input|
    ensures Tracks(Advance(it, n), consumed + BytesOf(it.input[..n]))
    decreases n
  {
    if n == 0 {
      assert it.input[..0] == [];
      assert consumed + BytesOf([]) == consumed;
    } else {
      var next := Next(it).1;
      var c' := consumed + BytesOf([it.input[0]]);
      NextTracks(it, consumed);
      AdvanceTracks(next, c', n - 1);
      AdvanceConsumed(it, consumed, n);
      assert Advance(it, n) == Advance(next, n - 1);
    }
  }

  /** The bytes consumed after the first item and `n - 1` more are those of the first `n` items. */
  lemma AdvanceConsumed(it: LineColIterator, consumed: Bytes, n: nat)
    requires 0 < n <= |it.input|
    ensures consumed + BytesOf([it.input[0]]) + BytesOf(Next(it).1.input[..n - 1]) == consumed + BytesOf(it.input[..n])
  {
    BytesOfFirst(it.input, n);
  }

  lemma BytesOfFirst(items: seq<Item>, n: nat)
    requires 0 < n <= |items|
    ensures BytesOf(items[..n]) == BytesOf([items[0]]) + BytesOf(items[1..][..n - 1])
  {
    assert items[..n] == [items[0]] + items[1..][..n - 1];
    BytesOfAppend([items[0]], items[1..][..n - 1]);
  }

  /** From a fresh tracker: line, column and offset after the first `n` items. */
  lemma FromStart(input: seq<Item>, n: nat)
    requires n <= |input|
    ensures var it := Advance(New(input), n);
            var bytes := BytesOf(input[..n]);
            && it.line == 1 + Newlines(bytes)
            && it.col == |bytes| - LineStart(bytes)
            && ByteOffset(it) == |bytes|
  {
    AdvanceTracks(New(input), [], n);
    assert [] + BytesOf(input[..n]) == BytesOf(input[..n]);
  }
}

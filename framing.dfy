/**
 * Line framing of the receiver (altitude_receiver.c, the byte loop of `main`):
 * bytes accumulate in a line buffer; a newline ends a line, and so does a full
 * buffer, in which case the byte that found the buffer full is dropped.
 */
module Framing {
  /** Size of `linebuf`; one byte is kept for the terminating NUL. */
  const LINE_BUF: nat := 8192
  const MAX_LINE: nat := LINE_BUF - 1

  /** What a line buffer can hold between two emissions: at most MAX_LINE bytes, no newline. */
  predicate Bounded(s: string) {
    |s| <= MAX_LINE && '\n' !in s
  }

  /** Lines emitted so far and the bytes still waiting for their terminator. */
  datatype Framed = Framed(lines: seq<string>, rest: string)

  /** One byte: a newline or a full buffer emits the buffer; any other byte is appended. */
  function FrameByte(buf: string, c: char): (f: Framed)
    ensures Bounded(buf) ==> Bounded(f.rest) && forall l <- f.lines :: Bounded(l)
  {
    if c == '\n' || |buf| >= MAX_LINE then Framed([buf], []) else Framed([], buf + [c])
  }

  /** The bytes `data` received after `buf`, framed. */
  function Frame(buf: string, data: string): (f: Framed)
    ensures Bounded(buf) ==> Bounded(f.rest) && forall l <- f.lines :: Bounded(l)
  {
    if data == [] then Framed([], buf)
    else
      var f := Frame(buf, data[..|data| - 1]);
      var g := FrameByte(f.rest, data[|data| - 1]);
      Framed(f.lines + g.lines, g.rest)
  }

  /** Chunk boundaries do not matter: framing `a + b` is framing `a`, then `b` from what `a` left. */
  lemma {:induction false} FrameAppend(buf: string, a: string, b: string)
    ensures var fa := Frame(buf, a);
      var fb := Frame(fa.rest, b);
      Frame(buf, a + b) == Framed(fa.lines + fb.lines, fb.rest)
  {
    if b == [] {
      assert a + b == a;
    } else {
      var b' := b[..|b| - 1];
      assert (a + b)[..|a + b| - 1] == a + b';
      assert (a + b)[|a + b| - 1] == b[|b| - 1];
      FrameAppend(buf, a, b');
    }
  }

  /** Bytes without a newline that fit in the buffer are only accumulated. */
  lemma {:induction false} FrameAccumulates(buf: string, s: string)
    requires '\n' !in s && |buf| + |s| <= MAX_LINE
    ensures Frame(buf, s) == Framed([], buf + s)
  {
    if s != [] {
      var s' := s[..|s| - 1];
      assert '\n' !in s' by { assert forall k :: 0 <= k < |s'| ==> s'[k] == s[k]; }
      FrameAccumulates(buf, s');
      assert buf + s' + [s[|s| - 1]] == buf + s;
    }
  }

  lemma FrameNewline(buf: string)
    ensures Frame(buf, "\n") == Framed([buf], [])
  {
    assert "\n"[..0] == [];
  }

  /** A newline emits exactly what accumulated since the previous emission, and empties the buffer. */
  lemma FrameLine(buf: string, s: string)
    requires '\n' !in s && |buf| + |s| <= MAX_LINE
    ensures Frame(buf, s + "\n") == Framed([buf + s], [])
  {
    FrameAccumulates(buf, s);
    FrameAppend(buf, s, "\n");
    FrameNewline(buf + s);
  }

  /** A full buffer is emitted by the next byte that is not a newline, and that byte is lost. */
  lemma {:induction false} ForcedFlush(s: string, c: char, t: string)
    requires |s| == MAX_LINE && '\n' !in s && c != '\n'
    ensures Frame([], s + [c] + t) == Frame([], t).(lines := [s] + Frame([], t).lines)
  {
    FrameAccumulates([], s);
    assert [] + s == s;
    FrameAppend([], s, [c]);
    assert [c][..0] == [];
    FrameAppend([], s + [c], t);
  }

  /** The text of `lines`, each terminated by a newline. */
  function Unlines(lines: seq<string>): (s: string)
    ensures |s| >= |lines|
  {
    if lines == [] then [] else lines[0] + "\n" + Unlines(lines[1..])
  }

  /** A complete line in front of framed text adds that line in front. */
  lemma FramePrependLine(l: string, x: string, f: Framed)
    requires Bounded(l) && Frame([], x) == f
    ensures Frame([], l + "\n" + x) == f.(lines := [l] + f.lines)
  {
    FrameLine([], l);
    assert [] + l == l;
    FrameAppend([], l + "\n", x);
  }

  /**
   * Complete lines that fit, followed by an unterminated tail that fits, frame to
   * exactly those lines, with the tail left in the buffer.
   */
  lemma {:induction false} FrameUnlines(lines: seq<string>, tail: string)
    requires forall l <- lines :: Bounded(l)
    requires Bounded(tail)
    ensures Frame([], Unlines(lines) + tail) == Framed(lines, tail)
  {
    if lines == [] {
      FrameAccumulates([], tail);
      assert [] + tail == tail;
    } else {
      FrameUnlines(lines[1..], tail);
      FramePrependLine(lines[0], Unlines(lines[1..]) + tail, Framed(lines[1..], tail));
      assert [lines[0]] + lines[1..] == lines;
      assert Unlines(lines) + tail == lines[0] + "\n" + (Unlines(lines[1..]) + tail);
    }
  }

  /** The example split mid-line: `"12,300.0\n13,30"` then `"0.5\n"` gives two lines. */
  lemma SplitRecordExample()
    ensures var f1 := Frame([], "12,300.0\n13,30");
      var f2 := Frame(f1.rest, "0.5\n");
      f1.lines + f2.lines == ["12,300.0", "13,300.5"] && f2.rest == []
  {
    var first, part, more := "12,300.0", "13,30", "0.5";
    assert Bounded(first) && Bounded(part) && '\n' !in more;
    assert ["12,300.0"][1..] == [];
    assert Unlines([first]) + part == "12,300.0\n13,30";
    FrameUnlines([first], part);
    assert more + "\n" == "0.5\n";
    FrameLine(part, more);
    assert part + more == "13,300.5";
  }
}

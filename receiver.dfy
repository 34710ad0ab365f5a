/**
 * The receiver's connection loop (altitude_receiver.c, `main`): receive a chunk,
 * frame its bytes into lines, and process each line as it is completed, until
 * end of stream, a receive error, or a termination signal.
 */
module Receiver {
  import opened Wrappers
  import opened Framing
  import opened Numbers
  import opened Detector

  /** The state that survives between two bytes: the pending line and the detector. */
  datatype Session = Session(buf: string, stream: Stream)

  const Start: Session := Session([], Fresh)

  /** A new connection starts in a reachable state: empty buffer, no baseline, both counters 0. */
  lemma StartReachable()
    ensures Reachable(Start)
  {
  }

  /** Every session the loop can reach satisfies this. */
  ghost predicate Reachable(s: Session) {
    Bounded(s.buf) && Consistent(s.stream)
  }

  /** One received byte: frame it, then process whatever line it completed. */
  function FeedByte(s: Session, c: char): (r: Session)
    ensures Reachable(s) ==> Reachable(r)
    ensures c != '\n' && |s.buf| < MAX_LINE ==> r == Session(s.buf + [c], s.stream)
  {
    var f := FrameByte(s.buf, c);
    Session(f.rest, Ingest(s.stream, f.lines))
  }

  /** A newline, or any byte arriving at a full buffer, hands the buffered line to the parser and empties the buffer. */
  lemma FeedByteFlush(s: Session, c: char)
    requires c == '\n' || |s.buf| >= MAX_LINE
    ensures FeedByte(s, c) == Session([], ProcessLine(s.stream, s.buf))
  {
    assert FrameByte(s.buf, c) == Framed([s.buf], []);
    IngestOne(s.stream, s.buf);
  }

  /** The bytes `data`, one after the other. */
  function Feed(s: Session, data: string): (r: Session)
    ensures Reachable(s) ==> Reachable(r)
  {
    if data == [] then s else FeedByte(Feed(s, data[..|data| - 1]), data[|data| - 1])
  }

  lemma {:induction false} FeedAppend(s: Session, a: string, b: string)
    ensures Feed(s, a + b) == Feed(Feed(s, a), b)
  {
    if b == [] {
      assert a + b == a;
    } else {
      var b' := b[..|b| - 1];
      assert (a + b)[..|a + b| - 1] == a + b';
      assert (a + b)[|a + b| - 1] == b[|b| - 1];
      FeedAppend(s, a, b');
    }
  }

  /**
   * Processing lines as they complete is the same as framing all the bytes
   * first and then processing the framed lines in order.
   */
  lemma {:induction false} FeedIsFrameThenIngest(s: Session, data: string)
    ensures var f := Frame(s.buf, data);
      Feed(s, data) == Session(f.rest, Ingest(s.stream, f.lines))
  {
    if data != [] {
      var d' := data[..|data| - 1];
      FeedIsFrameThenIngest(s, d');
      var f := Frame(s.buf, d');
      var g := FrameByte(f.rest, data[|data| - 1]);
      IngestAppend(s.stream, f.lines, g.lines);
    }
  }

  /**
   * What one call to `recv` reports: some bytes (none at all is end of
   * stream), an interruption by a signal (EINTR), another error, or
   * `Shutdown` when the loop finds `keep_running` cleared.
   */
  datatype RecvOutcome = Got(data: string) | Interrupted | Failed | Shutdown

  /** Whether the loop stops at this outcome. */
  predicate Stops(e: RecvOutcome) {
    e == Got([]) || e.Failed? || e.Shutdown?
  }

  /** The connection loop over a trace of receive outcomes. */
  function Run(s: Session, events: seq<RecvOutcome>): (r: Session)
    ensures Reachable(s) ==> Reachable(r)
    decreases |events|
  {
    if events == [] then s
    else match events[0]
      case Got(data) => if data == [] then s else Run(Feed(s, data), events[1..])
      case Interrupted => Run(s, events[1..])
      case Failed => s
      case Shutdown => s
  }

  /** The bytes the loop consumes from a trace: everything received before it stops. */
  function Payload(events: seq<RecvOutcome>): (p: string)
    ensures events != [] && Stops(events[0]) ==> p == []
  {
    if events == [] then []
    else match events[0]
      case Got(data) => if data == [] then [] else data + Payload(events[1..])
      case Interrupted => Payload(events[1..])
      case Failed => []
      case Shutdown => []
  }

  /** The loop is the byte-at-a-time feed of its payload: interruptions and chunk boundaries do not matter. */
  lemma {:induction false} RunIsFeedOfPayload(s: Session, events: seq<RecvOutcome>)
    ensures Run(s, events) == Feed(s, Payload(events))
    decreases |events|
  {
    if events != [] {
      match events[0]
      case Got(data) =>
        if data != [] {
          RunIsFeedOfPayload(Feed(s, data), events[1..]);
          FeedAppend(s, data, Payload(events[1..]));
        }
      case Interrupted =>
        RunIsFeedOfPayload(s, events[1..]);
      case Failed =>
      case Shutdown =>
    }
  }

  /** Two traces that deliver the same bytes leave the receiver in the same state. */
  lemma SamePayloadSameResult(s: Session, e1: seq<RecvOutcome>, e2: seq<RecvOutcome>)
    requires Payload(e1) == Payload(e2)
    ensures Run(s, e1) == Run(s, e2)
  {
    RunIsFeedOfPayload(s, e1);
    RunIsFeedOfPayload(s, e2);
  }

  /**
   * From a fresh connection, a payload of complete lines followed by an
   * unterminated fragment processes exactly those lines; the fragment is left
   * in the buffer and never parsed.
   */
  lemma TrailingFragmentDropped(events: seq<RecvOutcome>, lines: seq<string>, tail: string)
    requires Payload(events) == Unlines(lines) + tail
    requires forall l <- lines :: Bounded(l)
    requires Bounded(tail)
    ensures Run(Start, events) == Session(tail, Ingest(Fresh, lines))
  {
    RunIsFeedOfPayload(Start, events);
    FeedIsFrameThenIngest(Start, Unlines(lines) + tail);
    FrameUnlines(lines, tail);
  }

  /**
   * The receiver's connection state: the line buffer `linebuf` with its fill
   * level `linepos`, the previous altitude (None for NaN), the two counters,
   * and what has been written to the CSV sink and reported as anomalies.
   */
  class Receiver {
    const linebuf: array<char>
    var linepos: nat
    var prevAlt: Option<real>
    var total: nat
    var anomalies: nat
    var log: seq<Row>
    var alerts: seq<Alert>

    ghost predicate Valid()
      reads this, linebuf
    {
      linebuf.Length == LINE_BUF && linepos <= MAX_LINE && Bounded(linebuf[..linepos])
    }

    function State(): Stream
      reads this
    {
      Stream(prevAlt, total, anomalies, log, alerts)
    }

    /** The abstract session this object represents. */
    function View(): Session
      reads this, linebuf
      requires linepos <= linebuf.Length
    {
      Session(linebuf[..linepos], State())
    }

    constructor()
      ensures Valid() && View() == Start
      ensures Reachable(View())
    {
      linebuf := new char[LINE_BUF];
      linepos := 0;
      prevAlt := None;
      total := 0;
      anomalies := 0;
      log := [];
      alerts := [];
    }

    /** Parse one completed line; a value is handed to the detector, a failure only warned about. */
    method HandleLine(line: string)
      modifies this
      ensures State() == ProcessLine(old(State()), line)
      ensures linepos == old(linepos)
    {
      var parsed := Strtod(Candidate(line));
      Observe(parsed);
    }

    /** Count a parsed altitude, compare it with the baseline, and log it. */
    method Observe(parsed: Option<real>)
      modifies this
      ensures State() == Detector.Observe(old(State()), parsed)
      ensures linepos == old(linepos)
    {
      match parsed
      case None =>
      case Some(alt) =>
        total := total + 1;
        if prevAlt.Some? {
          var diff := Abs(alt - prevAlt.value);
          if diff > THRESHOLD {
            anomalies := anomalies + 1;
            alerts := alerts + [Alert(total, diff, prevAlt.value, alt)];
          }
        }
        prevAlt := Some(alt);
        log := log + [Row(total, alt)];
    }

    /** One byte of the receive buffer. */
    method Push(c: char)
      requires Valid()
      modifies this, linebuf
      ensures Valid()
      ensures View() == FeedByte(old(View()), c)
    {
      if c == '\n' || linepos >= LINE_BUF - 1 {
        FeedByteFlush(View(), c);
        Flush();
      } else {
        Append(c);
      }
    }

    /** Terminate the buffered line, process it, and start a new one. */
    method Flush()
      requires Valid()
      modifies this, linebuf
      ensures Valid()
      ensures linepos == 0 && State() == ProcessLine(old(State()), old(linebuf[..linepos]))
    {
      var line := linebuf[..linepos];
      linebuf[linepos] := '\0';
      linepos := 0;
      HandleLine(line);
    }

    /** Buffer one byte that ends no line. */
    method Append(c: char)
      requires Valid() && c != '\n' && linepos < MAX_LINE
      modifies this, linebuf
      ensures Valid()
      ensures View() == Session(old(linebuf[..linepos]) + [c], old(State()))
    {
      linebuf[linepos] := c;
      linepos := linepos + 1;
      assert linebuf[..linepos] == old(linebuf[..linepos]) + [c];
    }

    /** The bytes of one successful `recv`, in order. */
    method Receive(chunk: string)
      requires Valid()
      modifies this, linebuf
      ensures Valid()
      ensures View() == Feed(old(View()), chunk)
    {
      ghost var v0 := View();
      for i := 0 to |chunk|
        invariant Valid()
        invariant View() == Feed(v0, chunk[..i])
      {
        Push(chunk[i]);
        assert chunk[..i + 1][..i] == chunk[..i];
      }
      assert chunk[..|chunk|] == chunk;
    }

    /** The connection loop; returns the two counters printed in the summary. */
    method Serve(events: seq<RecvOutcome>) returns (samples: nat, jumps: nat)
      requires Valid()
      modifies this, linebuf
      ensures Valid()
      ensures View() == Run(old(View()), events)
      ensures Reachable(old(View())) ==> Reachable(View())
      ensures samples == total && jumps == anomalies
    {
      var i := 0;
      while i < |events|
        invariant i <= |events| && Valid()
        invariant Run(old(View()), events) == Run(View(), events[i..])
      {
        var e := events[i];
        if e.Interrupted? {
          i := i + 1;
          continue;
        } else if e.Failed? || e.Shutdown? || e.data == [] {
          break;
        }
        Receive(e.data);
        i := i + 1;
      }
      samples, jumps := total, anomalies;
    }
  }
}

/**
 * What the receiver does with one framed line (altitude_receiver.c, `main`):
 * select the field after the last comma, parse a numeric prefix, and feed a
 * successful parse to the single-previous-value anomaly detector, which also
 * appends the sample to the CSV sink.
 */
module Detector {
  import opened Wrappers
  import opened Numbers

  /** A jump strictly greater than this many feet between consecutive samples is an anomaly. */
  const THRESHOLD: real := 100.0

  /** One CSV row: the receipt counter and the altitude. */
  datatype Row = Row(index: nat, altitude: real)

  /** One `[ANOMALY]` report: the receipt counter, the jump, the previous and the current altitude. */
  datatype Alert = Alert(sample: nat, jump: real, prev: real, cur: real)

  /**
   * Per-connection state: `prev` is `prev_alt` (None where the source holds NaN),
   * `total` and `anomalies` are the counters; `log` and `alerts` are what has
   * been written to the sink and reported so far.
   */
  datatype Stream = Stream(prev: Option<real>, total: nat, anomalies: nat, log: seq<Row>, alerts: seq<Alert>)

  const Fresh: Stream := Stream(None, 0, 0, [], [])

  function Abs(x: real): (r: real)
    ensures r >= 0.0 && (r == x || r == -x)
  {
    if x < 0.0 then -x else x
  }

  predicate IsJump(prev: real, cur: real) {
    Abs(cur - prev) > THRESHOLD
  }

  /** The relations between the fields that every reachable state satisfies. */
  ghost predicate Consistent(st: Stream) {
    && |st.log| == st.total
    && |st.alerts| == st.anomalies
    && (st.prev.None? <==> st.total == 0)
    && (st.prev.Some? ==> st.prev.value == st.log[st.total - 1].altitude)
    && (forall j :: 0 <= j < |st.log| ==> st.log[j].index == j + 1)
    && (st.total == 0 ==> st.anomalies == 0)
    && (st.total > 0 ==> st.anomalies < st.total)
    && (forall a <- st.alerts :: 2 <= a.sample <= st.total && a.jump == Abs(a.cur - a.prev) > THRESHOLD)
  }

  /** A successfully parsed altitude. */
  function Accept(st: Stream, alt: real): (r: Stream)
    ensures r.total == st.total + 1 && r.prev == Some(alt)
    ensures r.log == st.log + [Row(r.total, alt)]
    ensures st.prev.None? ==> r.anomalies == st.anomalies && r.alerts == st.alerts
    ensures r.anomalies == st.anomalies + 1 <==> st.prev.Some? && IsJump(st.prev.value, alt)
    ensures r.anomalies != st.anomalies + 1 ==> r.anomalies == st.anomalies
    ensures Consistent(st) ==> Consistent(r)
  {
    var total := st.total + 1;
    if st.prev.Some? && IsJump(st.prev.value, alt) then
      var alert := Alert(total, Abs(alt - st.prev.value), st.prev.value, alt);
      Stream(Some(alt), total, st.anomalies + 1, st.log + [Row(total, alt)], st.alerts + [alert])
    else
      Stream(Some(alt), total, st.anomalies, st.log + [Row(total, alt)], st.alerts)
  }

  /**
   * An anomaly is reported with the receipt number of the sample, the jump,
   * and the previous and current altitudes; otherwise nothing is reported.
   */
  lemma AcceptAlert(st: Stream, alt: real)
    ensures var r := Accept(st, alt);
      r.alerts == st.alerts +
        if st.prev.Some? && IsJump(st.prev.value, alt) then [Alert(r.total, Abs(alt - st.prev.value), st.prev.value, alt)] else []
  {
  }

  /** A run of successfully parsed altitudes, in arrival order. */
  function Detect(st: Stream, alts: seq<real>): (r: Stream)
    ensures r.total == st.total + |alts|
    ensures Consistent(st) ==> Consistent(r)
  {
    if alts == [] then st else Accept(Detect(st, alts[..|alts| - 1]), alts[|alts| - 1])
  }

  /** The positions of the samples that differ from their predecessor by more than the threshold. */
  ghost function Jumps(alts: seq<real>): set<nat> {
    set j: nat | 1 <= j < |alts| && JumpAt(alts, j)
  }

  predicate JumpAt(alts: seq<real>, j: nat)
    requires 1 <= j < |alts|
  {
    IsJump(alts[j - 1], alts[j])
  }

  /** Appending a sample adds its position to the jumps exactly when it jumps from its predecessor. */
  lemma JumpsSnoc(alts: seq<real>, x: real)
    ensures |Jumps(alts + [x])| == |Jumps(alts)| + if alts != [] && IsJump(alts[|alts| - 1], x) then 1 else 0
  {
    var a := alts + [x];
    var n := |alts|;
    var extra: set<nat> := if n >= 1 && IsJump(alts[n - 1], x) then {n} else {};
    forall j | 1 <= j < n
      ensures JumpAt(a, j) == JumpAt(alts, j)
    {
      assert a[j] == alts[j] && a[j - 1] == alts[j - 1];
    }
    assert Jumps(a) == Jumps(alts) + extra;
    assert n !in Jumps(alts);
  }

  /**
   * From a fresh connection, the detector counts exactly the jumps between
   * consecutive samples, logs every sample under its receipt number and keeps
   * the last sample as baseline.
   */
  lemma {:induction false} DetectCountsJumps(alts: seq<real>)
    ensures var r := Detect(Fresh, alts);
      && r.total == |alts|
      && r.anomalies == |Jumps(alts)|
      && |r.log| == |alts|
      && (forall j :: 0 <= j < |alts| ==> r.log[j] == Row(j + 1, alts[j]))
      && r.prev == if alts == [] then None else Some(alts[|alts| - 1])
  {
    if alts != [] {
      var init, x := alts[..|alts| - 1], alts[|alts| - 1];
      DetectCountsJumps(init);
      assert alts == init + [x];
      JumpsSnoc(init, x);
    }
  }

  /** Two examples: one 200 ft jump among three samples; three samples 5 ft apart. */
  lemma DetectExamples()
    ensures var r := Detect(Fresh, [1000.0, 1000.5, 1200.5]);
      r.total == 3 && r.anomalies == 1 && r.alerts == [Alert(3, 200.0, 1000.5, 1200.5)]
    ensures var r := Detect(Fresh, [1000.0, 1005.0, 1010.0]);
      r.total == 3 && r.anomalies == 0
  {
    var a := [1000.0, 1000.5, 1200.5];
    assert a[..2][..1] == [1000.0] && a[..2][1] == 1000.5 && [1000.0][..0] == [];
    var b := [1000.0, 1005.0, 1010.0];
    assert b[..2][..1] == [1000.0] && b[..2][1] == 1005.0 && [1000.0][..0] == [];
  }

  /** The bytes C string functions see in a line: those before the first NUL. */
  function CString(line: string): (c: string)
    ensures c <= line && '\0' !in c
    ensures |c| < |line| ==> line[|c|] == '\0'
  {
    if line == [] || line[0] == '\0' then [] else [line[0]] + CString(line[1..])
  }

  /** The text after the last comma of `s`, or the whole of `s` when it has no comma. */
  function AfterLastComma(s: string): (f: string)
    ensures ',' !in f && |f| <= |s| && f == s[|s| - |f|..]
    ensures |f| < |s| ==> s[|s| - |f| - 1] == ','
  {
    if s == [] then []
    else if s[|s| - 1] == ',' then []
    else
      var f := AfterLastComma(s[..|s| - 1]) + [s[|s| - 1]];
      assert f == s[|s| - |f|..];
      f
  }

  /** The numeric candidate of a line (`numstr`): after the last comma, if any. */
  function Candidate(line: string): string {
    AfterLastComma(CString(line))
  }

  /** A line without a comma is its own candidate. */
  lemma CandidateWithoutComma(line: string)
    requires ',' !in line && '\0' !in line
    ensures Candidate(line) == line
  {
    assert CString(line) == line;
  }

  /** With a comma, the candidate is what follows the last one. */
  lemma CandidateAfterComma(head: string, field: string)
    requires ',' !in field && '\0' !in head && '\0' !in field
    ensures Candidate(head + "," + field) == field
  {
    var line := head + "," + field;
    assert '\0' !in line by {
      assert forall k :: 0 <= k < |line| ==> line[k] == (if k < |head| then head[k] else if k == |head| then ',' else field[k - |head| - 1]);
    }
    assert CString(line) == line;
    var f := AfterLastComma(line);
    assert line[|line| - |field| - 1] == ',';
    assert line[|line| - |field|..] == field;
  }

  /** The outcome of parsing one line: a failed parse only produces a warning. */
  function Observe(st: Stream, parsed: Option<real>): (r: Stream)
    ensures parsed.None? ==> r == st
    ensures parsed.Some? ==> r.total == st.total + 1 && r.prev == parsed
    ensures Consistent(st) ==> Consistent(r)
  {
    match parsed
    case None => st
    case Some(alt) => Accept(st, alt)
  }

  /** One framed line: rejected lines leave the state alone, others are accepted. */
  function ProcessLine(st: Stream, line: string): (r: Stream)
    ensures Strtod(Candidate(line)).None? ==> r == st
    ensures Strtod(Candidate(line)).Some? ==> r.total == st.total + 1 && r.prev == Strtod(Candidate(line))
    ensures Consistent(st) ==> Consistent(r)
  {
    Observe(st, Strtod(Candidate(line)))
  }

  /** A sequence of framed lines, in order. */
  function Ingest(st: Stream, lines: seq<string>): (r: Stream)
    ensures st.total <= r.total <= st.total + |lines|
    ensures Consistent(st) ==> Consistent(r)
  {
    if lines == [] then st else ProcessLine(Ingest(st, lines[..|lines| - 1]), lines[|lines| - 1])
  }

  lemma IngestOne(st: Stream, line: string)
    ensures Ingest(st, [line]) == ProcessLine(st, line)
  {
    assert [line][..0] == [];
  }

  /** Ingesting two batches in turn is ingesting their concatenation. */
  lemma {:induction false} IngestAppend(st: Stream, a: seq<string>, b: seq<string>)
    ensures Ingest(st, a + b) == Ingest(Ingest(st, a), b)
  {
    if b == [] {
      assert a + b == a;
    } else {
      var b' := b[..|b| - 1];
      assert (a + b)[..|a + b| - 1] == a + b';
      assert (a + b)[|a + b| - 1] == b[|b| - 1];
      IngestAppend(st, a, b');
    }
  }

  /** A line that does not parse is skipped: the lines around it are processed as if it were absent. */
  lemma RejectedLineInvisible(st: Stream, before: seq<string>, bad: string, after: seq<string>)
    requires Strtod(Candidate(bad)).None?
    ensures Ingest(st, before + [bad] + after) == Ingest(st, before + after)
  {
    IngestAppend(st, before + [bad], after);
    IngestSnoc(st, before, bad);
    IngestAppend(st, before, after);
  }

  lemma IngestSnoc(st: Stream, lines: seq<string>, line: string)
    ensures Ingest(st, lines + [line]) == ProcessLine(Ingest(st, lines), line)
  {
    assert (lines + [line])[..|lines|] == lines;
  }

  /** For instance, a line reading `abc` has no numeric prefix. */
  lemma AbcIsNotANumber()
    ensures Strtod(Candidate("abc")).None?
  {
    CandidateWithoutComma("abc");
    assert SkipSpaces("abc", 0) == 0;
    assert MantissaAt("abc", 0).digits == 0;
  }

  /** Lines that all parse feed their values to the detector in order. */
  lemma {:induction false} IngestParsed(st: Stream, lines: seq<string>, alts: seq<real>)
    requires |lines| == |alts|
    requires forall j :: 0 <= j < |lines| ==>
      Strtod(Candidate(lines[j])).Some? && Strtod(Candidate(lines[j])).value == alts[j]
    ensures Ingest(st, lines) == Detect(st, alts)
  {
    if lines != [] {
      var n := |lines| - 1;
      IngestParsed(st, lines[..n], alts[..n]);
      assert lines[n] == lines[|lines| - 1];
    }
  }
}

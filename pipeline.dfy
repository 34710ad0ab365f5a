/**
 * The two programs connected: the bytes the streamer's loop delivers, as the
 * receiver's loop frames them, selects their last field and parses it.
 */
module Pipeline {
  import opened Wrappers
  import opened Numbers
  import opened Framing
  import opened Transport
  import opened Detector
  import opened Receiver
  import opened Streamer

  /** No record line holds a comma after its first field, a NUL or a newline. */
  lemma LineChars(i: nat, alt: real)
    ensures ',' !in Format3(alt) && '\0' !in Format3(alt) && '\n' !in Format3(alt)
    ensures ',' !in Decimal(i + 1) && '\0' !in Decimal(i + 1) && '\n' !in Decimal(i + 1)
    ensures '\n' !in Line(i, alt) && '\0' !in Line(i, alt)
  {
    FormatMilliChars(Milli(alt));
    var d := Decimal(i + 1);
    assert forall k :: 0 <= k < |d| ==> IsDigit(d[k]);
    assert Line(i, alt) == d + "," + Format3(alt);
  }

  /**
   * The field the receiver's last-comma rule selects from record `i` is the
   * `%.3f` text of its altitude, and it parses back to that altitude rounded
   * to the thousandth.
   */
  lemma RecordDecodes(i: nat, alt: real)
    ensures Candidate(Line(i, alt)) == Format3(alt)
    ensures Strtod(Candidate(Line(i, alt))) == Some(Round3(alt))
  {
    LineChars(i, alt);
    CandidateAfterComma(Decimal(i + 1), Format3(alt));
    Format3RoundTrip(alt);
  }

  /** With calm turbulence every record line fits the receiver's line buffer. */
  lemma LinesBounded(n: nat, inject: int, turb: seq<real>)
    requires n <= |turb| && n <= INT_MAX && Calm(turb)
    ensures forall l <- Lines(n, inject, turb) :: Bounded(l)
  {
    var ls := Lines(n, inject, turb);
    forall j | 0 <= j < n
      ensures Bounded(ls[j])
    {
      LinesAt(n, j, inject, turb);
      RecordFits(j, inject, turb);
      LineChars(j, Altitude(j + 1, inject, turb));
    }
  }

  /** The altitudes the receiver reads back from the first `count` records. */
  function Received(count: nat, inject: int, turb: seq<real>): seq<real>
    requires count <= |turb|
  {
    seq(count, j requires 0 <= j < count => Round3(Altitude(j + 1, inject, turb)))
  }

  lemma ReceivedAt(count: nat, j: nat, inject: int, turb: seq<real>)
    requires j < count <= |turb|
    ensures |Received(count, inject, turb)| == count
    ensures Received(count, inject, turb)[j] == Round3(Altitude(j + 1, inject, turb))
  {
  }

  /**
   * Two consecutive received altitudes, of records `j` and `j + 1` (1-based),
   * are more than 100 ft apart exactly when step `j` (0-based) was the spike.
   */
  lemma JumpIffSpike(j: nat, inject: int, turb: seq<real>)
    requires j < |turb| && Calm(turb)
    ensures IsJump(Round3(Altitude(j, inject, turb)), Round3(Altitude(j + 1, inject, turb))) <==> IsSpike(j, inject)
  {
    var a, b := Altitude(j, inject, turb), Altitude(j + 1, inject, turb);
    assert b == a + Step(j, inject, turb[j]);
    assert -TURBULENCE <= turb[j] <= TURBULENCE;
  }

  /** Only the spike is reported, and only when it is not the first record received. */
  lemma ReceivedJumps(count: nat, inject: int, turb: seq<real>)
    requires count <= |turb| && Calm(turb)
    ensures Jumps(Received(count, inject, turb)) == if 1 <= inject < count then {inject as nat} else {}
  {
    var alts := Received(count, inject, turb);
    forall j | 1 <= j < count
      ensures JumpAt(alts, j) <==> j == inject
    {
      JumpIffSpike(j, inject, turb);
    }
    if 1 <= inject < count {
      assert JumpAt(alts, inject as nat);
    }
  }

  /**
   * What goes over the connection when the streamer's loop has delivered
   * `count` records in full and `partial` bytes of the next.
   */
  function Wire(lines: seq<string>, d: Delivery): string
    requires d.count <= |lines|
  {
    Unlines(lines[..d.count]) + d.partial
  }

  /**
   * A receiver that gets the delivered bytes in order, in chunks of any size
   * and with any interruptions, up to the end of the stream, ingests exactly
   * the records delivered in full and keeps the partial one in its buffer.
   */
  lemma ReceiverSees(n: nat, inject: int, turb: seq<real>, replies: seq<seq<SendReply>>, events: seq<RecvOutcome>)
    requires n <= |turb| && n <= INT_MAX && Calm(turb) && n == |replies|
    requires Payload(events) == Wire(Lines(n, inject, turb), Deliver(Lines(n, inject, turb), replies, 0))
    ensures var d := Deliver(Lines(n, inject, turb), replies, 0);
      Run(Start, events) == Session(d.partial, Ingest(Fresh, Lines(n, inject, turb)[..d.count]))
  {
    var lines := Lines(n, inject, turb);
    var d := Deliver(lines, replies, 0);
    LinesBounded(n, inject, turb);
    DeliverPartial(lines, replies, 0);
    if d.count < n {
      assert '\n' !in d.partial by {
        assert Bounded(lines[d.count]);
        assert d.partial == lines[d.count][..|d.partial|];
      }
    }
    TrailingFragmentDropped(events, lines[..d.count], d.partial);
  }

  /** The first `count` records, ingested in order, feed the detector their rounded altitudes. */
  lemma IngestRecords(n: nat, count: nat, inject: int, turb: seq<real>)
    requires count <= n <= |turb|
    ensures Ingest(Fresh, Lines(n, inject, turb)[..count]) == Detect(Fresh, Received(count, inject, turb))
  {
    var sent := Lines(n, inject, turb)[..count];
    var alts := Received(count, inject, turb);
    forall j | 0 <= j < count
      ensures Strtod(Candidate(sent[j])).Some? && Strtod(Candidate(sent[j])).value == alts[j]
    {
      LinesAt(n, j, inject, turb);
      RecordDecodes(j, Altitude(j + 1, inject, turb));
    }
    IngestParsed(Fresh, sent, alts);
  }

  /**
   * The detector over the altitudes of the first `count` records: it counts
   * them all, logs each under its receipt number, and flags one jump exactly
   * when the spike fell on a record after the first.
   */
  lemma DetectReceived(count: nat, inject: int, turb: seq<real>)
    requires count <= |turb| && Calm(turb)
    ensures var r := Detect(Fresh, Received(count, inject, turb));
      && r.total == count
      && (forall j :: 0 <= j < count ==> r.log[j] == Row(j + 1, Round3(Altitude(j + 1, inject, turb))))
      && r.anomalies == if 1 <= inject < count then 1 else 0
  {
    var alts := Received(count, inject, turb);
    var r := Detect(Fresh, alts);
    DetectCountsJumps(alts);
    forall j | 0 <= j < count
      ensures r.log[j] == Row(j + 1, Round3(Altitude(j + 1, inject, turb)))
    {
      assert r.log[j] == Row(j + 1, alts[j]);
      ReceivedAt(count, j, inject, turb);
    }
    ReceivedJumps(count, inject, turb);
  }

  /**
   * The streamer's loop against that receiver: the receiver counts exactly the
   * records delivered in full, logs record `j + 1` under receipt number `j + 1`
   * with its altitude rounded to the thousandth, leaves the partial record in
   * its buffer unparsed, and reports one anomaly exactly when the spike fell
   * on a record after the first among those delivered.
   */
  lemma EndToEnd(n: nat, inject: int, turb: seq<real>, replies: seq<seq<SendReply>>, events: seq<RecvOutcome>)
    requires n <= |turb| && n <= INT_MAX && Calm(turb) && n == |replies|
    requires Payload(events) == Wire(Lines(n, inject, turb), Deliver(Lines(n, inject, turb), replies, 0))
    ensures var d := Deliver(Lines(n, inject, turb), replies, 0);
      var s := Run(Start, events);
      && s.buf == d.partial
      && s.stream.total == d.count
      && (forall j :: 0 <= j < d.count ==> s.stream.log[j] == Row(j + 1, Round3(Altitude(j + 1, inject, turb))))
      && s.stream.anomalies == if 1 <= inject < d.count then 1 else 0
  {
    var d := Deliver(Lines(n, inject, turb), replies, 0);
    ReceiverSees(n, inject, turb, replies, events);
    IngestRecords(n, d.count, inject, turb);
    DetectReceived(d.count, inject, turb);
  }
}

/**
 * The streamer's generation loop (altitude_streamer.c, `main`): a random walk
 * from 1000 ft that climbs 2 ft per step plus turbulence, with an optional
 * 150 ft spike at one chosen step, each sample sent as a `<n>,<altitude>`
 * record until the duration is reached or a send fails.
 */
module Streamer {
  import opened Numbers
  import opened Framing
  import opened Transport

  const DEFAULT_DURATION: int := 60
  /** Size of the record buffer `out`. */
  const BUFFER_SZ: nat := 128
  const INT_MAX: int := 0x7fff_ffff
  const START_ALTITUDE: real := 1000.0
  const STEADY_INC: real := 2.0
  const SPIKE: real := 150.0
  /** Turbulence is drawn from [-TURBULENCE, TURBULENCE]. */
  const TURBULENCE: real := 10.0

  /** The defaulting rule of `main`: a value that is not positive is replaced by its default. The model applies it to the duration. */
  function OrDefault(v: int, default: int): (r: int)
    requires default > 0
    ensures r > 0
    ensures v > 0 ==> r == v
    ensures v <= 0 ==> r == default
  {
    if v <= 0 then default else v
  }

  /** Whether step `i` (0-based) is the injected spike; a negative `inject` disables it. */
  predicate IsSpike(i: nat, inject: int) {
    inject >= 0 && i == inject
  }

  /** The change of altitude at step `i`, given the turbulence drawn for it. */
  function Step(i: nat, inject: int, turbulence: real): (d: real)
    ensures IsSpike(i, inject) ==> d == SPIKE
    ensures !IsSpike(i, inject) && -TURBULENCE <= turbulence <= TURBULENCE ==> -8.0 <= d <= 12.0
  {
    if IsSpike(i, inject) then SPIKE else STEADY_INC + turbulence
  }

  /** Turbulence as `rand` produces it: every draw within [-10, 10]. */
  predicate Calm(turb: seq<real>) {
    forall k :: 0 <= k < |turb| ==> -TURBULENCE <= turb[k] <= TURBULENCE
  }

  /** The altitude after `k` steps, `turb[i]` being the turbulence of step `i`. */
  function Altitude(k: nat, inject: int, turb: seq<real>): real
    requires k <= |turb|
  {
    if k == 0 then START_ALTITUDE else Altitude(k - 1, inject, turb) + Step(k - 1, inject, turb[k - 1])
  }

  /** The altitudes after steps 1 to `k`, in order. */
  function Altitudes(k: nat, inject: int, turb: seq<real>): (w: seq<real>)
    requires k <= |turb|
    ensures |w| == k
  {
    if k == 0 then [] else Altitudes(k - 1, inject, turb) + [Altitude(k, inject, turb)]
  }

  /** Entry `j` of the walk is the altitude after step `j`, counted from 0. */
  lemma {:induction false} AltitudesAt(k: nat, j: nat, inject: int, turb: seq<real>)
    requires j < k <= |turb|
    ensures Altitudes(k, inject, turb)[j] == Altitude(j + 1, inject, turb)
    decreases k
  {
    if j < k - 1 {
      AltitudesAt(k - 1, j, inject, turb);
    }
  }

  /** The `samples` array of `n` entries once the first `w` altitudes are written; `calloc` zeroed the rest. */
  function Samples(w: nat, n: nat, inject: int, turb: seq<real>): (a: seq<real>)
    requires w <= n <= |turb|
    ensures |a| == n
  {
    Altitudes(w, inject, turb) + seq(n - w, _ => 0.0)
  }

  /** Entry `j` holds the altitude of record `j + 1` once written, and 0 before. */
  lemma SamplesAt(w: nat, n: nat, j: nat, inject: int, turb: seq<real>)
    requires w <= n <= |turb| && j < n
    ensures Samples(w, n, inject, turb)[j] == if j < w then Altitude(j + 1, inject, turb) else 0.0
  {
    if j < w {
      AltitudesAt(w, j, inject, turb);
    }
  }

  /** Writing the altitude after step `w` into entry `w` extends the written prefix by one. */
  lemma WriteSample(w: nat, n: nat, inject: int, turb: seq<real>)
    requires w < n <= |turb|
    ensures Samples(w, n, inject, turb)[w := Altitude(w + 1, inject, turb)] == Samples(w + 1, n, inject, turb)
  {
    var a := Samples(w, n, inject, turb)[w := Altitude(w + 1, inject, turb)];
    var b := Samples(w + 1, n, inject, turb);
    forall j | 0 <= j < n
      ensures a[j] == b[j]
    {
      SamplesAt(w, n, j, inject, turb);
      SamplesAt(w + 1, n, j, inject, turb);
    }
  }

  /** The steps among the first `n` that are the spike. */
  function SpikeSteps(n: nat, inject: int): set<nat> {
    set i: nat | i < n && IsSpike(i, inject)
  }

  /** The spike happens at most once: exactly once when `0 <= inject < n`, never otherwise. */
  lemma SpikeAtMostOnce(n: nat, inject: int)
    ensures SpikeSteps(n, inject) == if 0 <= inject < n then {inject as nat} else {}
    ensures |SpikeSteps(n, inject)| == if 0 <= inject < n then 1 else 0
  {
    if 0 <= inject < n {
      assert inject as nat in SpikeSteps(n, inject);
      assert SpikeSteps(n, inject) == {inject as nat};
    } else {
      assert SpikeSteps(n, inject) == {};
    }
  }

  /**
   * With calm turbulence, after `k` steps the walk lies between 8 ft of descent
   * and 12 ft of climb per ordinary step, plus exactly 150 ft if the spike has happened.
   */
  lemma {:induction false} AltitudeRange(k: nat, inject: int, turb: seq<real>)
    requires k <= |turb| && Calm(turb)
    ensures var s := if 0 <= inject < k then 1 else 0;
      && START_ALTITUDE - 8.0 * (k - s) as real + SPIKE * s as real <= Altitude(k, inject, turb)
      && Altitude(k, inject, turb) <= START_ALTITUDE + 12.0 * (k - s) as real + SPIKE * s as real
  {
    if k > 0 {
      AltitudeRange(k - 1, inject, turb);
      var d := Step(k - 1, inject, turb[k - 1]);
      assert -TURBULENCE <= turb[k - 1] <= TURBULENCE;
    }
  }

  /** The text of record `i` (0-based) without its newline: `%d,%.3f` of `i + 1` and the altitude. */
  function Line(i: nat, alt: real): string {
    Decimal(i + 1) + "," + Format3(alt)
  }

  /** The record sent for sample `i`: the line and its newline. */
  function Record(i: nat, alt: real): string {
    Line(i, alt) + "\n"
  }

  /** Over any run an `int` duration allows, the walk stays within tens of billions of feet. */
  lemma AltitudeMagnitude(k: nat, inject: int, turb: seq<real>)
    requires k <= |turb| && Calm(turb) && k <= INT_MAX
    ensures -20_000_000_000.0 < Altitude(k, inject, turb) < 30_000_000_000.0
  {
    AltitudeRange(k, inject, turb);
  }

  lemma MilliMagnitude(x: real)
    requires -20_000_000_000.0 < x < 30_000_000_000.0
    ensures (if Milli(x) < 0 then -Milli(x) else Milli(x)) / 1000 < Pow10(11)
  {
    assert Pow10(11) == 100_000_000_000;
    var r := Round3(x);
    assert Milli(x) as real == 1000.0 * r;
  }

  /**
   * With calm turbulence, every record fits in the 128-byte buffer with room
   * for the terminating NUL, so `snprintf` never truncates one.
   */
  lemma RecordFits(i: nat, inject: int, turb: seq<real>)
    requires i < |turb| && Calm(turb) && i < INT_MAX
    ensures |Record(i, Altitude(i + 1, inject, turb))| < BUFFER_SZ
  {
    var alt := Altitude(i + 1, inject, turb);
    assert Pow10(10) == 10_000_000_000;
    DecimalLength(i + 1, 10);
    AltitudeMagnitude(i + 1, inject, turb);
    MilliMagnitude(alt);
    FormatMilliLength(Milli(alt), 11);
  }

  /** The records of the first `n` steps, without their newlines, in loop order. */
  function Lines(n: nat, inject: int, turb: seq<real>): (ls: seq<string>)
    requires n <= |turb|
    ensures |ls| == n
  {
    if n == 0 then [] else Lines(n - 1, inject, turb) + [Line(n - 1, Altitude(n, inject, turb))]
  }

  /** Record `j` carries the sample number `j + 1` and the altitude after step `j`. */
  lemma {:induction false} LinesAt(n: nat, j: nat, inject: int, turb: seq<real>)
    requires j < n <= |turb|
    ensures Lines(n, inject, turb)[j] == Line(j, Altitude(j + 1, inject, turb))
    decreases n
  {
    if j < n - 1 {
      LinesAt(n - 1, j, inject, turb);
    }
  }

  /**
   * What the loop delivers: how many records went out in full, and the bytes
   * that went out of the record whose send did not complete.
   */
  datatype Delivery = Delivery(count: nat, partial: string)

  /**
   * The send side of the loop from record `i` on: record `k` goes out with its
   * newline through `send_all`, against the replies `replies[k]` that `send`
   * gives during that call, and the loop stops at the first record that does
   * not go out in full.
   */
  function Deliver(lines: seq<string>, replies: seq<seq<SendReply>>, i: nat): (d: Delivery)
    requires i <= |lines| == |replies|
    ensures i <= d.count <= |lines|
    decreases |lines| - i
  {
    if i == |lines| then Delivery(i, [])
    else
      var r := Transmit(|lines[i]| + 1, 0, replies[i]);
      if r.status == Complete then Deliver(lines, replies, i + 1)
      else Delivery(i, (lines[i] + "\n")[..r.sent])
  }

  /**
   * When every record went out the partial record is empty; otherwise it is a
   * prefix of the record that failed, never reaching its newline.
   */
  lemma {:induction false} DeliverPartial(lines: seq<string>, replies: seq<seq<SendReply>>, i: nat)
    requires i <= |lines| == |replies|
    ensures var d := Deliver(lines, replies, i);
      (d.count == |lines| ==> d.partial == []) &&
      (d.count < |lines| ==> |d.partial| <= |lines[d.count]| && d.partial == lines[d.count][..|d.partial|])
    decreases |lines| - i
  {
    if i < |lines| {
      var r := Transmit(|lines[i]| + 1, 0, replies[i]);
      if r.status == Complete {
        DeliverPartial(lines, replies, i + 1);
      } else {
        assert (lines[i] + "\n")[..r.sent] == lines[i][..r.sent];
      }
    }
  }

  /**
   * The loop stops at the first record whose `send_all` fails: every record
   * before `count` went out in full, and record `count`, if any, did not, with
   * the partial bytes being exactly what its `send_all` got out.
   */
  lemma {:induction false} DeliverStops(lines: seq<string>, replies: seq<seq<SendReply>>, i: nat)
    requires i <= |lines| == |replies|
    ensures var d := Deliver(lines, replies, i);
      && (forall k :: i <= k < d.count ==> Transmit(|lines[k]| + 1, 0, replies[k]).status == Complete)
      && (d.count < |lines| ==>
            Transmit(|lines[d.count]| + 1, 0, replies[d.count]).status != Complete &&
            |d.partial| == Transmit(|lines[d.count]| + 1, 0, replies[d.count]).sent)
    decreases |lines| - i
  {
    if i < |lines| {
      var r := Transmit(|lines[i]| + 1, 0, replies[i]);
      if r.status == Complete {
        DeliverStops(lines, replies, i + 1);
      }
    }
  }

  /**
   * Lines 110-118 of one step: format record `i` into `out`, which always fits
   * the buffer so the encoding check never stops the loop, and send it whole.
   * The delivery from record `i` on is this send followed, when it completes,
   * by the delivery from record `i + 1` on.
   */
  method SendRecord(i: nat, altitude: real, replies: seq<seq<SendReply>>,
                    ghost n: nat, ghost inject: int, ghost turb: seq<real>)
    returns (out: string, status: SendStatus, sent: nat)
    requires i < n <= |turb| && i < INT_MAX && Calm(turb) && n == |replies|
    requires altitude == Altitude(i + 1, inject, turb)
    ensures status == Complete ==>
      Deliver(Lines(n, inject, turb), replies, i) == Deliver(Lines(n, inject, turb), replies, i + 1)
    ensures status != Complete ==>
      sent <= |out| && Deliver(Lines(n, inject, turb), replies, i) == Delivery(i, out[..sent])
  {
    RecordFits(i, inject, turb);
    out := Record(i, altitude);
    LinesAt(n, i, inject, turb);
    var calls;
    status, sent, calls := SendAll(out, replies[i]);
  }

  /**
   * Lines 100-107 of one step: the altitude after step `i - 1` moves by the
   * spike or by the steady climb plus `turb[i]`, and the result is stored in
   * `samples[i]`, the slot of record `i + 1`.
   */
  method Advance(samples: array<real>, i: nat, altitude: real, inject: int, turb: seq<real>)
    returns (next: real)
    requires i < samples.Length <= |turb|
    requires altitude == Altitude(i, inject, turb)
    requires samples[..] == Samples(i, samples.Length, inject, turb)
    modifies samples
    ensures next == Altitude(i + 1, inject, turb)
    ensures samples[..] == Samples(i + 1, samples.Length, inject, turb)
  {
    if inject >= 0 && i == inject {
      next := altitude + SPIKE;
    } else {
      next := altitude + STEADY_INC + turb[i];
    }
    WriteSample(i, samples.Length, inject, turb);
    ghost var before := samples[..];
    samples[i] := next;
    assert samples[..] == before[i := next];
  }

  /**
   * The generation loop of `main` (lines 99-128): `turb[i]` is the turbulence
   * drawn at step `i`, `replies[i]` what `send` reports during the `send_all`
   * of record `i`. The loop stops at the first record that does not go out in
   * full; `count` records went out in full and `partial` holds the bytes of the
   * record whose send failed. The `samples` entries written are those of the
   * steps taken, the failed one included.
   */
  method SendSamples(samples: array<real>, inject: int, turb: seq<real>, replies: seq<seq<SendReply>>)
    returns (count: nat, partial: string)
    requires samples.Length <= |turb| && samples.Length <= INT_MAX && Calm(turb)
    requires samples.Length == |replies|
    requires samples[..] == Samples(0, samples.Length, inject, turb)
    modifies samples
    ensures Delivery(count, partial) == Deliver(Lines(samples.Length, inject, turb), replies, 0)
    ensures count <= samples.Length
    ensures count < samples.Length ==> samples[..] == Samples(count + 1, samples.Length, inject, turb)
    ensures count == samples.Length ==> samples[..] == Samples(count, samples.Length, inject, turb)
  {
    var n := samples.Length;
    ghost var lines := Lines(n, inject, turb);
    var altitude := START_ALTITUDE;
    count, partial := 0, [];
    while count < n
      invariant count <= n
      invariant altitude == Altitude(count, inject, turb)
      invariant samples[..] == Samples(count, n, inject, turb)
      invariant Deliver(lines, replies, 0) == Deliver(lines, replies, count)
      invariant partial == []
    {
      var i := count;
      altitude := Advance(samples, i, altitude, inject, turb);
      var out, status, sent := SendRecord(i, altitude, replies, n, inject, turb);
      if status != Complete {
        partial := out[..sent];
        break;
      }
      count := count + 1;
    }
  }

  /**
   * `main` from the parameter defaults on (lines 66-67 and 94-128): the
   * duration falls back to 60 when not positive, `samples` starts zeroed as
   * `calloc` leaves it, and the loop runs over it.
   */
  method Generate(duration: int, inject: int, turb: seq<real>, replies: seq<seq<SendReply>>)
    returns (samples: array<real>, count: nat, partial: string)
    requires duration <= INT_MAX && Calm(turb)
    requires OrDefault(duration, DEFAULT_DURATION) <= |turb|
    requires OrDefault(duration, DEFAULT_DURATION) == |replies|
    ensures samples.Length == OrDefault(duration, DEFAULT_DURATION)
    ensures Delivery(count, partial) == Deliver(Lines(samples.Length, inject, turb), replies, 0)
    ensures count <= samples.Length
    ensures count < samples.Length ==> samples[..] == Samples(count + 1, samples.Length, inject, turb)
    ensures count == samples.Length ==> samples[..] == Samples(count, samples.Length, inject, turb)
  {
    var n := OrDefault(duration, DEFAULT_DURATION);
    samples := new real[n](_ => 0.0);
    assert samples[..] == Samples(0, n, inject, turb);
    count, partial := SendSamples(samples, inject, turb, replies);
  }
}

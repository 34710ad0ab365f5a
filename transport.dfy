/**
 * The streamer's partial-write retry loop (altitude_streamer.c, `send_all`):
 * keep calling `send` on the unsent suffix until every byte has gone out,
 * retrying an interrupted call and giving up on a zero return or an error.
 */
module Transport {
  /**
   * What one call to `send` reports: a byte count (zero included), an
   * interruption by a signal (a negative return with EINTR), or another error.
   */
  datatype SendReply = Wrote(n: nat) | Interrupted | Error

  /**
   * `Complete` is the 0 return and `Failed` the -1 return; `Stalled` means the
   * trace of replies ended while the loop still had bytes to send.
   */
  datatype SendStatus = Complete | Failed | Stalled

  /** How a call ended, how many bytes went out, and how many replies it consumed. */
  datatype SendResult = SendResult(status: SendStatus, sent: nat, calls: nat)

  /** The bytes reported by the `Wrote` replies of a trace. */
  function Written(replies: seq<SendReply>): nat {
    if replies == [] then 0
    else (if replies[0].Wrote? then replies[0].n else 0) + Written(replies[1..])
  }

  /**
   * The loop of `send_all` for a buffer of `len` bytes, `sent` of them already
   * out: it reports success exactly when every byte has gone out.
   */
  function Transmit(len: nat, sent: nat, replies: seq<SendReply>): (r: SendResult)
    ensures r.status == Complete <==> r.sent >= len
    decreases |replies|
  {
    if sent >= len then SendResult(Complete, sent, 0)
    else if replies == [] then SendResult(Stalled, sent, 0)
    else
      var rest := replies[1..];
      match replies[0]
      case Interrupted =>
        var r := Transmit(len, sent, rest);
        SendResult(r.status, r.sent, r.calls + 1)
      case Error => SendResult(Failed, sent, 1)
      case Wrote(n) =>
        if n == 0 then SendResult(Failed, sent, 1)
        else
          var r := Transmit(len, sent + n, rest);
          SendResult(r.status, r.sent, r.calls + 1)
  }

  /**
   * The loop consumes at most the replies it is given, counts exactly the bytes
   * its `Wrote` replies report, stalls only once they are all used up, and
   * fails only on a zero return or an error.
   */
  lemma {:induction false} TransmitAccounts(len: nat, sent: nat, replies: seq<SendReply>)
    ensures var r := Transmit(len, sent, replies);
      r.calls <= |replies| && r.sent == sent + Written(replies[..r.calls]) &&
      (r.status == Stalled ==> r.calls == |replies|) &&
      (r.status == Failed ==> 0 < r.calls && replies[r.calls - 1] in {Wrote(0), Error})
    decreases |replies|
  {
    if sent < len && replies != [] {
      var rest := replies[1..];
      match replies[0]
      case Interrupted =>
        TransmitAccounts(len, sent, rest);
        var q := Transmit(len, sent, rest);
        assert replies[..q.calls + 1] == [replies[0]] + rest[..q.calls];
      case Error =>
        assert replies[..1] == [replies[0]];
      case Wrote(n) =>
        if n == 0 {
          assert replies[..1] == [replies[0]];
        } else {
          TransmitAccounts(len, sent + n, rest);
          var q := Transmit(len, sent + n, rest);
          assert replies[..q.calls + 1] == [replies[0]] + rest[..q.calls];
        }
    } else {
      assert replies[..0] == [];
    }
  }

  /** A well-behaved `send` never reports more bytes than it was offered. */
  predicate Honest(len: nat, sent: nat, replies: seq<SendReply>)
    decreases |replies|
  {
    sent >= len || replies == [] ||
    match replies[0]
    case Wrote(n) => sent + n <= len && Honest(len, sent + n, replies[1..])
    case Interrupted => Honest(len, sent, replies[1..])
    case Error => true
  }

  /** Against a well-behaved `send`, the loop never counts more bytes than the buffer holds. */
  lemma {:induction false} HonestNeverOvershoots(len: nat, sent: nat, replies: seq<SendReply>)
    requires sent <= len && Honest(len, sent, replies)
    ensures Transmit(len, sent, replies).sent <= len
    ensures Transmit(len, sent, replies).status == Complete ==> Transmit(len, sent, replies).sent == len
    decreases |replies|
  {
    if sent < len && replies != [] {
      match replies[0]
      case Interrupted => HonestNeverOvershoots(len, sent, replies[1..]);
      case Error =>
      case Wrote(n) =>
        if n > 0 {
          HonestNeverOvershoots(len, sent + n, replies[1..]);
        }
    }
  }

  /** An interrupted call changes nothing but the number of calls. */
  lemma InterruptedRetries(len: nat, sent: nat, replies: seq<SendReply>)
    requires sent < len
    ensures var r := Transmit(len, sent, [Interrupted] + replies);
      var q := Transmit(len, sent, replies);
      r.status == q.status && r.sent == q.sent && r.calls == q.calls + 1
  {
    assert ([Interrupted] + replies)[1..] == replies;
  }

  /** A zero return and an error both end the loop at once with the failure status. */
  lemma StopsOnZeroOrError(len: nat, sent: nat, reply: SendReply, replies: seq<SendReply>)
    requires sent < len && reply in {Wrote(0), Error}
    ensures Transmit(len, sent, [reply] + replies) == SendResult(Failed, sent, 1)
  {
  }

  /** The loop itself: `buf` is the record, `replies` what the successive calls to `send` report. */
  method SendAll(buf: string, replies: seq<SendReply>) returns (status: SendStatus, sent: nat, calls: nat)
    ensures SendResult(status, sent, calls) == Transmit(|buf|, 0, replies)
  {
    sent, calls := 0, 0;
    while sent < |buf|
      invariant calls <= |replies|
      invariant var r := Transmit(|buf|, sent, replies[calls..]);
        Transmit(|buf|, 0, replies) == SendResult(r.status, r.sent, r.calls + calls)
      decreases |replies| - calls
    {
      if calls == |replies| {
        return Stalled, sent, calls;
      }
      var reply := replies[calls];
      assert replies[calls..][1..] == replies[calls + 1..];
      calls := calls + 1;
      if reply.Interrupted? {
        continue;
      }
      if reply.Error? || reply.n == 0 {
        return Failed, sent, calls;
      }
      sent := sent + reply.n;
    }
    status := Complete;
  }
}

# Altitude streamer and receiver, modelled in Dafny

The system has two small C programs, joined by a TCP connection.

- `altitude_streamer` walks an altitude from 1000 ft:
  - each step climbs 2 ft plus turbulence drawn from [-10, 10];
  - one chosen step can instead be a deterministic 150 ft spike;
  - each sample is sent as a text record `<n>,<altitude>\n`, using `send_all`, a partial-write retry loop.
- `altitude_receiver` reads the connection in chunks:
  - it frames the bytes into lines in a fixed 8192-byte buffer that survives between chunks;
  - it picks the text after the last comma of each line and parses it as a number;
  - it counts the samples and flags a jump of more than 100 ft from the previous sample as an anomaly.

The model covers:

- the receiver's ingestion loop in `main`;
- the streamer's `send_all`;
- the streamer's parameter defaults and its generation loop.

It also proves what happens when the two are connected.

Modules, one per file:

- `Wrappers`: `Option`.
- `Numbers`: decimal digits and `strtod`, as a decimal-prefix parser over real numbers. Also `%d` and `%.3f` formatting, with `%.3f` rounding to the nearest thousandth.
- `Framing`: the line framer as a pure function of the bytes received: a newline or a full buffer emits the buffered line.
- `Detector`: the NUL cut-off that C string functions apply, the last-comma field selection, and the anomaly detector (`prev_alt`, `total`, `anomalies`, the sink rows and the alerts).
- `Receiver`: the receive loop over a trace of `recv` outcomes. Holds the class `Receiver`, whose `linebuf` array, `linepos` and counters are updated in place byte by byte. Each method is proved against the pure functions of the other modules.
- `Transport`: `send_all` as the method `SendAll` over a trace of `send` replies. It is proved against the function `Transmit`.
- `Streamer`: the random walk, the record text, and the generation loop (`SendSamples`, `Generate`) over a `samples` array. The loop is proved against the specification functions `Samples`, `Lines` and `Deliver`.
- `Pipeline`: the records the streamer delivers, read by the receiver.

`inject_second` is compared with the 0-based loop index (altitude_streamer.c line 101), so the spike lands on record `inject_second + 1`. As a consequence, a spike injected at step 0 is the first sample received, so it is never reported.

## Model

Source paths are `Elangomani_Assignment_Sarla_Aviation/…`; "receiver" and "streamer" below mean those two C files.

| member | source | states |
|---|---|---|
| Framing.Frame | Elangomani_Assignment_Sarla_Aviation/altitude_receiver.c:112-145 | From a buffer that fits, the buffer never exceeds 8191 bytes or holds a newline, and neither does any emitted line |
| Framing.FrameByte | Elangomani_Assignment_Sarla_Aviation/altitude_receiver.c:113-144 | One byte keeps the buffer within 8191 bytes and newline-free, and any line it emits too |
| Framing.FrameAppend | Elangomani_Assignment_Sarla_Aviation/altitude_receiver.c:95-96 | Framing is independent of chunk boundaries: `a` then `b` emits the same lines and leaves the same buffer as `a + b` |
| Framing.FrameAccumulates | Elangomani_Assignment_Sarla_Aviation/altitude_receiver.c:142-143 | Bytes without a newline that fit the buffer are only appended; nothing is emitted |
| Framing.FrameLine | Elangomani_Assignment_Sarla_Aviation/altitude_receiver.c:114-141 | A newline emits exactly the bytes accumulated since the last emission, without the newline, and empties the buffer |
| Framing.ForcedFlush | Elangomani_Assignment_Sarla_Aviation/altitude_receiver.c:114-143 | With 8191 bytes buffered, a non-newline byte emits the buffer and is itself discarded, not carried into the next line |
| Framing.FrameUnlines | Elangomani_Assignment_Sarla_Aviation/altitude_receiver.c:112-145 | Complete lines that fit, followed by an unterminated fragment, frame to exactly those lines, with the fragment left buffered |
| Framing.SplitRecordExample | Elangomani_Assignment_Sarla_Aviation/altitude_receiver.c:95-96 | `"12,300.0\n13,30"` then `"0.5\n"` emit `"12,300.0"` and `"13,300.5"` and leave the buffer empty |
| Detector.CString | Elangomani_Assignment_Sarla_Aviation/altitude_receiver.c:115-121 | What `strrchr`/`strtod` see is the longest NUL-free prefix of the line, ending at its first NUL |
| Detector.AfterLastComma | Elangomani_Assignment_Sarla_Aviation/altitude_receiver.c:117-118 | The selected field is a comma-free suffix of the line; when it is shorter than the line, a comma precedes it, so it follows the last comma |
| Detector.Candidate | Elangomani_Assignment_Sarla_Aviation/altitude_receiver.c:115-118 | Defines `numstr`: the text after the last comma of the line as C string functions see it, or that whole text. Its properties are stated by `Detector.AfterLastComma`, `Detector.CandidateWithoutComma` and `Detector.CandidateAfterComma` |
| Detector.CandidateWithoutComma | Elangomani_Assignment_Sarla_Aviation/altitude_receiver.c:118 | A line without a comma (or NUL) is parsed whole |
| Detector.CandidateAfterComma | Elangomani_Assignment_Sarla_Aviation/altitude_receiver.c:117-118 | For `head,field` with a comma-free field, the text parsed is exactly `field` |
| Numbers.Strtod | Elangomani_Assignment_Sarla_Aviation/altitude_receiver.c:119-122 | A value is produced exactly when a numeric prefix follows the leading white space, i.e. exactly when `endptr` would move |
| Detector.AbcIsNotANumber | Elangomani_Assignment_Sarla_Aviation/altitude_receiver.c:121-123 | The line `abc` has no numeric prefix and is rejected |
| Detector.Abs | Elangomani_Assignment_Sarla_Aviation/altitude_receiver.c:127 | `fabs` is non-negative and is `x` or `-x` |
| Detector.IsJump | Elangomani_Assignment_Sarla_Aviation/altitude_receiver.c:127-128 | Defines the anomaly test `fabs(alt - prev_alt) > 100.0`, strictly greater. It is used by `Detector.Accept` and counted by `Detector.DetectCountsJumps` |
| Detector.Accept | Elangomani_Assignment_Sarla_Aviation/altitude_receiver.c:124-136 | `total` grows by exactly 1. `prev_alt` becomes the new value whether or not it jumped. The sink row is `(total, alt)`. `anomalies` grows by 1 exactly when a previous value exists and the jump exceeds 100 ft, else stays. The first sample is never an anomaly. The state invariant (`anomalies < total` once `total > 0`, rows numbered by receipt) is preserved |
| Detector.AcceptAlert | Elangomani_Assignment_Sarla_Aviation/altitude_receiver.c:128-132 | An anomaly appends exactly one alert holding the receipt number `total`, the jump `fabs(alt - prev_alt)`, the previous and the current value; any other sample appends none |
| Detector.Observe | Elangomani_Assignment_Sarla_Aviation/altitude_receiver.c:119-124 | A failed parse leaves the state unchanged; a success increments `total` and replaces the baseline |
| Detector.ProcessLine | Elangomani_Assignment_Sarla_Aviation/altitude_receiver.c:115-140 | A line whose field does not parse leaves the state unchanged; one that parses counts once and becomes the baseline; the invariant is kept |
| Detector.Ingest | Elangomani_Assignment_Sarla_Aviation/altitude_receiver.c:112-145 | A batch of lines raises `total` by at most the number of lines and keeps the invariant |
| Detector.IngestAppend | Elangomani_Assignment_Sarla_Aviation/altitude_receiver.c:102-145 | Processing two batches of lines in turn is processing their concatenation |
| Detector.RejectedLineInvisible | Elangomani_Assignment_Sarla_Aviation/altitude_receiver.c:119-123 | A line that does not parse has no effect: the lines around it are processed as if it were absent |
| Detector.Detect | Elangomani_Assignment_Sarla_Aviation/altitude_receiver.c:125-136 | A run of parsed values raises `total` by its length and keeps the invariant |
| Detector.DetectCountsJumps | Elangomani_Assignment_Sarla_Aviation/altitude_receiver.c:125-136 | From a fresh connection: `total` is the number of values; `anomalies` is the number of consecutive pairs more than 100 ft apart; row `j` is `(j + 1, value j)`; the baseline is the last value |
| Detector.DetectExamples | Elangomani_Assignment_Sarla_Aviation/altitude_receiver.c:126-133 | 1000.0, 1000.5, 1200.5 gives three samples and one alert for sample 3 (jump 200). 1000, 1005, 1010 gives none |
| Detector.IngestParsed | Elangomani_Assignment_Sarla_Aviation/altitude_receiver.c:117-136 | Lines whose fields all parse feed the detector exactly their values, in order |
| Receiver.StartReachable | Elangomani_Assignment_Sarla_Aviation/altitude_receiver.c:94-100 | A new connection starts with the invariant: empty bounded buffer, no baseline, `total` and `anomalies` 0 |
| Receiver.FeedByte | Elangomani_Assignment_Sarla_Aviation/altitude_receiver.c:113-144 | A byte that neither ends nor overflows the line is appended and nothing else changes; every reachable state stays reachable |
| Receiver.FeedByteFlush | Elangomani_Assignment_Sarla_Aviation/altitude_receiver.c:114-141 | A newline or a byte at a full buffer processes the buffered line and empties the buffer |
| Receiver.Feed | Elangomani_Assignment_Sarla_Aviation/altitude_receiver.c:112-145 | Feeding bytes keeps the buffer bounded and the detector's invariant |
| Receiver.FeedAppend | Elangomani_Assignment_Sarla_Aviation/altitude_receiver.c:95-96 | Feeding `a` then `b` gives the same lines, counters and buffer as feeding `a + b` |
| Receiver.FeedIsFrameThenIngest | Elangomani_Assignment_Sarla_Aviation/altitude_receiver.c:112-145 | Processing lines as they complete equals framing all bytes first, then processing the framed lines in order |
| Receiver.Run | Elangomani_Assignment_Sarla_Aviation/altitude_receiver.c:102-111 | The receive loop keeps every reachable state reachable |
| Receiver.Stops | Elangomani_Assignment_Sarla_Aviation/altitude_receiver.c:103-111 | Defines when the receive loop ends: end of stream (an empty `recv`), an error other than EINTR, or `keep_running` cleared. `Receiver.Payload` and `Receiver.RunIsFeedOfPayload` state its effect |
| Receiver.Payload | Elangomani_Assignment_Sarla_Aviation/altitude_receiver.c:103-111 | A trace that starts with end of stream, an error or a shutdown delivers no bytes |
| Receiver.RunIsFeedOfPayload | Elangomani_Assignment_Sarla_Aviation/altitude_receiver.c:102-111 | The loop is the byte-by-byte feed of what it received before stopping. EINTR retries change nothing, and so do chunk boundaries |
| Receiver.SamePayloadSameResult | Elangomani_Assignment_Sarla_Aviation/altitude_receiver.c:102-111 | Two traces delivering the same bytes end in the same state |
| Receiver.TrailingFragmentDropped | Elangomani_Assignment_Sarla_Aviation/altitude_receiver.c:108-111 | At end of stream, complete lines are processed and the unterminated tail stays in the buffer, never parsed |
| Receiver.Receiver.constructor | Elangomani_Assignment_Sarla_Aviation/altitude_receiver.c:94-100 | An empty buffer of 8192 bytes, `prev_alt` absent, both counters 0; the state satisfies the invariant, so `anomalies < total` once `total > 0` and `anomalies == 0` while `total == 0` |
| Receiver.Receiver.HandleLine | Elangomani_Assignment_Sarla_Aviation/altitude_receiver.c:115-140 | The fields become `ProcessLine` of the old state; `linepos` is untouched |
| Receiver.Receiver.Observe | Elangomani_Assignment_Sarla_Aviation/altitude_receiver.c:122-139 | The field updates of one parse outcome are `Detector.Observe` of the old state |
| Receiver.Receiver.Push | Elangomani_Assignment_Sarla_Aviation/altitude_receiver.c:113-144 | One byte moves the object to `FeedByte` of its old view, keeping `linepos <= 8191` |
| Receiver.Receiver.Flush | Elangomani_Assignment_Sarla_Aviation/altitude_receiver.c:114-141 | The buffered bytes `linebuf[..linepos]` are processed as one line and `linepos` becomes 0 |
| Receiver.Receiver.Append | Elangomani_Assignment_Sarla_Aviation/altitude_receiver.c:142-143 | `linebuf[linepos++] = c`: the buffer gains exactly `c`, counters untouched |
| Receiver.Receiver.Receive | Elangomani_Assignment_Sarla_Aviation/altitude_receiver.c:112-145 | One received chunk moves the object to `Feed` of its old view |
| Receiver.Receiver.Serve | Elangomani_Assignment_Sarla_Aviation/altitude_receiver.c:102-150 | The connection loop moves the object to `Run` of its old view, keeps the invariant, and returns the summary counters `total` and `anomalies` |
| Transport.Transmit | Elangomani_Assignment_Sarla_Aviation/altitude_streamer.c:46-57 | `send_all` reports success exactly when every byte has gone out |
| Transport.TransmitAccounts | Elangomani_Assignment_Sarla_Aviation/altitude_streamer.c:48-55 | `sent` is exactly the sum of the positive counts `send` reported. The loop uses no more replies than it is given. It fails only right after a zero return or a non-EINTR error |
| Transport.HonestNeverOvershoots | Elangomani_Assignment_Sarla_Aviation/altitude_streamer.c:48-56 | Against a `send` that never reports more than it was offered, `sent` never exceeds `len`, and success means `sent == len` |
| Transport.InterruptedRetries | Elangomani_Assignment_Sarla_Aviation/altitude_streamer.c:51 | An EINTR return is retried with `sent` unchanged; only the call count grows |
| Transport.StopsOnZeroOrError | Elangomani_Assignment_Sarla_Aviation/altitude_streamer.c:50-53 | A zero return or any other error fails at once with `sent` unchanged |
| Transport.SendAll | Elangomani_Assignment_Sarla_Aviation/altitude_streamer.c:46-57 | The loop's status, byte count and call count are those of `Transmit` over the same replies |
| Streamer.OrDefault | Elangomani_Assignment_Sarla_Aviation/altitude_streamer.c:66-67 | A non-positive value is replaced by its default; a positive one is kept; the result is positive. `Streamer.Generate` applies it to the duration with default 60 |
| Streamer.IsSpike | Elangomani_Assignment_Sarla_Aviation/altitude_streamer.c:101 | Defines the spike test `inject_second >= 0 && i == inject_second` on the 0-based step. `Streamer.SpikeAtMostOnce` states that it holds at most once |
| Streamer.Step | Elangomani_Assignment_Sarla_Aviation/altitude_streamer.c:101-106 | The spike step is exactly +150.0; with turbulence in [-10, 10] every other step lies in [-8, 12] |
| Streamer.SpikeAtMostOnce | Elangomani_Assignment_Sarla_Aviation/altitude_streamer.c:101-102 | Among `n` steps the spike occurs exactly once if `0 <= inject_second < n`, never otherwise (negative, or beyond the duration) |
| Streamer.Altitude | Elangomani_Assignment_Sarla_Aviation/altitude_streamer.c:96-106 | Defines the running `altitude` after `k` steps from 1000.0, each step given by `Streamer.Step`. Its bounds are stated by `Streamer.AltitudeRange` and `Streamer.AltitudeMagnitude`, and its spike jump by `Pipeline.JumpIffSpike` |
| Streamer.AltitudeRange | Elangomani_Assignment_Sarla_Aviation/altitude_streamer.c:96-106 | After `k` steps from 1000.0 the altitude lies within 8 ft of descent and 12 ft of climb per ordinary step, plus 150 ft if the spike happened |
| Streamer.AltitudeMagnitude | Elangomani_Assignment_Sarla_Aviation/altitude_streamer.c:99-106 | Over any `int` duration the walk stays between -2e10 and 3e10 ft |
| Streamer.RecordFits | Elangomani_Assignment_Sarla_Aviation/altitude_streamer.c:109-114 | Every record, newline included, is shorter than the 128-byte `out` buffer, so `snprintf` never truncates one and `send_all` never reads past `out` |
| Streamer.AltitudesAt | Elangomani_Assignment_Sarla_Aviation/altitude_streamer.c:107 | Entry `j` of the walk is the altitude after step `j` |
| Streamer.SamplesAt | Elangomani_Assignment_Sarla_Aviation/altitude_streamer.c:107 | Entry `j` of `samples` holds the altitude of record `j + 1` once written, and 0 from `calloc` before |
| Streamer.WriteSample | Elangomani_Assignment_Sarla_Aviation/altitude_streamer.c:107 | Writing step `w`'s altitude into `samples[w]` extends the written prefix by one, in loop order |
| Streamer.Line | Elangomani_Assignment_Sarla_Aviation/altitude_streamer.c:110 | Defines the `%d,%.3f` text of record `i`: `i + 1` in decimal, a comma, the altitude to three decimals. `Pipeline.LineChars` states that its only comma separates the fields, and `Pipeline.RecordDecodes` that the receiver reads the altitude back |
| Streamer.Record | Elangomani_Assignment_Sarla_Aviation/altitude_streamer.c:110 | Defines the record sent: the line and one trailing newline. `Streamer.RecordFits` states that it fits `out` |
| Streamer.LinesAt | Elangomani_Assignment_Sarla_Aviation/altitude_streamer.c:110 | Record `j` carries number `j + 1` and the altitude after step `j`; records are numbered 1, 2, … in order |
| Streamer.Deliver | Elangomani_Assignment_Sarla_Aviation/altitude_streamer.c:116-118 | The records delivered in full from record `i` on are at least `i` and at most all of them |
| Streamer.DeliverStops | Elangomani_Assignment_Sarla_Aviation/altitude_streamer.c:116-118 | The loop stops at the first failed send: every record before `count` went out in full, record `count` (if any) did not, and the partial bytes are exactly what its `send_all` got out |
| Streamer.DeliverPartial | Elangomani_Assignment_Sarla_Aviation/altitude_streamer.c:116-118 | If every record went out there is no partial record. Otherwise the bytes sent of the failed one are a prefix of its text and never reach its newline |
| Streamer.Advance | Elangomani_Assignment_Sarla_Aviation/altitude_streamer.c:100-107 | One step applies the spike or steady rule and stores the new altitude in `samples[i]`, so entries `0..i` hold records `1..i+1` |
| Streamer.SendRecord | Elangomani_Assignment_Sarla_Aviation/altitude_streamer.c:109-118 | Formatting and sending record `i` either completes it, and delivery continues from `i + 1`, or stops the loop with `count = i` and the bytes sent |
| Streamer.SendSamples | Elangomani_Assignment_Sarla_Aviation/altitude_streamer.c:99-128 | The loop delivers exactly `Deliver` of the records: a prefix in order, stopped at the first failed send. `samples` holds the altitudes of the steps taken, including the failed one, and zeros after |
| Streamer.Generate | Elangomani_Assignment_Sarla_Aviation/altitude_streamer.c:66-128 | `samples` has the defaulted duration's length, and the loop over it delivers and records as `SendSamples` states |
| Numbers.Decimal | Elangomani_Assignment_Sarla_Aviation/altitude_streamer.c:110 | `%d` of a natural number: non-empty digits without a leading zero whose value is the number |
| Numbers.DecimalLength | Elangomani_Assignment_Sarla_Aviation/altitude_streamer.c:110 | A number below `10^k` takes at most `k` digits |
| Numbers.Milli | Elangomani_Assignment_Sarla_Aviation/altitude_streamer.c:110 | Defines the altitude in thousandths, rounded to the nearest with halves up, as `%.3f` shows it. `Numbers.Round3` states the rounding error |
| Numbers.FormatMilli | Elangomani_Assignment_Sarla_Aviation/altitude_streamer.c:110 | Defines the text of a count of thousandths: an optional minus, the integral digits, a point and three digits. `Numbers.FormatMilliRoundTrip` states that `strtod` reads it back, and `Numbers.FormatMilliLength` bounds its length |
| Numbers.Format3 | Elangomani_Assignment_Sarla_Aviation/altitude_streamer.c:110 | Defines `%.3f` of an altitude, its thousandths rendered by `Numbers.FormatMilli`. `Numbers.Format3RoundTrip` states that `strtod` reads back the altitude rounded to the thousandth |
| Numbers.Round3 | Elangomani_Assignment_Sarla_Aviation/altitude_streamer.c:110 | The value `%.3f` shows is within half a thousandth of the altitude |
| Numbers.FormatMilliLength | Elangomani_Assignment_Sarla_Aviation/altitude_streamer.c:110 | `%.3f` of a value below `10^k` in magnitude takes at most `k + 5` characters |
| Numbers.StrtodFixed | Elangomani_Assignment_Sarla_Aviation/altitude_receiver.c:121 | `strtod` of `[-]digits.digits` succeeds with the decimal value of the text |
| Numbers.FormatMilliRoundTrip | Elangomani_Assignment_Sarla_Aviation/altitude_receiver.c:121 | `strtod` reads `m` thousandths back from their `%.3f` text |
| Numbers.Format3RoundTrip | Elangomani_Assignment_Sarla_Aviation/altitude_streamer.c:110 | `strtod` of `%.3f` of `x` gives `x` rounded to the thousandth, within 0.0005 of `x` |
| Pipeline.LineChars | Elangomani_Assignment_Sarla_Aviation/altitude_streamer.c:110 | The number and the altitude text of a record hold no comma, NUL or newline, so the record's only comma separates them |
| Pipeline.RecordDecodes | Elangomani_Assignment_Sarla_Aviation/altitude_receiver.c:117-121 | The receiver's last-comma rule picks exactly the altitude text of a streamer record, which parses to the altitude rounded to the thousandth |
| Pipeline.LinesBounded | Elangomani_Assignment_Sarla_Aviation/altitude_streamer.c:109-110 | Every record line fits the receiver's 8191-byte line buffer and holds no newline |
| Pipeline.JumpIffSpike | Elangomani_Assignment_Sarla_Aviation/altitude_streamer.c:101-105 | Two consecutive received altitudes differ by more than 100 ft exactly when the step between them was the spike |
| Pipeline.ReceivedJumps | Elangomani_Assignment_Sarla_Aviation/altitude_receiver.c:125-133 | Among `count` received records, only record `inject_second + 1` jumps, and only when `1 <= inject_second < count` |
| Pipeline.DetectReceived | Elangomani_Assignment_Sarla_Aviation/altitude_receiver.c:125-136 | The detector counts all received records, logs record `j + 1` with its rounded altitude, and counts one anomaly exactly when the spike fell after the first record |
| Pipeline.ReceiverSees | Elangomani_Assignment_Sarla_Aviation/altitude_receiver.c:102-145 | A receiver given the delivered bytes, in any chunking, ingests exactly the full records and keeps the partial one buffered |
| Pipeline.IngestRecords | Elangomani_Assignment_Sarla_Aviation/altitude_receiver.c:117-136 | Ingesting the first `count` records is detecting their rounded altitudes in order |
| Pipeline.EndToEnd | Elangomani_Assignment_Sarla_Aviation/altitude_streamer.c:99-128 | Streamer to receiver: `total` equals the records delivered in full. Row `j` is `(j + 1, rounded altitude of record j + 1)`. The partial record is never parsed. `anomalies` is 1 exactly when the spike is on a delivered record other than the first, else 0 |

## Left out

- Sockets are not modelled: `start_server`, `connect_to_server`, `accept`, `close` and address conversion are operating-system I/O. `recv` is a trace of outcomes (`Got`, `Interrupted`, `Failed`). `send` is a trace of replies (`Wrote`, `Interrupted`, `Error`).
- The received chunks may have any length. The 1024-byte bound of `recvbuf` is not modelled, since framing does not depend on chunk boundaries.
- Signal handling is not modelled. Clearing `keep_running` is the outcome `Shutdown`, taken before a `recv`.
- No file or console output is modelled: the CSV sink, `printf` and `perror` are left out. The sink is the sequence `log` of `(total, altitude)` rows, and the anomaly messages are the sequence `alerts`.
- `srand`, `rand`, `time` and `sleep` are not modelled. Turbulence is an input sequence with every entry in [-10, 10], and `turb[i]` is the draw of step `i`. The C program draws only on non-spike steps, so its draws are this sequence with the spike's entry skipped.
- Altitudes are real numbers, not IEEE doubles; NaN appears only as "no previous sample".
- `strtod` is modelled as a decimal parser: leading white space, sign, digits, fraction, exponent. It does not model hexadecimal input, `inf`/`nan`, locales or `ERANGE`, so `errno` never makes a parse fail.
- `%.3f` is modelled as rounding to the nearest thousandth with halves rounded up. The C library rounds the binary value, so ties and `-0.000` may print differently.
- Parsing the command line with `atoi` is not modelled. `Streamer.Generate` takes the parsed duration and applies the rule of line 66 to it through `Streamer.OrDefault`. The port (line 67) is used only by `connect_to_server`, which is not modelled, so its default is not applied anywhere.
- `calloc` failure is not modelled. `Streamer.Generate` requires the defaulted duration to fit `int` and to have one turbulence draw and one reply trace per step.
- The `written < 0` branch of lines 111-114 has no counterpart: the model's formatter cannot fail. `Streamer.RecordFits` proves that no record is truncated.
- Receiver.Run: a trace of `recv` outcomes that runs out without end of stream, an error or `Shutdown` ends the run, and `Receiver.Receiver.Serve` then returns the counters. The C loop would still be blocked in `recv` and would print no summary.
- `Transport.SendStatus.Stalled` stands for a trace of replies that runs out before the record is sent. The C program would then block in `send`; `Streamer.Deliver` treats it as a stop.
- The replies of `send` are given per record, `replies[i]` for the `send_all` of record `i`. This is a partition of one reply trace: a record that completes consumes only its own replies.
- Receiver.Receiver.Flush resets `linepos` before processing the line, while the C code resets it afterwards (line 141). Processing works on a copy of `linebuf[..linepos]` and does not read `linepos`, so the final state is the same.
- Receiver.Receiver.Serve does not copy each chunk into a `recvbuf` array. It reads the bytes of `Got(data)` directly.
- Pipeline.EndToEnd assumes that the connection delivers the bytes the streamer sent, in order and unchanged, then reports end of stream. TCP's guarantees are not modelled.

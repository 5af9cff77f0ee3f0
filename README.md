# COP-5518 in Dafny: stop-and-wait ARQ and the Collatz stopping-time histogram

This project models two programs from the COP-5518 repository and proves properties of those models.

**The stop-and-wait ARQ protocol.** It has three parties:

- **The sender** (`Sending`). It cuts a message into chunks of at most nine characters, where only the last chunk can be shorter, and frames each as a datagram of at most ten bytes. A datagram is a sequence digit, 0 or 1, followed by the chunk. The sender resends a datagram until an acknowledgment that trims to its digit arrives, then flips the bit.
- **The receiver** (`Receiving`). It trims each datagram and parses the first character with `Character.getNumericValue`. When that digit is the expected bit, it appends the rest to its buffer and flips the expected bit. It acknowledges every datagram it parses with the decimal text of the value `getNumericValue` gave: the digit itself for '0' to '9', "10" to "35" for a Latin letter, and "-1" for any other ASCII character. When a chunk ends with `.`, it reports the buffer and empties it.
- **The network emulator** (`Emulator`). It relays datagrams between ports 5000 and 5001. For each packet it decides the packet's fate:
  1. drop it, if the loss draw is below the loss percentage;
  2. otherwise delay it by 1500 to 1999 ms, if the delay draw is below the delay percentage;
  3. otherwise corrupt it, by complementing its first byte, if the error draw is below the error percentage;
  4. otherwise forward it.

`EndToEnd` composes the sender and the receiver over a loss-free channel.

**The Collatz program** (`Collatz`). It computes the stopping time of 1..N, capped at 1000, and collects the times in a 1001-bucket histogram. It prints the nonzero buckets from 1 to 1000.

`JavaStrings` holds the ASCII behaviour of the Java library calls the endpoints use:

- `String.trim`;
- `String.valueOf(int)`;
- `Character.getNumericValue`;
- `endsWith`;
- the cut of a datagram to its receive buffer.

The models take the same form as the source:

- **Mutable objects become classes:**
  - `Sending.Sender` holds the sequence bit.
  - `Receiving.Receiver` holds the expected bit and the `StringBuilder` buffer.
  - `Collatz.Workload` holds the shared counter and the histogram array.
- **Loops become methods with invariants.** The protocol and stopping-time loops are proved against the functions that specify them: `Transmit`, `DeliverAll`, `Relay` and `StoppingTime`. `Workload.Work` is proved against the bucket counts `CountIn`, `NonzeroRows` states its rows by quantified `ensures`, and `CorruptPacket` is proved against `Complemented`.
- **In-place corruption stays in place.** The emulator's corruption works on an `array<bv8>`.

Everything from outside the program is an input:

- the acknowledgment events the sender observes;
- the datagrams the receiver and the relay get;
- the emulator's random draws.

The Collatz step uses Dafny's `%` and `/`. Java's `%` truncates where Dafny's is Euclidean, but they agree here for every input, negative ones included. The step tests only whether `num % 2` is zero, and it halves only even numbers.

## Model

| member | source | states |
|---|---|---|
| JavaStrings.Prefix | src/Receiver.java:24-27 | A datagram read into a buffer keeps min(length, capacity) characters, and they are a prefix of what was sent |
| JavaStrings.Trim | src/Receiver.java:27 | `String.trim`, defined by its body as stripping the front and then the back; `TrimSpec`, `TrimStartSpec`, `TrimEndSpec` and `TrimKeeps` state what it yields |
| JavaStrings.TrimSpec | src/Receiver.java:27 | `trim` yields the slice left after cutting every leading and trailing character at most U+0020; the result neither starts nor ends with such a character |
| JavaStrings.TrimStartSpec | src/Receiver.java:27 | Stripping the front removes exactly the leading characters at most U+0020 |
| JavaStrings.TrimEndSpec | src/Receiver.java:27 | Stripping the back removes exactly the trailing characters at most U+0020 |
| JavaStrings.TrimKeeps | src/Receiver.java:27 | A text that does not start with such a character keeps its first character; a text whose two ends are not such characters is unchanged |
| JavaStrings.IntToString | src/Receiver.java:55 | `String.valueOf` renders 0..9 as one digit, 10 and above in at least two characters, and negatives with a leading '-' |
| JavaStrings.IntToStringDigitInjective | src/Sender.java:48 | For a digit value d, the rendering of n equals that of d if and only if n == d |
| JavaStrings.BitStrings | src/Sender.java:40 | The sequence bits render as "0" and "1" |
| JavaStrings.NumericValue | src/Receiver.java:29 | `getNumericValue` of an ASCII character is in -1..35; it is 0 exactly for '0', 1 exactly for '1', and 0..9 exactly for digits |
| JavaStrings.EndsWith | src/Receiver.java:42 | `endsWith` of a one-character marker, defined by its body: the text is non-empty and its last character is the marker; `AcceptBuffer` and `LastChunkEnd` use it |
| Sending.SegmentCount | src/Sender.java:34 | The segment count is the ceiling of length/9: k*9 covers the message, (k-1)*9 does not, and k is 0 only for the empty message |
| Sending.Segment | src/Sender.java:37-39 | Chunk i is 1..9 characters inside the message, and it is shorter than 9 only when it reaches the end |
| Sending.Segments | src/Sender.java:36-39 | There is one chunk per segment, and each has 1..9 characters |
| Sending.SegmentAt | src/Sender.java:37-39 | Chunk i is the substring from i*9 to min(i*9+9, length) |
| Sending.SegmentsOfLong | src/Sender.java:36-39 | A message longer than 9 is its first nine characters followed by the segmentation of the rest |
| Sending.SegmentsConcat | src/Sender.java:36-39 | The chunks concatenated give back the message |
| Sending.ShortMessageSegments | src/Sender.java:34-39 | The empty message has no segment; a message of 1..9 characters is one segment |
| Sending.Packet | src/Sender.java:40 | A segment datagram, defined by its body as the decimal text of the bit followed by the chunk; `PacketLayout` states its layout |
| Sending.PacketLayout | src/Sender.java:40 | A packet is the digit character followed by the chunk, at most 10 bytes, and the chunk is everything after the digit |
| Sending.ShortMessageFramed | src/Sender.java:40 | A fresh sender frames a message of 1..9 characters as the single packet "0" followed by the message |
| Sending.Matches | src/Sender.java:47-48 | Whether a received acknowledgment counts, defined by its body: an acknowledgment (not a timeout or an I/O error) whose text, cut to 10 bytes and trimmed as at src/Sender.java:74-77, equals the bit's decimal text; `MatchesOneBit` and `MatchesPadded` state its properties |
| Sending.MatchesOneBit | src/Sender.java:47-48 | An acknowledgment matches at most one bit, and the receiver's text for a bit matches that bit and not the other |
| Sending.MatchesPadded | src/Sender.java:77 | An acknowledgment digit followed by any number of characters at most U+0020 still matches its bit, because the received text is cut to 10 bytes and trimmed |
| Sending.Transmit | src/Sender.java:36-59 | One packet is sent per event consumed; no more events are used than observed and no more segments acknowledged than exist; the send completes if and only if every segment is acknowledged |
| Sending.FlipParity | src/Sender.java:51 | k toggles of a bit add k modulo 2, and the result is a bit |
| Sending.TransmitBit | src/Sender.java:36-59 | The bit stays 0 or 1 and has toggled once per acknowledged segment; after a completed send it has toggled once per segment |
| Sending.CompletedParity | src/Sender.java:36-59 | A completed send ends with the initial bit plus the segment count, modulo 2 |
| Sending.EmptyMessage | src/Sender.java:34-36 | The empty message sends no packet and completes at once, whatever the events |
| Sending.RetransmitsUnchanged | src/Sender.java:43-58 | Timeouts, I/O errors and wrong acknowledgments resend the identical packet once per event; nothing advances and the bit is unchanged |
| Sending.Framed | src/Sender.java:36-40 | There is one framed packet per segment |
| Sending.AcksFor | src/Receiver.java:38 | A receiver that loses nothing sends one acknowledgment per segment |
| Sending.TransmitLossless | src/Sender.java:36-59 | When every first attempt is acknowledged, each segment is sent exactly once with alternating bits, and the send completes with the bit toggled once per segment |
| Sending.Sender.constructor | src/Sender.java:12 | The sequence bit starts at 0 |
| Sending.Sender.Send | src/Sender.java:32-60 | The packets sent, the events used, the final bit and completion are exactly those of `Transmit` over the observed events |
| Sending.Sender.SendSegment | src/Sender.java:40-58 | The retransmit loop for one segment stops at the first matching acknowledgment, toggling the bit, or when the events run out; either way the overall `Transmit` trace carries on from where it left off |
| Sending.Retries | src/Sender.java:43-57 | A stretch of non-matching events only resends the current packet, and the trace then carries on from the stretch's end |
| Sending.Missed | src/Sender.java:45-57 | A non-matching event means one resend of the same segment with the same bit |
| Sending.Acknowledged | src/Sender.java:45-52 | A matching event means one packet, then the next segment with the other bit |
| Sending.SegmentAcked | src/Sender.java:43-58 | Retries followed by an acknowledgment advance the overall trace by one segment |
| Sending.SegmentStalled | src/Sender.java:43-58 | Retries that use up the events end the overall trace, not completed |
| Receiving.Accept | src/Receiver.java:29-45 | The handling of the prepared text, defined by its body: parse the first character, accept exactly when it gives the expected bit, acknowledge with the parsed value, and report and clear the buffer on the marker; `AcceptBit` and `AcceptBuffer` state its behaviour, `DuplicateIgnored` and `CorruptedSegmentRejected` its consequences |
| Receiving.Deliver | src/Receiver.java:24-30 | One pass of the receive loop, defined by its body as `Accept` on the datagram cut to 10 bytes and trimmed; `Receiver.Step` is proved equal to it, and `DuplicateIgnored` and `FramedAcked` state its properties |
| Receiving.DeliverUntrimmed | src/Receiver.java:24-30 | The same pass without the trim, the corrected pass of the first finding, defined by its body; `UntrimmedRoundTrip` states that it reports every marker-terminated message as sent |
| Receiving.AcceptBit | src/Receiver.java:29-38 | The expected bit stays 0 or 1 and flips exactly when the parsed digit equals it; the acknowledgment is the decimal text of the value `getNumericValue` returned ("10" to "35" for a Latin letter, "-1" for any other ASCII character); only empty text fails |
| Receiving.AcceptBuffer | src/Receiver.java:30-45 | An accepted chunk is appended and a rejected one is not; a chunk ending with '.' reports the buffer and empties it, even when the chunk was rejected |
| Receiving.DuplicateIgnored | src/Receiver.java:32-38 | A datagram received twice in a row changes the state only once and is acknowledged the same way both times |
| Receiving.AcceptIntended | src/Receiver.java:32-45 | The corrected handling of the second finding, defined by its body: the marker completes a message only when its segment is accepted; `AcceptIntendedSpec` states its properties |
| Receiving.AcceptIntendedSpec | src/Receiver.java:32-45 | The corrected handling leaves the state unchanged on every rejected segment, agrees with the code as written on every accepted or empty one, and acknowledges as it does |
| Receiving.DeliverAll | src/Receiver.java:21-51 | The receive loop gives at most one reply per datagram, and every reply but the last is an acknowledgment |
| Receiving.DeliverAllBit | src/Receiver.java:32-34 | Over any feed the expected bit stays 0 or 1 |
| Receiving.Completed | src/Receiver.java:42-44 | The messages a run reports as complete, in order, defined by its body as the `complete` values of its replies; `Reassembly`, `MessageRoundTrip` and `TrimDropsChunkSpace` state what they are |
| Receiving.Receiver.constructor | src/Receiver.java:10-11 | Expects bit 0, with an empty buffer |
| Receiving.Receiver.Step | src/Receiver.java:24-45 | The new state and the reply are those of `Deliver` on the old state |
| Receiving.Receiver.Receive | src/Receiver.java:21-51 | The final state and the replies are those of `DeliverAll` (with the trim) on the old state |
| Emulator.Decide | src/Network.java:36-48 | A packet's fate, defined by its body: lost if the loss draw is below the loss percentage, else delayed if the delay draw is below its percentage, else corrupted if the error draw is below its percentage, else forwarded; `LossFirst`, `Precedence` and `NoFaults` state its properties |
| Emulator.LossFirst | src/Network.java:36-39 | A packet is lost exactly when its loss draw is below the loss percentage; at 100 percent every packet is lost |
| Emulator.Precedence | src/Network.java:36-50 | Loss is decided first, then delay, then corruption; a packet is corrupted exactly when it is neither lost nor delayed and its error draw is below the error percentage |
| Emulator.NoFaults | src/Network.java:36-49 | With all percentages at zero every packet is forwarded |
| Emulator.Complemented | src/Network.java:70-73 | Corruption keeps the length and every byte but the first, and it changes the first |
| Emulator.ComplementInvolution | src/Network.java:72 | Corrupting twice restores the packet |
| Emulator.CorruptedDigit | src/Network.java:72 | The digits 0x30 and 0x31 corrupt to bytes at or above 0x80 |
| Emulator.CorruptPacket | src/Network.java:70-73 | The array afterwards is the corruption of its old contents |
| Emulator.DestinationPort | src/Network.java:78 | The destination is 5000 or 5001, and it is 5001 exactly when the source is 5000 |
| Emulator.PortToggle | src/Network.java:78 | Between the two well-known ports the toggle changes the port and undoes itself |
| Emulator.ForwardedPayload | src/Network.java:80 | The forwarded datagram is the first `length` bytes of the buffer |
| Emulator.DelayMillis | src/Network.java:98 | A delay lasts 1500 to 1999 ms |
| Emulator.Relay | src/Network.java:36-50 | The relay's action for one packet, defined by its body from `Decide`, `Complemented`, `ForwardedPayload`, `DestinationPort` and `DelayMillis`; `RelayPayload` and `RelayNoFaults` state its properties, and `HandlePacket` and `Run` are proved equal to it |
| Emulator.RelayPayload | src/Network.java:36-50 | Drop happens exactly on loss; otherwise the datagram goes to the opposite port with the received length, and it differs from what arrived, in its first byte only, exactly when it is corrupted |
| Emulator.RelayNoFaults | src/Network.java:41-49 | With no faults the relay forwards exactly the bytes received |
| Emulator.HandlePacket | src/Network.java:36-50 | The action is `Relay` of the old buffer, and the buffer is corrupted in place exactly when the packet is corrupted |
| Emulator.Landed | src/Network.java:31-33 | A fresh 54-byte buffer holds the datagram: its first `LandedLength` bytes are the payload's first bytes, and the rest stay zero |
| Emulator.LandedLength | src/Network.java:33 | The received length is the payload's length, cut to 54 |
| Emulator.Run | src/Network.java:28-56 | The relay loop takes, for each datagram in turn, the action `Relay` prescribes for it in its own fresh buffer |
| EndToEnd.AcksOf | src/Sender.java:47-54 | The sender sees one event per receiver reply |
| EndToEnd.FramedAcked | src/Receiver.java:24-38 | A framed packet fits the receive buffer and keeps its digit through the trim; it is acknowledged with its bit and accepted exactly when that bit is expected |
| EndToEnd.FramedAppended | src/Receiver.java:27-45 | An expected packet whose chunk does not end in a trimmed character appends exactly the chunk, and reports and empties the buffer when the chunk ends with '.' |
| EndToEnd.LosslessReceiver | src/Receiver.java:21-51 | Over a loss-free channel the receiver acknowledges each framed segment with its bit, and its expected bit ends toggled once per segment |
| EndToEnd.LosslessLockstep | src/Sender.java:36-59 | Fed the receiver's replies, the sender sends each segment once and completes, and its bit ends equal to the receiver's expected bit |
| EndToEnd.ReassemblyLast | src/Receiver.java:32-45 | A run of one chunk reports the buffer plus the chunk when the chunk ends with '.', and otherwise holds them |
| EndToEnd.ReassemblyStep | src/Receiver.java:32-45 | A chunk that does not end with '.' carries reassembly over to the rest |
| EndToEnd.Reassembly | src/Receiver.java:32-45 | When no chunk but the last ends with '.', the receiver reports its buffer and all the chunks as one message exactly when the last chunk ends with '.', and holds them otherwise; with the trim this needs every chunk to end in a character above U+0020 |
| EndToEnd.LastChunkEnd | src/Sender.java:36-39 | A message's last character is the last character of its last chunk |
| EndToEnd.MessageRoundTrip | src/Receiver.java:27-45 | A message from a fresh sender to a fresh receiver is reported exactly once and exactly as sent, and the receiver ends empty, expecting the segment count mod 2. This holds when the message ends with '.', no earlier chunk does and, with the trim, no chunk ends in a trimmed character |
| EndToEnd.UntrimmedRoundTrip | src/Receiver.java:27 | Without the trim, every message that ends with '.', with no earlier chunk ending with '.', is reported exactly as sent |
| EndToEnd.SpacedMessageFramed | src/Sender.java:36-40 | "abcdefgh i." goes out as "0abcdefgh " and "1i." |
| EndToEnd.SpacedChunkTrimmed | src/Receiver.java:27 | The trim cuts the trailing space of "0abcdefgh " before the chunk is appended |
| EndToEnd.TrimDropsChunkSpace | src/Receiver.java:27 | As written, "abcdefgh i." is reported as "abcdefghi."; without the trim it is reported as sent |
| EndToEnd.HelloFramed | src/Sender.java:34-40 | "HELLO." is one segment and is framed as "0HELLO." |
| EndToEnd.HelloDelivered | src/Receiver.java:24-45 | "0HELLO." is accepted, reported complete and acknowledged "0", and the buffer is emptied |
| EndToEnd.HelloSent | src/Sender.java:36-59 | Acknowledged "0", the sender completes with bit 1 |
| EndToEnd.HelloScenario | src/Sender.java:32-60 | The one-segment exchange end to end: segmentation, framing, receipt and acknowledgment |
| EndToEnd.CorruptedSegmentRejected | src/Receiver.java:29-36 | A corrupted sequence digit decodes to U+00CE or U+00CF (ISO-8859-1) or U+FFFD (UTF-8), for which `getNumericValue` is -1. A datagram starting with one of these is never accepted: the expected bit and the buffer are untouched, except that a trailing '.' empties the buffer |
| EndToEnd.CorruptedMarkerSplits | src/Receiver.java:32-45 | As written, a receiver holding "abcdefgh" and expecting 1 reports "abcdefgh" and clears its buffer on the last segment "1i." with a corrupted digit, then reports the retransmitted segment as "i." |
| EndToEnd.CorruptedMarkerKept | src/Receiver.java:32-45 | With the corrected handling the corrupted copy changes nothing, and the retransmission reports "abcdefghi." |
| EndToEnd.LostAckDuplicateReported | src/Receiver.java:32-45 | As written, with no corruption: a receiver that has reported the message and expects 0 again, given the resent "1i." after a lost acknowledgment, rejects it and acks "1" but still reports an empty message |
| EndToEnd.LostAckDuplicateIgnored | src/Receiver.java:32-45 | With the marker tested only on accepted segments, that duplicate is acked "1" and reports nothing |
| Collatz.CollatzStep | src/MTCollatz.java:107 | The Collatz step, defined by its body: halve an even number, map an odd one to 3n+1; `IterateZero` and `StoppingTimeExamples` state its fixed point 0 |
| Collatz.Iterate | src/MTCollatz.java:106-108 | The number reached after k steps, defined by its body; `StopFromCharacterized` and `StoppingTimeCharacterized` state the stopping time in its terms |
| Collatz.StopFrom | src/MTCollatz.java:106-113 | The resumed loop returns between the steps taken so far and 1000 |
| Collatz.StoppingTime | src/MTCollatz.java:103-114 | The stopping time is at most 1000 |
| Collatz.StopFromCharacterized | src/MTCollatz.java:106-113 | From step `steps` on, the loop stops at the first step that reaches 1, or at the cap |
| Collatz.StoppingTimeCharacterized | src/MTCollatz.java:103-114 | No earlier step reaches 1, and below 1000 the stopping step does: it is the first step reaching 1, capped at 1000 |
| Collatz.StoppingTimeUnique | src/MTCollatz.java:103-114 | Those properties determine the stopping time |
| Collatz.StoppingTimeExamples | src/MTCollatz.java:106-111 | 1 has stopping time 0; 0, which halves to itself, reaches the cap |
| Collatz.IterateZero | src/MTCollatz.java:107 | 0 stays 0 under the step |
| Collatz.CalculateStoppingTime | src/MTCollatz.java:103-114 | The loop, which ends for every int, returns `StoppingTime(n)` |
| Collatz.CountInStep | src/MTCollatz.java:89-91 | One more number adds one to its own bucket and nothing elsewhere |
| Collatz.OneBucket | src/MTCollatz.java:89-91 | Each number adds to exactly one bucket |
| Collatz.SumBucketsExtend | src/MTCollatz.java:89-91 | One more number adds one to the total at its bucket |
| Collatz.HistogramTotal | src/MTCollatz.java:74-93 | The 1001 buckets over 1..N add up to N |
| Collatz.Total | src/MTCollatz.java:11 | The entries of the first buckets added up, defined by its body; `TotalCounts` and `Tabulate` state its value |
| Collatz.TotalCounts | src/MTCollatz.java:89-91 | A histogram holding the bucket counts of a range adds up to their sum |
| Collatz.Workload.constructor | src/MTCollatz.java:11-13 | The counter starts at 1 and the 1001 buckets at 0 |
| Collatz.Workload.Next | src/MTCollatz.java:79-80 | A number is handed out exactly when the counter is at most N, and it is the counter before its increment |
| Collatz.Workload.Work | src/MTCollatz.java:73-94 | The worker ends with the counter just past N and the histogram equal to the old one plus, in each bucket, the count of the numbers it took that have that stopping time |
| Collatz.Workload.Count | src/MTCollatz.java:90-92 | Exactly one bucket goes up by one |
| Collatz.TalliedStep | src/MTCollatz.java:89-91 | Counting the next number keeps the histogram tallied |
| Collatz.NonzeroRows | src/MTCollatz.java:119-125 | The printed rows are exactly the buckets 1..1000 with a positive count, in ascending order, each with its count |
| Collatz.Tabulate | src/MTCollatz.java:29-53 | A fresh workload for 1..N worked to the end with one worker: every bucket holds the number of values in 1..N with that stopping time, and the histogram adds up to N (to 0 when N < 1) |
| Collatz.FreshTally | src/MTCollatz.java:11-12 | A tally from a zeroed histogram, started at 1 and ended past N, is the count of 1..N and adds up to N |

## Left out

- Sockets, datagram sending and receiving, and the loopback address: payloads come in and go out as values.
- The sender's two-second timeout and its IOException path (src/Sender.java:53-56) become the `Timeout` and `IOError` events. Both resend, as in the source.
- Sending.Sender.Send: when no acknowledgment ever matches, the source retransmits forever. The model stops when the observed events run out and reports `completed == false`.
- Sending.Sender.Send: every attempt is recorded in `packets`, whether or not the socket send succeeded. `sendPacket` catches its own IOException (src/Sender.java:62-70), and then nothing goes out, but the loop goes on in the same way.
- Sending.SegmentCount: `Math.ceil` over a `double` is modelled as integer ceiling division. The two agree for every `int` length.
- The receiver's endless loop runs over a finite feed. An I/O error while receiving (src/Receiver.java:47-49) only repeats the loop, so it is not modelled as a datagram. Sending the acknowledgment is modelled by its text.
- Receiving.Receiver.Receive: `charAt(0)` on an empty trimmed datagram throws an exception that nothing catches, and that ends `receive`. The model ends the run there with `EmptySegment`.
- Printing a completed message is modelled as the `complete` field of the reply.
- Characters are ASCII only:
  - `Character.getNumericValue` is modelled on ASCII, and other Unicode digits and letters are not.
  - The platform charset that turns relay bytes (`seq<bv8>`) into endpoint text (`string`) is not modelled.
  - `CorruptedDigit` covers the byte side of a corruption, and `CorruptedSegmentRejected` the character side.
- The emulator's `Random` becomes the `Draws` parameters.
- The `DelayedSender` thread and its `sleep` become a `SendLater` action carrying the delay. Reordering in time is not modelled.
- The emulator's error printing and forwarding IOException, and the three programs' command-line parsing and `main`, are not modelled.
- MTCollatz threads, the `ReentrantLock`, the `synchronized` block and the `-nolock` mode: one sequential worker is modelled. The race that `-nolock` allows (lost `counter` increments at src/MTCollatz.java:85-86, so a number can be counted twice or N+1 counted; the histogram update at src/MTCollatz.java:90-92 stays locked in both modes) is not.
- MTCollatz `main`'s thread creation, timing output, `printf` and `appendHistogramToCSV`:
  - They are I/O.
  - The CSV file gets the same rows as `printHistogram`, which is modelled as `NonzeroRows`.
- Collatz.CalculateStoppingTime: `long` arithmetic is modelled on unbounded integers, so an overflow of `3 * num + 1` is not modelled.
- Collatz.Workload.Next: the `int` counter is unbounded. With N equal to `Integer.MAX_VALUE` the source's counter would wrap around, and the model does not capture that.
- Collatz.Workload.Count: the `int` bucket counts are unbounded.

## Findings

`Receiving.Receiver` follows the code as written, including the trim. `Receiving.DeliverUntrimmed`, used by `DeliverAll` when `trimmed` is false, is the corrected pass. The general end-to-end lemmas (`FramedAcked`, `FramedAppended`, `LosslessReceiver`, `LosslessLockstep`, `Reassembly` and `MessageRoundTrip`) are stated for both passes. `TrimDropsChunkSpace` compares the two. The concrete scenarios `SpacedChunkTrimmed`, `HelloDelivered` and `HelloScenario` are about the pass as written. `HelloSent` is about the sender alone. `CorruptedSegmentRejected` is about `Accept`, the parsing step that both passes share.

The second row is about `Accept`, which both passes share. `Receiving.AcceptIntended` is the corrected step, and `AcceptIntendedSpec` proves that it differs from `Accept` only on rejected segments. On a loss-free channel every segment is accepted (`EndToEnd.FramedAcked` with `EndToEnd.LosslessReceiver`), so there the two steps agree.

| source | as written | input that shows it | evidently intended | confidence | as-written member | corrected member |
|---|---|---|---|---|---|---|
| src/Receiver.java:27 | The receiver trims the whole datagram, which includes the chunk, so a chunk ending in a space or control character loses it | "abcdefgh i." is sent as "0abcdefgh " and "1i." and reported as "abcdefghi." | The message is reported as it was sent | not executed | EndToEnd.TrimDropsChunkSpace | EndToEnd.UntrimmedRoundTrip |
| src/Receiver.java:42-45 | The end-of-message test runs on every segment the receiver parses, even one it rejects, so a rejected copy of the last segment reports the buffer early and clears it | A receiver holding "abcdefgh" and expecting 1 gets "1i." with its digit corrupted (U+FFFD): it reports "abcdefgh", and the retransmitted "1i." is then reported as "i.". Without corruption, a lost acknowledgment makes the resent "1i." a rejected duplicate that reports an empty message (`LostAckDuplicateReported`, with `LostAckDuplicateIgnored` as its corrected half) | The marker completes the message only when its segment is accepted, so the message is reported once, as "abcdefghi." | not executed | EndToEnd.CorruptedMarkerSplits | EndToEnd.CorruptedMarkerKept |

/** The sending side of the stop-and-wait protocol: segmentation of a message into
    chunks that fit a 10-byte datagram beside the sequence digit, framing, and the
    retransmit-until-acknowledged loop with its alternating sequence bit. */
module Sending {
  import opened JavaStrings

  /** Bytes in a segment datagram and in the acknowledgment receive buffer. */
  const BUFFER_SIZE: nat := 10
  /** One byte of every segment carries the sequence digit. */
  const CHUNK_SIZE: nat := BUFFER_SIZE - 1

  // ---------------------------------------------------------------------------
  // Segmentation

  /** The number of segments: the ceiling of the length over the chunk size. */
  function SegmentCount(length: nat): (k: nat)
    ensures k * CHUNK_SIZE >= length
    ensures k > 0 ==> (k - 1) * CHUNK_SIZE < length
    ensures k == 0 <==> length == 0
  {
    (length + CHUNK_SIZE - 1) / CHUNK_SIZE
  }

  /** Chunk `i` of a message: the characters from i*9 up to i*9+9 or the end of
      the message, whichever comes first. */
  function Segment(message: string, i: nat): (chunk: string)
    requires i < SegmentCount(|message|)
    ensures 0 < |chunk| <= CHUNK_SIZE
    ensures i * CHUNK_SIZE + |chunk| <= |message|
    ensures |chunk| < CHUNK_SIZE ==> i * CHUNK_SIZE + |chunk| == |message|
  {
    message[i * CHUNK_SIZE .. Min(i * CHUNK_SIZE + CHUNK_SIZE, |message|)]
  }

  /** All chunks of a message, in transmission order. */
  function Segments(message: string): (segs: seq<string>)
    ensures |segs| == SegmentCount(|message|)
    ensures forall i :: 0 <= i < |segs| ==> 0 < |segs[i]| <= CHUNK_SIZE
  {
    seq(SegmentCount(|message|), i requires 0 <= i < SegmentCount(|message|) => Segment(message, i))
  }

  /** Chunk `i` read off the segment list. */
  lemma SegmentAt(message: string, i: nat)
    requires i < SegmentCount(|message|)
    ensures i * CHUNK_SIZE <= Min(i * CHUNK_SIZE + CHUNK_SIZE, |message|) <= |message|
    ensures Segments(message)[i] == message[i * CHUNK_SIZE .. Min(i * CHUNK_SIZE + CHUNK_SIZE, |message|)]
  {
  }

  function Concat(segs: seq<string>): string
  {
    if segs == [] then [] else segs[0] + Concat(segs[1..])
  }

  /** Past its first chunk, a long message is segmented like its remainder. */
  lemma SegmentsOfLong(message: string)
    requires |message| > CHUNK_SIZE
    ensures Segments(message) == [message[..CHUNK_SIZE]] + Segments(message[CHUNK_SIZE..])
  {
    var rest := message[CHUNK_SIZE..];
    var s, t := Segments(message), Segments(rest);
    assert |s| == |t| + 1;
    forall i | 0 <= i < |t|
      ensures s[i + 1] == t[i]
    {
      SegmentAt(message, i + 1);
      SegmentAt(rest, i);
      var lo, hi := i * CHUNK_SIZE, Min(i * CHUNK_SIZE + CHUNK_SIZE, |rest|);
      assert (i + 1) * CHUNK_SIZE == CHUNK_SIZE + lo;
      assert Min((i + 1) * CHUNK_SIZE + CHUNK_SIZE, |message|) == CHUNK_SIZE + hi;
      SliceOfSuffix(message, CHUNK_SIZE, lo, hi);
    }
    assert s == [s[0]] + s[1..];
  }

  lemma SliceOfSuffix(s: string, d: nat, lo: nat, hi: nat)
    requires d + hi <= |s| && lo <= hi
    ensures s[d..][lo..hi] == s[d + lo .. d + hi]
  {
    assert forall k :: 0 <= k < hi - lo ==> s[d..][lo..hi][k] == s[d + lo + k];
  }

  /** Reassembly round trip: the chunks, concatenated in order, are the message. */
  lemma {:induction false} SegmentsConcat(message: string)
    ensures Concat(Segments(message)) == message
    decreases |message|
  {
    if |message| == 0 {
      assert Segments(message) == [];
    } else if |message| <= CHUNK_SIZE {
      assert SegmentCount(|message|) == 1 && Segment(message, 0) == message;
      assert Segments(message) == [message];
      assert Concat([message]) == message + Concat([]);
    } else {
      SegmentsOfLong(message);
      var segs := Segments(message);
      assert segs[1..] == Segments(message[CHUNK_SIZE..]);
      SegmentsConcat(message[CHUNK_SIZE..]);
      assert message == message[..CHUNK_SIZE] + message[CHUNK_SIZE..];
    }
  }

  /** An empty message has no segments; a non-empty one of at most nine
      characters is a single segment holding the whole message. */
  lemma ShortMessageSegments(message: string)
    requires |message| <= CHUNK_SIZE
    ensures Segments(message) == if message == [] then [] else [message]
  {
    if message != [] {
      assert Segments(message)[0] == message;
    }
  }

  // ---------------------------------------------------------------------------
  // Framing

  /** A segment datagram: the sequence number in decimal, then the chunk. */
  function Packet(bit: int, chunk: string): (p: string)
  {
    IntToString(bit) + chunk
  }

  lemma PacketLayout(bit: int, chunk: string)
    requires bit == 0 || bit == 1
    requires |chunk| <= CHUNK_SIZE
    ensures Packet(bit, chunk) == [DigitChar(bit)] + chunk
    ensures |Packet(bit, chunk)| <= BUFFER_SIZE
    ensures Packet(bit, chunk)[1..] == chunk
  {
  }

  /** A fresh sender frames a message of one to nine characters as the single
      packet "0" followed by the message. */
  lemma ShortMessageFramed(message: string)
    requires 0 < |message| <= CHUNK_SIZE
    ensures Framed(0, Segments(message)) == ["0" + message]
  {
    ShortMessageSegments(message);
    BitStrings();
  }

  /** What one wait for an acknowledgment can end with. */
  datatype AckEvent = Ack(text: string) | Timeout | IOError

  /** An acknowledgment counts when the received text, cut to the receive
      buffer and trimmed, is the decimal rendering of the expected bit. */
  predicate Matches(e: AckEvent, bit: int)
  {
    e.Ack? && Trim(Prefix(e.text, BUFFER_SIZE)) == IntToString(bit)
  }

  /** An acknowledgment can match at most one of the two bits, and the
      receiver's one-digit text for a bit matches exactly that bit. */
  lemma MatchesOneBit(e: AckEvent, bit: int)
    requires bit == 0 || bit == 1
    ensures Matches(e, bit) ==> !Matches(e, 1 - bit)
    ensures Matches(Ack(IntToString(bit)), bit)
    ensures !Matches(Ack(IntToString(bit)), 1 - bit)
  {
    assert Prefix(IntToString(bit), BUFFER_SIZE) == IntToString(bit);
    TrimKeeps(IntToString(bit));
    IntToStringDigitInjective(bit, 1 - bit);
  }

  /** Whitespace and control characters after the digit, however many, are
      cut to the receive buffer and then trimmed away: such an acknowledgment
      still matches. */
  lemma MatchesPadded(bit: int, pad: string)
    requires bit == 0 || bit == 1
    requires forall k :: 0 <= k < |pad| ==> IsTrimmed(pad[k])
    ensures Matches(Ack(IntToString(bit) + pad), bit)
  {
    var s := IntToString(bit) + pad;
    var p := Prefix(s, BUFFER_SIZE);
    assert p[0] == DigitChar(bit) && !IsTrimmed(p[0]);
    assert forall k :: 1 <= k < |p| ==> p[k] == pad[k - 1];
    assert TrimStart(p) == p;
    TrimEndSpec(p);
    assert TrimEnd(p) == p[..1];
  }

  // ---------------------------------------------------------------------------
  // The send loop, as a function of the events it observes

  /** The packets sent, the events consumed, the segments acknowledged, the
      final sequence bit and whether every segment was acknowledged before the
      events ran out. */
  datatype Trace = Trace(packets: seq<string>, used: nat, acked: nat, bit: int, completed: bool)

  /** Each attempt sends the current packet and consumes one event; only a
      matching acknowledgment advances to the next segment and flips the bit.
      When the events run out the sender would wait forever: the trace stops. */
  function Transmit(bit: int, segs: seq<string>, events: seq<AckEvent>): (r: Trace)
    ensures |r.packets| == r.used <= |events|
    ensures r.acked <= |segs|
    ensures r.completed <==> r.acked == |segs|
    decreases |events|
  {
    if segs == [] then Trace([], 0, 0, bit, true)
    else if events == [] then Trace([], 0, 0, bit, false)
    else
      var packet := Packet(bit, segs[0]);
      if Matches(events[0], bit) then
        var r := Transmit(1 - bit, segs[1..], events[1..]);
        Trace([packet] + r.packets, 1 + r.used, 1 + r.acked, r.bit, r.completed)
      else
        var r := Transmit(bit, segs, events[1..]);
        Trace([packet] + r.packets, 1 + r.used, r.acked, r.bit, r.completed)
  }

  /** The sequence bit after `k` flips of `bit`. */
  function Flip(bit: int, k: nat): int
  {
    if k % 2 == 0 then bit else 1 - bit
  }

  /** One more flip of the other bit. */
  lemma FlipStep(bit: int, k: nat)
    ensures Flip(1 - bit, k) == Flip(bit, k + 1)
  {
  }

  /** For a bit, `k` flips add `k` modulo 2. */
  lemma FlipParity(bit: int, k: nat)
    requires bit == 0 || bit == 1
    ensures Flip(bit, k) == (bit + k) % 2
    ensures Flip(bit, k) == 0 || Flip(bit, k) == 1
  {
  }

  /** The bit stays 0 or 1, it has flipped once per acknowledged segment, and
      after all segments it has flipped once per segment. */
  lemma {:induction false} TransmitBit(bit: int, segs: seq<string>, events: seq<AckEvent>)
    requires bit == 0 || bit == 1
    ensures var r := Transmit(bit, segs, events);
      && (r.bit == 0 || r.bit == 1)
      && r.bit == Flip(bit, r.acked)
      && (r.completed ==> r.bit == Flip(bit, |segs|))
    decreases |events|
  {
    if segs != [] && events != [] {
      TransmitAttempt(bit, segs, events);
      if Matches(events[0], bit) {
        TransmitBit(1 - bit, segs[1..], events[1..]);
        var r' := Transmit(1 - bit, segs[1..], events[1..]);
        FlipStep(bit, r'.acked);
      } else {
        TransmitBit(bit, segs, events[1..]);
      }
    }
  }

  /** A send that completes leaves the bit at the initial bit plus the number
      of segments, modulo 2. */
  lemma CompletedParity(bit: int, segs: seq<string>, events: seq<AckEvent>)
    requires bit == 0 || bit == 1
    ensures var r := Transmit(bit, segs, events);
      r.completed ==> r.bit == (bit + |segs|) % 2
  {
    TransmitBit(bit, segs, events);
    FlipParity(bit, |segs|);
  }

  /** An empty message sends nothing and completes at once, whatever the events. */
  lemma EmptyMessage(bit: int, events: seq<AckEvent>)
    ensures Transmit(bit, Segments(""), events) == Trace([], 0, 0, bit, true)
  {
    ShortMessageSegments("");
  }

  /** Timeouts, I/O errors and mismatched acknowledgments only ever resend the
      identical packet: the bit is unchanged, nothing advances, and the sender
      never gives up on its own. */
  lemma {:induction false} RetransmitsUnchanged(bit: int, segs: seq<string>, events: seq<AckEvent>)
    requires segs != []
    requires forall k :: 0 <= k < |events| ==> !Matches(events[k], bit)
    ensures var r := Transmit(bit, segs, events);
      && r.packets == seq(|events|, _ => Packet(bit, segs[0]))
      && r.used == |events| && r.acked == 0 && r.bit == bit && !r.completed
    decreases |events|
  {
    if events != [] {
      RetransmitsUnchanged(bit, segs, events[1..]);
    }
  }

  /** The segments framed with alternating bits starting at `bit`. */
  function Framed(bit: int, segs: seq<string>): (ps: seq<string>)
    ensures |ps| == |segs|
    decreases |segs|
  {
    if segs == [] then [] else [Packet(bit, segs[0])] + Framed(1 - bit, segs[1..])
  }

  /** The one-digit acknowledgments a loss-free receiver returns, one per segment. */
  function AcksFor(bit: int, n: nat): (acks: seq<AckEvent>)
    ensures |acks| == n
    decreases n
  {
    if n == 0 then [] else [Ack(IntToString(bit))] + AcksFor(1 - bit, n - 1)
  }

  /** With every first attempt acknowledged, each segment is sent exactly once,
      framed with the alternating bit, and the run completes. */
  lemma {:induction false} TransmitLossless(bit: int, segs: seq<string>)
    requires bit == 0 || bit == 1
    ensures Transmit(bit, segs, AcksFor(bit, |segs|))
         == Trace(Framed(bit, segs), |segs|, |segs|, Flip(bit, |segs|), true)
    decreases |segs|
  {
    if segs != [] {
      var acks := AcksFor(bit, |segs|);
      MatchesOneBit(Ack(IntToString(bit)), bit);
      assert acks[0] == Ack(IntToString(bit));
      assert acks[1..] == AcksFor(1 - bit, |segs| - 1);
      TransmitLossless(1 - bit, segs[1..]);
      TransmitAttempt(bit, segs, acks);
      FlipStep(bit, |segs| - 1);
    }
  }

  // ---------------------------------------------------------------------------
  // The sender object

  class Sender {
    var sequenceNumber: int

    ghost predicate Valid()
      reads this
    {
      sequenceNumber == 0 || sequenceNumber == 1
    }

    constructor ()
      ensures Valid() && sequenceNumber == 0
    {
      sequenceNumber := 0;
    }

    /** Sends `message` segment by segment; `events` are the outcomes of the
        successive acknowledgment waits. Returns the packets put on the wire,
        the number of events consumed and whether every segment was acknowledged. */
    method Send(message: string, events: seq<AckEvent>) returns (packets: seq<string>, used: nat, completed: bool)
      requires Valid()
      modifies this
      ensures Valid()
      ensures var r := Transmit(old(sequenceNumber), Segments(message), events);
        packets == r.packets && used == r.used && sequenceNumber == r.bit && completed == r.completed
    {
      var segs := Segments(message);
      ghost var whole := Transmit(sequenceNumber, segs, events);
      var totalSegments := SegmentCount(|message|);
      packets, used, completed := [], 0, true;
      for i := 0 to totalSegments
        invariant Valid() && used <= |events|
        invariant Resumes(whole, packets, used, i, Transmit(sequenceNumber, segs[i..], events[used..]))
      {
        var start := i * CHUNK_SIZE;
        var end := Min(start + CHUNK_SIZE, |message|);
        SegmentAt(message, i);
        var segment := message[start..end];
        var ackReceived;
        packets, used, ackReceived := SendSegment(segment, events, packets, used, whole, segs[i..], i);
        if !ackReceived {
          completed := false;
          return;
        }
        assert segs[i..][1..] == segs[i + 1..];
      }
      assert segs[totalSegments..] == [];
    }

    /** The inner retransmission loop of `Send` for one segment: frame it with
        the current bit, then send and wait until a matching acknowledgment
        arrives (flipping the bit) or the events run out. */
    method SendSegment(segment: string, events: seq<AckEvent>, packets: seq<string>, used: nat,
                       ghost whole: Trace, ghost todo: seq<string>, ghost acked: nat)
      returns (packets': seq<string>, used': nat, ackReceived: bool)
      requires Valid() && used <= |events| && todo != [] && todo[0] == segment
      requires Resumes(whole, packets, used, acked, Transmit(sequenceNumber, todo, events[used..]))
      modifies this
      ensures Valid() && used' <= |events|
      ensures ackReceived ==>
        Resumes(whole, packets', used', acked + 1, Transmit(sequenceNumber, todo[1..], events[used'..]))
      ensures !ackReceived ==>
        && used' == |events| && sequenceNumber == old(sequenceNumber)
        && Resumes(whole, packets', used', acked, Transmit(sequenceNumber, todo, events[used'..]))
    {
      ghost var bit := sequenceNumber;
      var packet := Packet(sequenceNumber, segment);
      packets', used', ackReceived := packets, used, false;
      while !ackReceived && used' < |events|
        invariant Valid() && used <= used' <= |events|
        invariant packets' == packets + Repeat(packet, used' - used)
        invariant !ackReceived ==>
          sequenceNumber == bit && forall k :: used <= k < used' ==> !Matches(events[k], bit)
        invariant ackReceived ==>
          && used < used' && sequenceNumber == 1 - bit && Matches(events[used' - 1], bit)
          && forall k :: used <= k < used' - 1 ==> !Matches(events[k], bit)
        decreases |events| - used'
      {
        var event := events[used'];
        if Matches(event, sequenceNumber) {
          ackReceived := true;
          sequenceNumber := 1 - sequenceNumber;
        }
        packets' := packets' + [packet];
        used' := used' + 1;
      }
      if ackReceived {
        SegmentAcked(whole, packets, used, acked, bit, todo, events, used');
      } else {
        SegmentStalled(whole, packets, used, acked, bit, todo, events);
      }
    }
  }

  /** A run that first sends `packets`, consuming `used` events and acknowledging
      `acked` segments, and then goes on as `rest`. */
  function Then(packets: seq<string>, used: nat, acked: nat, rest: Trace): Trace
  {
    Trace(packets + rest.packets, used + rest.used, acked + rest.acked, rest.bit, rest.completed)
  }

  /** `whole` is what is sent so far followed by what the rest of the run sends. */
  ghost predicate Resumes(whole: Trace, packets: seq<string>, used: nat, acked: nat, rest: Trace)
  {
    whole == Then(packets, used, acked, rest)
  }

  /** `n` copies of one packet. */
  function Repeat(packet: string, n: nat): (ps: seq<string>)
    ensures |ps| == n
  {
    if n == 0 then [] else Repeat(packet, n - 1) + [packet]
  }

  /** Events from `lo` up to `hi` that do not match only resend the current
      packet, once each, and leave the same segment to be sent. */
  lemma {:induction false} Retries(bit: int, todo: seq<string>, events: seq<AckEvent>, lo: nat, hi: nat)
    requires todo != [] && lo <= hi <= |events|
    requires forall k :: lo <= k < hi ==> !Matches(events[k], bit)
    ensures Transmit(bit, todo, events[lo..])
         == Then(Repeat(Packet(bit, todo[0]), hi - lo), hi - lo, 0, Transmit(bit, todo, events[hi..]))
    decreases hi - lo
  {
    var p := Packet(bit, todo[0]);
    var r := Transmit(bit, todo, events[hi..]);
    if lo == hi {
      assert Repeat(p, 0) + r.packets == r.packets;
    } else {
      Retries(bit, todo, events, lo, hi - 1);
      Missed(bit, todo, events, hi - 1);
      ThenThen(Repeat(p, hi - 1 - lo), hi - 1 - lo, 0, [p], 1, 0, r);
    }
  }

  /** An attempt at index `i` without a matching acknowledgment. */
  lemma Missed(bit: int, todo: seq<string>, events: seq<AckEvent>, i: nat)
    requires todo != [] && i < |events| && !Matches(events[i], bit)
    ensures Transmit(bit, todo, events[i..]) == Then([Packet(bit, todo[0])], 1, 0, Transmit(bit, todo, events[i + 1..]))
  {
    assert events[i..][1..] == events[i + 1..];
    TransmitAttempt(bit, todo, events[i..]);
  }

  /** An attempt at index `i` that is acknowledged. */
  lemma Acknowledged(bit: int, todo: seq<string>, events: seq<AckEvent>, i: nat)
    requires todo != [] && i < |events| && Matches(events[i], bit)
    ensures Transmit(bit, todo, events[i..]) == Then([Packet(bit, todo[0])], 1, 1, Transmit(1 - bit, todo[1..], events[i + 1..]))
  {
    assert events[i..][1..] == events[i + 1..];
    TransmitAttempt(bit, todo, events[i..]);
  }

  lemma ThenThen(ps: seq<string>, u: nat, a: nat, qs: seq<string>, v: nat, b: nat, rest: Trace)
    ensures Then(ps, u, a, Then(qs, v, b, rest)) == Then(ps + qs, u + v, a + b, rest)
  {
    assert ps + (qs + rest.packets) == (ps + qs) + rest.packets;
  }

  /** The segment loop that ends with a matching acknowledgment at index `hi - 1`. */
  lemma SegmentAcked(whole: Trace, packets: seq<string>, used: nat, acked: nat, bit: int,
                     todo: seq<string>, events: seq<AckEvent>, hi: nat)
    requires todo != [] && used < hi <= |events|
    requires Resumes(whole, packets, used, acked, Transmit(bit, todo, events[used..]))
    requires forall k :: used <= k < hi - 1 ==> !Matches(events[k], bit)
    requires Matches(events[hi - 1], bit)
    ensures Resumes(whole, packets + Repeat(Packet(bit, todo[0]), hi - used), hi, acked + 1,
                    Transmit(1 - bit, todo[1..], events[hi..]))
  {
    var p := Packet(bit, todo[0]);
    var r := Transmit(1 - bit, todo[1..], events[hi..]);
    Retries(bit, todo, events, used, hi - 1);
    Acknowledged(bit, todo, events, hi - 1);
    ThenThen(Repeat(p, hi - 1 - used), hi - 1 - used, 0, [p], 1, 1, r);
    ThenThen(packets, used, acked, Repeat(p, hi - used), hi - used, 1, r);
  }

  /** The segment loop that runs out of events without a matching acknowledgment. */
  lemma SegmentStalled(whole: Trace, packets: seq<string>, used: nat, acked: nat, bit: int,
                       todo: seq<string>, events: seq<AckEvent>)
    requires todo != [] && used <= |events|
    requires Resumes(whole, packets, used, acked, Transmit(bit, todo, events[used..]))
    requires forall k :: used <= k < |events| ==> !Matches(events[k], bit)
    ensures Resumes(whole, packets + Repeat(Packet(bit, todo[0]), |events| - used), |events|, acked,
                    Transmit(bit, todo, events[|events|..]))
  {
    var r := Transmit(bit, todo, events[|events|..]);
    Retries(bit, todo, events, used, |events|);
    ThenThen(packets, used, acked, Repeat(Packet(bit, todo[0]), |events| - used), |events| - used, 0, r);
  }

  /** One attempt, read off the definition of `Transmit`. */
  lemma TransmitAttempt(bit: int, todo: seq<string>, events: seq<AckEvent>)
    requires todo != [] && events != []
    ensures var matched := Matches(events[0], bit);
      var r' := if matched then Transmit(1 - bit, todo[1..], events[1..]) else Transmit(bit, todo, events[1..]);
      Transmit(bit, todo, events)
        == Trace([Packet(bit, todo[0])] + r'.packets, 1 + r'.used, (if matched then 1 else 0) + r'.acked, r'.bit, r'.completed)
  {
  }
}

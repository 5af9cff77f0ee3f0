/** The sender and the receiver composed over a channel that neither loses,
    delays nor corrupts: bit lockstep, acknowledgment flow and reassembly. */
module EndToEnd {
  import opened JavaStrings
  import opened Sending
  import opened Receiving

  /** The acknowledgments the receiver returns, as the sender observes them. A
      datagram the receiver cannot parse is answered by nothing, which the
      sender sees as a timeout. */
  function AcksOf(replies: seq<Reply>): (events: seq<AckEvent>)
    ensures |events| == |replies|
    decreases |replies|
  {
    if replies == [] then []
    else [if replies[0].Acked? then Ack(replies[0].ack) else Timeout] + AcksOf(replies[1..])
  }

  /** A framed packet reaches the receiver whole: it fits the receive buffer,
      and the trim, when it applies, leaves its sequence digit in front. So the
      receiver accepts it exactly when it expects that bit, and acknowledges it
      with that bit. */
  lemma FramedAcked(b: int, chunk: string, s: RState, trimmed: bool)
    requires b == 0 || b == 1
    requires s.expected == 0 || s.expected == 1
    requires |chunk| <= CHUNK_SIZE
    ensures var o := Handle(s, Packet(b, chunk), trimmed);
      && o.reply.Acked? && o.reply.ack == IntToString(b)
      && o.next.expected == (if s.expected == b then 1 - b else s.expected)
  {
    PacketLayout(b, chunk);
    var p := Packet(b, chunk);
    assert Prefix(p, Receiving.BUFFER_SIZE) == p;
    TrimKeeps(p);
    var data := if trimmed then Trim(p) else p;
    assert data != [] && data[0] == DigitChar(b);
    assert Handle(s, p, trimmed) == Accept(s, data);
  }

  /** When the chunk does not end with a character the trim removes, the
      receiver sees exactly the chunk behind the digit: an expected packet is
      appended, and the buffer is reported and emptied when the chunk ends with
      the marker. */
  lemma FramedAppended(b: int, chunk: string, s: RState, trimmed: bool)
    requires b == 0 || b == 1
    requires s.expected == b
    requires 0 < |chunk| <= CHUNK_SIZE
    requires trimmed ==> !IsTrimmed(chunk[|chunk| - 1])
    ensures var o := Handle(s, Packet(b, chunk), trimmed);
      var kept := s.buffer + chunk;
      o == if EndsWith(chunk, END_MARKER)
           then StepOutcome(RState(1 - b, ""), Acked(IntToString(b), Some(kept)))
           else StepOutcome(RState(1 - b, kept), Acked(IntToString(b), None))
  {
    PacketLayout(b, chunk);
    var p := Packet(b, chunk);
    assert Prefix(p, Receiving.BUFFER_SIZE) == p;
    assert p[|p| - 1] == chunk[|chunk| - 1];
    TrimKeeps(p);
    var data := if trimmed then Trim(p) else p;
    assert data == p;
    assert Handle(s, p, trimmed) == Accept(s, p);
    assert p[1..] == chunk;
  }

  /** Every chunk fits a segment datagram beside the sequence digit. */
  ghost predicate Fits(segs: seq<string>)
  {
    forall i :: 0 <= i < |segs| ==> |segs[i]| <= CHUNK_SIZE
  }

  lemma FitsTail(segs: seq<string>)
    requires segs != [] && Fits(segs)
    ensures |segs[0]| <= CHUNK_SIZE && Fits(segs[1..])
  {
    assert forall i :: 0 <= i < |segs| - 1 ==> segs[1..][i] == segs[i + 1];
  }

  /** Over a loss-free channel the receiver accepts every framed segment and
      acknowledges each with its bit; its expected bit ends up as the sender's. */
  lemma {:induction false} LosslessReceiver(b: int, segs: seq<string>, s: RState, trimmed: bool)
    requires b == 0 || b == 1
    requires s.expected == b
    requires Fits(segs)
    ensures var run := DeliverAll(s, Framed(b, segs), trimmed);
      && run.final.expected == Flip(b, |segs|)
      && AcksOf(run.replies) == AcksFor(b, |segs|)
    decreases |segs|
  {
    if segs != [] {
      FitsTail(segs);
      FramedAcked(b, segs[0], s, trimmed);
      var o := Handle(s, Packet(b, segs[0]), trimmed);
      LosslessReceiver(1 - b, segs[1..], o.next, trimmed);
      LosslessReceiverStep(b, segs, s, trimmed, o, DeliverAll(o.next, Framed(1 - b, segs[1..]), trimmed));
    }
  }

  /** The inductive step of `LosslessReceiver`: the first framed segment is
      acknowledged with its bit, and the rest of the run does the remainder. */
  lemma LosslessReceiverStep(b: int, segs: seq<string>, s: RState, trimmed: bool, o: StepOutcome, rest: Run)
    requires segs != []
    requires o == Handle(s, Packet(b, segs[0]), trimmed)
    requires o.reply.Acked? && o.reply.ack == IntToString(b)
    requires rest == DeliverAll(o.next, Framed(1 - b, segs[1..]), trimmed)
    requires rest.final.expected == Flip(1 - b, |segs| - 1)
    requires AcksOf(rest.replies) == AcksFor(1 - b, |segs| - 1)
    ensures var run := DeliverAll(s, Framed(b, segs), trimmed);
      && run.final.expected == Flip(b, |segs|)
      && AcksOf(run.replies) == AcksFor(b, |segs|)
  {
    FramedCons(b, segs);
    DeliverAllCons(s, Framed(b, segs), trimmed);
    assert ([o.reply] + rest.replies)[1..] == rest.replies;
    assert AcksOf([o.reply] + rest.replies) == [Ack(IntToString(b))] + AcksOf(rest.replies);
    FlipStep(b, |segs| - 1);
  }

  /** The sender and the receiver in lockstep over a loss-free channel: the
      sender, fed the acknowledgments the receiver returns, sends every segment
      exactly once with alternating bits and completes, and its final bit is the
      receiver's expected bit, the initial bit plus the segment count mod 2. */
  lemma LosslessLockstep(b: int, segs: seq<string>, s: RState, trimmed: bool)
    requires b == 0 || b == 1
    requires s.expected == b
    requires Fits(segs)
    ensures var run := DeliverAll(s, Framed(b, segs), trimmed);
      var sent := Transmit(b, segs, AcksOf(run.replies));
      && sent == Trace(Framed(b, segs), |segs|, |segs|, Flip(b, |segs|), true)
      && sent.bit == run.final.expected
  {
    LosslessReceiver(b, segs, s, trimmed);
    TransmitLossless(b, segs);
  }

  lemma FramedCons(b: int, segs: seq<string>)
    requires segs != []
    ensures Framed(b, segs)[0] == Packet(b, segs[0])
    ensures Framed(b, segs)[1..] == Framed(1 - b, segs[1..])
  {
  }

  lemma CompletedCons(r: Reply, rest: seq<Reply>)
    ensures Completed([r] + rest) == (if r.Acked? && r.complete.Some? then [r.complete.value] else []) + Completed(rest)
  {
    assert ([r] + rest)[1..] == rest;
  }

  /** The first step of a loss-free run under the hypotheses of `FramedAppended`. */
  lemma FramedRunCons(b: int, segs: seq<string>, s: RState, trimmed: bool)
    requires b == 0 || b == 1
    requires s.expected == b
    requires segs != [] && 0 < |segs[0]| <= CHUNK_SIZE
    requires trimmed ==> !IsTrimmed(segs[0][|segs[0]| - 1])
    ensures var ends := EndsWith(segs[0], END_MARKER);
      var next := RState(1 - b, if ends then "" else s.buffer + segs[0]);
      var rest := DeliverAll(next, Framed(1 - b, segs[1..]), trimmed);
      var run := DeliverAll(s, Framed(b, segs), trimmed);
      && run.final == rest.final
      && Completed(run.replies) == (if ends then [s.buffer + segs[0]] else []) + Completed(rest.replies)
  {
    var feed := Framed(b, segs);
    FramedCons(b, segs);
    FramedAppended(b, segs[0], s, trimmed);
    var o := Handle(s, feed[0], trimmed);
    DeliverAllCons(s, feed, trimmed);
    CompletedCons(o.reply, DeliverAll(o.next, feed[1..], trimmed).replies);
  }

  /** A run of one framed chunk. */
  lemma ReassemblyLast(b: int, segs: seq<string>, s: RState, trimmed: bool)
    requires b == 0 || b == 1
    requires s.expected == b
    requires |segs| == 1 && 0 < |segs[0]| <= CHUNK_SIZE
    requires trimmed ==> !IsTrimmed(segs[0][|segs[0]| - 1])
    ensures var run := DeliverAll(s, Framed(b, segs), trimmed);
      var ends := EndsWith(segs[0], END_MARKER);
      && Completed(run.replies) == (if ends then [s.buffer + segs[0]] else [])
      && run.final.buffer == (if ends then "" else s.buffer + segs[0])
  {
    FramedRunCons(b, segs, s, trimmed);
    assert segs[1..] == [];
    var ends := EndsWith(segs[0], END_MARKER);
    var next := RState(1 - b, if ends then "" else s.buffer + segs[0]);
    assert DeliverAll(next, Framed(1 - b, []), trimmed) == Run(next, []);
    assert Completed([]) == [];
    assert (if ends then [s.buffer + segs[0]] else []) + [] == (if ends then [s.buffer + segs[0]] else []);
  }

  /** The hypotheses of `Reassembly`: every chunk has one to nine characters,
      none but the last ends with the marker and, with the trim, none ends with
      a character the trim removes. */
  ghost predicate Chunked(segs: seq<string>, trimmed: bool)
  {
    && (forall i :: 0 <= i < |segs| ==> 0 < |segs[i]| <= CHUNK_SIZE)
    && (trimmed ==> forall i :: 0 <= i < |segs| ==> !IsTrimmed(segs[i][|segs[i]| - 1]))
    && (forall i :: 0 <= i < |segs| - 1 ==> !EndsWith(segs[i], END_MARKER))
  }

  /** The hypotheses of `Reassembly` carry over to the chunks after the first,
      and the first chunk meets them. */
  lemma TailChunks(segs: seq<string>, trimmed: bool)
    requires segs != [] && Chunked(segs, trimmed)
    ensures Chunked(segs[1..], trimmed)
    ensures 0 < |segs[0]| <= CHUNK_SIZE
    ensures trimmed ==> !IsTrimmed(segs[0][|segs[0]| - 1])
    ensures |segs| >= 2 ==> !EndsWith(segs[0], END_MARKER)
  {
    var tail := segs[1..];
    assert forall i :: 0 <= i < |tail| ==> tail[i] == segs[i + 1];
  }

  /** What `Reassembly` states about a run from `s` over the chunks `segs`. */
  ghost predicate Reassembled(b: int, segs: seq<string>, s: RState, trimmed: bool)
  {
    var run := DeliverAll(s, Framed(b, segs), trimmed);
    var whole := s.buffer + Concat(segs);
    var ends := |segs| > 0 && EndsWith(segs[|segs| - 1], END_MARKER);
    && Completed(run.replies) == (if ends then [whole] else [])
    && run.final.buffer == (if ends then "" else whole)
  }

  /** The inductive step of `Reassembly`: a run over two or more chunks reassembles
      when the run over all but the first, from the state the first leaves, does. */
  lemma ReassemblyStep(b: int, segs: seq<string>, s: RState, trimmed: bool)
    requires b == 0 || b == 1
    requires s.expected == b
    requires |segs| >= 2 && 0 < |segs[0]| <= CHUNK_SIZE
    requires trimmed ==> !IsTrimmed(segs[0][|segs[0]| - 1])
    requires !EndsWith(segs[0], END_MARKER)
    requires Reassembled(1 - b, segs[1..], RState(1 - b, s.buffer + segs[0]), trimmed)
    ensures Reassembled(b, segs, s, trimmed)
  {
    FramedRunCons(b, segs, s, trimmed);
    ConcatCons(s.buffer, segs);
    var rest := DeliverAll(RState(1 - b, s.buffer + segs[0]), Framed(1 - b, segs[1..]), trimmed);
    assert [] + Completed(rest.replies) == Completed(rest.replies);
  }

  /** A buffer followed by all the chunks is the buffer with the first chunk
      appended, followed by the rest; the last chunk is the last of the rest. */
  lemma ConcatCons(prefix: string, segs: seq<string>)
    requires |segs| >= 2
    ensures prefix + Concat(segs) == (prefix + segs[0]) + Concat(segs[1..])
    ensures segs[1..][|segs| - 2] == segs[|segs| - 1]
  {
    assert Concat(segs) == segs[0] + Concat(segs[1..]);
  }

  /** Reassembly over a loss-free channel: when no chunk but the last ends with
      the marker, the receiver reports its buffer followed by all the chunks as
      one message exactly when the last chunk ends with the marker, and holds
      them otherwise. With the trim (the code as written) this needs every
      chunk to end with a character above U+0020. */
  lemma {:induction false} Reassembly(b: int, segs: seq<string>, s: RState, trimmed: bool)
    requires b == 0 || b == 1
    requires s.expected == b
    requires Chunked(segs, trimmed)
    ensures Reassembled(b, segs, s, trimmed)
    decreases |segs|
  {
    if segs == [] {
      ReassemblyNone(b, s, trimmed);
    } else {
      TailChunks(segs, trimmed);
      if |segs| == 1 {
        ReassemblyOne(b, segs, s, trimmed);
      } else {
        Reassembly(1 - b, segs[1..], RState(1 - b, s.buffer + segs[0]), trimmed);
        ReassemblyStep(b, segs, s, trimmed);
      }
    }
  }

  /** No chunks: nothing is reported and the buffer is kept. */
  lemma ReassemblyNone(b: int, s: RState, trimmed: bool)
    ensures Reassembled(b, [], s, trimmed)
  {
    assert Framed(b, []) == [] && Concat([]) == [];
    assert DeliverAll(s, [], trimmed) == Run(s, []);
    assert Completed([]) == [];
  }

  /** One chunk, in the terms of `Reassembled`. */
  lemma ReassemblyOne(b: int, segs: seq<string>, s: RState, trimmed: bool)
    requires b == 0 || b == 1
    requires s.expected == b
    requires |segs| == 1 && 0 < |segs[0]| <= CHUNK_SIZE
    requires trimmed ==> !IsTrimmed(segs[0][|segs[0]| - 1])
    ensures Reassembled(b, segs, s, trimmed)
  {
    ReassemblyLast(b, segs, s, trimmed);
    assert Concat(segs) == segs[0] + Concat(segs[1..]);
    assert segs[1..] == [];
    assert s.buffer + Concat(segs) == s.buffer + segs[0];
  }

  lemma {:induction false} ConcatSnoc(segs: seq<string>, last: string)
    ensures Concat(segs + [last]) == Concat(segs) + last
    decreases |segs|
  {
    if segs == [] {
      assert Concat([last]) == last + Concat([]);
    } else {
      assert (segs + [last])[1..] == segs[1..] + [last];
      ConcatSnoc(segs[1..], last);
    }
  }

  /** The last character of a message is the last character of its last chunk. */
  lemma LastChunkEnd(message: string)
    requires message != []
    ensures var segs := Segments(message);
      |segs| > 0 && segs[|segs| - 1][|segs[|segs| - 1]| - 1] == message[|message| - 1]
  {
    var segs := Segments(message);
    SegmentsConcat(message);
    assert segs == segs[..|segs| - 1] + [segs[|segs| - 1]];
    ConcatSnoc(segs[..|segs| - 1], segs[|segs| - 1]);
  }

  /** A whole message, sent by a fresh sender to a fresh receiver over a
      loss-free channel, is reported once and exactly, provided it ends with the
      marker and no earlier chunk does and, for the code as written, no chunk
      ends with a character at most U+0020. */
  lemma MessageRoundTrip(message: string, trimmed: bool)
    requires EndsWith(message, END_MARKER)
    requires forall i :: 0 <= i < |Segments(message)| - 1 ==> !EndsWith(Segments(message)[i], END_MARKER)
    requires trimmed ==> forall i :: 0 <= i < |Segments(message)| ==>
      !IsTrimmed(Segments(message)[i][|Segments(message)[i]| - 1])
    ensures var run := DeliverAll(Initial, Framed(0, Segments(message)), trimmed);
      Completed(run.replies) == [message] && run.final == RState(|Segments(message)| % 2, "")
  {
    var segs := Segments(message);
    RoundTripReported(message, segs, trimmed);
    RoundTripBit(segs, trimmed);
  }

  /** The reassembly half of `MessageRoundTrip`, over the message's chunks. */
  lemma RoundTripReported(message: string, segs: seq<string>, trimmed: bool)
    requires segs == Segments(message)
    requires EndsWith(message, END_MARKER)
    requires forall i :: 0 <= i < |segs| - 1 ==> !EndsWith(segs[i], END_MARKER)
    requires trimmed ==> forall i :: 0 <= i < |segs| ==> !IsTrimmed(segs[i][|segs[i]| - 1])
    ensures var run := DeliverAll(Initial, Framed(0, segs), trimmed);
      Completed(run.replies) == [message] && run.final.buffer == ""
  {
    LastChunkEnd(message);
    SegmentsConcat(message);
    assert Chunked(segs, trimmed);
    Reassembly(0, segs, Initial, trimmed);
    assert Initial.buffer + Concat(segs) == message;
    assert EndsWith(segs[|segs| - 1], END_MARKER);
  }

  /** The bit half of `MessageRoundTrip`: a fresh receiver ends expecting the
      number of chunks modulo 2. */
  lemma RoundTripBit(segs: seq<string>, trimmed: bool)
    requires Fits(segs)
    ensures DeliverAll(Initial, Framed(0, segs), trimmed).final.expected == |segs| % 2
  {
    LosslessReceiver(0, segs, Initial, trimmed);
    FlipParity(0, |segs|);
  }

  /** The evidently intended behaviour, without the trim: every message that
      ends with the marker, and has no earlier chunk ending with it, is
      reassembled exactly. */
  lemma UntrimmedRoundTrip(message: string)
    requires EndsWith(message, END_MARKER)
    requires forall i :: 0 <= i < |Segments(message)| - 1 ==> !EndsWith(Segments(message)[i], END_MARKER)
    ensures Completed(DeliverAll(Initial, Framed(0, Segments(message)), false).replies) == [message]
  {
    MessageRoundTrip(message, false);
  }

  /** "abcdefgh i." is cut into a full first chunk ending with the space and a
      second chunk "i.", framed with bits 0 and 1. */
  lemma SpacedMessageFramed()
    ensures Segments("abcdefgh i.") == ["abcdefgh ", "i."]
    ensures Framed(0, ["abcdefgh ", "i."]) == ["0abcdefgh ", "1i."]
  {
    var message := "abcdefgh i.";
    SegmentsOfLong(message);
    assert message[..CHUNK_SIZE] == "abcdefgh ";
    assert message[CHUNK_SIZE..] == "i.";
    ShortMessageSegments("i.");
    BitStrings();
    var segs := ["abcdefgh ", "i."];
    FramedCons(0, segs);
    FramedCons(1, segs[1..]);
    assert segs[1..][1..] == [];
    assert Packet(0, "abcdefgh ") == "0abcdefgh " && Packet(1, "i.") == "1i.";
    assert Framed(0, segs)[1..][1..] == Framed(0, []) == [];
  }

  /** With the trim, the first packet's trailing space is cut before the chunk
      is appended. */
  lemma SpacedChunkTrimmed()
    ensures Deliver(Initial, "0abcdefgh ") == StepOutcome(RState(1, "abcdefgh"), Acked("0", None))
  {
    var p := "0abcdefgh ";
    assert Prefix(p, Receiving.BUFFER_SIZE) == p;
    assert TrimStart(p) == p;
    assert p[..|p| - 1] == "0abcdefgh";
    assert TrimEnd("0abcdefgh") == "0abcdefgh";
    assert TrimEnd(p) == "0abcdefgh";
    var data := "0abcdefgh";
    assert data[0] == '0' && data[1..] == "abcdefgh";
    BitStrings();
  }

  /** The code as written: the receiver trims the whole datagram, so a chunk that
      ends with a space loses it. "abcdefgh i." is sent as "0abcdefgh " and
      "1i." and reported as "abcdefghi."; without the trim it is reported as
      sent. */
  lemma TrimDropsChunkSpace()
    ensures var message := "abcdefgh i.";
      && Segments(message) == ["abcdefgh ", "i."]
      && Completed(DeliverAll(Initial, Framed(0, Segments(message)), true).replies) == ["abcdefghi."]
      && Completed(DeliverAll(Initial, Framed(0, Segments(message)), false).replies) == [message]
  {
    var message := "abcdefgh i.";
    SpacedMessageFramed();
    var feed := ["0abcdefgh ", "1i."];
    SpacedChunkTrimmed();
    var o1 := Handle(Initial, feed[0], true);
    assert o1 == StepOutcome(RState(1, "abcdefgh"), Acked("0", None));
    BitStrings();
    assert Packet(1, "i.") == "1i.";
    FramedAppended(1, "i.", o1.next, true);
    var o2 := Handle(o1.next, feed[1], true);
    assert "abcdefgh" + "i." == "abcdefghi.";
    assert o2 == StepOutcome(RState(0, ""), Acked("1", Some("abcdefghi.")));
    DeliverAllCons(Initial, feed, true);
    DeliverAllCons(o1.next, feed[1..], true);
    assert feed[1..][1..] == [];
    var last := DeliverAll(o2.next, [], true);
    assert last == Run(o2.next, []);
    CompletedCons(o2.reply, []);
    CompletedCons(o1.reply, [o2.reply]);
    assert Completed([]) == [];
    UntrimmedRoundTrip(message);
  }

  lemma HelloFramed()
    ensures Segments("HELLO.") == ["HELLO."]
    ensures Framed(0, ["HELLO."]) == ["0HELLO."]
  {
    var message := "HELLO.";
    ShortMessageSegments(message);
    BitStrings();
    FramedCons(0, [message]);
    assert Packet(0, message) == "0HELLO.";
    assert Framed(1, []) == [];
  }

  lemma HelloDelivered()
    ensures Deliver(Initial, "0HELLO.") == StepOutcome(RState(1, ""), Acked("0", Some("HELLO.")))
  {
    var message := "HELLO.";
    BitStrings();
    FramedAppended(0, message, Initial, true);
    assert Packet(0, message) == "0HELLO.";
    assert "" + message == message;
  }

  lemma HelloSent()
    ensures Transmit(0, ["HELLO."], [Ack("0")]) == Trace(["0HELLO."], 1, 1, 1, true)
  {
    HelloFramed();
    BitStrings();
    TransmitLossless(0, ["HELLO."]);
    assert AcksFor(0, 1) == [Ack("0")] + AcksFor(1, 0);
  }

  /** The single-segment scenario: "HELLO." goes out as "0HELLO.", is reported
      complete, the buffer is emptied, "0" comes back and the sender's bit is 1. */
  lemma HelloScenario()
    ensures var message := "HELLO.";
      && Segments(message) == [message]
      && Framed(0, Segments(message)) == ["0HELLO."]
      && Deliver(Initial, "0HELLO.") == StepOutcome(RState(1, ""), Acked("0", Some("HELLO.")))
      && Transmit(0, Segments(message), [Ack("0")]) == Trace(["0HELLO."], 1, 1, 1, true)
  {
    HelloFramed();
    HelloDelivered();
    HelloSent();
  }

  /** The character a corrupted sequence digit decodes to: a complemented '0'
      or '1' is the byte 0xCF or 0xCE, which ISO-8859-1 reads as U+00CF or
      U+00CE and UTF-8, where it starts no valid sequence here, as U+FFFD. */
  predicate CorruptedDigitChar(c: char)
  {
    c == '\U{00CE}' || c == '\U{00CF}' || c == '\U{FFFD}'
  }

  /** A corrupted segment datagram (its first byte complemented by the relay) no
      longer starts with a digit, so the receiver rejects it: the expected bit
      and the buffer are untouched, unless the marker empties the buffer. */
  lemma CorruptedSegmentRejected(s: RState, c: char, rest: string)
    requires s.expected == 0 || s.expected == 1
    requires CorruptedDigitChar(c)
    ensures NumericValue(c) == -1
    ensures var o := Accept(s, [c] + rest);
      && o.next.expected == s.expected
      && o.next.buffer == (if EndsWith(rest, END_MARKER) then "" else s.buffer)
  {
    assert ([c] + rest)[0] == c && ([c] + rest)[1..] == rest;
  }

  /** The code as written: a receiver holding "abcdefgh" and expecting bit 1 gets
      the last segment "1i." with its digit corrupted to U+FFFD. It rejects the
      segment, but the marker still reports "abcdefgh" and clears the buffer;
      the retransmitted "1i." is then reported on its own as "i.". One message
      comes back as two wrong ones. */
  lemma CorruptedMarkerSplits()
    ensures var s := RState(1, "abcdefgh");
      var o1 := Deliver(s, "\U{FFFD}i.");
      var o2 := Deliver(o1.next, "1i.");
      && o1 == StepOutcome(RState(1, ""), Acked("-1", Some("abcdefgh")))
      && o2 == StepOutcome(RState(0, ""), Acked("1", Some("i.")))
  {
    var c := "\U{FFFD}i.";
    assert Prefix(c, Receiving.BUFFER_SIZE) == c;
    TrimKeeps(c);
    assert c[0] == '\U{FFFD}' && c[1..] == "i.";
    assert Trim(c) == c && NumericValue(c[0]) == -1;
    assert IntToString(-1) == "-1";
    assert EndsWith(c[1..], END_MARKER);
    var o1 := Deliver(RState(1, "abcdefgh"), c);
    assert o1 == Accept(RState(1, "abcdefgh"), c);
    assert o1 == StepOutcome(RState(1, ""), Acked("-1", Some("abcdefgh")));
    var p := "1i.";
    assert Prefix(p, Receiving.BUFFER_SIZE) == p;
    TrimKeeps(p);
    assert p[0] == '1' && p[1..] == "i.";
    assert Trim(p) == p;
    BitStrings();
    assert Deliver(o1.next, p) == Accept(RState(1, ""), p);
    assert "" + "i." == "i.";
  }

  /** The intended handling on the same two datagrams: the corrupted copy
      changes nothing, and the retransmission completes the whole message. */
  lemma CorruptedMarkerKept()
    ensures var s := RState(1, "abcdefgh");
      var o1 := AcceptIntended(s, Trim(Prefix("\U{FFFD}i.", Receiving.BUFFER_SIZE)));
      var o2 := AcceptIntended(o1.next, Trim(Prefix("1i.", Receiving.BUFFER_SIZE)));
      && o1 == StepOutcome(s, Acked("-1", None))
      && o2 == StepOutcome(RState(0, ""), Acked("1", Some("abcdefghi.")))
  {
    var c := "\U{FFFD}i.";
    assert Prefix(c, Receiving.BUFFER_SIZE) == c;
    TrimKeeps(c);
    assert c[0] == '\U{FFFD}' && c[1..] == "i.";
    assert IntToString(-1) == "-1";
    var p := "1i.";
    assert Prefix(p, Receiving.BUFFER_SIZE) == p;
    TrimKeeps(p);
    assert p[0] == '1' && p[1..] == "i.";
    assert "abcdefgh" + "i." == "abcdefghi.";
    BitStrings();
  }

  /** The code as written, with no corruption at all: the receiver has reported
      the message and expects bit 0 again, but the acknowledgment of "1i." was
      lost. The sender's copy of "1i." is a rejected duplicate, yet its marker
      reports a second, empty message. */
  lemma LostAckDuplicateReported()
    ensures Deliver(RState(0, ""), "1i.") == StepOutcome(RState(0, ""), Acked("1", Some("")))
  {
    var p := "1i.";
    assert Prefix(p, Receiving.BUFFER_SIZE) == p;
    TrimKeeps(p);
    assert p[0] == '1' && p[1..] == "i.";
    assert Trim(p) == p;
    BitStrings();
    assert Deliver(RState(0, ""), p) == Accept(RState(0, ""), p);
  }

  /** The intended handling of that duplicate: it is acknowledged again and
      reports nothing. */
  lemma LostAckDuplicateIgnored()
    ensures AcceptIntended(RState(0, ""), Trim(Prefix("1i.", Receiving.BUFFER_SIZE)))
         == StepOutcome(RState(0, ""), Acked("1", None))
  {
    var p := "1i.";
    assert Prefix(p, Receiving.BUFFER_SIZE) == p;
    TrimKeeps(p);
    assert p[0] == '1' && p[1..] == "i.";
    BitStrings();
  }
}

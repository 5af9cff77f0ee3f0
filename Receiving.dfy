/** The receiving side of the stop-and-wait protocol: it parses the sequence digit,
    accepts a segment only when the digit is the expected bit, acknowledges every
    parsed segment with the decimal text of the value parsed from its first
    character, and reports and clears the reassembly buffer when a segment ends
    with the end-of-message marker. */
module Receiving {
  import opened JavaStrings

  /** Bytes the receive buffer holds; a longer datagram is cut to this length. */
  const BUFFER_SIZE: nat := 10
  /** The end-of-message marker. */
  const END_MARKER: char := '.'

  /** The receiver's state: the expected sequence bit and the reassembly buffer. */
  datatype RState = RState(expected: int, buffer: string)

  /** What handling one datagram produces. `EmptySegment` is the datagram whose
      trimmed text has no first character to parse: the receive loop ends there. */
  datatype Reply = Acked(ack: string, complete: Option<string>) | EmptySegment

  datatype StepOutcome = StepOutcome(next: RState, reply: Reply)

  const Initial: RState := RState(0, "")

  /** Handling of the received text once it has been cut to the buffer and
      prepared: parse, accept or reject, acknowledge, and check for the marker. */
  function Accept(s: RState, data: string): (o: StepOutcome)
  {
    if data == [] then StepOutcome(s, EmptySegment)
    else
      var number := NumericValue(data[0]);
      var segment := data[1..];
      var accepted := number == s.expected;
      var buffer := if accepted then s.buffer + segment else s.buffer;
      var expected := if accepted then 1 - s.expected else s.expected;
      var ack := IntToString(number);
      if EndsWith(segment, END_MARKER) then StepOutcome(RState(expected, ""), Acked(ack, Some(buffer)))
      else StepOutcome(RState(expected, buffer), Acked(ack, None))
  }

  /** One pass of the receive loop on a datagram payload: the text is cut to the
      receive buffer and trimmed before it is parsed. */
  function Deliver(s: RState, datagram: string): StepOutcome
  {
    Accept(s, Trim(Prefix(datagram, BUFFER_SIZE)))
  }

  /** The same pass without the trim (see `DeliverAll`). */
  function DeliverUntrimmed(s: RState, datagram: string): StepOutcome
  {
    Accept(s, Prefix(datagram, BUFFER_SIZE))
  }

  /** The expected bit stays 0 or 1; it flips exactly when the parsed value is
      the expected one; the acknowledgment is the decimal text of the parsed
      value (the digit itself for '0' to '9', "10" to "35" for a Latin letter,
      "-1" for any other character), not the expected bit; only empty text
      fails. */
  lemma AcceptBit(s: RState, data: string)
    requires s.expected == 0 || s.expected == 1
    ensures var o := Accept(s, data);
      && (o.next.expected == 0 || o.next.expected == 1)
      && (o.reply.EmptySegment? <==> data == [])
      && (data != [] ==>
           && (o.next.expected != s.expected <==> NumericValue(data[0]) == s.expected)
           && o.reply.ack == IntToString(NumericValue(data[0])))
  {
  }

  /** An accepted segment is appended to the buffer; a rejected one (a duplicate,
      or a corrupted digit) leaves it alone. If the segment ends with the marker
      the buffer, with or without the segment, is reported and then emptied;
      this happens for a rejected segment too. */
  lemma AcceptBuffer(s: RState, data: string)
    requires data != []
    ensures var o := Accept(s, data);
      var kept := if NumericValue(data[0]) == s.expected then s.buffer + data[1..] else s.buffer;
      && o.reply.Acked?
      && (o.reply.complete.Some? <==> EndsWith(data[1..], END_MARKER))
      && (EndsWith(data[1..], END_MARKER) ==> o.reply.complete.value == kept && o.next.buffer == "")
      && (!EndsWith(data[1..], END_MARKER) ==> o.next.buffer == kept)
  {
  }

  /** A segment received twice in a row changes the state only once: its second
      copy is rejected, because the expected bit has moved past it, and it is
      acknowledged with the same digit. */
  lemma {:induction false} DuplicateIgnored(s: RState, datagram: string)
    ensures var first := Deliver(s, datagram);
      var second := Deliver(first.next, datagram);
      && second.next == first.next
      && second.reply.Acked? == first.reply.Acked?
      && (first.reply.Acked? ==> second.reply.ack == first.reply.ack)
  {
    var data := Trim(Prefix(datagram, BUFFER_SIZE));
    if data != [] {
      var number := NumericValue(data[0]);
      var first := Accept(s, data);
      if number == s.expected {
        assert first.next.expected == 1 - s.expected != number;
      } else {
        assert first.next.expected == s.expected;
      }
    }
  }

  /** The handling evidently intended: the end-of-message marker completes the
      message only when its segment is accepted. As written (`Accept`), a
      rejected segment that ends with the marker still reports and clears the
      buffer. */
  function AcceptIntended(s: RState, data: string): (o: StepOutcome)
  {
    if data == [] then StepOutcome(s, EmptySegment)
    else
      var number := NumericValue(data[0]);
      var ack := IntToString(number);
      if number != s.expected then StepOutcome(s, Acked(ack, None))
      else
        var buffer := s.buffer + data[1..];
        if EndsWith(data[1..], END_MARKER) then StepOutcome(RState(1 - s.expected, ""), Acked(ack, Some(buffer)))
        else StepOutcome(RState(1 - s.expected, buffer), Acked(ack, None))
  }

  /** The intended handling leaves the state alone on every rejected segment,
      acknowledges every segment as written does, and agrees with the code as
      written on every accepted or empty one. */
  lemma AcceptIntendedSpec(s: RState, data: string)
    ensures var o := AcceptIntended(s, data);
      && (data != [] && NumericValue(data[0]) != s.expected ==> o.next == s && o.reply.complete == None)
      && (data == [] || NumericValue(data[0]) == s.expected ==> o == Accept(s, data))
      && (o.reply.Acked? ==> Accept(s, data).reply.Acked? && o.reply.ack == Accept(s, data).reply.ack)
  {
  }

  /** The final state of a run of the receive loop and its replies, in order. */
  datatype Run = Run(final: RState, replies: seq<Reply>)

  /** One pass, as written (`trimmed`) or without the trim. */
  function Handle(s: RState, datagram: string, trimmed: bool): StepOutcome
  {
    if trimmed then Deliver(s, datagram) else DeliverUntrimmed(s, datagram)
  }

  /** The receive loop over a finite feed of datagrams: every reply in order, and
      the final state. The loop stops at the first datagram with empty text.
      `trimmed` selects the loop as written (true) or without the trim. */
  function DeliverAll(s: RState, feed: seq<string>, trimmed: bool): (r: Run)
    ensures |r.replies| <= |feed|
    ensures forall k :: 0 <= k < |r.replies| - 1 ==> r.replies[k].Acked?
    decreases |feed|
  {
    if feed == [] then Run(s, [])
    else
      var o := Handle(s, feed[0], trimmed);
      if o.reply.EmptySegment? then Run(o.next, [o.reply])
      else
        var rest := DeliverAll(o.next, feed[1..], trimmed);
        Run(rest.final, [o.reply] + rest.replies)
  }

  /** The run over a feed whose first datagram is acknowledged. */
  lemma DeliverAllCons(s: RState, feed: seq<string>, trimmed: bool)
    requires feed != [] && Handle(s, feed[0], trimmed).reply.Acked?
    ensures var o := Handle(s, feed[0], trimmed);
      var rest := DeliverAll(o.next, feed[1..], trimmed);
      DeliverAll(s, feed, trimmed) == Run(rest.final, [o.reply] + rest.replies)
  {
  }

  /** Over any feed the expected bit stays 0 or 1. */
  lemma {:induction false} DeliverAllBit(s: RState, feed: seq<string>, trimmed: bool)
    requires s.expected == 0 || s.expected == 1
    ensures var r := DeliverAll(s, feed, trimmed); r.final.expected == 0 || r.final.expected == 1
    decreases |feed|
  {
    if feed != [] {
      var data := if trimmed then Trim(Prefix(feed[0], BUFFER_SIZE)) else Prefix(feed[0], BUFFER_SIZE);
      AcceptBit(s, data);
      DeliverAllBit(Accept(s, data).next, feed[1..], trimmed);
    }
  }

  /** The messages reported as complete, in order. */
  function Completed(replies: seq<Reply>): seq<string>
    decreases |replies|
  {
    if replies == [] then []
    else
      var rest := Completed(replies[1..]);
      if replies[0].Acked? && replies[0].complete.Some? then [replies[0].complete.value] + rest else rest
  }

  class Receiver {
    var expectedSequenceNumber: int
    var receivedMessage: string

    ghost function State(): RState
      reads this
    {
      RState(expectedSequenceNumber, receivedMessage)
    }

    ghost predicate Valid()
      reads this
    {
      expectedSequenceNumber == 0 || expectedSequenceNumber == 1
    }

    constructor ()
      ensures Valid() && State() == Initial
    {
      expectedSequenceNumber := 0;
      receivedMessage := "";
    }

    /** Handles one received datagram payload and returns the acknowledgment
        text to send back and the message completed by it, if any. */
    method Step(datagram: string) returns (reply: Reply)
      requires Valid()
      modifies this
      ensures Valid()
      ensures Deliver(old(State()), datagram) == StepOutcome(State(), reply)
    {
      var data := Trim(Prefix(datagram, BUFFER_SIZE));
      if |data| == 0 {
        return EmptySegment;
      }
      var sequenceNumber := NumericValue(data[0]);
      var messageSegment := data[1..];
      if sequenceNumber == expectedSequenceNumber {
        receivedMessage := receivedMessage + messageSegment;
        expectedSequenceNumber := 1 - expectedSequenceNumber;
      }
      var ack := IntToString(sequenceNumber);
      if EndsWith(messageSegment, END_MARKER) {
        reply := Acked(ack, Some(receivedMessage));
        receivedMessage := "";
      } else {
        reply := Acked(ack, None);
      }
    }

    /** The receive loop over a finite feed: handles each datagram in turn and
        stops after one whose text is empty. */
    method Receive(feed: seq<string>) returns (replies: seq<Reply>)
      requires Valid()
      modifies this
      ensures Valid()
      ensures DeliverAll(old(State()), feed, true) == Run(State(), replies)
    {
      ghost var whole := DeliverAll(State(), feed, true);
      replies := [];
      var i := 0;
      while i < |feed|
        invariant i <= |feed| && Valid()
        invariant RunResumes(whole, replies, DeliverAll(State(), feed[i..], true))
      {
        ghost var before := State();
        DeliverAllStep(whole, replies, before, feed[i..]);
        assert feed[i..][1..] == feed[i + 1..];
        var reply := Step(feed[i]);
        replies := replies + [reply];
        i := i + 1;
        if reply.EmptySegment? {
          return;
        }
      }
    }
  }

  /** `whole` is the replies so far followed by what the rest of the feed yields. */
  ghost predicate RunResumes(whole: Run, replies: seq<Reply>, rest: Run)
  {
    whole == Run(rest.final, replies + rest.replies)
  }

  /** One pass of the receive loop, in terms of `RunResumes`. */
  lemma DeliverAllStep(whole: Run, replies: seq<Reply>, s: RState, feed: seq<string>)
    requires feed != []
    requires RunResumes(whole, replies, DeliverAll(s, feed, true))
    ensures var o := Deliver(s, feed[0]);
      && (o.reply.EmptySegment? ==> whole == Run(o.next, replies + [o.reply]))
      && (o.reply.Acked? ==> RunResumes(whole, replies + [o.reply], DeliverAll(o.next, feed[1..], true)))
  {
  }
}

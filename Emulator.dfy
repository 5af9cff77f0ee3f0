/** The network emulator that relays datagrams between the two endpoints and,
    packet by packet, drops, delays, corrupts or plainly forwards them. */
module Emulator {

  /** Bytes in the relay's receive buffer. */
  const BUFFER_SIZE: nat := 54
  /** The two well-known endpoint ports the relay toggles between. */
  const PORT_A: int := 5000
  const PORT_B: int := 5001
  /** The artificial delay is this many milliseconds plus a draw in [0, DELAY_SPREAD). */
  const DELAY_BASE: int := 1500
  const DELAY_SPREAD: int := 500

  /** The loss, delay and corruption percentages given at start-up. */
  datatype Config = Config(lostPercent: int, delayedPercent: int, errorPercent: int)

  /** The random draws for one packet: three in [0, 100) for the three checks and
      one in [0, 500) for the length of a delay. A draw the packet's path does not
      reach is never looked at. */
  datatype Draws = Draws(loss: int, delay: int, error: int, pause: int)

  predicate ValidDraws(d: Draws)
  {
    0 <= d.loss < 100 && 0 <= d.delay < 100 && 0 <= d.error < 100 && 0 <= d.pause < DELAY_SPREAD
  }

  /** The fate of one packet. */
  datatype Fate = Lost | Delayed | Corrupted | Forwarded

  /** Loss is checked first, then delay and only then corruption; each check
      compares its draw with its percentage. */
  function Decide(d: Draws, cfg: Config): Fate
    requires ValidDraws(d)
  {
    if d.loss < cfg.lostPercent then Lost
    else if d.delay < cfg.delayedPercent then Delayed
    else if d.error < cfg.errorPercent then Corrupted
    else Forwarded
  }

  /** Loss depends on the loss draw alone, and it wins over everything else. */
  lemma LossFirst(d: Draws, cfg: Config)
    requires ValidDraws(d)
    ensures Decide(d, cfg) == Lost <==> d.loss < cfg.lostPercent
    ensures cfg.lostPercent >= 100 ==> Decide(d, cfg) == Lost
  {
  }

  /** A delayed packet is never corrupted, and whether a packet is delayed does
      not depend on the corruption draw; corruption is looked at only when the
      packet was neither lost nor delayed. */
  lemma Precedence(d: Draws, d': Draws, cfg: Config)
    requires ValidDraws(d) && ValidDraws(d')
    ensures d'.loss == d.loss && Decide(d, cfg) == Lost ==> Decide(d', cfg) == Lost
    ensures d'.loss == d.loss && d'.delay == d.delay && Decide(d, cfg) == Delayed ==> Decide(d', cfg) == Delayed
    ensures Decide(d, cfg) == Corrupted <==>
      d.loss >= cfg.lostPercent && d.delay >= cfg.delayedPercent && d.error < cfg.errorPercent
  {
  }

  /** With all three percentages at zero every packet is forwarded untouched. */
  lemma NoFaults(d: Draws)
    requires ValidDraws(d)
    ensures Decide(d, Config(0, 0, 0)) == Forwarded
  {
  }

  // ---------------------------------------------------------------------------
  // Corruption

  /** A buffer with its first byte replaced by its bitwise complement. */
  function Complemented(data: seq<bv8>): (r: seq<bv8>)
    requires |data| > 0
    ensures |r| == |data| && r[1..] == data[1..]
    ensures r[0] != data[0]
  {
    [!data[0]] + data[1..]
  }

  /** Corrupting twice restores the buffer. */
  lemma ComplementInvolution(data: seq<bv8>)
    requires |data| > 0
    ensures Complemented(Complemented(data)) == data
  {
    assert !!data[0] == data[0];
  }

  /** The ASCII sequence digits '0' (0x30) and '1' (0x31) corrupt to bytes above
      the ASCII range, so a corrupted segment never carries a valid digit. */
  lemma CorruptedDigit(data: seq<bv8>)
    requires |data| > 0 && (data[0] == 0x30 || data[0] == 0x31)
    ensures Complemented(data)[0] >= 0x80
  {
  }

  /** Corrupts the packet in place: complements byte 0 and leaves the rest. */
  method CorruptPacket(data: array<bv8>)
    requires data.Length > 0
    modifies data
    ensures data[..] == Complemented(old(data[..]))
  {
    data[0] := !data[0];
  }

  // ---------------------------------------------------------------------------
  // Forwarding

  /** The destination is the opposite well-known port. */
  function DestinationPort(sourcePort: int): (port: int)
    ensures port == PORT_A || port == PORT_B
    ensures sourcePort == PORT_A <==> port == PORT_B
  {
    if sourcePort == PORT_A then PORT_B else PORT_A
  }

  /** Between the two well-known ports the toggle is an involution. */
  lemma PortToggle(sourcePort: int)
    requires sourcePort == PORT_A || sourcePort == PORT_B
    ensures DestinationPort(sourcePort) != sourcePort
    ensures DestinationPort(DestinationPort(sourcePort)) == sourcePort
  {
  }

  /** The forwarded datagram carries the first `length` bytes of the buffer. */
  function ForwardedPayload(data: seq<bv8>, length: nat): (payload: seq<bv8>)
    requires length <= |data|
    ensures |payload| == length
    ensures forall k :: 0 <= k < length ==> payload[k] == data[k]
  {
    data[..length]
  }

  /** The delay in milliseconds for a pause draw. */
  function DelayMillis(pause: int): (ms: int)
    requires 0 <= pause < DELAY_SPREAD
    ensures 1500 <= ms <= 1999
  {
    DELAY_BASE + pause
  }

  /** What the relay does with one packet. */
  datatype Action = Dropped | SendNow(payload: seq<bv8>, port: int) | SendLater(payload: seq<bv8>, port: int, delayMillis: int)

  /** The action the relay takes for a packet whose buffer holds `data`, of which
      the first `length` bytes were received from `sourcePort`. */
  function Relay(data: seq<bv8>, length: nat, sourcePort: int, d: Draws, cfg: Config): Action
    requires |data| == BUFFER_SIZE && length <= |data| && ValidDraws(d)
  {
    var port := DestinationPort(sourcePort);
    match Decide(d, cfg)
    case Lost => Dropped
    case Delayed => SendLater(ForwardedPayload(data, length), port, DelayMillis(d.pause))
    case Corrupted => SendNow(ForwardedPayload(Complemented(data), length), port)
    case Forwarded => SendNow(ForwardedPayload(data, length), port)
  }

  /** Only a corrupted packet differs from what arrived, and then only in its
      first byte; every packet that is not dropped goes to the opposite port. */
  lemma RelayPayload(data: seq<bv8>, length: nat, sourcePort: int, d: Draws, cfg: Config)
    requires |data| == BUFFER_SIZE && length <= |data| && ValidDraws(d)
    ensures var a := Relay(data, length, sourcePort, d, cfg);
      && (a.Dropped? <==> d.loss < cfg.lostPercent)
      && (!a.Dropped? ==> |a.payload| == length && a.port == DestinationPort(sourcePort))
      && (!a.Dropped? && length > 0 ==>
            && a.payload[1..] == data[1..length]
            && (a.payload[0] == data[0] <==> Decide(d, cfg) != Corrupted))
  {
  }

  /** With all percentages at zero every packet is forwarded at once, unmodified. */
  lemma RelayNoFaults(data: seq<bv8>, length: nat, sourcePort: int, d: Draws)
    requires |data| == BUFFER_SIZE && length <= |data| && ValidDraws(d)
    ensures Relay(data, length, sourcePort, d, Config(0, 0, 0)) == SendNow(data[..length], DestinationPort(sourcePort))
  {
  }

  /** The per-packet branch of the relay loop: decides, corrupts the buffer in
      place when the packet is corrupted, and returns the action. */
  method HandlePacket(buffer: array<bv8>, length: nat, sourcePort: int, d: Draws, cfg: Config) returns (action: Action)
    requires buffer.Length == BUFFER_SIZE && length <= buffer.Length && ValidDraws(d)
    modifies buffer
    ensures action == Relay(old(buffer[..]), length, sourcePort, d, cfg)
    ensures buffer[..] == if Decide(d, cfg) == Corrupted then Complemented(old(buffer[..])) else old(buffer[..])
  {
    var port := DestinationPort(sourcePort);
    if d.loss < cfg.lostPercent {
      return Dropped;
    }
    if d.delay < cfg.delayedPercent {
      action := SendLater(buffer[..length], port, DELAY_BASE + d.pause);
    } else {
      if d.error < cfg.errorPercent {
        CorruptPacket(buffer);
      }
      action := SendNow(buffer[..length], port);
    }
  }

  /** A datagram as it arrives at the relay. */
  datatype Datagram = Datagram(payload: seq<bv8>, sourcePort: int)

  /** The receive buffer after a datagram lands in a fresh zeroed buffer: the
      payload, cut to the buffer, then zeros. */
  function Landed(payload: seq<bv8>): (data: seq<bv8>)
    ensures |data| == BUFFER_SIZE
    ensures data[..LandedLength(payload)] == payload[..LandedLength(payload)]
    ensures forall k :: LandedLength(payload) <= k < BUFFER_SIZE ==> data[k] == 0
  {
    if |payload| >= BUFFER_SIZE then payload[..BUFFER_SIZE]
    else payload + seq(BUFFER_SIZE - |payload|, _ => 0 as bv8)
  }

  /** The length `receive` reports: the payload's, cut to the buffer. */
  function LandedLength(payload: seq<bv8>): (length: nat)
    ensures length <= BUFFER_SIZE
    ensures length == |payload| || (|payload| > BUFFER_SIZE && length == BUFFER_SIZE)
  {
    if |payload| >= BUFFER_SIZE then BUFFER_SIZE else |payload|
  }

  /** The relay loop over a finite feed of datagrams, each with its draws: every
      packet gets its own fresh buffer, so a delayed packet keeps the bytes it
      arrived with. */
  method Run(feed: seq<Datagram>, draws: seq<Draws>, cfg: Config) returns (actions: seq<Action>)
    requires |draws| == |feed|
    requires forall k :: 0 <= k < |draws| ==> ValidDraws(draws[k])
    ensures |actions| == |feed|
    ensures forall k :: 0 <= k < |feed| ==>
      actions[k] == Relay(Landed(feed[k].payload), LandedLength(feed[k].payload), feed[k].sourcePort, draws[k], cfg)
  {
    actions := [];
    for i := 0 to |feed|
      invariant |actions| == i
      invariant forall k :: 0 <= k < i ==>
        actions[k] == Relay(Landed(feed[k].payload), LandedLength(feed[k].payload), feed[k].sourcePort, draws[k], cfg)
    {
      var payload := feed[i].payload;
      var buffer := new bv8[BUFFER_SIZE](_ => 0);
      var length := LandedLength(payload);
      for j := 0 to length
        invariant forall k :: 0 <= k < j ==> buffer[k] == payload[k]
        invariant forall k :: j <= k < BUFFER_SIZE ==> buffer[k] == 0
      {
        buffer[j] := payload[j];
      }
      assert buffer[..] == Landed(payload);
      var action := HandlePacket(buffer, length, feed[i].sourcePort, draws[i], cfg);
      actions := actions + [action];
    }
  }
}

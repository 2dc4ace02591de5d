/** One TCP connection (kernel/drivers/net/transport_protocols/tcp.c) as a value: what each routine
    does to the control block and which segments it transmits. Sequence numbers wrap at 2^32. */
module Tcp {
  import opened Common

  const SEQ := 0x1_0000_0000
  const RX_SIZE := 2048
  const MAX_SEGMENT := 536
  const RETRANSMIT_TICKS := 200
  const MAX_RETRANSMITS := 5

  datatype State = Closed | Listen | SynSent | SynReceived | Established | FinWait1 | FinWait2 | CloseWait | LastAck

  datatype Flags = Flags(syn: bool, fin: bool, rst: bool, psh: bool, ack: bool)

  const SYN := Flags(true, false, false, false, false)
  const SYN_ACK := Flags(true, false, false, false, true)
  const ACK := Flags(false, false, false, false, true)
  const PSH_ACK := Flags(false, false, false, true, true)
  const FIN_ACK := Flags(false, true, false, false, true)

  datatype Segment = Segment(seqno: nat, ackno: nat, flags: Flags, window: nat, data: seq<byte>)

  /** The control block; `rx` is the content of the receive ring, oldest byte first. */
  datatype Conn = Conn(
    state: State,
    una: nat,
    next: nat,
    rcv: nat,
    unacked: seq<byte>,
    unackedFlags: Flags,
    tick: nat,
    retries: nat,
    rx: seq<byte>,
    finReceived: bool)

  /** A slot as `alloc_slot` leaves it, with its first sequence number chosen. */
  function Fresh(iss: nat): Conn
  {
    Conn(Closed, iss, iss, 0, [], Flags(false, false, false, false, false), 0, 0, [], false)
  }

  function Plus(a: nat, b: nat): (r: nat)
    ensures r < SEQ
  { (a + b) % SEQ }

  lemma PlusPlus(i: nat, m: nat, n: nat)
    ensures Plus(Plus(i, m), n) == Plus(i, m + n)
  {}

  /** How many sequence numbers a segment takes: its bytes, and one each for SYN and FIN. */
  function SeqLen(flags: Flags, data: seq<byte>): nat
  {
    |data| + (if flags.syn then 1 else 0) + (if flags.fin then 1 else 0)
  }

  /** `build_and_send`. */
  function Build(c: Conn, seqno: nat, flags: Flags, data: seq<byte>): Segment
  {
    Segment(seqno, if flags.ack then c.rcv else 0, flags, if |c.rx| <= RX_SIZE then RX_SIZE - |c.rx| else 0, data)
  }

  /** `send_segment`: transmit at `send_next`, keep a copy, advance. */
  function SendSegment(c: Conn, flags: Flags, data: seq<byte>, now: nat): (Conn, Segment)
  {
    (c.(unacked := data, unackedFlags := flags, tick := now, retries := 0, next := Plus(c.next, SeqLen(flags, data))),
     Build(c, c.next, flags, data))
  }

  /** `send_ack`. */
  function AckNow(c: Conn): Segment { Build(c, c.next, ACK, []) }

  /** `tcp_connect`, up to its wait. */
  function Connect(iss: nat, now: nat): (Conn, Segment)
  {
    SendSegment(Fresh(iss).(state := SynSent), SYN, [], now)
  }

  /** A listener's answer to a SYN: the child connection. */
  function AcceptSyn(g: Segment, iss: nat, now: nat): (Conn, Segment)
  {
    SendSegment(Fresh(iss).(rcv := Plus(g.seqno, 1), state := SynReceived), SYN_ACK, [], now)
  }

  /** The part of `tcp_close` that sends a FIN. */
  function Close(c: Conn, now: nat): (Conn, Segment)
    requires c.state == Established || c.state == CloseWait
  {
    var (d, g) := SendSegment(c, FIN_ACK, [], now);
    (d.(state := if c.state == Established then FinWait1 else LastAck), g)
  }

  /** `tcp_close`. */
  function Shut(c: Conn, now: nat): (Conn, seq<Segment>)
  {
    match c.state
    case Listen => (c.(state := Closed), [])
    case SynSent => (c.(state := Closed), [])
    case Established => var (d, g) := Close(c, now); (d, [g])
    case CloseWait => var (d, g) := Close(c, now); (d, [g])
    case _ => (c, [])
  }

  /** `tcp_poll` on one open connection: retransmit, or give up after five retransmissions. */
  function Poll(c: Conn, now: nat): (Conn, seq<Segment>)
  {
    if c.state == Closed || c.state == Listen || c.una == c.next then (c, [])
    else if (now - c.tick) % SEQ <= RETRANSMIT_TICKS then (c, [])
    else if c.retries >= MAX_RETRANSMITS then (c.(state := Closed), [])
    else (c.(tick := now, retries := c.retries + 1), [Build(c, c.una, c.unackedFlags, c.unacked)])
  }

  /** `tcp_recv`: up to `n` bytes from the front of the ring. */
  function Recv(c: Conn, n: nat): (r: (Conn, seq<byte>))
    ensures r.1 + r.0.rx == c.rx && |r.1| == if |c.rx| < n then |c.rx| else n
  {
    var k := if |c.rx| < n then |c.rx| else n;
    (c.(rx := c.rx[k..]), c.rx[..k])
  }

  // ---- tcp_handle_packet, for a segment that matches an open connection ----

  function HandleAck(c: Conn, g: Segment): Conn
  {
    if !g.flags.ack || c.una == c.next || g.ackno != c.next then c
    else
      var acked := c.(una := c.next);
      match c.state
      case SynReceived => acked.(state := Established)
      case FinWait1 => if c.unackedFlags.fin then acked.(state := if c.finReceived then Closed else FinWait2) else acked
      case LastAck => if c.unackedFlags.fin then acked.(state := Closed) else acked
      case _ => acked
  }

  predicate TakesData(s: State) { s == Established || s == FinWait1 || s == FinWait2 }

  /** How many of the segment's bytes fit the ring. */
  function Room(c: Conn, g: Segment): (n: nat)
    ensures n <= |g.data|
  {
    if |c.rx| >= RX_SIZE then 0 else if |g.data| < RX_SIZE - |c.rx| then |g.data| else RX_SIZE - |c.rx|
  }

  function HandleData(c: Conn, g: Segment): (Conn, seq<Segment>)
  {
    if g.data == [] then (c, [])
    else if g.seqno == c.rcv && TakesData(c.state) then
      var n := Room(c, g);
      var d := c.(rx := c.rx + g.data[..n], rcv := Plus(c.rcv, n));
      (d, [AckNow(d)])
    else (c, [AckNow(c)])
  }

  function HandleFin(c: Conn, g: Segment): (Conn, seq<Segment>)
  {
    if !g.flags.fin || Plus(g.seqno, |g.data|) != c.rcv then (c, [])
    else
      var d := c.(rcv := Plus(c.rcv, 1), finReceived := true);
      (d.(state := match c.state case Established => CloseWait case FinWait2 => Closed case s => s), [AckNow(d)])
  }

  function Handle(c: Conn, g: Segment): (Conn, seq<Segment>)
  {
    if g.flags.rst then (c.(state := Closed), [])
    else if c.state == SynSent then
      if g.flags.syn && g.flags.ack && g.ackno == c.next then
        var d := c.(una := c.next, rcv := Plus(g.seqno, 1), state := Established);
        (d, [AckNow(d)])
      else (c, [])
    else
      var c1 := HandleAck(c, g);
      if c1.state == Closed then (c1, [])
      else
        var (c2, out2) := HandleData(c1, g);
        var (c3, out3) := HandleFin(c2, g);
        (c3, out2 + out3)
  }

  /** `send_reset`: the answer to a segment for no connection. */
  function Reset(g: Segment): Segment
  {
    if g.flags.ack then Segment(g.ackno, 0, Flags(false, false, true, false, false), 0, [])
    else Segment(0, Plus(g.seqno, SeqLen(g.flags, g.data)), Flags(false, false, true, false, true), 0, [])
  }
}

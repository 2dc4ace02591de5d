/** The receive ring under arbitrary traffic: nothing is assumed of the peer or the network. What a
    connection takes from any segments, in any order, is what its reader gets. */
module TcpRing {
  import opened Common
  import opened Tcp

  /** The segment acknowledges what is outstanding. */
  predicate Acks(c: Conn, g: Segment) { g.flags.ack && c.una != c.next && g.ackno == c.next }

  /** The connection is closed already, or this acknowledgement of its FIN closes it. */
  predicate Over(c: Conn, g: Segment)
  {
    || c.state == Closed
    || (Acks(c, g) && c.unackedFlags.fin && (c.state == LastAck || (c.state == FinWait1 && c.finReceived)))
  }

  /** The segment's payload is the next expected, in a state that takes data. */
  predicate InOrder(c: Conn, g: Segment)
  {
    && !g.flags.rst && g.seqno == c.rcv && !Over(c, g)
    && (|| c.state == Established || c.state == FinWait1 || c.state == FinWait2
        || (c.state == SynReceived && Acks(c, g)))
  }

  /** How many bytes of the segment are taken: all that fit the ring if it is in order, else none. */
  function Taken(c: Conn, g: Segment): nat
  {
    if !InOrder(c, g) || |c.rx| > RX_SIZE then 0
    else if |c.rx| + |g.data| <= RX_SIZE then |g.data|
    else RX_SIZE - |c.rx|
  }

  predicate SynTaken(c: Conn, g: Segment)
  {
    !g.flags.rst && c.state == SynSent && g.flags.syn && g.flags.ack && g.ackno == c.next
  }

  /** The FIN is taken when it comes right after the last byte taken. */
  predicate FinTaken(c: Conn, g: Segment)
  {
    && !g.flags.rst && c.state != SynSent && !Over(c, g) && g.flags.fin
    && Plus(g.seqno, |g.data|) == Plus(c.rcv, Taken(c, g))
  }

  /** What any segment does to the ring and to `recv_next`. */
  lemma RingConserved(c: Conn, g: Segment)
    requires |c.rx| <= RX_SIZE && c.rcv < SEQ
    ensures
      var d := Handle(c, g).0;
      && d.rx == c.rx + g.data[..Taken(c, g)] && |d.rx| <= RX_SIZE
      && d.rcv == (if SynTaken(c, g) then Plus(g.seqno, 1)
                   else Plus(c.rcv, Taken(c, g) + if FinTaken(c, g) then 1 else 0))
      && (c.state != SynSent ==> d.state != SynSent)
  {
    hide Plus, Room;
    PlusNone(c.rcv);
    PlusPlus(c.rcv, Taken(c, g), 1);
    var c1 := HandleAck(c, g);
    if c.state != SynSent { AckMeans(c, g); }
    assert c.rx + [] == c.rx && g.data[..0] == [];
    if !g.flags.rst && c.state != SynSent && !Over(c, g) {
      DataTaken(c1, g);
    }
  }

  lemma AckMeans(c: Conn, g: Segment)
    requires c.state != SynSent
    ensures var c1 := HandleAck(c, g);
      && c1.rx == c.rx && c1.rcv == c.rcv && c1.state != SynSent
      && (Over(c, g) <==> c1.state == Closed)
      && (!Over(c, g) ==> (TakesData(c1.state) <==> TakesData(c.state) || (c.state == SynReceived && Acks(c, g))))
  {}

  lemma DataTaken(c: Conn, g: Segment)
    requires |c.rx| <= RX_SIZE && c.rcv < SEQ
    ensures
      var d := HandleData(c, g).0;
      var fits := if |c.rx| + |g.data| <= RX_SIZE then |g.data| else RX_SIZE - |c.rx|;
      var n := if g.seqno == c.rcv && TakesData(c.state) then fits else 0;
      d == c.(rx := c.rx + g.data[..n], rcv := Plus(c.rcv, n)) && |d.rx| <= RX_SIZE
  {
    PlusNone(c.rcv);
    hide Plus;
    assert c.rx + [] == c.rx && g.data[..0] == [];
  }

  lemma PlusNone(a: nat)
    requires a < SEQ
    ensures Plus(a, 0) == a
  {}

  /** A bare acknowledgement of everything before `ackno`, sent with `held` bytes in the ring. */
  function Bare(c: Conn, ackno: nat, held: nat): Segment
    requires held <= RX_SIZE
  {
    Segment(c.next, ackno, Flags(false, false, false, false, true), RX_SIZE - held, [])
  }

  /** What answers any segment: a segment with data is acknowledged up to the last byte taken, whether or
      not any was, and so is a FIN or a SYN-ACK that is taken; nothing else is answered. */
  lemma RepliesAre(c: Conn, g: Segment)
    requires |c.rx| <= RX_SIZE && c.rcv < SEQ
    ensures |c.rx| + Taken(c, g) <= RX_SIZE
    ensures
      var held, upto := |c.rx| + Taken(c, g), Plus(c.rcv, Taken(c, g));
      Handle(c, g).1 ==
        if SynTaken(c, g) then [Bare(c, Plus(g.seqno, 1), |c.rx|)]
        else if g.flags.rst || c.state == SynSent || Over(c, g) then []
        else (if g.data != [] then [Bare(c, upto, held)] else [])
             + (if FinTaken(c, g) then [Bare(c, Plus(upto, 1), held)] else [])
  {
    hide Plus, Room;
    PlusNone(c.rcv);
    var c1 := HandleAck(c, g);
    if c.state != SynSent { AckMeans(c, g); }
    if !g.flags.rst && c.state != SynSent && !Over(c, g) {
      DataTaken(c1, g);
    }
  }

  /** The state after a segment, as a table. */
  function StateAfter(c: Conn, g: Segment): State
  {
    if g.flags.rst || (c.state != SynSent && Over(c, g)) then Closed
    else if SynTaken(c, g) then Established
    else
      match c.state
      case SynReceived => if !Acks(c, g) then SynReceived else if FinTaken(c, g) then CloseWait else Established
      case Established => if FinTaken(c, g) then CloseWait else Established
      case FinWait1 =>
        if !(Acks(c, g) && c.unackedFlags.fin) then FinWait1 else if FinTaken(c, g) then Closed else FinWait2
      case FinWait2 => if FinTaken(c, g) then Closed else FinWait2
      case s => s
  }

  /** Everything else about the connection after a segment. */
  lemma StatesAre(c: Conn, g: Segment)
    requires |c.rx| <= RX_SIZE && c.rcv < SEQ && c.state != Listen
    ensures
      var d := Handle(c, g).0;
      && d.state == StateAfter(c, g) && d.finReceived == (c.finReceived || FinTaken(c, g))
      && d.una == (if SynTaken(c, g) || (!g.flags.rst && c.state != SynSent && Acks(c, g)) then c.next else c.una)
      && d == c.(state := d.state, una := d.una, rcv := d.rcv, rx := d.rx, finReceived := d.finReceived)
  {
    hide Plus, Room;
    PlusNone(c.rcv);
    var c1 := HandleAck(c, g);
    if c.state != SynSent { AckMeans(c, g); }
    if !g.flags.rst && c.state != SynSent && !Over(c, g) {
      DataTaken(c1, g);
    }
  }

  /** What tcp_close does: a connection that carries data sends its FIN and half-closes; one that was never
      opened is closed at once; any other is left as it is. */
  lemma ShutIs(c: Conn, now: nat)
    requires |c.rx| <= RX_SIZE
    ensures
      var (d, out) := Shut(c, now);
      if c.state == Established || c.state == CloseWait then
        && out == [Segment(c.next, c.rcv, Flags(false, true, false, false, true), RX_SIZE - |c.rx|, [])]
        && d.state == (if c.state == Established then FinWait1 else LastAck)
        && d.next == Plus(c.next, 1) && d.una == c.una && d.rcv == c.rcv && d.rx == c.rx
      else
        out == [] && d == c.(state := if c.state == Listen || c.state == SynSent then Closed else c.state)
  {
    hide Plus;
  }

  /** A reset names what the sender of the refused segment will look for: the sequence number it expects
      next, or else the end of what it just sent. */
  lemma ResetFits(c: Conn, flags: Flags, data: seq<byte>, now: nat)
    ensures
      var (d, g) := SendSegment(c, flags, data, now);
      var r := Reset(g);
      && r.flags.rst && !r.flags.syn && !r.flags.fin && r.data == []
      && if flags.ack then r.seqno == d.rcv && !r.flags.ack else r.flags.ack && r.ackno == d.next
  {
    hide Plus;
  }

  /** Anything that can happen to a connection. */
  datatype Event =
    | Arrives(g: Segment)
    | Reads(n: nat)
    | Sends(flags: Flags, data: seq<byte>, now: nat)
    | Polls(now: nat)
    | Closes(now: nat)

  function After(c: Conn, e: Event): (Conn, seq<Segment>)
  {
    match e
    case Arrives(g) => Handle(c, g)
    case Reads(n) => (Recv(c, n).0, [])
    case Sends(flags, data, now) => var (d, g) := SendSegment(c, flags, data, now); (d, [g])
    case Polls(now) => Poll(c, now)
    case Closes(now) => Shut(c, now)
  }

  function Last(c: Conn, es: seq<Event>): Conn
    decreases |es|
  {
    if es == [] then c else Last(After(c, es[0]).0, es[1..])
  }

  /** The bytes an event takes from a segment, those it hands to the reader, and the FINs it takes. */
  function TakenBy(c: Conn, e: Event): seq<byte> { if e.Arrives? then e.g.data[..Taken(c, e.g)] else [] }

  function ReadBy(c: Conn, e: Event): seq<byte> { if e.Reads? then Recv(c, e.n).1 else [] }

  function FinsBy(c: Conn, e: Event): nat { if e.Arrives? && FinTaken(c, e.g) then 1 else 0 }

  /** The bytes taken from arriving segments over a run, oldest first. */
  function Accepted(c: Conn, es: seq<Event>): seq<byte>
    decreases |es|
  {
    if es == [] then [] else TakenBy(c, es[0]) + Accepted(After(c, es[0]).0, es[1..])
  }

  /** The bytes `tcp_recv` returned over a run, oldest first. */
  function Returned(c: Conn, es: seq<Event>): seq<byte>
    decreases |es|
  {
    if es == [] then [] else ReadBy(c, es[0]) + Returned(After(c, es[0]).0, es[1..])
  }

  function Fins(c: Conn, es: seq<Event>): nat
    decreases |es|
  {
    if es == [] then 0 else FinsBy(c, es[0]) + Fins(After(c, es[0]).0, es[1..])
  }

  /** Over any run the bytes read and the bytes in the ring are exactly the bytes taken, the ring never
      overflows, and after the handshake `recv_next` counts the bytes and FINs taken. */
  lemma {:induction false} RunConserved(c: Conn, es: seq<Event>)
    requires |c.rx| <= RX_SIZE && c.rcv < SEQ
    ensures Returned(c, es) + Last(c, es).rx == c.rx + Accepted(c, es)
    ensures |Last(c, es).rx| <= RX_SIZE && Last(c, es).rcv < SEQ
    ensures c.state != SynSent ==> Last(c, es).rcv == Plus(c.rcv, |Accepted(c, es)| + Fins(c, es))
    decreases |es|
  {
    hide *;
    RunNone(c);
    if es != [] {
      var e, d := es[0], After(c, es[0]).0;
      EventConserved(c, e);
      RunConserved(d, es[1..]);
      RunStep(c, es);
      Joined(ReadBy(c, e), d.rx, c.rx, TakenBy(c, e), Returned(d, es[1..]), Last(d, es[1..]).rx, Accepted(d, es[1..]));
      PlusPlus(c.rcv, |TakenBy(c, e)| + FinsBy(c, e), |Accepted(d, es[1..])| + Fins(d, es[1..]));
    }
  }

  lemma RunNone(c: Conn)
    requires c.rcv < SEQ
    ensures Last(c, []) == c && Accepted(c, []) == [] && Returned(c, []) == [] && Fins(c, []) == 0
    ensures Plus(c.rcv, 0) == c.rcv && [] + c.rx == c.rx == c.rx + []
  {}

  lemma Joined(got: seq<byte>, rx: seq<byte>, before: seq<byte>, taken: seq<byte>,
               read: seq<byte>, last: seq<byte>, more: seq<byte>)
    requires got + rx == before + taken && read + last == rx + more
    ensures (got + read) + last == before + (taken + more)
  {
    assert (got + read) + last == got + (read + last);
    assert got + (rx + more) == (got + rx) + more;
    assert (before + taken) + more == before + (taken + more);
  }

  lemma RunStep(c: Conn, es: seq<Event>)
    requires es != []
    ensures
      var d := After(c, es[0]).0;
      && Last(c, es) == Last(d, es[1..]) && Accepted(c, es) == TakenBy(c, es[0]) + Accepted(d, es[1..])
      && Returned(c, es) == ReadBy(c, es[0]) + Returned(d, es[1..])
      && Fins(c, es) == FinsBy(c, es[0]) + Fins(d, es[1..])
  {}

  lemma EventConserved(c: Conn, e: Event)
    requires |c.rx| <= RX_SIZE && c.rcv < SEQ
    ensures
      var d := After(c, e).0;
      && ReadBy(c, e) + d.rx == c.rx + TakenBy(c, e) && |d.rx| <= RX_SIZE && d.rcv < SEQ
      && (c.state != SynSent ==> d.state != SynSent && d.rcv == Plus(c.rcv, |TakenBy(c, e)| + FinsBy(c, e)))
  {
    if e.Arrives? {
      RingConserved(c, e.g);
    } else {
      var d := After(c, e).0;
      assert e.Reads? || d.rx == c.rx;
      assert c.rx + [] == c.rx;
    }
  }

  /** Every segment an event emits advertises the free space of the ring as the event leaves it. */
  lemma WindowIsFreeSpace(c: Conn, e: Event)
    requires |c.rx| <= RX_SIZE && c.rcv < SEQ
    ensures
      var (d, out) := After(c, e);
      |d.rx| <= RX_SIZE && forall i | 0 <= i < |out| :: out[i].window == RX_SIZE - |d.rx|
  {
    EventConserved(c, e);
  }

  /** In any run, every segment emitted advertises the free space at that moment. */
  lemma {:induction false} WindowsOverRuns(c: Conn, es: seq<Event>, k: nat)
    requires |c.rx| <= RX_SIZE && c.rcv < SEQ && k < |es|
    ensures
      var (d, out) := After(Last(c, es[..k]), es[k]);
      && d == Last(c, es[..k + 1]) && |d.rx| <= RX_SIZE
      && forall i | 0 <= i < |out| :: out[i].window == RX_SIZE - |d.rx|
  {
    RunConserved(c, es[..k]);
    WindowIsFreeSpace(Last(c, es[..k]), es[k]);
    LastOne(c, es, k);
  }

  lemma {:induction false} LastOne(c: Conn, es: seq<Event>, k: nat)
    requires k < |es|
    ensures Last(c, es[..k + 1]) == After(Last(c, es[..k]), es[k]).0
    decreases k
  {
    hide After;
    if k > 0 {
      var d := After(c, es[0]).0;
      LastOne(d, es[1..], k - 1);
      assert es[..k + 1][1..] == es[1..][..k] && es[..k][1..] == es[1..][..k - 1];
    } else {
      assert es[..1] == [es[0]] && es[..0] == [];
      assert Last(c, [es[0]]) == Last(After(c, es[0]).0, [es[0]][1..]);
    }
  }
}

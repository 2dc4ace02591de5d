/** Two endpoints running tcp.c over a channel that may lose, duplicate and reorder segments:
    anything ever transmitted can be delivered at any time, any number of times, or never. */
module TcpRuns {
  import opened Common
  import opened Tcp

  /** An endpoint and its history: the bytes its user sent, whether it sent a FIN, the bytes it
      accepted from the peer, those its user read, and every segment it transmitted. `begun` means
      it has sent its SYN, `heard` that it has taken the peer's. */
  datatype End = End(
    c: Conn,
    iss: nat,
    begun: bool,
    heard: bool,
    sent: seq<byte>,
    fin: bool,
    accepted: seq<byte>,
    read: seq<byte>,
    log: seq<Segment>)

  /** `a` connects, `b` listens. */
  datatype World = World(a: End, b: End)

  datatype Side = A | B

  function Me(w: World, x: Side): End { if x == A then w.a else w.b }

  function Peer(w: World, x: Side): End { if x == A then w.b else w.a }

  function Put(w: World, x: Side, e: End): World { if x == A then w.(a := e) else w.(b := e) }

  function Start(): World
  {
    var e := End(Fresh(0), 0, false, false, [], false, [], [], []);
    World(e, e.(c := e.c.(state := Listen)))
  }

  datatype Step =
    | ConnectStep(iss: nat, now: nat)
    | GiveUpStep                                   // tcp_connect's timeout, or tcp_close in SYN_SENT
    | SendStep(x: Side, data: seq<byte>, now: nat) // one chunk of tcp_send
    | CloseStep(x: Side, now: nat)
    | PollStep(x: Side, now: nat)
    | RecvStep(x: Side, n: nat)
    | DeliverStep(x: Side, i: nat, iss: nat, now: nat, answer: bool)

  /** How many of its own sequence numbers an endpoint has used: SYN, bytes, FIN. */
  function Used(e: End): nat
  {
    if !e.begun then 0 else 1 + |e.sent| + (if e.fin then 1 else 0)
  }

  /** How many of the peer's sequence numbers an endpoint has taken. */
  function Taken(e: End): nat
  {
    if !e.heard then 0 else 1 + |e.accepted| + (if e.c.finReceived then 1 else 0)
  }

  predicate Idle(e: End) { e.c.una == e.c.next }

  /** `tcp_send` asks for ESTABLISHED once; its later chunks go out even if the peer's FIN or a reset
      came between. */
  predicate CanSend(e: End)
  {
    e.begun && e.heard && !e.fin && (e.c.state == Established || e.c.state == CloseWait || e.c.state == Closed)
  }

  predicate CanClose(e: End) { e.c.state == Established || e.c.state == CloseWait }

  /** What the peer has not yet accepted. */
  function Rest(e: End, p: End): seq<byte> { if |p.accepted| <= |e.sent| then e.sent[|p.accepted|..] else [] }

  /** A chunk can be sent without harm: nothing is outstanding, or the peer is past `send_una`, where
      retransmissions start, or the chunk repeats the bytes that stand there. */
  predicate SafeSend(e: End, p: End, data: seq<byte>)
  {
    Idle(e) || (e.c.state == Established && (p.c.rcv != e.c.una || data <= Rest(e, p) + data))
  }

  /** A FIN can be sent without harm: nothing is outstanding, or the peer is past `send_una`. */
  predicate SafeClose(e: End, p: End) { Idle(e) || p.c.rcv != e.c.una }

  /** When a step may be taken. Sends and closes that do harm are left out (TcpHaste says what they do),
      and a direction uses fewer than 2^32 sequence numbers. */
  predicate Enabled(w: World, s: Step)
  {
    match s
    case ConnectStep(iss, _) => !w.a.begun && iss < SEQ
    case GiveUpStep => w.a.c.state == SynSent
    case SendStep(x, data, _) =>
      var e := Me(w, x);
      && CanSend(e) && SafeSend(e, Peer(w, x), data)
      && 0 < |data| <= MAX_SEGMENT && Used(e) + |data| < SEQ - 1
    case CloseStep(x, _) => CanClose(Me(w, x)) && SafeClose(Me(w, x), Peer(w, x))
    case PollStep(_, _) => true
    case RecvStep(x, _) => Me(w, x).c.state != Closed
    case DeliverStep(x, i, iss, _, _) => i < |Peer(w, x).log| && iss < SEQ
  }

  function Sends(e: End, r: (Conn, Segment)): End { e.(c := r.0, log := e.log + [r.1]) }

  /** Segment `g` reaches `e`. A closed endpoint either answers with a reset or, where a listener
      still owns the port, stays silent. */
  function Deliver(e: End, g: Segment, iss: nat, now: nat, answer: bool): End
  {
    if e.c.state == Closed then
      if answer && !g.flags.rst then e.(log := e.log + [Reset(g)]) else e
    else if e.c.state == Listen then
      if g.flags.syn && !g.flags.ack then
        Sends(e.(iss := iss, begun := true, heard := true), AcceptSyn(g, iss, now))
      else e
    else
      var (d, out) := Handle(e.c, g);
      e.(c := d, log := e.log + out,
         heard := e.heard || (e.c.state == SynSent && d.state == Established),
         accepted := e.accepted + if |d.rx| >= |e.c.rx| then d.rx[|e.c.rx|..] else [])
  }

  function Next(w: World, s: Step): World
    requires Enabled(w, s)
  {
    match s
    case ConnectStep(iss, now) => w.(a := Sends(w.a.(iss := iss, begun := true), Connect(iss, now)))
    case GiveUpStep => w.(a := w.a.(c := w.a.c.(state := Closed)))
    case SendStep(x, data, now) =>
      var e := Me(w, x);
      Put(w, x, Sends(e, SendSegment(e.c, PSH_ACK, data, now)).(sent := e.sent + data))
    case CloseStep(x, now) =>
      var e := Me(w, x);
      Put(w, x, Sends(e, Close(e.c, now)).(fin := true))
    case PollStep(x, now) =>
      var e := Me(w, x);
      var (c, out) := Poll(e.c, now);
      Put(w, x, e.(c := c, log := e.log + out))
    case RecvStep(x, n) =>
      var e := Me(w, x);
      var (c, bytes) := Recv(e.c, n);
      Put(w, x, e.(c := c, read := e.read + bytes))
    case DeliverStep(x, i, iss, now, answer) =>
      Put(w, x, Deliver(Me(w, x), Peer(w, x).log[i], iss, now, answer))
  }

  // ---- the invariant ----

  /** The sequence number `off` places after the endpoint's first. */
  function At(e: End, off: nat): nat { Plus(e.iss, off) }

  /** A transmitted segment does no harm. It sits somewhere in the stream and its acknowledgement names
      no more than was taken. */
  ghost predicate TrueSegment(e: End, p: End, g: Segment)
  {
    if g.flags.rst then !g.flags.syn
    else
      && (exists off: nat :: off <= Used(e) && PlacedAt(e, p, g, off))
      && (g.flags.ack ==> exists r: nat :: 1 <= r <= Taken(e) && g.ackno == At(p, r))
      && (g.flags.ack || (g.flags.syn && !g.flags.fin && g.data == []))
      && (g.flags.syn ==> !g.flags.fin && g.data == [])
  }

  /** The segment sits `off` sequence numbers into the stream. It carries what was sent there, or it
      starts before what the peer has taken, so that the peer drops it. */
  ghost predicate PlacedAt(e: End, p: End, g: Segment, off: nat)
  {
    && g.seqno == At(e, off) && (g.flags.syn ==> off == 0) && (g.flags.fin ==> g.data == [])
    && (off < Taken(p) || Truthful(e, g.flags, g.data, off))
  }

  /** The bytes are the ones sent at this place, and a FIN follows all of them. */
  ghost predicate Truthful(e: End, flags: Flags, data: seq<byte>, off: nat)
  {
    && (data != [] ==> 1 <= off && off - 1 + |data| <= |e.sent| && data == e.sent[off - 1..off - 1 + |data|])
    && (flags.fin ==> e.fin && off == 1 + |e.sent|)
  }

  ghost predicate LogInv(e: End, p: End)
  {
    forall i | 0 <= i < |e.log| :: TrueSegment(e, p, e.log[i])
  }

  /** One endpoint against its peer. */
  ghost predicate EndInv(e: End, p: End) { BookInv(e, p) && StateInv(e) && LogInv(e, p) }

  /** The control block matches the histories. */
  ghost predicate BookInv(e: End, p: End)
  {
    && e.iss < SEQ && Used(e) < SEQ && (!e.fin ==> Used(e) < SEQ - 1) && |e.c.rx| <= RX_SIZE
    && (if e.begun then e.c.next == At(e, Used(e)) else e.c.state == Closed || e.c.state == Listen)
    && (e.begun ==> e.c.state != Listen)
    && (!e.begun ==> e.sent == [] && !e.fin && e.log == [] && !e.heard)
    && (e.heard ==> p.begun && e.c.rcv == At(p, Taken(e)))
    && (!e.heard ==> e.accepted == [] && !e.c.finReceived)
    && e.read + e.c.rx == e.accepted
    // what was taken is what the peer sent
    && Taken(e) <= Used(p)
    && e.accepted <= p.sent
    && (e.c.finReceived ==> p.fin && e.accepted == p.sent)
    && (e.begun ==> Pending(e, p))
  }

  /** The peer has taken everything, or the last `n` sequence numbers are not known to be taken. */
  ghost predicate Pending(e: End, p: End)
  {
    if Idle(e) then Taken(p) == Used(e) else exists n: nat :: Outstanding(e, p, n)
  }

  /** `send_una` lies `n` numbers back, and the copy kept for retransmission does no harm there. */
  ghost predicate Outstanding(e: End, p: End, n: nat)
  {
    var f := e.c.unackedFlags;
    && 1 <= n <= Used(e) && e.c.una == At(e, Used(e) - n) && Used(e) - n <= Taken(p)
    && !f.rst && SeqLen(f, e.c.unacked) > 0 && (f.ack ==> e.heard) && (!f.ack ==> f.syn)
    && (if f.syn then Used(e) == 1 && e.c.unacked == [] else n < Used(e))
    && f.fin == e.fin && (f.fin ==> e.c.unacked == [])
    && (Used(e) - n < Taken(p) || Truthful(e, f, e.c.unacked, Used(e) - n))
  }

  ghost predicate StateInv(e: End)
  {
    match e.c.state
    case Closed => true
    case Listen => !e.begun
    case SynSent => e.begun && !e.heard && Used(e) == 1 && !Idle(e) && e.c.unackedFlags.syn
    case SynReceived => e.begun && e.heard && Taken(e) == 1 && Used(e) == 1 && !Idle(e) && e.c.unackedFlags.syn
    case Established => e.begun && e.heard && !e.fin && !e.c.finReceived && (!Idle(e) ==> !e.c.unackedFlags.syn)
    case FinWait1 => e.begun && e.heard && e.fin && !Idle(e) && e.c.unackedFlags.fin
    case FinWait2 => e.begun && e.heard && e.fin && Idle(e) && !e.c.finReceived
    case CloseWait => e.begun && e.heard && !e.fin && e.c.finReceived && (!Idle(e) ==> !e.c.unackedFlags.syn)
    case LastAck => e.begun && e.heard && e.fin && e.c.finReceived && !Idle(e) && e.c.unackedFlags.fin
  }

  ghost predicate Inv(w: World)
  {
    && EndInv(w.a, w.b) && EndInv(w.b, w.a)
    && w.a.c.state != Listen && (w.b.begun ==> w.b.heard) && (w.b.c.state == Closed ==> w.b.begun)
  }

  // ---- histories only grow ----

  /** Offsets below 2^32 are told apart by their sequence numbers. */
  lemma AtInjective(e: End, m: nat, n: nat)
    requires m < SEQ && n < SEQ && At(e, m) == At(e, n)
    ensures m == n
  {
    var i := e.iss;
    assert (i + m) % SEQ == (i + n) % SEQ;
  }

  /** `e'` continues the history of `e`. */
  ghost predicate Grows(e: End, e': End)
  {
    && (e.begun ==> e'.begun && e'.iss == e.iss)
    && e.sent <= e'.sent && (e.fin ==> e'.fin && e'.sent == e.sent)
    && e.accepted <= e'.accepted && (e.heard ==> e'.heard) && (e.c.finReceived ==> e'.c.finReceived)
    && Taken(e) <= Taken(e')
  }

  lemma SegmentStays(e: End, e': End, p: End, g: Segment)
    requires e.begun && Grows(e, e') && TrueSegment(e, p, g)
    ensures TrueSegment(e', p, g)
  {
    if !g.flags.rst {
      var off: nat :| off <= Used(e) && PlacedAt(e, p, g, off);
      assert PlacedAt(e', p, g, off);
    }
  }

  lemma PeerSegmentStays(p: End, e: End, e': End, g: Segment)
    requires Grows(e, e') && (p.heard ==> e.begun) && TrueSegment(p, e, g)
    ensures TrueSegment(p, e', g)
  {
    hide Plus, Truthful;
    if !g.flags.rst {
      var off: nat :| off <= Used(p) && PlacedAt(p, e, g, off);
      assert PlacedAt(p, e', g, off);
      if g.flags.ack {
        var r: nat :| 1 <= r <= Taken(p) && g.ackno == At(e, r);
        assert g.ackno == At(e', r);
      }
    }
  }

  /** The peer's side stands when this side's history grows within what the peer has sent. */
  lemma PeerStands(p: End, e: End, e': End)
    requires EndInv(p, e) && Grows(e, e') && Taken(e') <= Used(p)
    ensures EndInv(p, e')
  {
    PeerBook(p, e, e');
    hide Grows, TrueSegment, StateInv;
    forall i | 0 <= i < |p.log| ensures TrueSegment(p, e', p.log[i]) {
      PeerSegmentStays(p, e, e', p.log[i]);
    }
  }

  lemma PeerBook(p: End, e: End, e': End)
    requires BookInv(p, e) && Grows(e, e') && Taken(e') <= Used(p)
    ensures BookInv(p, e')
  {
    hide Plus, Truthful;
    if p.begun && !Idle(p) {
      var n: nat :| Outstanding(p, e, n);
      assert Outstanding(p, e', n);
    }
  }

  /** The log of an endpoint whose history grew, with more true segments at its end. */
  lemma LogStands(e: End, e': End, p: End, out: seq<Segment>)
    requires e.begun && Grows(e, e') && e'.log == e.log + out
    requires LogInv(e, p) && forall i | 0 <= i < |out| :: TrueSegment(e', p, out[i])
    ensures LogInv(e', p)
  {
    forall i | 0 <= i < |e'.log| ensures TrueSegment(e', p, e'.log[i]) {
      if i < |e.log| { SegmentStays(e, e', p, e.log[i]); } else { assert e'.log[i] == out[i - |e.log|]; }
    }
  }

  // ---- each step keeps the invariant ----

  /** What is outstanding depends on the sending side alone. */
  lemma PendingStays(e: End, e': End, p: End)
    requires Pending(e, p) && e'.c.una == e.c.una && e'.c.next == e.c.next && e'.iss == e.iss
    requires e'.c.unacked == e.c.unacked && e'.c.unackedFlags == e.c.unackedFlags && e'.begun == e.begun
    requires e'.sent == e.sent && e'.fin == e.fin && (e.heard ==> e'.heard)
    ensures Pending(e', p)
  {
    hide Plus;
    if !Idle(e) {
      var n: nat :| Outstanding(e, p, n);
      assert Outstanding(e', p, n);
    }
  }

  /** A change of timers, of the ring or of the state leaves the books right. */
  lemma SameBook(e: End, e': End, p: End)
    requires BookInv(e, p) && e' == e.(c := e'.c, read := e'.read, log := e'.log)
    requires e'.c == e.c.(state := e'.c.state, tick := e'.c.tick, retries := e'.c.retries, rx := e'.c.rx)
    requires |e'.c.rx| <= RX_SIZE && e'.read + e'.c.rx == e.accepted && (!e.begun ==> e'.log == [])
    requires e'.c.state == e.c.state || (e.begun && e'.c.state == Closed)
    ensures BookInv(e', p) && Grows(e, e')
  {
    hide Plus, Pending;
    if e.begun { PendingStays(e, e', p); }
  }

  lemma ConnectKeeps(e: End, p: End, iss: nat, now: nat)
    requires EndInv(e, p) && EndInv(p, e) && !e.begun && e.c.state == Closed && iss < SEQ
    ensures
      var e' := Sends(e.(iss := iss, begun := true), Connect(iss, now));
      EndInv(e', p) && EndInv(p, e')
  {
    var e' := Sends(e.(iss := iss, begun := true), Connect(iss, now));
    assert PlacedAt(e', p, e'.log[0], 0);
    assert Outstanding(e', p, 1);
    PeerStands(p, e, e');
  }

  /** How far `send_una` lies behind: nothing when idle. Unless the peer is past it, it stands at the
      first byte the peer has not accepted. */
  lemma Behind(e: End, p: End) returns (n: nat)
    requires BookInv(e, p) && StateInv(e) && BookInv(p, e) && e.begun && e.heard && !e.fin
    requires Idle(e) || CanClose(e)
    ensures n <= Used(e) - 1 && e.c.una == At(e, Used(e) - n) && Used(e) - n <= Taken(p)
    ensures p.heard && p.c.rcv == At(e, Taken(p)) && Taken(p) == 1 + |p.accepted| && (n == 0 <==> Idle(e))
    ensures p.c.rcv == e.c.una <==> Used(e) - n == Taken(p)
    ensures e.c.next == At(e, Used(e)) && Used(e) == 1 + |e.sent| < SEQ - 1
  {
    hide Plus;
    if Idle(e) {
      n := 0;
    } else {
      n :| Outstanding(e, p, n);
    }
    if p.c.rcv == e.c.una { AtInjective(e, Used(e) - n, Taken(p)); }
  }

  lemma SendKeeps(e: End, p: End, data: seq<byte>, now: nat)
    requires EndInv(e, p) && EndInv(p, e) && CanSend(e) && SafeSend(e, p, data)
    requires 0 < |data| && Used(e) + |data| < SEQ - 1
    ensures
      var e' := Sends(e, SendSegment(e.c, PSH_ACK, data, now)).(sent := e.sent + data);
      EndInv(e', p) && EndInv(p, e')
  {
    hide Plus, LogInv, TrueSegment, BookInv, StateInv, Grows, SafeSend;
    var (c, g) := SendSegment(e.c, PSH_ACK, data, now);
    var e' := Sends(e, (c, g)).(sent := e.sent + data);
    SendBook(e, p, data, now);
    NewSegment(e', p, g, Used(e));
    LogStands(e, e', p, [g]);
    PeerStands(p, e, e');
  }

  lemma SendBook(e: End, p: End, data: seq<byte>, now: nat)
    requires BookInv(e, p) && StateInv(e) && BookInv(p, e) && CanSend(e) && SafeSend(e, p, data)
    requires 0 < |data| && Used(e) + |data| < SEQ - 1
    ensures
      var (c, g) := SendSegment(e.c, PSH_ACK, data, now);
      var e' := Sends(e, (c, g)).(sent := e.sent + data);
      && BookInv(e', p) && StateInv(e') && e.begun && Grows(e, e') && Taken(e') <= Used(p)
      && Used(e) <= Used(e') && PlacedAt(e', p, g, Used(e)) && Taken(e') >= 1 && g.ackno == At(p, Taken(e'))
  {
    var n := Behind(e, p);
    hide Plus, Outstanding;
    PlusPlus(e.iss, Used(e), |data|);
    NotIdle(e, Used(e) - n, n + |data|);
    assert (e.sent + data)[|e.sent|..] == data;
    SentOutstanding(e, p, data, now, n);
  }

  /** The new copy starts at `send_una`: it is true there, or the peer is past it. */
  lemma SentOutstanding(e: End, p: End, data: seq<byte>, now: nat, n: nat)
    requires e.begun && e.heard && !e.fin && data != [] && SafeSend(e, p, data) && (n == 0 <==> Idle(e))
    requires n <= Used(e) - 1 && e.c.una == At(e, Used(e) - n) && Used(e) - n <= Taken(p)
    requires Taken(p) == 1 + |p.accepted| && (p.c.rcv == e.c.una <==> Used(e) - n == Taken(p))
    ensures
      var e' := Sends(e, SendSegment(e.c, PSH_ACK, data, now)).(sent := e.sent + data);
      Outstanding(e', p, n + |data|)
  {
    hide Plus;
    var off := Used(e) - n;
    if off == Taken(p) {
      assert (e.sent + data)[off - 1..] == e.sent[off - 1..] + data;
      if n == 0 { assert e.sent[off - 1..] + data == data; }
      assert data <= (e.sent + data)[off - 1..];
      assert data == (e.sent + data)[off - 1..][..|data|];
    }
  }

  /** A segment placed in the stream that acknowledges all that was taken is true. */
  lemma NewSegment(e: End, p: End, g: Segment, off: nat)
    requires !g.flags.rst && off <= Used(e) && PlacedAt(e, p, g, off) && (g.flags.syn ==> !g.flags.fin && g.data == [])
    requires if g.flags.ack then Taken(e) >= 1 && g.ackno == At(p, Taken(e)) else g.flags.syn
    ensures TrueSegment(e, p, g)
  {}

  /** Advancing by fewer than 2^32 numbers moves `send_next`. */
  lemma NotIdle(e: End, m: nat, n: nat)
    requires 0 < n && m + n < SEQ
    ensures At(e, m + n) != At(e, m)
  {
    if At(e, m + n) == At(e, m) { AtInjective(e, m + n, m); }
  }

  lemma CloseKeeps(e: End, p: End, now: nat)
    requires EndInv(e, p) && EndInv(p, e) && CanClose(e) && SafeClose(e, p)
    ensures
      var e' := Sends(e, Close(e.c, now)).(fin := true);
      EndInv(e', p) && EndInv(p, e')
  {
    hide Plus, LogInv, TrueSegment, BookInv, StateInv, Grows, SafeClose;
    var (c, g) := Close(e.c, now);
    var e' := Sends(e, (c, g)).(fin := true);
    CloseBook(e, p, now);
    NewSegment(e', p, g, Used(e));
    LogStands(e, e', p, [g]);
    PeerStands(p, e, e');
  }

  lemma CloseBook(e: End, p: End, now: nat)
    requires BookInv(e, p) && StateInv(e) && BookInv(p, e) && CanClose(e) && SafeClose(e, p)
    ensures
      var (c, g) := Close(e.c, now);
      var e' := Sends(e, (c, g)).(fin := true);
      && BookInv(e', p) && StateInv(e') && e.begun && Grows(e, e') && Taken(e') <= Used(p)
      && Used(e) <= Used(e') && PlacedAt(e', p, g, Used(e)) && Taken(e') >= 1 && g.ackno == At(p, Taken(e'))
  {
    var n := Behind(e, p);
    hide Plus, Outstanding;
    PlusPlus(e.iss, Used(e), 1);
    NotIdle(e, Used(e) - n, n + 1);
    ClosedOutstanding(e, p, now, n);
  }

  lemma ClosedOutstanding(e: End, p: End, now: nat, n: nat)
    requires e.begun && e.heard && !e.fin && CanClose(e) && SafeClose(e, p) && (n == 0 <==> Idle(e))
    requires n <= Used(e) - 1 && e.c.una == At(e, Used(e) - n) && Used(e) - n <= Taken(p)
    requires p.c.rcv == e.c.una <==> Used(e) - n == Taken(p)
    ensures Outstanding(Sends(e, Close(e.c, now)).(fin := true), p, n + 1)
  {
    hide Plus;
  }

  /** A retransmission sits where `send_una` is. */
  lemma RetransmitTrue(e: End, p: End, now: nat)
    requires BookInv(e, p) && e.begun && Poll(e.c, now).1 != []
    ensures TrueSegment(e, p, Poll(e.c, now).1[0])
  {
    hide Plus, TrueSegment;
    var g := Poll(e.c, now).1[0];
    var n: nat :| Outstanding(e, p, n);
    NewSegment(e, p, g, Used(e) - n);
  }

  lemma PollKeeps(e: End, p: End, now: nat)
    requires EndInv(e, p) && EndInv(p, e)
    ensures
      var (c, out) := Poll(e.c, now);
      var e' := e.(c := c, log := e.log + out);
      EndInv(e', p) && EndInv(p, e')
  {
    hide Plus, LogInv, TrueSegment, PlacedAt, BookInv, StateInv, Grows;
    var (c, out) := Poll(e.c, now);
    var e' := e.(c := c, log := e.log + out);
    PollBook(e, p, now);
    if e.begun {
      if out != [] {
        RetransmitTrue(e, p, now);
        SegmentStays(e, e', p, out[0]);
      }
      LogStands(e, e', p, out);
    } else {
      LogEmpty(e', p);
    }
    PeerStands(p, e, e');
  }

  lemma PollBook(e: End, p: End, now: nat)
    requires BookInv(e, p) && StateInv(e) && BookInv(p, e)
    ensures
      var (c, out) := Poll(e.c, now);
      var e' := e.(c := c, log := e.log + out);
      && BookInv(e', p) && StateInv(e') && Grows(e, e') && Taken(e') <= Used(p)
      && |out| <= 1 && (!e.begun ==> e'.log == [])
  {
    var (c, out) := Poll(e.c, now);
    var e' := e.(c := c, log := e.log + out);
    SameBook(e, e', p);
    hide BookInv, Grows;
  }

  lemma LogEmpty(e: End, p: End)
    requires e.log == []
    ensures LogInv(e, p)
  {}

  lemma RecvKeeps(e: End, p: End, n: nat)
    requires EndInv(e, p) && EndInv(p, e)
    ensures
      var (c, bytes) := Recv(e.c, n);
      var e' := e.(c := c, read := e.read + bytes);
      EndInv(e', p) && EndInv(p, e')
  {
    hide Plus, LogInv, TrueSegment, PlacedAt, BookInv, StateInv, Grows;
    var (c, bytes) := Recv(e.c, n);
    var e' := e.(c := c, read := e.read + bytes);
    RecvBook(e, p, n);
    if e.begun { LogStands(e, e', p, []); } else { LogEmpty(e', p); }
    PeerStands(p, e, e');
  }

  lemma RecvBook(e: End, p: End, n: nat)
    requires BookInv(e, p) && StateInv(e) && BookInv(p, e)
    ensures
      var (c, bytes) := Recv(e.c, n);
      var e' := e.(c := c, read := e.read + bytes);
      BookInv(e', p) && StateInv(e') && Grows(e, e') && Taken(e') <= Used(p) && (!e.begun ==> e'.log == [])
  {
    var (c, bytes) := Recv(e.c, n);
    var e' := e.(c := c, read := e.read + bytes);
    assert e.read + bytes + c.rx == e.read + e.c.rx;
    SameBook(e, e', p);
    hide BookInv, Grows;
  }
}

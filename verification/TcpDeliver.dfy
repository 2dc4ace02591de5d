/** Delivering any transmitted segment keeps the invariant. */
module TcpDeliver {
  import opened Common
  import opened Tcp
  import opened TcpRuns

  /** A segment from the peer's log acknowledges at most what the peer has taken; one that names
      `send_next` means the peer has taken everything. */
  lemma AckMeansTaken(e: End, p: End, g: Segment)
    requires BookInv(e, p) && BookInv(p, e) && TrueSegment(p, e, g) && e.begun
    requires !g.flags.rst && g.flags.ack && g.ackno == e.c.next
    ensures Taken(p) == Used(e)
  {
    hide Plus;
    var r: nat :| 1 <= r <= Taken(p) && g.ackno == At(e, r);
    AtInjective(e, r, Used(e));
  }

  /** A segment that starts at `recv_next` starts exactly after what was taken. */
  lemma PlaceOf(e: End, p: End, g: Segment)
    requires BookInv(e, p) && BookInv(p, e) && TrueSegment(p, e, g) && e.heard
    requires !g.flags.rst && g.seqno == e.c.rcv
    ensures PlacedAt(p, e, g, Taken(e)) && Truthful(p, g.flags, g.data, Taken(e))
  {
    hide Plus, Truthful;
    var off: nat :| off <= Used(p) && PlacedAt(p, e, g, off);
    AtInjective(p, off, Taken(e));
  }

  predicate Connected(s: State) { s != Closed && s != Listen && s != SynSent }

  // ---- acknowledgement ----

  function AckEnd(e: End, g: Segment): End { e.(c := HandleAck(e.c, g)) }

  lemma AckKeeps(e: End, p: End, g: Segment)
    requires EndInv(e, p) && EndInv(p, e) && TrueSegment(p, e, g) && !g.flags.rst && Connected(e.c.state)
    ensures EndInv(AckEnd(e, g), p) && EndInv(p, AckEnd(e, g))
    ensures g.flags.fin || g.data != [] ==> AckEnd(e, g).c.state != SynReceived
  {
    hide Plus, LogInv, TrueSegment, PlacedAt, BookInv, StateInv, Grows, HandleAck;
    var e1 := AckEnd(e, g);
    AckBook(e, p, g);
    AckState(e, p, g);
    LogStands(e, e1, p, []);
    PeerStands(p, e, e1);
  }

  lemma AckBook(e: End, p: End, g: Segment)
    requires BookInv(e, p) && BookInv(p, e) && TrueSegment(p, e, g) && !g.flags.rst && Connected(e.c.state)
    ensures BookInv(AckEnd(e, g), p) && Grows(e, AckEnd(e, g)) && Taken(AckEnd(e, g)) <= Used(p)
    ensures AckEnd(e, g).log == e.log + []
  {
    hide Plus, TrueSegment, Pending;
    var e1 := AckEnd(e, g);
    if g.flags.ack && !Idle(e) && g.ackno == e.c.next {
      AckMeansTaken(e, p, g);
      AllTaken(e1, p);
    }
  }

  lemma AllTaken(e: End, p: End)
    requires Idle(e) && Taken(p) == Used(e)
    ensures Pending(e, p)
  {}

  lemma AckState(e: End, p: End, g: Segment)
    requires BookInv(e, p) && BookInv(p, e) && StateInv(e) && TrueSegment(p, e, g) && !g.flags.rst
    requires Connected(e.c.state)
    ensures StateInv(AckEnd(e, g)) && e.begun
    ensures g.flags.fin || g.data != [] ==> AckEnd(e, g).c.state != SynReceived
  {
    if e.c.state == SynReceived && g.flags.ack { AckNamesSyn(e, p, g); }
    if g.flags.fin || g.data != [] { AckedByPeer(p, e, g); }
    hide Plus, TrueSegment, BookInv;
  }

  /** Only a SYN goes without an acknowledgement. */
  lemma AckedByPeer(p: End, e: End, g: Segment)
    requires TrueSegment(p, e, g) && !g.flags.rst && (g.flags.fin || g.data != [])
    ensures g.flags.ack
  {}

  /** Before anything but the SYN is sent, every acknowledgement the peer makes is of the SYN. */
  lemma AckNamesSyn(e: End, p: End, g: Segment)
    requires BookInv(e, p) && BookInv(p, e) && TrueSegment(p, e, g) && e.begun && Used(e) == 1
    requires !g.flags.rst && g.flags.ack
    ensures g.ackno == e.c.next
  {}

  // ---- data ----

  function DataEnd(e: End, g: Segment): End
  {
    var (c, out) := HandleData(e.c, g);
    e.(c := c, log := e.log + out, accepted := e.accepted + if |c.rx| >= |e.c.rx| then c.rx[|e.c.rx|..] else [])
  }

  /** The bytes of an accepted segment continue what was accepted, and stay within what was sent. */
  lemma TakesInOrder(e: End, p: End, g: Segment)
    requires BookInv(e, p) && BookInv(p, e) && TrueSegment(p, e, g) && !g.flags.rst && e.heard
    requires g.data != [] && g.seqno == e.c.rcv
    ensures !e.c.finReceived && |e.accepted| + |g.data| <= |p.sent|
    ensures g.data == p.sent[|e.accepted|..|e.accepted| + |g.data|]
  {
    hide Plus, TrueSegment;
    PlaceOf(e, p, g);
  }

  lemma DataBook(e: End, p: End, g: Segment)
    requires BookInv(e, p) && StateInv(e) && BookInv(p, e) && TrueSegment(p, e, g) && !g.flags.rst
    requires Connected(e.c.state) && (g.data != [] ==> e.c.state != SynReceived)
    ensures
      var e2 := DataEnd(e, g);
      BookInv(e2, p) && StateInv(e2) && Grows(e, e2) && Taken(e2) <= Used(p) && e2.begun && e2.heard && e.begun
    ensures HandleData(e.c, g).1 == [] || HandleData(e.c, g).1 == [AckNow(DataEnd(e, g).c)]
  {
    OpenEnd(e, p);
    hide Plus, TrueSegment, PlacedAt, BookInv, StateInv, Grows;
    var e2 := DataEnd(e, g);
    if g.data != [] && g.seqno == e.c.rcv && TakesData(e.c.state) {
      TakesInOrder(e, p, g);
      TakenBook(e, p, g.data[..Room(e.c, g)], e2.log);
      assert e2.c.rx[|e.c.rx|..] == g.data[..Room(e.c, g)];
    } else {
      assert e2.c == e.c && e2.accepted == e.accepted;
      SameBook(e, e2, p);
      SameState(e, e2);
    }
  }

  lemma OpenEnd(e: End, p: End)
    requires BookInv(e, p) && StateInv(e) && Connected(e.c.state)
    ensures e.begun && e.heard && |e.c.rx| <= RX_SIZE && e.read + e.c.rx == e.accepted && Taken(e) <= Used(p)
  {}

  lemma SameState(e: End, e': End)
    requires StateInv(e) && e'.c == e.c && e'.begun == e.begun && e'.heard == e.heard
    requires e'.sent == e.sent && e'.fin == e.fin && e'.accepted == e.accepted
    ensures StateInv(e')
  {}

  /** Taking the next bytes of the peer's stream. */
  lemma TakenBook(e: End, p: End, bytes: seq<byte>, log: seq<Segment>)
    requires BookInv(e, p) && StateInv(e) && BookInv(p, e) && e.begun && e.heard && !e.c.finReceived
    requires |e.c.rx| + |bytes| <= RX_SIZE && |e.accepted| + |bytes| <= |p.sent|
    requires bytes == p.sent[|e.accepted|..|e.accepted| + |bytes|] && TakesData(e.c.state)
    ensures
      var e2 := e.(c := e.c.(rx := e.c.rx + bytes, rcv := Plus(e.c.rcv, |bytes|)),
                   accepted := e.accepted + bytes, log := log);
      BookInv(e2, p) && StateInv(e2) && Grows(e, e2) && Taken(e2) <= Used(p)
  {
    hide Plus, Pending;
    var e2 := e.(c := e.c.(rx := e.c.rx + bytes, rcv := Plus(e.c.rcv, |bytes|)),
                 accepted := e.accepted + bytes, log := log);
    PendingStays(e, e2, p);
    PlusPlus(p.iss, Taken(e), |bytes|);
    assert e.accepted + bytes == p.sent[..|e.accepted| + |bytes|];
    assert e.read + (e.c.rx + bytes) == e.accepted + bytes;
  }

  /** An acknowledgement sent now is true. */
  lemma AckNowTrue(e: End, p: End)
    requires BookInv(e, p) && e.begun && e.heard
    ensures TrueSegment(e, p, AckNow(e.c))
  {
    hide Plus, TrueSegment;
    NewSegment(e, p, AckNow(e.c), Used(e));
  }

  lemma DataKeeps(e: End, p: End, g: Segment)
    requires EndInv(e, p) && EndInv(p, e) && TrueSegment(p, e, g) && !g.flags.rst && Connected(e.c.state)
    requires g.data != [] ==> e.c.state != SynReceived
    ensures EndInv(DataEnd(e, g), p) && EndInv(p, DataEnd(e, g))
  {
    hide BookInv, StateInv, LogInv, TrueSegment, PlacedAt, Plus, Grows, HandleData;
    var e2 := DataEnd(e, g);
    DataBook(e, p, g);
    AckNowTrue(e2, p);
    LogStands(e, e2, p, HandleData(e.c, g).1);
    PeerStands(p, e, e2);
  }

  // ---- FIN ----

  function FinEnd(e: End, g: Segment): End
  {
    var (c, out) := HandleFin(e.c, g);
    e.(c := c, log := e.log + out)
  }

  lemma FinBook(e: End, p: End, g: Segment)
    requires BookInv(e, p) && StateInv(e) && BookInv(p, e) && TrueSegment(p, e, g) && !g.flags.rst
    requires Connected(e.c.state) && (g.flags.fin ==> e.c.state != SynReceived)
    ensures
      var e3 := FinEnd(e, g);
      BookInv(e3, p) && StateInv(e3) && Grows(e, e3) && Taken(e3) <= Used(p) && e3.begun && e3.heard && e.begun
    ensures HandleFin(e.c, g).1 == [] || HandleFin(e.c, g).1 == [AckNow(FinEnd(e, g).c)]
  {
    OpenEnd(e, p);
    var e3 := FinEnd(e, g);
    if g.flags.fin && Plus(g.seqno, |g.data|) == e.c.rcv {
      FinIsNext(e, p, g);
      FinTakenBook(e, p, e3);
    } else {
      hide Plus, TrueSegment, BookInv, StateInv, Grows;
      SameBook(e, e3, p);
      SameState(e, e3);
    }
  }

  lemma FinTakenBook(e: End, p: End, e3: End)
    requires BookInv(e, p) && StateInv(e) && e.begun && e.heard && p.fin && e.accepted == p.sent && !e.c.finReceived
    requires Connected(e.c.state) && e.c.state != SynReceived && e3 == e.(c := e3.c, log := e3.log)
    requires e3.c == e.c.(rcv := Plus(e.c.rcv, 1), finReceived := true, state := e3.c.state)
    requires e3.c.state == match e.c.state case Established => CloseWait case FinWait2 => Closed case s => s
    ensures BookInv(e3, p) && StateInv(e3) && Grows(e, e3) && Taken(e3) <= Used(p)
  {
    hide Plus, Pending;
    PendingStays(e, e3, p);
    PlusPlus(p.iss, Taken(e), 1);
  }

  /** A FIN that lands at `recv_next` follows every byte of the stream. */
  lemma FinIsNext(e: End, p: End, g: Segment)
    requires BookInv(e, p) && BookInv(p, e) && TrueSegment(p, e, g) && !g.flags.rst && e.heard
    requires g.flags.fin && Plus(g.seqno, |g.data|) == e.c.rcv
    ensures p.fin && e.accepted == p.sent && !e.c.finReceived
  {
    FinHasNoData(p, e, g);
    hide Plus, TrueSegment;
    PlaceOf(e, p, g);
  }

  lemma FinHasNoData(p: End, e: End, g: Segment)
    requires TrueSegment(p, e, g) && !g.flags.rst && g.flags.fin
    ensures g.data == [] && Plus(g.seqno, 0) == g.seqno
  {}

  lemma FinKeeps(e: End, p: End, g: Segment)
    requires EndInv(e, p) && EndInv(p, e) && TrueSegment(p, e, g) && !g.flags.rst && Connected(e.c.state)
    requires g.flags.fin ==> e.c.state != SynReceived
    ensures EndInv(FinEnd(e, g), p) && EndInv(p, FinEnd(e, g))
  {
    hide BookInv, StateInv, LogInv, TrueSegment, PlacedAt, Plus, Grows, HandleFin;
    var e3 := FinEnd(e, g);
    FinBook(e, p, g);
    AckNowTrue(e3, p);
    LogStands(e, e3, p, HandleFin(e.c, g).1);
    PeerStands(p, e, e3);
  }

  // ---- a whole delivery ----

  lemma SynAckKeeps(e: End, p: End, g: Segment)
    requires EndInv(e, p) && EndInv(p, e) && TrueSegment(p, e, g) && !g.flags.rst && e.c.state == SynSent
    requires g.flags.syn && g.flags.ack && g.ackno == e.c.next
    ensures
      var d := Handle(e.c, g).0;
      var e' := e.(c := d, heard := true, log := e.log + [AckNow(d)]);
      EndInv(e', p) && EndInv(p, e')
  {
    hide Plus, TrueSegment, LogInv, BookInv, Grows;
    var d := Handle(e.c, g).0;
    var e' := e.(c := d, heard := true, log := e.log + [AckNow(d)]);
    SynAckBook(e, p, g, e');
    AckNowTrue(e', p);
    LogStands(e, e', p, [AckNow(d)]);
    PeerStands(p, e, e');
  }

  lemma SynAckBook(e: End, p: End, g: Segment, e': End)
    requires BookInv(e, p) && StateInv(e) && BookInv(p, e) && TrueSegment(p, e, g) && !g.flags.rst
    requires e.c.state == SynSent && g.flags.syn && g.flags.ack && g.ackno == e.c.next
    requires e' == e.(c := Handle(e.c, g).0, heard := true, log := e'.log)
    ensures BookInv(e', p) && StateInv(e') && Grows(e, e') && Taken(e') <= Used(p)
  {
    AckMeansTaken(e, p, g);
    SynIsFirst(p, e, g);
    hide Plus, TrueSegment;
    assert Pending(e', p);
  }

  lemma SynIsFirst(p: End, e: End, g: Segment)
    requires BookInv(p, e) && TrueSegment(p, e, g) && !g.flags.rst && g.flags.syn
    ensures Plus(g.seqno, 1) == At(p, 1)
  {}

  /** A connected endpoint's handling is its three parts in turn. */
  lemma HandleParts(e: End, g: Segment)
    requires |e.c.rx| <= RX_SIZE && !g.flags.rst && Connected(e.c.state)
    ensures
      var (d, out) := Handle(e.c, g);
      var e1 := AckEnd(e, g);
      e.(c := d, log := e.log + out, accepted := e.accepted + if |d.rx| >= |e.c.rx| then d.rx[|e.c.rx|..] else [])
      == if e1.c.state == Closed then e1 else FinEnd(DataEnd(e1, g), g)
  {
    var e1 := AckEnd(e, g);
    if e1.c.state != Closed {
      assert e.log + HandleData(e1.c, g).1 + HandleFin(HandleData(e1.c, g).0, g).1
          == e.log + (HandleData(e1.c, g).1 + HandleFin(HandleData(e1.c, g).0, g).1);
    }
  }

  lemma DataKeepsState(e: End, g: Segment)
    ensures DataEnd(e, g).c.state == e.c.state
  {}

  lemma ConnectedKeeps(e: End, p: End, g: Segment, iss: nat, now: nat, answer: bool)
    requires EndInv(e, p) && EndInv(p, e) && TrueSegment(p, e, g) && !g.flags.rst && Connected(e.c.state)
    ensures var e' := Deliver(e, g, iss, now, answer); EndInv(e', p) && EndInv(p, e')
  {
    hide BookInv, LogInv, StateInv, TrueSegment;
    AckKeeps(e, p, g);
    OpenEnd(e, p);
    HandleParts(e, g);
    var e1 := AckEnd(e, g);
    if e1.c.state != Closed {
      AckConnected(e, g);
      TrueBeforeAck(p, e, g);
      DataKeeps(e1, p, g);
      DataKeepsState(e1, g);
      var e2 := DataEnd(e1, g);
      TrueAfterData(p, e1, g);
      FinKeeps(e2, p, g);
    }
  }

  lemma AckConnected(e: End, g: Segment)
    requires Connected(e.c.state) && AckEnd(e, g).c.state != Closed
    ensures Connected(AckEnd(e, g).c.state)
  {}

  /** The parts of a delivery only add to the history, so the segment stays true. */
  lemma TrueBeforeAck(p: End, e: End, g: Segment)
    requires TrueSegment(p, e, g) && e.begun
    ensures TrueSegment(p, AckEnd(e, g), g) && AckEnd(e, g).begun
  {
    hide Plus, TrueSegment;
    PeerSegmentStays(p, e, AckEnd(e, g), g);
  }

  lemma TrueAfterData(p: End, e: End, g: Segment)
    requires TrueSegment(p, e, g) && e.begun
    ensures TrueSegment(p, DataEnd(e, g), g)
  {
    hide Plus, TrueSegment;
    PeerSegmentStays(p, e, DataEnd(e, g), g);
  }

  lemma ListenKeeps(e: End, p: End, g: Segment, iss: nat, now: nat)
    requires EndInv(e, p) && EndInv(p, e) && TrueSegment(p, e, g) && p.begun && e.c.state == Listen && iss < SEQ
    requires g.flags.syn && !g.flags.ack && !g.flags.rst
    ensures
      var e' := Sends(e.(iss := iss, begun := true, heard := true), AcceptSyn(g, iss, now));
      EndInv(e', p) && EndInv(p, e')
  {
    var e' := Sends(e.(iss := iss, begun := true, heard := true), AcceptSyn(g, iss, now));
    SynIsFirst(p, e, g);
    assert PlacedAt(e', p, e'.log[0], 0);
    assert Outstanding(e', p, 1);
    NewSegment(e', p, e'.log[0], 0);
    PeerStands(p, e, e');
  }

  /** Only the state differs: the connection is closed. */
  lemma ClosedKeeps(e: End, p: End)
    requires EndInv(e, p) && EndInv(p, e) && e.begun
    ensures var e' := e.(c := e.c.(state := Closed)); EndInv(e', p) && EndInv(p, e')
  {
    hide Plus, LogInv, TrueSegment, Pending;
    var e' := e.(c := e.c.(state := Closed));
    SameBook(e, e', p);
    LogStands(e, e', p, []);
    PeerStands(p, e, e');
  }

  lemma ResetKeeps(e: End, p: End, g: Segment)
    requires EndInv(e, p) && EndInv(p, e) && e.begun
    ensures var e' := e.(log := e.log + [Reset(g)]); EndInv(e', p) && EndInv(p, e')
  {
    var e' := e.(log := e.log + [Reset(g)]);
    assert TrueSegment(e', p, Reset(g));
    hide Plus, LogInv, TrueSegment, Pending;
    SameBook(e, e', p);
    LogStands(e, e', p, [Reset(g)]);
    PeerStands(p, e, e');
  }
}

/** What tcp.c promises over every run of two endpoints on an unreliable channel. */
module TcpTheorems {
  import opened Common
  import opened Tcp
  import opened TcpRuns
  import opened TcpDeliver

  lemma DeliverKeeps(e: End, p: End, i: nat, iss: nat, now: nat, answer: bool)
    requires EndInv(e, p) && EndInv(p, e) && i < |p.log| && iss < SEQ && (e.c.state == Closed ==> e.begun)
    ensures var e' := Deliver(e, p.log[i], iss, now, answer); EndInv(e', p) && EndInv(p, e')
  {
    var g := p.log[i];
    LoggedIsTrue(p, e, i);
    hide BookInv, StateInv, LogInv, TrueSegment, Handle;
    if e.c.state == Closed {
      if answer && !g.flags.rst { ResetKeeps(e, p, g); }
    } else if e.c.state == Listen {
      if g.flags.syn && !g.flags.ack { ListenKeeps(e, p, g, iss, now); }
    } else if g.flags.rst {
      OpenHasBegun(e);
      ClosedKeeps(e, p);
      RstCloses(e, g, iss, now, answer);
    } else if e.c.state == SynSent {
      if g.flags.syn && g.flags.ack && g.ackno == e.c.next { SynAckKeeps(e, p, g); }
      SynSentDelivers(e, g, iss, now, answer);
    } else {
      ConnectedKeeps(e, p, g, iss, now, answer);
    }
  }

  lemma LoggedIsTrue(p: End, e: End, i: nat)
    requires BookInv(p, e) && LogInv(p, e) && i < |p.log|
    ensures TrueSegment(p, e, p.log[i]) && p.begun && (p.log[i].flags.rst ==> !p.log[i].flags.syn)
  {}

  lemma OpenHasBegun(e: End)
    requires StateInv(e) && e.c.state != Closed && e.c.state != Listen
    ensures e.begun
  {}

  lemma RstCloses(e: End, g: Segment, iss: nat, now: nat, answer: bool)
    requires g.flags.rst && e.c.state != Closed && e.c.state != Listen
    ensures Deliver(e, g, iss, now, answer) == e.(c := e.c.(state := Closed))
  {
    assert e.log + [] == e.log && e.accepted + [] == e.accepted;
  }

  lemma SynSentDelivers(e: End, g: Segment, iss: nat, now: nat, answer: bool)
    requires !g.flags.rst && e.c.state == SynSent
    ensures
      var d := Handle(e.c, g).0;
      Deliver(e, g, iss, now, answer) ==
        if g.flags.syn && g.flags.ack && g.ackno == e.c.next
        then e.(c := d, heard := true, log := e.log + [AckNow(d)]) else e
  {
    assert e.log + [] == e.log && e.accepted + [] == e.accepted;
  }

  // ---- every run ----

  /** Who connects and who listens. */
  lemma SidesKeep(w: World, s: Step)
    requires Inv(w) && Enabled(w, s)
    ensures
      var v := Next(w, s);
      v.a.c.state != Listen && (v.b.begun ==> v.b.heard) && (v.b.c.state == Closed ==> v.b.begun)
  {
    hide BookInv, LogInv, Deliver, SafeSend, SafeClose;
    if s.DeliverStep? {
      SideDelivers(Me(w, s.x), Peer(w, s.x).log[s.i], s.iss, s.now, s.answer);
    }
  }

  lemma SideDelivers(e: End, g: Segment, iss: nat, now: nat, answer: bool)
    requires StateInv(e)
    ensures
      var e' := Deliver(e, g, iss, now, answer);
      && (e'.c.state == Listen ==> e.c.state == Listen) && (e'.begun ==> (e.begun ==> e.heard) ==> e'.heard)
      && (e'.c.state == Closed ==> e'.begun || e.c.state == Closed) && (e.begun ==> e'.begun)
  {
    hide Plus, Room;
  }

  lemma NextKeeps(w: World, s: Step)
    requires Inv(w) && Enabled(w, s)
    ensures Inv(Next(w, s))
  {
    hide BookInv, LogInv, Deliver, SendSegment, Close, Poll, Recv, Connect;
    SidesKeep(w, s);
    match s
    case ConnectStep(iss, now) => ConnectKeeps(w.a, w.b, iss, now);
    case GiveUpStep => ClosedKeeps(w.a, w.b);
    case SendStep(x, data, now) => SendKeeps(Me(w, x), Peer(w, x), data, now);
    case CloseStep(x, now) => CloseKeeps(Me(w, x), Peer(w, x), now);
    case PollStep(x, now) => PollKeeps(Me(w, x), Peer(w, x), now);
    case RecvStep(x, n) => RecvKeeps(Me(w, x), Peer(w, x), n);
    case DeliverStep(x, i, iss, now, answer) =>
      PeerBegan(w, x, i);
      DeliverKeeps(Me(w, x), Peer(w, x), i, iss, now, answer);
  }

  lemma PeerBegan(w: World, x: Side, i: nat)
    requires Inv(w) && i < |Peer(w, x).log|
    ensures Me(w, x).c.state == Closed ==> Me(w, x).begun
  {}

  ghost predicate Valid(w: World, steps: seq<Step>)
    decreases |steps|
  {
    steps == [] || (Enabled(w, steps[0]) && Valid(Next(w, steps[0]), steps[1..]))
  }

  ghost function After(w: World, steps: seq<Step>): World
    requires Valid(w, steps)
    decreases |steps|
  {
    if steps == [] then w else After(Next(w, steps[0]), steps[1..])
  }

  ghost predicate Reachable(w: World)
  {
    exists steps :: Valid(Start(), steps) && After(Start(), steps) == w
  }

  lemma {:induction false} RunKeeps(w: World, steps: seq<Step>)
    requires Inv(w) && Valid(w, steps)
    ensures Inv(After(w, steps))
    decreases |steps|
  {
    hide Inv, Next, Enabled;
    if steps != [] {
      NextKeeps(w, steps[0]);
      RunKeeps(Next(w, steps[0]), steps[1..]);
    }
  }

  lemma ReachableInv(w: World)
    requires Reachable(w)
    ensures Inv(w)
  {
    var steps :| Valid(Start(), steps) && After(Start(), steps) == w;
    assert Inv(Start());
    RunKeeps(Start(), steps);
  }

  /** What an endpoint has accepted is always a prefix of what its peer sent; when the sender has
      nothing outstanding the two are equal, so every byte has reached the peer's ring. */
  lemma StreamIsPrefix(w: World, x: Side)
    requires Reachable(w)
    ensures Peer(w, x).accepted <= Me(w, x).sent
    ensures Me(w, x).begun && Idle(Me(w, x)) ==> Peer(w, x).accepted == Me(w, x).sent
    ensures Peer(w, x).read + Peer(w, x).c.rx == Peer(w, x).accepted
  {
    ReachableInv(w);
    var e, p := Me(w, x), Peer(w, x);
    hide Plus, LogInv;
    assert BookInv(p, e) && BookInv(e, p);
  }

  /** The peer's FIN is taken only after every byte the peer ever sent. */
  lemma FinComesLast(w: World, x: Side)
    requires Reachable(w) && Me(w, x).c.finReceived
    ensures Peer(w, x).fin && Me(w, x).accepted == Peer(w, x).sent
  {
    ReachableInv(w);
    hide Plus, LogInv;
    assert BookInv(Me(w, x), Peer(w, x));
  }

  /** A connection that a segment other than a reset closes has finished both directions: its FIN
      was acknowledged, the peer's was taken, and each side accepted all the other sent. */
  lemma CloseIsClean(w: World, x: Side, i: nat, iss: nat, now: nat, answer: bool)
    requires Reachable(w) && Enabled(w, DeliverStep(x, i, iss, now, answer))
    requires Me(w, x).c.state != Closed && !Peer(w, x).log[i].flags.rst
    requires Me(Next(w, DeliverStep(x, i, iss, now, answer)), x).c.state == Closed
    ensures
      var w' := Next(w, DeliverStep(x, i, iss, now, answer));
      var e, p := Me(w', x), Peer(w', x);
      && e.fin && Idle(e) && e.c.finReceived && p.fin && p.c.finReceived
      && p.accepted == e.sent && e.accepted == p.sent
  {
    hide Reachable, Inv, Next, Deliver;
    ReachableInv(w);
    var s := DeliverStep(x, i, iss, now, answer);
    NextKeeps(w, s);
    Delivered(w, x, i, iss, now, answer);
    var w' := Next(w, s);
    BothEnds(w, x);
    BothEnds(w', x);
    ClosingSegment(Me(w, x), Peer(w, x), Peer(w, x).log[i], iss, now, answer);
    BothTaken(Me(w', x), Peer(w', x));
  }

  lemma Delivered(w: World, x: Side, i: nat, iss: nat, now: nat, answer: bool)
    requires Enabled(w, DeliverStep(x, i, iss, now, answer))
    ensures
      var w' := Next(w, DeliverStep(x, i, iss, now, answer));
      Me(w', x) == Deliver(Me(w, x), Peer(w, x).log[i], iss, now, answer) && Peer(w', x) == Peer(w, x)
  {
    hide Deliver;
  }

  lemma BothEnds(w: World, x: Side)
    requires Inv(w)
    ensures BookInv(Me(w, x), Peer(w, x)) && BookInv(Peer(w, x), Me(w, x)) && StateInv(Me(w, x))
  {
    hide BookInv, StateInv, LogInv;
  }

  lemma BothTaken(e: End, p: End)
    requires BookInv(e, p) && BookInv(p, e) && e.begun && e.fin && Idle(e) && e.c.finReceived
    ensures p.fin && p.c.finReceived && p.accepted == e.sent && e.accepted == p.sent
  {
    hide Plus, Outstanding;
  }

  lemma ClosingSegment(e: End, p: End, g: Segment, iss: nat, now: nat, answer: bool)
    requires BookInv(e, p) && StateInv(e) && e.c.state != Closed && !g.flags.rst
    requires Deliver(e, g, iss, now, answer).c.state == Closed
    ensures var e' := Deliver(e, g, iss, now, answer); e'.begun && e'.fin && Idle(e') && e'.c.finReceived
  {
    hide Plus, Outstanding;
  }
}

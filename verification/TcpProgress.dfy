/** What the protocol achieves when segments do arrive: a chunk is answered and the sender goes on, a whole
    tcp_send comes to its end, and a close from both sides closes both. */
module TcpProgress {
  import opened Common
  import opened Tcp
  import opened TcpRuns
  import opened TcpDeliver
  import opened TcpTheorems
  import opened TcpSend
  import opened TcpHaste
  import TcpRing

  /** A peer that data can reach: open, and its reader not told of an end. */
  predicate Listens(p: End)
  {
    p.c.state == SynReceived || p.c.state == Established || p.c.state == FinWait1 || p.c.state == FinWait2
  }

  // ---- one chunk ----

  /** The chunk arrives: it is taken whole, and the one answer acknowledges it. */
  lemma TakesChunk(p: End, g: Segment)
    requires Listens(p) && |p.c.rx| + |g.data| <= RX_SIZE && p.c.rcv < SEQ && g.seqno == p.c.rcv
    requires g.flags == PSH_ACK && g.data != [] && !p.c.finReceived
    requires p.c.state == SynReceived ==> p.c.una != p.c.next && g.ackno == p.c.next
    ensures
      var q := Deliver(p, g, 0, 0, false);
      && q.accepted == p.accepted + g.data && Listens(q) && q.c.rx == p.c.rx + g.data
      && |q.log| == |p.log| + 1 && q.log[|p.log|].flags == ACK && q.log[|p.log|].data == []
      && q.log[|p.log|].ackno == Plus(g.seqno, |g.data|)
  {
    hide Plus, Handle;
    TcpRing.RepliesAre(p.c, g);
    TcpRing.StatesAre(p.c, g);
    TcpRing.RingConserved(p.c, g);
    assert TcpRing.Taken(p.c, g) == |g.data| && g.data[..|g.data|] == g.data;
    assert (p.c.rx + g.data)[|p.c.rx|..] == g.data;
  }

  /** The answer arrives: nothing is outstanding any more. */
  lemma TakesAnswer(e: End, g: Segment)
    requires e.c.state == Established && !Idle(e) && |e.c.rx| <= RX_SIZE && e.c.rcv < SEQ
    requires g.flags == ACK && g.data == [] && g.ackno == e.c.next
    ensures
      var d := Deliver(e, g, 0, 0, false);
      Idle(d) && d.c.state == Established && d.sent == e.sent
  {
    hide Plus, Handle;
    TcpRing.StatesAre(e.c, g);
  }

  /** What the invariant says of a sender with nothing outstanding. */
  lemma Ready(w: World, x: Side)
    requires Inv(w) && Me(w, x).c.state == Established && Idle(Me(w, x))
    ensures
      var e, p := Me(w, x), Peer(w, x);
      && CanSend(e) && |e.c.rx| <= RX_SIZE && |p.c.rx| <= RX_SIZE && e.c.rcv < SEQ && p.c.rcv < SEQ
      && p.c.rcv == e.c.next && !p.c.finReceived && p.accepted == e.sent
      && (p.c.state == SynReceived ==> p.c.una != p.c.next && e.c.rcv == p.c.next)
      && (p.c.state != Closed ==> Listens(p))
  {
    var e, p := Me(w, x), Peer(w, x);
    InvEnds(w, x);
    AcceptedIsPrefix(w, x);
    hide Inv, LogInv;
    PeerWaits(e, p);
    var n := Behind(e, p);
    hide BookInv, StateInv;
    RcvBound(e, p);
    RcvBound(p, e);
  }

  lemma RcvBound(e: End, p: End)
    requires BookInv(e, p) && e.heard
    ensures e.c.rcv < SEQ
  {}

  /** The sender after one chunk. */
  lemma Outgoing(e: End, data: seq<byte>, now: nat)
    requires CanSend(e) && e.c.state == Established && Idle(e) && 0 < |data| && |data| < SEQ && e.c.next < SEQ
    requires |e.c.rx| <= RX_SIZE
    ensures
      var d := Sends(e, SendSegment(e.c, PSH_ACK, data, now)).(sent := e.sent + data);
      && d.c.state == Established && !Idle(d) && d.c.rx == e.c.rx && d.c.rcv == e.c.rcv && d.sent == e.sent + data
      && d.c.next == Plus(e.c.next, |data|) && |d.log| == |e.log| + 1
      && d.log[|e.log|] == Segment(e.c.next, e.c.rcv, PSH_ACK, RX_SIZE - |e.c.rx|, data)
  {
    Moves(e.c.next, |data|);
    hide Plus;
  }

  lemma Moves(a: nat, n: nat)
    requires a < SEQ && 0 < n < SEQ
    ensures Plus(a, n) != a
  {}

  /** Send, let the peer's user read, deliver, deliver the answer. */
  function ChunkSteps(w: World, x: Side, data: seq<byte>, read: nat, now: nat): seq<Step>
  {
    [SendStep(x, data, now)] + ([RecvStep(Other(x), read)] +
      ([DeliverStep(Other(x), |Me(w, x).log|, 0, 0, false)] + [DeliverStep(x, |Peer(w, x).log|, 0, 0, false)]))
  }

  /** From any state with an idle ESTABLISHED sender and a peer that is open: the chunk is sent, the peer's
      user reads up to `read` bytes, and if the ring then has room, one delivery each way has the chunk
      accepted and the sender idle again. */
  lemma ChunkGoesThrough(w: World, x: Side, data: seq<byte>, read: nat, now: nat)
    requires Inv(w) && Me(w, x).c.state == Established && Idle(Me(w, x)) && Peer(w, x).c.state != Closed
    requires 0 < |data| <= MAX_SEGMENT && Used(Me(w, x)) + |data| < SEQ - 1
    requires |Recv(Peer(w, x).c, read).0.rx| + |data| <= RX_SIZE
    ensures
      var steps := ChunkSteps(w, x, data, read, now);
      && Valid(w, steps)
      && var v := After(w, steps);
         && Inv(v) && Me(v, x).c.state == Established && Idle(Me(v, x)) && Peer(v, x).c.state != Closed
         && Me(v, x).sent == Me(w, x).sent + data && Peer(v, x).accepted == Peer(w, x).accepted + data
  {
    hide Inv, Plus, Handle, Deliver, SendSegment, Used, SafeSend, SafeClose, Recv;
    Ready(w, x);
    var e, p := Me(w, x), Peer(w, x);
    NextBound(w, x);
    Outgoing(e, data, now);
    var g := Segment(e.c.next, e.c.rcv, PSH_ACK, RX_SIZE - |e.c.rx|, data);
    var s1, s2 := SendStep(x, data, now), RecvStep(Other(x), read);
    var s3, s4 := DeliverStep(Other(x), |e.log|, 0, 0, false), DeliverStep(x, |p.log|, 0, 0, false);
    SafeWhenIdle(e, p, data);
    var w1 := Next(w, s1);
    var w2 := Next(w1, s2);
    RecvIs(p.c, read);
    TakesChunk(Peer(w2, x), g);
    var w3 := Next(w2, s3);
    assert Peer(w3, x) == Deliver(Peer(w2, x), g, 0, 0, false) && Me(w3, x) == Me(w1, x);
    TakesAnswer(Me(w3, x), Peer(w3, x).log[|p.log|]);
    var w4 := Next(w3, s4);
    assert Me(w4, x) == Deliver(Me(w3, x), Peer(w3, x).log[|p.log|], 0, 0, false) && Peer(w4, x) == Peer(w3, x);
    RunTwo(w2, s3, s4);
    RunOne(w1, s2, [s3] + [s4]);
    RunOne(w, s1, [s2] + ([s3] + [s4]));
    RunKeeps(w, ChunkSteps(w, x, data, read, now));
  }

  lemma NextBound(w: World, x: Side)
    requires Inv(w) && Me(w, x).begun
    ensures Me(w, x).c.next < SEQ
  {
    hide LogInv, StateInv, Pending;
    InvEnds(w, x);
  }

  lemma SafeWhenIdle(e: End, p: End, data: seq<byte>)
    requires Idle(e)
    ensures SafeSend(e, p, data)
  {}

  lemma RecvIs(c: Conn, n: nat)
    ensures Recv(c, n).0 == c.(rx := Recv(c, n).0.rx)
  {}

  /** In a reachable state: send, deliver, deliver the answer; the chunk is accepted and the sender idle. */
  lemma SendDeliverAnswer(w: World, x: Side, data: seq<byte>, now: nat)
    requires Reachable(w) && Me(w, x).c.state == Established && Idle(Me(w, x)) && Peer(w, x).c.state != Closed
    requires 0 < |data| <= MAX_SEGMENT && Used(Me(w, x)) + |data| < SEQ - 1 && |Peer(w, x).c.rx| + |data| <= RX_SIZE
    ensures
      var steps := ChunkSteps(w, x, data, 0, now);
      && Valid(w, steps)
      && var v := After(w, steps);
         Idle(Me(v, x)) && Me(v, x).sent == Me(w, x).sent + data && Peer(v, x).accepted == Me(v, x).sent
  {
    hide Inv, Valid, After, ChunkSteps;
    ReachableInv(w);
    Ready(w, x);
    ChunkGoesThrough(w, x, data, 0, now);
  }

  // ---- a whole call ----

  /** Whatever its buffer, a call of tcp_send whose segments arrive and whose bytes are read returns the
      whole length. */
  lemma {:induction false} SendCompletes(w: World, x: Side, data: seq<byte>) returns (steps: seq<Step>)
    requires Inv(w) && Me(w, x).c.state == Established && Idle(Me(w, x)) && Peer(w, x).c.state != Closed
    requires Used(Me(w, x)) + |data| < SEQ - 1
    ensures Valid(w, steps) && SendCall(w, x, data, steps, |data|)
    decreases |data|
  {
    hide Inv, Reachable, Used, After, Valid, SendCall, ChunkSteps, Recv;
    if data == [] {
      steps := [];
      NothingToSend(w, x);
    } else {
      var n := ChunkLen(data);
      Ready(w, x);
      PeerReads(w, x);
      ChunkGoesThrough(w, x, data[..n], RX_SIZE, 0);
      var first := ChunkSteps(w, x, data[..n], RX_SIZE, 0);
      var v := After(w, first);
      UsedMore(w, v, x, data[..n]);
      var rest := SendCompletes(v, x, data[n..]);
      steps := first + rest;
      Joins(w, first, rest);
      assert steps[..|first|] == first && steps[|first|..] == rest;
      ChunkWaits(w, x, data[..n]);
      CallGoesOn(w, x, data, steps, |first|);
    }
  }

  lemma NothingToSend(w: World, x: Side)
    ensures Valid(w, []) && SendCall(w, x, [], [], 0)
  {}

  lemma PeerReads(w: World, x: Side)
    requires Inv(w)
    ensures Recv(Peer(w, x).c, RX_SIZE).0.rx == []
  {
    InvEnds(w, x);
    hide Inv;
    OpenBooks(Peer(w, x), Me(w, x));
    hide EndInv;
    ReadsAll(Peer(w, x).c);
  }

  lemma UsedMore(w: World, v: World, x: Side, chunk: seq<byte>)
    requires Inv(v) && Me(w, x).begun && !Me(w, x).fin && Me(v, x).c.state == Established
    requires Me(v, x).sent == Me(w, x).sent + chunk
    ensures Used(Me(v, x)) == Used(Me(w, x)) + |chunk|
  {
    hide BookInv, LogInv;
    InvEnds(v, x);
  }

  lemma ChunkWaits(w: World, x: Side, chunk: seq<byte>)
    ensures
      var steps := ChunkSteps(w, x, chunk, RX_SIZE, 0);
      && |steps| == 4 && steps[0] == SendStep(x, chunk, 0) && AllWait(x, steps[1..])
  {}

  lemma CallGoesOn(w: World, x: Side, data: seq<byte>, steps: seq<Step>, k: nat)
    requires data != [] && 1 <= k <= |steps| && Valid(w, steps[..k]) && Idle(Me(After(w, steps[..k]), x))
    requires steps[0] == SendStep(x, data[..ChunkLen(data)], 0) && AllWait(x, steps[..k][1..])
    requires SendCall(After(w, steps[..k]), x, data[ChunkLen(data)..], steps[k..], |data| - ChunkLen(data))
    ensures SendCall(w, x, data, steps, |data|)
  {
    hide *;
    ChunkAt(w, x, data, steps, k);
    FirstChunk(w, x, data, steps, k);
  }

  lemma ChunkAt(w: World, x: Side, data: seq<byte>, steps: seq<Step>, k: nat)
    requires data != [] && 1 <= k <= |steps| && Valid(w, steps[..k]) && Idle(Me(After(w, steps[..k]), x))
    requires AllWait(x, steps[..k][1..])
    requires SendCall(After(w, steps[..k]), x, data[ChunkLen(data)..], steps[k..], |data| - ChunkLen(data))
    ensures Acked(w, x, data, steps, |data|, k)
  {
    hide Valid, After, SendCall, Idle, AllWait;
  }

  lemma FirstChunk(w: World, x: Side, data: seq<byte>, steps: seq<Step>, k: nat)
    requires data != [] && |steps| > 0 && steps[0] == SendStep(x, data[..ChunkLen(data)], 0)
    requires Acked(w, x, data, steps, |data|, k)
    ensures SendCall(w, x, data, steps, |data|)
  {
    hide Acked, AllWait;
  }

  // ---- closing ----

  /** tcp_close with nothing outstanding. */
  lemma Closing(e: End, now: nat)
    requires CanClose(e) && Idle(e) && e.c.next < SEQ && |e.c.rx| <= RX_SIZE
    ensures
      var d := Sends(e, Close(e.c, now)).(fin := true);
      && d.c.state == (if e.c.state == Established then FinWait1 else LastAck) && d.sent == e.sent
      && !Idle(d) && d.c.next == Plus(e.c.next, 1) && d.c.unackedFlags.fin && d.accepted == e.accepted
      && d.c.una == e.c.una && d.c.rcv == e.c.rcv && d.c.rx == e.c.rx && d.c.finReceived == e.c.finReceived
      && |d.log| == |e.log| + 1 && d.log[|e.log|] == Segment(e.c.next, e.c.rcv, FIN_ACK, RX_SIZE - |e.c.rx|, [])
  {
    Moves(e.c.next, 1);
    hide Plus;
  }

  /** The FIN arrives: it is taken and acknowledged. */
  lemma FinArrives(p: End, g: Segment)
    requires (p.c.state == Established || p.c.state == FinWait2) && Idle(p) && !p.c.finReceived
    requires |p.c.rx| <= RX_SIZE && p.c.rcv < SEQ && g.flags == FIN_ACK && g.data == [] && g.seqno == p.c.rcv
    ensures
      var q := Deliver(p, g, 0, 0, false);
      && q.c.state == (if p.c.state == Established then CloseWait else Closed) && Idle(q) && q.c.finReceived
      && q.c == p.c.(state := q.c.state, finReceived := true, rcv := Plus(p.c.rcv, 1))
      && q.accepted == p.accepted && q.sent == p.sent && |q.log| == |p.log| + 1
      && q.log[|p.log|] == Segment(p.c.next, Plus(p.c.rcv, 1), ACK, RX_SIZE - |p.c.rx|, [])
  {
    TcpRing.PlusNone(p.c.rcv);
    hide Plus, Handle;
    TcpRing.RepliesAre(p.c, g);
    TcpRing.StatesAre(p.c, g);
    TcpRing.RingConserved(p.c, g);
    assert p.c.rx + [] == p.c.rx && p.accepted + [] == p.accepted;
  }

  /** The acknowledgement of the FIN arrives. */
  lemma FinAcked(e: End, g: Segment)
    requires (e.c.state == FinWait1 && !e.c.finReceived) || e.c.state == LastAck
    requires !Idle(e) && e.c.unackedFlags.fin && |e.c.rx| <= RX_SIZE && e.c.rcv < SEQ
    requires g.flags == ACK && g.data == [] && g.ackno == e.c.next
    ensures
      var d := Deliver(e, g, 0, 0, false);
      && d.c == e.c.(state := if e.c.state == FinWait1 then FinWait2 else Closed, una := e.c.next)
      && d.accepted == e.accepted && d.sent == e.sent && d.log == e.log
  {
    TcpRing.PlusNone(e.c.rcv);
    hide Plus, Handle;
    TcpRing.RepliesAre(e.c, g);
    TcpRing.StatesAre(e.c, g);
    TcpRing.RingConserved(e.c, g);
    assert e.c.rx + [] == e.c.rx && e.accepted + [] == e.accepted && e.log + [] == e.log;
  }

  /** One side closes, its FIN and the answer are delivered, then the other side does the same. */
  lemma HalfClosed(w: World, x: Side, now: nat) returns (v: World)
    requires Inv(w) && w.a.c.state == w.b.c.state == Established && Idle(w.a) && Idle(w.b)
    ensures
      var steps := [CloseStep(x, now)] + ([DeliverStep(Other(x), |Me(w, x).log|, 0, 0, false)] +
                                          [DeliverStep(x, |Peer(w, x).log|, 0, 0, false)]);
      Valid(w, steps) && v == After(w, steps)
    ensures
      var e, p := Me(v, x), Peer(v, x);
      && e.c.state == FinWait2 && p.c.state == CloseWait && Idle(e) && Idle(p) && p.c.finReceived && !e.c.finReceived
      && e.c.rcv == p.c.next < SEQ && p.c.rcv < SEQ && |e.c.rx| <= RX_SIZE && |p.c.rx| <= RX_SIZE
      && p.accepted == e.sent && e.accepted == p.sent
      && |e.log| == |Me(w, x).log| + 1 && |p.log| == |Peer(w, x).log| + 1
  {
    hide Inv, Plus, Handle, Deliver, Close, Used, SafeSend, SafeClose;
    Ready(w, x);
    Ready(w, Other(x));
    NextBound(w, x);
    NextBound(w, Other(x));
    var e, p := Me(w, x), Peer(w, x);
    Closing(e, now);
    var s1 := CloseStep(x, now);
    var s2, s3 := DeliverStep(Other(x), |e.log|, 0, 0, false), DeliverStep(x, |p.log|, 0, 0, false);
    IdleCloses(e, p);
    var w1 := Next(w, s1);
    FinArrives(p, Me(w1, x).log[|e.log|]);
    var w2 := Next(w1, s2);
    assert Peer(w2, x) == Deliver(p, Me(w1, x).log[|e.log|], 0, 0, false) && Me(w2, x) == Me(w1, x);
    FinAcked(Me(w2, x), Peer(w2, x).log[|p.log|]);
    v := Next(w2, s3);
    assert Me(v, x) == Deliver(Me(w2, x), Peer(w2, x).log[|p.log|], 0, 0, false) && Peer(v, x) == Peer(w2, x);
    RunTwo(w1, s2, s3);
    RunOne(w, s1, [s2] + [s3]);
  }

  lemma IdleCloses(e: End, p: End)
    requires Idle(e)
    ensures SafeClose(e, p)
  {}

  /** From any state where both sides are ESTABLISHED with nothing outstanding: closing one side and then
      the other, with every segment delivered once, leaves both CLOSED with both streams accepted whole. */
  lemma ClosesBoth(w: World, x: Side, now: nat) returns (v: World, steps: seq<Step>)
    requires Inv(w) && w.a.c.state == w.b.c.state == Established && Idle(w.a) && Idle(w.b)
    ensures Valid(w, steps) && v == After(w, steps)
    ensures v.a.c.state == v.b.c.state == Closed && v.a.c.finReceived && v.b.c.finReceived
    ensures v.a.accepted == v.b.sent && v.b.accepted == v.a.sent
  {
    hide Inv, Plus, Handle, Deliver, Close, Used, SafeSend, SafeClose;
    var u := HalfClosed(w, x, now);
    var half := [CloseStep(x, now)] + ([DeliverStep(Other(x), |Me(w, x).log|, 0, 0, false)] +
                                       [DeliverStep(x, |Peer(w, x).log|, 0, 0, false)]);
    var e, p := Me(u, x), Peer(u, x);
    Closing(p, now);
    var s1 := CloseStep(Other(x), now);
    var s2, s3 := DeliverStep(x, |p.log|, 0, 0, false), DeliverStep(Other(x), |e.log|, 0, 0, false);
    IdleCloses(p, e);
    var u1 := Next(u, s1);
    FinArrives(e, Peer(u1, x).log[|p.log|]);
    var u2 := Next(u1, s2);
    assert Me(u2, x) == Deliver(e, Peer(u1, x).log[|p.log|], 0, 0, false) && Peer(u2, x) == Peer(u1, x);
    FinAcked(Peer(u2, x), Me(u2, x).log[|e.log|]);
    v := Next(u2, s3);
    assert Peer(v, x) == Deliver(Peer(u2, x), Me(u2, x).log[|e.log|], 0, 0, false) && Me(v, x) == Me(u2, x);
    RunTwo(u1, s2, s3);
    RunOne(u, s1, [s2] + [s3]);
    hide Next, Enabled;
    Joins(w, half, [s1] + ([s2] + [s3]));
    steps := half + ([s1] + ([s2] + [s3]));
  }
}

/** Calls made while a chunk is unacknowledged, as after a tcp_send that returned short
    (kernel/drivers/net/transport_protocols/tcp.c). The copy kept for retransmission is replaced while
    `send_una` stays, so the new copy is sent again at the place of the old bytes. These are the exact
    conditions under which that does harm. */
module TcpHaste {
  import opened Common
  import opened Tcp
  import opened TcpRuns
  import opened TcpDeliver
  import opened TcpTheorems
  import opened TcpSend

  function Other(x: Side): Side { if x == A then B else A }

  /** The first chunk of tcp_send, whatever is outstanding. */
  function SendAnyway(w: World, x: Side, data: seq<byte>, now: nat): World
  {
    var e := Me(w, x);
    Put(w, x, Sends(e, SendSegment(e.c, PSH_ACK, data, now)).(sent := e.sent + data))
  }

  /** tcp_close, whatever is outstanding. */
  function CloseAnyway(w: World, x: Side, now: nat): World
    requires CanClose(Me(w, x))
  {
    var e := Me(w, x);
    Put(w, x, Sends(e, Close(e.c, now)).(fin := true))
  }

  /** Some run makes the peer accept bytes that were not sent in that order. */
  ghost predicate Corrupts(w: World, x: Side)
  {
    exists steps :: Valid(w, steps) && !(Peer(After(w, steps), x).accepted <= Me(After(w, steps), x).sent)
  }

  /** The peer takes the FIN of a stream of which it lacks bytes. */
  ghost predicate Cut(w: World, x: Side) { Peer(w, x).c.finReceived && Peer(w, x).accepted != Me(w, x).sent }

  ghost predicate Truncates(w: World, x: Side) { exists steps :: Valid(w, steps) && Cut(After(w, steps), x) }

  // ---- runs ----

  lemma RunOne(w: World, s: Step, rest: seq<Step>)
    requires Enabled(w, s) && Valid(Next(w, s), rest)
    ensures Valid(w, [s] + rest) && After(w, [s] + rest) == After(Next(w, s), rest)
  {
    hide Next, Enabled;
    assert ([s] + rest)[1..] == rest;
  }

  lemma RunTwo(w: World, s: Step, t: Step)
    requires Enabled(w, s) && Enabled(Next(w, s), t)
    ensures Valid(w, [s] + [t]) && After(w, [s] + [t]) == Next(Next(w, s), t)
  {
    hide Next, Enabled;
    RunOne(Next(w, s), t, []);
    assert [t] + [] == [t];
    RunOne(w, s, [t]);
  }

  /** A closed connection takes nothing any more. */
  lemma ClosedStays(w: World, x: Side, s: Step)
    requires Enabled(w, s) && Peer(w, x).c.state == Closed && Peer(w, x).begun
    ensures
      var v := Next(w, s);
      && Peer(v, x).c.state == Closed && Peer(v, x).begun && Peer(v, x).accepted == Peer(w, x).accepted
      && Peer(v, x).c.finReceived == Peer(w, x).c.finReceived && Me(w, x).sent <= Me(v, x).sent
  {
    hide SafeSend, SafeClose, Deliver, Plus, Used;
    if s.DeliverStep? && s.x == Other(x) { ClosedDelivers(Peer(w, x), Me(w, x).log[s.i], s.iss, s.now, s.answer); }
    if s.DeliverStep? && s.x == x { Delivers(Me(w, x), Peer(w, x).log[s.i], s.iss, s.now, s.answer); }
  }

  lemma ClosedDelivers(e: End, g: Segment, iss: nat, now: nat, answer: bool)
    requires e.c.state == Closed
    ensures var d := Deliver(e, g, iss, now, answer); d == e.(log := d.log)
  {
    hide Handle;
  }

  lemma {:induction false} ClosedForGood(w: World, x: Side, steps: seq<Step>)
    requires Valid(w, steps) && Peer(w, x).c.state == Closed && Peer(w, x).begun
    ensures
      var v := After(w, steps);
      && Peer(v, x).accepted == Peer(w, x).accepted && Me(w, x).sent <= Me(v, x).sent
      && Peer(v, x).c.finReceived == Peer(w, x).c.finReceived
    decreases |steps|
  {
    hide Next, Enabled, Me, Peer;
    if steps != [] {
      ClosedStays(w, x, steps[0]);
      ClosedForGood(Next(w, steps[0]), x, steps[1..]);
    }
  }

  // ---- the peer that has taken nothing ----

  /** A chunk is outstanding of which the peer has taken nothing. */
  ghost predicate Untaken(w: World, x: Side) { !Idle(Me(w, x)) && Peer(w, x).c.rcv == Me(w, x).c.una }

  /** Such a peer expects the byte at `send_una` and, unless closed, takes what comes there. */
  lemma PeerWaits(e: End, p: End)
    requires EndInv(e, p) && EndInv(p, e) && CanClose(e)
    ensures e.begun && e.heard && !e.fin && p.begun && p.heard && !p.c.finReceived && |p.accepted| <= |e.sent|
    ensures p.accepted <= e.sent && p.c.state != Listen && p.c.state != SynSent
    ensures p.c.state != CloseWait && p.c.state != LastAck && |e.c.rx| <= RX_SIZE && |p.c.rx| <= RX_SIZE
    ensures p.c.state == SynReceived ==> p.c.una != p.c.next && e.c.rcv == p.c.next
    ensures !Idle(e) && p.c.rcv == e.c.una ==> p.accepted != e.sent
  {
    hide Plus, LogInv, BookInv;
    OpenBooks(e, p);
    OpenBooks(p, e);
    var n := Behind(e, p);
  }

  lemma OpenBooks(e: End, p: End)
    requires BookInv(e, p)
    ensures |e.c.rx| <= RX_SIZE && (!e.heard ==> !e.c.finReceived) && e.accepted <= p.sent && (e.heard ==> p.begun)
    ensures (e.c.finReceived ==> p.fin) && (e.begun ==> e.c.state != Listen && e.c.next == At(e, Used(e)))
    ensures (e.heard ==> e.c.rcv == At(p, Taken(e))) && Taken(e) <= Used(p)
  {
    hide Plus, Pending;
  }

  // ---- tcp_close ----

  /** After the FIN replaced the copy of the chunk, a timeout sends it at `send_una`. */
  lemma ResendsFin(c: Conn, now: nat)
    requires (c.state == Established || c.state == CloseWait) && |c.rx| <= RX_SIZE && c.una != Plus(c.next, 1)
    ensures
      var d := Close(c, now).0;
      Poll(d, now + RETRANSMIT_TICKS + 1).1 == [Segment(c.una, c.rcv, FIN_ACK, RX_SIZE - |c.rx|, [])]
  {}

  lemma TakesFin(p: End, g: Segment)
    requires p.c.state != Closed && p.c.state != Listen && p.c.state != SynSent && p.c.state != LastAck
    requires !p.c.finReceived && p.c.rcv < SEQ && g.flags == FIN_ACK && g.data == [] && g.seqno == p.c.rcv
    ensures Deliver(p, g, 0, 0, false).c.finReceived && Deliver(p, g, 0, 0, false).accepted == p.accepted
  {
    assert Plus(g.seqno, 0) == g.seqno;
    hide Plus;
    var c1 := HandleAck(p.c, g);
    assert c1.state != Closed && c1.rx == p.c.rx && c1.rcv == p.c.rcv;
    assert HandleData(c1, g) == (c1, []);
    assert p.accepted + [] == p.accepted;
  }

  /** Closing while a chunk is outstanding of which the peer has taken nothing: one timeout and one
      delivery make the peer take the FIN without the chunk. */
  lemma CloseAnywayTruncates(w: World, x: Side, now: nat)
    requires Inv(w) && CanClose(Me(w, x)) && Untaken(w, x) && Peer(w, x).c.state != Closed
    ensures
      var v := CloseAnyway(w, x, now);
      var steps := [PollStep(x, now + RETRANSMIT_TICKS + 1)] + [DeliverStep(Other(x), |Me(v, x).log|, 0, 0, false)];
      Valid(v, steps) && Cut(After(v, steps), x) && Truncates(v, x)
  {
    hide *;
    var e, p := Me(w, x), Peer(w, x);
    InvEnds(w, x);
    NothingTaken(w, x);
    PeerWaits(e, p);
    var g := Segment(e.c.una, e.c.rcv, FIN_ACK, RX_SIZE - |e.c.rx|, []);
    RoomForOne(e, p);
    ShortOfNext(e, p, 1);
    CloseStates(e);
    ResendsFin(e.c, now);
    TakesFin(p, g);
    TruncateRun(w, x, now, g);
  }

  lemma NothingTaken(w: World, x: Side)
    requires Untaken(w, x)
    ensures !Idle(Me(w, x)) && Peer(w, x).c.rcv == Me(w, x).c.una
  {}

  lemma CloseStates(e: End)
    requires CanClose(e)
    ensures e.c.state == Established || e.c.state == CloseWait
  {}

  lemma RoomForOne(e: End, p: End)
    requires EndInv(e, p) && !e.fin
    ensures Used(e) + 1 < SEQ
  {}

  /** Time out, deliver: once the retransmission and what the peer makes of it are known. */
  lemma TruncateRun(w: World, x: Side, now: nat, g: Segment)
    requires CanClose(Me(w, x)) && Peer(w, x).accepted != Me(w, x).sent
    requires Poll(Close(Me(w, x).c, now).0, now + RETRANSMIT_TICKS + 1).1 == [g]
    requires Deliver(Peer(w, x), g, 0, 0, false).c.finReceived
    requires Deliver(Peer(w, x), g, 0, 0, false).accepted == Peer(w, x).accepted
    ensures
      var v := CloseAnyway(w, x, now);
      var steps := [PollStep(x, now + RETRANSMIT_TICKS + 1)] + [DeliverStep(Other(x), |Me(v, x).log|, 0, 0, false)];
      Valid(v, steps) && Cut(After(v, steps), x) && Truncates(v, x)
  {
    hide Plus, Poll, Deliver, Close;
    var v := CloseAnyway(w, x, now);
    var poll, deliver := PollStep(x, now + RETRANSMIT_TICKS + 1), DeliverStep(Other(x), |Me(v, x).log|, 0, 0, false);
    var v1 := Next(v, poll);
    assert Me(v1, x).log == Me(v, x).log + [g];
    RunTwo(v, poll, deliver);
    assert Cut(Next(v1, deliver), x);
  }

  /** Room for `k` more sequence numbers: they do not reach round to `send_una`. */
  lemma ShortOfNext(e: End, p: End, k: nat)
    requires EndInv(e, p) && EndInv(p, e) && CanClose(e) && !Idle(e) && 0 < k && Used(e) + k < SEQ
    ensures e.c.una != Plus(e.c.next, k) && p.c.rcv < SEQ
  {
    hide Plus, LogInv;
    OpenBooks(e, p);
    OpenBooks(p, e);
    assert e.begun && e.heard && !e.fin;
    var n := Behind(e, p);
    PlusPlus(e.iss, Used(e), k);
    NotIdle(e, Used(e) - n, n + k);
  }

  /** Exactly when tcp_close can make the peer take the FIN of a stream it lacks bytes of: a chunk is
      outstanding and the peer, still open, has taken nothing of it. A caller whose last tcp_send returned
      its whole length is safe, for nothing is outstanding then. */
  lemma CloseTruncatesIff(w: World, x: Side, now: nat)
    requires Reachable(w) && CanClose(Me(w, x))
    ensures Truncates(CloseAnyway(w, x, now), x) <==> Untaken(w, x) && Peer(w, x).c.state != Closed
  {
    hide Inv, Reachable, Enabled, Next;
    ReachableInv(w);
    var v := CloseAnyway(w, x, now);
    if Untaken(w, x) && Peer(w, x).c.state != Closed {
      CloseAnywayTruncates(w, x, now);
    } else {
      forall steps | Valid(v, steps) ensures !Cut(After(v, steps), x) {
        if Untaken(w, x) {
          InvEnds(w, x);
          PeerWaits(Me(w, x), Peer(w, x));
          ClosedForGood(v, x, steps);
        } else {
          SafeCloseIsStep(w, x, now);
          NextKeeps(w, CloseStep(x, now));
          RunKeeps(v, steps);
          NeverCut(After(v, steps), x);
        }
      }
    }
  }

  lemma InvEnds(w: World, x: Side)
    requires Inv(w)
    ensures EndInv(Me(w, x), Peer(w, x)) && EndInv(Peer(w, x), Me(w, x))
  {}

  lemma SafeCloseIsStep(w: World, x: Side, now: nat)
    requires CanClose(Me(w, x)) && !Untaken(w, x)
    ensures Enabled(w, CloseStep(x, now)) && CloseAnyway(w, x, now) == Next(w, CloseStep(x, now))
  {}

  lemma NeverCut(w: World, x: Side)
    requires Inv(w)
    ensures !Cut(w, x)
  {
    hide Plus, LogInv, Pending;
    assert BookInv(Peer(w, x), Me(w, x));
  }

  // ---- tcp_send ----

  /** After new bytes replaced the copy of the chunk, a timeout sends them at `send_una`. */
  lemma ResendsData(c: Conn, data: seq<byte>, now: nat)
    requires c.state == Established && |c.rx| <= RX_SIZE && data != [] && c.una != Plus(c.next, |data|)
    ensures
      var d := SendSegment(c, PSH_ACK, data, now).0;
      Poll(d, now + RETRANSMIT_TICKS + 1).1 == [Segment(c.una, c.rcv, PSH_ACK, RX_SIZE - |c.rx|, data)]
  {}

  /** A peer with an empty ring takes the whole segment. */
  lemma TakesData(p: End, g: Segment)
    requires p.c.state == SynReceived ==> p.c.una != p.c.next && g.ackno == p.c.next
    requires p.c.state != Closed && p.c.state != Listen && p.c.state != SynSent
    requires p.c.state != CloseWait && p.c.state != LastAck && !p.c.finReceived
    requires p.c.rx == [] && g.flags == PSH_ACK && 0 < |g.data| <= MAX_SEGMENT && g.seqno == p.c.rcv
    ensures Deliver(p, g, 0, 0, false).accepted == p.accepted + g.data
  {
    hide Plus;
    var c1 := HandleAck(p.c, g);
    assert Tcp.TakesData(c1.state) && c1.rx == [] && c1.rcv == p.c.rcv;
    assert g.data[..|g.data|] == g.data;
    assert HandleData(c1, g).0.rx == g.data;
  }

  /** Sending while a chunk is outstanding of which the peer has taken nothing: once the peer's user has
      read what is in the ring, one timeout and one delivery make the peer accept the new bytes in the
      place of the old ones. */
  lemma SendAnywayCorrupts(w: World, x: Side, data: seq<byte>, now: nat)
    requires Inv(w) && Me(w, x).c.state == Established && Untaken(w, x) && Peer(w, x).c.state != Closed
    requires 0 < |data| <= MAX_SEGMENT && Used(Me(w, x)) + |data| < SEQ - 1
    requires !(data <= Rest(Me(w, x), Peer(w, x)) + data)
    ensures Corrupts(SendAnyway(w, x, data, now), x)
  {
    hide *;
    var e, p := Me(w, x), Peer(w, x);
    InvEnds(w, x);
    IsOpen(w, x);
    PeerWaits(e, p);
    ShortOfNext(e, p, |data|);
    ResendsData(e.c, data, now);
    var g := Segment(e.c.una, e.c.rcv, PSH_ACK, RX_SIZE - |e.c.rx|, data);
    TakesData(Emptied(p), g);
    var steps := CorruptRun(w, x, data, now, g);
    NoPrefix(p.accepted, e.sent, data);
    BreaksPrefix(SendAnyway(w, x, data, now), x, steps, p.accepted, e.sent, data);
  }

  lemma BreaksPrefix(v: World, x: Side, steps: seq<Step>, accepted: seq<byte>, sent: seq<byte>, data: seq<byte>)
    requires Valid(v, steps) && !(accepted + data <= sent + data)
    requires Peer(After(v, steps), x).accepted == accepted + data && Me(After(v, steps), x).sent == sent + data
    ensures Corrupts(v, x)
  {}

  /** The peer after its user has read everything. */
  function Emptied(p: End): (r: End)
    ensures r.c == p.c.(rx := []) && r.accepted == p.accepted && r.log == p.log
  {
    p.(c := p.c.(rx := []), read := p.read + p.c.rx)
  }

  lemma IsOpen(w: World, x: Side)
    requires Me(w, x).c.state == Established && Untaken(w, x)
    ensures CanClose(Me(w, x)) && !Idle(Me(w, x)) && Peer(w, x).c.rcv == Me(w, x).c.una
    ensures |Peer(w, x).accepted| <= |Me(w, x).sent| ==>
              Rest(Me(w, x), Peer(w, x)) == Me(w, x).sent[|Peer(w, x).accepted|..]
  {}

  /** Read, time out, deliver: once the retransmission and what the peer makes of it are known. */
  lemma CorruptRun(w: World, x: Side, data: seq<byte>, now: nat, g: Segment) returns (steps: seq<Step>)
    requires Peer(w, x).c.state != Closed && |Peer(w, x).c.rx| <= RX_SIZE
    requires Poll(SendSegment(Me(w, x).c, PSH_ACK, data, now).0, now + RETRANSMIT_TICKS + 1).1 == [g]
    ensures
      var v := SendAnyway(w, x, data, now);
      && Valid(v, steps) && Me(After(v, steps), x).sent == Me(w, x).sent + data
      && Peer(After(v, steps), x).accepted == Deliver(Emptied(Peer(w, x)), g, 0, 0, false).accepted
  {
    hide Plus, Poll, Handle, Deliver, Recv, SendSegment;
    var v := SendAnyway(w, x, data, now);
    var recv, poll := RecvStep(Other(x), RX_SIZE), PollStep(x, now + RETRANSMIT_TICKS + 1);
    var deliver := DeliverStep(Other(x), |Me(v, x).log|, 0, 0, false);
    ReadsAll(Peer(w, x).c);
    var v1 := Next(v, recv);
    assert Peer(v1, x) == Emptied(Peer(w, x)) && Me(v1, x) == Me(v, x);
    var v2 := Next(v1, poll);
    assert Me(v2, x).log == Me(v, x).log + [g];
    RunTwo(v1, poll, deliver);
    RunOne(v, recv, [poll] + [deliver]);
    steps := [recv] + ([poll] + [deliver]);
  }

  lemma ReadsAll(c: Conn)
    requires |c.rx| <= RX_SIZE
    ensures Recv(c, RX_SIZE) == (c.(rx := []), c.rx)
  {
    assert c.rx[..|c.rx|] == c.rx && c.rx[|c.rx|..] == [];
  }

  lemma NoPrefix(accepted: seq<byte>, sent: seq<byte>, data: seq<byte>)
    requires accepted <= sent
    ensures accepted + data <= sent + data <==> data <= sent[|accepted|..] + data
  {
    var rest := sent[|accepted|..] + data;
    assert sent + data == accepted + rest;
    if data <= rest { assert accepted + rest == (accepted + data) + rest[|data|..]; }
    if accepted + data <= accepted + rest {
      assert (accepted + rest)[|accepted|..] == rest;
      assert (accepted + rest)[..|accepted| + |data|][|accepted|..] == data;
    }
  }

  /** Exactly when a chunk sent over an outstanding one can make the peer accept bytes that were not sent
      in that order: the peer, still open, has taken nothing of what is outstanding, and the chunk differs
      from what stands there. */
  lemma SendCorruptsIff(w: World, x: Side, data: seq<byte>, now: nat)
    requires Reachable(w) && Me(w, x).c.state == Established
    requires 0 < |data| <= MAX_SEGMENT && Used(Me(w, x)) + |data| < SEQ - 1
    ensures
      Corrupts(SendAnyway(w, x, data, now), x) <==>
        Untaken(w, x) && !(data <= Rest(Me(w, x), Peer(w, x)) + data) && Peer(w, x).c.state != Closed
  {
    hide Inv, Reachable, Enabled, Next, Rest;
    ReachableInv(w);
    InvEnds(w, x);
    PeerWaits(Me(w, x), Peer(w, x));
    hide EndInv;
    var v := SendAnyway(w, x, data, now);
    if Untaken(w, x) && !(data <= Rest(Me(w, x), Peer(w, x)) + data) {
      if Peer(w, x).c.state != Closed {
        SendAnywayCorrupts(w, x, data, now);
      } else {
        forall steps | Valid(v, steps) ensures Peer(After(v, steps), x).accepted <= Me(After(v, steps), x).sent {
          ClosedForGood(v, x, steps);
        }
      }
    } else {
      SafeSendIsStep(w, x, data, now);
      NextKeeps(w, SendStep(x, data, now));
      forall steps | Valid(v, steps) ensures Peer(After(v, steps), x).accepted <= Me(After(v, steps), x).sent {
        RunKeeps(v, steps);
        AcceptedIsPrefix(After(v, steps), x);
      }
    }
  }

  lemma SafeSendIsStep(w: World, x: Side, data: seq<byte>, now: nat)
    requires Me(w, x).c.state == Established && Me(w, x).begun && Me(w, x).heard && !Me(w, x).fin
    requires 0 < |data| <= MAX_SEGMENT && Used(Me(w, x)) + |data| < SEQ - 1
    requires !Untaken(w, x) || data <= Rest(Me(w, x), Peer(w, x)) + data
    ensures Enabled(w, SendStep(x, data, now)) && SendAnyway(w, x, data, now) == Next(w, SendStep(x, data, now))
  {}

  // ---- it happens, and how a caller avoids it ----

  /** The handshake: SYN, SYN-ACK, ACK. */
  lemma Handshake() returns (w: World)
    ensures Reachable(w) && CanSend(w.a) && w.a.c.state == w.b.c.state == Established && Used(w.a) == 1
    ensures w.a.c.una == w.a.c.next == w.b.c.rcv == 1 && w.a.sent == w.b.accepted == []
  {
    var opening := [ConnectStep(0, 0)] + [DeliverStep(B, 0, 0, 0, false)];
    RunTwo(Start(), ConnectStep(0, 0), DeliverStep(B, 0, 0, 0, false));
    var v := After(Start(), opening);
    RunTwo(v, DeliverStep(A, 0, 0, 0, false), DeliverStep(B, 1, 0, 0, false));
    w := After(v, [DeliverStep(A, 0, 0, 0, false)] + [DeliverStep(B, 1, 0, 0, false)]);
    hide Next, Enabled;
    Joins(Start(), opening, [DeliverStep(A, 0, 0, 0, false)] + [DeliverStep(B, 1, 0, 0, false)]);
  }

  /** A handshake and one chunk that is still on its way. */
  lemma ChunkOnItsWay() returns (w: World)
    ensures Reachable(w) && Me(w, A).c.state == Established && Peer(w, A).c.state == Established && Untaken(w, A)
    ensures Me(w, A).sent == [0] && Peer(w, A).accepted == []
  {
    hide Reachable;
    var v := Handshake();
    assert Enabled(v, SendStep(A, [0], 0));
    w := Next(v, SendStep(A, [0], 0));
    assert [SendStep(A, [0], 0)][1..] == [];
    ReachableOn(v, [SendStep(A, [0], 0)]);
  }

  /** So a FIN can be taken before the bytes it follows. */
  lemma FinCanComeEarly() returns (w: World)
    ensures Reachable(w) && CanClose(Me(w, A)) && Truncates(CloseAnyway(w, A, 0), A)
  {
    w := ChunkOnItsWay();
    hide Reachable, Untaken;
    CloseTruncatesIff(w, A, 0);
  }

  lemma IdleStep(w: World, x: Side, s: Step)
    requires Enabled(w, s) && Waits(x, s) && Me(w, x).begun && Idle(Me(w, x)) && Me(w, x).c.state != Listen
    ensures var e := Me(Next(w, s), x); e.begun && Idle(e) && e.c.state != Listen
  {
    hide SafeSend, SafeClose, SendSegment, Deliver, Plus, Used;
    if s.DeliverStep? && s.x == x { IdleDelivers(Me(w, x), Peer(w, x).log[s.i], s.iss, s.now, s.answer); }
  }

  lemma IdleDelivers(e: End, g: Segment, iss: nat, now: nat, answer: bool)
    requires e.begun && Idle(e) && e.c.state != Listen
    ensures var d := Deliver(e, g, iss, now, answer); d.begun && Idle(d) && d.c.state != Listen
  {
    hide Room, Plus;
  }

  lemma {:induction false} IdleStays(w: World, x: Side, steps: seq<Step>)
    requires Valid(w, steps) && AllWait(x, steps)
    requires Me(w, x).begun && Idle(Me(w, x)) && Me(w, x).c.state != Listen
    ensures Idle(Me(After(w, steps), x))
    decreases |steps|
  {
    hide Next, Enabled, Waits, Me, Idle;
    if steps != [] {
      assert Waits(x, steps[0]);
      IdleStep(w, x, steps[0]);
      IdleStays(Next(w, steps[0]), x, steps[1..]);
    }
  }

  /** Closing after a tcp_send that returned its whole length cuts nothing off. */
  lemma WholeSendThenClose(w: World, x: Side, data: seq<byte>, call: seq<Step>, more: seq<Step>, now: nat)
    requires Reachable(w) && Idle(Me(w, x)) && Me(w, x).begun
    requires Valid(w, call) && SendCall(w, x, data, call, |data|)
    requires Valid(After(w, call), more) && AllWait(x, more) && CanClose(Me(After(After(w, call), more), x))
    ensures !Truncates(CloseAnyway(After(After(w, call), more), x, now), x)
  {
    hide *;
    var v := After(w, call);
    var u := After(v, more);
    WholeSendIsIdle(w, x, data, call);
    BegunStays(w, x, call);
    ReachableOn(w, call);
    ReachableInv(v);
    InvEnds(v, x);
    NotListening(Me(v, x), Peer(v, x));
    IdleStays(v, x, more);
    ReachableOn(v, more);
    IdleIsTaken(u, x);
    CloseTruncatesIff(u, x, now);
  }

  lemma NotListening(e: End, p: End)
    requires EndInv(e, p) && e.begun
    ensures e.c.state != Listen
  {}

  lemma IdleIsTaken(w: World, x: Side)
    requires Idle(Me(w, x))
    ensures !Untaken(w, x)
  {}

  lemma {:induction false} Joins(w: World, first: seq<Step>, last: seq<Step>)
    requires Valid(w, first) && Valid(After(w, first), last)
    ensures Valid(w, first + last) && After(w, first + last) == After(After(w, first), last)
    decreases |first|
  {
    hide Next, Enabled;
    if first == [] {
      assert first + last == last;
    } else {
      Joins(Next(w, first[0]), first[1..], last);
      assert (first + last)[1..] == first[1..] + last;
    }
  }

  lemma ReachableOn(w: World, steps: seq<Step>)
    requires Reachable(w) && Valid(w, steps)
    ensures Reachable(After(w, steps))
  {
    hide Valid, After;
    var first :| Valid(Start(), first) && After(Start(), first) == w;
    Joins(Start(), first, steps);
  }

  lemma {:induction false} WholeSendIsIdle(w: World, x: Side, data: seq<byte>, steps: seq<Step>)
    requires Valid(w, steps) && SendCall(w, x, data, steps, |data|) && Idle(Me(w, x))
    ensures Idle(Me(After(w, steps), x))
    decreases |data|
  {
    hide *;
    if data == [] {
      NothingSent(w, x, steps, 0);
    } else {
      var k := NextChunk(w, x, data, steps, |data|);
      InTwo(w, steps, k);
      WholeSendIsIdle(After(w, steps[..k]), x, data[ChunkLen(data)..], steps[k..]);
    }
  }
}

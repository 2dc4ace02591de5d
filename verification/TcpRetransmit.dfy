/** Retransmission: every copy of a segment repeats the original, and there are at most six. */
module TcpRetransmit {
  import opened Common
  import opened Tcp
  import opened TcpRuns
  import opened TcpDeliver
  import opened TcpTheorems

  /** A segment that takes sequence numbers: one that is kept for retransmission. */
  predicate Kept(g: Segment) { !g.flags.rst && SeqLen(g.flags, g.data) > 0 }

  /** How often the log holds a kept segment with this sequence number. */
  function Copies(log: seq<Segment>, seqno: nat): nat
  {
    if log == [] then 0
    else Copies(log[..|log| - 1], seqno) + if Kept(log[|log| - 1]) && log[|log| - 1].seqno == seqno then 1 else 0
  }

  ghost predicate IsCopy(g: Segment, h: Segment) { g.seqno == h.seqno && g.flags == h.flags && g.data == h.data }

  ghost predicate SameCopies(log: seq<Segment>)
  {
    forall i, j | 0 <= i < |log| && 0 <= j < |log| && Kept(log[i]) && Kept(log[j]) && log[i].seqno == log[j].seqno ::
      IsCopy(log[i], log[j])
  }

  /** Everything kept so far lies below the sequence numbers still to be used. */
  ghost predicate BelowUsed(e: End)
  {
    forall i | 0 <= i < |e.log| && Kept(e.log[i]) :: exists off: nat :: off < Used(e) && e.log[i].seqno == At(e, off)
  }

  ghost predicate RetryInv(e: End)
  {
    && SameCopies(e.log)
    && (forall s: nat :: Copies(e.log, s) <= MAX_RETRANSMITS + 1)
    && (!Idle(e) ==>
          && e.c.retries <= MAX_RETRANSMITS && Copies(e.log, e.c.una) == 1 + e.c.retries
          && exists i :: 0 <= i < |e.log| && Kept(e.log[i])
                         && IsCopy(e.log[i], Segment(e.c.una, 0, e.c.unackedFlags, 0, e.c.unacked)))
  }

  lemma TrueIsBelow(e: End, p: End)
    requires LogInv(e, p) && (e.log != [] ==> e.begun) && Taken(p) <= Used(e)
    ensures BelowUsed(e)
  {
    hide Plus;
    forall i | 0 <= i < |e.log| && Kept(e.log[i])
      ensures exists off: nat :: off < Used(e) && e.log[i].seqno == At(e, off)
    {
      assert TrueSegment(e, p, e.log[i]);
      var off: nat :| off <= Used(e) && PlacedAt(e, p, e.log[i], off);
    }
  }

  lemma {:induction false} CopiesNone(log: seq<Segment>, s: nat)
    requires forall i | 0 <= i < |log| && Kept(log[i]) :: log[i].seqno != s
    ensures Copies(log, s) == 0
  {
    if log != [] { CopiesNone(log[..|log| - 1], s); }
  }

  lemma CopiesAppend(log: seq<Segment>, g: Segment, s: nat)
    ensures Copies(log + [g], s) == Copies(log, s) + if Kept(g) && g.seqno == s then 1 else 0
  {
    assert (log + [g])[..|log|] == log;
  }

  /** Segments that take no sequence numbers change nothing. */
  lemma {:induction false} CopiesUnkept(log: seq<Segment>, out: seq<Segment>, s: nat)
    requires forall i | 0 <= i < |out| :: !Kept(out[i])
    ensures Copies(log + out, s) == Copies(log, s)
  {
    if out == [] {
      assert log + out == log;
    } else {
      var n := |out| - 1;
      CopiesUnkept(log, out[..n], s);
      assert log + out == (log + out[..n]) + [out[n]];
      CopiesAppend(log + out[..n], out[n], s);
    }
  }

  /** A fresh segment at `send_next`: nothing in the log has its sequence number. */
  lemma FreshCopy(e: End, e': End, g: Segment)
    requires RetryInv(e) && BelowUsed(e) && Used(e) < SEQ && Kept(g) && g.seqno == At(e, Used(e))
    requires e'.log == e.log + [g] && !Idle(e')
    requires e'.c.una == g.seqno && e'.c.unackedFlags == g.flags && e'.c.unacked == g.data && e'.c.retries == 0
    ensures RetryInv(e')
  {
    hide Plus;
    forall i | 0 <= i < |e.log| && Kept(e.log[i]) ensures e.log[i].seqno != g.seqno {
      var off: nat :| off < Used(e) && e.log[i].seqno == At(e, off);
      if At(e, off) == At(e, Used(e)) { AtInjective(e, off, Used(e)); }
    }
    CopiesNone(e.log, g.seqno);
    forall s: nat ensures Copies(e'.log, s) == Copies(e.log, s) + if g.seqno == s then 1 else 0 {
      CopiesAppend(e.log, g, s);
    }
    assert e'.log[|e.log|] == g;
  }

  /** A retransmission: one more copy of the outstanding segment. */
  lemma OneMoreCopy(e: End, e': End, g: Segment)
    requires RetryInv(e) && !Idle(e) && e.c.retries < MAX_RETRANSMITS
    requires IsCopy(g, Segment(e.c.una, 0, e.c.unackedFlags, 0, e.c.unacked))
    requires e'.log == e.log + [g] && e'.c.retries == e.c.retries + 1
    requires e'.c.una == e.c.una && e'.c.next == e.c.next
    requires e'.c.unackedFlags == e.c.unackedFlags && e'.c.unacked == e.c.unacked
    ensures RetryInv(e')
  {
    var k :|
      && 0 <= k < |e.log| && Kept(e.log[k])
      && IsCopy(e.log[k], Segment(e.c.una, 0, e.c.unackedFlags, 0, e.c.unacked));
    forall s: nat ensures Copies(e'.log, s) == Copies(e.log, s) + if g.seqno == s then 1 else 0 {
      CopiesAppend(e.log, g, s);
    }
    forall i, j | 0 <= i < |e'.log| && 0 <= j < |e'.log| && Kept(e'.log[i]) && Kept(e'.log[j])
                  && e'.log[i].seqno == e'.log[j].seqno
      ensures IsCopy(e'.log[i], e'.log[j])
    {
      assert i < |e.log| ==> (e.log[i].seqno == e.log[k].seqno ==> IsCopy(e.log[i], e.log[k]));
      assert j < |e.log| ==> (e.log[j].seqno == e.log[k].seqno ==> IsCopy(e.log[j], e.log[k]));
    }
    assert e'.log[k] == e.log[k];
  }

  /** Anything else: only bare acknowledgements or resets are added, and nothing new is outstanding. */
  lemma NoCopy(e: End, e': End, out: seq<Segment>)
    requires RetryInv(e) && e'.log == e.log + out && forall i | 0 <= i < |out| :: !Kept(out[i])
    requires !Idle(e') ==>
      && !Idle(e) && e'.c.una == e.c.una && e'.c.retries == e.c.retries
      && e'.c.unackedFlags == e.c.unackedFlags && e'.c.unacked == e.c.unacked
    ensures RetryInv(e')
  {
    forall s: nat ensures Copies(e'.log, s) == Copies(e.log, s) { CopiesUnkept(e.log, out, s); }
    forall i | 0 <= i < |e.log| ensures e'.log[i] == e.log[i] {}
    forall i | |e.log| <= i < |e'.log| ensures !Kept(e'.log[i]) { assert e'.log[i] == out[i - |e.log|]; }
  }

  /** Handling a segment emits only bare acknowledgements and leaves at most the same segment
      outstanding. */
  lemma HandleRetry(c: Conn, g: Segment)
    ensures
      var (d, out) := Handle(c, g);
      && (forall i | 0 <= i < |out| :: !Kept(out[i]))
      && d.retries == c.retries && d.unacked == c.unacked && d.unackedFlags == c.unackedFlags
      && d.next == c.next && (d.una == c.una || d.una == c.next)
  {
    hide Plus, Room;
  }

  lemma DeliverRetry(e: End, p: End, g: Segment, iss: nat, now: nat, answer: bool)
    requires BookInv(e, p) && LogInv(e, p) && RetryInv(e) && iss < SEQ
    ensures RetryInv(Deliver(e, g, iss, now, answer))
  {
    var e' := Deliver(e, g, iss, now, answer);
    if e.c.state == Closed {
      if answer && !g.flags.rst { NoCopy(e, e', [Reset(g)]); }
    } else if e.c.state == Listen {
      if g.flags.syn && !g.flags.ack { FirstCopy(e, e'); }
    } else {
      hide Handle, BookInv, LogInv, RetryInv;
      HandleRetry(e.c, g);
      NoCopy(e, e', Handle(e.c, g).1);
    }
  }

  /** The very first segment, a SYN or SYN-ACK. */
  lemma FirstCopy(e: End, e': End)
    requires e.log == [] && |e'.log| == 1 && Kept(e'.log[0]) && e'.c.una == e'.log[0].seqno
    requires e'.c.unackedFlags == e'.log[0].flags && e'.c.unacked == e'.log[0].data && e'.c.retries == 0
    ensures RetryInv(e')
  {
    assert e'.log[..0] == [];
    assert e'.log[0] == e'.log[|e'.log| - 1];
    assert IsCopy(e'.log[0], Segment(e'.c.una, 0, e'.c.unackedFlags, 0, e'.c.unacked));
  }

  lemma SendRetry(e: End, p: End, flags: Flags, data: seq<byte>, now: nat, e': End)
    requires BookInv(e, p) && LogInv(e, p) && RetryInv(e) && e.begun && Idle(e)
    requires !flags.rst && 0 < SeqLen(flags, data) && Used(e) + SeqLen(flags, data) < SEQ
    requires
      var (c, g) := SendSegment(e.c, flags, data, now);
      e'.c == c.(state := e'.c.state) && e'.log == e.log + [g]
    ensures RetryInv(e')
  {
    TrueIsBelow(e, p);
    hide Plus, BookInv, LogInv, BelowUsed, RetryInv, Copies;
    var (c, g) := SendSegment(e.c, flags, data, now);
    BookNext(e, p);
    PlusPlus(e.iss, Used(e), SeqLen(flags, data));
    NotIdle(e, Used(e), SeqLen(flags, data));
    FreshCopy(e, e', g);
  }

  lemma BookNext(e: End, p: End)
    requires BookInv(e, p) && e.begun
    ensures e.c.next == At(e, Used(e)) && Used(e) < SEQ
  {}

  lemma PollRetry(e: End, now: nat)
    requires RetryInv(e)
    ensures var (c, out) := Poll(e.c, now); RetryInv(e.(c := c, log := e.log + out))
  {
    var (c, out) := Poll(e.c, now);
    var e' := e.(c := c, log := e.log + out);
    hide RetryInv;
    if out == [] { NoCopy(e, e', []); } else { OneMoreCopy(e, e', out[0]); }
  }

  /** Sends and closes find nothing outstanding. */
  predicate Patient(w: World, s: Step) { s.SendStep? || s.CloseStep? ==> Idle(Me(w, s.x)) }

  lemma NextRetries(w: World, s: Step)
    requires Inv(w) && Enabled(w, s) && Patient(w, s) && RetryInv(w.a) && RetryInv(w.b)
    ensures RetryInv(Next(w, s).a) && RetryInv(Next(w, s).b)
  {
    hide BookInv, LogInv, RetryInv, Plus, SafeSend, SafeClose, Used;
    match s
    case ConnectStep(iss, now) =>
      NotBegunNoLog(w.a, w.b);
      FirstCopy(w.a, Next(w, s).a);
    case GiveUpStep => NoCopy(w.a, Next(w, s).a, []);
    case SendStep(x, data, now) =>
      SendRetry(Me(w, x), Peer(w, x), PSH_ACK, data, now, Me(Next(w, s), x));
    case CloseStep(x, now) =>
      RoomForFin(Me(w, x), Peer(w, x));
      SendRetry(Me(w, x), Peer(w, x), FIN_ACK, [], now, Me(Next(w, s), x));
    case PollStep(x, now) => PollRetry(Me(w, x), now);
    case RecvStep(x, n) => NoCopy(Me(w, x), Me(Next(w, s), x), []);
    case DeliverStep(x, i, iss, now, answer) =>
      DeliverRetry(Me(w, x), Peer(w, x), Peer(w, x).log[i], iss, now, answer);
  }

  lemma NotBegunNoLog(e: End, p: End)
    requires BookInv(e, p) && !e.begun
    ensures e.log == []
  {}

  lemma RoomForFin(e: End, p: End)
    requires BookInv(e, p) && !e.fin
    ensures Used(e) + SeqLen(FIN_ACK, []) < SEQ
  {}

  /** Each step of the run is patient. */
  ghost predicate AllPatient(w: World, steps: seq<Step>)
    requires Valid(w, steps)
    decreases |steps|
  {
    steps == [] || (Patient(w, steps[0]) && AllPatient(Next(w, steps[0]), steps[1..]))
  }

  /** Reached by a run in which every send and close found nothing outstanding. */
  ghost predicate ReachedPatiently(w: World)
  {
    exists steps :: Valid(Start(), steps) && AllPatient(Start(), steps) && After(Start(), steps) == w
  }

  lemma {:induction false} RunRetries(w: World, steps: seq<Step>)
    requires Inv(w) && RetryInv(w.a) && RetryInv(w.b) && Valid(w, steps) && AllPatient(w, steps)
    ensures RetryInv(After(w, steps).a) && RetryInv(After(w, steps).b)
    decreases |steps|
  {
    hide Inv, RetryInv, Next, Enabled, Patient;
    if steps != [] {
      NextKeeps(w, steps[0]);
      NextRetries(w, steps[0]);
      RunRetries(Next(w, steps[0]), steps[1..]);
    }
  }

  /** Over every patient run: two transmissions that take sequence numbers and start at the same one
      carry the same flags and bytes, and no sequence number is transmitted more than six times. */
  lemma RetransmissionsRepeat(w: World, x: Side)
    requires ReachedPatiently(w)
    ensures SameCopies(Me(w, x).log)
    ensures forall s: nat :: Copies(Me(w, x).log, s) <= 6
  {
    ReachableRetries(w);
  }

  lemma ReachableRetries(w: World)
    requires ReachedPatiently(w)
    ensures RetryInv(w.a) && RetryInv(w.b)
  {
    var steps :| Valid(Start(), steps) && AllPatient(Start(), steps) && After(Start(), steps) == w;
    assert Inv(Start());
    assert RetryInv(Start().a) && RetryInv(Start().b);
    RunRetries(Start(), steps);
  }

  /** More than two seconds have passed since the outstanding segment was last sent. */
  predicate TimedOut(c: Conn, now: nat)
  {
    c.state != Closed && c.state != Listen && c.una != c.next && (now - c.tick) % 0x1_0000_0000 > 200
  }

  /** On a timeout an open connection transmits what is outstanding once more, or, after six
      transmissions, closes without sending. */
  lemma TimeoutRepeatsOrCloses(w: World, x: Side, now: nat)
    requires ReachedPatiently(w) && TimedOut(Me(w, x).c, now)
    ensures var e, (d, out) := Me(w, x), Poll(Me(w, x).c, now);
      var sent := Copies(e.log, e.c.una);
      && 1 <= sent <= 6
      && (sent == 6 ==> d == e.c.(state := Closed) && out == [])
      && (sent < 6 ==> d.state == e.c.state && Copies(e.log + out, e.c.una) == sent + 1)
  {
    hide Plus, SameCopies;
    ReachableRetries(w);
    var e := Me(w, x);
    var (d, out) := Poll(e.c, now);
    if out != [] {
      assert out == [out[0]] && Kept(out[0]);
      CopiesAppend(e.log, out[0], e.c.una);
    }
  }

  /** `tcp_poll` does something exactly on a timeout, and restarts the clock when it transmits, so that the next
      retransmission is more than two seconds away. */
  lemma OnlyOnTimeout(c: Conn, now: nat)
    ensures Poll(c, now) != (c, []) <==> TimedOut(c, now)
    ensures
      var (d, out) := Poll(c, now);
      out != [] ==>
        && d == c.(tick := now, retries := c.retries + 1)
        && forall later: nat | (later - now) % 0x1_0000_0000 <= 200 :: Poll(d, later) == (d, [])
  {}
}

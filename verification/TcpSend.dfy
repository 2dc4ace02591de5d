/** A whole call of `tcp_send`: its chunks, and whatever else happens on either side while it waits. */
module TcpSend {
  import opened Common
  import opened Tcp
  import opened TcpRuns
  import opened TcpTheorems

  /** A step that is not the caller's: it waits, so it sends and closes nothing. */
  predicate Waits(x: Side, s: Step) { !(s.SendStep? && s.x == x) && !(s.CloseStep? && s.x == x) }

  ghost predicate AllWait(x: Side, steps: seq<Step>) { forall i | 0 <= i < |steps| :: Waits(x, steps[i]) }

  function ChunkLen(data: seq<byte>): (n: nat)
    ensures n <= |data| && (data != [] ==> 0 < n)
  {
    if |data| > MAX_SEGMENT then MAX_SEGMENT else |data|
  }

  /** The run of a call on `data` by endpoint `x` that returns `r`. Each chunk is sent and waited for; the
      call goes on when it sees the chunk acknowledged, and gives up in the wait otherwise. */
  ghost predicate SendCall(w: World, x: Side, data: seq<byte>, steps: seq<Step>, r: nat)
    decreases |data|
  {
    if data == [] then steps == [] && r == 0
    else
      var n := ChunkLen(data);
      && |steps| > 0 && steps[0].SendStep? && steps[0].x == x && steps[0].data == data[..n]
      && ((r == 0 && AllWait(x, steps[1..])) || exists k: nat :: Acked(w, x, data, steps, r, k))
  }

  /** The chunk is seen acknowledged after `k` steps and the call goes on from there. */
  ghost predicate Acked(w: World, x: Side, data: seq<byte>, steps: seq<Step>, r: nat, k: nat)
    requires data != []
    decreases |data|, 0
  {
    var n := ChunkLen(data);
    && 1 <= k <= |steps| && n <= r && AllWait(x, steps[..k][1..]) && Valid(w, steps[..k])
    && Idle(Me(After(w, steps[..k]), x))
    && SendCall(After(w, steps[..k]), x, data[n..], steps[k..], r - n)
  }

  /** What a step of someone else does to the two streams: nothing is sent, nothing is un-accepted. */
  lemma WaitKeeps(w: World, x: Side, s: Step)
    requires Enabled(w, s) && Waits(x, s)
    ensures Me(Next(w, s), x).sent == Me(w, x).sent && Peer(w, x).accepted <= Peer(Next(w, s), x).accepted
  {
    hide SafeSend, SafeClose, SendSegment, Deliver, Plus, Used;
    if s.DeliverStep? { Delivers(Me(w, s.x), Peer(w, s.x).log[s.i], s.iss, s.now, s.answer); }
  }

  lemma Delivers(e: End, g: Segment, iss: nat, now: nat, answer: bool)
    ensures var d := Deliver(e, g, iss, now, answer); d.sent == e.sent && e.accepted <= d.accepted
  {
    hide Handle;
  }

  lemma {:induction false} WaitsKeep(w: World, x: Side, steps: seq<Step>)
    requires Valid(w, steps) && AllWait(x, steps)
    ensures Me(After(w, steps), x).sent == Me(w, x).sent
    ensures Peer(w, x).accepted <= Peer(After(w, steps), x).accepted
    decreases |steps|
  {
    hide Next, Enabled;
    if steps != [] {
      WaitKeeps(w, x, steps[0]);
      WaitsKeep(Next(w, steps[0]), x, steps[1..]);
    }
  }

  /** A run in two parts. */
  lemma {:induction false} InTwo(w: World, steps: seq<Step>, k: nat)
    requires Valid(w, steps) && k <= |steps|
    ensures Valid(w, steps[..k]) && Valid(After(w, steps[..k]), steps[k..])
    ensures After(After(w, steps[..k]), steps[k..]) == After(w, steps)
    decreases k
  {
    hide Next, Enabled;
    if k == 0 {
      assert steps[..0] == [] && steps[0..] == steps;
    } else {
      InTwo(Next(w, steps[0]), steps[1..], k - 1);
      assert steps[..k][1..] == steps[1..][..k - 1] && steps[1..][k - 1..] == steps[k..];
    }
  }

  /** One chunk and the steps it waits through. */
  lemma ChunkSent(w: World, x: Side, chunk: seq<byte>, steps: seq<Step>)
    requires Inv(w) && Idle(Me(w, x)) && Valid(w, steps) && |steps| > 0 && AllWait(x, steps[1..])
    requires steps[0].SendStep? && steps[0].x == x && steps[0].data == chunk
    ensures
      var w' := After(w, steps);
      && Me(w', x).sent == Me(w, x).sent + chunk && Peer(w, x).accepted == Me(w, x).sent
      && Inv(w') && Me(w, x).sent <= Peer(w', x).accepted <= Me(w, x).sent + chunk
      && (Idle(Me(w', x)) ==> Peer(w', x).accepted == Me(w', x).sent)
  {
    var w1 := Next(w, steps[0]);
    assert Peer(w1, x).accepted == Peer(w, x).accepted && Me(w1, x).sent == Me(w, x).sent + chunk;
    assert Me(w, x).begun;
    hide Next, Enabled, Inv, Idle;
    AcceptedIsPrefix(w, x);
    NextKeeps(w, steps[0]);
    RunKeeps(w1, steps[1..]);
    WaitsKeep(w1, x, steps[1..]);
    AcceptedIsPrefix(After(w, steps), x);
    BegunStays(w, x, steps);
  }

  lemma ChunkAcked(w: World, x: Side, chunk: seq<byte>, steps: seq<Step>)
    requires Inv(w) && Idle(Me(w, x)) && Valid(w, steps) && |steps| > 0 && AllWait(x, steps[1..])
    requires steps[0].SendStep? && steps[0].x == x && steps[0].data == chunk
    ensures Inv(After(w, steps)) && Me(After(w, steps), x).begun && Me(After(w, steps), x).sent == Me(w, x).sent + chunk
  {
    ChunkSent(w, x, chunk, steps);
    hide Inv;
    BegunStays(w, x, steps);
  }

  lemma AcceptedIsPrefix(w: World, x: Side)
    requires Inv(w)
    ensures Peer(w, x).accepted <= Me(w, x).sent
    ensures Me(w, x).begun && Idle(Me(w, x)) ==> Peer(w, x).accepted == Me(w, x).sent
  {
    hide Plus, LogInv;
    assert BookInv(Peer(w, x), Me(w, x)) && BookInv(Me(w, x), Peer(w, x));
  }

  lemma {:induction false} BegunStays(w: World, x: Side, steps: seq<Step>)
    requires Valid(w, steps) && Me(w, x).begun
    ensures Me(After(w, steps), x).begun
    decreases |steps|
  {
    hide Handle;
    if steps != [] { BegunStays(Next(w, steps[0]), x, steps[1..]); }
  }

  lemma Rejoin(sent: seq<byte>, data: seq<byte>, n: nat, r: nat)
    requires n <= r <= |data|
    ensures (sent + data[..n]) + data[n..][..r - n] == sent + data[..r]
    ensures (sent + data[..n]) + data[n..] == sent + data
    ensures sent + data[..0] == sent && sent + data[..n] <= sent + data
  {}

  /** A call of `tcp_send` that returns `r` has delivered the first `r` bytes of its buffer: the peer has
      accepted all that was sent before, those bytes after it, and nothing but the buffer after that. A
      call that returns the whole length leaves the peer's stream ending in the buffer. */
  lemma {:induction false} SendDelivers(w: World, x: Side, data: seq<byte>, steps: seq<Step>, r: nat)
    requires Inv(w) && Valid(w, steps) && SendCall(w, x, data, steps, r)
    requires Me(w, x).begun && Idle(Me(w, x))
    ensures
      var got := Peer(After(w, steps), x).accepted;
      && r <= |data| && Me(w, x).sent + data[..r] <= got <= Me(w, x).sent + data
      && (r == |data| ==> got == Me(w, x).sent + data)
    decreases |data|
  {
    hide *;
    AcceptedIsPrefix(w, x);
    if data == [] {
      NothingSent(w, x, steps, r);
    } else {
      var n := ChunkLen(data);
      var k := NextChunk(w, x, data, steps, r);
      if k == 0 {
        ChunkSent(w, x, data[..n], steps);
        Rejoin(Me(w, x).sent, data, n, n);
      } else {
        InTwo(w, steps, k);
        ChunkAcked(w, x, data[..n], steps[..k]);
        SendDelivers(After(w, steps[..k]), x, data[n..], steps[k..], r - n);
        Rejoin(Me(w, x).sent, data, n, r);
      }
    }
  }

  lemma NothingSent(w: World, x: Side, steps: seq<Step>, r: nat)
    requires Valid(w, steps) && SendCall(w, x, [], steps, r)
    ensures r == 0 && After(w, steps) == w
  {}

  /** The chunk that a call sends first is given up (`k == 0`) or acknowledged after `k` steps. */
  lemma NextChunk(w: World, x: Side, data: seq<byte>, steps: seq<Step>, r: nat) returns (k: nat)
    requires data != [] && SendCall(w, x, data, steps, r)
    ensures
      var n := ChunkLen(data);
      && n <= |data| && |steps| > 0 && steps[0].SendStep? && steps[0].x == x && steps[0].data == data[..n]
      && if k == 0 then r == 0 && AllWait(x, steps[1..]) && r < |data| else
           && n > 0 && k <= |steps| && n <= r && AllWait(x, steps[..k][1..]) && Valid(w, steps[..k])
           && Idle(Me(After(w, steps[..k]), x)) && SendCall(After(w, steps[..k]), x, data[n..], steps[k..], r - n)
  {
    hide Valid, After, Idle, AllWait;
    if r == 0 && AllWait(x, steps[1..]) {
      k := 0;
    } else {
      k :| Acked(w, x, data, steps, r, k);
    }
  }

  /** The same of any call made in a reachable state. */
  lemma SendIsDelivered(w: World, x: Side, data: seq<byte>, steps: seq<Step>, r: nat)
    requires Reachable(w) && Valid(w, steps) && SendCall(w, x, data, steps, r)
    requires Me(w, x).c.state == Established && Idle(Me(w, x))
    ensures
      var got := Peer(After(w, steps), x).accepted;
      && r <= |data| && Me(w, x).sent + data[..r] <= got <= Me(w, x).sent + data
      && (r == |data| ==> got == Me(w, x).sent + data)
  {
    ReachableInv(w);
    assert Me(w, x).begun by { hide BookInv, LogInv; }
    hide SendCall;
    SendDelivers(w, x, data, steps, r);
  }
}

/** tcp.c's control block as it runs: fields updated in place, a 2048-byte receive ring and a
    536-byte retransmission buffer. Each method computes the function of the same name in Tcp. */
module TcpConn {
  import opened Common
  import opened Tcp

  /** `n` bytes of a ring from index `head` on, wrapping round. */
  function Content(ring: seq<byte>, head: nat, n: nat): (s: seq<byte>)
    requires |ring| == RX_SIZE && head < RX_SIZE && n <= RX_SIZE
    ensures |s| == n
  {
    seq(n, i requires 0 <= i < n => ring[Wrap(head + i)])
  }

  function Wrap(i: nat): (r: nat)
    requires i < 2 * RX_SIZE
    ensures r < RX_SIZE && r == i % RX_SIZE
  { if i < RX_SIZE then i else i - RX_SIZE }

  lemma ContentDrop(ring: seq<byte>, head: nat, n: nat)
    requires |ring| == RX_SIZE && head < RX_SIZE && 0 < n <= RX_SIZE
    ensures Content(ring, head, n) == [ring[head]] + Content(ring, Wrap(head + 1), n - 1)
  {
    var s, t := Content(ring, head, n), [ring[head]] + Content(ring, Wrap(head + 1), n - 1);
    forall i | 0 <= i < n ensures s[i] == t[i] {
      if i == 0 {
        assert s[0] == ring[Wrap(head)] && t[0] == ring[head];
      } else {
        assert t[i] == Content(ring, Wrap(head + 1), n - 1)[i - 1] == ring[Wrap(Wrap(head + 1) + (i - 1))];
        assert Wrap(head + i) == Wrap(Wrap(head + 1) + (i - 1));
      }
    }
    assert s == t;
  }

  lemma ContentPut(ring: seq<byte>, head: nat, n: nat, b: byte)
    requires |ring| == RX_SIZE && head < RX_SIZE && n < RX_SIZE
    ensures Content(ring[Wrap(head + n) := b], head, n + 1) == Content(ring, head, n) + [b]
  {
    var s, t := Content(ring[Wrap(head + n) := b], head, n + 1), Content(ring, head, n) + [b];
    forall i | 0 <= i <= n ensures s[i] == t[i] {
      assert i < n ==> Wrap(head + i) != Wrap(head + n);
    }
    assert s == t;
  }

  class TcpConn {
    var state: State
    var una: nat
    var next: nat
    var rcv: nat
    const unackedData: array<byte>
    var unackedLen: nat
    var unackedFlags: Flags
    var tick: nat
    var retries: nat
    const ring: array<byte>
    var head: nat
    var tail: nat
    var count: nat
    var finReceived: bool

    ghost predicate Valid()
      reads this
    {
      && ring.Length == RX_SIZE && unackedData.Length == MAX_SEGMENT && ring != unackedData
      && head < RX_SIZE && count <= RX_SIZE && unackedLen <= MAX_SEGMENT
      && tail == Wrap(head + count)
    }

    /** The bytes waiting for tcp_recv, oldest first. */
    ghost function Rx(): (s: seq<byte>)
      requires ring.Length == RX_SIZE && head < RX_SIZE && count <= RX_SIZE
      reads this`head, this`count, ring
      ensures |s| == count
    {
      Content(ring[..], head, count)
    }

    ghost function Abs(): Conn
      requires Valid()
      reads this, ring, unackedData
    {
      Conn(state, una, next, rcv, unackedData[..unackedLen], unackedFlags, tick, retries, Rx(), finReceived)
    }

    /** A slot as `alloc_slot` clears it, with the sequence number and state its caller sets. */
    constructor (iss: nat, s: State)
      ensures Valid() && fresh(ring) && fresh(unackedData) && Abs() == Fresh(iss).(state := s)
    {
      state, una, next, rcv := s, iss, iss, 0;
      unackedData := new byte[MAX_SEGMENT];
      unackedLen, unackedFlags, tick, retries := 0, Flags(false, false, false, false, false), 0, 0;
      ring := new byte[RX_SIZE];
      head, tail, count, finReceived := 0, 0, 0, false;
    }

    /** One byte into the ring. */
    method Put(b: byte)
      requires Valid() && count < RX_SIZE
      modifies this`tail, this`count, ring
      ensures Valid() && Rx() == old(Rx()) + [b] && count == old(count) + 1
    {
      ContentPut(ring[..], head, count, b);
      ring[tail] := b;
      assert ring[..] == old(ring[..])[Wrap(head + count) := b];
      tail := (tail + 1) % RX_SIZE;
      count := count + 1;
    }

    method PutAll(bytes: seq<byte>)
      requires Valid() && count + |bytes| <= RX_SIZE
      modifies this`tail, this`count, ring
      ensures Valid() && Rx() == old(Rx()) + bytes
    {
      for i := 0 to |bytes|
        invariant Valid() && Rx() == old(Rx()) + bytes[..i]
      {
        Put(bytes[i]);
        assert bytes[..i + 1] == bytes[..i] + [bytes[i]];
      }
      assert bytes[..|bytes|] == bytes;
    }

    /** The oldest byte out of the ring. */
    method Get() returns (b: byte)
      requires Valid() && count > 0
      modifies this`head, this`count
      ensures Valid() && [b] + Rx() == old(Rx()) && count == old(count) - 1
    {
      ContentDrop(ring[..], head, count);
      b := ring[head];
      head := (head + 1) % RX_SIZE;
      assert head == Wrap(old(head) + 1);
      count := count - 1;
    }

    /** `tcp_recv`. */
    method Receive(n: nat) returns (bytes: seq<byte>)
      requires Valid()
      modifies this`head, this`count
      ensures Valid() && Abs() == Recv(old(Abs()), n).0 && bytes == Recv(old(Abs()), n).1
    {
      var k := if count < n then count else n;
      bytes := [];
      ghost var all := Rx();
      for i := 0 to k
        invariant Valid() && count == |all| - i && bytes + Rx() == all && |bytes| == i
      {
        ghost var rest := Rx();
        var b := Get();
        assert bytes + rest == (bytes + [b]) + Rx();
        bytes := bytes + [b];
      }
      assert bytes == all[..k] && Rx() == all[k..];
    }

    /** `build_and_send`'s header fields around the data. */
    method Transmit(seqno: nat, flags: Flags, data: seq<byte>) returns (g: Segment)
      requires Valid()
      ensures g == Build(Abs(), seqno, flags, data)
    {
      g := Segment(seqno, if flags.ack then rcv else 0, flags, RX_SIZE - count, data);
    }

    /** `send_segment`: transmit, copy the data for retransmission, advance. */
    method SendNow(flags: Flags, data: seq<byte>, now: nat) returns (g: Segment)
      requires Valid() && |data| <= MAX_SEGMENT
      modifies this`unackedLen, this`unackedFlags, this`tick, this`retries, this`next, unackedData
      ensures Valid() && (Abs(), g) == SendSegment(old(Abs()), flags, data, now)
    {
      hide Rx;
      g := Transmit(next, flags, data);
      for i := 0 to |data|
        invariant unackedData[..i] == data[..i]
        modifies unackedData
      {
        unackedData[i] := data[i];
      }
      assert unackedData[..|data|] == data && Rx() == old(Rx());
      unackedLen, unackedFlags, tick, retries := |data|, flags, now, 0;
      var seqLen := |data|;
      if flags.syn {
        seqLen := seqLen + 1;
      }
      if flags.fin {
        seqLen := seqLen + 1;
      }
      next := (next + seqLen) % SEQ;
    }

    /** `tcp_close` on an open connection. */
    method CloseNow(now: nat) returns (out: seq<Segment>)
      requires Valid()
      modifies this`state, this`unackedLen, this`unackedFlags, this`tick, this`retries, this`next, unackedData
      ensures Valid() && (Abs(), out) == Shut(old(Abs()), now)
    {
      out := [];
      match state
      case Listen =>
        state := Closed;
      case SynSent =>
        state := Closed;
      case Established =>
        var g := SendNow(FIN_ACK, [], now);
        state := FinWait1;
        out := [g];
      case CloseWait =>
        var g := SendNow(FIN_ACK, [], now);
        state := LastAck;
        out := [g];
      case _ =>
    }

    /** `tcp_poll` for this connection. */
    method PollNow(now: nat) returns (out: seq<Segment>)
      requires Valid()
      modifies this`state, this`tick, this`retries
      ensures Valid() && (Abs(), out) == Poll(old(Abs()), now)
    {
      out := [];
      if state == Closed || state == Listen || una == next {
        return;
      }
      if (now - tick) % SEQ > RETRANSMIT_TICKS {
        if retries >= MAX_RETRANSMITS {
          state := Closed;
          return;
        }
        var g := Transmit(una, unackedFlags, unackedData[..unackedLen]);
        out := [g];
        tick, retries := now, retries + 1;
      }
    }

    method TakeAck(g: Segment)
      requires Valid()
      modifies this`una, this`state
      ensures Valid() && Abs() == HandleAck(old(Abs()), g)
    {
      hide Rx;
      if g.flags.ack && una != next && g.ackno == next {
        var finWasAcked := unackedFlags.fin;
        una := next;
        if state == SynReceived {
          state := Established;
        } else if state == FinWait1 && finWasAcked {
          state := if finReceived then Closed else FinWait2;
        } else if state == LastAck && finWasAcked {
          state := Closed;
        }
      }
    }

    method TakeData(g: Segment) returns (out: seq<Segment>)
      requires Valid()
      modifies this`rcv, this`tail, this`count, ring
      ensures Valid() && (Abs(), out) == HandleData(old(Abs()), g)
    {
      hide Rx;
      out := [];
      if |g.data| == 0 {
        return;
      }
      if g.seqno == rcv && TakesData(state) {
        var space := RX_SIZE - count;
        var n := if |g.data| < space then |g.data| else space;
        PutAll(g.data[..n]);
        rcv := (rcv + n) % SEQ;
      }
      var a := Transmit(next, ACK, []);
      out := [a];
    }

    method TakeFin(g: Segment) returns (out: seq<Segment>)
      requires Valid()
      modifies this`rcv, this`finReceived, this`state
      ensures Valid() && (Abs(), out) == HandleFin(old(Abs()), g)
    {
      out := [];
      if g.flags.fin && (g.seqno + |g.data|) % SEQ == rcv {
        rcv := (rcv + 1) % SEQ;
        finReceived := true;
        var a := Transmit(next, ACK, []);
        out := [a];
        match state
        case Established => state := CloseWait;
        case FinWait2 => state := Closed;
        case _ =>
      }
    }

    /** `tcp_handle_packet` once the segment is matched to this open connection. */
    method HandlePacket(g: Segment) returns (out: seq<Segment>)
      requires Valid()
      modifies this`state, this`una, this`rcv, this`tail, this`count, this`finReceived, ring
      ensures Valid() && (Abs(), out) == Handle(old(Abs()), g)
    {
      hide HandleAck, HandleData, HandleFin;
      if g.flags.rst {
        state := Closed;
        return [];
      }
      if state == SynSent {
        if g.flags.syn && g.flags.ack && g.ackno == next {
          una := next;
          rcv := (g.seqno + 1) % SEQ;
          state := Established;
          var a := Transmit(next, ACK, []);
          return [a];
        }
        return [];
      }
      TakeAck(g);
      if state == Closed {
        return [];
      }
      var out2 := TakeData(g);
      var out3 := TakeFin(g);
      return out2 + out3;
    }
  }
}

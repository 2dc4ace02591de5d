/** Names and answers of the resolver (kernel/drivers/net/application_layer/dns.c; sections 3.1, 4.1.2
    and 4.1.4 of RFC 1035). */
module Dns {
  import opened Common

  const HDR_LEN := 12
  const MAX_PACKET := 512
  const DOT: byte := 46

  type Label = seq<byte>

  // ---- host names and labels ----

  function Head(s: seq<byte>): (l: Label)
    ensures l <= s && DOT !in l && (|l| < |s| ==> s[|l|] == DOT)
  {
    if s == [] || s[0] == DOT then [] else [s[0]] + Head(s[1..])
  }

  /** The parts between the dots; an empty name has one empty label. */
  function Labels(host: seq<byte>): (ls: seq<Label>)
    ensures ls != []
    decreases |host|
  {
    if |Head(host)| == |host| then [host] else [Head(host)] + Labels(host[|Head(host)| + 1..])
  }

  predicate Legal(l: Label) { 1 <= |l| <= 63 }

  predicate AllLegal(ls: seq<Label>) { forall i | 0 <= i < |ls| :: Legal(ls[i]) }

  /** Length-prefixed labels. */
  function Wire(ls: seq<Label>): (r: seq<byte>)
    requires AllLegal(ls)
  {
    if ls == [] then [] else [|ls[0]|] + ls[0] + Wire(ls[1..])
  }

  function Encode(ls: seq<Label>): seq<byte>
    requires AllLegal(ls)
  {
    Wire(ls) + [0]
  }

  /** `encode_qname` takes exactly the names with labels of 1 to 63 bytes whose encoding fits. */
  predicate Accepts(host: seq<byte>, max: nat)
  {
    AllLegal(Labels(host)) && |Encode(Labels(host))| <= max
  }

  /** The labels an encoded name starts with. */
  function Decode(b: seq<byte>): Option<seq<Label>>
  {
    if b == [] then None
    else if b[0] == 0 then Some([])
    else if b[0] > 63 || |b| < 1 + b[0] as int then None
    else
      match Decode(b[1 + b[0] as int..])
      case None => None
      case Some(ls) => Some([b[1..1 + b[0] as int]] + ls)
  }

  /** Decoding an encoded name gives its labels back, whatever follows. */
  lemma {:induction false} DecodeEncode(ls: seq<Label>, rest: seq<byte>)
    requires AllLegal(ls)
    ensures Decode(Encode(ls) + rest) == Some(ls)
    decreases |ls|
  {
    var b := Encode(ls) + rest;
    if ls == [] {
      assert b[0] == 0;
    } else {
      var l, n := ls[0], |ls[0]|;
      assert Legal(l);
      DecodeEncode(ls[1..], rest);
      assert b[0] == n;
      assert b[1..1 + n] == l;
      assert b[1 + n..] == Encode(ls[1..]) + rest;
      assert ls == [l] + ls[1..];
    }
  }

  lemma {:induction false} WireConcat(a: seq<Label>, b: seq<Label>)
    requires AllLegal(a) && AllLegal(b)
    ensures AllLegal(a + b) && Wire(a + b) == Wire(a) + Wire(b)
    decreases |a|
  {
    if a == [] {
      assert a + b == b;
      assert [] + Wire(b) == Wire(b);
    } else {
      WireConcat(a[1..], b);
      assert (a + b)[1..] == a[1..] + b;
      assert Wire(a + b) == [|a[0]|] + a[0] + Wire(a[1..] + b);
    }
  }

  // ---- skipping a name ----

  function Skip(pkt: seq<byte>, at: nat): (r: nat)
    requires |pkt| <= MAX_PACKET
    ensures at <= MAX_PACKET + 255 ==> r <= MAX_PACKET + 255
    ensures at < |pkt| ==> at < r
    decreases |pkt| - at
  {
    if at >= |pkt| then |pkt|
    else if pkt[at] >= 0xC0 then at + 2
    else if pkt[at] == 0 then at + 1
    else Skip(pkt, at + 1 + pkt[at] as int)
  }

  /** `wire` stands in the packet at `at`. */
  predicate Stands(pkt: seq<byte>, at: nat, wire: seq<byte>)
  {
    at + |wire| <= |pkt| && pkt[at..at + |wire|] == wire
  }

  lemma StandsParts(pkt: seq<byte>, at: nat, a: seq<byte>, b: seq<byte>)
    requires Stands(pkt, at, a + b)
    ensures Stands(pkt, at, a) && Stands(pkt, at + |a|, b)
  {
    assert pkt[at..at + |a|] == (a + b)[..|a|];
    assert pkt[at + |a|..at + |a + b|] == (a + b)[|a|..];
  }

  lemma WireStep(ls: seq<Label>)
    requires AllLegal(ls) && ls != []
    ensures AllLegal(ls[1..]) && Wire(ls) == ([|ls[0]|] + ls[0]) + Wire(ls[1..])
  {}

  /** Skipping passes over whole labels. */
  lemma {:induction false} SkipLabels(pkt: seq<byte>, at: nat, ls: seq<Label>)
    requires |pkt| <= MAX_PACKET && AllLegal(ls) && Stands(pkt, at, Wire(ls)) && at + |Wire(ls)| < |pkt|
    ensures Skip(pkt, at) == Skip(pkt, at + |Wire(ls)|)
    decreases |ls|
  {
    if ls != [] {
      hide Wire;
      WireStep(ls);
      var l := ls[0];
      assert Legal(l);
      var first := [|l|] + l;
      StandsParts(pkt, at, first, Wire(ls[1..]));
      assert pkt[at] == pkt[at..at + |first|][0] == |l|;
      SkipLabels(pkt, at + |first|, ls[1..]);
    }
  }

  /** `skip_name` consumes exactly what `encode_qname` wrote. */
  lemma SkipEncoded(pkt: seq<byte>, at: nat, ls: seq<Label>)
    requires |pkt| <= MAX_PACKET && AllLegal(ls) && Stands(pkt, at, Encode(ls))
    ensures Skip(pkt, at) == at + |Encode(ls)|
  {
    StandsParts(pkt, at, Wire(ls), [0]);
    assert pkt[at + |Wire(ls)|] == 0;
    SkipLabels(pkt, at, ls);
  }

  // ---- encode_qname ----

  lemma HeadGrows(s: seq<byte>, n: nat)
    requires n <= |Head(s)|
    ensures n == |Head(s)| <==> n == |s| || s[n] == DOT
  {
    if n < |Head(s)| {
      assert Head(s)[n] in Head(s);
    }
  }

  lemma WireOne(l: Label)
    requires Legal(l)
    ensures AllLegal([l]) && Wire([l]) == [|l|] + l
  {
    var ls: seq<Label> := [l];
    assert ls[1..] == [];
    assert [|l|] + l + Wire([]) == [|l|] + l;
  }

  /** The whole encoding is at least as long as that of its first labels. */
  lemma WireLonger(done: seq<Label>, l: Label, ls: seq<Label>)
    requires AllLegal(ls) && done + [l] <= ls
    ensures AllLegal(done) && Legal(l) && |Wire(ls)| >= |Wire(done)| + 1 + |l|
  {
    var rest := ls[|done| + 1..];
    assert ls == done + [l] + rest;
    assert forall i | 0 <= i < |done| :: done[i] == ls[i];
    assert l == ls[|done|];
    WireConcat(done, [l]);
    WireConcat(done + [l], rest);
    WireOne(l);
  }

  /** Two buffers agree outside the given range. */
  predicate SameOutside(a: seq<byte>, b: seq<byte>, lo: nat, hi: nat)
  {
    |a| == |b| && forall i | 0 <= i < |a| && !(lo <= i < hi) :: a[i] == b[i]
  }

  method EncodeQname(host: seq<byte>, out: array<byte>, base: nat, max: nat) returns (n: nat)
    requires base + max <= out.Length
    modifies out
    ensures n == (if Accepts(host, max) then |Encode(Labels(host))| else 0)
    ensures n > 0 ==> base + n <= out.Length && out[base..base + n] == Encode(Labels(host))
    ensures SameOutside(out[..], old(out[..]), base, base + max)
  {
    hide Head, Wire, Labels, SameOutside, AllLegal;
    var pos, start := 0, 0;
    ghost var done: seq<Label> := [];
    var more := true;
    assert host[0..] == host && [] + Labels(host) == Labels(host);
    assert AllLegal([]) && Wire([]) == [] && SameOutside(out[..], out[..], base, base + max) by {
      Nothing(out[..], base, base + max);
    }
    while more
      invariant start <= |host| && pos <= max && AllLegal(done) && pos == |Wire(done)|
      invariant out[base..base + pos] == Wire(done)
      invariant if more then Labels(host) == done + Labels(host[start..]) else Labels(host) == done && pos < max
      invariant SameOutside(out[..], old(out[..]), base, base + max)
      decreases more, |host| - start
    {
      var p := LabelEnd(host, start);
      ghost var l := host[start..p];
      LabelsStep(host[start..], p - start);
      var len := p - start;
      assert host[start..][..len] == l;
      assert Labels(host[start..])[0] == l;
      assert done + [l] <= Labels(host);
      if len == 0 || len > 63 {
        NotLegal(Labels(host), |done|);
        return 0;
      }
      if pos + len + 1 >= max {
        if AllLegal(Labels(host)) {
          WireLonger(done, l, Labels(host));
        }
        return 0;
      }
      ghost var was := out[..];
      ghost var from := pos;
      pos := PutLabel(out, base, pos, host, start, len);
      Widen(out[..], was, old(out[..]), base + from, base + pos, base, base + max);
      WireOne(l);
      WireConcat(done, [l]);
      done := done + [l];
      if p == |host| {
        more := false;
      } else {
        assert host[start..][len + 1..] == host[p + 1..];
        start := p + 1;
      }
    }
    ghost var was := out[..];
    out[base + pos] := 0;
    PutByte(was, base + pos, 0);
    Widen(out[..], was, old(out[..]), base + pos, base + pos + 1, base, base + max);
    assert out[base..base + pos + 1] == Encode(done);
    return pos + 1;
  }

  lemma Nothing(a: seq<byte>, lo: nat, hi: nat)
    ensures AllLegal([]) && Wire([]) == [] && SameOutside(a, a, lo, hi)
  {}

  lemma NotLegal(ls: seq<Label>, i: nat)
    requires i < |ls| && !Legal(ls[i])
    ensures !AllLegal(ls)
  {}

  lemma PutByte(a: seq<byte>, i: nat, b: byte)
    requires i < |a|
    ensures SameOutside(a[i := b], a, i, i + 1)
  {}

  lemma Widen(a: seq<byte>, b: seq<byte>, c: seq<byte>, lo: nat, hi: nat, lo': nat, hi': nat)
    requires SameOutside(a, b, lo, hi) && SameOutside(b, c, lo', hi') && lo' <= lo && hi <= hi'
    ensures SameOutside(a, c, lo', hi')
  {}

  /** The first label and what is left after it. */
  lemma LabelsStep(s: seq<byte>, n: nat)
    requires n == |Head(s)|
    ensures n <= |s| && s[..n] == Head(s)
    ensures Labels(s) == if n == |s| then [s[..n]] else [s[..n]] + Labels(s[n + 1..])
  {
    if n == |s| {
      assert s[..n] == s;
    }
  }

  /** The end of the label that starts at `start`. */
  method LabelEnd(host: seq<byte>, start: nat) returns (p: nat)
    requires start <= |host|
    ensures p == start + |Head(host[start..])| <= |host|
  {
    ghost var s := host[start..];
    p := start;
    while p < |host| && host[p] != DOT
      invariant start <= p <= |host| && p - start <= |Head(s)|
    {
      HeadGrows(s, p - start);
      p := p + 1;
    }
    HeadGrows(s, p - start);
  }

  /** Write one length byte and its label. */
  method PutLabel(out: array<byte>, base: nat, pos: nat, host: seq<byte>, start: nat, len: nat) returns (end: nat)
    requires base + pos + 1 + len <= out.Length && start + len <= |host| && len <= 63
    modifies out
    ensures end == pos + 1 + len
    ensures out[base..base + end] == old(out[base..base + pos]) + [len] + host[start..start + len]
    ensures SameOutside(out[..], old(out[..]), base + pos, base + end)
  {
    end := pos;
    out[base + end] := len;
    end := end + 1;
    for i := 0 to len
      invariant end == pos + 1 + i
      invariant out[base..base + end] == old(out[base..base + pos]) + [len] + host[start..start + i]
      invariant SameOutside(out[..], old(out[..]), base + pos, base + end)
    {
      out[base + end] := host[start + i];
      end := end + 1;
    }
  }

  /** `skip_name`. */
  method SkipName(pkt: array<byte>, len: nat, start: nat) returns (r: nat)
    requires len <= pkt.Length && len <= MAX_PACKET && start <= MAX_PACKET + 255
    ensures r == Skip(pkt[..len], start)
  {
    var at := start;
    while at < len
      invariant at <= MAX_PACKET + 255 && Skip(pkt[..len], at) == Skip(pkt[..len], start)
    {
      var b := pkt[at];
      if b >= 0xC0 {
        return (at + 2) % 0x10000;
      }
      if b == 0 {
        return (at + 1) % 0x10000;
      }
      at := (at + 1 + b as int) % 0x10000;
    }
    return len;
  }
}

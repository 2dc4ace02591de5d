/** The response checks and the answer walk of `dns_resolve`
    (kernel/drivers/net/application_layer/dns.c). */
module DnsAnswers {
  import opened Common
  import opened Checksum
  import opened Dns

  type Packet = p: seq<byte> | |p| <= MAX_PACKET

  function Word16(pkt: Packet, at: nat): (w: nat)
    requires at + 2 <= |pkt|
    ensures w <= 0xFFFF
  {
    Pair(pkt[at], pkt[at + 1])
  }

  function Address(pkt: Packet, at: nat): nat
    requires at + 4 <= |pkt|
  {
    Word16(pkt, at) * 0x10000 + Word16(pkt, at + 2)
  }

  /** The record whose name starts at `at` lies inside the packet; its fixed part starts at `body`. */
  function Body(pkt: Packet, at: nat): nat { Skip(pkt, at) }

  predicate Complete(pkt: Packet, at: nat)
  {
    at < |pkt| && Body(pkt, at) + 10 <= |pkt| && Body(pkt, at) + 10 + Word16(pkt, Body(pkt, at) + 8) <= |pkt|
  }

  /** Where the next record starts. */
  function After(pkt: Packet, at: nat): (r: nat)
    requires Complete(pkt, at)
    ensures at < r <= |pkt|
  {
    Body(pkt, at) + 10 + Word16(pkt, Body(pkt, at) + 8)
  }

  /** An address record of the Internet class. */
  predicate IsA(pkt: Packet, at: nat)
    requires Complete(pkt, at)
  {
    var o := Body(pkt, at);
    Word16(pkt, o) == 1 && Word16(pkt, o + 2) == 1 && Word16(pkt, o + 8) == 4
  }

  /** The answer walk from a record's start, with `n` records left. */
  function Answer(pkt: Packet, at: nat, n: nat): Option<nat>
    decreases n
  {
    if n == 0 || !Complete(pkt, at) then None
    else if IsA(pkt, at) then Some(Address(pkt, Body(pkt, at) + 10))
    else Answer(pkt, After(pkt, at), n - 1)
  }

  /** Where record `k` starts, if all before it are complete. */
  function Start(pkt: Packet, at: nat, k: nat): Option<nat>
    decreases k
  {
    if k == 0 then Some(at)
    else if !Complete(pkt, at) then None
    else Start(pkt, After(pkt, at), k - 1)
  }

  /** Record `k` is complete, is an address record, and none before it is. */
  predicate FirstAt(pkt: Packet, at: nat, k: nat)
  {
    && Start(pkt, at, k).Some? && Complete(pkt, Start(pkt, at, k).value) && IsA(pkt, Start(pkt, at, k).value)
    && forall j: nat | j < k ::
        Start(pkt, at, j).Some? && Complete(pkt, Start(pkt, at, j).value) && !IsA(pkt, Start(pkt, at, j).value)
  }

  lemma FirstAtStep(pkt: Packet, at: nat, k: nat)
    requires Complete(pkt, at) && !IsA(pkt, at)
    ensures FirstAt(pkt, at, k + 1) <==> FirstAt(pkt, After(pkt, at), k)
  {
    assert Start(pkt, at, 0) == Some(at);
    forall j: nat ensures Start(pkt, at, j + 1) == Start(pkt, After(pkt, at), j) {}
    if FirstAt(pkt, at, k + 1) {
      forall j: nat | j < k
        ensures var s := Start(pkt, After(pkt, at), j); s.Some? && Complete(pkt, s.value) && !IsA(pkt, s.value)
      {
        assert Start(pkt, at, j + 1) == Start(pkt, After(pkt, at), j);
      }
    }
    if FirstAt(pkt, After(pkt, at), k) {
      forall j: nat | j < k + 1
        ensures var s := Start(pkt, at, j); s.Some? && Complete(pkt, s.value) && !IsA(pkt, s.value)
      {
        if j > 0 {
          assert Start(pkt, at, j) == Start(pkt, After(pkt, at), j - 1);
        }
      }
    }
  }

  /** The walk returns an address exactly when one of the counted records is a complete address
      record, and then it is the first one's. */
  lemma {:induction false} AnswerIff(pkt: Packet, at: nat, n: nat)
    ensures Answer(pkt, at, n).Some? <==> exists k: nat :: k < n && FirstAt(pkt, at, k)
    ensures forall k: nat | k < n && FirstAt(pkt, at, k) ::
      Answer(pkt, at, n) == Some(Address(pkt, Body(pkt, Start(pkt, at, k).value) + 10))
    decreases n
  {
    if n > 0 {
      assert Start(pkt, at, 0) == Some(at);
      if !Complete(pkt, at) {
        assert forall k: nat | k > 0 :: Start(pkt, at, k).None?;
      } else if IsA(pkt, at) {
        assert FirstAt(pkt, at, 0);
        assert forall k: nat | k > 0 :: !FirstAt(pkt, at, k);
      } else {
        AnswerIff(pkt, After(pkt, at), n - 1);
        assert !FirstAt(pkt, at, 0);
        forall k: nat ensures FirstAt(pkt, at, k + 1) <==> FirstAt(pkt, After(pkt, at), k) {
          FirstAtStep(pkt, at, k);
        }
        AnswerRest(pkt, at, n);
      }
    }
  }

  lemma AnswerRest(pkt: Packet, at: nat, n: nat)
    requires n > 0 && Complete(pkt, at) && !IsA(pkt, at) && !FirstAt(pkt, at, 0)
    requires forall k: nat :: FirstAt(pkt, at, k + 1) <==> FirstAt(pkt, After(pkt, at), k)
    requires Answer(pkt, After(pkt, at), n - 1).Some? <==> exists k: nat :: k < n - 1 && FirstAt(pkt, After(pkt, at), k)
    requires forall k: nat | k < n - 1 && FirstAt(pkt, After(pkt, at), k) ::
      Answer(pkt, After(pkt, at), n - 1) == Some(Address(pkt, Body(pkt, Start(pkt, After(pkt, at), k).value) + 10))
    ensures Answer(pkt, at, n).Some? <==> exists k: nat :: k < n && FirstAt(pkt, at, k)
    ensures forall k: nat | k < n && FirstAt(pkt, at, k) ::
      Answer(pkt, at, n) == Some(Address(pkt, Body(pkt, Start(pkt, at, k).value) + 10))
  {
    hide FirstAt;
    if Answer(pkt, at, n).Some? {
      var k: nat :| k < n - 1 && FirstAt(pkt, After(pkt, at), k);
      assert FirstAt(pkt, at, k + 1);
    }
    forall k: nat | k < n && FirstAt(pkt, at, k)
      ensures Start(pkt, at, k).Some? && Complete(pkt, Start(pkt, at, k).value) && IsA(pkt, Start(pkt, at, k).value)
      ensures Answer(pkt, at, n) == Some(Address(pkt, Body(pkt, Start(pkt, at, k).value) + 10))
    {
      assert FirstAt(pkt, at, (k - 1) + 1);
      assert FirstAt(pkt, After(pkt, at), k - 1);
      assert Start(pkt, at, k) == Start(pkt, After(pkt, at), k - 1);
      FirstHere(pkt, at, k);
    }
  }

  lemma FirstHere(pkt: Packet, at: nat, k: nat)
    requires FirstAt(pkt, at, k)
    ensures Start(pkt, at, k).Some? && Complete(pkt, Start(pkt, at, k).value) && IsA(pkt, Start(pkt, at, k).value)
  {}

  // ---- the response ----

  /** `dns_resolve` from the received bytes on: the address, `None` for failure. */
  function Reply(pkt: Packet, txid: nat): Option<nat>
  {
    if |pkt| < HDR_LEN || Word16(pkt, 0) != txid then None
    else if Word16(pkt, 2) < 0x8000 || Word16(pkt, 2) % 16 != 0 then None
    else Answer(pkt, Skip(pkt, HDR_LEN) + 4, Word16(pkt, 6))
  }

  /** Record `k` after the question is the packet's first address record. */
  predicate FirstAnswer(pkt: Packet, k: nat) { FirstAt(pkt, Skip(pkt, 12) + 4, k) }

  /** An address is taken from a packet exactly when it holds a header with the id that was asked, says it
      is a response and reports no error, and one of the answers it counts, after the question, is an
      address record. */
  lemma ReplyIff(pkt: Packet, txid: nat)
    ensures
      Reply(pkt, txid).Some? <==>
        && |pkt| >= 12 && pkt[0] as int * 256 + pkt[1] as int == txid && pkt[2] >= 128 && pkt[3] % 16 == 0
        && exists k: nat :: k < pkt[6] as int * 256 + pkt[7] as int && FirstAnswer(pkt, k)
  {
    hide FirstAt, Skip, Answer;
    if |pkt| >= 12 {
      var at, n := Skip(pkt, 12) + 4, Word16(pkt, 6);
      AnswerIff(pkt, at, n);
      FlagBits(pkt[2], pkt[3]);
      if k: nat :| k < n && FirstAt(pkt, at, k) { assert FirstAnswer(pkt, k); }
    }
  }

  /** It is that record's address. */
  lemma ReplyIsFirst(pkt: Packet, txid: nat, k: nat)
    requires Reply(pkt, txid).Some? && FirstAnswer(pkt, k) && |pkt| >= 12 && k < pkt[6] as int * 256 + pkt[7] as int
    ensures
      var at := Start(pkt, Skip(pkt, 12) + 4, k);
      && at.Some? && Complete(pkt, at.value) && IsA(pkt, at.value)
      && Reply(pkt, txid) == Some(Address(pkt, Body(pkt, at.value) + 10))
  {
    hide FirstAt, Skip, Answer, Start;
    AnswerIff(pkt, Skip(pkt, 12) + 4, Word16(pkt, 6));
    FirstHere(pkt, Skip(pkt, 12) + 4, k);
  }

  lemma FlagBits(hi: nat, lo: nat)
    requires hi < 256 && lo < 256
    ensures (hi * 256 + lo >= 0x8000 <==> hi >= 128) && (hi * 256 + lo) % 16 == lo % 16
  {}

  /** The walk as it runs; every read is inside the packet, and it ends within the record count. */
  method FindAnswer(buf: array<byte>, len: nat, first: nat, count: nat) returns (r: Option<nat>)
    requires len <= buf.Length && len <= MAX_PACKET && first <= MAX_PACKET + 255 + 4
    ensures r == Answer(buf[..len], first, count)
  {
    ghost var pkt: Packet := buf[..len];
    var at, i := first, 0;
    while i < count && at < len
      invariant 0 <= i <= count && 0 <= at <= MAX_PACKET + 255 + 4
      invariant Answer(pkt, first, count) == Answer(pkt, at, count - i)
      decreases count - i
    {
      at, r := ReadRecord(buf, len, at);
      if r.Some? || at > len {
        return;
      }
      i := i + 1;
    }
    return None;
  }

  /** One turn of the walk: the address if this is the record, else where the next one starts, or
      a place past the end if the record is cut short. */
  method ReadRecord(buf: array<byte>, len: nat, start: nat) returns (next: nat, r: Option<nat>)
    requires len <= buf.Length && len <= MAX_PACKET && start < len
    ensures r.Some? <==> Complete(buf[..len], start) && IsA(buf[..len], start)
    ensures r.Some? ==> r.value == Address(buf[..len], Body(buf[..len], start) + 10)
    ensures !Complete(buf[..len], start) ==> next == len + 1
    ensures r.None? && Complete(buf[..len], start) ==> next == After(buf[..len], start)
    ensures r.Some? ==> next <= MAX_PACKET + 1
  {
    hide Skip;
    ghost var pkt: Packet := buf[..len];
    SkipBound(pkt, start);
    var at := SkipName(buf, len, start);
    if at + 10 > len {
      return len + 1, None;
    }
    var rtype, rclass := buf[at] as int * 256 + buf[at + 1] as int, buf[at + 2] as int * 256 + buf[at + 3] as int;
    var rdlen := buf[at + 8] as int * 256 + buf[at + 9] as int;
    assert rdlen == Word16(pkt, at + 8) && rtype == Word16(pkt, at) && rclass == Word16(pkt, at + 2);
    var rdata := at + 10;
    if rdata + rdlen > len {
      return len + 1, None;
    }
    if rtype == 1 && rclass == 1 && rdlen == 4 {
      var hi := buf[rdata] as int * 256 + buf[rdata + 1] as int;
      var lo := buf[rdata + 2] as int * 256 + buf[rdata + 3] as int;
      assert hi == Word16(pkt, rdata) && lo == Word16(pkt, rdata + 2);
      return rdata + rdlen, Some(hi * 0x10000 + lo);
    }
    return rdata + rdlen, None;
  }

  lemma SkipBound(pkt: Packet, at: nat)
    requires at <= MAX_PACKET + 255
    ensures Skip(pkt, at) <= MAX_PACKET + 255
  {}

  method CheckResponse(buf: array<byte>, len: nat, txid: nat) returns (r: Option<nat>)
    requires len <= buf.Length && len <= MAX_PACKET
    ensures r == Reply(buf[..len], txid)
  {
    hide Skip;
    ghost var pkt: Packet := buf[..len];
    if len < HDR_LEN {
      return None;
    }
    var id, flags, ancount := Word16(buf[..len], 0), Word16(buf[..len], 2), Word16(buf[..len], 6);
    if id != txid {
      return None;
    }
    if flags < 0x8000 {
      return None;
    }
    if flags % 16 != 0 {
      return None;
    }
    if ancount == 0 {
      return None;
    }
    SkipBound(pkt, HDR_LEN);
    var at := SkipName(buf, len, HDR_LEN);
    r := FindAnswer(buf, len, at + 4, ancount);
  }

  // ---- responses built record by record ----

  /** A name as labels that end in the root or in a compression pointer. */
  datatype Name = Plain(labels: seq<Label>) | Compressed(labels: seq<Label>, high: byte, low: byte)

  predicate ValidName(n: Name) { AllLegal(n.labels) && (n.Compressed? ==> n.high >= 0xC0) }

  function NameBytes(n: Name): seq<byte>
    requires ValidName(n)
  {
    match n
    case Plain(ls) => Encode(ls)
    case Compressed(ls, h, l) => Wire(ls) + [h, l]
  }

  datatype Record = Record(name: Name, rtype: nat, rclass: nat, ttl: nat, data: seq<byte>)

  predicate ValidRecord(r: Record)
  {
    ValidName(r.name) && r.rtype <= 0xFFFF && r.rclass <= 0xFFFF && r.ttl < 0x1_0000_0000 && |r.data| <= 0xFFFF
  }

  function Fixed(r: Record): (b: seq<byte>)
    requires ValidRecord(r)
    ensures |b| == 10
  {
    Big16(r.rtype) + Big16(r.rclass) + Big32(r.ttl) + Big16(|r.data|)
  }

  function RecordBytes(r: Record): seq<byte>
    requires ValidRecord(r)
  {
    NameBytes(r.name) + (Fixed(r) + r.data)
  }

  predicate AllValid(rs: seq<Record>) { forall i | 0 <= i < |rs| :: ValidRecord(rs[i]) }

  function Section(rs: seq<Record>): seq<byte>
    requires AllValid(rs)
  {
    if rs == [] then [] else RecordBytes(rs[0]) + Section(rs[1..])
  }

  predicate IsAddress(r: Record) { r.rtype == 1 && r.rclass == 1 && |r.data| == 4 }

  /** The address of the first address record. */
  function FirstAddress(rs: seq<Record>): Option<nat>
  {
    if rs == [] then None
    else if IsAddress(rs[0]) then
      Some(Pair(rs[0].data[0], rs[0].data[1]) * 0x10000 + Pair(rs[0].data[2], rs[0].data[3]))
    else FirstAddress(rs[1..])
  }

  lemma SkipWholeName(pkt: Packet, at: nat, n: Name)
    requires ValidName(n) && Stands(pkt, at, NameBytes(n))
    ensures Skip(pkt, at) == at + |NameBytes(n)| && at < |pkt|
  {
    match n
    case Plain(ls) => SkipEncoded(pkt, at, ls);
    case Compressed(ls, h, l) =>
      StandsParts(pkt, at, Wire(ls), [h, l]);
      assert pkt[at + |Wire(ls)|] == h;
      SkipLabels(pkt, at, ls);
  }

  lemma WordStands(pkt: Packet, at: nat, w: nat)
    requires w <= 0xFFFF && Stands(pkt, at, Big16(w))
    ensures Word16(pkt, at) == w
  {
    assert pkt[at] == pkt[at..at + 2][0] && pkt[at + 1] == pkt[at..at + 2][1];
  }

  lemma FixedStands(pkt: Packet, at: nat, r: Record)
    requires ValidRecord(r) && Stands(pkt, at, Fixed(r))
    ensures Word16(pkt, at) == r.rtype && Word16(pkt, at + 2) == r.rclass && Word16(pkt, at + 8) == |r.data|
  {
    hide Big16, Big32, Word16, Pair;
    var a, b, c, d := Big16(r.rtype), Big16(r.rclass), Big32(r.ttl), Big16(|r.data|);
    assert |a| == 2 && |b| == 2 && |c| == 4 && |d| == 2;
    StandsParts(pkt, at, a + b + c, d);
    StandsParts(pkt, at, a + b, c);
    StandsParts(pkt, at, a, b);
    WordStands(pkt, at, r.rtype);
    WordStands(pkt, at + 2, r.rclass);
    WordStands(pkt, at + 8, |r.data|);
  }

  /** A record that stands in the packet is read as it was built. */
  lemma RecordStands(pkt: Packet, at: nat, r: Record)
    requires ValidRecord(r) && Stands(pkt, at, RecordBytes(r))
    ensures Complete(pkt, at) && After(pkt, at) == at + |RecordBytes(r)|
    ensures IsA(pkt, at) <==> IsAddress(r)
    ensures IsAddress(r) ==> Some(Address(pkt, Body(pkt, at) + 10)) == FirstAddress([r])
  {
    hide Skip, Fixed, NameBytes, FirstAddress, Address, Word16, Stands;
    var name := NameBytes(r.name);
    StandsParts(pkt, at, name, Fixed(r) + r.data);
    SkipWholeName(pkt, at, r.name);
    var o := at + |name|;
    FixedSize(r);
    StandsParts(pkt, o, Fixed(r), r.data);
    FixedStands(pkt, o, r);
    assert o + 10 + |r.data| <= |pkt| by { StandsInside(pkt, o + 10, r.data); }
    if IsAddress(r) {
      AddressStands(pkt, o + 10, r);
    }
  }

  lemma AddressStands(pkt: Packet, at: nat, r: Record)
    requires IsAddress(r) && Stands(pkt, at, r.data)
    ensures Some(Address(pkt, at)) == FirstAddress([r])
  {
    hide Pair;
    assert forall k | 0 <= k < 4 :: r.data[k] == pkt[at..at + 4][k];
    assert pkt[at] == r.data[0] && pkt[at + 1] == r.data[1] && pkt[at + 2] == r.data[2] && pkt[at + 3] == r.data[3];
  }

  lemma StandsInside(pkt: Packet, at: nat, b: seq<byte>)
    requires Stands(pkt, at, b)
    ensures at + |b| <= |pkt|
  {}

  lemma FixedSize(r: Record)
    requires ValidRecord(r)
    ensures |Fixed(r)| == 10
  {}

  /** Walking records that were built one after the other finds the first address among them. */
  lemma {:induction false} AnswerBuilt(pkt: Packet, at: nat, rs: seq<Record>)
    requires AllValid(rs) && Stands(pkt, at, Section(rs))
    ensures Answer(pkt, at, |rs|) == FirstAddress(rs)
    decreases |rs|
  {
    hide Answer, FirstAddress, Section, RecordBytes, Complete, After, IsA, Address, Body, Stands;
    if rs == [] {
      NoAnswer(pkt, at);
    } else {
      SectionStep(rs);
      FirstStep(rs);
      StandsParts(pkt, at, RecordBytes(rs[0]), Section(rs[1..]));
      RecordStands(pkt, at, rs[0]);
      AnswerStep(pkt, at, |rs|);
      AnswerBuilt(pkt, at + |RecordBytes(rs[0])|, rs[1..]);
    }
  }

  lemma NoAnswer(pkt: Packet, at: nat)
    ensures Answer(pkt, at, 0) == None == FirstAddress([])
  {}

  lemma AnswerStep(pkt: Packet, at: nat, n: nat)
    requires n > 0 && Complete(pkt, at)
    ensures Answer(pkt, at, n) ==
              if IsA(pkt, at) then Some(Address(pkt, Body(pkt, at) + 10)) else Answer(pkt, After(pkt, at), n - 1)
  {}

  lemma SectionStep(rs: seq<Record>)
    requires AllValid(rs) && rs != []
    ensures ValidRecord(rs[0]) && AllValid(rs[1..]) && Section(rs) == RecordBytes(rs[0]) + Section(rs[1..])
  {}

  lemma FirstStep(rs: seq<Record>)
    requires rs != []
    ensures FirstAddress(rs) == if IsAddress(rs[0]) then FirstAddress([rs[0]]) else FirstAddress(rs[1..])
  {}

  /** A response: header, question, answers, and whatever follows them. */
  function Response(id: nat, flags: nat, counts: seq<byte>, qname: Name, qtail: seq<byte>, rs: seq<Record>,
                    more: seq<byte>): seq<byte>
    requires id <= 0xFFFF && flags <= 0xFFFF && |rs| <= 0xFFFF && |counts| == 4
    requires ValidName(qname) && |qtail| == 4 && AllValid(rs)
  {
    Big16(id) + Big16(flags) + [0, 1] + Big16(|rs|) + counts + NameBytes(qname) + qtail + Section(rs) + more
  }

  /** What the resolver reads from a response is the first address in its answers. */
  lemma ReplyBuilt(id: nat, flags: nat, counts: seq<byte>, qname: Name, qtail: seq<byte>, rs: seq<Record>,
                   more: seq<byte>)
    requires id <= 0xFFFF && 0x8000 <= flags <= 0xFFFF && flags % 16 == 0 && |rs| <= 0xFFFF
    requires |counts| == 4 && ValidName(qname) && |qtail| == 4 && AllValid(rs)
    requires |Response(id, flags, counts, qname, qtail, rs, more)| <= MAX_PACKET
    ensures Reply(Response(id, flags, counts, qname, qtail, rs, more), id) == FirstAddress(rs)
  {
    hide Big16, NameBytes, Section, Skip, Answer, FirstAddress, Word16;
    var a, b, c, n := Big16(id), Big16(flags), Big16(|rs|), NameBytes(qname);
    BigSize(id);
    BigSize(flags);
    BigSize(|rs|);
    var pkt: Packet := Response(id, flags, counts, qname, qtail, rs, more);
    var at := 12 + |n|;
    assert pkt[0..2] == a && pkt[2..4] == b && pkt[6..8] == c;
    assert pkt[12..12 + |n|] == n;
    assert pkt[at + 4..at + 4 + |Section(rs)|] == Section(rs);
    WordStands(pkt, 0, id);
    WordStands(pkt, 2, flags);
    WordStands(pkt, 6, |rs|);
    SkipWholeName(pkt, 12, qname);
    AnswerBuilt(pkt, at + 4, rs);
  }

  lemma BigSize(w: nat)
    requires w <= 0xFFFF
    ensures |Big16(w)| == 2
  {}
}

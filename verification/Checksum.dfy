/** The Internet checksum (kernel/drivers/net/internet_layer/ipv4.c; sections 1 and 2 of RFC 1071). */
module Checksum {
  import opened Common

  const ALL_ONES := 0xFFFF

  function Pair(hi: byte, lo: byte): (w: nat)
    ensures w <= ALL_ONES
  {
    hi as int * 256 + lo as int
  }

  /** The sum of the big-endian words; a last odd byte is the high half of a word. */
  function WordSum(d: seq<byte>): (s: nat)
    ensures s <= ALL_ONES * ((|d| + 1) / 2)
  {
    if d == [] then 0
    else if |d| == 1 then Pair(d[0], 0)
    else Pair(d[0], d[1]) + WordSum(d[2..])
  }

  /** The one's complement residue of a sum: 0 for 0, else the representative in 1..65535. */
  function Folded(s: nat): (r: nat)
    ensures r <= ALL_ONES && (r == 0 <==> s == 0)
  {
    if s == 0 then 0 else (s - 1) % ALL_ONES + 1
  }

  /** Residues agree exactly when the sums do modulo 65535 and are both zero or both not. */
  lemma FoldedIff(s: nat, t: nat)
    ensures Folded(s) == Folded(t) <==> s % ALL_ONES == t % ALL_ONES && (s == 0 <==> t == 0)
  {
    if s > 0 && t > 0 {
      NextResidue(s - 1);
      NextResidue(t - 1);
    }
  }

  lemma NextResidue(s: nat)
    ensures (s + 1) % ALL_ONES == if s % ALL_ONES == ALL_ONES - 1 then 0 else s % ALL_ONES + 1
  {
    var q, r := s / ALL_ONES, s % ALL_ONES;
    if r == ALL_ONES - 1 {
      assert s + 1 == (q + 1) * ALL_ONES;
    } else {
      assert s + 1 == q * ALL_ONES + (r + 1);
    }
  }

  function Sum(d: seq<byte>): (c: nat)
    ensures c <= ALL_ONES
  {
    ALL_ONES - Folded(WordSum(d))
  }

  // ---- the loops ----

  /** `checksum_accumulate`, with its 32-bit sum. */
  method Accumulate(d: seq<byte>, start: nat) returns (sum: nat)
    requires |d| <= 0xFFFF && start < 0x8000_0000
    ensures sum == start + WordSum(d) < 0x1_0000_0000
  {
    sum := start;
    var at, len := 0, |d|;
    while len > 1
      invariant 0 <= len && at + len == |d| && sum + WordSum(d[at..]) == start + WordSum(d)
    {
      assert d[at..][2..] == d[at + 2..];
      assert sum + Pair(d[at], d[at + 1]) <= start + WordSum(d);
      sum := (sum + Pair(d[at], d[at + 1])) % 0x1_0000_0000;
      at := at + 2;
      len := len - 2;
    }
    if len == 1 {
      assert d[at..] == [d[at]];
      sum := (sum + d[at] as int * 256) % 0x1_0000_0000;
    } else {
      assert d[at..] == [];
    }
  }

  /** `checksum_finish`: fold the carries back and complement. */
  method Finish(start: nat) returns (c: nat)
    requires start < 0x1_0000_0000
    ensures c == ALL_ONES - Folded(start)
  {
    var sum := start;
    while sum / 0x10000 != 0
      invariant Folded(sum) == Folded(start)
      decreases sum
    {
      FoldOnce(sum);
      sum := sum % 0x10000 + sum / 0x10000;
    }
    c := ALL_ONES - sum;
  }

  lemma FoldOnce(s: nat)
    requires s >= 0x10000
    ensures Folded(s % 0x10000 + s / 0x10000) == Folded(s)
    ensures s % 0x10000 + s / 0x10000 < s
  {
    var l, h := s % 0x10000, s / 0x10000;
    assert s == l + h + ALL_ONES * h;
    assert (l + h + ALL_ONES * h) % ALL_ONES == (l + h) % ALL_ONES;
    FoldedIff(l + h, s);
  }

  method Checksum(d: seq<byte>) returns (c: nat)
    requires |d| <= 0xFFFF
    ensures c == Sum(d)
  {
    var sum := Accumulate(d, 0);
    c := Finish(sum);
  }

  function Big16(w: nat): (r: seq<byte>)
    requires w <= ALL_ONES
    ensures |r| == 2 && Pair(r[0], r[1]) == w
  {
    [w / 256, w % 256]
  }

  function Big32(w: nat): (r: seq<byte>)
    requires w < 0x1_0000_0000
    ensures |r| == 4
  {
    Big16(w / 0x10000) + Big16(w % 0x10000)
  }

  /** The pseudo-header of section 3.1 of RFC 793. */
  function PseudoHeader(src: nat, dst: nat, protocol: byte, len: nat): (r: seq<byte>)
    requires src < 0x1_0000_0000 && dst < 0x1_0000_0000 && len <= ALL_ONES
    ensures |r| == 12
  {
    Big32(src) + Big32(dst) + [0, protocol] + Big16(len)
  }

  lemma SumBound(d: seq<byte>)
    ensures WordSum(d) <= ALL_ONES * ((|d| + 1) / 2)
  {}

  /** Summing the pseudo-header and the segment in turn is summing them joined. */
  method ChecksumPseudo(src: nat, dst: nat, protocol: byte, segment: seq<byte>) returns (c: nat)
    requires src < 0x1_0000_0000 && dst < 0x1_0000_0000 && |segment| <= 0xFFFF
    ensures c == Sum(PseudoHeader(src, dst, protocol, |segment|) + segment)
  {
    hide WordSum, Big16, Big32;
    var pseudo := Big32(src) + Big32(dst) + [0, protocol] + Big16(|segment|);
    SumBound(pseudo);
    var sum := Accumulate(pseudo, 0);
    sum := Accumulate(segment, sum);
    SumConcat(pseudo, segment);
    c := Finish(sum);
  }

  // ---- what it promises ----

  /** Regions can be summed one after the other when all but the last have even length. */
  lemma {:induction false} SumConcat(a: seq<byte>, b: seq<byte>)
    requires |a| % 2 == 0
    ensures WordSum(a + b) == WordSum(a) + WordSum(b)
  {
    if a == [] {
      assert a + b == b;
    } else {
      SumConcat(a[2..], b);
      assert (a + b)[2..] == a[2..] + b;
    }
  }

  /** The aligned word at `at`. */
  function WordAt(d: seq<byte>, at: nat): nat
    requires at + 2 <= |d|
  {
    Pair(d[at], d[at + 1])
  }

  /** Replacing an aligned word changes the sum by the difference. */
  lemma SetWord(d: seq<byte>, at: nat, w: nat)
    requires at % 2 == 0 && at + 2 <= |d| && w <= ALL_ONES
    ensures WordSum(Overlay(d, at, Big16(w))) == WordSum(d) - WordAt(d, at) + w
  {
    hide WordSum, Pair, Overlay;
    var e := Overlay(d, at, Big16(w));
    SplitSum(d, at);
    SplitSum(e, at);
    OverlayKeeps(d, at, Big16(w), 0, at);
    OverlayKeeps(d, at, Big16(w), at + 2, |d|);
    WrittenWord(d, at, w);
  }

  lemma WrittenWord(d: seq<byte>, at: nat, w: nat)
    requires at + 2 <= |d| && w <= ALL_ONES
    ensures WordAt(Overlay(d, at, Big16(w)), at) == w
  {
    var e := Overlay(d, at, Big16(w));
    assert e[at..at + 2] == Big16(w);
    assert e[at] == e[at..at + 2][0] && e[at + 1] == e[at..at + 2][1];
  }

  lemma {:induction false} SplitSum(d: seq<byte>, at: nat)
    requires at % 2 == 0 && at + 2 <= |d|
    ensures WordSum(d) == WordSum(d[0..at]) + WordAt(d, at) + WordSum(d[at + 2..|d|])
  {
    hide Pair;
    if at > 0 {
      var e := d[2..];
      SplitSum(e, at - 2);
      assert e[0..at - 2] == d[0..at][2..];
      assert e[at..|e|] == d[at + 2..|d|];
      assert WordAt(e, at - 2) == WordAt(d, at);
      assert WordSum(d) == WordAt(d, 0) + WordSum(e);
      assert WordSum(d[0..at]) == WordAt(d, 0) + WordSum(d[0..at][2..]);
    } else {
      assert d[0..at] == [] && d[2..] == d[2..|d|];
    }
  }

  /** A checksum put into its aligned, zeroed field makes the region sum to zero. */
  lemma InsertedVerifies(d: seq<byte>, at: nat)
    requires at % 2 == 0 && at + 2 <= |d| && d[at] == 0 && d[at + 1] == 0
    ensures Sum(Overlay(d, at, Big16(Sum(d)))) == 0
  {
    hide WordSum, Folded, Overlay, Big16, Pair, WordAt, Sum;
    assert WordAt(d, at) == 0 by { ZeroWord(d, at); }
    SetWord(d, at, Sum(d));
    Completes(WordSum(d), d, Overlay(d, at, Big16(Sum(d))));
  }

  lemma ZeroWord(d: seq<byte>, at: nat)
    requires at + 2 <= |d| && d[at] == 0 && d[at + 1] == 0
    ensures WordAt(d, at) == 0
  {}

  lemma Completes(s: nat, d: seq<byte>, e: seq<byte>)
    requires WordSum(d) == s && WordSum(e) == s + Sum(d)
    ensures Sum(e) == 0
  {
    hide WordSum, Folded;
    FoldsToOnes(s);
  }

  lemma FoldsToOnes(s: nat)
    ensures Folded(s + (ALL_ONES - Folded(s))) == ALL_ONES
  {
    FoldedQuotient(s);
    WholeMultiple(s + (ALL_ONES - Folded(s)));
  }

  lemma FoldedQuotient(s: nat)
    ensures Folded(s) <= ALL_ONES && s + (ALL_ONES - Folded(s)) > 0 && (s + (ALL_ONES - Folded(s))) % ALL_ONES == 0
  {
    if s > 0 {
      var q := (s - 1) / ALL_ONES;
      assert s + (ALL_ONES - Folded(s)) == ALL_ONES * (q + 1);
      MultipleMod(q + 1);
    }
  }

  lemma MultipleMod(q: nat)
    ensures (ALL_ONES * q) % ALL_ONES == 0
  {}

  /** A region sums to zero exactly when its words add up to a positive multiple of 65535. */
  lemma WholeMultiple(t: nat)
    ensures Folded(t) == ALL_ONES <==> t > 0 && t % ALL_ONES == 0
  {
    FoldedIff(t, ALL_ONES);
    assert Folded(ALL_ONES) == ALL_ONES;
  }

  /** Changing one aligned word of a valid region goes undetected exactly when it swaps 0x0000 and
      0xFFFF and some word is left that is not zero. */
  lemma ChangeDetected(d: seq<byte>, at: nat, w: nat)
    requires at % 2 == 0 && at + 2 <= |d| && w <= ALL_ONES && w != WordAt(d, at) && Sum(d) == 0
    ensures Sum(Overlay(d, at, Big16(w))) == 0 <==>
      {w, WordAt(d, at)} == {0, ALL_ONES} && WordSum(Overlay(d, at, Big16(w))) > 0
  {
    SetWord(d, at, w);
    var was, s := WordAt(d, at), WordSum(d);
    var t := s - was + w;
    WholeMultiple(s);
    WholeMultiple(t);
    var delta := w as int - was as int;
    assert t == s + delta && -ALL_ONES <= delta <= ALL_ONES && delta != 0;
    SmallMultiple(s, delta);
    if {w, was} == {0, ALL_ONES} {
      assert w in {0, ALL_ONES} && was in {0, ALL_ONES};
    } else {
      assert delta != ALL_ONES && delta != -ALL_ONES;
    }
  }

  lemma SmallMultiple(s: nat, delta: int)
    requires s % ALL_ONES == 0 && -ALL_ONES <= delta <= ALL_ONES && delta != 0 && s + delta >= 0
    ensures (s + delta) % ALL_ONES == 0 <==> delta == ALL_ONES || delta == -ALL_ONES
  {
    var q := s / ALL_ONES;
    assert s == ALL_ONES * q;
    if (s + delta) % ALL_ONES == 0 {
      var r := (s + delta) / ALL_ONES;
      assert delta == ALL_ONES * (r - q);
      assert -1 <= r - q <= 1;
    }
  }

  /** A changed last byte of an odd-length region is always detected. */
  lemma LastByteDetected(a: seq<byte>, b: byte, c: byte)
    requires |a| % 2 == 0 && b != c && Sum(a + [b]) == 0
    ensures Sum(a + [c]) != 0
  {
    SumConcat(a, [b]);
    SumConcat(a, [c]);
    var s, t := WordSum(a + [b]), WordSum(a + [c]);
    assert WordSum([b]) == b as int * 256 && WordSum([c]) == c as int * 256;
    WholeMultiple(s);
    WholeMultiple(t);
    var delta := (c as int - b as int) * 256;
    assert t == s + delta;
    SmallMultiple(s, delta);
  }
}

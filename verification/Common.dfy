/** Small shared vocabulary: bytes, options and first-match search. */
module Common {

  type byte = x: int | 0 <= x < 256

  datatype Option<+T> = None | Some(value: T)

  /** The least index at or after `from` that holds `x`, if there is one. */
  function FirstFrom<T(==)>(s: seq<T>, x: T, from: nat): (r: Option<nat>)
    requires from <= |s|
    ensures r.Some? ==> from <= r.value < |s| && s[r.value] == x && x !in s[from..r.value]
    ensures r.None? <==> x !in s[from..]
    decreases |s| - from
  {
    if from == |s| then None
    else if s[from] == x then Some(from)
    else FirstFrom(s, x, from + 1)
  }

  function First<T(==)>(s: seq<T>, x: T): (r: Option<nat>)
    ensures r.Some? ==> r.value < |s| && s[r.value] == x
    ensures r.Some? ==> forall i | 0 <= i < r.value :: s[i] != x
    ensures r.None? ==> forall i | 0 <= i < |s| :: s[i] != x
  {
    FirstFrom(s, x, 0)
  }

  /** The numbers below `n`. */
  function Below(n: nat): (r: set<nat>)
    ensures |r| == n
    ensures forall i: nat :: i in r <==> i < n
  {
    if n == 0 then {} else Below(n - 1) + {n - 1}
  }

  /** The image of a finite set has at most as many elements as the set. */
  lemma {:induction false} ImageSize<A, B>(src: set<A>, f: A -> B, image: set<B>)
    requires forall b | b in image :: exists a | a in src :: f(a) == b
    ensures |image| <= |src|
    decreases |src|
  {
    if src == {} {
      assert image == {};
    } else {
      var a :| a in src;
      ImageSize(src - {a}, f, image - {f(a)});
      assert |image| <= |image - {f(a)}| + 1;
    }
  }

  /** An injective image of a finite set has as many elements as the set. */
  lemma {:induction false} InjectiveSize<A, B>(src: set<A>, f: A -> B, image: set<B>)
    requires forall a | a in src :: f(a) in image
    requires forall b | b in image :: exists a | a in src :: f(a) == b
    requires forall a, c | a in src && c in src && f(a) == f(c) :: a == c
    ensures |image| == |src|
    decreases |src|
  {
    if src == {} {
      assert image == {};
    } else {
      var a :| a in src;
      InjectiveSize(src - {a}, f, image - {f(a)});
      assert image == (image - {f(a)}) + {f(a)};
    }
  }

  lemma {:induction false} SmallerSet<T>(a: set<T>, b: set<T>)
    requires a < b
    ensures |a| < |b|
    decreases |a|
  {
    var y :| y in b && y !in a;
    if a == {} {
      assert |b| > 0;
    } else {
      var x :| x in a;
      assert y in b - {x} && y !in a - {x};
      SmallerSet(a - {x}, b - {x});
    }
  }

  ghost predicate Hits(f: nat -> nat, m: nat, y: nat) { exists x: nat :: x < m && f(x) == y }

  /** If every number below `n` is the image of one below `m`, then `n <= m`. */
  lemma CoverSize(f: nat -> nat, m: nat, n: nat)
    requires forall y: nat | y < n :: Hits(f, m, y)
    ensures n <= m
  {
    forall y | y in Below(n)
      ensures exists x | x in Below(m) :: f(x) == y
    {
      assert Hits(f, m, y);
      var x: nat :| x < m && f(x) == y;
      assert x in Below(m);
    }
    ImageSize(Below(m), f, Below(n));
  }

  /** `s` with `x` written over it at `at`. */
  function Overlay(s: seq<byte>, at: nat, x: seq<byte>): (r: seq<byte>)
    requires at + |x| <= |s|
    ensures |r| == |s|
    ensures r[at..at + |x|] == x
    ensures forall i | 0 <= i < |s| && !(at <= i < at + |x|) :: r[i] == s[i]
  {
    s[..at] + x + s[at + |x|..]
  }

  lemma OverlayKeeps(s: seq<byte>, at: nat, x: seq<byte>, lo: nat, hi: nat)
    requires at + |x| <= |s| && lo <= hi <= |s| && (hi <= at || at + |x| <= lo)
    ensures Overlay(s, at, x)[lo..hi] == s[lo..hi]
  {}

  /** A 32-bit word in memory order, least significant byte first. */
  function Word(w: nat): (r: seq<byte>)
    requires w < 0x1_0000_0000
    ensures |r| == 4
  {
    [w % 256, (w / 0x100) % 256, (w / 0x10000) % 256, w / 0x1000000]
  }

  function ReadWord(r: seq<byte>): nat
    requires |r| == 4
  {
    (r[0] as int) + 0x100 * (r[1] as int) + 0x10000 * (r[2] as int) + 0x1000000 * (r[3] as int)
  }

  lemma WordRoundTrip(w: nat)
    requires w < 0x1_0000_0000
    ensures ReadWord(Word(w)) == w
  {
    assert w / 0x10000 == (w / 0x100) / 0x100 && w / 0x1000000 == (w / 0x10000) / 0x100;
  }
}

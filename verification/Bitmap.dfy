/** The word bitmap that both allocators use (kernel/mem/pmm.c, filesys/fs.c): bit `i` is bit
    `i % 32` of word `i / 32`. */
module BitWords {

  predicate Bit(w: bv32, k: bv5) { (w >> k) & 1 == 1 }

  function Mask(k: bv5): bv32 { 1 << k }

  function Low(i: nat): bv5 { (i % 32) as bv5 }

  lemma SetBit(w: bv32, k: bv5, j: bv5)
    ensures Bit(w | Mask(k), j) == (j == k || Bit(w, j))
  {}

  lemma ClearBit(w: bv32, k: bv5, j: bv5)
    ensures Bit(w & !Mask(k), j) == (j != k && Bit(w, j))
  {}

  lemma LowInjective(i: nat, j: nat)
    ensures Low(i) == Low(j) <==> i % 32 == j % 32
  {
    assert Low(i) as int == i % 32;
    assert Low(j) as int == j % 32;
  }

  class Bitmap {
    const words: array<bv32>

    function Get(i: nat): bool
      requires i < 32 * words.Length
      reads words
    {
      Bit(words[i / 32], Low(i))
    }

    /** The bitmap as a sequence of bits. */
    ghost function Bits(): (s: seq<bool>)
      reads words
      ensures |s| == 32 * words.Length
      ensures forall i | 0 <= i < |s| :: s[i] == Get(i)
    {
      seq(32 * words.Length, i requires 0 <= i < 32 * words.Length reads words => Get(i))
    }

    constructor (n: nat)
      ensures fresh(words) && words.Length == n && Bits() == seq(32 * n, _ => false)
    {
      words := new bv32[n](_ => 0);
      new;
      assert forall k: bv5 :: !Bit(0, k);
    }

    method Set(i: nat)
      requires i < 32 * words.Length
      modifies words
      ensures Bits() == old(Bits())[i := true]
    {
      words[i / 32] := words[i / 32] | Mask(Low(i));
      forall j: nat | j < 32 * words.Length ensures Get(j) == (j == i || old(Get(j))) {
        LowInjective(i, j);
        SetBit(old(words[i / 32]), Low(i), Low(j));
      }
    }

    method Clear(i: nat)
      requires i < 32 * words.Length
      modifies words
      ensures Bits() == old(Bits())[i := false]
    {
      words[i / 32] := words[i / 32] & !Mask(Low(i));
      forall j: nat | j < 32 * words.Length ensures Get(j) == (j != i && old(Get(j))) {
        LowInjective(i, j);
        ClearBit(old(words[i / 32]), Low(i), Low(j));
      }
    }

    /** Clear every word (the loops of `pmm_init` and `fs_init`). */
    method Reset()
      modifies words
      ensures Bits() == seq(32 * words.Length, _ => false)
    {
      for n := 0 to words.Length
        invariant forall m | 0 <= m < n :: words[m] == 0
      {
        words[n] := 0;
      }
      assert forall k: bv5 :: !Bit(0, k);
    }
  }
}

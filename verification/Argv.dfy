/** Staging and placing a program's arguments (kernel/proc/loader.c: `stage_argv` and the copy in
    `try_exec`). Arguments are C strings: byte sequences without a zero byte. */
module Argv {
  import opened Common
  import opened Paging

  const ARGV_MAX := 16
  const AREA := 2048

  type Args = seq<seq<byte>>

  function Count(args: Args): (n: nat)
    ensures n <= ARGV_MAX && n <= |args|
  { if |args| > ARGV_MAX then ARGV_MAX else |args| }

  /** How much of an argument is kept when staging has reached `off`. */
  function Kept(arg: seq<byte>, off: nat): (n: nat)
    ensures n <= |arg|
  {
    if off + 1 >= AREA then 0 else if |arg| <= AREA - 1 - off then |arg| else AREA - 1 - off
  }

  /** Where argument `i` is staged. */
  function Off(args: Args, i: nat): nat
    requires i <= |args|
  {
    if i == 0 then 0 else Off(args, i - 1) + Kept(args[i - 1], Off(args, i - 1)) + 1
  }

  function Len(args: Args, i: nat): (n: nat)
    requires i < |args|
    ensures n <= |args[i]|
  { Kept(args[i], Off(args, i)) }

  /** Every byte `stage_argv` writes lies inside its 2048-byte area. */
  ghost predicate StagesInBounds(args: Args)
  {
    forall i | 0 <= i < Count(args) :: Off(args, i) + Len(args, i) < AREA
  }

  /** The bytes the arguments take uncut, terminators included. */
  function Total(args: Args): nat
  {
    if args == [] then 0 else Total(args[..|args| - 1]) + |args[|args| - 1]| + 1
  }

  lemma {:induction false} OffIsTotal(args: Args, i: nat)
    requires i <= |args|
    ensures Off(args, i) < AREA <==> Total(args[..i]) < AREA
    ensures Total(args[..i]) < AREA ==> Off(args, i) == Total(args[..i])
    ensures forall j | 0 <= j < i :: Off(args, j) < Off(args, i)
  {
    if i > 0 {
      OffIsTotal(args, i - 1);
      assert args[..i][..i - 1] == args[..i - 1];
    }
  }

  /** `stage_argv` stays inside its area exactly when all staged arguments but the last leave
      room in it. */
  lemma StagesInBoundsIff(args: Args)
    ensures StagesInBounds(args) <==> Count(args) == 0 || Total(args[..Count(args) - 1]) < AREA
  {
    var n := Count(args);
    if n > 0 {
      OffIsTotal(args, n - 1);
      if StagesInBounds(args) {
        assert Off(args, n - 1) + Len(args, n - 1) < AREA;
      }
    }
  }

  /** Two arguments, the first of which fills the area, write past it. */
  lemma StagingOverruns(first: seq<byte>)
    requires |first| >= AREA - 1
    ensures !StagesInBounds([first, []])
  {
    var args := [first, []];
    assert Off(args, 1) == Off(args, 0) + Kept(args[0], Off(args, 0)) + 1 == AREA;
    assert Off(args, 1) + Len(args, 1) == AREA;
  }

  // ---- placing them in the bottom stack page ----

  /** Copy argument `m` with its terminator, and store the address it will have. */
  function PlaceOne(page: seq<byte>, args: Args, m: nat): (r: seq<byte>)
    requires |page| == PAGE_SIZE && StagesInBounds(args) && m < Count(args)
    ensures |r| == PAGE_SIZE
  {
    assert Off(args, m) + Len(args, m) < AREA;
    var off := Off(args, m);
    Overlay(Overlay(page, off, args[m][..Len(args, m)] + [0]), AREA + 4 * m, Word(APP_STACK_VADDR + off))
  }

  /** The page after the first `n` arguments are copied. */
  function Place(page: seq<byte>, args: Args, n: nat): (r: seq<byte>)
    requires |page| == PAGE_SIZE && StagesInBounds(args) && n <= Count(args)
    ensures |r| == PAGE_SIZE
  {
    if n == 0 then page else PlaceOne(Place(page, args, n - 1), args, n - 1)
  }

  /** Argument `i` can be read from the page: its bytes, the terminator and its pointer. */
  ghost predicate Reads(page: seq<byte>, args: Args, i: nat)
    requires |page| == PAGE_SIZE && i < Count(args)
  {
    var off, len := Off(args, i), Len(args, i);
    && off + len < AREA
    && page[off..off + len + 1] == args[i][..len] + [0]
    && page[AREA + 4 * i..AREA + 4 * i + 4] == Word(APP_STACK_VADDR + off)
  }

  lemma PlaceOneReads(page: seq<byte>, args: Args, m: nat)
    requires |page| == PAGE_SIZE && StagesInBounds(args) && m < Count(args)
    ensures Reads(PlaceOne(page, args, m), args, m)
  {
    var off, len := Off(args, m), Len(args, m);
    assert off + len < AREA;
    var p := Overlay(page, off, args[m][..len] + [0]);
    OverlayKeeps(p, AREA + 4 * m, Word(APP_STACK_VADDR + off), off, off + len + 1);
  }

  lemma PlaceOneKeeps(page: seq<byte>, args: Args, m: nat, i: nat)
    requires |page| == PAGE_SIZE && StagesInBounds(args) && i < m < Count(args) && Reads(page, args, i)
    ensures Reads(PlaceOne(page, args, m), args, i)
  {
    var off, len, at := Off(args, i), Len(args, i), AREA + 4 * i;
    assert Off(args, m) + Len(args, m) < AREA;
    OffMonotone(args, i, m);
    var str, ptr := args[m][..Len(args, m)] + [0], Word(APP_STACK_VADDR + Off(args, m));
    var p := Overlay(page, Off(args, m), str);
    OverlayKeeps(page, Off(args, m), str, off, off + len + 1);
    OverlayKeeps(page, Off(args, m), str, at, at + 4);
    OverlayKeeps(p, AREA + 4 * m, ptr, off, off + len + 1);
    OverlayKeeps(p, AREA + 4 * m, ptr, at, at + 4);
  }

  /** Every placed argument survives the copies that follow it. */
  lemma {:induction false} PlaceReads(page: seq<byte>, args: Args, n: nat, i: nat)
    requires |page| == PAGE_SIZE && StagesInBounds(args) && i < n <= Count(args)
    ensures Reads(Place(page, args, n), args, i)
  {
    hide Reads, PlaceOne;
    if i < n - 1 {
      PlaceReads(page, args, n - 1, i);
      PlaceOneKeeps(Place(page, args, n - 1), args, n - 1, i);
    } else {
      PlaceOneReads(Place(page, args, n - 1), args, n - 1);
    }
  }

  lemma {:induction false} OffMonotone(args: Args, i: nat, j: nat)
    requires i < j <= |args|
    ensures Off(args, i) + Len(args, i) + 1 <= Off(args, j)
    decreases j - i
  {
    if i + 1 < j {
      OffMonotone(args, i, j - 1);
    }
  }

  /** An argument that fits is placed whole. */
  lemma WholeArgument(args: Args, i: nat)
    requires i < Count(args) && Total(args[..i + 1]) <= AREA
    ensures Len(args, i) == |args[i]|
  {
    assert args[..i + 1][..i] == args[..i];
    OffIsTotal(args, i);
  }

  /** The inner scan of `stage_argv`. */
  method Measure(arg: seq<byte>, off: nat) returns (len: nat)
    ensures len == Kept(arg, off)
  {
    len := 0;
    while len < |arg| && off + len + 1 < AREA
      invariant len <= Kept(arg, off)
    {
      len := len + 1;
    }
  }

  /** The inner copy of `stage_argv`, with the terminator. */
  method CopyArg(area: array<byte>, off: nat, arg: seq<byte>, len: nat)
    requires len <= |arg| && off + len < area.Length
    modifies area
    ensures area[..] == Overlay(old(area[..]), off, arg[..len] + [0])
  {
    for j := 0 to len
      invariant area[..] == old(area[..off]) + arg[..j] + old(area[off + j..])
    {
      area[off + j] := arg[j];
    }
    area[off + len] := 0;
  }

  /** `stage_argv`: measures each argument against what is left of the area, copies it there and
      notes its offset and length. */
  method StageArgv(args: Args, area: array<byte>, offs: array<nat>, lens: array<nat>) returns (argc: nat)
    requires StagesInBounds(args) && area.Length == AREA && offs.Length == ARGV_MAX && lens.Length == ARGV_MAX
    requires offs != lens && (area as object) != offs && (area as object) != lens
    modifies area, offs, lens
    ensures argc == Count(args)
    ensures forall i | 0 <= i < argc :: Staged(area[..], offs[..], lens[..], args, i)
  {
    hide Overlay;
    argc := |args|;
    if argc > ARGV_MAX {
      argc := ARGV_MAX;
    }
    var off := 0;
    for i := 0 to argc
      invariant off == Off(args, i)
      invariant forall m | 0 <= m < i :: Staged(area[..], offs[..], lens[..], args, m)
    {
      ghost var areaBefore, offsBefore, lensBefore := area[..], offs[..], lens[..];
      var len := Measure(args[i], off);
      assert off + Len(args, i) < AREA;
      CopyArg(area, off, args[i], len);
      offs[i] := off;
      lens[i] := len;
      forall m | 0 <= m < i ensures Staged(area[..], offs[..], lens[..], args, m) {
        StagedStays(areaBefore, offsBefore, lensBefore, args, m, i);
      }
      off := off + len + 1;
    }
  }

  lemma StagedStays(area: seq<byte>, offs: seq<nat>, lens: seq<nat>, args: Args, m: nat, i: nat)
    requires m < i < |args| && i < |offs| && i < |lens| && Staged(area, offs, lens, args, m)
    requires Off(args, i) + Len(args, i) < |area|
    ensures
      var off, len := Off(args, i), Len(args, i);
      Staged(Overlay(area, off, args[i][..len] + [0]), offs[i := off], lens[i := len], args, m)
  {
    OffMonotone(args, m, i);
    OverlayKeeps(area, Off(args, i), args[i][..Len(args, i)] + [0], Off(args, m), Off(args, m) + Len(args, m) + 1);
  }

  /** Argument `i` lies in the area where its offset and length say. */
  ghost predicate Staged(area: seq<byte>, offs: seq<nat>, lens: seq<nat>, args: Args, i: nat)
    requires i < |args|
  {
    var off, len := Off(args, i), Len(args, i);
    && i < |offs| && i < |lens| && offs[i] == off && lens[i] == len && off + len < |area|
    && area[off..off + len + 1] == args[i][..len] + [0]
  }
}

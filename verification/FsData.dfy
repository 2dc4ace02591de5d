/** Reading and writing: `fs_read` slices the file's bytes and `fs_write` splices into them, also
    when the file has to move to grow. */
module FsData {
  import opened Common
  import opened Fs
  import opened FsInv
  import opened FsTree

  /** The bytes `c` with `buf` written at offset `off`. */
  function Splice(c: seq<byte>, off: nat, buf: seq<byte>): (r: seq<byte>)
    requires off <= |c|
    ensures |r| == if off + |buf| > |c| then off + |buf| else |c|
  {
    c[..off] + buf + (if off + |buf| < |c| then c[off + |buf|..] else [])
  }

  // ---- growing ----

  /** `g` is `fs` with inode `i` moved to an extent of `need` sectors that starts with the sectors it
      had, unless it had as many. */
  ghost predicate Grown(fs: FS, g: FS, i: nat, need: nat)
  {
    && Wf(fs) && Wf(g) && i < MAX_INODES && g.fds == fs.fds
    && InArea(fs.inodes[i]) && InArea(g.inodes[i])
    && var x, y := fs.inodes[i], g.inodes[i];
    && y == x.(start := y.start, count := y.count) && y.count == (if need > x.count then need else x.count)
    && g.inodes == fs.inodes[i := y]
    && (forall s: nat | s < x.count :: SectorOf(g, y, s) == SectorOf(fs, x, s))
  }

  /** Sector `s` of an inode's extent. */
  function SectorOf(fs: FS, x: Inode, s: nat): seq<byte>
    requires Wf(fs) && InArea(x) && s < x.count
  {
    fs.data[x.start - DATA_START + s]
  }

  /** Sectors of the other inodes keep their bits and bytes, and `i` owns the rest of the bitmap. */
  ghost predicate GrownBits(fs: FS, g: FS, i: nat)
    requires Wf(fs) && Wf(g) && i < MAX_INODES
  {
    && (forall b: nat | b < DATA_SECTORS ::
          g.bits[b] <==> Covers(g.inodes[i], b) || (fs.bits[b] && !Covers(fs.inodes[i], b)))
    && (forall b: nat | b < DATA_SECTORS && Covers(g.inodes[i], b) :: Covers(fs.inodes[i], b) || !fs.bits[b])
    && (forall b: nat | b < DATA_SECTORS && fs.bits[b] :: g.data[b] == fs.data[b])
  }

  /** The bits of an inode's own extent are set. */
  lemma OwnBits(fs: FS, i: nat)
    requires ExtentInv(fs) && i < MAX_INODES
    ensures forall b: nat | b < DATA_SECTORS && Covers(fs.inodes[i], b) :: fs.bits[b]
  {
    forall b: nat | b < DATA_SECTORS && Covers(fs.inodes[i], b) ensures fs.bits[b] {
      assert Owned(fs, b);
    }
  }

  /** When growing succeeds, the file has its old sectors at the start of a large enough extent. */
  lemma GrowSucceeds(fs: FS, i: nat, need: nat, fault: Option<nat>)
    requires DiskInv(fs) && Used(fs, i) && InArea(fs.inodes[i]) && need > 0
    requires Grow(fs, i, need, fault).1
    ensures Grown(fs, Grow(fs, i, need, fault).0, i, need) && GrownBits(fs, Grow(fs, i, need, fault).0, i)
  {
    hide NamesInv, ExtentInv;
    OwnBits(fs, i);
    if need > fs.inodes[i].count {
      GrowMoves(fs, i, need, fault, FitFrom(fs.bits, need, 0).value);
    }
  }

  /** The bitmap after the new run is taken and the old one released. */
  lemma MovedBits(bits: seq<bool>, x: Inode, y: Inode)
    requires |bits| == DATA_SECTORS && InArea(x) && InArea(y) && y.count > 0
    requires RunClear(bits, y.start - DATA_START, y.count)
    requires forall b: nat | b < DATA_SECTORS && Covers(x, b) :: bits[b]
    ensures var moved := FreeExtent(SetRun(bits, y.start - DATA_START, y.count, true), x);
      && (forall b: nat | b < DATA_SECTORS :: moved[b] <==> Covers(y, b) || (bits[b] && !Covers(x, b)))
      && (forall b: nat | b < DATA_SECTORS && Covers(y, b) :: !bits[b])
  {
    var taken := SetRun(bits, y.start - DATA_START, y.count, true);
    var moved := FreeExtent(taken, x);
    forall b: nat | b < DATA_SECTORS
      ensures moved[b] <==> Covers(y, b) || (bits[b] && !Covers(x, b))
      ensures Covers(y, b) ==> !bits[b]
    {
      assert Covers(y, b) <==> y.start - DATA_START <= b < y.start - DATA_START + y.count;
      assert taken[b] <==> Covers(y, b) || bits[b];
      assert moved[b] <==> taken[b] && !Covers(x, b);
    }
  }

  /** The sectors after the copying. */
  lemma MovedData(fs: FS, g: FS, x: Inode, y: Inode)
    requires Wf(fs) && Wf(g) && InArea(x) && InArea(y) && 0 < x.count < y.count
    requires g.data == CopyRun(fs.data, x.start - DATA_START, y.start - DATA_START, x.count)
    requires forall b: nat | b < DATA_SECTORS && Covers(y, b) :: !fs.bits[b]
    ensures forall s: nat | s < x.count :: SectorOf(g, y, s) == SectorOf(fs, x, s)
    ensures forall b: nat | b < DATA_SECTORS && fs.bits[b] :: g.data[b] == fs.data[b]
  {
    forall b: nat | b < DATA_SECTORS && fs.bits[b] ensures g.data[b] == fs.data[b] {
      assert !Covers(y, b);
    }
  }

  lemma GrowMoves(fs: FS, i: nat, need: nat, fault: Option<nat>, rel: nat)
    requires Wf(fs) && i < MAX_INODES && InArea(fs.inodes[i]) && need > fs.inodes[i].count
    requires Grow(fs, i, need, fault).1 && FitFrom(fs.bits, need, 0) == Some(rel)
    requires forall b: nat | b < DATA_SECTORS && Covers(fs.inodes[i], b) :: fs.bits[b]
    ensures Grown(fs, Grow(fs, i, need, fault).0, i, need) && GrownBits(fs, Grow(fs, i, need, fault).0, i)
  {
    hide FitFrom, Covers, CopyRun, SetRun;
    var x := fs.inodes[i];
    var g := Grow(fs, i, need, fault).0;
    var y := x.(start := DATA_START + rel, count := need);
    assert g.inodes == fs.inodes[i := y] && g.fds == fs.fds;
    MovedBits(fs.bits, x, y);
    if x.count > 0 {
      MovedData(fs, g, x, y);
    }
  }

  /** When growing fails the bitmap, the table and every allocated sector are as they were, also
      after a disk error part of the way through the copying. */
  lemma GrowFails(fs: FS, i: nat, need: nat, fault: Option<nat>)
    requires DiskInv(fs) && Used(fs, i) && InArea(fs.inodes[i])
    ensures !Grow(fs, i, need, fault).1 <==>
      && need > fs.inodes[i].count
      && (FitFrom(fs.bits, need, 0).None? || (fault.Some? && fault.value < fs.inodes[i].count))
    ensures !Grow(fs, i, need, fault).1 ==>
      var g := Grow(fs, i, need, fault).0;
      && g.bits == fs.bits && g.inodes == fs.inodes && g.fds == fs.fds
      && forall b: nat | b < DATA_SECTORS && fs.bits[b] :: g.data[b] == fs.data[b]
  {
    hide NamesInv, ExtentInv;
    if !Grow(fs, i, need, fault).1 && FitFrom(fs.bits, need, 0).Some? {
      var rel := FitFrom(fs.bits, need, 0).value;
      assert SetRun(SetRun(fs.bits, rel, need, true), rel, need, false) == fs.bits;
    }
  }

  lemma GrownNames(fs: FS, g: FS, i: nat, need: nat)
    requires NamesInv(fs) && Grown(fs, g, i, need) && fs.inodes[i].kind == File
    ensures NamesInv(g)
  {
    SameNames(fs, g);
  }

  /** The names depend only on the kind and the name of each inode. */
  lemma SameNames(fs: FS, g: FS)
    requires NamesInv(fs) && |g.inodes| == MAX_INODES && g.inodes[0] == fs.inodes[0]
    requires forall j: nat | j < MAX_INODES ::
              g.inodes[j].kind == fs.inodes[j].kind && g.inodes[j].name == fs.inodes[j].name
    ensures NamesInv(g)
  {
    forall q | HasDir(fs, q) ensures HasDir(g, q) {
      var j: nat :| j < |fs.inodes| && fs.inodes[j].kind == Dir && fs.inodes[j].name == q;
      assert g.inodes[j].kind == Dir;
    }
    forall j: nat | Used(g, j) ensures HasDir(g, ParentOf(g.inodes[j].name)) {
      assert Used(fs, j);
    }
    forall j: nat, k: nat | Used(g, j) && Used(g, k) && g.inodes[j].name == g.inodes[k].name ensures j == k {
      assert Used(fs, j) && Used(fs, k);
    }
  }

  lemma RootOf(fs: FS)
    requires NamesInv(fs)
    ensures |fs.inodes| > 0 && fs.inodes[0].kind == Dir
  {}

  lemma GrownExtents(fs: FS, g: FS, i: nat, need: nat)
    requires ExtentInv(fs) && Grown(fs, g, i, need) && GrownBits(fs, g, i) && fs.inodes[i].kind == File
    ensures ExtentInv(g)
  {
    forall j: nat, b: nat | j < MAX_INODES && j != i && Covers(g.inodes[j], b) && Covers(g.inodes[i], b) ensures false {
      ShapeOf(fs, j);
      assert Covers(fs.inodes[j], b);
      OwnBits(fs, j);
    }
    forall b: nat | b < DATA_SECTORS ensures g.bits[b] <==> Owned(g, b) {
      OwnBits(fs, i);
      if Owned(fs, b) {
        var j: nat :| j < |fs.inodes| && Covers(fs.inodes[j], b);
        assert j == i || Covers(g.inodes[j], b);
      }
      if Covers(g.inodes[i], b) {
        assert Owned(g, b);
      }
    }
  }

  /** The bytes a grown file had are still its first bytes. */
  lemma GrownContent(fs: FS, g: FS, i: nat, need: nat)
    requires Grown(fs, g, i, need) && Fits(fs.inodes[i]) && Fits(g.inodes[i])
    ensures Content(g, g.inodes[i]) == Content(fs, fs.inodes[i])
  {
    var x, y := fs.inodes[i], g.inodes[i];
    forall k: nat | k < x.size ensures Content(g, y)[k] == Content(fs, x)[k] {
      InExtent(x, k);
      assert SectorOf(g, y, k / SECTOR) == SectorOf(fs, x, k / SECTOR);
    }
  }

  /** The other files keep their sectors while one grows. */
  lemma GrownOthers(fs: FS, g: FS, i: nat, need: nat, j: nat)
    requires ExtentInv(fs) && Grown(fs, g, i, need) && GrownBits(fs, g, i) && j < MAX_INODES && j != i
    ensures g.inodes[j] == fs.inodes[j]
    ensures forall b: nat | b < DATA_SECTORS && Covers(fs.inodes[j], b) ::
              g.data[b] == fs.data[b] && !Covers(g.inodes[i], b)
  {
    OwnBits(fs, j);
  }

  // ---- writing bytes ----

  lemma PokeAt(data: seq<seq<byte>>, start: nat, off: nat, buf: seq<byte>, k: nat)
    requires |data| == DATA_SECTORS && forall s | 0 <= s < DATA_SECTORS :: |data[s]| == SECTOR
    requires start + k / SECTOR < DATA_SECTORS
    ensures ByteAt(Poke(data, start, off, buf), start, k) ==
      (if off <= k < off + |buf| then buf[k - off] else ByteAt(data, start, k))
  {
    assert (start + k / SECTOR - start) * SECTOR + k % SECTOR == k;
  }

  /** Sectors outside the file are not written. */
  lemma PokeOutside(data: seq<seq<byte>>, start: nat, count: nat, off: nat, buf: seq<byte>, b: nat)
    requires |data| == DATA_SECTORS && forall s | 0 <= s < DATA_SECTORS :: |data[s]| == SECTOR
    requires off + |buf| <= count * SECTOR && b < DATA_SECTORS && !(start <= b < start + count)
    ensures Poke(data, start, off, buf)[b] == data[b]
  {
    var r := Poke(data, start, off, buf);
    forall j: nat | j < SECTOR ensures r[b][j] == data[b][j] {
      assert r[b][j] == PokedByte(data, start, off, buf, b, j);
      if b >= start + count {
        assert (b - start) * SECTOR >= count * SECTOR;
      }
    }
  }

  /** `g` is `h` with `buf` written at `off` in file `i`, its extent being large enough. */
  ghost predicate Poked(h: FS, g: FS, i: nat, off: nat, buf: seq<byte>)
  {
    && Wf(h) && Wf(g) && i < MAX_INODES && h.bits == g.bits
    && var y := h.inodes[i];
    && y.start >= DATA_START && y.count > 0 && InArea(y) && off + |buf| <= y.count * SECTOR && off <= y.size
    && g.data == Poke(h.data, y.start - DATA_START, off, buf)
    && g.inodes == h.inodes[i := y.(size := if off + |buf| > y.size then off + |buf| else y.size)]
  }

  lemma PokedInv(h: FS, g: FS, i: nat, off: nat, buf: seq<byte>)
    requires DiskInv(h) && Poked(h, g, i, off, buf) && h.inodes[i].kind == File
    ensures DiskInv(g)
  {
    hide NamesInv, ExtentInv, Poke;
    RootOf(h);
    SameNames(h, g);
    PokedExtents(h, g, i, off, buf);
  }

  lemma PokedExtents(h: FS, g: FS, i: nat, off: nat, buf: seq<byte>)
    requires ExtentInv(h) && Poked(h, g, i, off, buf) && h.inodes[i].kind == File
    ensures ExtentInv(g)
  {
    ShapeOf(h, i);
    assert forall j: nat, b: nat | j < MAX_INODES :: Covers(g.inodes[j], b) == Covers(h.inodes[j], b);
    forall b: nat | b < DATA_SECTORS ensures Owned(g, b) == Owned(h, b) {
      if Owned(h, b) {
        var j: nat :| j < |h.inodes| && Covers(h.inodes[j], b);
        assert Covers(g.inodes[j], b);
      }
    }
  }

  lemma PokedContent(h: FS, g: FS, i: nat, off: nat, buf: seq<byte>)
    requires Poked(h, g, i, off, buf) && Fits(h.inodes[i]) && Fits(g.inodes[i])
    ensures Content(g, g.inodes[i]) == Splice(Content(h, h.inodes[i]), off, buf)
  {
    var y, z := h.inodes[i], g.inodes[i];
    var was, now := Content(h, y), Content(g, z);
    forall k: nat | k < z.size ensures now[k] == Splice(was, off, buf)[k] {
      InExtent(z, k);
      PokeAt(h.data, y.start - DATA_START, off, buf, k);
    }
  }

  lemma PokedOthers(h: FS, g: FS, i: nat, off: nat, buf: seq<byte>, j: nat)
    requires Poked(h, g, i, off, buf) && j < MAX_INODES && j != i
    requires forall b: nat | b < DATA_SECTORS && Covers(h.inodes[j], b) :: !Covers(h.inodes[i], b)
    ensures g.inodes[j] == h.inodes[j]
    ensures forall b: nat | b < DATA_SECTORS && Covers(h.inodes[j], b) :: g.data[b] == h.data[b]
  {
    var y := h.inodes[i];
    forall b: nat | b < DATA_SECTORS && Covers(h.inodes[j], b) ensures g.data[b] == h.data[b] {
      PokeOutside(h.data, y.start - DATA_START, y.count, off, buf, b);
    }
  }

  // ---- fs_write ----

  /** `n` sectors are the fewest that hold so many bytes. */
  predicate Spans(n: nat, bytes: nat) { bytes <= n * SECTOR && (n > 0 ==> (n - 1) * SECTOR < bytes) }

  /** A file cannot be given `n` sectors: it has fewer, and no `n` sectors in a row are free or a sector of
      it cannot be copied. */
  ghost predicate Lacks(fs: FS, x: Inode, n: nat, fault: Option<nat>)
    requires Wf(fs)
  {
    && n > x.count
    && ((forall s: nat | s + n <= DATA_SECTORS :: !RunClear(fs.bits, s, n)) || (fault.Some? && fault.value < x.count))
  }

  /** When `fs_write` returns -1: the descriptor is closed, or the sectors that the file's new end takes
      are not to be had. */
  ghost predicate WriteFails(fs: FS, f: int, len: nat, fault: Option<nat>)
    requires Wf(fs)
  {
    || !Opened(fs, f)
    || (len > 0 && exists n: nat ::
          Spans(n, fs.fds[f].offset + len) && Lacks(fs, fs.inodes[fs.fds[f].inode], n, fault))
  }

  lemma SectorsSpan(bytes: nat)
    ensures Spans(Sectors(bytes), bytes)
  {}

  lemma SpanUnique(m: nat, n: nat, bytes: nat)
    requires Spans(m, bytes) && Spans(n, bytes)
    ensures m == n
  {}

  /** In terms of what the code computes. */
  lemma WriteFailsIs(fs: FS, f: int, len: nat, fault: Option<nat>)
    requires Wf(fs) && Opened(fs, f) && len > 0
    ensures
      var x, need := fs.inodes[fs.fds[f].inode], Sectors(fs.fds[f].offset + len);
      WriteFails(fs, f, len, fault) <==>
        need > x.count && (FitFrom(fs.bits, need, 0).None? || (fault.Some? && fault.value < x.count))
  {
    hide FitFrom, Sectors, Spans, RunClear;
    var x, end := fs.inodes[fs.fds[f].inode], fs.fds[f].offset + len;
    var need := Sectors(end);
    SectorsSpan(end);
    NoneFits(fs.bits, need);
    if n: nat :| Spans(n, end) && Lacks(fs, x, n, fault) { SpanUnique(n, need, end); }
    if Lacks(fs, x, need, fault) { assert Spans(need, end); }
  }

  lemma NoneFits(bits: seq<bool>, n: nat)
    ensures FitFrom(bits, n, 0).None? <==> forall s: nat | s + n <= |bits| :: !RunClear(bits, s, n)
  {}

  /** A write that fails changes neither the bitmap nor any path. */
  lemma WriteFailure(fs: FS, f: int, buf: seq<byte>, fault: Option<nat>)
    requires Inv(fs)
    requires forall i | 0 <= i < MAX_INODES :: InArea(fs.inodes[i])
    ensures var (g, n) := Write(fs, f, buf, fault);
      && (n < 0 <==> WriteFails(fs, f, |buf|, fault))
      && (n < 0 ==> Inv(g) && n == -1 && g.bits == fs.bits && g.inodes == fs.inodes && g.fds == fs.fds)
      && (n < 0 ==> forall p :: Lookup(g, p) == Lookup(fs, p))
  {
    hide NamesInv, ExtentInv, Lookup, FitFrom, Grow, Poke;
    var (g, n) := Write(fs, f, buf, fault);
    if Opened(fs, f) && buf != [] {
      WriteFailsIs(fs, f, |buf|, fault);
      GrowFails(fs, fs.fds[f].inode, Sectors(fs.fds[f].offset + |buf|), fault);
    }
    if n < 0 {
      SameTable(fs, g);
    }
  }

  /** With the table and the allocated sectors as they were, so is every path. */
  lemma SameTable(fs: FS, g: FS)
    requires DiskInv(fs) && Wf(g) && g.inodes == fs.inodes && g.bits == fs.bits
    requires forall b: nat | b < DATA_SECTORS && fs.bits[b] :: g.data[b] == fs.data[b]
    ensures DiskInv(g) && forall p :: Lookup(g, p) == Lookup(fs, p)
  {
    assert ExtentInv(g) by {
      assert forall b: nat :: Owned(g, b) == Owned(fs, b);
    }
    SameNames(fs, g);
    hide NamesInv, ExtentInv;
    forall p ensures Lookup(g, p) == Lookup(fs, p) {
      if Find(fs, p).Some? {
        OwnBits(fs, Find(fs, p).value);
        SameNode(fs, g, Find(fs, p).value);
      }
    }
  }

  lemma SectorsHold(end: nat)
    ensures end <= Sectors(end) * SECTOR && (end > 0 ==> Sectors(end) > 0)
  {}

  /** The sectors `fs_write` asks for, in 32-bit arithmetic. */
  function Need(off: nat, len: nat): nat { ((off + len) % 0x1_0000_0000 + 511) % 0x1_0000_0000 / SECTOR }

  /** They hold the write exactly when its end, rounded up to a sector, fits 32 bits, and then they are
      the fewest that do. */
  lemma NeedHolds(off: nat, len: nat)
    requires off < 0x1_0000_0000 && len < 0x1_0000_0000
    ensures off + len + 511 < 0x1_0000_0000 <==> off + len <= Need(off, len) * SECTOR
    ensures off + len + 511 < 0x1_0000_0000 ==> Spans(Need(off, len), off + len) && Need(off, len) == Sectors(off + len)
  {
    var end := (off + len) % 0x1_0000_0000;
    var top := (end + 511) % 0x1_0000_0000;
    assert top - SECTOR < top / SECTOR * SECTOR <= top;
    if off + len >= 0x1_0000_0000 {
      assert end == off + len - 0x1_0000_0000;
    } else if off + len + 511 >= 0x1_0000_0000 {
      assert top == off + len + 511 - 0x1_0000_0000;
    }
  }

  /** One path after the file has grown and the bytes are in. */
  lemma WrittenLookup(fs: FS, h: FS, g: FS, i: nat, need: nat, off: nat, buf: seq<byte>, p: Path)
    requires DiskInv(fs) && DiskInv(h) && DiskInv(g) && Used(fs, i) && fs.inodes[i].kind == File
    requires Grown(fs, h, i, need) && GrownBits(fs, h, i) && Poked(h, g, i, off, buf)
    requires Fits(fs.inodes[i])
    requires off <= fs.inodes[i].size
    ensures Lookup(g, p) == LookupWith(fs, fs.inodes[i].name, FileNode(Splice(Content(fs, fs.inodes[i]), off, buf)), p)
  {
    hide NamesInv, ExtentInv, Poked, Grown, GrownBits;
    assert g.inodes[i].name == fs.inodes[i].name && g.inodes[i].kind == File by {
      WrittenShape(fs, h, g, i, need, off, buf);
    }
    ShapeOf(h, i);
    ShapeOf(g, i);
    FindUsed(g, i);
    if p == fs.inodes[i].name {
      GrownContent(fs, h, i, need);
      PokedContent(h, g, i, off, buf);
    } else if Find(fs, p).Some? {
      var j := Find(fs, p).value;
      GrownOthers(fs, h, i, need, j);
      PokedOthers(h, g, i, off, buf, j);
      SameNode(fs, g, j);
    } else {
      NoNode(fs, p);
      NoNode(g, p);
      assert Find(g, p).None? by {
        SameFinds(fs, h, g, i, need, off, buf, p);
      }
    }
  }

  lemma WrittenShape(fs: FS, h: FS, g: FS, i: nat, need: nat, off: nat, buf: seq<byte>)
    requires Grown(fs, h, i, need) && Poked(h, g, i, off, buf)
    ensures g.inodes[i].name == fs.inodes[i].name && g.inodes[i].kind == fs.inodes[i].kind
  {}

  lemma SameFinds(fs: FS, h: FS, g: FS, i: nat, need: nat, off: nat, buf: seq<byte>, p: Path)
    requires Grown(fs, h, i, need) && Poked(h, g, i, off, buf) && Find(fs, p).None?
    ensures Find(g, p).None?
  {
    assert forall j: nat | j < MAX_INODES ::
        g.inodes[j].kind == fs.inodes[j].kind && g.inodes[j].name == fs.inodes[j].name;
  }

  /** A write that succeeds splices the bytes into the file at the descriptor's offset, moves the
      offset past them, and changes no other path. */
  lemma WriteSplices(fs: FS, f: int, buf: seq<byte>, fault: Option<nat>)
    requires Inv(fs) && Opened(fs, f) && buf != [] && !WriteFails(fs, f, |buf|, fault)
    requires forall i | 0 <= i < MAX_INODES :: InArea(fs.inodes[i]) && Fits(fs.inodes[i])
    ensures var (g, n) := Write(fs, f, buf, fault);
      var i, off := fs.fds[f].inode, fs.fds[f].offset;
      && Inv(g) && n == |buf| && g.fds == fs.fds[f := Fd(i, off + n)]
      && forall p ::
          Lookup(g, p) == LookupWith(fs, fs.inodes[i].name, FileNode(Splice(Content(fs, fs.inodes[i]), off, buf)), p)
  {
    hide NamesInv, ExtentInv, FdInv, Lookup, LookupWith, Write, WriteFails, Grown, GrownBits, Poked, Content, Splice;
    var h := WriteStages(fs, f, buf, fault);
    var (g, n) := Write(fs, f, buf, fault);
    var i, off := fs.fds[f].inode, fs.fds[f].offset;
    InFile(fs, f);
    forall p
      ensures
        Lookup(g, p) == LookupWith(fs, fs.inodes[i].name, FileNode(Splice(Content(fs, fs.inodes[i]), off, buf)), p)
    {
      WrittenLookup(fs, h, g, i, Sectors(off + |buf|), off, buf, p);
    }
  }

  lemma InFile(fs: FS, f: int)
    requires Inv(fs) && Opened(fs, f)
    ensures
      var i := fs.fds[f].inode;
      i < MAX_INODES && Used(fs, i) && fs.inodes[i].kind == File && fs.fds[f].offset <= fs.inodes[i].size
  {}

  /** A successful write first grows the file, then writes the bytes. */
  lemma WriteStages(fs: FS, f: int, buf: seq<byte>, fault: Option<nat>) returns (h: FS)
    requires Inv(fs) && Opened(fs, f) && buf != [] && !WriteFails(fs, f, |buf|, fault)
    requires forall i | 0 <= i < MAX_INODES :: InArea(fs.inodes[i]) && Fits(fs.inodes[i])
    ensures var (g, n) := Write(fs, f, buf, fault);
      var i, off := fs.fds[f].inode, fs.fds[f].offset;
      && n == |buf| && g.fds == fs.fds[f := Fd(i, off + n)] && DiskInv(h) && Inv(g)
      && Grown(fs, h, i, Sectors(off + n)) && GrownBits(fs, h, i) && Poked(h, g, i, off, buf)
  {
    hide NamesInv, ExtentInv, Grow, Poke, FitFrom, GrownBits;
    var (g, n) := Write(fs, f, buf, fault);
    var i, off := fs.fds[f].inode, fs.fds[f].offset;
    var need := Sectors(off + |buf|);
    SectorsHold(off + |buf|);
    WriteFailsIs(fs, f, |buf|, fault);
    GrowFails(fs, i, need, fault);
    GrowSucceeds(fs, i, need, fault);
    h := Grow(fs, i, need, fault).0;
    GrownNames(fs, h, i, need);
    GrownExtents(fs, h, i, need);
    assert Poked(h, g, i, off, buf);
    PokedInv(h, g, i, off, buf);
    WrittenFds(fs, g, f, off + |buf|);
  }

  lemma WrittenFds(fs: FS, g: FS, f: int, end: nat)
    requires FdInv(fs) && Opened(fs, f) && |g.inodes| == |fs.inodes|
    requires g.fds == fs.fds[f := Fd(fs.fds[f].inode, end)]
    requires forall j: nat | j < |fs.inodes| ::
              g.inodes[j].kind == fs.inodes[j].kind && g.inodes[j].size >= fs.inodes[j].size
    requires fs.fds[f].inode < |g.inodes| && end <= g.inodes[fs.fds[f].inode].size
    ensures FdInv(g)
  {}

  /** `fs_read` returns the bytes at the offset, as many as asked for and as the file has, moves the
      offset past them and changes nothing else. */
  lemma ReadSlices(fs: FS, f: int, n: nat)
    requires Inv(fs)
    requires forall i | 0 <= i < MAX_INODES :: Fits(fs.inodes[i])
    ensures var (g, r) := Read(fs, f, n);
      && Inv(g) && g == fs.(fds := g.fds)
      && (r.None? <==> !Opened(fs, f))
      && (r.None? ==> g == fs)
      && (r.Some? ==>
        var off := fs.fds[f].offset;
        && Lookup(fs, fs.inodes[fs.fds[f].inode].name).Some?
        && var file := Lookup(fs, fs.inodes[fs.fds[f].inode].name).value;
        && file.FileNode? && off + |r.value| <= |file.bytes|
        && r.value == file.bytes[off..off + |r.value|]
        && (|r.value| == n || (|r.value| < n && off + |r.value| == |file.bytes|))
        && g.fds == fs.fds[f := Fd(fs.fds[f].inode, off + |r.value|)])
  {
    hide NamesInv, ExtentInv;
    if Opened(fs, f) {
      FindUsed(fs, fs.fds[f].inode);
      var g := Read(fs, f, n).0;
      SameTable(fs, g);
      assert FdInv(g);
    }
  }
}

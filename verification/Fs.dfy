/** The filesystem (filesys/fs.c) as a value: the inode table, the allocation bitmap, the data
    sectors and the open descriptors, with what each call does to them. */
module Fs {
  import opened Common

  const NAME_MAX := 128
  const MAX_INODES := 512
  const DATA_START := 428
  const TOTAL_SECTORS := 8192
  const DATA_SECTORS := 7764
  const SECTOR := 512
  const MAX_OPEN := 8

  type Path = seq<byte>

  const SLASH: byte := 47
  const ROOT: Path := [SLASH]

  datatype Kind = Free | File | Dir

  datatype Inode = Inode(name: Path, size: nat, start: nat, count: nat, kind: Kind)

  const FREE_INODE := Inode([], 0, 0, 0, Free)

  datatype Fd = NoFd | Fd(inode: nat, offset: nat)

  datatype FS = FS(inodes: seq<Inode>, bits: seq<bool>, data: seq<seq<byte>>, fds: seq<Fd>)

  /** A C string that fits an inode. */
  predicate ValidPath(p: Path) { |p| < NAME_MAX && 0 !in p }

  ghost predicate Wf(fs: FS)
  {
    && |fs.inodes| == MAX_INODES && |fs.bits| == DATA_SECTORS && |fs.data| == DATA_SECTORS && |fs.fds| == MAX_OPEN
    && (forall i | 0 <= i < MAX_INODES :: ValidPath(fs.inodes[i].name))
    && (forall s | 0 <= s < DATA_SECTORS :: |fs.data[s]| == SECTOR)
    && (forall f | 0 <= f < MAX_OPEN && fs.fds[f].Fd? :: fs.fds[f].inode < MAX_INODES)
  }

  // ---- paths ----

  /** The last index of a slash, 0 if there is none. */
  function LastSlash(p: Path): (k: nat)
    ensures k < |p| || k == 0
    ensures k > 0 ==> p[k] == SLASH
    ensures forall i | k < i < |p| :: p[i] != SLASH
  {
    if p == [] then 0
    else if p[|p| - 1] == SLASH then |p| - 1
    else LastSlash(p[..|p| - 1])
  }

  /** `fs_get_parent`. */
  function ParentOf(p: Path): (q: Path)
    ensures q == ROOT || (q < p && |q| > 0)
    ensures ValidPath(p) ==> ValidPath(q)
  {
    if LastSlash(p) == 0 then ROOT else p[..LastSlash(p)]
  }

  /** Path `p` is `top` or lies below it. */
  predicate Under(p: Path, top: Path)
    decreases p != ROOT, |p|
  {
    p == top || (p != ROOT && Under(ParentOf(p), top))
  }

  // ---- lookup ----

  /** `fs_find`: the first used inode with this name. */
  function FindFrom(inodes: seq<Inode>, p: Path, from: nat): (r: Option<nat>)
    requires from <= |inodes|
    ensures r.Some? ==> from <= r.value < |inodes| && inodes[r.value].kind != Free && inodes[r.value].name == p
    ensures r.None? ==> forall i | from <= i < |inodes| :: !(inodes[i].kind != Free && inodes[i].name == p)
    decreases |inodes| - from
  {
    if from == |inodes| then None
    else if inodes[from].kind != Free && inodes[from].name == p then Some(from)
    else FindFrom(inodes, p, from + 1)
  }

  function Find(fs: FS, p: Path): (r: Option<nat>)
    ensures r.Some? ==> r.value < |fs.inodes| && fs.inodes[r.value].kind != Free && fs.inodes[r.value].name == p
    ensures r.None? ==> forall i | 0 <= i < |fs.inodes| :: !(fs.inodes[i].kind != Free && fs.inodes[i].name == p)
  {
    FindFrom(fs.inodes, p, 0)
  }

  /** `fs_isdir`. */
  predicate IsDir(fs: FS, p: Path)
  {
    p == ROOT || (Find(fs, p).Some? && fs.inodes[Find(fs, p).value].kind == Dir)
  }

  function FreeFrom(inodes: seq<Inode>, from: nat): (r: Option<nat>)
    requires from <= |inodes|
    ensures r.Some? ==> from <= r.value < |inodes| && inodes[r.value].kind == Free
    ensures r.None? ==> forall i | from <= i < |inodes| :: inodes[i].kind != Free
    decreases |inodes| - from
  {
    if from == |inodes| then None
    else if inodes[from].kind == Free then Some(from)
    else FreeFrom(inodes, from + 1)
  }

  // ---- directories ----

  /** A new inode of the given kind, as fs_mkdir and fs_open make it; -1 becomes `None`. */
  function Make(fs: FS, p: Path, kind: Kind): (r: (FS, Option<nat>))
    requires Wf(fs) && ValidPath(p)
    ensures Wf(r.0) && (r.1.Some? ==> r.1.value < MAX_INODES)
  {
    if Find(fs, p).Some? || !IsDir(fs, ParentOf(p)) then (fs, None)
    else
      match FreeFrom(fs.inodes, 0)
      case None => (fs, None)
      case Some(i) => (fs.(inodes := fs.inodes[i := Inode(p, 0, 0, 0, kind)]), Some(i))
  }

  /** `fs_mkdir`. */
  function Mkdir(fs: FS, p: Path): (r: (FS, bool))
    requires Wf(fs) && ValidPath(p)
    ensures Wf(r.0)
  {
    var (g, i) := Make(fs, p, Dir);
    (g, i.Some?)
  }

  /** A used inode whose parent directory is `p`. */
  predicate IsChild(fs: FS, p: Path, i: nat)
  {
    i < |fs.inodes| && fs.inodes[i].kind != Free && ParentOf(fs.inodes[i].name) == p
  }

  function Erase(fs: FS, i: nat): (r: FS)
    requires Wf(fs) && i < MAX_INODES
    ensures Wf(r)
  {
    fs.(inodes := fs.inodes[i := FREE_INODE])
  }

  /** `fs_rmdir`: refuses the root, files and directories that are not empty. */
  function Rmdir(fs: FS, p: Path): (r: (FS, bool))
    requires Wf(fs)
    ensures Wf(r.0)
  {
    if p == ROOT then (fs, false)
    else
      match Find(fs, p)
      case None => (fs, false)
      case Some(i) =>
        if fs.inodes[i].kind != Dir || (exists j: nat | j < MAX_INODES :: j != i && IsChild(fs, p, j)) then (fs, false)
        else (Erase(fs, i), true)
  }

  /** The bits of a run of sectors. */
  function SetRun(bits: seq<bool>, start: nat, n: nat, v: bool): (r: seq<bool>)
    requires start + n <= |bits|
    ensures |r| == |bits|
    ensures forall b | 0 <= b < |bits| :: r[b] == if start <= b < start + n then v else bits[b]
  {
    seq(|bits|, b requires 0 <= b < |bits| => if start <= b < start + n then v else bits[b])
  }

  /** The extent of an inode lies in the data area. */
  predicate InArea(x: Inode)
  {
    x.count > 0 ==> DATA_START <= x.start && x.start + x.count <= TOTAL_SECTORS
  }

  function FreeExtent(bits: seq<bool>, x: Inode): (r: seq<bool>)
    requires |bits| == DATA_SECTORS && InArea(x)
    ensures |r| == DATA_SECTORS
  {
    if x.count == 0 then bits else SetRun(bits, x.start - DATA_START, x.count, false)
  }

  /** `fs_delete`. */
  function Delete(fs: FS, p: Path): (r: (FS, bool))
    requires Wf(fs) && forall i | 0 <= i < MAX_INODES :: InArea(fs.inodes[i])
    ensures Wf(r.0) && forall i | 0 <= i < MAX_INODES :: InArea(r.0.inodes[i])
  {
    match Find(fs, p)
    case None => (fs, false)
    case Some(i) =>
      if fs.inodes[i].kind == Dir then (fs, false)
      else (Erase(fs.(bits := FreeExtent(fs.bits, fs.inodes[i])), i), true)
  }

  /** `fs_rrmdr`: the child loop from slot `j` on, then the directory itself. */
  function RemoveFrom(fs: FS, p: Path, i: nat, j: nat): (r: (FS, bool))
    requires Wf(fs) && forall i | 0 <= i < MAX_INODES :: InArea(fs.inodes[i])
    requires p != ROOT && i < MAX_INODES && j <= MAX_INODES
    ensures Wf(r.0) && forall i | 0 <= i < MAX_INODES :: InArea(r.0.inodes[i])
    decreases if |p| < NAME_MAX then NAME_MAX - |p| else 0, 1, MAX_INODES - j
  {
    if j == MAX_INODES then (Erase(fs, i), true)
    else if j == i || !IsChild(fs, p, j) then RemoveFrom(fs, p, i, j + 1)
    else
      var child := fs.inodes[j];
      var (g, ok) := if child.kind == Dir then Rrmdr(fs, child.name) else Delete(fs, child.name);
      if !ok then (g, false) else RemoveFrom(g, p, i, j + 1)
  }

  function Rrmdr(fs: FS, p: Path): (r: (FS, bool))
    requires Wf(fs) && forall i | 0 <= i < MAX_INODES :: InArea(fs.inodes[i])
    ensures Wf(r.0) && forall i | 0 <= i < MAX_INODES :: InArea(r.0.inodes[i])
    decreases if |p| < NAME_MAX then NAME_MAX - |p| else 0, 2
  {
    if p == ROOT then (fs, false)
    else
      match Find(fs, p)
      case None => (fs, false)
      case Some(i) => if fs.inodes[i].kind != Dir then (fs, false) else RemoveFrom(fs, p, i, 0)
  }

  // ---- descriptors ----

  /** `fs_open`; the result is the descriptor, `None` for -1. */
  function Open(fs: FS, p: Path, create: bool): (r: (FS, Option<nat>))
    requires Wf(fs) && ValidPath(p)
    ensures Wf(r.0)
  {
    match First(fs.fds, NoFd)
    case None => (fs, None)
    case Some(f) =>
      match Find(fs, p)
      case Some(i) =>
        if fs.inodes[i].kind == Dir then (fs, None) else (fs.(fds := fs.fds[f := Fd(i, 0)]), Some(f))
      case None =>
        if !create then (fs, None)
        else
          match Make(fs, p, File)
          case (_, None) => (fs, None)
          case (g, Some(i)) => (g.(fds := g.fds[f := Fd(i, 0)]), Some(f))
  }

  /** `fs_close`. */
  function Close(fs: FS, f: int): (r: FS)
    requires Wf(fs)
    ensures Wf(r)
  {
    if 0 <= f < MAX_OPEN then fs.(fds := fs.fds[f := NoFd]) else fs
  }

  // ---- file data ----

  /** Byte `k` of the extent that starts at sector `start`. */
  function ByteAt(data: seq<seq<byte>>, start: nat, k: nat): (b: byte)
    requires |data| == DATA_SECTORS && (forall s | 0 <= s < DATA_SECTORS :: |data[s]| == SECTOR)
    requires start + k / SECTOR < DATA_SECTORS
  {
    data[start + k / SECTOR][k % SECTOR]
  }

  /** `size` fits the extent, and the extent lies in the data area. */
  predicate Fits(x: Inode) { InArea(x) && x.size <= x.count * SECTOR && (x.count == 0 ==> x.size == 0) }

  lemma InExtent(x: Inode, k: nat)
    requires Fits(x) && k < x.size
    ensures x.count > 0 && x.start >= DATA_START && x.start - DATA_START + k / SECTOR < DATA_SECTORS
  {}

  /** The bytes of a file. */
  function Content(fs: FS, x: Inode): (c: seq<byte>)
    requires Wf(fs) && Fits(x)
    ensures |c| == x.size
  {
    seq(x.size, k requires 0 <= k < x.size => InExtent(x, k); ByteAt(fs.data, x.start - DATA_START, k))
  }

  /** A descriptor that can be read or written. */
  predicate Opened(fs: FS, f: int)
  {
    |fs.fds| == MAX_OPEN && 0 <= f < MAX_OPEN && fs.fds[f].Fd?
  }

  /** `fs_read`: the bytes read and the new state; `None` is -1. */
  function Read(fs: FS, f: int, n: nat): (r: (FS, Option<seq<byte>>))
    requires Wf(fs) && forall i | 0 <= i < MAX_INODES :: Fits(fs.inodes[i])
    ensures Wf(r.0)
  {
    if !Opened(fs, f) then (fs, None)
    else
      var x, off := fs.inodes[fs.fds[f].inode], fs.fds[f].offset;
      if off >= x.size then (fs, Some([]))
      else
        var m := if n > x.size - off then x.size - off else n;
        (fs.(fds := fs.fds[f := fs.fds[f].(offset := off + m)]), Some(Content(fs, x)[off..off + m]))
  }

  /** No bit of the run is set. */
  predicate RunClear(bits: seq<bool>, start: nat, n: nat)
    requires start + n <= |bits|
  {
    forall b | start <= b < start + n :: !bits[b]
  }

  /** `bm_alloc`: the first clear run of `n` sectors. */
  function FitFrom(bits: seq<bool>, n: nat, from: nat): (r: Option<nat>)
    ensures r.Some? ==> from <= r.value && r.value + n <= |bits| && RunClear(bits, r.value, n)
    ensures r.None? ==> forall s: nat | from <= s && s + n <= |bits| :: !RunClear(bits, s, n)
    ensures r.Some? ==> forall s: nat | from <= s < r.value :: !RunClear(bits, s, n)
    decreases |bits| - from
  {
    if from + n > |bits| then None
    else if RunClear(bits, from, n) then Some(from)
    else FitFrom(bits, n, from + 1)
  }

  /** The first `n` sectors from `src` copied to `dst`. */
  function CopyRun(data: seq<seq<byte>>, src: nat, dst: nat, n: nat): (r: seq<seq<byte>>)
    requires src + n <= |data| && dst + n <= |data|
    ensures |r| == |data|
    ensures forall s | 0 <= s < |data| :: r[s] == if dst <= s < dst + n then data[src + (s - dst)] else data[s]
  {
    seq(|data|, s requires 0 <= s < |data| => if dst <= s < dst + n then data[src + (s - dst)] else data[s])
  }

  /** Bytes `buf` written at offset `off` of the extent that starts at sector `start`. */
  function Poke(data: seq<seq<byte>>, start: nat, off: nat, buf: seq<byte>): (r: seq<seq<byte>>)
    requires |data| == DATA_SECTORS && forall s | 0 <= s < DATA_SECTORS :: |data[s]| == SECTOR
    ensures |r| == DATA_SECTORS && forall s | 0 <= s < DATA_SECTORS :: |r[s]| == SECTOR
    ensures forall s, j | 0 <= s < DATA_SECTORS && 0 <= j < SECTOR :: r[s][j] == PokedByte(data, start, off, buf, s, j)
  {
    seq(DATA_SECTORS, s requires 0 <= s < DATA_SECTORS =>
      seq(SECTOR, j requires 0 <= j < SECTOR => PokedByte(data, start, off, buf, s, j)))
  }

  function PokedByte(data: seq<seq<byte>>, start: nat, off: nat, buf: seq<byte>, s: nat, j: nat): byte
    requires s < |data| && j < |data[s]|
  {
    var k := (s - start) * SECTOR + j;
    if start <= s && off <= k < off + |buf| then buf[k - off] else data[s][j]
  }

  function Sectors(bytes: nat): nat { (bytes + 511) / SECTOR }

  /** The first half of `fs_write`: make the extent large enough, moving the file if it must grow.
      `fault` is the number of the sector whose copying fails, if one does. */
  function Grow(fs: FS, i: nat, need: nat, fault: Option<nat>): (r: (FS, bool))
    requires Wf(fs) && i < MAX_INODES && InArea(fs.inodes[i])
    ensures Wf(r.0) && InArea(r.0.inodes[i])
    ensures r.1 ==> r.0.inodes[i].count >= need
  {
    var x := fs.inodes[i];
    if need <= x.count then (fs, true)
    else
      match FitFrom(fs.bits, need, 0)
      case None => (fs, false)
      case Some(rel) =>
        var y := x.(start := DATA_START + rel, count := need);
        if x.count == 0 then
          (fs.(bits := SetRun(fs.bits, rel, need, true), inodes := fs.inodes[i := y]), true)
        else
          var src := x.start - DATA_START;
          var taken := SetRun(fs.bits, rel, need, true);
          if fault.Some? && fault.value < x.count then
            (fs.(bits := SetRun(taken, rel, need, false), data := CopyRun(fs.data, src, rel, fault.value)), false)
          else
            (fs.(bits := SetRun(taken, src, x.count, false), data := CopyRun(fs.data, src, rel, x.count),
                 inodes := fs.inodes[i := y]), true)
  }

  /** `fs_write`; the result is the byte count, -1 on failure. */
  function Write(fs: FS, f: int, buf: seq<byte>, fault: Option<nat>): (r: (FS, int))
    requires Wf(fs) && forall i | 0 <= i < MAX_INODES :: InArea(fs.inodes[i])
    ensures Wf(r.0)
  {
    if !Opened(fs, f) then (fs, -1)
    else if buf == [] then (fs, 0)
    else
      var i, off := fs.fds[f].inode, fs.fds[f].offset;
      var (g, ok) := Grow(fs, i, Sectors(off + |buf|), fault);
      if !ok then (g, -1)
      else
        var y, end := g.inodes[i], off + |buf|;
        (g.(data := Poke(g.data, y.start - DATA_START, off, buf),
            fds := g.fds[f := Fd(i, end)],
            inodes := g.inodes[i := y.(size := if end > y.size then end else y.size)]), |buf|)
  }

  // ---- formatting and mounting ----

  /** The state `fs_init` formats a blank disk to. */
  function Formatted(data: seq<seq<byte>>): (r: FS)
    requires |data| == DATA_SECTORS && forall s | 0 <= s < DATA_SECTORS :: |data[s]| == SECTOR
    ensures Wf(r)
  {
    FS([Inode(ROOT, 0, 0, 0, Dir)] + seq(MAX_INODES - 1, _ => FREE_INODE),
       seq(DATA_SECTORS, _ => false), data, seq(MAX_OPEN, _ => NoFd))
  }

  /** The bitmap `fs_init` rebuilds on a formatted disk, from the first `n` inodes. */
  function Rebuilt(inodes: seq<Inode>, n: nat): (bits: seq<bool>)
    requires n <= |inodes| && forall i | 0 <= i < |inodes| :: InArea(inodes[i])
    ensures |bits| == DATA_SECTORS
  {
    if n == 0 then seq(DATA_SECTORS, _ => false)
    else
      var x := inodes[n - 1];
      var bits := Rebuilt(inodes, n - 1);
      if x.kind == Free || x.count == 0 then bits else SetRun(bits, x.start - DATA_START, x.count, true)
  }

  /** `fs_init` on a formatted disk. */
  function Mount(fs: FS): (r: FS)
    requires Wf(fs) && forall i | 0 <= i < MAX_INODES :: InArea(fs.inodes[i])
    ensures Wf(r)
  {
    fs.(bits := Rebuilt(fs.inodes, MAX_INODES), fds := seq(MAX_OPEN, _ => NoFd))
  }
}

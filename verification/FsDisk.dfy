/** The inode table on disk: 144-byte records, three to a sector. */
module FsDisk {
  import opened Common
  import opened Fs

  const SUPER_SECTOR := 256
  const INODE_START := 257
  const INODE_SECTORS := 171
  const INODE_SIZE := 144
  const PER_SECTOR := 3
  const MAGIC := 0x504E4753

  type Sector = seq<byte>

  predicate IsDisk(disk: seq<Sector>)
  {
    |disk| == TOTAL_SECTORS && forall s | 0 <= s < TOTAL_SECTORS :: |disk[s]| == SECTOR
  }

  /** The fields fit their on-disk width. */
  predicate Storable(x: Inode)
  {
    ValidPath(x.name) && x.size < 0x1_0000_0000 && x.start < 0x1_0000_0000 && x.count < 0x1_0000_0000
  }

  function KindByte(k: Kind): byte { match k case Free => 0 case File => 1 case Dir => 2 }

  function KindOf(b: byte): Kind { if b == 0 then Free else if b == 2 then Dir else File }

  function Zeros(n: nat): (r: seq<byte>)
    ensures |r| == n && forall i | 0 <= i < n :: r[i] == 0
  {
    seq(n, _ => 0)
  }

  function EncodeInode(x: Inode): (r: seq<byte>)
    requires Storable(x)
    ensures |r| == INODE_SIZE
  {
    (x.name + Zeros(NAME_MAX - |x.name|)) + Word(x.size) + Word(x.start) + Word(x.count) + [KindByte(x.kind), 0, 0, 0]
  }

  /** The bytes before the first zero. */
  function CString(b: seq<byte>): (r: Path)
    ensures r <= b && 0 !in r && (|r| < |b| ==> b[|r|] == 0)
  {
    if b == [] || b[0] == 0 then [] else [b[0]] + CString(b[1..])
  }

  lemma {:induction false} CStringOf(name: Path, rest: seq<byte>)
    requires 0 !in name && rest != [] && rest[0] == 0
    ensures CString(name + rest) == name
  {
    if name == [] {
      assert name + rest == rest;
    } else {
      CStringOf(name[1..], rest);
      assert (name + rest)[1..] == name[1..] + rest;
      assert name == [name[0]] + name[1..];
    }
  }

  function DecodeInode(b: seq<byte>): (x: Inode)
    requires |b| == INODE_SIZE
  {
    Inode(CString(b[..NAME_MAX]), ReadWord(b[128..132]), ReadWord(b[132..136]), ReadWord(b[136..140]), KindOf(b[140]))
  }

  /** Every inode the filesystem stores is read back as it was. */
  lemma InodeRoundTrip(x: Inode)
    requires Storable(x)
    ensures DecodeInode(EncodeInode(x)) == x
  {
    var b := EncodeInode(x);
    assert b[..NAME_MAX] == x.name + Zeros(NAME_MAX - |x.name|);
    CStringOf(x.name, Zeros(NAME_MAX - |x.name|));
    assert b[128..132] == Word(x.size) && b[132..136] == Word(x.start) && b[136..140] == Word(x.count);
    WordRoundTrip(x.size);
    WordRoundTrip(x.start);
    WordRoundTrip(x.count);
  }

  lemma ZeroInode()
    ensures DecodeInode(Zeros(INODE_SIZE)) == FREE_INODE
  {
    assert EncodeInode(FREE_INODE) == Zeros(INODE_SIZE);
    InodeRoundTrip(FREE_INODE);
  }

  /** Record `k` of an inode sector. */
  function SlotBytes(sector: Sector, k: nat): (r: seq<byte>)
    requires |sector| == SECTOR && k < PER_SECTOR
    ensures |r| == INODE_SIZE
  {
    sector[k * INODE_SIZE..(k + 1) * INODE_SIZE]
  }

  function StoredInode(disk: seq<Sector>, i: nat): Inode
    requires IsDisk(disk) && i < MAX_INODES
  {
    DecodeInode(SlotBytes(disk[INODE_START + i / PER_SECTOR], i % PER_SECTOR))
  }

  /** The inode table. */
  function Table(disk: seq<Sector>): (t: seq<Inode>)
    requires IsDisk(disk)
    ensures |t| == MAX_INODES && forall i | 0 <= i < MAX_INODES :: t[i] == StoredInode(disk, i)
  {
    seq(MAX_INODES, i requires 0 <= i < MAX_INODES => StoredInode(disk, i))
  }

  function StoreInode(disk: seq<Sector>, i: nat, x: Inode): (r: seq<Sector>)
    requires IsDisk(disk) && i < MAX_INODES && Storable(x)
    ensures IsDisk(r)
  {
    var s := INODE_START + i / PER_SECTOR;
    disk[s := Overlay(disk[s], (i % PER_SECTOR) * INODE_SIZE, EncodeInode(x))]
  }

  lemma OverlaySlot(sector: Sector, k: nat, b: seq<byte>, j: nat)
    requires |sector| == SECTOR && k < PER_SECTOR && j < PER_SECTOR && |b| == INODE_SIZE
    ensures SlotBytes(Overlay(sector, k * INODE_SIZE, b), j) == if j == k then b else SlotBytes(sector, j)
  {
    if j != k {
      assert j < k ==> (j + 1) * INODE_SIZE <= k * INODE_SIZE;
      assert j > k ==> (k + 1) * INODE_SIZE <= j * INODE_SIZE;
      OverlayKeeps(sector, k * INODE_SIZE, b, j * INODE_SIZE, (j + 1) * INODE_SIZE);
    }
  }

  /** Writing one inode changes that inode and nothing else: not the two that share its sector, not
      the superblock and not the data. */
  lemma StoreChangesOne(disk: seq<Sector>, i: nat, x: Inode)
    requires IsDisk(disk) && i < MAX_INODES && Storable(x)
    ensures Table(StoreInode(disk, i, x)) == Table(disk)[i := x]
    ensures StoreInode(disk, i, x)[DATA_START..] == disk[DATA_START..]
    ensures StoreInode(disk, i, x)[SUPER_SECTOR] == disk[SUPER_SECTOR]
  {
    var r := StoreInode(disk, i, x);
    hide StoreInode, StoredInode;
    forall j: nat | j < MAX_INODES ensures StoredInode(r, j) == if j == i then x else StoredInode(disk, j) {
      StoredAfter(disk, i, x, j);
    }
    assert r[DATA_START..] == disk[DATA_START..] && r[SUPER_SECTOR] == disk[SUPER_SECTOR] by {
      StoredElsewhere(disk, i, x);
    }
  }

  lemma StoredElsewhere(disk: seq<Sector>, i: nat, x: Inode)
    requires IsDisk(disk) && i < MAX_INODES && Storable(x)
    ensures StoreInode(disk, i, x)[DATA_START..] == disk[DATA_START..]
    ensures StoreInode(disk, i, x)[SUPER_SECTOR] == disk[SUPER_SECTOR]
  {
    hide EncodeInode;
  }

  lemma StoredAfter(disk: seq<Sector>, i: nat, x: Inode, j: nat)
    requires IsDisk(disk) && i < MAX_INODES && Storable(x) && j < MAX_INODES
    ensures StoredInode(StoreInode(disk, i, x), j) == if j == i then x else StoredInode(disk, j)
  {
    hide EncodeInode, DecodeInode, SlotBytes, Overlay;
    InodeRoundTrip(x);
    if j / PER_SECTOR == i / PER_SECTOR {
      OverlaySlot(disk[INODE_START + i / PER_SECTOR], i % PER_SECTOR, EncodeInode(x), j % PER_SECTOR);
      assert j != i ==> j % PER_SECTOR != i % PER_SECTOR;
    }
  }

  function Superblock(): (r: Sector)
    ensures |r| == SECTOR
  {
    Word(MAGIC) + Word(1) + Word(MAX_INODES) + Word(DATA_START) + Word(TOTAL_SECTORS - DATA_START) + Zeros(492)
  }

  function Magic(s: Sector): nat requires |s| == SECTOR { ReadWord(s[..4]) }

  function DataSectors(s: Sector): nat requires |s| == SECTOR { ReadWord(s[16..20]) }

  lemma SuperblockReads()
    ensures Magic(Superblock()) == MAGIC && DataSectors(Superblock()) == DATA_SECTORS
  {
    assert Superblock()[..4] == Word(MAGIC);
    assert Superblock()[16..20] == Word(DATA_SECTORS);
    WordRoundTrip(MAGIC);
    WordRoundTrip(DATA_SECTORS);
  }
}

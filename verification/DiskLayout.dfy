/** The on-disk format of mkfs/src/fs.rs: sectors, packed inodes, indirect blocks. */
module DiskLayout {
  import opened LittleEndian

  const BLK_SIZE := 512
  const N_DIRECT := 12
  const N_INDIRECT := 128
  const MAX_FILE := 140
  const DIR_SIZE := 14
  const FS_SIZE := 1000
  const INODES_PER_BLOCK := 8

  /** Sectors: boot 0, super block 1, log 2..32, inodes 32..58, bitmap 58, data 59..1000. */
  const INODE_START := 32
  const BMAP_START := 58
  const N_META := 59
  /** Inode numbers that fit in the inode sectors. */
  const INODE_SLOTS := 208

  type Sector = s: seq<Byte> | |s| == 512 witness seq(512, _ => 0)
  type Image = seq<Sector>

  function Zeros(n: nat): (r: seq<Byte>)
    ensures |r| == n && forall i | 0 <= i < n :: r[i] == 0
  {
    seq(n, _ => 0)
  }

  datatype Dinode = Dinode(kind: U16, major: U16, minor: U16, nlink: U16, size: U32, addrs: seq<U32>)
  type Inode = d: Dinode | |d.addrs| == 13 witness Dinode(0, 0, 0, 0, 0, [0, 0, 0, 0, 0, 0, 0, 0, 0, 0, 0, 0, 0])

  const NO_ADDRS: seq<U32> := [0, 0, 0, 0, 0, 0, 0, 0, 0, 0, 0, 0, 0]
  const ZERO_INODE: Inode := Dinode(0, 0, 0, 0, 0, NO_ADDRS)

  function EncodeInode(d: Inode): (r: seq<Byte>)
    ensures |r| == 64
  {
    EncodeU16(d.kind) + EncodeU16(d.major) + EncodeU16(d.minor) + EncodeU16(d.nlink)
    + EncodeU32(d.size) + EncodeWords(d.addrs)
  }

  /** The n words of e from `at` on. */
  function DecodeWords(e: seq<Byte>, at: nat, n: nat): (r: seq<U32>)
    requires at + 4 * n <= |e|
    ensures |r| == n
    ensures forall k | 0 <= k < n :: r[k] == DecodeU32(e, at + 4 * k)
  {
    if n == 0 then [] else DecodeWords(e, at, n - 1) + [DecodeU32(e, at + 4 * (n - 1))]
  }

  function DecodeInode(e: seq<Byte>): Inode
    requires |e| == 64
  {
    Dinode(DecodeU16(e, 0), DecodeU16(e, 2), DecodeU16(e, 4), DecodeU16(e, 6),
           DecodeU32(e, 8), DecodeWords(e, 12, 13))
  }

  /** The 64-byte encoding of an inode loses nothing. */
  lemma InodeRoundTrip(d: Inode)
    ensures DecodeInode(EncodeInode(d)) == d
  {
    var e := EncodeInode(d);
    forall k | 0 <= k < 13 ensures DecodeU32(e, 12 + 4 * k) == d.addrs[k] {
      EncodeWordsAt(d.addrs, k);
      assert e[12 + 4 * k..16 + 4 * k] == EncodeWords(d.addrs)[4 * k..4 * k + 4];
      U32RoundTrip(d.addrs[k], e, 12 + 4 * k);
    }
    assert e[8..12] == EncodeU32(d.size);
    U32RoundTrip(d.size, e, 8);
    assert e[0..2] == EncodeU16(d.kind) && e[2..4] == EncodeU16(d.major);
    assert e[4..6] == EncodeU16(d.minor) && e[6..8] == EncodeU16(d.nlink);
  }

  /** Where the fields of an inode lie in its 64 bytes. */
  lemma InodeLayout(d: Inode, k: nat)
    requires k < 13
    ensures var e := EncodeInode(d);
      && e[0..2] == EncodeU16(d.kind) && e[2..4] == EncodeU16(d.major) && e[4..6] == EncodeU16(d.minor)
      && e[6..8] == EncodeU16(d.nlink) && e[8..12] == EncodeU32(d.size)
      && e[12 + 4 * k..16 + 4 * k] == EncodeU32(d.addrs[k])
  {
    var e := EncodeInode(d);
    hide EncodeU16, EncodeU32, EncodeWords;
    EncodeWordsAt(d.addrs, k);
    assert e[12 + 4 * k..16 + 4 * k] == EncodeWords(d.addrs)[4 * k..4 * k + 4];
  }

  // ---- inodes inside an image ----

  predicate WellSized(image: Image) {
    |image| == FS_SIZE
  }

  function InodeBlock(n: nat): nat {
    INODE_START + n / INODES_PER_BLOCK
  }

  function InodeOffset(n: nat): (r: nat)
    ensures r + 64 <= BLK_SIZE && r % 64 == 0
  {
    n % INODES_PER_BLOCK * 64
  }

  function GetInode(image: Image, n: nat): Inode
    requires WellSized(image) && n < INODE_SLOTS
  {
    DecodeInode(image[InodeBlock(n)][InodeOffset(n)..InodeOffset(n) + 64])
  }

  function PutInode(image: Image, n: nat, d: Inode): (r: Image)
    requires WellSized(image) && n < INODE_SLOTS
    ensures WellSized(r)
    ensures forall b | 0 <= b < FS_SIZE && !(INODE_START <= b < BMAP_START) :: r[b] == image[b]
  {
    image[InodeBlock(n) := Patch(image[InodeBlock(n)], InodeOffset(n), EncodeInode(d))]
  }

  /** The inode slots of an image behave as independent variables. */
  lemma GetPut(image: Image, n: nat, d: Inode, m: nat)
    requires WellSized(image) && n < INODE_SLOTS && m < INODE_SLOTS
    ensures GetInode(PutInode(image, n, d), m) == if m == n then d else GetInode(image, m)
  {
    var r := PutInode(image, n, d);
    if m == n {
      assert r[InodeBlock(n)][InodeOffset(n)..InodeOffset(n) + 64] == EncodeInode(d);
      InodeRoundTrip(d);
    } else if InodeBlock(m) == InodeBlock(n) {
      assert InodeOffset(m) + 64 <= InodeOffset(n) || InodeOffset(n) + 64 <= InodeOffset(m);
      assert r[InodeBlock(m)][InodeOffset(m)..InodeOffset(m) + 64]
          == image[InodeBlock(m)][InodeOffset(m)..InodeOffset(m) + 64];
    }
  }

  lemma PutTwice(image: Image, n: nat, d: Inode, e: Inode)
    requires WellSized(image) && n < INODE_SLOTS
    ensures PutInode(PutInode(image, n, d), n, e) == PutInode(image, n, e)
  {
    PatchTwice(image[InodeBlock(n)], InodeOffset(n), EncodeInode(d), EncodeInode(e));
  }

  /** What the inode sectors of an image say, as a table. */
  function Table(image: Image): (r: seq<Inode>)
    requires WellSized(image)
    ensures |r| == INODE_SLOTS
  {
    seq(INODE_SLOTS, n requires 0 <= n < INODE_SLOTS => GetInode(image, n))
  }

  lemma TablePut(image: Image, n: nat, d: Inode)
    requires WellSized(image) && n < INODE_SLOTS
    ensures Table(PutInode(image, n, d)) == Table(image)[n := d]
  {
    forall m | 0 <= m < INODE_SLOTS
      ensures Table(PutInode(image, n, d))[m] == Table(image)[n := d][m]
    {
      GetPut(image, n, d, m);
    }
  }

  lemma TableFrame(image: Image, image': Image)
    requires WellSized(image) && WellSized(image')
    requires forall b | INODE_START <= b < BMAP_START :: image[b] == image'[b]
    ensures Table(image) == Table(image')
  {
    forall m | 0 <= m < INODE_SLOTS ensures GetInode(image, m) == GetInode(image', m) {
      assert INODE_START <= InodeBlock(m) < BMAP_START;
    }
  }

  // ---- block numbers inside an indirect block ----

  function Slot(s: Sector, i: nat): U32
    requires i < N_INDIRECT
  {
    DecodeU32(s, 4 * i)
  }

  function SetSlot(s: Sector, i: nat, x: U32): Sector
    requires i < N_INDIRECT
  {
    Patch(s, 4 * i, EncodeU32(x))
  }

  lemma SlotSet(s: Sector, i: nat, x: U32, j: nat)
    requires i < N_INDIRECT && j < N_INDIRECT
    ensures Slot(SetSlot(s, i, x), j) == if i == j then x else Slot(s, j)
  {
    var r := SetSlot(s, i, x);
    if i == j {
      assert r[4 * i..4 * i + 4] == EncodeU32(x);
      U32RoundTrip(x, r, 4 * i);
    } else {
      assert forall k | 4 * j <= k < 4 * j + 4 :: r[k] == s[k];
    }
  }

  // ---- where things are on the disk ----

  /** The inodes are one packed array from sector 32 on: inode n starts 64 n bytes into it. */
  lemma InodesArePacked(n: nat)
    ensures 512 * InodeBlock(n) + InodeOffset(n) == 512 * 32 + 64 * n
  {
  }

  /** An indirect block is the array of its 128 block numbers, little-endian. */
  lemma IndirectIsArray(ws: seq<U32>, s: Sector, i: nat)
    requires |ws| == N_INDIRECT && s == EncodeWords(ws) && i < N_INDIRECT
    ensures Slot(s, i) == ws[i]
  {
    assert s[0..0 + 4 * |ws|] == s;
    WordRoundTrip(ws, s, 0, i);
  }
}

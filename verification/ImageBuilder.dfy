/** mkfs's FsBuilder: a file of sectors updated in place, proved against AppendSpec. */
module ImageBuilder {
  import opened LittleEndian
  import opened DiskLayout
  import opened AppendSpec

  /** A file after writing one sector; writing past the end leaves a hole of zeros. */
  function Written(file: Image, sec: nat, buf: Sector): (r: Image)
    ensures |r| == if sec < |file| then |file| else sec + 1
    ensures r[sec] == buf
    ensures forall i | 0 <= i < |r| && i != sec :: r[i] == if i < |file| then file[i] else Zeros(BLK_SIZE)
  {
    if sec < |file| then file[sec := buf] else file + seq(sec - |file|, _ => Zeros(BLK_SIZE)) + [buf]
  }

  /** size, n_blocks, n_inodes, n_log, log_start, inode_start, bmap_start */
  const SUPER_BLOCK: seq<U32> := [1000, 941, 200, 30, 2, 32, 58]

  function SuperSector(): Sector {
    Patch(Zeros(BLK_SIZE), 0, EncodeWords(SUPER_BLOCK))
  }

  function BlankSector(b: int): Sector {
    if b == 1 then SuperSector() else Zeros(BLK_SIZE)
  }

  function BlankImage(): (r: Image)
    ensures WellSized(r)
  {
    seq(FS_SIZE, b => BlankSector(b))
  }

  function BlankBuilder(): Builder {
    Builder(BlankImage(), 1, N_META)
  }

  /** Field k of the super block, as the kernel would read it from sector 1. */
  function SuperField(image: Image, k: nat): U32
    requires WellSized(image) && k < 7
  {
    DecodeU32(image[1], 4 * k)
  }

  /** The super block of a new image describes the layout in use; every other sector is zero. */
  lemma SuperBlockDescribes(n: nat, b: nat)
    requires n < INODE_SLOTS && b < FS_SIZE && b != 1
    ensures var size, nblocks, ninodes, nlog := SuperField(BlankImage(), 0), SuperField(BlankImage(), 1),
                                                SuperField(BlankImage(), 2), SuperField(BlankImage(), 3);
      var logStart, inodeStart, bmapStart := SuperField(BlankImage(), 4), SuperField(BlankImage(), 5),
                                             SuperField(BlankImage(), 6);
      && size == FS_SIZE && ninodes == 200 && nlog == 30 && logStart == 2 && inodeStart == logStart + nlog
      && bmapStart == inodeStart + ninodes / 8 + 1 == BMAP_START && bmapStart + 1 == N_META && nblocks == size - N_META
      && InodeBlock(n) == inodeStart + n / 8
    ensures BlankImage()[b] == Zeros(512)
  {
    assert BlankImage()[b] == BlankSector(b);
    hide BlankImage, SuperField, SuperSector;
    SuperWord(0);
    SuperWord(1);
    SuperWord(2);
    SuperWord(3);
    SuperWord(4);
    SuperWord(5);
    SuperWord(6);
  }

  lemma SuperWord(k: nat)
    requires k < 7
    ensures SuperField(BlankImage(), k) == SUPER_BLOCK[k]
  {
    var s := BlankImage()[1];
    assert s == BlankSector(1) == SuperSector();
    hide BlankImage, EncodeWords, DecodeU32;
    assert s[0..0 + 4 * |SUPER_BLOCK|] == EncodeWords(SUPER_BLOCK);
    WordRoundTrip(SUPER_BLOCK, s, 0, k);
  }

  // ---- bits ----

  /** Bit k of x. */
  predicate Bit(x: nat, k: nat) {
    if k == 0 then x % 2 == 1 else Bit(x / 2, k - 1)
  }

  /** x | 1 << k */
  function SetBit(x: nat, k: nat): nat {
    if k == 0 then (if x % 2 == 1 then x else x + 1) else 2 * SetBit(x / 2, k - 1) + x % 2
  }

  function Pow2(k: nat): nat {
    if k == 0 then 1 else 2 * Pow2(k - 1)
  }

  lemma {:induction false} SetBitBits(x: nat, k: nat, j: nat)
    ensures Bit(SetBit(x, k), j) <==> j == k || Bit(x, j)
  {
    if k == 0 || j == 0 {
    } else {
      SetBitBits(x / 2, k - 1, j - 1);
    }
  }

  lemma {:induction false} SetBitBound(x: nat, k: nat, n: nat)
    requires x < Pow2(n) && k < n
    ensures SetBit(x, k) < Pow2(n)
  {
    var half := Pow2(n - 1);
    assert Pow2(n) == 2 * half && x / 2 < half;
    if k == 0 {
    } else {
      SetBitBound(x / 2, k - 1, n - 1);
      assert SetBit(x / 2, k - 1) <= half - 1;
    }
  }

  predicate BitSet(s: Sector, i: nat)
    requires i < BLK_SIZE * 8
  {
    Bit(s[i / 8], i % 8)
  }

  function Mark(s: Sector, i: nat): Sector
    requires i < BLK_SIZE * 8
  {
    assert SetBit(s[i / 8], i % 8) < 0x100 by {
      assert Pow2(8) == 0x100;
      SetBitBound(s[i / 8], i % 8, 8);
    }
    s[i / 8 := SetBit(s[i / 8], i % 8)]
  }

  lemma MarkBits(s: Sector, i: nat, j: nat)
    requires i < BLK_SIZE * 8 && j < BLK_SIZE * 8
    ensures BitSet(Mark(s, i), j) <==> j == i || BitSet(s, j)
  {
    SetBitBits(s[i / 8], i % 8, j % 8);
    assert j == 8 * (j / 8) + j % 8 && i == 8 * (i / 8) + i % 8;
  }

  // ---- any inode number ----

  /** The sectors of a file past the image. */
  function Beyond(file: Image): Image {
    if |file| <= FS_SIZE then [] else file[FS_SIZE..]
  }

  function InodeIn(s: Sector, n: nat): Inode {
    DecodeInode(s[InodeOffset(n)..InodeOffset(n) + 64])
  }

  function WithInode(file: Image, n: nat, d: Inode): Image
    requires InodeBlock(n) < |file|
  {
    file[InodeBlock(n) := Patch(file[InodeBlock(n)], InodeOffset(n), EncodeInode(d))]
  }

  /** alloc_inode hands out numbers without a bound; the inode is in the inode sectors exactly below 208. */
  lemma InodeSectors(n: nat)
    ensures INODE_START <= InodeBlock(n) < BMAP_START <==> n < INODE_SLOTS
  {
  }

  /** Inode 208 shares its sector with the bitmap: written last, the bitmap makes it one of kind 0xFFFF. */
  lemma InodeUnderBitmap(s: Sector, used: nat)
    requires N_META <= used && forall i | 0 <= i < BLK_SIZE * 8 :: BitSet(s, i) <==> i < used
    ensures InodeBlock(INODE_SLOTS) == BMAP_START && InodeIn(s, INODE_SLOTS).kind == 0xFFFF
  {
    forall k | 0 <= k < 2 ensures s[k] == 0xFF {
      forall j | 0 <= j < 8 ensures Bit(s[k], j) {
        assert BitSet(s, 8 * k + j);
      }
      assert Pow2(8) == 0x100;
      AllBits(s[k], 8);
    }
    var e := s[0..64];
    assert InodeOffset(INODE_SLOTS) == 0 && e[0] == 0xFF && e[1] == 0xFF;
  }

  lemma {:induction false} AllBits(x: nat, n: nat)
    requires x < Pow2(n) && forall j | 0 <= j < n :: Bit(x, j)
    ensures x == Pow2(n) - 1
  {
    if n == 0 {
    } else {
      assert Bit(x, 0);
      forall j | 0 <= j < n - 1 ensures Bit(x / 2, j) {
        assert Bit(x, j + 1);
      }
      AllBits(x / 2, n - 1);
    }
  }

  // ---- the builder ----

  class FsBuilder {
    var file: Image
    var freeInode: nat
    var freeBlock: nat

    function State(): Builder
      reads this
    {
      Builder(file, freeInode, freeBlock)
    }

    /** Open the output file and clear its first FS_SIZE sectors; a longer file keeps the others. */
    constructor (existing: Image)
      ensures State() == Builder(BlankImage() + Beyond(existing), 1, N_META)
      ensures |existing| <= FS_SIZE ==> State() == BlankBuilder()
      ensures forall b | FS_SIZE <= b < |existing| :: b < |file| && file[b] == existing[b]
    {
      file := existing;
      freeInode := 1;
      freeBlock := N_META;
      new;
      for i := 0 to FS_SIZE
        invariant freeInode == 1 && freeBlock == N_META
        invariant |file| == if i <= |existing| then |existing| else i
        invariant forall b | 0 <= b < i :: file[b] == Zeros(BLK_SIZE)
        invariant forall b | i <= b < |existing| :: file[b] == existing[b]
      {
        WriteSect(i, Zeros(BLK_SIZE));
      }
      WriteSect(1, SuperSector());
      assert file == BlankImage() + Beyond(existing);
    }

    method WriteSect(sec: nat, buf: Sector)
      modifies this`file
      ensures file == Written(old(file), sec, buf)
    {
      if sec < |file| {
        file := file[sec := buf];
      } else {
        file := file + seq(sec - |file|, _ => Zeros(BLK_SIZE)) + [buf];
      }
    }

    method ReadSect(sec: nat) returns (status: Status, buf: Sector)
      ensures status == if sec < |file| then Ok else IoError
      ensures status == Ok ==> buf == file[sec]
    {
      if sec < |file| {
        return Ok, file[sec];
      }
      return IoError, Zeros(BLK_SIZE);
    }

    /** An inode number past the inode sectors names a place in the bitmap or in a data block, or past the end. */
    method WriteInode(inum: nat, d: Inode) returns (status: Status)
      modifies this`file
      ensures status == if InodeBlock(inum) < |old(file)| then Ok else IoError
      ensures file == if status == Ok then WithInode(old(file), inum, d) else old(file)
      ensures WellSized(old(file)) && inum < INODE_SLOTS ==> status == Ok && file == PutInode(old(file), inum, d)
    {
      var sect;
      status, sect := ReadSect(InodeBlock(inum));
      if status == Ok {
        WriteSect(InodeBlock(inum), Patch(sect, InodeOffset(inum), EncodeInode(d)));
      }
    }

    method ReadInode(inum: nat) returns (status: Status, d: Inode)
      ensures status == if InodeBlock(inum) < |file| then Ok else IoError
      ensures status == Ok ==> d == InodeIn(file[InodeBlock(inum)], inum)
      ensures WellSized(file) && inum < INODE_SLOTS ==> status == Ok && d == GetInode(file, inum)
    {
      var sect;
      status, sect := ReadSect(InodeBlock(inum));
      d := InodeIn(sect, inum);
    }

    method AllocateInode(kind: U16) returns (status: Status, inum: nat)
      modifies this
      ensures inum == old(freeInode) && freeInode == inum + 1 && freeBlock == old(freeBlock)
      ensures status == if InodeBlock(inum) < |old(file)| then Ok else IoError
      ensures file == if status == Ok then WithInode(old(file), inum, NewInode(kind)) else old(file)
      ensures WellSized(old(file)) && inum < INODE_SLOTS ==> status == Ok && State() == AllocInode(old(State()), kind)
    {
      inum := freeInode;
      freeInode := freeInode + 1;
      status := WriteInode(inum, NewInode(kind));
    }

    method TakeNextBlock() returns (r: nat)
      modifies this`freeBlock
      ensures r == old(freeBlock) && freeBlock == old(freeBlock) + 1
    {
      r := freeBlock;
      freeBlock := freeBlock + 1;
    }

    /** The sector that holds byte `off`, taking new blocks where the inode has none. */
    method LocateSector(addrs: seq<U32>, off: nat) returns (status: Status, newAddrs: seq<U32>, sect: nat)
      requires WellSized(file) && |addrs| == 13 && off / BLK_SIZE < MAX_FILE
      modifies this`file, this`freeBlock
      ensures WellSized(file) && |newAddrs| == 13
      ensures Located(status, Cursor(file, freeBlock, newAddrs, off), sect)
           == Locate(Cursor(old(file), old(freeBlock), addrs, off))
    {
      hide Slot, SetSlot;
      var fbn := off / BLK_SIZE;
      newAddrs := addrs;
      if fbn < N_DIRECT {
        if addrs[fbn] == 0 {
          var r := TakeNextBlock();
          newAddrs := addrs[fbn := AsU32(r)];
        }
        return Ok, newAddrs, newAddrs[fbn];
      }
      if addrs[N_DIRECT] == 0 {
        var r := TakeNextBlock();
        newAddrs := addrs[N_DIRECT := AsU32(r)];
      }
      var got, indirect := ReadSect(newAddrs[N_DIRECT]);
      if got != Ok {
        return got, newAddrs, 0;
      }
      if Slot(indirect, fbn - N_DIRECT) == 0 {
        var r := TakeNextBlock();
        SlotSet(indirect, fbn - N_DIRECT, AsU32(r), fbn - N_DIRECT);
        indirect := SetSlot(indirect, fbn - N_DIRECT, AsU32(r));
        WriteSect(newAddrs[N_DIRECT], indirect);
      }
      return Ok, newAddrs, Slot(indirect, fbn - N_DIRECT);
    }

    method AppendInode(inum: nat, bytes: seq<Byte>) returns (status: Status)
      requires WellSized(file) && inum < INODE_SLOTS
      modifies this
      ensures (status, State()) == Append(old(State()), inum, bytes)
    {
      hide GetInode, PutInode, Locate, Patch, InodeIn, WithInode, InodeBlock;
      ghost var c0 := Start(State(), inum);
      var _, d := ReadInode(inum);
      var addrs: seq<U32>, off: nat, data := d.addrs, d.size, bytes;
      while data != []
        invariant WellSized(file) && |addrs| == 13 && freeInode == old(freeInode)
        invariant Loop(Cursor(file, freeBlock, addrs, off), data) == Loop(c0, bytes)
        decreases |data|
      {
        ghost var c := Cursor(file, freeBlock, addrs, off);
        if off / BLK_SIZE >= MAX_FILE {
          return Panic;
        }
        var sect;
        status, addrs, sect := LocateSector(addrs, off);
        if status != Ok {
          return;
        }
        var nw := Chunk(off, data);
        var got, buf := ReadSect(sect);
        if got != Ok {
          return got;
        }
        WriteSect(sect, Patch(buf, off % BLK_SIZE, data[..nw]));
        assert Step(c, data) == (Ok, Cursor(file, freeBlock, addrs, off + nw));
        off := off + nw;
        data := data[nw..];
      }
      status := WriteInode(inum, WithData(d, off, addrs));
    }

    /** Write the bitmap: the bits of all blocks handed out so far. */
    method AllocBlock() returns (status: Status)
      requires WellSized(file)
      modifies this`file
      ensures status == if freeBlock < BLK_SIZE * 8 then Ok else Panic
      ensures status == Panic ==> file == old(file)
      ensures status == Ok ==>
        && WellSized(file)
        && (forall b | 0 <= b < FS_SIZE && b != BMAP_START :: file[b] == old(file)[b])
        && (forall i | 0 <= i < BLK_SIZE * 8 :: BitSet(file[BMAP_START], i) <==> i < freeBlock)
    {
      var used := freeBlock;
      if used >= BLK_SIZE * 8 {
        return Panic;
      }
      var buf: Sector := Zeros(BLK_SIZE);
      forall k | 0 <= k < 8 ensures !Bit(0, k) {
        ZeroBits(k);
      }
      for i := 0 to used
        invariant file == old(file)
        invariant forall j | 0 <= j < BLK_SIZE * 8 :: BitSet(buf, j) <==> j < i
      {
        forall j | 0 <= j < BLK_SIZE * 8 ensures BitSet(Mark(buf, i), j) <==> j < i + 1 {
          MarkBits(buf, i, j);
        }
        buf := Mark(buf, i);
      }
      WriteSect(BMAP_START, buf);
      return Ok;
    }
  }

  lemma {:induction false} ZeroBits(k: nat)
    ensures !Bit(0, k)
  {
    if k == 0 {
    } else {
      ZeroBits(k - 1);
    }
  }
}

/** Exactly when append_inode succeeds. */
module AppendCapacity {
  import opened LittleEndian
  import opened DiskLayout
  import opened AppendSpec
  import opened BlockOwnership
  import opened AppendCorrect
  import opened AppendRuns

  /** Blocks a file of this size takes, its indirect block included. */
  function BlocksFor(size: nat): nat {
    var n := (size + 511) / BLK_SIZE;
    if n > N_DIRECT then n + 1 else n
  }

  /** A step succeeds exactly when the blocks it needs are left, and takes exactly those. */
  lemma StepCapacity(table: seq<Inode>, inum: nat, c: Cursor, owner: map<nat, Place>, data: seq<Byte>)
    requires Ready(table, inum, c, owner) && data != [] && c.off / BLK_SIZE < MAX_FILE
    ensures var more := BlocksFor(c.off + Chunk(c.off, data)) - BlocksFor(c.off);
      && (Step(c, data).0 == Ok <==> c.free + more <= FS_SIZE)
      && (Step(c, data).0 == Ok ==> Step(c, data).1.free == c.free + more)
  {
    hide Struct, BlockAt, Fresh, Patch, Locate, ZeroTail;
    var before := Row(table, inum, c.addrs, c.off);
    ShapeOf(before, c.image, c.free, owner, inum);
    LocateTakes(before[inum], c);
    var fbn := c.off / BLK_SIZE;
    var size := c.off + Chunk(c.off, data);
    assert (size + 511) / BLK_SIZE == fbn + 1;
    assert (c.off + 511) / BLK_SIZE == if c.off % BLK_SIZE != 0 then fbn + 1 else fbn;
    hide Shape, Chunk, Inv;
  }

  /** The number of blocks that locating the byte at off takes. */
  function Takes(off: nat): nat {
    if off % BLK_SIZE != 0 then 0 else if off / BLK_SIZE == N_DIRECT then 2 else 1
  }

  lemma LocateTakes(d: Inode, c: Cursor)
    requires ValidCursor(c) && c.off / BLK_SIZE < MAX_FILE && d == WithData(d, c.off, c.addrs)
    requires Shape(d, c.image, c.free) && N_META <= c.free <= FS_SIZE && Fresh(c.image, c.free)
    ensures Locate(c).status == Ok && Locate(c).sect < FS_SIZE <==> c.free + Takes(c.off) <= FS_SIZE
    ensures Locate(c).status == Ok && Locate(c).sect < FS_SIZE ==> Locate(c).cursor.free == c.free + Takes(c.off)
  {
    hide Slot, SetSlot;
    Frontier(d, c.image, c.free);
    FrontierSlot(d, c.image, c.free);
    SlotsAreZero();
    if c.free < FS_SIZE {
      FreshSlot(c);
    }
    hide Shape, Fresh, BlockAt;
    if c.off / BLK_SIZE < N_DIRECT {
    } else if c.off % BLK_SIZE != 0 {
      assert Locate(c).cursor == c;
    } else if c.off / BLK_SIZE == N_DIRECT {
      assert c.addrs[N_DIRECT] == 0;
    } else {
      assert N_META <= c.addrs[N_DIRECT] < c.free;
    }
  }

  /** The address that Locate finds for the next byte is the block map's. */
  lemma FrontierSlot(d: Inode, image: Image, free: nat)
    requires WellSized(image) && Shape(d, image, free) && d.size / BLK_SIZE < MAX_FILE && free <= FS_SIZE
    ensures var s := d.size / BLK_SIZE;
      && (s < N_DIRECT ==> BlockAt(d, image, s) == d.addrs[s])
      && (s >= N_DIRECT && Used(d, SELF) ==>
            d.addrs[N_DIRECT] < FS_SIZE && BlockAt(d, image, s) == Slot(image[d.addrs[N_DIRECT]], s - N_DIRECT))
      && (Used(d, s) ==> N_META <= BlockAt(d, image, s) < free)
  {
    hide Slot;
    assert BlockAt(d, image, SELF) == d.addrs[N_DIRECT];
  }

  /** A fresh indirect block has only empty slots. */
  lemma FreshSlot(c: Cursor)
    requires ValidCursor(c) && Fresh(c.image, c.free) && c.free < FS_SIZE
    ensures c.image[c.free] == Zeros(BLK_SIZE)
  {
  }

  lemma {:induction false} LoopCapacity(table: seq<Inode>, inum: nat, c: Cursor, owner: map<nat, Place>, data: seq<Byte>)
    requires Ready(table, inum, c, owner)
    ensures Loop(c, data).0 == Ok <==>
      c.off + |data| <= MAX_FILE * BLK_SIZE && c.free + BlocksFor(c.off + |data|) - BlocksFor(c.off) <= FS_SIZE
    ensures Loop(c, data).0 == Ok ==> Loop(c, data).1.free == c.free + BlocksFor(c.off + |data|) - BlocksFor(c.off)
    ensures Loop(c, data).0 == Panic <==>
      c.off + |data| > MAX_FILE * BLK_SIZE && c.free + BlocksFor(MAX_FILE * BLK_SIZE) - BlocksFor(c.off) <= FS_SIZE
    decreases |data|
  {
    hide Inv, Content, Step, OthersKept;
    if data == [] {
      assert c.free <= FS_SIZE by { InvBounds(Row(table, inum, c.addrs, c.off), c.image, c.free, owner); }
    } else if c.off / BLK_SIZE < MAX_FILE {
      StepCapacity(table, inum, c, owner, data);
      var k := Chunk(c.off, data);
      assert c.off + k <= MAX_FILE * BLK_SIZE;
      assert BlocksFor(c.off + k) <= BlocksFor(c.off + |data|) && BlocksFor(c.off + k) <= BlocksFor(MAX_FILE * BLK_SIZE);
      NoPanicYet(c, data);
      if Step(c, data).0 == Ok {
        var owner1 := StepCorrect(table, inum, c, owner, data);
        hide BlocksFor, Chunk;
        LoopCapacity(table, inum, Step(c, data).1, owner1, data[k..]);
      }
    } else {
      assert c.free <= FS_SIZE by { InvBounds(Row(table, inum, c.addrs, c.off), c.image, c.free, owner); }
      assert Step(c, data).0 == Panic by { TooLong(c, data); }
    }
  }

  lemma InvBounds(table: seq<Inode>, image: Image, free: nat, owner: map<nat, Place>)
    requires Inv(table, image, free, owner)
    ensures free <= FS_SIZE
  {
  }

  lemma NoPanicYet(c: Cursor, data: seq<Byte>)
    requires ValidCursor(c) && c.off / BLK_SIZE < MAX_FILE
    ensures Step(c, data).0 != Panic
  {
  }

  lemma TooLong(c: Cursor, data: seq<Byte>)
    requires ValidCursor(c) && c.off / BLK_SIZE >= MAX_FILE
    ensures Step(c, data).0 == Panic
  {
  }

  /**
   * An append succeeds exactly when the file stays within MAX_FILE blocks and the blocks it needs are left; it
   * takes those. It panics exactly when it reaches that limit before the blocks run out.
   */
  lemma AppendSucceeds(b: Builder, owner: map<nat, Place>, inum: nat, data: seq<Byte>)
    requires Sound(b, owner) && 1 <= inum < b.freeInode
    ensures var size := GetInode(b.image, inum).size;
      Append(b, inum, data).0 == Ok <==>
        size + |data| <= MAX_FILE * BLK_SIZE && b.freeBlock + BlocksFor(size + |data|) - BlocksFor(size) <= FS_SIZE
    ensures var size := GetInode(b.image, inum).size;
      Append(b, inum, data).0 == Ok ==>
        Append(b, inum, data).1.freeBlock == b.freeBlock + BlocksFor(size + |data|) - BlocksFor(size)
    ensures var size := GetInode(b.image, inum).size;
      Append(b, inum, data).0 == Panic <==>
        size + |data| > MAX_FILE * BLK_SIZE && b.freeBlock + BlocksFor(MAX_FILE * BLK_SIZE) - BlocksFor(size) <= FS_SIZE
  {
    hide Inv, Covers, GetInode, PutInode, Loop, BlocksFor;
    StartReady(b, owner, inum);
    LoopCapacity(Table(b.image), inum, Start(b, inum), owner, data);
  }
}

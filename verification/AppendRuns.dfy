/** Whole calls of append_inode and alloc_inode: contents, and what a failed call leaves. */
module AppendRuns {
  import opened LittleEndian
  import opened DiskLayout
  import opened AppendSpec
  import opened BlockOwnership
  import opened AppendCorrect

  /** The stored inode d0 agrees with the loop's inode d on every block address d0 needs. */
  predicate Covers(d0: Inode, d: Inode) {
    && d0.size <= d.size
    && forall k | 0 <= k < 13 && k < NBlocks(d0) :: d0.addrs[k] != 0 && d.addrs[k] == d0.addrs[k]
  }

  lemma CoversContent(d0: Inode, d: Inode, image: Image)
    requires WellSized(image) && Small(d) && Covers(d0, d)
    ensures Small(d0) && Content(d0, image) == Content(d, image)[..d0.size]
  {
    forall i | 0 <= i < d0.size ensures ByteAt(d0, image, i) == ByteAt(d, image, i) {
      var s := i / BLK_SIZE;
      assert s < NBlocks(d0);
    }
  }

  lemma StepAddrs(c: Cursor, data: seq<Byte>, k: nat)
    requires ValidCursor(c) && k < 13 && c.addrs[k] != 0
    ensures Step(c, data).1.addrs[k] == c.addrs[k]
  {
    hide Slot, SetSlot;
  }

  /** What a call has done so far, whether it succeeds or not, as seen through the stored inode d0. */
  predicate StoredKept(table: seq<Inode>, inum: nat, d0: Inode, image: Image, image': Image)
    requires |table| == INODE_SLOTS
  {
    && WellSized(image) && WellSized(image') && image'[..N_META] == image[..N_META]
    && Small(d0) && Content(d0, image') == Content(d0, image)
    && forall n | 0 <= n < INODE_SLOTS && n != inum ::
         Small(table[n]) && Content(table[n], image') == Content(table[n], image)
  }

  /** An iteration that fails has touched nothing that a stored inode reads. */
  lemma FailedStep(table: seq<Inode>, inum: nat, c: Cursor, owner: map<nat, Place>, data: seq<Byte>, d0: Inode)
    requires Ready(table, inum, c, owner) && Covers(d0, WithData(table[inum], c.off, c.addrs))
    requires Step(c, data).0 != Ok
    ensures StoredKept(table, inum, d0, c.image, Step(c, data).1.image)
  {
    hide Slot, SetSlot, Struct, Fresh, Locate, BlockAt, ByteAt, Content, SameBytes, Covers;
    var before := Row(table, inum, c.addrs, c.off);
    var d := before[inum];
    var image' := Step(c, data).1.image;
    forall n | 0 <= n < INODE_SLOTS ensures Small(before[n]) && Content(before[n], image') == Content(before[n], c.image) {
      ShapeOf(before, c.image, c.free, owner, n);
      if c.off / BLK_SIZE < MAX_FILE {
        LocateKeepsBytes(before, inum, c, owner, n);
        SameContent(before[n], c.image, image');
      }
    }
    if c.off / BLK_SIZE < MAX_FILE {
      LocateMeta(before, inum, c, owner);
    }
    assert forall n | 0 <= n < INODE_SLOTS && n != inum :: before[n] == table[n];
    CoversContent(d0, d, c.image);
    CoversContent(d0, d, image');
  }

  /** From c to c' the loop has appended exactly `data` to the inode. */
  predicate Appended(table: seq<Inode>, inum: nat, c: Cursor, c': Cursor, data: seq<Byte>)
    requires |table| == INODE_SLOTS && inum < INODE_SLOTS && ValidCursor(c) && ValidCursor(c')
  {
    var d, d' := WithData(table[inum], c.off, c.addrs), WithData(table[inum], c'.off, c'.addrs);
    && c'.off == c.off + |data| && Small(d) && Small(d')
    && Content(d', c'.image) == Content(d, c.image) + data
  }

  lemma AppendedThen(table: seq<Inode>, inum: nat, c: Cursor, c1: Cursor, c2: Cursor, x: seq<Byte>, y: seq<Byte>)
    requires |table| == INODE_SLOTS && inum < INODE_SLOTS && ValidCursor(c) && ValidCursor(c1) && ValidCursor(c2)
    requires Appended(table, inum, c, c1, x) && Appended(table, inum, c1, c2, y)
    ensures Appended(table, inum, c, c2, x + y)
  {
    hide Content, WithData;
    var d := WithData(table[inum], c.off, c.addrs);
    assert Content(d, c.image) + x + y == Content(d, c.image) + (x + y);
  }

  lemma GoodStep(table: seq<Inode>, inum: nat, c: Cursor, owner: map<nat, Place>, data: seq<Byte>, d0: Inode)
    returns (owner': map<nat, Place>)
    requires Ready(table, inum, c, owner) && Covers(d0, WithData(table[inum], c.off, c.addrs))
    requires data != [] && Step(c, data).0 == Ok
    ensures var c' := Step(c, data).1;
      && Ready(table, inum, c', owner')
      && Covers(d0, WithData(table[inum], c'.off, c'.addrs))
      && StoredKept(table, inum, d0, c.image, c'.image)
      && Appended(table, inum, c, c', data[..Chunk(c.off, data)])
  {
    hide Slot, SetSlot, Struct, Fresh, Locate, BlockAt, ByteAt, Content, SameBytes, Step;
    owner' := StepCorrect(table, inum, c, owner, data);
    var c' := Step(c, data).1;
    var d, d' := WithData(table[inum], c.off, c.addrs), WithData(table[inum], c'.off, c'.addrs);
    forall k | 0 <= k < 13 && k < NBlocks(d0) ensures d'.addrs[k] == d0.addrs[k] {
      StepAddrs(c, data, k);
    }
    ShapeOf(Row(table, inum, c.addrs, c.off), c.image, c.free, owner, inum);
    ShapeOf(Row(table, inum, c'.addrs, c'.off), c'.image, c'.free, owner', inum);
    CoversContent(d0, d, c.image);
    CoversContent(d0, d', c'.image);
    hide Covers, Shape, Small;
    forall n | 0 <= n < INODE_SLOTS && n != inum
      ensures Small(table[n]) && Content(table[n], c'.image) == Content(table[n], c.image)
    {
      SameContent(table[n], c.image, c'.image);
    }
  }

  lemma NothingDone(table: seq<Inode>, inum: nat, c: Cursor, owner: map<nat, Place>, d0: Inode)
    requires Ready(table, inum, c, owner) && Covers(d0, WithData(table[inum], c.off, c.addrs))
    ensures StoredKept(table, inum, d0, c.image, c.image) && Appended(table, inum, c, c, [])
  {
    hide Struct, Content, Covers;
    var before := Row(table, inum, c.addrs, c.off);
    forall n | 0 <= n < INODE_SLOTS ensures Small(before[n]) {
      ShapeOf(before, c.image, c.free, owner, n);
    }
    assert forall n | 0 <= n < INODE_SLOTS && n != inum :: before[n] == table[n];
    CoversContent(d0, before[inum], c.image);
  }

  /** The whole loop: on success the data has been appended; in any case nothing stored has changed. */
  lemma {:induction false} LoopCorrect(table: seq<Inode>, inum: nat, c: Cursor, owner: map<nat, Place>,
                                       data: seq<Byte>, d0: Inode)
    returns (owner': map<nat, Place>)
    requires Ready(table, inum, c, owner) && Covers(d0, WithData(table[inum], c.off, c.addrs))
    ensures StoredKept(table, inum, d0, c.image, Loop(c, data).1.image)
    ensures Loop(c, data).0 == Ok ==>
      Ready(table, inum, Loop(c, data).1, owner') && Appended(table, inum, c, Loop(c, data).1, data)
    decreases |data|
  {
    hide Inv, Content, Step, Covers, Appended, WithData;
    owner' := owner;
    if data == [] {
      NothingDone(table, inum, c, owner, d0);
    } else if Step(c, data).0 != Ok {
      FailedStep(table, inum, c, owner, data, d0);
    } else {
      var k := Chunk(c.off, data);
      var c1 := Step(c, data).1;
      var owner1 := GoodStep(table, inum, c, owner, data, d0);
      owner' := LoopCorrect(table, inum, c1, owner1, data[k..], d0);
      if Loop(c, data).0 == Ok {
        AppendedThen(table, inum, c, c1, Loop(c, data).1, data[..k], data[k..]);
        assert data[..k] + data[k..] == data;
      }
    }
  }

  // ---- calls ----

  /** The state between two calls: the block map is sound and inodes not allocated yet are blank. */
  predicate Sound(b: Builder, owner: map<nat, Place>) {
    && WellSized(b.image) && 1 <= b.freeInode <= INODE_SLOTS
    && Inv(Table(b.image), b.image, b.freeBlock, owner)
    && forall n | 0 <= n < INODE_SLOTS && (n == 0 || n >= b.freeInode) :: GetInode(b.image, n) == ZERO_INODE
  }

  predicate Readable(image: Image) {
    WellSized(image) && forall n | 0 <= n < INODE_SLOTS :: Small(Table(image)[n])
  }

  /** The contents of all files, by inode number, read from the image alone. */
  function Files(image: Image): (r: seq<seq<Byte>>)
    requires Readable(image)
    ensures |r| == INODE_SLOTS
  {
    seq(INODE_SLOTS, n requires 0 <= n < INODE_SLOTS => Content(Table(image)[n], image))
  }

  lemma SoundReadable(b: Builder, owner: map<nat, Place>)
    requires Sound(b, owner)
    ensures Readable(b.image)
  {
    hide Table, Struct;
    forall n | 0 <= n < INODE_SLOTS ensures Small(Table(b.image)[n]) {
      ShapeOf(Table(b.image), b.image, b.freeBlock, owner, n);
    }
  }

  lemma StartReady(b: Builder, owner: map<nat, Place>, inum: nat)
    requires Sound(b, owner) && inum < INODE_SLOTS
    ensures Ready(Table(b.image), inum, Start(b, inum), owner)
    ensures Covers(Table(b.image)[inum], Table(b.image)[inum])
    ensures Table(b.image)[inum] == WithData(Table(b.image)[inum], Start(b, inum).off, Start(b, inum).addrs)
  {
    hide Struct, GetInode;
    var table := Table(b.image);
    var c := Start(b, inum);
    assert Row(table, inum, c.addrs, c.off) == table;
    ShapeOf(table, b.image, b.freeBlock, owner, inum);
    assert forall k | 0 <= k < 12 && k < NBlocks(table[inum]) :: BlockAt(table[inum], b.image, k) == table[inum].addrs[k];
    assert BlockAt(table[inum], b.image, SELF) == table[inum].addrs[N_DIRECT];
  }

  /** The block map and the contents speak of data sectors only. */
  lemma InvFrame(table: seq<Inode>, image: Image, image': Image, free: nat, owner: map<nat, Place>)
    requires Inv(table, image, free, owner) && WellSized(image') && image'[N_META..] == image[N_META..]
    ensures Inv(table, image', free, owner)
    ensures forall n | 0 <= n < INODE_SLOTS :: Small(table[n]) && Content(table[n], image') == Content(table[n], image)
  {
    hide Slot;
    forall b | N_META <= b < FS_SIZE ensures image'[b] == image[b] {
      assert image'[b] == image'[N_META..][b - N_META] && image[b] == image[N_META..][b - N_META];
    }
    forall n | 0 <= n < INODE_SLOTS
      ensures Shape(table[n], image, free)
      ensures forall s | 0 <= s <= SELF :: BlockAt(table[n], image', s) == BlockAt(table[n], image, s)
    {
      ShapeOf(table, image, free, owner, n);
      assert BlockAt(table[n], image, SELF) == table[n].addrs[N_DIRECT];
    }
    hide BlockAt;
    forall n | 0 <= n < INODE_SLOTS
      ensures Small(table[n]) && Content(table[n], image') == Content(table[n], image) && ZeroTail(table[n], image')
    {
      assert forall i | 0 <= i < BLK_SIZE * NBlocks(table[n]) :: Used(table[n], i / BLK_SIZE);
      assert SameBytes(table[n], image, image');
      SameContent(table[n], image, image');
    }
  }

  lemma MetaTable(image: Image, image': Image)
    requires WellSized(image) && WellSized(image') && image[..N_META] == image'[..N_META]
    ensures Table(image) == Table(image')
  {
    forall b | INODE_START <= b < BMAP_START ensures image[b] == image'[b] {
      assert image[b] == image[..N_META][b] == image'[b];
    }
    TableFrame(image, image');
  }

  /** A successful append adds the data to one file and keeps the state sound. */
  lemma AppendAppends(b: Builder, owner: map<nat, Place>, inum: nat, data: seq<Byte>) returns (owner': map<nat, Place>)
    requires Sound(b, owner) && 1 <= inum < b.freeInode
    requires Append(b, inum, data).0 == Ok
    ensures Sound(Append(b, inum, data).1, owner') && Readable(b.image) && Readable(Append(b, inum, data).1.image)
    ensures Files(Append(b, inum, data).1.image) == Files(b.image)[inum := Files(b.image)[inum] + data]
  {
    hide Inv, Content, Covers, GetInode, PutInode, Loop, StoredKept, Appended;
    var table := Table(b.image);
    var c := Start(b, inum);
    StartReady(b, owner, inum);
    owner' := LoopCorrect(table, inum, c, owner, data, table[inum]);
    var c' := Loop(c, data).1;
    Committed(b, owner, owner', inum, data, c');
  }

  lemma Committed(b: Builder, owner: map<nat, Place>, owner': map<nat, Place>, inum: nat, data: seq<Byte>, c': Cursor)
    requires Sound(b, owner) && 1 <= inum < b.freeInode
    requires Ready(Table(b.image), inum, c', owner') && Appended(Table(b.image), inum, Start(b, inum), c', data)
    requires StoredKept(Table(b.image), inum, Table(b.image)[inum], b.image, c'.image)
    ensures var d := WithData(GetInode(b.image, inum), c'.off, c'.addrs);
      var b' := Builder(PutInode(c'.image, inum, d), b.freeInode, c'.free);
      && Sound(b', owner') && Readable(b.image) && Readable(b'.image)
      && Files(b'.image) == Files(b.image)[inum := Files(b.image)[inum] + data]
  {
    hide Inv, Content, GetInode, PutInode;
    var table := Table(b.image);
    var d := WithData(GetInode(b.image, inum), c'.off, c'.addrs);
    var b' := Builder(PutInode(c'.image, inum, d), b.freeInode, c'.free);
    MetaTable(b.image, c'.image);
    TablePut(c'.image, inum, d);
    assert Table(b'.image) == Row(table, inum, c'.addrs, c'.off);
    assert b'.image[N_META..] == c'.image[N_META..];
    InvFrame(Table(b'.image), c'.image, b'.image, c'.free, owner');
    forall n | 0 <= n < INODE_SLOTS ensures GetInode(b'.image, n) == if n == inum then d else GetInode(b.image, n) {
      assert GetInode(b'.image, n) == Table(b'.image)[n];
      assert table[n] == GetInode(b.image, n);
    }
    SoundReadable(b, owner);
    SoundReadable(b', owner');
    StartReady(b, owner, inum);
    forall n | 0 <= n < INODE_SLOTS
      ensures Files(b'.image)[n] == if n == inum then Files(b.image)[n] + data else Files(b.image)[n]
    {
    }
  }

  /** An append that stops with an error leaves every inode and every file as it was. */
  lemma FailedAppend(b: Builder, owner: map<nat, Place>, inum: nat, data: seq<Byte>)
    requires Sound(b, owner) && 1 <= inum < b.freeInode
    requires Append(b, inum, data).0 != Ok
    ensures Table(Append(b, inum, data).1.image) == Table(b.image)
    ensures Readable(b.image) && Readable(Append(b, inum, data).1.image)
    ensures Files(Append(b, inum, data).1.image) == Files(b.image)
  {
    hide Inv, Content, Covers, GetInode, PutInode, Loop, Appended;
    var table := Table(b.image);
    StartReady(b, owner, inum);
    var owner' := LoopCorrect(table, inum, Start(b, inum), owner, data, table[inum]);
    var image' := Loop(Start(b, inum), data).1.image;
    MetaTable(b.image, image');
    SoundReadable(b, owner);
    assert forall n | 0 <= n < INODE_SLOTS :: Files(image')[n] == Files(b.image)[n];
  }

  /** Allocating an inode creates an empty file and touches no other. */
  lemma AllocAllocates(b: Builder, owner: map<nat, Place>, kind: U16)
    requires Sound(b, owner) && b.freeInode < INODE_SLOTS
    ensures Sound(AllocInode(b, kind), owner) && Readable(b.image) && Readable(AllocInode(b, kind).image)
    ensures Files(AllocInode(b, kind).image) == Files(b.image) && Files(b.image)[b.freeInode] == []
  {
    hide Struct, ByteAt, GetInode, PutInode;
    var d := NewInode(kind);
    var b' := AllocInode(b, kind);
    var table := Table(b.image);
    TablePut(b.image, b.freeInode, d);
    assert table[b.freeInode] == ZERO_INODE;
    BlankRow(table, b.image, b.freeBlock, owner, b.freeInode, d);
    assert b'.image[N_META..] == b.image[N_META..];
    InvFrame(Table(b'.image), b.image, b'.image, b.freeBlock, owner);
    forall n | 0 <= n < INODE_SLOTS ensures GetInode(b'.image, n) == if n == b.freeInode then d else GetInode(b.image, n) {
      assert GetInode(b'.image, n) == Table(b'.image)[n];
      assert table[n] == GetInode(b.image, n);
    }
    SoundReadable(b, owner);
    SoundReadable(b', owner);
    assert forall n | 0 <= n < INODE_SLOTS :: Files(b'.image)[n] == Files(b.image)[n];
  }

  /** An inode without data may be replaced by another without data. */
  lemma BlankRow(table: seq<Inode>, image: Image, free: nat, owner: map<nat, Place>, n: nat, d: Inode)
    requires Inv(table, image, free, owner) && n < INODE_SLOTS
    requires table[n].size == d.size == 0 && table[n].addrs == d.addrs
    ensures Inv(table[n := d], image, free, owner)
  {
    var table' := table[n := d];
    forall m, s | 0 <= m < INODE_SLOTS && 0 <= s <= SELF
      ensures Used(table'[m], s) == Used(table[m], s) && BlockAt(table'[m], image, s) == BlockAt(table[m], image, s)
    {
    }
    hide BlockAt, Used;
    forall m | 0 <= m < INODE_SLOTS ensures Shape(table'[m], image, free) && ZeroTail(table'[m], image) {
      assert Shape(table[m], image, free) && ZeroTail(table[m], image);
    }
  }

  // ---- the rest of an inode ----

  /** What an inode says beside its size and blocks. */
  datatype Header = Header(kind: U16, major: U16, minor: U16, nlink: U16)

  function Headers(image: Image): (r: seq<Header>)
    requires WellSized(image)
    ensures |r| == INODE_SLOTS
  {
    seq(INODE_SLOTS, n requires 0 <= n < INODE_SLOTS =>
      var d := Table(image)[n]; Header(d.kind, d.major, d.minor, d.nlink))
  }

  lemma SameHeaders(image: Image, image': Image)
    requires WellSized(image) && WellSized(image') && Table(image) == Table(image')
    ensures Headers(image) == Headers(image')
  {
  }

  /** Writing an inode back with another size and other blocks. */
  lemma DataKeepsHeaders(image: Image, n: nat, off: nat, addrs: seq<U32>)
    requires WellSized(image) && n < INODE_SLOTS && |addrs| == 13
    ensures Headers(PutInode(image, n, WithData(GetInode(image, n), off, addrs))) == Headers(image)
  {
    hide GetInode, PutInode;
    TablePut(image, n, WithData(GetInode(image, n), off, addrs));
  }

  /** No append, successful or not, changes the kind, device numbers or links of any inode. */
  lemma AppendHeaders(b: Builder, owner: map<nat, Place>, inum: nat, data: seq<Byte>)
    requires Sound(b, owner) && 1 <= inum < b.freeInode
    ensures Headers(Append(b, inum, data).1.image) == Headers(b.image)
  {
    hide Inv, Content, Covers, GetInode, PutInode, Loop, Appended;
    var table := Table(b.image);
    StartReady(b, owner, inum);
    var owner' := LoopCorrect(table, inum, Start(b, inum), owner, data, table[inum]);
    var c' := Loop(Start(b, inum), data).1;
    MetaTable(b.image, c'.image);
    SameHeaders(b.image, c'.image);
    assert GetInode(c'.image, inum) == Table(c'.image)[inum] == table[inum] == GetInode(b.image, inum);
    DataKeepsHeaders(c'.image, inum, c'.off, c'.addrs);
  }

  /** A new inode has the kind asked for, no device numbers and one link. */
  lemma AllocHeaders(b: Builder, kind: U16)
    requires WellSized(b.image) && b.freeInode < INODE_SLOTS
    ensures Headers(AllocInode(b, kind).image) == Headers(b.image)[b.freeInode := Header(kind, 0, 0, 1)]
  {
    hide GetInode, PutInode;
    TablePut(b.image, b.freeInode, NewInode(kind));
  }
}

/** The image does not depend on how a file's bytes are cut into appends. */
module AppendChunks {
  import opened LittleEndian
  import opened DiskLayout
  import opened AppendSpec
  import opened BlockOwnership
  import opened AppendCorrect
  import opened AppendRuns

  /** Inside one block, two pieces written one after the other are one piece. */
  lemma StepMerge(table: seq<Inode>, inum: nat, c: Cursor, owner: map<nat, Place>, x: seq<Byte>, y: seq<Byte>)
    requires Ready(table, inum, c, owner) && x != [] && y != [] && Step(c, x).0 == Ok
    requires c.off % BLK_SIZE + |x| < BLK_SIZE
    ensures Step(c, x + y) == Step(Step(c, x).1, y)
    ensures Chunk(c.off, x + y) == |x| + Chunk(c.off + |x|, y)
  {
    hide Slot, SetSlot, Struct, Fresh, ZeroTail, Patch, Locate, BlockAt;
    var l := Locate(c);
    var c1 := Step(c, x).1;
    var kx, ky := Chunk(c.off, x), Chunk(c.off + |x|, y);
    LocateMeta(Row(table, inum, c.addrs, c.off), inum, c, owner);
    assert kx == |x| && x[..kx] == x && c1 == Fill(l.cursor, l.sect, x);
    var owner1 := LocateStruct(table, inum, c, owner, c.off + |x|);
    Relocate(table, inum, c, owner1, x);
    assert (x + y)[..kx + ky] == x + y[..ky];
    var s := l.cursor.image[l.sect];
    var o := c.off % BLK_SIZE;
    PatchAdjacent(s, o, x, y[..ky]);
    assert Fill(c1, l.sect, y[..ky]) == Fill(l.cursor, l.sect, x + y[..ky]) by {
      assert c1.image[l.sect] == Patch(s, o, x) && c1.off % BLK_SIZE == o + |x|;
      assert l.cursor.image[l.sect := Patch(s, o, x)][l.sect := Patch(s, o, x + y[..ky])]
          == l.cursor.image[l.sect := Patch(s, o, x + y[..ky])];
    }
  }

  /** Once a sector has been found for a block and written to, it is found again. */
  lemma Relocate(table: seq<Inode>, inum: nat, c: Cursor, owner1: map<nat, Place>, x: seq<Byte>)
    requires ValidCursor(c) && |table| == INODE_SLOTS && inum < INODE_SLOTS && c.off / BLK_SIZE < MAX_FILE
    requires x != [] && c.off % BLK_SIZE + |x| < BLK_SIZE
    requires Locate(c).status == Ok && Locate(c).sect < FS_SIZE && Locate(c).cursor.off == c.off
    requires var l := Locate(c).cursor; var after := Row(table, inum, l.addrs, c.off + |x|);
      Struct(after, l.image, l.free, owner1) && BlockAt(after[inum], l.image, c.off / BLK_SIZE) == Locate(c).sect
    ensures var c1 := Fill(Locate(c).cursor, Locate(c).sect, x); Locate(c1) == Located(Ok, c1, Locate(c).sect)
  {
    hide Slot, SetSlot, Struct, Patch;
    var l := Locate(c);
    var after := Row(table, inum, l.cursor.addrs, c.off + |x|);
    var c1 := Fill(l.cursor, l.sect, x);
    assert Used(after[inum], c.off / BLK_SIZE) && c1.off / BLK_SIZE == c.off / BLK_SIZE;
    ShapeOf(after, l.cursor.image, l.cursor.free, owner1, inum);
    DataIsNotIndirect(after, l.cursor.image, l.cursor.free, owner1, inum, c.off / BLK_SIZE, inum);
    if c.off / BLK_SIZE >= N_DIRECT {
      assert BlockAt(after[inum], l.cursor.image, SELF) == l.cursor.addrs[N_DIRECT];
      assert Used(after[inum], SELF);
    }
  }

  /** Appending x + y is appending x and then y, in success and in failure. */
  lemma {:induction false} LoopSplit(table: seq<Inode>, inum: nat, c: Cursor, owner: map<nat, Place>,
                                     x: seq<Byte>, y: seq<Byte>)
    requires Ready(table, inum, c, owner)
    ensures Loop(c, x + y) == if Loop(c, x).0 != Ok then Loop(c, x) else Loop(Loop(c, x).1, y)
    decreases |x|
  {
    hide Inv, Content, Locate, Fill, OthersKept;
    if x == [] {
      assert x + y == y;
    } else if y == [] {
      assert x + y == x;
    } else if c.off % BLK_SIZE + |x| >= BLK_SIZE || Step(c, x).0 != Ok {
      var k := Chunk(c.off, x);
      if Step(c, x).0 != Ok {
        assert Step(c, x + y) == Step(c, x);
      } else {
        assert (x + y)[..k] == x[..k] && (x + y)[k..] == x[k..] + y && Chunk(c.off, x + y) == k;
        var owner1 := StepCorrect(table, inum, c, owner, x);
        LoopSplit(table, inum, Step(c, x).1, owner1, x[k..], y);
      }
    } else {
      var owner1 := StepCorrect(table, inum, c, owner, x);
      var c1 := Step(c, x).1;
      StepMerge(table, inum, c, owner, x, y);
      hide Step;
      var k := Chunk(c.off, x + y);
      assert (x + y)[k..] == y[Chunk(c1.off, y)..];
      assert Loop(c, x) == (Ok, c1) by { assert x[|x|..] == []; }
    }
  }

  /** The cursor with the metadata sectors of another image. */
  function Recase(c: Cursor, m: Image): (r: Cursor)
    requires ValidCursor(c) && WellSized(m)
    ensures ValidCursor(r)
  {
    Cursor(m[..N_META] + c.image[N_META..], c.free, c.addrs, c.off)
  }

  lemma RecaseWrite(image: Image, m: Image, b: nat, s: Sector)
    requires WellSized(image) && WellSized(m) && N_META <= b < FS_SIZE
    ensures m[..N_META] + image[b := s][N_META..] == (m[..N_META] + image[N_META..])[b := s]
    ensures (m[..N_META] + image[N_META..])[b] == image[b]
  {
  }

  lemma RecaseLocate(table: seq<Inode>, inum: nat, c: Cursor, owner: map<nat, Place>, m: Image)
    requires ValidCursor(c) && WellSized(m) && inum < INODE_SLOTS && c.off / BLK_SIZE < MAX_FILE
    requires Struct(table, c.image, c.free, owner)
    requires table[inum] == WithData(table[inum], c.off, c.addrs)
    ensures var l := Locate(c); Locate(Recase(c, m)) == Located(l.status, Recase(l.cursor, m), l.sect)
  {
    hide Slot, SetSlot, Struct;
    ShapeOf(table, c.image, c.free, owner, inum);
    Frontier(table[inum], c.image, c.free);
    hide Shape;
    if c.off / BLK_SIZE >= N_DIRECT {
      var ib := Ensure(c, N_DIRECT).addrs[N_DIRECT];
      assert N_META <= ib;
      if ib < FS_SIZE {
        var s := SetSlot(c.image[ib], c.off / BLK_SIZE - N_DIRECT, AsU32(Ensure(c, N_DIRECT).free));
        RecaseWrite(c.image, m, ib, s);
      }
    }
  }

  /** The loop neither reads nor writes a metadata sector. */
  lemma RecaseStep(table: seq<Inode>, inum: nat, c: Cursor, owner: map<nat, Place>, data: seq<Byte>, m: Image)
    requires Ready(table, inum, c, owner) && WellSized(m) && data != []
    ensures Step(Recase(c, m), data) == (Step(c, data).0, Recase(Step(c, data).1, m))
  {
    hide Slot, SetSlot, Struct, Locate, Patch;
    if c.off / BLK_SIZE < MAX_FILE {
      var before := Row(table, inum, c.addrs, c.off);
      RecaseLocate(before, inum, c, owner, m);
      var l := Locate(c);
      if l.status == Ok && l.sect < FS_SIZE {
        var piece := data[..Chunk(c.off, data)];
        var owner1 := LocateStruct(table, inum, c, owner, c.off + |piece|);
        LocateMeta(before, inum, c, owner);
        var after := Row(table, inum, l.cursor.addrs, c.off + |piece|);
        ShapeOf(after, l.cursor.image, l.cursor.free, owner1, inum);
        assert Used(after[inum], c.off / BLK_SIZE);
        RecaseWrite(l.cursor.image, m, l.sect, Patch(l.cursor.image[l.sect], c.off % BLK_SIZE, piece));
      }
    }
  }

  lemma {:induction false} RecaseLoop(table: seq<Inode>, inum: nat, c: Cursor, owner: map<nat, Place>,
                                      data: seq<Byte>, m: Image)
    requires Ready(table, inum, c, owner) && WellSized(m)
    ensures Loop(Recase(c, m), data) == (Loop(c, data).0, Recase(Loop(c, data).1, m))
    decreases |data|
  {
    hide Inv, Content, Step, OthersKept;
    if data == [] {
    } else {
      RecaseStep(table, inum, c, owner, data, m);
      if Step(c, data).0 == Ok {
        var owner1 := StepCorrect(table, inum, c, owner, data);
        RecaseLoop(table, inum, Step(c, data).1, owner1, data[Chunk(c.off, data)..], m);
      }
    }
  }

  /** Two appends to one inode leave exactly the image, and the counters, of one append of both pieces. */
  lemma AppendInPieces(b: Builder, owner: map<nat, Place>, inum: nat, x: seq<Byte>, y: seq<Byte>)
    requires Sound(b, owner) && 1 <= inum < b.freeInode
    requires Append(b, inum, x + y).0 == Ok
    ensures Append(b, inum, x).0 == Ok
    ensures Append(Append(b, inum, x).1, inum, y) == Append(b, inum, x + y)
  {
    hide Inv, Content, Covers, GetInode, PutInode, Loop, Appended;
    var table := Table(b.image);
    var c := Start(b, inum);
    StartReady(b, owner, inum);
    LoopSplit(table, inum, c, owner, x, y);
    var owner1 := LoopCorrect(table, inum, c, owner, x, table[inum]);
    var c1 := Loop(c, x).1;
    var d1 := WithData(GetInode(b.image, inum), c1.off, c1.addrs);
    var b1 := Append(b, inum, x).1;
    GetPut(c1.image, inum, d1, inum);
    assert Start(b1, inum) == Recase(c1, b1.image);
    RecaseLoop(table, inum, c1, owner1, y, b1.image);
    var c2 := Loop(c1, y).1;
    LoopMeta(table, inum, c1, owner1, y);
    var d2 := WithData(GetInode(b.image, inum), c2.off, c2.addrs);
    PutMeta(c1.image, c2.image, inum, d1);
    PutTwice(c2.image, inum, d1, d2);
  }

  lemma LoopMeta(table: seq<Inode>, inum: nat, c: Cursor, owner: map<nat, Place>, data: seq<Byte>)
    requires Ready(table, inum, c, owner)
    ensures Loop(c, data).1.image[..N_META] == c.image[..N_META]
  {
    RecaseLoop(table, inum, c, owner, data, c.image);
    assert c.image[..N_META] + c.image[N_META..] == c.image;
  }

  lemma PutMeta(image: Image, image': Image, inum: nat, d: Inode)
    requires WellSized(image) && WellSized(image') && inum < INODE_SLOTS && image[..N_META] == image'[..N_META]
    ensures PutInode(image, inum, d)[..N_META] + image'[N_META..] == PutInode(image', inum, d)
  {
    var r, r' := PutInode(image, inum, d), PutInode(image', inum, d);
    forall b | 0 <= b < FS_SIZE ensures (r[..N_META] + image'[N_META..])[b] == r'[b] {
      if b < N_META {
        assert image[b] == image[..N_META][b] == image'[b];
      }
    }
  }
}

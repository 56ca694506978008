/** One iteration of append_inode keeps the block map and appends one piece. */
module AppendCorrect {
  import opened LittleEndian
  import opened DiskLayout
  import opened AppendSpec
  import opened BlockOwnership

  /** The table with the loop's own copy of one inode in place of the stored one. */
  function Row(table: seq<Inode>, inum: nat, addrs: seq<U32>, size: nat): (r: seq<Inode>)
    requires |table| == INODE_SLOTS && inum < INODE_SLOTS && |addrs| == 13
    ensures |r| == INODE_SLOTS
  {
    table[inum := WithData(table[inum], size, addrs)]
  }

  predicate Ready(table: seq<Inode>, inum: nat, c: Cursor, owner: map<nat, Place>) {
    && ValidCursor(c) && |table| == INODE_SLOTS && inum < INODE_SLOTS && c.off <= MAX_FILE * BLK_SIZE
    && Inv(Row(table, inum, c.addrs, c.off), c.image, c.free, owner)
  }

  /** The slot of the next byte is empty exactly at a block boundary. */
  lemma Frontier(d: Inode, image: Image, free: nat)
    requires WellSized(image) && Shape(d, image, free) && d.size / BLK_SIZE < MAX_FILE
    ensures Used(d, d.size / BLK_SIZE) <==> d.size % BLK_SIZE != 0
    ensures BlockAt(d, image, d.size / BLK_SIZE) != 0 <==> d.size % BLK_SIZE != 0
    ensures Used(d, SELF) <==> d.size > N_DIRECT * BLK_SIZE
    ensures if Used(d, SELF) then N_META <= d.addrs[N_DIRECT] < free else d.addrs[N_DIRECT] == 0
  {
    assert BlockAt(d, image, SELF) == d.addrs[N_DIRECT];
  }

  lemma ShapeOf(table: seq<Inode>, image: Image, free: nat, owner: map<nat, Place>, n: nat)
    requires Struct(table, image, free, owner) && n < INODE_SLOTS
    ensures WellSized(image) && N_META <= free <= FS_SIZE && |table| == INODE_SLOTS
    ensures Shape(table[n], image, free)
  {
  }

  /** Locating the sector of the next byte keeps the block map, for a size that reaches into that sector. */
  lemma LocateStruct(table: seq<Inode>, inum: nat, c: Cursor, owner: map<nat, Place>, size: nat)
    returns (owner': map<nat, Place>)
    requires Ready(table, inum, c, owner)
    requires c.off / BLK_SIZE < MAX_FILE && c.off < size <= (c.off / BLK_SIZE + 1) * BLK_SIZE
    requires Locate(c).status == Ok && Locate(c).sect < FS_SIZE
    ensures var l := Locate(c).cursor;
      && Struct(Row(table, inum, l.addrs, size), l.image, l.free, owner')
      && Fresh(l.image, l.free)
      && BlockAt(WithData(table[inum], size, l.addrs), l.image, c.off / BLK_SIZE) == Locate(c).sect
  {
    var fbn := c.off / BLK_SIZE;
    var before := Row(table, inum, c.addrs, c.off);
    var d' := WithData(table[inum], size, Locate(c).cursor.addrs);
    assert Row(table, inum, Locate(c).cursor.addrs, size) == before[inum := d'];
    assert before[inum] == WithData(table[inum], c.off, c.addrs);
    if fbn < N_DIRECT {
      owner' := LocateDirect(before, inum, c, owner, d');
    } else {
      owner' := LocateIndirect(before, inum, c, owner, d');
    }
  }

  lemma LocateDirect(table: seq<Inode>, inum: nat, c: Cursor, owner: map<nat, Place>, d': Inode)
    returns (owner': map<nat, Place>)
    requires ValidCursor(c) && inum < INODE_SLOTS && c.off / BLK_SIZE < N_DIRECT
    requires Struct(table, c.image, c.free, owner) && Fresh(c.image, c.free)
    requires table[inum] == WithData(table[inum], c.off, c.addrs)
    requires Locate(c).sect < FS_SIZE
    requires c.off < d'.size <= (c.off / BLK_SIZE + 1) * BLK_SIZE && d'.addrs == Locate(c).cursor.addrs
    ensures var l := Locate(c).cursor;
      && Struct(table[inum := d'], l.image, l.free, owner')
      && Fresh(l.image, l.free)
      && BlockAt(d', l.image, c.off / BLK_SIZE) == Locate(c).sect
  {
    hide Slot, Struct;
    var fbn := c.off / BLK_SIZE;
    ShapeOf(table, c.image, c.free, owner, inum);
    Frontier(table[inum], c.image, c.free);
    var ns := if c.off % BLK_SIZE != 0 then [] else [fbn];
    var d := table[inum];
    hide Shape;
    assert Locate(c).cursor.image == c.image && Locate(c).cursor.free == c.free + |ns|;
    forall s | 0 <= s <= SELF && s !in ns
      ensures Used(d', s) == Used(d, s) && BlockAt(d', c.image, s) == BlockAt(d, c.image, s)
    {
      assert s < 13 && s != fbn ==> d'.addrs[s] == d.addrs[s];
    }
    assert forall i | 0 <= i < |ns| ::
      ns[i] <= SELF && !Used(d, ns[i]) && Used(d', ns[i]) && BlockAt(d', c.image, ns[i]) == c.free + i;
    GrowStruct(table, c.image, c.free, owner, inum, d', c.image, ns);
    owner' := GrownOwner(owner, c.free, inum, ns);
  }

  lemma LocateIndirect(table: seq<Inode>, inum: nat, c: Cursor, owner: map<nat, Place>, d': Inode)
    returns (owner': map<nat, Place>)
    requires ValidCursor(c) && inum < INODE_SLOTS && N_DIRECT <= c.off / BLK_SIZE < MAX_FILE
    requires Struct(table, c.image, c.free, owner) && Fresh(c.image, c.free)
    requires table[inum] == WithData(table[inum], c.off, c.addrs)
    requires Locate(c).status == Ok && Locate(c).sect < FS_SIZE
    requires c.off < d'.size <= (c.off / BLK_SIZE + 1) * BLK_SIZE && d'.addrs == Locate(c).cursor.addrs
    ensures var l := Locate(c).cursor;
      && Struct(table[inum := d'], l.image, l.free, owner')
      && Fresh(l.image, l.free)
      && BlockAt(d', l.image, c.off / BLK_SIZE) == Locate(c).sect
  {
    hide Slot, SetSlot, Struct, BlockAt, Locate, Fresh;
    ShapeOf(table, c.image, c.free, owner, inum);
    LocateSlots(c);
    NewSlots(table[inum], d', c);
    SlotsKept(table[inum], d', c);
    var ns := IndirectSlots(c.off);
    OthersKeepIndirect(table, c.image, c.free, owner, inum, Locate(c).cursor.image, d'.addrs[N_DIRECT]);
    hide Used, Shape;
    GrowStruct(table, c.image, c.free, owner, inum, d', Locate(c).cursor.image, ns);
    owner' := GrownOwner(owner, c.free, inum, ns);
  }

  /** The slots that get a block when the byte at off is located through the indirect block. */
  function IndirectSlots(off: nat): seq<nat> {
    var fbn := off / BLK_SIZE;
    if off % BLK_SIZE != 0 then [] else if fbn == N_DIRECT then [SELF, fbn] else [fbn]
  }

  lemma NewSlots(d: Inode, d': Inode, c: Cursor)
    requires ValidCursor(c) && N_DIRECT <= c.off / BLK_SIZE < MAX_FILE
    requires Shape(d, c.image, c.free) && N_META <= c.free <= FS_SIZE && Fresh(c.image, c.free)
    requires d == WithData(d, c.off, c.addrs)
    requires Locate(c).status == Ok
    requires c.off < d'.size <= (c.off / BLK_SIZE + 1) * BLK_SIZE && d'.addrs == Locate(c).cursor.addrs
    ensures var l := Locate(c).cursor; var ns := IndirectSlots(c.off);
      && l.free == c.free + |ns| && Fresh(l.image, l.free)
      && BlockAt(d', l.image, c.off / BLK_SIZE) == Locate(c).sect
      && (ns == [] || Locate(c).sect == c.free + |ns| - 1)
      && (d'.addrs[N_DIRECT] >= c.free || (Used(d, SELF) && d'.addrs[N_DIRECT] == d.addrs[N_DIRECT]))
      && forall i | 0 <= i < |ns| ::
           ns[i] <= SELF && !Used(d, ns[i]) && Used(d', ns[i]) && BlockAt(d', l.image, ns[i]) == c.free + i
  {
    hide Slot, SetSlot;
    Frontier(d, c.image, c.free);
    hide Shape;
    LocateSlots(c);
    SlotsAreZero();
    var l := Locate(c).cursor;
    if c.off % BLK_SIZE != 0 {
      assert l == c;
    } else if c.off / BLK_SIZE == N_DIRECT {
      assert c.addrs[N_DIRECT] == 0 && l.free == c.free + 2 && l.addrs[N_DIRECT] == c.free;
    } else {
      assert c.addrs[N_DIRECT] != 0 && l.free == c.free + 1;
    }
  }

  lemma UsedKept(d: Inode, d': Inode, s: nat)
    requires s <= SELF && N_DIRECT <= d.size / BLK_SIZE < MAX_FILE
    requires d.size < d'.size <= (d.size / BLK_SIZE + 1) * BLK_SIZE && s !in IndirectSlots(d.size)
    ensures Used(d', s) == Used(d, s)
  {
  }

  lemma SlotKept(d: Inode, d': Inode, c: Cursor, s: nat)
    requires ValidCursor(c) && N_DIRECT <= c.off / BLK_SIZE < MAX_FILE
    requires Shape(d, c.image, c.free) && N_META <= c.free <= FS_SIZE && Fresh(c.image, c.free)
    requires d == WithData(d, c.off, c.addrs) && d'.addrs == Locate(c).cursor.addrs
    requires Locate(c).status == Ok && s <= SELF && s !in IndirectSlots(c.off)
    ensures BlockAt(d', Locate(c).cursor.image, s) == BlockAt(d, c.image, s)
  {
    hide Slot, SetSlot, Locate;
    Frontier(d, c.image, c.free);
    LocateSlots(c);
    LocateAddrs(c);
    hide Shape;
    if s < N_DIRECT {
      assert d.addrs[s] == d'.addrs[s];
    } else if d.addrs[N_DIRECT] == 0 {
      assert c.off == N_DIRECT * BLK_SIZE && d'.addrs[N_DIRECT] == c.free && s < SELF && s != N_DIRECT;
      assert c.image[c.free] == Zeros(BLK_SIZE);
      SlotsAreZero();
    } else if s < SELF {
      assert d'.addrs[N_DIRECT] == d.addrs[N_DIRECT];
      if s == c.off / BLK_SIZE {
        FullSlot(c);
      }
    }
  }

  /** Inside a partly filled block Locate changes nothing. */
  lemma FullSlot(c: Cursor)
    requires ValidCursor(c) && N_DIRECT <= c.off / BLK_SIZE < MAX_FILE
    requires 0 < c.addrs[N_DIRECT] < FS_SIZE && Slot(c.image[c.addrs[N_DIRECT]], c.off / BLK_SIZE - N_DIRECT) != 0
    ensures Locate(c).cursor == c
  {
    hide Slot;
  }

  lemma SlotsKept(d: Inode, d': Inode, c: Cursor)
    requires ValidCursor(c) && N_DIRECT <= c.off / BLK_SIZE < MAX_FILE
    requires Shape(d, c.image, c.free) && N_META <= c.free <= FS_SIZE && Fresh(c.image, c.free)
    requires d == WithData(d, c.off, c.addrs)
    requires Locate(c).status == Ok
    requires c.off < d'.size <= (c.off / BLK_SIZE + 1) * BLK_SIZE && d'.addrs == Locate(c).cursor.addrs
    ensures forall s | 0 <= s <= SELF && s !in IndirectSlots(c.off) ::
              Used(d', s) == Used(d, s) && BlockAt(d', Locate(c).cursor.image, s) == BlockAt(d, c.image, s)
  {
    hide Locate, BlockAt, Used, Shape, Fresh, IndirectSlots;
    forall s | 0 <= s <= SELF && s !in IndirectSlots(c.off)
      ensures Used(d', s) == Used(d, s) && BlockAt(d', Locate(c).cursor.image, s) == BlockAt(d, c.image, s)
    {
      UsedKept(d, d', s);
      SlotKept(d, d', c, s);
    }
  }

  lemma SlotsAreZero()
    ensures forall i | 0 <= i < N_INDIRECT :: Slot(Zeros(BLK_SIZE), i) == 0
  {
  }

  lemma LocateAddrs(c: Cursor)
    requires ValidCursor(c) && N_DIRECT <= c.off / BLK_SIZE < MAX_FILE
    ensures Locate(c).cursor.addrs == Ensure(c, N_DIRECT).addrs
  {
  }

  /** In the indirect case, Locate changes no slot of the indirect block but the one it looks for. */
  lemma LocateSlots(c: Cursor)
    requires ValidCursor(c) && N_DIRECT <= c.off / BLK_SIZE < MAX_FILE
    requires Locate(c).status == Ok
    ensures var ib := Locate(c).cursor.addrs[N_DIRECT];
      && ib < FS_SIZE
      && Slot(Locate(c).cursor.image[ib], c.off / BLK_SIZE - N_DIRECT) == Locate(c).sect
      && (forall j | 0 <= j < N_INDIRECT && j != c.off / BLK_SIZE - N_DIRECT ::
            Slot(Locate(c).cursor.image[ib], j) == Slot(c.image[ib], j))
      && (forall b | 0 <= b < FS_SIZE && b != ib :: Locate(c).cursor.image[b] == c.image[b])
  {
    var c1 := Ensure(c, N_DIRECT);
    var ib := c1.addrs[N_DIRECT];
    var i := c.off / BLK_SIZE - N_DIRECT;
    forall j | 0 <= j < N_INDIRECT
      ensures Slot(SetSlot(c.image[ib], i, AsU32(c1.free)), j) == if i == j then AsU32(c1.free) else Slot(c.image[ib], j)
    {
      SlotSet(c.image[ib], i, AsU32(c1.free), j);
    }
  }

  /** A change to one inode's indirect block, or to a fresh block, moves no slot of another inode. */
  lemma OthersKeepIndirect(table: seq<Inode>, image: Image, free: nat, owner: map<nat, Place>,
                           inum: nat, image': Image, ib: nat)
    requires Struct(table, image, free, owner) && inum < INODE_SLOTS && WellSized(image')
    requires ib >= free || (Used(table[inum], SELF) && ib == table[inum].addrs[N_DIRECT])
    requires forall b | 0 <= b < FS_SIZE && b != ib :: image'[b] == image[b]
    ensures forall n, s | 0 <= n < INODE_SLOTS && n != inum && 0 <= s <= SELF ::
              BlockAt(table[n], image', s) == BlockAt(table[n], image, s)
  {
    forall n, s | 0 <= n < INODE_SLOTS && n != inum && 0 <= s <= SELF
      ensures BlockAt(table[n], image', s) == BlockAt(table[n], image, s)
    {
      assert Shape(table[n], image, free) && Shape(table[inum], image, free);
      assert BlockAt(table[n], image, SELF) == table[n].addrs[N_DIRECT];
      assert BlockAt(table[inum], image, SELF) == table[inum].addrs[N_DIRECT];
      if Used(table[n], SELF) {
        assert owner[BlockAt(table[n], image, SELF)] == Place(n, SELF);
      }
      if Used(table[inum], SELF) {
        assert owner[BlockAt(table[inum], image, SELF)] == Place(inum, SELF);
      }
    }
  }

  // ---- bytes ----

  /** All bytes of all blocks of an inode, also those past its size, read the same. */
  predicate SameBytes(d: Inode, image: Image, image': Image)
    requires WellSized(image) && WellSized(image') && Small(d)
  {
    forall i | 0 <= i < BLK_SIZE * NBlocks(d) :: ByteAt(d, image', i) == ByteAt(d, image, i)
  }

  /** Locate writes only to put a block number into an empty slot of the indirect block. */
  lemma LocateChanges(c: Cursor)
    requires ValidCursor(c) && c.off / BLK_SIZE < MAX_FILE && c.free < 0x1_0000_0000
    requires Locate(c).cursor.image != c.image
    ensures N_DIRECT <= c.off / BLK_SIZE && Locate(c).status == Ok
    ensures Locate(c).cursor.addrs[N_DIRECT] == if c.addrs[N_DIRECT] == 0 then c.free else c.addrs[N_DIRECT]
    ensures 0 < c.addrs[N_DIRECT] < FS_SIZE ==> Slot(c.image[c.addrs[N_DIRECT]], c.off / BLK_SIZE - N_DIRECT) == 0
  {
    hide Slot, SetSlot;
  }

  lemma LocateKeepsAddr(c: Cursor, k: nat)
    requires ValidCursor(c) && c.off / BLK_SIZE < MAX_FILE && k < 13 && c.addrs[k] != 0
    ensures Locate(c).cursor.addrs[k] == c.addrs[k]
  {
    hide Slot, SetSlot;
  }

  /** Locating a sector, successfully or not, changes no byte of any inode. */
  lemma LocateKeepsBytes(table: seq<Inode>, inum: nat, c: Cursor, owner: map<nat, Place>, n: nat)
    requires ValidCursor(c) && inum < INODE_SLOTS && n < INODE_SLOTS && c.off / BLK_SIZE < MAX_FILE
    requires Struct(table, c.image, c.free, owner) && Fresh(c.image, c.free)
    requires table[inum] == WithData(table[inum], c.off, c.addrs)
    ensures Small(table[n]) && SameBytes(table[n], c.image, Locate(c).cursor.image)
  {
    hide Slot, SetSlot, Struct, Locate, Fresh;
    ShapeOf(table, c.image, c.free, owner, n);
    var d := table[n];
    var l := Locate(c).cursor;
    ShapeOf(table, c.image, c.free, owner, inum);
    Frontier(table[inum], c.image, c.free);
    if l.image != c.image {
      LocateChanges(c);
      LocateSlots(c);
      var ib := l.addrs[N_DIRECT];
      OthersKeepIndirect(table, c.image, c.free, owner, inum, l.image, ib);
      forall i | 0 <= i < BLK_SIZE * NBlocks(d) ensures ByteAt(d, l.image, i) == ByteAt(d, c.image, i) {
        var s := i / BLK_SIZE;
        assert Used(d, s);
        DataIsNotIndirect(table, c.image, c.free, owner, n, s, inum);
        assert N_META <= BlockAt(d, c.image, s) < c.free;
        assert BlockAt(d, l.image, s) == BlockAt(d, c.image, s);
      }
    }
  }

  /** At a block boundary the sector located is a fresh one, all zero. */
  lemma LocateFresh(table: seq<Inode>, inum: nat, c: Cursor, owner: map<nat, Place>)
    requires ValidCursor(c) && inum < INODE_SLOTS && c.off / BLK_SIZE < MAX_FILE && c.off % BLK_SIZE == 0
    requires Struct(table, c.image, c.free, owner) && Fresh(c.image, c.free)
    requires table[inum] == WithData(table[inum], c.off, c.addrs)
    requires Locate(c).status == Ok && Locate(c).sect < FS_SIZE
    ensures Locate(c).cursor.image[Locate(c).sect] == Zeros(BLK_SIZE)
  {
    hide Slot, SetSlot, Struct;
    ShapeOf(table, c.image, c.free, owner, inum);
    Frontier(table[inum], c.image, c.free);
    SlotsAreZero();
  }

  /** Filling part of a data block writes exactly the bytes given, into one inode. */
  lemma FillBytes(table: seq<Inode>, inum: nat, c: Cursor, owner: map<nat, Place>, sect: nat, piece: seq<Byte>, n: nat)
    requires ValidCursor(c) && inum < INODE_SLOTS && n < INODE_SLOTS && sect < FS_SIZE
    requires Struct(table, c.image, c.free, owner)
    requires c.off % BLK_SIZE + |piece| <= BLK_SIZE && c.off / BLK_SIZE < MAX_FILE
    requires Used(table[inum], c.off / BLK_SIZE) && BlockAt(table[inum], c.image, c.off / BLK_SIZE) == sect
    ensures Struct(table, Fill(c, sect, piece).image, c.free, owner)
    ensures Small(table[n])
    ensures n != inum ==> SameBytes(table[n], c.image, Fill(c, sect, piece).image)
    ensures n == inum ==> forall i | 0 <= i < BLK_SIZE * NBlocks(table[n]) ::
              ByteAt(table[n], Fill(c, sect, piece).image, i)
              == if c.off <= i < c.off + |piece| then piece[i - c.off] else ByteAt(table[n], c.image, i)
  {
    hide Slot;
    var image' := Fill(c, sect, piece).image;
    var fbn := c.off / BLK_SIZE;
    FillStruct(table, c.image, c.free, owner, inum, fbn, image'[sect]);
    var d := table[n];
    ShapeOf(table, c.image, c.free, owner, n);
    forall i | 0 <= i < BLK_SIZE * NBlocks(d)
      ensures ByteAt(d, image', i)
              == if n == inum && c.off <= i < c.off + |piece| then piece[i - c.off] else ByteAt(d, c.image, i)
    {
      var s := i / BLK_SIZE;
      assert Used(d, s);
      assert BlockAt(d, image', s) == BlockAt(d, c.image, s);
      assert owner[BlockAt(d, c.image, s)] == Place(n, s) && owner[sect] == Place(inum, fbn);
    }
  }

  // ---- one iteration ----

  /** The contents of every inode but one, and the metadata sectors, stay as they were. */
  predicate OthersKept(table: seq<Inode>, inum: nat, image: Image, image': Image)
    requires |table| == INODE_SLOTS
  {
    && WellSized(image) && WellSized(image') && image'[..N_META] == image[..N_META]
    && forall n | 0 <= n < INODE_SLOTS && n != inum ::
         Small(table[n]) && SameBytes(table[n], image, image')
  }

  /** The bytes of the grown inode after Locate: those it had, and zeros in the block just taken. */
  lemma LocatedBytes(table: seq<Inode>, inum: nat, c: Cursor, owner: map<nat, Place>, d': Inode, i: nat)
    requires ValidCursor(c) && inum < INODE_SLOTS && c.off / BLK_SIZE < MAX_FILE
    requires Struct(table, c.image, c.free, owner) && Fresh(c.image, c.free)
    requires table[inum] == WithData(table[inum], c.off, c.addrs)
    requires Locate(c).status == Ok && Locate(c).sect < FS_SIZE
    requires c.off < d'.size <= (c.off / BLK_SIZE + 1) * BLK_SIZE && d'.addrs == Locate(c).cursor.addrs
    requires BlockAt(d', Locate(c).cursor.image, c.off / BLK_SIZE) == Locate(c).sect
    requires i < BLK_SIZE * NBlocks(d')
    ensures ByteAt(d', Locate(c).cursor.image, i)
            == if i < BLK_SIZE * NBlocks(table[inum]) then ByteAt(table[inum], c.image, i) else 0
  {
    hide Slot, SetSlot, Struct, Fresh, Locate;
    var l := Locate(c).cursor;
    ShapeOf(table, c.image, c.free, owner, inum);
    if i < BLK_SIZE * NBlocks(table[inum]) {
      LocateKeepsBytes(table, inum, c, owner, inum);
      var s := i / BLK_SIZE;
      assert Used(table[inum], s) && (s >= N_DIRECT ==> Used(table[inum], SELF));
      assert BlockAt(table[inum], c.image, SELF) == c.addrs[N_DIRECT];
      LocateKeepsAddr(c, if s < N_DIRECT then s else N_DIRECT);
      hide Shape;
      assert BlockAt(d', l.image, s) == BlockAt(table[inum], l.image, s);
    } else {
      LocateFresh(table, inum, c, owner);
    }
  }

  /** Locating a sector, successfully or not, leaves the metadata sectors alone. */
  lemma LocateMeta(table: seq<Inode>, inum: nat, c: Cursor, owner: map<nat, Place>)
    requires ValidCursor(c) && inum < INODE_SLOTS && c.off / BLK_SIZE < MAX_FILE
    requires Struct(table, c.image, c.free, owner)
    requires table[inum] == WithData(table[inum], c.off, c.addrs)
    ensures Locate(c).cursor.image[..N_META] == c.image[..N_META] && Locate(c).cursor.off == c.off
  {
    hide Slot, SetSlot, Struct;
    ShapeOf(table, c.image, c.free, owner, inum);
    Frontier(table[inum], c.image, c.free);
  }

  lemma StepOthers(table: seq<Inode>, inum: nat, c: Cursor, owner: map<nat, Place>, owner': map<nat, Place>,
                   piece: seq<Byte>)
    requires Ready(table, inum, c, owner) && c.off / BLK_SIZE < MAX_FILE
    requires 0 < |piece| && c.off % BLK_SIZE + |piece| <= BLK_SIZE
    requires Locate(c).status == Ok && Locate(c).sect < FS_SIZE && Locate(c).cursor.off == c.off
    requires var l := Locate(c).cursor; var after := Row(table, inum, l.addrs, c.off + |piece|);
      Struct(after, l.image, l.free, owner') && BlockAt(after[inum], l.image, c.off / BLK_SIZE) == Locate(c).sect
    ensures OthersKept(table, inum, c.image, Fill(Locate(c).cursor, Locate(c).sect, piece).image)
    ensures Locate(c).sect < Locate(c).cursor.free
  {
    hide Slot, SetSlot, Struct, Fresh, Locate, BlockAt, ByteAt;
    var l := Locate(c);
    var image' := Fill(l.cursor, l.sect, piece).image;
    var before := Row(table, inum, c.addrs, c.off);
    var after := Row(table, inum, l.cursor.addrs, c.off + |piece|);
    LocateMeta(before, inum, c, owner);
    ShapeOf(after, l.cursor.image, l.cursor.free, owner', inum);
    assert Used(after[inum], c.off / BLK_SIZE);
    forall n | 0 <= n < INODE_SLOTS && n != inum ensures Small(table[n]) && SameBytes(table[n], c.image, image') {
      assert before[n] == after[n] == table[n];
      LocateKeepsBytes(before, inum, c, owner, n);
      FillBytes(after, inum, l.cursor, owner', l.sect, piece, n);
    }
  }

  lemma FillFresh(c: Cursor, sect: nat, piece: seq<Byte>)
    requires ValidCursor(c) && sect < FS_SIZE && c.off % BLK_SIZE + |piece| <= BLK_SIZE
    requires Fresh(c.image, c.free) && sect < c.free
    ensures Fresh(Fill(c, sect, piece).image, c.free)
  {
  }

  /** d' reads in image' as d reads in image, with `piece` appended and zeros after it. */
  predicate Extended(d: Inode, image: Image, d': Inode, image': Image, piece: seq<Byte>)
    requires WellSized(image) && WellSized(image') && Small(d) && Small(d')
  {
    && d'.size == d.size + |piece|
    && forall i | 0 <= i < BLK_SIZE * NBlocks(d') ::
         ByteAt(d', image', i) == if d.size <= i < d'.size then piece[i - d.size] else
                                  if i < BLK_SIZE * NBlocks(d) then ByteAt(d, image, i) else 0
  }

  lemma ExtendedContent(d: Inode, image: Image, d': Inode, image': Image, piece: seq<Byte>)
    requires WellSized(image) && WellSized(image') && Small(d) && Small(d')
    requires Extended(d, image, d', image', piece) && ZeroTail(d, image)
    ensures Content(d', image') == Content(d, image) + piece && ZeroTail(d', image')
  {
    hide ByteAt;
  }

  lemma SameContent(d: Inode, image: Image, image': Image)
    requires WellSized(image) && WellSized(image') && Small(d) && SameBytes(d, image, image')
    ensures Content(d, image') == Content(d, image)
    ensures ZeroTail(d, image) ==> ZeroTail(d, image')
  {
    hide ByteAt;
  }

  lemma StepExtends(table: seq<Inode>, inum: nat, c: Cursor, owner: map<nat, Place>, owner': map<nat, Place>,
                    piece: seq<Byte>)
    requires Ready(table, inum, c, owner) && c.off / BLK_SIZE < MAX_FILE
    requires 0 < |piece| && c.off % BLK_SIZE + |piece| <= BLK_SIZE
    requires Locate(c).status == Ok && Locate(c).sect < FS_SIZE && Locate(c).cursor.off == c.off
    requires var l := Locate(c).cursor; var after := Row(table, inum, l.addrs, c.off + |piece|);
      Struct(after, l.image, l.free, owner') && BlockAt(after[inum], l.image, c.off / BLK_SIZE) == Locate(c).sect
    ensures var l := Locate(c); var c' := Fill(l.cursor, l.sect, piece);
      var d := WithData(table[inum], c.off, c.addrs); var d' := WithData(table[inum], c'.off, c'.addrs);
      && Small(d) && Small(d') && Extended(d, c.image, d', c'.image, piece)
      && Struct(Row(table, inum, c'.addrs, c'.off), c'.image, c'.free, owner')
  {
    hide Slot, SetSlot, Struct, Fresh, Locate, BlockAt, ByteAt, ZeroTail, Patch;
    var before := Row(table, inum, c.addrs, c.off);
    var l := Locate(c);
    var after := Row(table, inum, l.cursor.addrs, c.off + |piece|);
    var d, d' := before[inum], after[inum];
    assert Used(d', c.off / BLK_SIZE);
    FillBytes(after, inum, l.cursor, owner', l.sect, piece, inum);
    ShapeOf(before, c.image, c.free, owner, inum);
    forall i | 0 <= i < BLK_SIZE * NBlocks(d')
      ensures ByteAt(d', l.cursor.image, i) == if i < BLK_SIZE * NBlocks(d) then ByteAt(d, c.image, i) else 0
    {
      LocatedBytes(before, inum, c, owner, d', i);
    }
  }

  /** One successful iteration keeps the invariant and appends one piece to one inode. */
  lemma StepCorrect(table: seq<Inode>, inum: nat, c: Cursor, owner: map<nat, Place>, data: seq<Byte>)
    returns (owner': map<nat, Place>)
    requires Ready(table, inum, c, owner) && data != [] && Step(c, data).0 == Ok
    ensures var c' := Step(c, data).1;
      && Ready(table, inum, c', owner')
      && c'.off == c.off + Chunk(c.off, data)
      && OthersKept(table, inum, c.image, c'.image)
      && Content(WithData(table[inum], c'.off, c'.addrs), c'.image)
         == Content(WithData(table[inum], c.off, c.addrs), c.image) + data[..Chunk(c.off, data)]
  {
    hide Struct, Fresh, Locate, BlockAt, Extended, OthersKept, Content, Inv, Fill;
    var piece := data[..Chunk(c.off, data)];
    ChunkFits(c.off, data);
    owner' := StepParts(table, inum, c, owner, piece);
    assert Step(c, data) == (Ok, Fill(Locate(c).cursor, Locate(c).sect, piece));
    StepDone(table, inum, c, Step(c, data).1, owner, owner', piece);
  }

  lemma ChunkFits(off: nat, data: seq<Byte>)
    requires off / BLK_SIZE < MAX_FILE
    ensures off + Chunk(off, data) <= (off / BLK_SIZE + 1) * BLK_SIZE <= MAX_FILE * BLK_SIZE
  {
  }

  lemma StepParts(table: seq<Inode>, inum: nat, c: Cursor, owner: map<nat, Place>, piece: seq<Byte>)
    returns (owner': map<nat, Place>)
    requires Ready(table, inum, c, owner) && c.off / BLK_SIZE < MAX_FILE
    requires 0 < |piece| && c.off % BLK_SIZE + |piece| <= BLK_SIZE
    requires Locate(c).status == Ok && Locate(c).sect < FS_SIZE
    ensures Locate(c).cursor.off == c.off
    ensures var c' := Fill(Locate(c).cursor, Locate(c).sect, piece);
      var d, d' := WithData(table[inum], c.off, c.addrs), WithData(table[inum], c'.off, c'.addrs);
      && c'.off == c.off + |piece| && Fresh(c'.image, c'.free)
      && Struct(Row(table, inum, c'.addrs, c'.off), c'.image, c'.free, owner')
      && OthersKept(table, inum, c.image, c'.image)
      && Small(d) && Small(d') && Extended(d, c.image, d', c'.image, piece)
  {
    hide Struct, Fresh, Locate, BlockAt, Extended, OthersKept, ZeroTail, Patch;
    LocateMeta(Row(table, inum, c.addrs, c.off), inum, c, owner);
    owner' := LocateStruct(table, inum, c, owner, c.off + |piece|);
    StepOthers(table, inum, c, owner, owner', piece);
    StepExtends(table, inum, c, owner, owner', piece);
    FillFresh(Locate(c).cursor, Locate(c).sect, piece);
  }

  lemma StepDone(table: seq<Inode>, inum: nat, c: Cursor, c': Cursor, owner: map<nat, Place>, owner': map<nat, Place>,
                 piece: seq<Byte>)
    requires Ready(table, inum, c, owner) && ValidCursor(c') && c'.off == c.off + |piece| <= MAX_FILE * BLK_SIZE
    requires Struct(Row(table, inum, c'.addrs, c'.off), c'.image, c'.free, owner') && Fresh(c'.image, c'.free)
    requires OthersKept(table, inum, c.image, c'.image)
    requires var d, d' := WithData(table[inum], c.off, c.addrs), WithData(table[inum], c'.off, c'.addrs);
      Small(d) && Small(d') && Extended(d, c.image, d', c'.image, piece)
    ensures Ready(table, inum, c', owner')
    ensures Content(WithData(table[inum], c'.off, c'.addrs), c'.image)
         == Content(WithData(table[inum], c.off, c.addrs), c.image) + piece
  {
    hide Struct, Fresh, Extended, ZeroTail, SameBytes, Content;
    var before, after := Row(table, inum, c.addrs, c.off), Row(table, inum, c'.addrs, c'.off);
    ExtendedContent(before[inum], c.image, after[inum], c'.image, piece);
    TailsKept(table, inum, before, after, c.image, c'.image);
  }

  lemma TailsKept(table: seq<Inode>, inum: nat, before: seq<Inode>, after: seq<Inode>, image: Image, image': Image)
    requires |table| == |before| == |after| == INODE_SLOTS && inum < INODE_SLOTS
    requires forall n | 0 <= n < INODE_SLOTS && n != inum :: before[n] == table[n] == after[n]
    requires OthersKept(table, inum, image, image')
    requires forall n | 0 <= n < INODE_SLOTS :: Small(before[n]) && ZeroTail(before[n], image)
    requires Small(after[inum]) && ZeroTail(after[inum], image')
    ensures forall n | 0 <= n < INODE_SLOTS :: Small(after[n]) && ZeroTail(after[n], image')
  {
    hide ZeroTail, SameBytes;
    forall n | 0 <= n < INODE_SLOTS && n != inum ensures Small(after[n]) && ZeroTail(after[n], image') {
      SameContent(table[n], image, image');
    }
  }
}

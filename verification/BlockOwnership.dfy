/** Which inode owns which block, and what bytes an inode reads as. */
module BlockOwnership {
  import opened LittleEndian
  import opened DiskLayout

  /** Block slots of an inode: 0..12 direct, 12..140 through the indirect block, 140 that block itself. */
  const SELF := 140

  function NBlocks(d: Inode): nat {
    (d.size + 511) / BLK_SIZE
  }

  /** The slots that an inode of this size needs. */
  predicate Used(d: Inode, s: nat) {
    s < NBlocks(d) || (s == SELF && NBlocks(d) > N_DIRECT)
  }

  function BlockAt(d: Inode, image: Image, s: nat): U32
    requires WellSized(image) && s <= SELF
  {
    if s < N_DIRECT then d.addrs[s]
    else if s == SELF then d.addrs[N_DIRECT]
    else if d.addrs[N_DIRECT] == 0 || d.addrs[N_DIRECT] >= FS_SIZE then 0
    else Slot(image[d.addrs[N_DIRECT]], s - N_DIRECT)
  }

  /** Byte i of the file, read through the direct and indirect slots. */
  function ByteAt(d: Inode, image: Image, i: nat): Byte
    requires WellSized(image) && i / BLK_SIZE < MAX_FILE
  {
    var b := BlockAt(d, image, i / BLK_SIZE);
    if b < FS_SIZE then image[b][i % BLK_SIZE] else 0
  }

  predicate Small(d: Inode) {
    NBlocks(d) <= MAX_FILE
  }

  /** The bytes that reading the inode up to its size gives. */
  function Content(d: Inode, image: Image): (r: seq<Byte>)
    requires WellSized(image) && Small(d)
    ensures |r| == d.size
  {
    seq(d.size, i requires 0 <= i < d.size => ByteAt(d, image, i))
  }

  datatype Place = Place(inum: nat, slot: nat)

  /** Needed slots hold allocated data blocks, all other slots hold 0. */
  predicate Shape(d: Inode, image: Image, free: nat)
    requires WellSized(image)
  {
    Small(d) &&
    forall s | 0 <= s <= SELF ::
      if Used(d, s) then N_META <= BlockAt(d, image, s) < free else BlockAt(d, image, s) == 0
  }

  /**
   * The block map of a table of inodes: every needed slot names a different block,
   * and every block handed out so far is named by one slot.
   */
  predicate Struct(table: seq<Inode>, image: Image, free: nat, owner: map<nat, Place>) {
    && WellSized(image) && |table| == INODE_SLOTS && N_META <= free <= FS_SIZE
    && Shapes(table, image, free)
    && SlotsOwn(table, image, owner)
    && BlocksOwned(table, image, free, owner)
  }

  predicate Shapes(table: seq<Inode>, image: Image, free: nat)
    requires WellSized(image) && |table| == INODE_SLOTS
  {
    forall n | 0 <= n < INODE_SLOTS :: Shape(table[n], image, free)
  }

  predicate SlotsOwn(table: seq<Inode>, image: Image, owner: map<nat, Place>)
    requires WellSized(image) && |table| == INODE_SLOTS
  {
    forall n, s | 0 <= n < INODE_SLOTS && 0 <= s <= SELF && Used(table[n], s) ::
      BlockAt(table[n], image, s) in owner && owner[BlockAt(table[n], image, s)] == Place(n, s)
  }

  predicate BlocksOwned(table: seq<Inode>, image: Image, free: nat, owner: map<nat, Place>)
    requires WellSized(image) && |table| == INODE_SLOTS
  {
    forall b | N_META <= b < free ::
      && b in owner && owner[b].inum < INODE_SLOTS && owner[b].slot <= SELF
      && Used(table[owner[b].inum], owner[b].slot)
      && BlockAt(table[owner[b].inum], image, owner[b].slot) == b
  }

  /** Blocks not handed out yet are still zero. */
  predicate Fresh(image: Image, free: nat) {
    forall b | free <= b < |image| :: image[b] == Zeros(BLK_SIZE)
  }

  /** The rest of an inode's last block is zero. */
  predicate ZeroTail(d: Inode, image: Image)
    requires WellSized(image) && Small(d)
  {
    forall i | d.size <= i < BLK_SIZE * NBlocks(d) :: ByteAt(d, image, i) == 0
  }

  predicate Inv(table: seq<Inode>, image: Image, free: nat, owner: map<nat, Place>) {
    && Struct(table, image, free, owner)
    && Fresh(image, free)
    && (forall n | 0 <= n < INODE_SLOTS :: ZeroTail(table[n], image))
  }

  /** Inode d takes the place of table[inum], with the blocks free, free + 1, .. in its new slots ns. */
  predicate Grows(table: seq<Inode>, image: Image, free: nat, inum: nat, d: Inode, image': Image, ns: seq<nat>) {
    && WellSized(image) && WellSized(image') && |table| == INODE_SLOTS && inum < INODE_SLOTS
    && Small(d) && N_META <= free && free + |ns| <= FS_SIZE
    && (forall i | 0 <= i < |ns| ::
          ns[i] <= SELF && !Used(table[inum], ns[i]) && Used(d, ns[i]) && BlockAt(d, image', ns[i]) == free + i)
    && (forall s | 0 <= s <= SELF && s !in ns ::
          Used(d, s) == Used(table[inum], s) && BlockAt(d, image', s) == BlockAt(table[inum], image, s))
    && (forall n, s | 0 <= n < INODE_SLOTS && n != inum && 0 <= s <= SELF ::
          BlockAt(table[n], image', s) == BlockAt(table[n], image, s))
  }

  function GrownOwner(owner: map<nat, Place>, free: nat, inum: nat, ns: seq<nat>): map<nat, Place> {
    map b: nat | N_META <= b < free + |ns| && (b < free ==> b in owner) ::
      if b < free then owner[b] else Place(inum, ns[b - free])
  }

  /** Handing fresh blocks to new slots of one inode keeps the block map. */
  lemma GrowStruct(table: seq<Inode>, image: Image, free: nat, owner: map<nat, Place>,
                   inum: nat, d: Inode, image': Image, ns: seq<nat>)
    requires Struct(table, image, free, owner) && Grows(table, image, free, inum, d, image', ns)
    ensures Struct(table[inum := d], image', free + |ns|, GrownOwner(owner, free, inum, ns))
  {
    GrowShape(table, image, free, owner, inum, d, image', ns);
    GrowSlotsOwn(table, image, free, owner, inum, d, image', ns);
    GrowBlocksOwned(table, image, free, owner, inum, d, image', ns);
  }

  lemma GrowShape(table: seq<Inode>, image: Image, free: nat, owner: map<nat, Place>,
                  inum: nat, d: Inode, image': Image, ns: seq<nat>)
    requires Struct(table, image, free, owner) && Grows(table, image, free, inum, d, image', ns)
    ensures Shapes(table[inum := d], image', free + |ns|)
  {
    hide BlockAt, Used, SlotsOwn, BlocksOwned;
    var table' := table[inum := d];
    forall n | 0 <= n < INODE_SLOTS ensures Shape(table'[n], image', free + |ns|) {
      assert Shape(table[n], image, free);
    }
  }

  lemma GrowSlotsOwn(table: seq<Inode>, image: Image, free: nat, owner: map<nat, Place>,
                     inum: nat, d: Inode, image': Image, ns: seq<nat>)
    requires Struct(table, image, free, owner) && Grows(table, image, free, inum, d, image', ns)
    ensures SlotsOwn(table[inum := d], image', GrownOwner(owner, free, inum, ns))
  {
    hide BlockAt, Used, BlocksOwned;
    var table' := table[inum := d];
    var owner' := GrownOwner(owner, free, inum, ns);
    forall n, s | 0 <= n < INODE_SLOTS && 0 <= s <= SELF && Used(table'[n], s)
      ensures BlockAt(table'[n], image', s) in owner' && owner'[BlockAt(table'[n], image', s)] == Place(n, s)
    {
      if !(n == inum && s in ns) {
        assert Shape(table[n], image, free);
      }
    }
  }

  lemma GrowBlocksOwned(table: seq<Inode>, image: Image, free: nat, owner: map<nat, Place>,
                        inum: nat, d: Inode, image': Image, ns: seq<nat>)
    requires Struct(table, image, free, owner) && Grows(table, image, free, inum, d, image', ns)
    ensures BlocksOwned(table[inum := d], image', free + |ns|, GrownOwner(owner, free, inum, ns))
  {
    hide BlockAt, Used, SlotsOwn, Shape;
    var table' := table[inum := d];
    var owner' := GrownOwner(owner, free, inum, ns);
    forall b | N_META <= b < free + |ns|
      ensures b in owner' && owner'[b].inum < INODE_SLOTS && owner'[b].slot <= SELF
      ensures Used(table'[owner'[b].inum], owner'[b].slot)
      ensures BlockAt(table'[owner'[b].inum], image', owner'[b].slot) == b
    {
      if b >= free {
        assert ns[b - free] <= SELF;
      } else {
        assert owner'[b] == owner[b];
        assert owner[b].inum == inum ==> owner[b].slot !in ns;
      }
    }
  }

  /** A block that holds data of one inode is no inode's indirect block. */
  lemma DataIsNotIndirect(table: seq<Inode>, image: Image, free: nat, owner: map<nat, Place>, n: nat, s: nat, m: nat)
    requires Struct(table, image, free, owner)
    requires n < INODE_SLOTS && s < SELF && Used(table[n], s) && m < INODE_SLOTS
    ensures table[m].addrs[N_DIRECT] != BlockAt(table[n], image, s)
  {
    assert Shape(table[n], image, free) && Shape(table[m], image, free);
    assert BlockAt(table[m], image, SELF) == table[m].addrs[N_DIRECT];
    if Used(table[m], SELF) {
      assert owner[BlockAt(table[m], image, SELF)] == Place(m, SELF);
    }
  }

  /** Overwriting a data block leaves the block map as it is. */
  lemma FillStruct(table: seq<Inode>, image: Image, free: nat, owner: map<nat, Place>, n: nat, s: nat, x: Sector)
    requires Struct(table, image, free, owner)
    requires n < INODE_SLOTS && s < SELF && Used(table[n], s)
    ensures Shape(table[n], image, free)
    ensures Struct(table, image[BlockAt(table[n], image, s) := x], free, owner)
    ensures forall m, t | 0 <= m < INODE_SLOTS && 0 <= t <= SELF ::
              BlockAt(table[m], image[BlockAt(table[n], image, s) := x], t) == BlockAt(table[m], image, t)
  {
    assert Shape(table[n], image, free);
    var image' := image[BlockAt(table[n], image, s) := x];
    forall m, t | 0 <= m < INODE_SLOTS && 0 <= t <= SELF
      ensures BlockAt(table[m], image', t) == BlockAt(table[m], image, t)
    {
      DataIsNotIndirect(table, image, free, owner, n, s, m);
    }
    forall m | 0 <= m < INODE_SLOTS ensures Shape(table[m], image', free) {
      assert Shape(table[m], image, free);
    }
  }
}

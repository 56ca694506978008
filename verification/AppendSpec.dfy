/** append_inode as a pure function of the image: one loop iteration, the loop, the call. */
module AppendSpec {
  import opened LittleEndian
  import opened DiskLayout

  /** How a call ends: normally, with an I/O error, or with a failed assertion. */
  datatype Status = Ok | IoError | Panic

  /** What one run of the loop carries along; size and the other inode fields are not read by it. */
  datatype Cursor = Cursor(image: Image, free: nat, addrs: seq<U32>, off: nat)

  predicate ValidCursor(c: Cursor) {
    WellSized(c.image) && |c.addrs| == 13
  }

  datatype Located = Located(status: Status, cursor: Cursor, sect: nat)

  function AsU32(x: nat): U32 {
    x % 0x1_0000_0000
  }

  /** Take the next free block for address slot k of the inode, unless it already has one. */
  function Ensure(c: Cursor, k: nat): (r: Cursor)
    requires ValidCursor(c) && k < 13
    ensures ValidCursor(r)
  {
    if c.addrs[k] == 0 then Cursor(c.image, c.free + 1, c.addrs[k := AsU32(c.free)], c.off) else c
  }

  /** Find, or allocate, the sector that holds byte c.off. */
  function Locate(c: Cursor): (r: Located)
    requires ValidCursor(c) && c.off / BLK_SIZE < MAX_FILE
    ensures ValidCursor(r.cursor)
  {
    var fbn := c.off / BLK_SIZE;
    if fbn < N_DIRECT then
      var c1 := Ensure(c, fbn);
      Located(Ok, c1, c1.addrs[fbn])
    else
      var c1 := Ensure(c, N_DIRECT);
      var ib := c1.addrs[N_DIRECT];
      if ib >= FS_SIZE then
        Located(IoError, c1, 0)
      else
        var i := fbn - N_DIRECT;
        if Slot(c1.image[ib], i) == 0 then
          var x := AsU32(c1.free);
          Located(Ok, Cursor(c1.image[ib := SetSlot(c1.image[ib], i, x)], c1.free + 1, c1.addrs, c1.off), x)
        else
          Located(Ok, c1, Slot(c1.image[ib], i))
  }

  /** How many of the bytes still to write go into the block of c.off. */
  function Chunk(off: nat, data: seq<Byte>): (r: nat)
    ensures r <= |data| && off % BLK_SIZE + r <= BLK_SIZE
    ensures data != [] ==> 0 < r
  {
    var room := (off / BLK_SIZE + 1) * BLK_SIZE - off;
    if |data| < room then |data| else room
  }

  /** One iteration of the loop. */
  function Step(c: Cursor, data: seq<Byte>): (r: (Status, Cursor))
    requires ValidCursor(c)
    ensures ValidCursor(r.1)
  {
    if c.off / BLK_SIZE >= MAX_FILE then
      (Panic, c)
    else
      var l := Locate(c);
      if l.status != Ok then
        (l.status, l.cursor)
      else if l.sect >= FS_SIZE then
        (IoError, l.cursor)
      else
        (Ok, Fill(l.cursor, l.sect, data[..Chunk(c.off, data)]))
  }

  function Fill(c: Cursor, sect: nat, piece: seq<Byte>): (r: Cursor)
    requires ValidCursor(c) && sect < FS_SIZE && c.off % BLK_SIZE + |piece| <= BLK_SIZE
    ensures ValidCursor(r)
  {
    var buf := Patch(c.image[sect], c.off % BLK_SIZE, piece);
    Cursor(c.image[sect := buf], c.free, c.addrs, c.off + |piece|)
  }

  /** The whole loop. */
  function Loop(c: Cursor, data: seq<Byte>): (r: (Status, Cursor))
    requires ValidCursor(c)
    ensures ValidCursor(r.1)
    decreases |data|
  {
    if data == [] then
      (Ok, c)
    else
      var s := Step(c, data);
      if s.0 != Ok then s else Loop(s.1, data[Chunk(c.off, data)..])
  }

  /** The builder: the image file and the two bump counters. */
  datatype Builder = Builder(image: Image, freeInode: nat, freeBlock: nat)

  /** The inode with the size and block addresses that the loop ended with. */
  function WithData(d: Inode, off: nat, addrs: seq<U32>): Inode
    requires |addrs| == 13
  {
    Dinode(d.kind, d.major, d.minor, d.nlink, AsU32(off), addrs)
  }

  function NewInode(kind: U16): Inode {
    Dinode(kind, 0, 0, 1, 0, NO_ADDRS)
  }

  function Start(b: Builder, inum: nat): (c: Cursor)
    requires WellSized(b.image) && inum < INODE_SLOTS
    ensures ValidCursor(c)
  {
    Cursor(b.image, b.freeBlock, GetInode(b.image, inum).addrs, GetInode(b.image, inum).size)
  }

  function Append(b: Builder, inum: nat, data: seq<Byte>): (r: (Status, Builder))
    requires WellSized(b.image) && inum < INODE_SLOTS
    ensures WellSized(r.1.image)
  {
    var r := Loop(Start(b, inum), data);
    if r.0 != Ok then
      (r.0, Builder(r.1.image, b.freeInode, r.1.free))
    else
      var d := WithData(GetInode(b.image, inum), r.1.off, r.1.addrs);
      (Ok, Builder(PutInode(r.1.image, inum, d), b.freeInode, r.1.free))
  }

  function AllocInode(b: Builder, kind: U16): (r: Builder)
    requires WellSized(b.image) && b.freeInode < INODE_SLOTS
    ensures WellSized(r.image)
  {
    Builder(PutInode(b.image, b.freeInode, NewInode(kind)), b.freeInode + 1, b.freeBlock)
  }
}

/** Any interleaving of inode allocations and appends, from the blank image on. */
module ImageRuns {
  import opened LittleEndian
  import opened DiskLayout
  import opened AppendSpec
  import opened BlockOwnership
  import opened AppendCorrect
  import opened AppendRuns
  import opened ImageBuilder

  datatype Op = AllocOp(kind: U16) | AppendOp(inum: nat, data: seq<Byte>)

  /** Callers append only to inodes they have allocated, and allocate at most what fits. */
  predicate Legal(freeInode: nat, ops: seq<Op>)
    decreases |ops|
  {
    ops == [] ||
    match ops[0]
    case AllocOp(_) => freeInode < INODE_SLOTS && Legal(freeInode + 1, ops[1..])
    case AppendOp(inum, _) => 1 <= inum < freeInode <= INODE_SLOTS && Legal(freeInode, ops[1..])
  }

  /** How a run ends: the status of its last call, the state, and how many calls succeeded. */
  datatype Result = Result(status: Status, builder: Builder, done: nat)

  function Exec(b: Builder, op: Op): (r: (Status, Builder))
    requires WellSized(b.image) && Legal(b.freeInode, [op])
    ensures WellSized(r.1.image)
  {
    match op
    case AllocOp(kind) => (Ok, AllocInode(b, kind))
    case AppendOp(inum, data) => Append(b, inum, data)
  }

  /** Calls in order, up to the first one that fails. */
  function Run(b: Builder, ops: seq<Op>): (r: Result)
    requires WellSized(b.image) && Legal(b.freeInode, ops)
    ensures WellSized(r.builder.image) && r.done <= |ops|
    decreases |ops|
  {
    if ops == [] then Result(Ok, b, 0)
    else
      var e := Exec(b, ops[0]);
      if e.0 != Ok then Result(e.0, e.1, 0)
      else
        var r := Run(e.1, ops[1..]);
        Result(r.status, r.builder, r.done + 1)
  }

  /** Everything appended to one inode, in order. */
  function WrittenTo(ops: seq<Op>, n: nat): seq<Byte> {
    if ops == [] then []
    else (if ops[0].AppendOp? && ops[0].inum == n then ops[0].data else []) + WrittenTo(ops[1..], n)
  }

  /** One call on a sound state. */
  lemma ExecCorrect(b: Builder, owner: map<nat, Place>, op: Op) returns (owner': map<nat, Place>)
    requires Sound(b, owner) && Legal(b.freeInode, [op])
    ensures Readable(b.image) && Readable(Exec(b, op).1.image)
    ensures Exec(b, op).0 == Ok ==> Sound(Exec(b, op).1, owner') && forall n | 0 <= n < INODE_SLOTS ::
              Files(Exec(b, op).1.image)[n] == Files(b.image)[n] + WrittenTo([op], n)
    ensures Exec(b, op).0 != Ok ==> Files(Exec(b, op).1.image) == Files(b.image)
  {
    hide Sound, Files, Append, AllocInode;
    owner' := owner;
    SoundReadable(b, owner);
    match op
    case AllocOp(kind) =>
      AllocAllocates(b, owner, kind);
    case AppendOp(inum, data) =>
      if Append(b, inum, data).0 == Ok {
        owner' := AppendAppends(b, owner, inum, data);
      } else {
        FailedAppend(b, owner, inum, data);
      }
  }

  /** Every run: each file is the concatenation of what was appended to it, and nothing else. */
  lemma {:induction false} RunCorrect(b: Builder, owner: map<nat, Place>, ops: seq<Op>)
    returns (owner': map<nat, Place>)
    requires Sound(b, owner) && Legal(b.freeInode, ops)
    ensures Readable(b.image) && Readable(Run(b, ops).builder.image)
    ensures forall n | 0 <= n < INODE_SLOTS ::
              Files(Run(b, ops).builder.image)[n] == Files(b.image)[n] + WrittenTo(ops[..Run(b, ops).done], n)
    ensures Run(b, ops).status == Ok ==> Run(b, ops).done == |ops| && Sound(Run(b, ops).builder, owner')
    decreases |ops|
  {
    hide Sound, Files, Exec;
    owner' := owner;
    SoundReadable(b, owner);
    if ops == [] {
    } else {
      var owner1 := ExecCorrect(b, owner, ops[0]);
      var e := Exec(b, ops[0]);
      if e.0 == Ok {
        assert e.1.freeInode == if ops[0].AllocOp? then b.freeInode + 1 else b.freeInode by { ExecCounts(b, ops[0]); }
        owner' := RunCorrect(e.1, owner1, ops[1..]);
        var k := Run(b, ops).done;
        forall n | 0 <= n < INODE_SLOTS
          ensures Files(Run(b, ops).builder.image)[n] == Files(b.image)[n] + WrittenTo(ops[..k], n)
        {
          assert ops[..k][1..] == ops[1..][..k - 1];
          assert WrittenTo([ops[0]], n) + WrittenTo(ops[1..][..k - 1], n) == WrittenTo(ops[..k], n);
        }
      }
    }
  }

  /** The kinds of the inodes allocated, in order. */
  function Kinds(ops: seq<Op>): seq<U16> {
    if ops == [] then [] else (if ops[0].AllocOp? then [ops[0].kind] else []) + Kinds(ops[1..])
  }

  lemma ExecHeaders(b: Builder, owner: map<nat, Place>, op: Op)
    requires Sound(b, owner) && Legal(b.freeInode, [op])
    ensures Headers(Exec(b, op).1.image)
         == if op.AllocOp? then Headers(b.image)[b.freeInode := Header(op.kind, 0, 0, 1)] else Headers(b.image)
  {
    hide Append, AllocInode, Headers, Inv;
    match op
    case AllocOp(kind) => AllocHeaders(b, kind);
    case AppendOp(inum, data) => AppendHeaders(b, owner, inum, data);
  }

  /** Every run: the n-th inode allocated has the n-th kind asked for and one link; appends change no such field. */
  lemma {:induction false} RunHeaders(b: Builder, owner: map<nat, Place>, ops: seq<Op>, n: nat)
    requires Sound(b, owner) && Legal(b.freeInode, ops) && n < INODE_SLOTS
    ensures var ks := Kinds(ops[..Run(b, ops).done]);
      Headers(Run(b, ops).builder.image)[n]
      == if b.freeInode <= n < b.freeInode + |ks| then Header(ks[n - b.freeInode], 0, 0, 1) else Headers(b.image)[n]
    decreases |ops|
  {
    hide Sound, Exec, Headers;
    SoundReadable(b, owner);
    if ops == [] {
    } else {
      ExecHeaders(b, owner, ops[0]);
      var e := Exec(b, ops[0]);
      if e.0 == Ok {
        var owner1 := ExecCorrect(b, owner, ops[0]);
        ExecCounts(b, ops[0]);
        RunHeaders(e.1, owner1, ops[1..], n);
        var k := Run(b, ops).done;
        assert ops[..k][1..] == ops[1..][..k - 1];
      } else {
        AllocSucceeds(b, ops[0]);
      }
    }
  }

  lemma AllocSucceeds(b: Builder, op: Op)
    requires WellSized(b.image) && Legal(b.freeInode, [op])
    ensures op.AllocOp? ==> Exec(b, op).0 == Ok
  {
  }

  lemma ExecCounts(b: Builder, op: Op)
    requires WellSized(b.image) && Legal(b.freeInode, [op])
    ensures Exec(b, op).1.freeInode == if op.AllocOp? then b.freeInode + 1 else b.freeInode
  {
  }

  lemma BlankTable(n: nat)
    requires n < INODE_SLOTS
    ensures GetInode(BlankImage(), n) == ZERO_INODE && Table(BlankImage())[n] == ZERO_INODE
  {
    var image := BlankImage();
    assert image[InodeBlock(n)] == BlankSector(InodeBlock(n)) == Zeros(BLK_SIZE);
    ZeroInodeDecodes(image[InodeBlock(n)][InodeOffset(n)..InodeOffset(n) + 64]);
  }

  /** An image without files is sound. */
  lemma BlankIsSound()
    ensures Sound(BlankBuilder(), map[])
    ensures Readable(BlankImage()) && forall n | 0 <= n < INODE_SLOTS :: Files(BlankImage())[n] == []
  {
    hide GetInode, Table;
    var image := BlankImage();
    assert forall b | N_META <= b < FS_SIZE :: image[b] == BlankSector(b) == Zeros(BLK_SIZE);
    hide BlankImage, SuperSector;
    ZeroShape(image);
    forall n | 0 <= n < INODE_SLOTS ensures GetInode(image, n) == Table(image)[n] == ZERO_INODE {
      BlankTable(n);
    }
    hide Shape, BlockAt, ByteAt;
    assert Struct(Table(image), image, N_META, map[]);
    assert Inv(Table(image), image, N_META, map[]);
  }

  lemma ZeroInodeDecodes(e: seq<Byte>)
    requires |e| == 64 && forall i | 0 <= i < 64 :: e[i] == 0
    ensures DecodeInode(e) == ZERO_INODE
  {
    assert DecodeInode(e).addrs == NO_ADDRS;
  }

  lemma ZeroShape(image: Image)
    requires WellSized(image)
    ensures Shape(ZERO_INODE, image, N_META)
  {
    forall k | 0 <= k < 13 ensures ZERO_INODE.addrs[k] == 0 {
    }
  }

  /** Block b is data, or the indirect block, of inode n: slot s of n is needed and names b. */
  predicate Holds(image: Image, n: nat, s: nat, b: nat)
    requires WellSized(image)
  {
    n < INODE_SLOTS && s <= SELF && Used(Table(image)[n], s) && BlockAt(Table(image)[n], image, s) == b
  }

  /** Block x is reachable from some inode. */
  ghost predicate InUse(image: Image, x: nat)
    requires WellSized(image)
  {
    exists n: nat, s: nat :: Holds(image, n, s, x)
  }

  /** No block is shared, none is leaked, and none not handed out has been written. */
  ghost predicate Partitioned(b: Builder) {
    && WellSized(b.image) && N_META <= b.freeBlock <= FS_SIZE
    && (forall x: nat :: InUse(b.image, x) <==> N_META <= x < b.freeBlock)
    && (forall n: nat, s: nat, n': nat, s': nat, x: nat | Holds(b.image, n, s, x) && Holds(b.image, n', s', x) ::
          n == n' && s == s')
    && (forall x | b.freeBlock <= x < FS_SIZE :: b.image[x] == Zeros(BLK_SIZE))
  }

  lemma SoundIsPartitioned(b: Builder, owner: map<nat, Place>)
    requires Sound(b, owner)
    ensures Partitioned(b)
  {
    hide Table, BlockAt, Used, ZeroTail;
    var table := Table(b.image);
    forall x: nat | N_META <= x < b.freeBlock ensures InUse(b.image, x) {
      assert Holds(b.image, owner[x].inum, owner[x].slot, x);
    }
    forall n: nat, s: nat, x: nat | Holds(b.image, n, s, x)
      ensures N_META <= x < b.freeBlock && owner[x] == Place(n, s) {
      ShapeOf(table, b.image, b.freeBlock, owner, n);
    }
  }

  /** Main theorem on mkfs runs: contents, ownership and failure, from the blank image on. */
  lemma RunFromBlank(ops: seq<Op>)
    requires Legal(1, ops)
    ensures Readable(Run(BlankBuilder(), ops).builder.image)
    ensures forall n | 0 <= n < INODE_SLOTS ::
              Files(Run(BlankBuilder(), ops).builder.image)[n] == WrittenTo(ops[..Run(BlankBuilder(), ops).done], n)
    ensures Run(BlankBuilder(), ops).status == Ok ==>
              Run(BlankBuilder(), ops).done == |ops| && Partitioned(Run(BlankBuilder(), ops).builder)
  {
    hide Sound, Partitioned, Files, Run;
    BlankIsSound();
    var owner := RunCorrect(BlankBuilder(), map[], ops);
    if Run(BlankBuilder(), ops).status == Ok {
      SoundIsPartitioned(Run(BlankBuilder(), ops).builder, owner);
    }
  }
}

/** The sequence of calls in mkfs's main, and what the finished image holds. */
module Mkfs {
  import opened LittleEndian
  import opened DiskLayout
  import opened AppendSpec
  import opened BlockOwnership
  import opened AppendCorrect
  import opened AppendRuns
  import opened AppendCapacity
  import opened ImageBuilder
  import opened ImageRuns

  const ROOT_INO := 1
  const SLASH: Byte := 0x2F
  const UNDERSCORE: Byte := 0x5F
  const DOT: Byte := 0x2E
  const MAX_FILES := 206

  // ---- directory entries ----

  /** The name field of an entry; set_name panics on the names excluded here. */
  function NameField(name: seq<Byte>): (r: seq<Byte>)
    requires |name| <= DIR_SIZE
    ensures |r| == DIR_SIZE
  {
    var z := if |name| + 1 < DIR_SIZE then |name| + 1 else DIR_SIZE;
    Patch(Patch(Zeros(DIR_SIZE), 0, name), z - 1, [0])
  }

  function EncodeEntry(inum: U16, name: seq<Byte>): (r: seq<Byte>)
    requires |name| <= DIR_SIZE
    ensures |r| == 16
  {
    EncodeU16(inum) + NameField(name)
  }

  /** An entry is its inode number, then its name, then zeros. */
  lemma EntryLayout(inum: U16, name: seq<Byte>)
    requires |name| < DIR_SIZE
    ensures EncodeEntry(inum, name) == EncodeU16(inum) + name + Zeros(14 - |name|)
  {
    assert NameField(name) == name + Zeros(14 - |name|);
  }

  /** DirEnt::set_name on a new entry: the bytes of the name and a terminator, or a failed assertion. */
  method SetName(name: seq<Byte>) returns (status: Status, field: seq<Byte>)
    ensures status == if 0x2F in name || |name| > 14 then Panic else Ok
    ensures status == Ok ==> |name| <= DIR_SIZE && field == NameField(name)
  {
    field := Zeros(DIR_SIZE);
    if SLASH in name || |name| > DIR_SIZE {
      return Panic, field;
    }
    field := Patch(field, 0, name);
    var z := if |name| + 1 < DIR_SIZE then |name| + 1 else DIR_SIZE;
    field := field[z - 1 := 0];
    assert field == NameField(name);
    return Ok, field;
  }

  /** A name field up to its first zero byte. */
  function DecodeName(field: seq<Byte>): (r: seq<Byte>)
    ensures |r| <= |field|
  {
    if field == [] || field[0] == 0 then [] else [field[0]] + DecodeName(field[1..])
  }

  datatype Entry = Entry(inum: U16, name: seq<Byte>)

  /** Entry k of a directory's bytes. */
  function EntryAt(dir: seq<Byte>, k: nat): Entry
    requires 16 * k + 16 <= |dir|
  {
    Entry(DecodeU16(dir, 16 * k), DecodeName(dir[16 * k + 2..16 * k + 16]))
  }

  lemma {:induction false} DecodeNameOf(name: seq<Byte>, rest: seq<Byte>)
    requires 0 !in name && (rest == [] || rest[0] == 0)
    ensures DecodeName(name + rest) == name
  {
    if name == [] {
    } else {
      assert (name + rest)[1..] == name[1..] + rest;
      DecodeNameOf(name[1..], rest);
    }
  }

  /** A name of at most 13 bytes survives; one of 14 loses its last byte. */
  lemma NameRoundTrip(name: seq<Byte>)
    requires |name| <= DIR_SIZE && 0 !in name
    ensures DecodeName(NameField(name)) == name[..if |name| < DIR_SIZE then |name| else DIR_SIZE - 1]
    ensures DecodeName(NameField(name)) == name <==> |name| < DIR_SIZE
  {
    var keep := name[..if |name| < DIR_SIZE then |name| else DIR_SIZE - 1];
    var field := NameField(name);
    assert field == keep + field[|keep|..];
    DecodeNameOf(keep, field[|keep|..]);
  }

  lemma EntryRoundTrip(inum: U16, name: seq<Byte>, dir: seq<Byte>, k: nat)
    requires |name| < DIR_SIZE && 0 !in name
    requires 16 * k + 16 <= |dir| && dir[16 * k..16 * k + 16] == EncodeEntry(inum, name)
    ensures EntryAt(dir, k) == Entry(inum, name)
  {
    var e := EncodeEntry(inum, name);
    assert dir[16 * k] == dir[16 * k..16 * k + 16][0] && dir[16 * k + 1] == dir[16 * k..16 * k + 16][1];
    assert dir[16 * k + 2..16 * k + 16] == dir[16 * k..16 * k + 16][2..] == e[2..] == NameField(name);
    NameRoundTrip(name);
  }

  // ---- the files given on the command line ----

  /** A file: its base name and the pieces that reading it yields. */
  datatype Source = Source(name: seq<Byte>, pieces: seq<seq<Byte>>)

  /** The name without one leading underscore. */
  function Stripped(name: seq<Byte>): (r: seq<Byte>)
    ensures name == [0x5F] + r || (name == r && (name == [] || name[0] != 0x5F))
  {
    if name != [] && name[0] == UNDERSCORE then name[1..] else name
  }

  function Flatten(pieces: seq<seq<Byte>>): seq<Byte> {
    if pieces == [] then [] else Flatten(pieces[..|pieces| - 1]) + pieces[|pieces| - 1]
  }

  /** set_name accepts the name. */
  predicate NameFits(name: seq<Byte>) {
    SLASH !in name && |name| <= DIR_SIZE
  }

  predicate NamesFit(files: seq<Source>) {
    forall i | 0 <= i < |files| :: NameFits(Stripped(files[i].name))
  }

  /** The directory: ".", "..", then one entry per file, whose inode numbers count from 2. */
  function Directory(files: seq<Source>): (r: seq<Byte>)
    requires NamesFit(files) && |files| <= MAX_FILES
    ensures |r| == 16 * (|files| + 2)
  {
    if files == [] then EncodeEntry(ROOT_INO, [DOT]) + EncodeEntry(ROOT_INO, [DOT, DOT])
    else
      var n := |files| - 1;
      Directory(files[..n]) + EncodeEntry(n + 2, Stripped(files[n].name))
  }

  lemma {:induction false} DotBytes(files: seq<Source>)
    requires NamesFit(files) && |files| <= MAX_FILES
    ensures Directory(files)[0..16] == EncodeEntry(ROOT_INO, [DOT])
    ensures Directory(files)[16..32] == EncodeEntry(ROOT_INO, [DOT, DOT])
    decreases |files|
  {
    hide EncodeEntry;
    if files == [] {
    } else {
      var less := files[..|files| - 1];
      DotBytes(less);
      assert Directory(files)[0..16] == Directory(less)[0..16];
      assert Directory(files)[16..32] == Directory(less)[16..32];
    }
  }

  lemma {:induction false} FileBytes(files: seq<Source>, i: nat)
    requires NamesFit(files) && i < |files| <= MAX_FILES
    ensures Directory(files)[16 * i + 32..16 * i + 48] == EncodeEntry(i + 2, Stripped(files[i].name))
    decreases |files|
  {
    hide EncodeEntry;
    var n := |files| - 1;
    if i == n {
    } else {
      FileBytes(files[..n], i);
      assert Directory(files)[16 * i + 32..16 * i + 48] == Directory(files[..n])[16 * i + 32..16 * i + 48];
    }
  }

  /** Reading the directory back gives ".", ".." and every file's name with its inode number. */
  lemma DirectoryDecodes(files: seq<Source>, dir: seq<Byte>)
    requires NamesFit(files) && |files| <= MAX_FILES && Directory(files) <= dir
    ensures EntryAt(dir, 0) == Entry(ROOT_INO, [DOT])
    ensures EntryAt(dir, 1) == Entry(ROOT_INO, [DOT, DOT])
    ensures forall i | 0 <= i < |files| && |Stripped(files[i].name)| < DIR_SIZE && 0 !in Stripped(files[i].name) ::
              EntryAt(dir, i + 2) == Entry(i + 2, Stripped(files[i].name))
  {
    hide EncodeEntry, Directory, EntryAt;
    DotBytes(files);
    assert dir[0..16] == Directory(files)[0..16] && dir[16..32] == Directory(files)[16..32];
    EntryRoundTrip(ROOT_INO, [DOT], dir, 0);
    EntryRoundTrip(ROOT_INO, [DOT, DOT], dir, 1);
    forall i | 0 <= i < |files| && |Stripped(files[i].name)| < DIR_SIZE && 0 !in Stripped(files[i].name)
      ensures EntryAt(dir, i + 2) == Entry(i + 2, Stripped(files[i].name))
    {
      FileBytes(files, i);
      assert dir[16 * (i + 2)..16 * (i + 2) + 16] == Directory(files)[16 * i + 32..16 * i + 48];
      EntryRoundTrip(i + 2, Stripped(files[i].name), dir, i + 2);
    }
  }

  lemma ZeroEntries(dir: seq<Byte>, k: nat)
    requires 16 * k + 16 <= |dir| && forall i | 16 * k <= i < 16 * k + 16 :: dir[i] == 0
    ensures EntryAt(dir, k).inum == 0
  {
  }

  // ---- rounding up the size of the root directory ----

  function RoundedSize(off: nat): nat {
    (off / BLK_SIZE + 1) * BLK_SIZE
  }

  function FixUp(b: Builder): Builder
    requires WellSized(b.image)
  {
    var d := GetInode(b.image, ROOT_INO);
    Builder(PutInode(b.image, ROOT_INO, WithData(d, RoundedSize(d.size), d.addrs)), b.freeInode, b.freeBlock)
  }

  lemma FixUpHeaders(b: Builder)
    requires WellSized(b.image)
    ensures Headers(FixUp(b).image) == Headers(b.image)
  {
    hide GetInode, PutInode;
    var d := GetInode(b.image, ROOT_INO);
    DataKeepsHeaders(b.image, ROOT_INO, RoundedSize(d.size), d.addrs);
  }

  /** If the last block is only partly filled, the new size covers it and nothing more. */
  lemma FixUpGrows(b: Builder, owner: map<nat, Place>)
    requires Sound(b, owner) && b.freeInode >= 2 && GetInode(b.image, ROOT_INO).size % BLK_SIZE != 0
    ensures Sound(FixUp(b), owner) && Readable(b.image) && Readable(FixUp(b).image)
    ensures var pad := RoundedSize(|Files(b.image)[ROOT_INO]|) - |Files(b.image)[ROOT_INO]|;
      Files(FixUp(b).image) == Files(b.image)[ROOT_INO := Files(b.image)[ROOT_INO] + Zeros(pad)]
  {
    hide GetInode, PutInode, Struct;
    var table := Table(b.image);
    var d := table[ROOT_INO];
    var d' := WithData(d, RoundedSize(d.size), d.addrs);
    var b' := FixUp(b);
    ShapeOf(table, b.image, b.freeBlock, owner, ROOT_INO);
    assert NBlocks(d') == NBlocks(d) && RoundedSize(d.size) == BLK_SIZE * NBlocks(d);
    TablePut(b.image, ROOT_INO, d');
    RoundedRow(table, b.image, b.freeBlock, owner, d');
    assert b'.image[N_META..] == b.image[N_META..];
    InvFrame(Table(b'.image), b.image, b'.image, b.freeBlock, owner);
    forall n | 0 <= n < INODE_SLOTS ensures GetInode(b'.image, n) == if n == ROOT_INO then d' else GetInode(b.image, n) {
      assert GetInode(b'.image, n) == Table(b'.image)[n];
      assert table[n] == GetInode(b.image, n);
    }
    SoundReadable(b, owner);
    SoundReadable(b', owner);
    assert forall n | 0 <= n < INODE_SLOTS && n != ROOT_INO :: Files(b'.image)[n] == Files(b.image)[n];
    assert Files(b'.image)[ROOT_INO] == Content(d', b.image);
  }

  lemma RoundedRow(table: seq<Inode>, image: Image, free: nat, owner: map<nat, Place>, d': Inode)
    requires Inv(table, image, free, owner) && table[ROOT_INO].addrs == d'.addrs
    requires NBlocks(d') == NBlocks(table[ROOT_INO]) && d'.size == BLK_SIZE * NBlocks(d')
    ensures Inv(table[ROOT_INO := d'], image, free, owner)
    ensures Small(d') && Small(table[ROOT_INO])
    ensures Content(d', image) == Content(table[ROOT_INO], image) + Zeros(d'.size - table[ROOT_INO].size)
  {
    var table' := table[ROOT_INO := d'];
    var d := table[ROOT_INO];
    assert Shape(d, image, free) && ZeroTail(d, image);
    forall m, s | 0 <= m < INODE_SLOTS && 0 <= s <= SELF
      ensures Used(table'[m], s) == Used(table[m], s) && BlockAt(table'[m], image, s) == BlockAt(table[m], image, s)
    {
    }
    forall i | 0 <= i < d'.size ensures ByteAt(d', image, i) == ByteAt(d, image, i) {
    }
    hide BlockAt, Used, ByteAt;
    forall m | 0 <= m < INODE_SLOTS ensures Shape(table'[m], image, free) && ZeroTail(table'[m], image) {
      assert Shape(table[m], image, free) && ZeroTail(table[m], image);
    }
  }

  /** If the last block is full, the new size covers a block the directory does not have. */
  lemma FixUpBreaks(b: Builder, owner: map<nat, Place>, owner': map<nat, Place>)
    requires Sound(b, owner) && b.freeInode >= 2 && GetInode(b.image, ROOT_INO).size % BLK_SIZE == 0
    requires GetInode(b.image, ROOT_INO).size < MAX_FILE * BLK_SIZE
    ensures !Sound(FixUp(b), owner')
  {
    hide GetInode, PutInode, Struct;
    var table := Table(b.image);
    var d := table[ROOT_INO];
    var d' := WithData(d, RoundedSize(d.size), d.addrs);
    var b' := FixUp(b);
    TablePut(b.image, ROOT_INO, d');
    ShapeOf(table, b.image, b.freeBlock, owner, ROOT_INO);
    var s := d.size / BLK_SIZE;
    assert !Used(d, s) && BlockAt(d, b.image, s) == 0;
    assert BlockAt(d, b.image, SELF) == d.addrs[N_DIRECT];
    assert Used(d', s) && BlockAt(d', b'.image, s) == BlockAt(d, b.image, s);
    if Sound(b', owner') {
      ShapeOf(Table(b'.image), b'.image, b'.freeBlock, owner', ROOT_INO);
      assert false;
    }
  }

  /** The rounded directory is a sound inode exactly when its entries do not fill whole blocks. */
  lemma FixUpSound(b: Builder, owner: map<nat, Place>)
    requires Sound(b, owner) && b.freeInode >= 2 && GetInode(b.image, ROOT_INO).size < MAX_FILE * BLK_SIZE
    ensures (exists owner' :: Sound(FixUp(b), owner')) <==> GetInode(b.image, ROOT_INO).size % BLK_SIZE != 0
  {
    hide FixUp, GetInode, Inv;
    if GetInode(b.image, ROOT_INO).size % BLK_SIZE != 0 {
      FixUpGrows(b, owner);
    } else {
      forall owner': map<nat, Place> ensures !Sound(FixUp(b), owner') {
        FixUpBreaks(b, owner, owner');
      }
    }
  }

  // ---- the finished image ----

  /** What the last two writes of main, the rounded root inode and the bitmap, leave in place. */
  lemma Finish(b: Builder, owner: map<nat, Place>, image': Image)
    requires Sound(b, owner) && b.freeInode >= 2 && GetInode(b.image, ROOT_INO).size < (MAX_FILE - 1) * BLK_SIZE
    requires WellSized(image') && image'[N_META..] == b.image[N_META..]
    requires Table(image') == Table(FixUp(b).image)
    ensures Readable(b.image) && Readable(image')
    ensures forall n | 0 <= n < INODE_SLOTS && n != ROOT_INO :: Files(image')[n] == Files(b.image)[n]
    ensures Files(b.image)[ROOT_INO] <= Files(image')[ROOT_INO]
    ensures |Files(image')[ROOT_INO]| == RoundedSize(|Files(b.image)[ROOT_INO]|)
    ensures |Files(b.image)[ROOT_INO]| % BLK_SIZE != 0 ==>
              forall i | |Files(b.image)[ROOT_INO]| <= i < |Files(image')[ROOT_INO]| :: Files(image')[ROOT_INO][i] == 0
    ensures forall x: nat | N_META <= x :: InUse(image', x) <==> x < b.freeBlock
  {
    hide GetInode, PutInode, Struct, ByteAt, Slot;
    var table := Table(b.image);
    var d := table[ROOT_INO];
    var d' := WithData(d, RoundedSize(d.size), d.addrs);
    TablePut(b.image, ROOT_INO, d');
    InvFrame(table, b.image, image', b.freeBlock, owner);
    SoundReadable(b, owner);
    ShapeOf(table, image', b.freeBlock, owner, ROOT_INO);
    StartReady(b, owner, ROOT_INO);
    assert Covers(d, d');
    CoversContent(d, d', image');
    assert Files(image')[ROOT_INO] == Content(d', image');
    assert forall n | 0 <= n < INODE_SLOTS && n != ROOT_INO :: Table(image')[n] == table[n];
    if d.size % BLK_SIZE != 0 {
      RoundedRow(table, image', b.freeBlock, owner, d');
    }
    forall x: nat | N_META <= x ensures InUse(image', x) <==> x < b.freeBlock {
      FinishInUse(table, image', b.freeBlock, owner, d', x);
    }
  }

  /** The rounded size brings in no data block and drops none. */
  lemma FinishInUse(table: seq<Inode>, image: Image, free: nat, owner: map<nat, Place>, d': Inode, x: nat)
    requires Inv(table, image, free, owner) && N_META <= x
    requires table[ROOT_INO].addrs == d'.addrs && table[ROOT_INO].size <= d'.size
    requires Table(image) == table[ROOT_INO := d']
    ensures InUse(image, x) <==> x < free
  {
    hide ZeroTail, BlockAt, Table;
    forall s | 0 <= s <= SELF ensures BlockAt(d', image, s) == BlockAt(table[ROOT_INO], image, s) {
      SameAddrs(table[ROOT_INO], d', image, s);
    }
    if x < free {
      assert Holds(image, owner[x].inum, owner[x].slot, x);
    }
    forall n: nat, s: nat | Holds(image, n, s, x) ensures x < free {
      ShapeOf(table, image, free, owner, n);
    }
  }

  lemma SameAddrs(d: Inode, d': Inode, image: Image, s: nat)
    requires WellSized(image) && s <= SELF && d.addrs == d'.addrs
    ensures BlockAt(d, image, s) == BlockAt(d', image, s)
  {
  }

  // ---- kinds ----

  /** The root is a directory and the other inodes below n are regular files, each with one link and no device. */
  predicate Typed(image: Image, n: nat)
    requires WellSized(image) && n <= INODE_SLOTS
  {
    && Headers(image)[ROOT_INO] == Header(1, 0, 0, 1)
    && forall i | 2 <= i < n :: Headers(image)[i] == Header(2, 0, 0, 1)
  }

  // ---- what main needs ----

  /** Blocks that the files take. */
  function FileBlocks(files: seq<Source>): nat {
    if files == [] then 0
    else FileBlocks(files[..|files| - 1]) + BlocksFor(|Flatten(files[|files| - 1].pieces)|)
  }

  /** Blocks that the files and the root directory take. */
  function BlocksNeeded(files: seq<Source>): nat {
    BlocksFor(16 * (|files| + 2)) + FileBlocks(files)
  }

  predicate FilesFit(files: seq<Source>) {
    forall i | 0 <= i < |files| :: |Flatten(files[i].pieces)| <= MAX_FILE * BLK_SIZE
  }

  /** Names that set_name accepts, files of at most 140 blocks, and 941 blocks for everything. */
  predicate Buildable(files: seq<Source>) {
    NamesFit(files) && FilesFit(files) && BlocksNeeded(files) <= FS_SIZE - N_META
  }

  lemma SnocNames(files: seq<Source>, src: Source)
    ensures NamesFit(files + [src]) <==> NamesFit(files) && NameFits(Stripped(src.name))
  {
    hide Stripped, NameFits;
    var all := files + [src];
    assert all[|files|] == src && forall i | 0 <= i < |files| :: files[i] == all[i];
  }

  lemma SnocFiles(files: seq<Source>, src: Source)
    ensures FilesFit(files + [src]) <==> FilesFit(files) && |Flatten(src.pieces)| <= MAX_FILE * BLK_SIZE
  {
    hide Flatten;
    var all := files + [src];
    assert all[|files|] == src && forall i | 0 <= i < |files| :: files[i] == all[i];
  }

  lemma SnocBlocks(files: seq<Source>, src: Source)
    ensures BlocksNeeded(files + [src])
         == BlocksFor(16 * (|files| + 3)) + FileBlocks(files) + BlocksFor(|Flatten(src.pieces)|)
  {
    hide BlocksFor, Flatten;
    assert (files + [src])[..|files|] == files;
  }

  /** What one file more adds to the condition. */
  lemma BuildableSnoc(files: seq<Source>, src: Source)
    ensures Buildable(files + [src]) <==>
      && NamesFit(files) && FilesFit(files) && NameFits(Stripped(src.name)) && |Flatten(src.pieces)| <= MAX_FILE * BLK_SIZE
      && BlocksFor(16 * (|files| + 3)) + FileBlocks(files) + BlocksFor(|Flatten(src.pieces)|) <= FS_SIZE - N_META
  {
    hide NamesFit, FilesFit, BlocksNeeded, BlocksFor, FileBlocks, Flatten, NameFits, Stripped;
    SnocNames(files, src);
    SnocFiles(files, src);
    SnocBlocks(files, src);
  }

  lemma MoreBlocks(m: nat, n: nat)
    requires m <= n
    ensures BlocksFor(m) <= BlocksFor(n)
  {
  }

  /** What a list needs, each of its prefixes does not exceed. */
  lemma {:induction false} BuildablePrefix(files: seq<Source>, n: nat)
    requires n <= |files| && Buildable(files)
    ensures Buildable(files[..n])
    decreases |files|
  {
    hide Buildable;
    if n == |files| {
      assert files[..n] == files;
    } else {
      var less := files[..|files| - 1];
      assert less + [files[|files| - 1]] == files && less[..n] == files[..n];
      ButOne(less, files[|files| - 1]);
      BuildablePrefix(less, n);
    }
  }

  lemma ButOne(files: seq<Source>, src: Source)
    requires Buildable(files + [src])
    ensures Buildable(files)
  {
    hide NamesFit, FilesFit, BlocksFor, FileBlocks, NameFits, Flatten, Stripped;
    BuildableSnoc(files, src);
    MoreBlocks(16 * (|files| + 2), 16 * (|files| + 3));
  }

  lemma {:induction false} FlattenPrefix(pieces: seq<seq<Byte>>, k: nat)
    requires k <= |pieces|
    ensures |Flatten(pieces[..k])| <= |Flatten(pieces)|
    decreases |pieces|
  {
    if k == |pieces| {
      assert pieces[..k] == pieces;
    } else {
      assert pieces[..|pieces| - 1][..k] == pieces[..k];
      FlattenPrefix(pieces[..|pieces| - 1], k);
    }
  }

  // ---- main ----

  /** The state of main after the files given. */
  predicate Progress(b: Builder, owner: map<nat, Place>, files: seq<Source>) {
    && |files| <= MAX_FILES && NamesFit(files) && FilesFit(files)
    && Sound(b, owner) && Readable(b.image)
    && b.freeInode == |files| + 2 && b.freeBlock == N_META + BlocksNeeded(files) && Typed(b.image, |files| + 2)
    && Files(b.image)[ROOT_INO] == Directory(files)
    && forall i | 0 <= i < |files| :: Files(b.image)[i + 2] == Flatten(files[i].pieces)
  }

  /** One file: its inode, its directory entry, then its pieces as they are read. */
  method AddFile(b: FsBuilder, ghost files: seq<Source>, ghost owner: map<nat, Place>, src: Source)
    returns (status: Status, ghost owner': map<nat, Place>)
    requires Progress(b.State(), owner, files) && |files| < MAX_FILES
    modifies b
    ensures status == Ok <==> Buildable(files + [src])
    ensures 0x2F in Stripped(src.name) || |Stripped(src.name)| > 14 ==> status == Panic
    ensures status == Ok ==> Progress(b.State(), owner', files + [src])
  {
    hide Sound, Files, Append, AllocInode, Directory, BlocksFor, NamesFit, FilesFit, FileBlocks, NameFits, Stripped;
    hide NameField, EncodeU16, EncodeEntry, Flatten, Buildable, WithInode, InodeBlock, Headers, Typed;
    owner' := owner;
    BuildableSnoc(files, src);
    SnocBlocks(files, src);
    var name := Stripped(src.name);
    AllocAllocates(b.State(), owner, 2);
    AllocHeaders(b.State(), 2);
    var inum;
    status, inum := b.AllocateInode(2);
    NameLimits(name);
    var field;
    status, field := SetName(name);
    if status != Ok {
      return;
    }
    assert EncodeU16(inum) + field == EncodeEntry(inum, name) by { EntryIs(inum, name); }
    MoreBlocks(16 * (|files| + 2), 16 * (|files| + 3));
    status, owner' := AppendTo(b, owner', ROOT_INO, EncodeU16(inum) + field);
    if status != Ok {
      return;
    }
    status, owner' := AppendPieces(b, owner', inum, src.pieces);
    if status == Ok {
      NextProgress(old(b.State()), owner, b.State(), owner', files, src);
    }
  }

  lemma NextProgress(b: Builder, owner: map<nat, Place>, b': Builder, owner': map<nat, Place>,
                     files: seq<Source>, src: Source)
    requires Progress(b, owner, files) && |files| < MAX_FILES && NameFits(Stripped(src.name))
    requires Sound(b', owner') && Readable(b'.image) && b'.freeInode == b.freeInode + 1
    requires var dir := Directory(files) + EncodeEntry(|files| + 2, Stripped(src.name));
      Files(b'.image) == Files(b.image)[ROOT_INO := dir][|files| + 2 := Flatten(src.pieces)]
    requires |Flatten(src.pieces)| <= MAX_FILE * BLK_SIZE && b'.freeBlock == N_META + BlocksNeeded(files + [src])
    requires Headers(b'.image) == Headers(b.image)[|files| + 2 := Header(2, 0, 0, 1)]
    ensures Progress(b', owner', files + [src])
  {
    hide Sound, Files, Directory, BlocksFor, FileBlocks, NameFits, Stripped, EncodeEntry, NamesFit, FilesFit, BlocksNeeded;
    hide Headers;
    SnocNames(files, src);
    SnocFiles(files, src);
    DirectoryGrows(files, src);
    var all := files + [src];
    forall i | 0 <= i < |all| ensures Files(b'.image)[i + 2] == Flatten(all[i].pieces) {
      assert i < |files| ==> all[i] == files[i];
    }
  }

  lemma NameLimits(name: seq<Byte>)
    ensures NameFits(name) <==> 0x2F !in name && |name| <= 14
  {
  }

  lemma EntryIs(inum: U16, name: seq<Byte>)
    requires |name| <= DIR_SIZE
    ensures EncodeEntry(inum, name) == EncodeU16(inum) + NameField(name)
  {
  }

  /** The loop that reads a file and appends to its new inode what each read returns. */
  method AppendPieces(b: FsBuilder, ghost owner: map<nat, Place>, inum: nat, pieces: seq<seq<Byte>>)
    returns (status: Status, ghost owner': map<nat, Place>)
    requires Sound(b.State(), owner) && 1 <= inum < b.freeInode && Readable(b.file) && Files(b.file)[inum] == []
    modifies b
    ensures Readable(b.file) && old(Readable(b.file)) && b.freeInode == old(b.freeInode)
    ensures Headers(b.file) == old(Headers(b.file))
    ensures status == Ok <==>
      |Flatten(pieces)| <= MAX_FILE * BLK_SIZE && old(b.freeBlock) + BlocksFor(|Flatten(pieces)|) <= FS_SIZE
    ensures status == Ok ==>
      && Sound(b.State(), owner') && b.freeBlock == old(b.freeBlock) + BlocksFor(|Flatten(pieces)|)
      && Files(b.file) == old(Files(b.file))[inum := Flatten(pieces)]
  {
    assert BlocksFor(0) == 0;
    FreeBound(b.State(), owner);
    hide Sound, Files, Append, BlocksFor, Headers;
    owner' := owner;
    ghost var before := Files(b.file);
    for k := 0 to |pieces|
      invariant Sound(b.State(), owner') && Readable(b.file) && b.freeInode == old(b.freeInode)
      invariant Headers(b.file) == old(Headers(b.file))
      invariant Files(b.file) == before[inum := Flatten(pieces[..k])]
      invariant b.freeBlock == old(b.freeBlock) + BlocksFor(|Flatten(pieces[..k])|) <= FS_SIZE
      invariant |Flatten(pieces[..k])| <= MAX_FILE * BLK_SIZE
    {
      assert pieces[..k + 1][..k] == pieces[..k];
      FlattenPrefix(pieces, k + 1);
      MoreBlocks(|Flatten(pieces[..k + 1])|, |Flatten(pieces)|);
      status, owner' := AppendTo(b, owner', inum, pieces[k]);
      if status != Ok {
        return;
      }
    }
    assert pieces[..|pieces|] == pieces;
    status := Ok;
  }

  lemma FreeBound(b: Builder, owner: map<nat, Place>)
    requires Sound(b, owner)
    ensures N_META <= b.freeBlock <= FS_SIZE
  {
  }

  lemma DirectoryGrows(files: seq<Source>, src: Source)
    requires |files| < MAX_FILES && NamesFit(files) && NameFits(Stripped(src.name))
    ensures NamesFit(files + [src])
    ensures Directory(files + [src]) == Directory(files) + EncodeEntry(|files| + 2, Stripped(src.name))
  {
    hide EncodeEntry, Stripped;
    var all := files + [src];
    var n := |files|;
    assert all[..n] == files && all[n] == src;
    forall i | 0 <= i < |all| ensures NameFits(Stripped(all[i].name)) {
      assert i < n ==> all[i] == files[i];
    }
    hide Directory;
    DirectoryLast(all);
  }

  lemma DirectoryLast(all: seq<Source>)
    requires all != [] && |all| <= MAX_FILES && NamesFit(all)
    ensures Directory(all)
         == Directory(all[..|all| - 1]) + EncodeEntry(|all| + 1, Stripped(all[|all| - 1].name))
  {
    hide EncodeEntry, Stripped;
  }

  /** append_inode on a sound builder. */
  method AppendTo(b: FsBuilder, ghost owner: map<nat, Place>, inum: nat, data: seq<Byte>)
    returns (status: Status, ghost owner': map<nat, Place>)
    requires Sound(b.State(), owner) && 1 <= inum < b.freeInode
    modifies b
    ensures old(Readable(b.file)) && Readable(b.file) && b.freeInode == old(b.freeInode)
    ensures Headers(b.file) == old(Headers(b.file))
    ensures var n := |old(Files(b.file))[inum]|; var more := BlocksFor(n + |data|) - BlocksFor(n);
      && (status == Ok <==> n + |data| <= MAX_FILE * BLK_SIZE && old(b.freeBlock) + more <= FS_SIZE)
      && (status == Ok ==> b.freeBlock == old(b.freeBlock) + more)
    ensures status == Ok ==> Sound(b.State(), owner')
    ensures status == Ok ==> Files(b.file) == old(Files(b.file))[inum := old(Files(b.file))[inum] + data]
    ensures status != Ok ==> Files(b.file) == old(Files(b.file))
  {
    hide BlocksFor;
    ghost var b0 := b.State();
    owner' := owner;
    SoundReadable(b0, owner);
    FileSize(b0, inum);
    AppendSucceeds(b0, owner, inum, data);
    AppendHeaders(b0, owner, inum, data);
    status := b.AppendInode(inum, data);
    hide Sound, Files, Append, Headers;
    if status == Ok {
      owner' := AppendAppends(b0, owner, inum, data);
    } else {
      FailedAppend(b0, owner, inum, data);
    }
  }

  /** The image main has finished writing, for these files. */
  ghost predicate Finished(b: Builder, files: seq<Source>)
    requires NamesFit(files) && |files| <= MAX_FILES
  {
    && Readable(b.image) && Typed(b.image, |files| + 2)
    && (forall i | 0 <= i < |files| :: Files(b.image)[i + 2] == Flatten(files[i].pieces))
    && Directory(files) <= Files(b.image)[ROOT_INO]
    && |Files(b.image)[ROOT_INO]| == RoundedSize(|Directory(files)|)
    && (|Directory(files)| % BLK_SIZE != 0 ==>
          forall i | |Directory(files)| <= i < |Files(b.image)[ROOT_INO]| :: Files(b.image)[ROOT_INO][i] == 0)
    && (forall x | 0 <= x < BLK_SIZE * 8 :: BitSet(b.image[BMAP_START], x) <==> x < N_META || InUse(b.image, x))
  }

  /**
   * The finished root directory decodes to ".", "..", then every file in order, each entry naming an
   * inode that holds the file's bytes; what the rounded size adds has inode number 0.
   */
  lemma FinishedDirectory(b: Builder, files: seq<Source>)
    requires NamesFit(files) && |files| <= MAX_FILES && Finished(b, files)
    requires forall i | 0 <= i < |files| :: |Stripped(files[i].name)| < DIR_SIZE && 0 !in Stripped(files[i].name)
    ensures var dir := Files(b.image)[ROOT_INO];
      && |dir| >= 16 * (|files| + 2)
      && EntryAt(dir, 0) == Entry(ROOT_INO, [DOT]) && EntryAt(dir, 1) == Entry(ROOT_INO, [DOT, DOT])
      && (forall i | 0 <= i < |files| ::
            && EntryAt(dir, i + 2) == Entry(i + 2, Stripped(files[i].name))
            && Files(b.image)[EntryAt(dir, i + 2).inum] == Flatten(files[i].pieces))
      && ((|files| + 2) % 32 != 0 ==>
            forall k: nat | |files| + 2 <= k && 16 * k + 16 <= |dir| :: EntryAt(dir, k).inum == 0)
  {
    hide Files, Directory, EntryAt;
    var dir := Files(b.image)[ROOT_INO];
    DirectoryDecodes(files, dir);
    if (|files| + 2) % 32 != 0 {
      assert |Directory(files)| % BLK_SIZE != 0;
      forall k: nat | |files| + 2 <= k && 16 * k + 16 <= |dir| ensures EntryAt(dir, k).inum == 0 {
        ZeroEntries(dir, k);
      }
    }
  }

  /** mkfs: build the image for a list of files. */
  method BuildImage(existing: Image, files: seq<Source>) returns (status: Status, b: FsBuilder)
    requires |existing| <= FS_SIZE && |files| <= MAX_FILES
    ensures fresh(b)
    ensures status == Ok <==> Buildable(files)
    ensures status == Ok ==> Finished(b.State(), files)
    ensures status == Ok ==> ((exists owner :: Sound(b.State(), owner)) <==> (|files| + 2) % 32 != 0)
  {
    hide Sound, Files, Append, AllocInode, EncodeEntry, BlocksFor, NamesFit, FilesFit, Buildable, Progress, Finished;
    ghost var owner;
    status, b, owner := EmptyRoot(existing);
    for i := 0 to |files|
      invariant fresh(b) && Progress(b.State(), owner, files[..i])
    {
      status, owner := AddFile(b, files[..i], owner, files[i]);
      assert files[..i] + [files[i]] == files[..i + 1];
      if status != Ok {
        if Buildable(files) {
          BuildablePrefix(files, i + 1);
        }
        return;
      }
    }
    assert files[..|files|] == files;
    ProgressBuildable(b.State(), owner, files);
    status := Conclude(b, owner, files);
  }

  /** A new image with the root directory, which holds "." and "..". */
  method EmptyRoot(existing: Image) returns (status: Status, b: FsBuilder, ghost owner: map<nat, Place>)
    requires |existing| <= FS_SIZE
    ensures fresh(b) && status == Ok && Progress(b.State(), owner, [])
  {
    SmallDirectory();
    NoFiles();
    hide Sound, Files, Append, AllocInode, EncodeEntry, BlocksFor, NamesFit, FilesFit, WithInode, Beyond;
    hide BlankImage, Headers;
    b := new FsBuilder(existing);
    BlankIsSound();
    owner := map[];
    AllocAllocates(b.State(), owner, 1);
    AllocHeaders(b.State(), 1);
    var root;
    status, root := b.AllocateInode(1);
    status, owner := AppendTo(b, owner, root, EncodeEntry(root, [DOT]));
    status, owner := AppendTo(b, owner, root, EncodeEntry(root, [DOT, DOT]));
  }

  lemma SmallDirectory()
    ensures BlocksFor(0) == 0 && BlocksFor(16) == 1 && BlocksFor(32) == 1
  {
  }

  lemma NoFiles()
    ensures NamesFit([]) && FilesFit([])
  {
  }

  lemma ProgressBuildable(b: Builder, owner: map<nat, Place>, files: seq<Source>)
    requires Progress(b, owner, files)
    ensures Buildable(files)
  {
    hide Files, Directory, BlocksNeeded;
    FreeBound(b, owner);
  }

  /** The size fix-up of the root directory and the bitmap. */
  method Conclude(b: FsBuilder, ghost owner: map<nat, Place>, ghost files: seq<Source>) returns (status: Status)
    requires Progress(b.State(), owner, files)
    modifies b
    ensures status == Ok && Finished(b.State(), files)
    ensures (exists owner' :: Sound(b.State(), owner')) <==> (|files| + 2) % 32 != 0
  {
    hide GetInode, PutInode, Sound, Files, InUse, Directory, BlocksNeeded, NamesFit, FilesFit, Flatten;
    hide WithInode, InodeIn, Headers;
    ghost var b0 := b.State();
    FixUpHeaders(b0);
    RootSound(b0, owner, files);
    var d;
    status, d := b.ReadInode(ROOT_INO);
    status := b.WriteInode(ROOT_INO, WithData(d, RoundedSize(d.size), d.addrs));
    ghost var image1 := b.file;
    FileSize(b0, ROOT_INO);
    SoundIsPartitioned(b0, owner);
    status := b.AllocBlock();
    TableFrame(image1, b.file);
    assert b.file[N_META..] == b0.image[N_META..];
    Finish(b0, owner, b.file);
    SoundSame(FixUp(b0), b.State());
    SameHeaders(FixUp(b0).image, b.file);
  }

  lemma FileSize(b: Builder, n: nat)
    requires Readable(b.image) && n < INODE_SLOTS
    ensures |Files(b.image)[n]| == GetInode(b.image, n).size
  {
  }

  /** After main's files, the rounded directory is sound exactly when its entries do not fill whole blocks. */
  lemma RootSound(b: Builder, owner: map<nat, Place>, files: seq<Source>)
    requires Progress(b, owner, files)
    ensures (exists owner' :: Sound(FixUp(b), owner')) <==> (|files| + 2) % 32 != 0
  {
    hide FixUp, GetInode, Inv, Files, Directory, Sound, Typed, BlocksNeeded, NamesFit, FilesFit, Flatten;
    FileSize(b, ROOT_INO);
    FixUpSound(b, owner);
  }

  /** Soundness is about the inode table, the data sectors and the counters. */
  lemma SoundSame(b: Builder, b': Builder)
    requires WellSized(b.image) && WellSized(b'.image) && Table(b.image) == Table(b'.image)
    requires b.image[N_META..] == b'.image[N_META..] && b.freeInode == b'.freeInode && b.freeBlock == b'.freeBlock
    ensures (exists owner :: Sound(b, owner)) <==> exists owner :: Sound(b', owner)
  {
    forall owner: map<nat, Place> ensures Sound(b, owner) <==> Sound(b', owner) {
      if Sound(b, owner) {
        SoundFrame(b, b', owner);
      }
      if Sound(b', owner) {
        SoundFrame(b', b, owner);
      }
    }
  }

  lemma SoundFrame(b: Builder, b': Builder, owner: map<nat, Place>)
    requires Sound(b, owner) && WellSized(b'.image) && Table(b.image) == Table(b'.image)
    requires b.image[N_META..] == b'.image[N_META..] && b.freeInode == b'.freeInode && b.freeBlock == b'.freeBlock
    ensures Sound(b', owner)
  {
    hide GetInode, Struct;
    InvFrame(Table(b.image), b.image, b'.image, b.freeBlock, owner);
    forall n | 0 <= n < INODE_SLOTS ensures GetInode(b'.image, n) == GetInode(b.image, n) {
      assert Table(b.image)[n] == GetInode(b.image, n) && Table(b'.image)[n] == GetInode(b'.image, n);
    }
  }

  /** Thirty empty files: main succeeds and leaves a root directory whose size covers a block it does not have. */
  function Thirty(): seq<Source> {
    seq(30, _ => Source([0x61], []))
  }

  lemma ThirtyFillTheBlock()
    ensures |Thirty()| <= MAX_FILES && Buildable(Thirty()) && (|Thirty()| + 2) % 32 == 0
  {
    EmptyFiles(30);
  }

  lemma {:induction false} EmptyFiles(n: nat)
    ensures FileBlocks(seq(n, _ => Source([0x61], []))) == 0
  {
    if n == 0 {
    } else {
      assert seq(n, _ => Source([0x61], []))[..n - 1] == seq(n - 1, _ => Source([0x61], []));
      EmptyFiles(n - 1);
    }
  }
}

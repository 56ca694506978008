/** bootloader/src/main.rs: loading the kernel's ELF segments from the sectors after the boot sector. */
module Bootloader {
  import opened LittleEndian

  const SECTOR := 512
  /** Where boot_main puts the first page of the kernel file. */
  const HEADER := 0x1_0000
  const PAGE := 4096

  /** The kernel file: the disk from sector 1 on. */
  function Kernel(disk: seq<Byte>): seq<Byte>
    requires |disk| >= SECTOR
  {
    disk[SECTOR..]
  }

  // ---- reading ----

  /** First address written by read_segment. */
  function Lo(pa: nat, offset: nat): int {
    pa - offset % SECTOR
  }

  function SectorCount(count: nat, offset: nat): nat {
    (count + offset % SECTOR + SECTOR - 1) / SECTOR
  }

  /** Address after the last one written by read_segment. */
  function Hi(pa: nat, count: nat, offset: nat): int {
    Lo(pa, offset) + SECTOR * SectorCount(count, offset)
  }

  /** Reading whole sectors reaches fewer than 512 bytes past either end. */
  lemma Overrun(pa: nat, count: nat, offset: nat)
    ensures Lo(pa, offset) <= pa < Lo(pa, offset) + SECTOR
    ensures pa + count <= Hi(pa, count, offset) < pa + count + SECTOR
  {
  }

  method ReadSector(mem: array<Byte>, disk: seq<Byte>, dst: nat, sec: nat)
    requires dst + SECTOR <= mem.Length && SECTOR * sec + SECTOR <= |disk|
    modifies mem
    ensures forall a | 0 <= a < mem.Length ::
              mem[a] == if dst <= a < dst + SECTOR then disk[SECTOR * sec + (a - dst)] else old(mem[a])
  {
    for i := 0 to SECTOR
      invariant forall a | 0 <= a < mem.Length ::
                  mem[a] == if dst <= a < dst + i then disk[SECTOR * sec + (a - dst)] else old(mem[a])
    {
      mem[dst + i] := disk[SECTOR * sec + i];
    }
  }

  /** The sectors read exist and the addresses written are memory. */
  predicate InBounds(length: nat, disk: seq<Byte>, pa: nat, count: nat, offset: nat) {
    && 0 <= Lo(pa, offset) && Hi(pa, count, offset) <= length
    && SECTOR * (offset / SECTOR + 1 + SectorCount(count, offset)) <= |disk|
  }

  /** Byte `offset + k` of the kernel goes to address `pa + k`, for whole sectors around the range asked for. */
  method ReadSegment(mem: array<Byte>, disk: seq<Byte>, pa: nat, count: nat, offset: nat)
    requires |disk| >= SECTOR && InBounds(mem.Length, disk, pa, count, offset)
    modifies mem
    ensures forall a | 0 <= a < mem.Length ::
              mem[a] == if Lo(pa, offset) <= a < Hi(pa, count, offset) then Kernel(disk)[offset + (a - pa)] else old(mem[a])
  {
    var end := pa + count;
    var p := pa - offset % SECTOR;
    var sec := offset / SECTOR + 1;
    ghost var k := 0;
    while p < end
      invariant k <= SectorCount(count, offset) && p == Lo(pa, offset) + SECTOR * k && sec == offset / SECTOR + 1 + k
      invariant forall a | 0 <= a < mem.Length ::
                  mem[a] == if Lo(pa, offset) <= a < p then Kernel(disk)[offset + (a - pa)] else old(mem[a])
    {
      assert k < SectorCount(count, offset);
      assert SECTOR * sec + SECTOR <= |disk|;
      ReadSector(mem, disk, p, sec);
      forall a | p <= a < p + SECTOR ensures mem[a] == Kernel(disk)[offset + (a - pa)] {
        assert SECTOR * sec + (a - p) == SECTOR + (offset + (a - pa));
      }
      p := p + SECTOR;
      sec := sec + 1;
      k := k + 1;
    }
  }

  /** Fill with one byte, as `rep stosb` does. */
  method Stosb(mem: array<Byte>, at: nat, value: Byte, count: nat)
    requires at + count <= mem.Length
    modifies mem
    ensures forall a | 0 <= a < mem.Length :: mem[a] == if at <= a < at + count then value else old(mem[a])
  {
    for i := 0 to count
      invariant forall a | 0 <= a < mem.Length :: mem[a] == if at <= a < at + i then value else old(mem[a])
    {
      mem[at + i] := value;
    }
  }

  // ---- the ELF file ----

  datatype Segment = Segment(offset: U32, paddr: U32, filesz: U32, memsz: U32)

  predicate IsElf(h: seq<Byte>)
    requires |h| == PAGE
  {
    h[..4] == [0x7F, 0x45, 0x4C, 0x46]
  }

  /** e_entry, e_phoff and e_phnum */
  function EntryPoint(h: seq<Byte>): U32
    requires |h| == PAGE
  {
    DecodeU32(h, 24)
  }

  function PhOff(h: seq<Byte>): nat
    requires |h| == PAGE
  {
    DecodeU32(h, 28)
  }

  function PhNum(h: seq<Byte>): nat
    requires |h| == PAGE
  {
    DecodeU16(h, 44)
  }

  /** The program header table lies in the page that is read. */
  predicate TableInPage(h: seq<Byte>)
    requires |h| == PAGE
  {
    PhOff(h) + 32 * PhNum(h) <= PAGE
  }

  /** The program header at offset `at` of the page. */
  function HeaderAt(h: seq<Byte>, at: nat): Segment
    requires |h| == PAGE && at + 32 <= PAGE
  {
    Segment(DecodeU32(h, at + 4), DecodeU32(h, at + 12), DecodeU32(h, at + 16), DecodeU32(h, at + 20))
  }

  function SegmentAt(h: seq<Byte>, i: nat): Segment
    requires |h| == PAGE && TableInPage(h) && i < PhNum(h)
  {
    HeaderAt(h, PhOff(h) + 32 * i)
  }

  /** The first n segments. */
  function Segments(h: seq<Byte>, n: nat): (r: seq<Segment>)
    requires |h| == PAGE && TableInPage(h) && n <= PhNum(h)
    ensures |r| == n && forall i | 0 <= i < n :: r[i] == SegmentAt(h, i)
  {
    if n == 0 then [] else Segments(h, n - 1) + [SegmentAt(h, n - 1)]
  }

  /** Everything loading the segment writes: [Lo, FootEnd). */
  function FootEnd(s: Segment): int {
    var hi := Hi(s.paddr, s.filesz, s.offset);
    if s.paddr + s.memsz > hi then s.paddr + s.memsz else hi
  }

  predicate Touches(s: Segment, a: int) {
    Lo(s.paddr, s.offset) <= a < FootEnd(s)
  }

  /** The memory the segment is meant to have: [paddr, MemEnd). */
  function MemEnd(s: Segment): int {
    s.paddr + if s.memsz > s.filesz then s.memsz else s.filesz
  }

  /** The segment's sectors exist, and what it writes is memory. */
  predicate Fits(length: nat, disk: seq<Byte>, s: Segment) {
    InBounds(length, disk, s.paddr, s.filesz, s.offset) && FootEnd(s) <= length
  }

  /** Loading the segment leaves the bytes lo to end alone. */
  predicate Misses(s: Segment, lo: int, end: int) {
    forall a | lo <= a < end :: !Touches(s, a)
  }

  /** Address a holds a byte of program header j. */
  predicate InHeader(phOff: nat, j: nat, a: int) {
    HEADER + phOff + 32 * j <= a < HEADER + phOff + 32 * j + 32
  }

  /**
   * A kernel file that can be loaded at all: its segments fit in memory, and none overwrites a
   * program header that is still to be read.
   */
  ghost predicate Loadable(length: nat, disk: seq<Byte>) {
    && |disk| >= SECTOR && InBounds(length, disk, HEADER, PAGE, 0)
    && var h := Kernel(disk)[..PAGE];
      IsElf(h) ==>
        && TableInPage(h)
        && (forall i | 0 <= i < PhNum(h) :: Fits(length, disk, SegmentAt(h, i)))
        && (forall i, j, a | 0 <= i < j < PhNum(h) && InHeader(PhOff(h), j, a) :: !Touches(SegmentAt(h, i), a))
  }

  /** The byte that loading the segment leaves at an address it touches. */
  function ByteOf(length: nat, disk: seq<Byte>, s: Segment, a: nat): Byte
    requires |disk| >= SECTOR && Fits(length, disk, s) && Touches(s, a)
  {
    Overrun(s.paddr, s.filesz, s.offset);
    if s.paddr + s.filesz <= a < s.paddr + s.memsz then 0 else Kernel(disk)[s.offset + (a - s.paddr)]
  }

  /** The byte at address a once the segments have been loaded over `before`: the last one to touch it wins. */
  function Layered(length: nat, disk: seq<Byte>, segs: seq<Segment>, before: seq<Byte>, a: nat): Byte
    requires |disk| >= SECTOR && a < |before| && forall i | 0 <= i < |segs| :: Fits(length, disk, segs[i])
  {
    if segs == [] then before[a]
    else
      var n := |segs| - 1;
      if Touches(segs[n], a) then ByteOf(length, disk, segs[n], a) else Layered(length, disk, segs[..n], before, a)
  }

  /** Memory with the first page of the kernel file at HEADER. */
  function WithHeader(mem: seq<Byte>, disk: seq<Byte>): seq<Byte>
    requires |disk| >= SECTOR && InBounds(|mem|, disk, HEADER, PAGE, 0)
  {
    Patch(mem, HEADER, Kernel(disk)[..PAGE])
  }

  /** The segment's file bytes are in place, followed by zeros up to its memory size. */
  predicate Loaded(mem: seq<Byte>, kernel: seq<Byte>, s: Segment) {
    && s.paddr + s.filesz <= |mem| && s.paddr + s.memsz <= |mem| && s.offset + s.filesz <= |kernel|
    && mem[s.paddr..s.paddr + s.filesz] == kernel[s.offset..s.offset + s.filesz]
    && (forall a | s.paddr + s.filesz <= a < s.paddr + s.memsz :: mem[a] == 0)
  }

  /** One turn of the loop of boot_main. */
  method LoadSegment(mem: array<Byte>, disk: seq<Byte>, s: Segment)
    requires |disk| >= SECTOR && Fits(mem.Length, disk, s)
    modifies mem
    ensures Loaded(mem[..], Kernel(disk), s)
    ensures forall a: nat | a < mem.Length ::
              mem[a] == if Touches(s, a) then ByteOf(mem.Length, disk, s, a) else old(mem[a])
  {
    Overrun(s.paddr, s.filesz, s.offset);
    ReadSegment(mem, disk, s.paddr, s.filesz, s.offset);
    if s.memsz > s.filesz {
      Stosb(mem, s.paddr + s.filesz, 0, s.memsz - s.filesz);
    }
    assert mem[s.paddr..s.paddr + s.filesz] == Kernel(disk)[s.offset..s.offset + s.filesz];
  }

  /** boot_main up to the jump into the kernel; false when the file is not ELF. */
  method BootMain(mem: array<Byte>, disk: seq<Byte>) returns (ok: bool, entry: U32)
    requires Loadable(mem.Length, disk)
    modifies mem
    ensures ok <==> IsElf(Kernel(disk)[..PAGE])
    ensures !ok ==> mem[..] == WithHeader(old(mem[..]), disk)
    ensures ok ==> entry == EntryPoint(mem[HEADER..HEADER + PAGE])
    ensures ok ==> var h := Kernel(disk)[..PAGE];
      forall a: nat | a < mem.Length ::
        mem[a] == Layered(mem.Length, disk, Segments(h, PhNum(h)), WithHeader(old(mem[..]), disk), a)
  {
    hide SegmentAt, IsElf, ByteOf, Loaded, HeaderAt, Touches, Fits, InHeader, Segments, PhOff, PhNum;
    ghost var h := Kernel(disk)[..PAGE];
    ReadSegment(mem, disk, HEADER, PAGE, 0);
    ghost var first := WithHeader(old(mem[..]), disk);
    assert mem[..] == first && mem[HEADER..HEADER + PAGE] == h;
    if !IsElf(mem[HEADER..HEADER + PAGE]) {
      return false, 0;
    }
    var off, n := PhOff(mem[HEADER..HEADER + PAGE]), PhNum(mem[HEADER..HEADER + PAGE]);
    assert forall a: nat | a < mem.Length :: mem[a] == Layered(mem.Length, disk, Segments(h, 0), first, a);
    hide Layered;
    for i := 0 to n
      invariant forall j, a | i <= j < n && InHeader(off, j, a) && 0 <= a < mem.Length :: mem[a] == first[a]
      invariant forall a: nat | a < mem.Length :: mem[a] == Layered(mem.Length, disk, Segments(h, i), first, a)
    {
      ghost var before := mem[..];
      var s := HeaderAt(mem[HEADER..HEADER + PAGE], off + 32 * i);
      SameHeader(before, first, h, i);
      LoadSegment(mem, disk, s);
      forall a: nat | a < mem.Length ensures mem[a] == Layered(mem.Length, disk, Segments(h, i + 1), first, a) {
        LayeredNext(mem.Length, disk, h, i, first, a);
      }
    }
    return true, EntryPoint(mem[HEADER..HEADER + PAGE]);
  }

  /** A program header whose bytes are unchanged reads as in the file. */
  lemma SameHeader(mem: seq<Byte>, first: seq<Byte>, h: seq<Byte>, i: nat)
    requires HEADER + PAGE <= |mem| == |first| && first[HEADER..HEADER + PAGE] == h && TableInPage(h) && i < PhNum(h)
    requires forall a | InHeader(PhOff(h), i, a) && 0 <= a < |mem| :: mem[a] == first[a]
    ensures HeaderAt(mem[HEADER..HEADER + PAGE], PhOff(h) + 32 * i) == SegmentAt(h, i)
  {
    hide PhOff, PhNum;
    var at := PhOff(h) + 32 * i;
    forall k | at <= k < at + 32 ensures mem[HEADER..HEADER + PAGE][k] == h[k] {
      assert InHeader(PhOff(h), i, HEADER + k);
    }
  }

  lemma LayeredNext(length: nat, disk: seq<Byte>, h: seq<Byte>, i: nat, before: seq<Byte>, a: nat)
    requires |disk| >= SECTOR && a < |before| && |h| == PAGE && TableInPage(h) && i < PhNum(h)
    requires forall k | 0 <= k < PhNum(h) :: Fits(length, disk, SegmentAt(h, k))
    ensures Layered(length, disk, Segments(h, i + 1), before, a)
         == if Touches(SegmentAt(h, i), a) then ByteOf(length, disk, SegmentAt(h, i), a)
            else Layered(length, disk, Segments(h, i), before, a)
  {
    hide Touches, ByteOf, Fits, SegmentAt;
    assert Segments(h, i + 1)[..i] == Segments(h, i);
  }

  // ---- what the kernel finds ----

  /** An address no segment touches is as before. */
  lemma {:induction false} Untouched(length: nat, disk: seq<Byte>, segs: seq<Segment>, before: seq<Byte>, a: nat)
    requires |disk| >= SECTOR && a < |before| && forall i | 0 <= i < |segs| :: Fits(length, disk, segs[i])
    requires forall i | 0 <= i < |segs| :: !Touches(segs[i], a)
    ensures Layered(length, disk, segs, before, a) == before[a]
  {
    hide Touches, ByteOf, Fits;
    if segs == [] {
    } else {
      Untouched(length, disk, segs[..|segs| - 1], before, a);
    }
  }

  /** An address belongs to the last segment that touches it. */
  lemma {:induction false} LastWins(length: nat, disk: seq<Byte>, segs: seq<Segment>, before: seq<Byte>, a: nat, i: nat)
    requires |disk| >= SECTOR && a < |before| && forall k | 0 <= k < |segs| :: Fits(length, disk, segs[k])
    requires i < |segs| && Touches(segs[i], a) && forall k | i < k < |segs| :: !Touches(segs[k], a)
    ensures Layered(length, disk, segs, before, a) == ByteOf(length, disk, segs[i], a)
    decreases |segs|
  {
    hide Touches, ByteOf, Fits;
    if i == |segs| - 1 {
    } else {
      LastWins(length, disk, segs[..|segs| - 1], before, a, i);
    }
  }

  /** Segment i is in memory if no later one touches its memory; overruns may overlap anywhere else. */
  lemma SegmentLoaded(length: nat, disk: seq<Byte>, segs: seq<Segment>, before: seq<Byte>, mem: seq<Byte>, i: nat)
    requires |disk| >= SECTOR && |before| == |mem| == length && forall k | 0 <= k < |segs| :: Fits(length, disk, segs[k])
    requires forall a: nat | a < length :: mem[a] == Layered(length, disk, segs, before, a)
    requires i < |segs| && forall k | i < k < |segs| :: Misses(segs[k], segs[i].paddr, MemEnd(segs[i]))
    ensures Loaded(mem, Kernel(disk), segs[i])
  {
    hide Layered;
    var s := segs[i];
    Overrun(s.paddr, s.filesz, s.offset);
    forall a: nat | s.paddr <= a < MemEnd(s) ensures mem[a] == ByteOf(length, disk, s, a) {
      LastWins(length, disk, segs, before, a, i);
    }
    assert mem[s.paddr..s.paddr + s.filesz] == Kernel(disk)[s.offset..s.offset + s.filesz];
  }

  // ---- the file as records ----

  /** The ELF header and a program header, field by field as they stand in the file. */
  datatype ElfHeader = ElfHeader(ident: seq<Byte>, kind: U16, machine: U16, version: U32, entry: U32, phoff: U32,
                                 shoff: U32, flags: U32, ehsize: U16, phentsize: U16, phnum: U16, shentsize: U16,
                                 shnum: U16, shstrndx: U16)

  datatype ProgHeader = ProgHeader(kind: U32, offset: U32, vaddr: U32, paddr: U32, filesz: U32, memsz: U32, flags: U32,
                                   align: U32)

  function EncodeElf(e: ElfHeader): seq<Byte> {
    e.ident + EncodeU16(e.kind) + EncodeU16(e.machine)
    + EncodeWords([e.version, e.entry, e.phoff, e.shoff, e.flags])
    + EncodeU16(e.ehsize) + EncodeU16(e.phentsize) + EncodeU16(e.phnum)
    + EncodeU16(e.shentsize) + EncodeU16(e.shnum) + EncodeU16(e.shstrndx)
  }

  function EncodeProg(p: ProgHeader): seq<Byte> {
    EncodeWords([p.kind, p.offset, p.vaddr, p.paddr, p.filesz, p.memsz, p.flags, p.align])
  }

  /** The first page of the file starts with the header e, and holds the program headers ps where e says. */
  predicate Describes(h: seq<Byte>, e: ElfHeader, ps: seq<ProgHeader>) {
    && |h| == PAGE && |e.ident| == 16 && h[..52] == EncodeElf(e)
    && |ps| == e.phnum && e.phoff + 32 * |ps| <= PAGE
    && forall i | 0 <= i < |ps| :: h[e.phoff + 32 * i..e.phoff + 32 * i + 32] == EncodeProg(ps[i])
  }

  lemma ElfFields(h: seq<Byte>, e: ElfHeader)
    requires |h| == PAGE && |e.ident| == 16 && h[..52] == EncodeElf(e)
    ensures IsElf(h) <==> e.ident[..4] == [0x7F, 0x45, 0x4C, 0x46]
    ensures EntryPoint(h) == e.entry && PhOff(h) == e.phoff && PhNum(h) == e.phnum
  {
    var f := EncodeElf(e);
    var ws := [e.version, e.entry, e.phoff, e.shoff, e.flags];
    assert h[..4] == f[..4] == e.ident[..4];
    assert h[20..40] == f[20..40] == EncodeWords(ws);
    WordRoundTrip(ws, h, 20, 1);
    WordRoundTrip(ws, h, 20, 2);
    assert h[44..46] == f[44..46] == EncodeU16(e.phnum);
    U16RoundTrip(e.phnum, h, 44);
  }

  lemma ProgFields(h: seq<Byte>, at: nat, p: ProgHeader)
    requires |h| == PAGE && at + 32 <= PAGE && h[at..at + 32] == EncodeProg(p)
    ensures HeaderAt(h, at) == Segment(p.offset, p.paddr, p.filesz, p.memsz)
  {
    var ws := [p.kind, p.offset, p.vaddr, p.paddr, p.filesz, p.memsz, p.flags, p.align];
    WordRoundTrip(ws, h, at, 1);
    WordRoundTrip(ws, h, at, 3);
    WordRoundTrip(ws, h, at, 4);
    WordRoundTrip(ws, h, at, 5);
  }

  /** What the boot loader reads from the page is what the records say. */
  lemma RecordsRead(h: seq<Byte>, e: ElfHeader, ps: seq<ProgHeader>)
    requires Describes(h, e, ps)
    ensures IsElf(h) <==> e.ident[..4] == [0x7F, 0x45, 0x4C, 0x46]
    ensures EntryPoint(h) == e.entry && PhOff(h) == e.phoff && PhNum(h) == |ps| && TableInPage(h)
    ensures forall i | 0 <= i < |ps| ::
              SegmentAt(h, i) == Segment(ps[i].offset, ps[i].paddr, ps[i].filesz, ps[i].memsz)
  {
    hide IsElf, EntryPoint, PhOff, PhNum, EncodeElf, EncodeProg, HeaderAt;
    ElfFields(h, e);
    forall i | 0 <= i < |ps| ensures SegmentAt(h, i) == Segment(ps[i].offset, ps[i].paddr, ps[i].filesz, ps[i].memsz) {
      ProgFields(h, e.phoff + 32 * i, ps[i]);
    }
  }

  /** The file bytes of a program header are at its physical address, followed by zeros up to its memory size. */
  predicate InPlace(mem: seq<Byte>, kernel: seq<Byte>, p: ProgHeader) {
    && p.paddr + p.filesz <= |mem| && p.paddr + p.memsz <= |mem| && p.offset + p.filesz <= |kernel|
    && mem[p.paddr..p.paddr + p.filesz] == kernel[p.offset..p.offset + p.filesz]
    && (forall a | p.paddr + p.filesz <= a < p.paddr + p.memsz :: mem[a] == 0)
  }

  function SegmentOf(p: ProgHeader): Segment {
    Segment(p.offset, p.paddr, p.filesz, p.memsz)
  }

  /**
   * After boot_main, for a file with these headers: every segment whose memory no later one touches is
   * loaded at its physical address, the entry point is the file's if no segment touches it, and a byte
   * that no segment touches is as after the header page.
   */
  lemma BootLoads(disk: seq<Byte>, e: ElfHeader, ps: seq<ProgHeader>, before: seq<Byte>, mem: seq<Byte>)
    requires |mem| == |before| && Loadable(|mem|, disk) && Describes(Kernel(disk)[..PAGE], e, ps)
    requires IsElf(Kernel(disk)[..PAGE])
    requires var h := Kernel(disk)[..PAGE];
      forall a: nat | a < |mem| :: mem[a] == Layered(|mem|, disk, Segments(h, PhNum(h)), WithHeader(before, disk), a)
    ensures forall i | 0 <= i < |ps| &&
              (forall k | i < k < |ps| :: Misses(SegmentOf(ps[k]), ps[i].paddr, MemEnd(SegmentOf(ps[i])))) ::
              InPlace(mem, Kernel(disk), ps[i])
    ensures (forall i | 0 <= i < |ps| :: Misses(SegmentOf(ps[i]), HEADER + 24, HEADER + 28)) ==>
              EntryPoint(mem[HEADER..HEADER + PAGE]) == e.entry
    ensures forall a: nat | a < |mem| && (forall i | 0 <= i < |ps| :: !Touches(SegmentOf(ps[i]), a)) ::
              mem[a] == WithHeader(before, disk)[a]
  {
    hide Layered, Fits, Touches, SegmentAt, Loaded, Describes, PhNum, EntryPoint;
    var h := Kernel(disk)[..PAGE];
    RecordsRead(h, e, ps);
    var segs, first := Segments(h, PhNum(h)), WithHeader(before, disk);
    hide Segments;
    assert forall i | 0 <= i < |ps| :: segs[i] == SegmentOf(ps[i]);
    forall i | 0 <= i < |ps| && forall k | i < k < |ps| :: Misses(SegmentOf(ps[k]), ps[i].paddr, MemEnd(SegmentOf(ps[i])))
      ensures InPlace(mem, Kernel(disk), ps[i])
    {
      SegmentLoaded(|mem|, disk, segs, first, mem, i);
      LoadedInPlace(mem, Kernel(disk), ps[i]);
    }
    forall a: nat | a < |mem| && forall i | 0 <= i < |ps| :: !Touches(SegmentOf(ps[i]), a) ensures mem[a] == first[a] {
      Untouched(|mem|, disk, segs, first, a);
    }
    if forall i | 0 <= i < |ps| :: Misses(SegmentOf(ps[i]), HEADER + 24, HEADER + 28) {
      assert forall a | HEADER + 24 <= a < HEADER + 28 :: mem[a] == first[a];
      SameEntry(mem[HEADER..HEADER + PAGE], h);
    }
  }

  lemma LoadedInPlace(mem: seq<Byte>, kernel: seq<Byte>, p: ProgHeader)
    requires Loaded(mem, kernel, SegmentOf(p))
    ensures InPlace(mem, kernel, p)
  {
  }

  lemma SameEntry(h: seq<Byte>, h': seq<Byte>)
    requires |h| == PAGE && |h'| == PAGE && forall k | 24 <= k < 28 :: h[k] == h'[k]
    ensures EntryPoint(h) == EntryPoint(h')
  {
  }
}

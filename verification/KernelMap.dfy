/** setup_kvm: exactly when the kernel's regions fit, and exactly what they map. */
module KernelMap {
  import opened LittleEndian
  import opened PageTables
  import opened VirtualMemory

  const EXTMEM: Addr := 0x10_0000
  const PHYSTOP: Addr := 0xE00_0000
  const KERNLINK: Addr := 0x8010_0000
  const DEVSPACE: Addr := 0xFE00_0000

  datatype Kmap = Kmap(virt: Addr, start: Addr, end: Addr, perm: bv12)

  /** I/O space, kernel text and read-only data, kernel data and memory, devices. */
  function Regions(data: Addr): (r: seq<Kmap>)
    ensures |r| == 4
  {
    [Kmap(KERNBASE, 0, EXTMEM, WRITABLE),
     Kmap(KERNLINK, V2P(KERNLINK), V2P(data), 0),
     Kmap(data, V2P(data), PHYSTOP, WRITABLE),
     Kmap(DEVSPACE, DEVSPACE, 0, WRITABLE)]
  }

  function Size(k: Kmap): Addr {
    Wrap(k.end - k.start)
  }

  function First(k: Kmap): (r: nat)
    ensures r < PAGES
  {
    Vpn(k.virt)
  }

  function Last(k: Kmap): (r: nat)
    ensures r < PAGES
  {
    Vpn(Wrap(k.virt + Size(k) - 1))
  }

  predicate Covers(k: Kmap, p: nat)
    requires p < PAGES
  {
    InRange(p, First(k), Last(k))
  }

  /** What the regions, mapped one after the other, say about page p. */
  function Expect(ks: seq<Kmap>, p: nat): Translation
    requires p < PAGES
  {
    if ks == [] then Fault
    else
      var k := ks[|ks| - 1];
      if Covers(k, p) then Page(EntryFor(k.start, k.perm, Dist(First(k), p))) else Expect(ks[..|ks| - 1], p)
  }

  predicate Disjoint(ks: seq<Kmap>) {
    forall i, j, p | 0 <= i < j < |ks| && 0 <= p < PAGES :: !(Covers(ks[i], p) && Covers(ks[j], p))
  }

  lemma {:induction false} ExpectCovered(ks: seq<Kmap>, p: nat) returns (i: nat)
    requires p < PAGES && Expect(ks, p).Page?
    ensures i < |ks| && Covers(ks[i], p)
  {
    hide Covers, EntryFor;
    i := |ks| - 1;
    if Covers(ks[i], p) {
    } else {
      i := ExpectCovered(ks[..i], p);
    }
  }

  lemma {:induction false} NotCovered(ks: seq<Kmap>, p: nat, i: nat)
    requires p < PAGES && Expect(ks, p) == Fault && i < |ks|
    ensures !Covers(ks[i], p)
  {
    hide Covers, EntryFor;
    if i == |ks| - 1 {
    } else {
      NotCovered(ks[..|ks| - 1], p, i);
    }
  }

  // ---- when the regions fit ----

  /** The data section starts on a page boundary, after the text and below the top of memory. */
  predicate GoodData(data: Addr) {
    data % PAGE_SIZE == 0 && KERNLINK < data < KERNBASE + PHYSTOP
  }

  lemma WrapInside(a: int, x: int)
    ensures Wrap(a + Wrap(x)) == Wrap(a + x)
  {
    var q := x / 0x1_0000_0000;
    assert a + Wrap(x) == a + x - 0x1_0000_0000 * q;
  }

  lemma LastPage(k: Kmap)
    ensures Last(k) == Vpn(Wrap(k.virt + k.end - k.start - 1))
  {
    WrapInside(k.virt - 1, k.end - k.start);
  }

  /** The page ranges of the four regions. */
  lemma Ranges(data: Addr)
    ensures var ks := Regions(data);
      && First(ks[0]) == 0x80000 && Last(ks[0]) == 0x800FF
      && First(ks[1]) == 0x80100 && Last(ks[1]) == (if data == 0 then 0xFFFFF else (data - 1) / PAGE_SIZE)
      && First(ks[2]) == data / PAGE_SIZE && Last(ks[2]) == 0x8DFFF
      && First(ks[3]) == 0xFE000 && Last(ks[3]) == 0xFFFFF
  {
    TextEnd(data);
    MemoryEnd(data);
    LastPage(Regions(data)[3]);
  }

  lemma TextEnd(data: Addr)
    ensures Last(Regions(data)[1]) == if data == 0 then 0xFFFFF else (data - 1) / PAGE_SIZE
  {
    LastPage(Regions(data)[1]);
    WrapInside(KERNLINK - V2P(KERNLINK) - 1, data - KERNBASE);
    assert Last(Regions(data)[1]) == Vpn(Wrap(data - 1));
  }

  lemma MemoryEnd(data: Addr)
    ensures Last(Regions(data)[2]) == 0x8DFFF
  {
    LastPage(Regions(data)[2]);
    assert V2P(data) == data - KERNBASE || V2P(data) == data - KERNBASE + 0x1_0000_0000;
  }

  /** For a good data address every region is a plain interval of pages. */
  lemma Intervals(data: Addr, p: nat)
    requires GoodData(data) && p < PAGES
    ensures var ks := Regions(data); var d := data / PAGE_SIZE;
      && (Covers(ks[0], p) <==> 0x80000 <= p <= 0x800FF)
      && (Covers(ks[1], p) <==> 0x80100 <= p < d)
      && (Covers(ks[2], p) <==> d <= p <= 0x8DFFF)
      && (Covers(ks[3], p) <==> 0xFE000 <= p)
      && (forall i | 0 <= i < 4 && Covers(ks[i], p) :: Dist(First(ks[i]), p) == p - First(ks[i]))
  {
    hide First, Last, Regions;
    Ranges(data);
  }

  lemma FitIfGood(data: Addr)
    requires GoodData(data)
    ensures Disjoint(Regions(data))
  {
    hide Covers, Regions;
    var ks := Regions(data);
    forall i, j, p | 0 <= i < j < |ks| && 0 <= p < PAGES ensures !(Covers(ks[i], p) && Covers(ks[j], p)) {
      Intervals(data, p);
    }
  }

  /** Otherwise two regions meet in some page. */
  lemma ClashIfBad(data: Addr) returns (i: nat, j: nat, p: nat)
    requires !GoodData(data)
    ensures i < j < 4 && p < PAGES && Covers(Regions(data)[i], p) && Covers(Regions(data)[j], p)
  {
    hide First, Last, Regions;
    Ranges(data);
    var d := data / PAGE_SIZE;
    if data % PAGE_SIZE != 0 {
      assert (data - 1) / PAGE_SIZE == d;
      i, j, p := 1, 2, d;
    } else if data >= KERNBASE + PHYSTOP {
      i, j, p := 0, 2, 0x80000;
    } else if data > KERNBASE {
      i, j, p := 0, 1, 0x80000;
    } else {
      i, j, p := 1, 3, 0xFE000;
    }
  }

  lemma FitIffGood(data: Addr)
    ensures Disjoint(Regions(data)) <==> GoodData(data)
  {
    hide Regions, Covers;
    if GoodData(data) {
      FitIfGood(data);
    } else {
      var i, j, p := ClashIfBad(data);
    }
  }

  // ---- what is mapped ----

  /** The kernel's map, page by page. */
  function KernelPage(data: Addr, p: nat): Translation {
    if Vpn(KERNBASE) <= p < Vpn(KERNBASE + PHYSTOP) then
      Page(Entry(p - Vpn(KERNBASE), if Vpn(KERNLINK) <= p < Vpn(data) then PRESENT else WRITABLE | PRESENT))
    else if Vpn(DEVSPACE) <= p < PAGES then
      Page(Entry(p, WRITABLE | PRESENT))
    else Fault
  }

  /** The four regions, when they fit, map every page as KernelPage says. */
  lemma ExpectKernelPage(data: Addr, p: nat)
    requires GoodData(data) && p < PAGES
    ensures Expect(Regions(data), p) == KernelPage(data, p)
  {
    hide EntryFor, Expect, First, Last, Covers, Dist, Says;
    var ks := Regions(data);
    Intervals(data, p);
    Ranges(data);
    Unrolled(ks, p);
    if 0xFE000 <= p {
      SaysFrame(data, 3, p, DEVSPACE, WRITABLE);
    } else if data / PAGE_SIZE <= p <= 0x8DFFF {
      SaysFrame(data, 2, p, V2P(data), WRITABLE);
    } else if 0x80100 <= p < data / PAGE_SIZE {
      SaysFrame(data, 1, p, V2P(KERNLINK), 0);
    } else if 0x80000 <= p <= 0x800FF {
      SaysFrame(data, 0, p, 0, WRITABLE);
    }
  }

  lemma SaysFrame(data: Addr, i: nat, p: nat, start: Addr, perm: bv12)
    requires GoodData(data) && p < PAGES && i < 4 && Covers(Regions(data)[i], p)
    requires start == Regions(data)[i].start && perm == Regions(data)[i].perm
    ensures Says(Regions(data)[i], p)
         == Page(Entry(start / PAGE_SIZE + p - First(Regions(data)[i]), if perm == 0 then PRESENT else WRITABLE | PRESENT))
  {
    hide EntryFor, Covers, Dist, First, Last;
    Intervals(data, p);
    Ranges(data);
    var k := Regions(data)[i];
    FrameAt(start, perm, p - First(k));
    FlagBits(perm);
  }

  lemma FlagBits(perm: bv12)
    ensures perm == 0 ==> (perm | PRESENT) & TAB_MASK == PRESENT
    ensures perm == WRITABLE ==> (perm | PRESENT) & TAB_MASK == WRITABLE | PRESENT
  {
  }

  function Says(k: Kmap, p: nat): Translation
    requires p < PAGES
  {
    Page(EntryFor(k.start, k.perm, Dist(First(k), p)))
  }

  lemma Unrolled(ks: seq<Kmap>, p: nat)
    requires |ks| == 4 && p < PAGES
    ensures Expect(ks, p) ==
      if Covers(ks[3], p) then Says(ks[3], p)
      else if Covers(ks[2], p) then Says(ks[2], p)
      else if Covers(ks[1], p) then Says(ks[1], p)
      else if Covers(ks[0], p) then Says(ks[0], p)
      else Fault
  {
    hide Covers, EntryFor;
    assert ks[..3][..2] == ks[..2] && ks[..2][..1] == ks[..1] && ks[..1][..0] == [];
    assert Expect(ks[..1], p) == if Covers(ks[0], p) then Says(ks[0], p) else Fault;
    assert Expect(ks[..2], p) == if Covers(ks[1], p) then Says(ks[1], p) else Expect(ks[..1], p);
    assert Expect(ks[..3], p) == if Covers(ks[2], p) then Says(ks[2], p) else Expect(ks[..2], p);
  }

  // ---- the tables it takes ----

  /** The directory entries of the kernel's pages: 56 for memory, 8 for devices. */
  predicate Needed(i: nat) {
    512 <= i < 568 || 1016 <= i < 1024
  }

  const TABLES := 64

  /** How many of the first n directory entries are needed. */
  function Quota(n: nat): nat
    requires n <= 1024
  {
    (if n < 512 then 0 else if n < 568 then n - 512 else 56) + if n < 1016 then 0 else n - 1016
  }

  lemma {:induction false} TablesAtMost(dir: Table, n: nat)
    requires n <= 1024 && forall i: nat | i < n && Has(dir[i], DIR_MASK, PRESENT) :: Needed(i)
    ensures TablesBelow(dir, n) <= Quota(n)
    ensures (exists i: nat :: i < n && Needed(i) && !Has(dir[i], DIR_MASK, PRESENT)) ==> TablesBelow(dir, n) < Quota(n)
  {
    hide Has;
    if n == 0 {
    } else {
      TablesAtMost(dir, n - 1);
    }
  }

  lemma {:induction false} TablesAtLeast(dir: Table, n: nat)
    requires n <= 1024 && forall i: nat | i < n && Needed(i) :: Has(dir[i], DIR_MASK, PRESENT)
    ensures TablesBelow(dir, n) >= Quota(n)
  {
    hide Has;
    if n == 0 {
    } else {
      TablesAtLeast(dir, n - 1);
    }
  }

  /** A page of the kernel's map needs one of those tables, and every one of them has such a page. */
  lemma NeededByPage(data: Addr, p: nat)
    requires GoodData(data) && p < PAGES
    ensures (exists i | 0 <= i < 4 :: Covers(Regions(data)[i], p)) ==> Needed(p / 1024)
  {
    hide Covers, Regions;
    Intervals(data, p);
  }

  lemma NeededHasPage(data: Addr, i: nat)
    requires Needed(i)
    ensures i * 1024 < PAGES && KernelPage(data, i * 1024).Page?
  {
  }

  /** Every table is for a page of some region. */
  ghost predicate TablesOnly(s: Space, ks: seq<Kmap>) {
    forall i: nat | i < 1024 && HasTable(s, i) ::
      exists k, p | 0 <= k < |ks| && 0 <= p < PAGES :: Covers(ks[k], p) && p / 1024 == i
  }

  /** Short of memory: fewer than 64 pages were there. */
  lemma TooFew(s: Space, data: Addr, ks: seq<Kmap>, k: nat, p: nat)
    requires GoodData(data) && ks == Regions(data) && TablesOnly(s, ks) && s.pool == []
    requires k < 4 && p < PAGES && Covers(ks[k], p) && !HasTable(s, p / 1024)
    ensures PageBudget(s) < TABLES
  {
    hide Covers, Regions, Has;
    NeededByPage(data, p);
    forall i: nat | i < 1024 && HasTable(s, i) ensures Needed(i) {
      var l, q :| 0 <= l < |ks| && 0 <= q < PAGES && Covers(ks[l], q) && q / 1024 == i;
      NeededByPage(data, q);
    }
    TablesAtMost(s.dir, 1024);
  }

  /** Done: at least 64 pages were there. */
  lemma Enough(s: Space, data: Addr)
    requires forall p | 0 <= p < PAGES :: Translate(s, p) == KernelPage(data, p)
    ensures PageBudget(s) >= TABLES
  {
    hide Has;
    forall i: nat | i < 1024 && Needed(i) ensures HasTable(s, i) {
      NeededHasPage(data, i);
      assert Translate(s, i * 1024).Page? && i * 1024 / 1024 == i;
    }
    hide KernelPage, Translate;
    TablesAtLeast(s.dir, 1024);
  }

  // ---- access ----

  /** What the kernel's map allows: memory and devices writable but for the text, and nothing to user programs. */
  function KernelAccess(data: Addr, p: nat): Access {
    if 0x80000 <= p < 0x8E000 then Access(p - 0x80000, false, !(0x80100 <= p < data / 4096))
    else if 0xFE000 <= p < 0x10_0000 then Access(p, false, true)
    else NoPage
  }

  lemma KernelEntryAccess(data: Addr, p: nat)
    ensures EntryAccess(KernelPage(data, p)) == KernelAccess(data, p)
  {
  }

  // ---- setup_kvm and uvm::init ----

  /** Build the kernel's directory from free pages; `data` is the linker's address of the data section. */
  method SetupKvm(pages: seq<Addr>, data: Addr) returns (r: Outcome, space: AddressSpace)
    requires forall k | 0 <= k < |pages| :: pages[k] % PAGE_SIZE == 0
    requires forall k, l | 0 <= k < l < |pages| :: pages[k] != pages[l]
    ensures fresh(space) && Valid(space.S())
    ensures r.Mapped? <==> GoodData(data) && |pages| >= TABLES
    ensures r.Mapped? ==> forall p | 0 <= p < PAGES :: Translate(space.S(), p) == KernelPage(data, p)
    ensures r.Mapped? ==> forall p | 0 <= p < PAGES :: AccessTo(space.S(), p) == KernelAccess(data, p)
    ensures r.Remap? ==> !GoodData(data)
    ensures r.OutOfMemory? ==> space.pool == []
  {
    hide Regions, Covers, First, Last, Translate, Valid, GoodData, KernelPage, Disjoint, Agrees, Size, PageBudget;
    hide TablesOnly, HasTable, AccessTo, EntryAccess, KernelAccess;
    space := new AddressSpace(pages);
    NothingMapped(space.S());
    var kmap := Regions(data);
    NoTablesYet(space.S(), kmap);
    for i := 0 to |kmap|
      invariant fresh(space) && PageBudget(space.S()) == |pages|
      invariant Valid(space.S()) && Disjoint(kmap[..i]) && Agrees(space.S(), kmap[..i]) && TablesOnly(space.S(), kmap)
    {
      r := MapRegion(space, kmap, i);
      if r != Mapped {
        FitIffGood(data);
        if r == OutOfMemory && GoodData(data) {
          ghost var p :| 0 <= p < PAGES && Covers(kmap[i], p) && !HasTable(space.S(), p / 1024);
          TooFew(space.S(), data, kmap, i, p);
        }
        return;
      }
    }
    assert kmap[..|kmap|] == kmap;
    FitIffGood(data);
    AgreesEverywhere(space.S(), kmap);
    forall p | 0 <= p < PAGES ensures Translate(space.S(), p) == KernelPage(data, p) {
      ExpectKernelPage(data, p);
    }
    Enough(space.S(), data);
    forall p | 0 <= p < PAGES ensures AccessTo(space.S(), p) == KernelAccess(data, p) {
      EntryDecides(space.S(), p);
      KernelEntryAccess(data, p);
    }
    r := Mapped;
  }

  lemma NoTablesYet(s: Space, ks: seq<Kmap>)
    requires forall i | 0 <= i < 1024 :: !HasTable(s, i)
    ensures TablesOnly(s, ks)
  {
  }

  /** The space maps exactly what the regions say. */
  predicate Agrees(s: Space, ks: seq<Kmap>) {
    forall p | 0 <= p < PAGES :: Translate(s, p) == Expect(ks, p)
  }

  lemma NothingMapped(s: Space)
    requires forall p | 0 <= p < PAGES :: Translate(s, p) == Fault
    ensures Agrees(s, []) && Disjoint([])
  {
  }

  lemma AgreesEverywhere(s: Space, ks: seq<Kmap>)
    requires Agrees(s, ks)
    ensures forall p | 0 <= p < PAGES :: Translate(s, p) == Expect(ks, p)
  {
  }

  /** One turn of the loop of setup_kvm. */
  method MapRegion(space: AddressSpace, ks: seq<Kmap>, i: nat) returns (r: Outcome)
    requires i < |ks| && Valid(space.S()) && Disjoint(ks[..i]) && Agrees(space.S(), ks[..i]) && TablesOnly(space.S(), ks)
    modifies space
    ensures Valid(space.S()) && PageBudget(space.S()) == old(PageBudget(space.S())) && TablesOnly(space.S(), ks)
    ensures r.Mapped? ==> Disjoint(ks[..i + 1]) && Agrees(space.S(), ks[..i + 1])
    ensures r.Remap? ==> !Disjoint(ks)
    ensures r.OutOfMemory? ==>
      space.pool == [] && exists p | 0 <= p < PAGES && Covers(ks[i], p) :: !HasTable(space.S(), p / 1024)
  {
    hide Translate, Valid, Disjoint, Agrees, EntryFor, PageBudget, TablesOnly, HasTable, TablesGrow, Spanned;
    var k := ks[i];
    ghost var before := space.S();
    r := space.MapPages(k.virt, Size(k), k.start, k.perm);
    OnlyMore(before, space.S(), ks, i);
    hide Dist;
    if r == Remap {
      Clash(ks, i, before);
    } else if r == Mapped {
      RegionAdded(ks, i, before, space.S());
    }
  }

  lemma OnlyMore(s: Space, s': Space, ks: seq<Kmap>, i: nat)
    requires i < |ks| && TablesOnly(s, ks) && TablesGrow(s, s', Spanned(First(ks[i]), Last(ks[i])))
    ensures TablesOnly(s', ks)
  {
    hide HasTable, First, Last, InRange;
    forall t: nat | t < 1024 && HasTable(s', t)
      ensures exists k, p | 0 <= k < |ks| && 0 <= p < PAGES :: Covers(ks[k], p) && p / 1024 == t
    {
      if !HasTable(s, t) {
        var p: nat :| p < PAGES && InRange(p, First(ks[i]), Last(ks[i])) && p / 1024 == t;
        assert Covers(ks[i], p);
      }
    }
  }

  /** A region that meets a page already mapped overlaps an earlier region. */
  lemma Clash(ks: seq<Kmap>, i: nat, s: Space)
    requires i < |ks| && Agrees(s, ks[..i])
    requires exists q | 0 <= q < PAGES && Covers(ks[i], q) :: Translate(s, q).Page?
    ensures !Disjoint(ks)
  {
    hide Covers, Translate;
    var q :| 0 <= q < PAGES && Covers(ks[i], q) && Translate(s, q).Page?;
    var j := ExpectCovered(ks[..i], q);
    assert Covers(ks[j], q);
  }

  lemma RegionAdded(ks: seq<Kmap>, i: nat, s: Space, s': Space)
    requires i < |ks| && Disjoint(ks[..i]) && Agrees(s, ks[..i])
    requires MapsRange(s, s', First(ks[i]), Dist(First(ks[i]), Last(ks[i])) + 1, ks[i].start, ks[i].perm)
    ensures Disjoint(ks[..i + 1]) && Agrees(s', ks[..i + 1])
  {
    hide Translate, EntryFor, First, Last;
    var up := ks[..i + 1];
    assert up[..i] == ks[..i] && up[i] == ks[i];
    forall a, b, p | 0 <= a < b < |up| && 0 <= p < PAGES ensures !(Covers(up[a], p) && Covers(up[b], p)) {
      if b == i {
        if Covers(up[i], p) {
          NotCovered(ks[..i], p, a);
        }
      } else {
        assert up[a] == ks[..i][a] && up[b] == ks[..i][b];
      }
    }
  }

  datatype Loading = CodeTooLong | Tried(r: Outcome)

  /** Load the first user program: its page holds the code and zeros, and becomes page 0 of the map. */
  method UvmInit(space: AddressSpace, mem: Addr, page: array<Byte>, code: seq<Byte>) returns (r: Loading)
    requires Valid(space.S()) && mem % PAGE_SIZE == 0 && page.Length == PAGE_SIZE
    modifies space, page
    ensures Valid(space.S())
    ensures r.CodeTooLong? <==> |code| >= PAGE_SIZE
    ensures r.CodeTooLong? ==> space.S() == old(space.S()) && page[..] == old(page[..])
    ensures r == Tried(Remap) <==> |code| < PAGE_SIZE && Translate(old(space.S()), 0).Page?
    ensures r == Tried(Mapped) <==>
      |code| < PAGE_SIZE && Translate(old(space.S()), 0) == Fault && (HasTable(old(space.S()), 0) || old(space.pool) != [])
    ensures r == Tried(Mapped) ==>
      && Translate(space.S(), 0) == Page(Entry(V2P(mem) / PAGE_SIZE, WRITABLE | USER | PRESENT))
      && AccessTo(space.S(), 0) == Access(V2P(mem) / PAGE_SIZE, true, true)
      && page[..] == code + seq(PAGE_SIZE - |code|, _ => 0)
    ensures forall p | 0 < p < PAGES ::
      Translate(space.S(), p) == Translate(old(space.S()), p) && AccessTo(space.S(), p) == AccessTo(old(space.S()), p)
  {
    hide EntryFor, Valid, PageBudget, AccessTo, EntryAccess;
    if |code| >= PAGE_SIZE {
      return CodeTooLong;
    }
    Zero(page);
    var o := MapFirst(space, mem);
    if o == Mapped {
      EntryDecides(space.S(), 0);
      UserEntry(V2P(mem) / PAGE_SIZE);
      Copy(page, code);
      assert page[..] == code + seq(PAGE_SIZE - |code|, _ => 0);
    }
    return Tried(o);
  }

  /** Page 0 becomes a user page, if it is free and there is a table for it. */
  method MapFirst(space: AddressSpace, mem: Addr) returns (o: Outcome)
    requires Valid(space.S()) && mem % PAGE_SIZE == 0
    modifies space
    ensures Valid(space.S())
    ensures o == Remap <==> Translate(old(space.S()), 0).Page?
    ensures o == Mapped <==>
      Translate(old(space.S()), 0) == Fault && (HasTable(old(space.S()), 0) || old(space.pool) != [])
    ensures o == Mapped ==> Translate(space.S(), 0) == Page(Entry(V2P(mem) / PAGE_SIZE, WRITABLE | USER | PRESENT))
    ensures forall p | 0 < p < PAGES ::
      Translate(space.S(), p) == Translate(old(space.S()), p) && AccessTo(space.S(), p) == AccessTo(old(space.S()), p)
  {
    hide EntryFor, Valid, PageBudget, AccessTo;
    o := space.MapPages(0, PAGE_SIZE, V2P(mem), WRITABLE | USER);
    assert forall p | 0 <= p < PAGES :: Dist(0, p) == p;
    FrameAt(V2P(mem), WRITABLE | USER, 0);
    SameAccess(old(space.S()), space.S());
  }

  method Zero(page: array<Byte>)
    modifies page
    ensures forall k | 0 <= k < page.Length :: page[k] == 0
  {
    for i := 0 to page.Length
      invariant forall k | 0 <= k < i :: page[k] == 0
    {
      page[i] := 0;
    }
  }

  method Copy(page: array<Byte>, code: seq<Byte>)
    requires |code| <= page.Length
    modifies page
    ensures forall k | 0 <= k < page.Length :: page[k] == if k < |code| then code[k] else old(page[k])
  {
    for i := 0 to |code|
      invariant forall k | 0 <= k < page.Length :: page[k] == if k < i then code[k] else old(page[k])
    {
      page[i] := code[i];
    }
  }

  lemma UserEntry(frame: nat)
    ensures EntryAccess(Page(Entry(frame, WRITABLE | USER | PRESENT))) == Access(frame, true, true)
  {
  }

  lemma SameAccess(s: Space, s': Space)
    requires Valid(s) && Valid(s')
    ensures forall p | 0 <= p < PAGES && Translate(s, p) == Translate(s', p) :: AccessTo(s, p) == AccessTo(s', p)
  {
    hide Valid, AccessTo;
    forall p | 0 <= p < PAGES && Translate(s, p) == Translate(s', p) ensures AccessTo(s, p) == AccessTo(s', p) {
      EntryDecides(s, p);
      EntryDecides(s', p);
    }
  }
}

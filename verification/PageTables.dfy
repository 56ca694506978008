/** 32-bit two-level paging: the entries of kernel/src/memory.rs and what they translate to. */
module PageTables {
  import opened LittleEndian

  /** A 32-bit machine word used as an address. */
  type Addr = U32

  const PAGE_SIZE := 4096
  /** Number of virtual pages. */
  const PAGES := 0x10_0000

  const KERNBASE: Addr := 0x8000_0000

  // ---- wrapping address arithmetic ----

  function Wrap(x: int): Addr {
    x % 0x1_0000_0000
  }

  function RoundDown(va: Addr): (r: Addr)
    ensures r % PAGE_SIZE == 0 && r <= va < r + PAGE_SIZE
  {
    va - va % PAGE_SIZE
  }

  function Vpn(va: Addr): (r: nat)
    ensures r < PAGES
  {
    va / PAGE_SIZE
  }

  /** Bits 22..32 and 12..22 of an address. */
  function Pdx(va: Addr): (r: nat)
    ensures r < 1024 && r == Vpn(va) / 1024
  {
    va / 0x40_0000 % 1024
  }

  function Ptx(va: Addr): (r: nat)
    ensures r < 1024 && r == Vpn(va) % 1024
  {
    va / 0x1000 % 1024
  }

  function P2V(pa: int): Addr {
    Wrap(pa + KERNBASE)
  }

  function V2P(va: Addr): Addr {
    Wrap(va - KERNBASE)
  }

  // ---- entries ----

  const PRESENT: bv12 := 0x1
  const WRITABLE: bv12 := 0x2
  const USER: bv12 := 0x4
  const DIR_MASK: bv12 := 0xFBF
  const TAB_MASK: bv12 := 0xF7F

  /** A 32-bit entry, as its upper 20 and its lower 12 bits. */
  datatype Entry = Entry(frame: nat, bits: bv12)

  const NO_ENTRY := Entry(0, 0)

  function IntBits(x: nat): bv12
    requires x < 4096
  {
    if x == 0 then 0 else x as bv12
  }

  function BitsInt(b: bv12): int {
    if b == 0 then 0 else b as int
  }

  /** address | flags & mask */
  function NewEntry(pa: Addr, flags: bv12, mask: bv12): Entry {
    Entry(pa / PAGE_SIZE, IntBits(pa % PAGE_SIZE) | (flags & mask))
  }

  /** entry & !mask, as an address */
  function AddrOf(e: Entry, mask: bv12): int {
    e.frame * PAGE_SIZE + BitsInt(e.bits & !mask)
  }

  predicate Has(e: Entry, mask: bv12, flag: bv12) {
    e.bits & mask & flag == flag
  }

  lemma Masked(flags: bv12, mask: bv12)
    ensures (flags & mask) & !mask == 0 && 0 | (flags & mask) == flags & mask
  {
  }

  /** An entry made from a page-aligned address gives the address and the masked flags back. */
  lemma EntryFields(pa: Addr, flags: bv12, mask: bv12)
    requires pa % PAGE_SIZE == 0
    ensures NewEntry(pa, flags, mask) == Entry(pa / PAGE_SIZE, flags & mask)
    ensures AddrOf(NewEntry(pa, flags, mask), mask) == pa
  {
    Masked(flags, mask);
  }

  // ---- an address space ----

  /** A page of 1024 entries. */
  type Table = t: seq<Entry> | |t| == 1024 witness seq(1024, _ => Entry(0, 0))

  function ZeroTable(): (t: Table)
    ensures forall i | 0 <= i < 1024 :: t[i] == NO_ENTRY
  {
    seq(1024, _ => NO_ENTRY)
  }

  /** A page directory, the page tables by kernel address, and the pages the allocator will hand out. */
  datatype Space = Space(dir: Table, tables: map<int, Table>, pool: seq<Addr>)

  predicate HasTable(s: Space, i: nat)
    requires i < 1024
  {
    Has(s.dir[i], DIR_MASK, PRESENT)
  }

  /** A later space has every table of an earlier one, and others only where `allowed`. */
  predicate TablesGrow(s: Space, s': Space, allowed: set<nat>) {
    forall i: nat | i < 1024 :: (HasTable(s, i) ==> HasTable(s', i)) && (HasTable(s', i) ==> HasTable(s, i) || i in allowed)
  }

  /** Where directory entry i points, as the kernel reaches it. */
  function TableOf(s: Space, i: nat): int
    requires i < 1024
  {
    P2V(AddrOf(s.dir[i], DIR_MASK))
  }

  /** Directory entries name existing tables, no two the same one, and allow all access; pages in the pool are unused. */
  ghost predicate Valid(s: Space) {
    && (forall i | 0 <= i < 1024 && HasTable(s, i) :: Has(s.dir[i], DIR_MASK, WRITABLE) && Has(s.dir[i], DIR_MASK, USER))
    && (forall i | 0 <= i < 1024 && HasTable(s, i) :: TableOf(s, i) in s.tables)
    && (forall i, j | 0 <= i < 1024 && 0 <= j < 1024 && HasTable(s, i) && HasTable(s, j) ::
          TableOf(s, i) == TableOf(s, j) ==> i == j)
    && (forall k | 0 <= k < |s.pool| :: s.pool[k] % PAGE_SIZE == 0 && s.pool[k] !in s.tables)
    && (forall k, l | 0 <= k < l < |s.pool| :: s.pool[k] != s.pool[l])
  }

  datatype Translation = Fault | Page(pte: Entry)

  /** What the processor finds for virtual page p: its page table entry, if present. */
  function Translate(s: Space, p: nat): Translation
    requires p < PAGES
  {
    if HasTable(s, p / 1024) && TableOf(s, p / 1024) in s.tables then
      var pte := s.tables[TableOf(s, p / 1024)][p % 1024];
      if Has(pte, TAB_MASK, PRESENT) then Page(pte) else Fault
    else Fault
  }

  /** What the processor lets a program do with a page: both entries must allow it. */
  datatype Access = NoPage | Access(frame: nat, user: bool, writable: bool)

  function AccessTo(s: Space, p: nat): Access
    requires p < PAGES
  {
    match Translate(s, p)
    case Fault => NoPage
    case Page(pte) =>
      var pde := s.dir[p / 1024];
      Access(pte.frame, Has(pde, DIR_MASK, USER) && Has(pte, TAB_MASK, USER),
             Has(pde, DIR_MASK, WRITABLE) && Has(pte, TAB_MASK, WRITABLE))
  }

  /** The access that a page table entry alone would give. */
  function EntryAccess(t: Translation): Access {
    match t
    case Fault => NoPage
    case Page(pte) => Access(pte.frame, Has(pte, TAB_MASK, USER), Has(pte, TAB_MASK, WRITABLE))
  }

  /** Directory entries take nothing away, so the page table entry decides. */
  lemma EntryDecides(s: Space, p: nat)
    requires Valid(s) && p < PAGES
    ensures AccessTo(s, p) == EntryAccess(Translate(s, p))
  {
    hide Has;
  }

  /** The space after a walk that had to add a table for directory entry i. */
  function WithTable(s: Space, i: nat): Space
    requires s.pool != [] && i < 1024
  {
    var t := s.pool[0];
    Space(s.dir[i := NewEntry(V2P(t), PRESENT | WRITABLE | USER, DIR_MASK)], s.tables[t := ZeroTable()], s.pool[1..])
  }

  lemma NewTableEntry(t: Addr)
    requires t % PAGE_SIZE == 0
    ensures var e := NewEntry(V2P(t), PRESENT | WRITABLE | USER, DIR_MASK);
      && Has(e, DIR_MASK, PRESENT) && Has(e, DIR_MASK, WRITABLE) && Has(e, DIR_MASK, USER)
      && P2V(AddrOf(e, DIR_MASK)) == t
  {
    var flags := PRESENT | WRITABLE | USER;
    assert V2P(t) % PAGE_SIZE == 0 && P2V(V2P(t)) == t;
    EntryFields(V2P(t), flags, DIR_MASK);
    hide NewEntry, AddrOf;
    assert (flags & DIR_MASK) & DIR_MASK & PRESENT == PRESENT;
    assert (flags & DIR_MASK) & DIR_MASK & WRITABLE == WRITABLE && (flags & DIR_MASK) & DIR_MASK & USER == USER;
  }

  /** A new table is unshared and maps nothing. */
  lemma WithTableKeeps(s: Space, i: nat)
    requires Valid(s) && s.pool != [] && i < 1024 && !HasTable(s, i)
    ensures Valid(WithTable(s, i)) && HasTable(WithTable(s, i), i)
    ensures forall p | 0 <= p < PAGES :: Translate(WithTable(s, i), p) == Translate(s, p)
  {
    var s' := WithTable(s, i);
    var t := s.pool[0];
    NewTableEntry(t);
    hide AddrOf, NewEntry, V2P, P2V;
    assert !Has(NO_ENTRY, TAB_MASK, PRESENT);
    hide Has;
    assert forall j | 0 <= j < 1024 && j != i :: HasTable(s', j) == HasTable(s, j) && TableOf(s', j) == TableOf(s, j);
    assert TableOf(s', i) == t && HasTable(s', i);
    hide HasTable, TableOf;
    forall p | 0 <= p < PAGES ensures Translate(s', p) == Translate(s, p) {
      if p / 1024 == i {
        assert s'.tables[t][p % 1024] == NO_ENTRY;
      }
    }
  }

  /** The space after writing the page table entry of page p. */
  function WithEntry(s: Space, p: nat, pte: Entry): Space
    requires p < PAGES && TableOf(s, p / 1024) in s.tables
  {
    var t := TableOf(s, p / 1024);
    Space(s.dir, s.tables[t := s.tables[t][p % 1024 := pte]], s.pool)
  }

  /** Because tables are unshared, one entry is one page. */
  lemma WithEntryMaps(s: Space, p: nat, pte: Entry)
    requires Valid(s) && p < PAGES && HasTable(s, p / 1024) && Has(pte, TAB_MASK, PRESENT)
    ensures Valid(WithEntry(s, p, pte))
    ensures forall q | 0 <= q < PAGES ::
              Translate(WithEntry(s, p, pte), q) == if q == p then Page(pte) else Translate(s, q)
  {
    hide AddrOf, Has;
    var s' := WithEntry(s, p, pte);
    assert forall j | 0 <= j < 1024 :: HasTable(s', j) == HasTable(s, j) && TableOf(s', j) == TableOf(s, j);
    hide HasTable, TableOf;
    forall q | 0 <= q < PAGES ensures Translate(s', q) == if q == p then Page(pte) else Translate(s, q) {
      assert q == q / 1024 * 1024 + q % 1024 && p == p / 1024 * 1024 + p % 1024;
    }
  }

  // ---- pages spent on tables ----

  /** How many of the first n directory entries have a table. */
  function TablesBelow(dir: Table, n: nat): (r: nat)
    requires n <= 1024
    ensures r <= n
  {
    if n == 0 then 0
    else TablesBelow(dir, n - 1) + if Has(dir[n - 1], DIR_MASK, PRESENT) then 1 else 0
  }

  /** Pages in use as tables together with those still in the pool. */
  function PageBudget(s: Space): nat {
    TablesBelow(s.dir, 1024) + |s.pool|
  }

  lemma {:induction false} TableAdded(dir: Table, i: nat, e: Entry, n: nat)
    requires i < 1024 && n <= 1024 && !Has(dir[i], DIR_MASK, PRESENT) && Has(e, DIR_MASK, PRESENT)
    ensures TablesBelow(dir[i := e], n) == TablesBelow(dir, n) + if i < n then 1 else 0
  {
    hide Has;
    if n == 0 {
    } else {
      TableAdded(dir, i, e, n - 1);
    }
  }
}

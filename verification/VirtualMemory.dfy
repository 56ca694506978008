/** kernel/src/vm.rs: walking and filling page tables. */
module VirtualMemory {
  import opened PageTables

  datatype Walk = Found(table: int, index: nat) | Missing | NoMemory

  datatype Outcome = Mapped | Remap | OutOfMemory

  /** How many pages p lies after first, going round the address space. */
  function Dist(first: nat, p: nat): (r: nat)
    requires first < PAGES && p < PAGES
    ensures r < PAGES && (r == 0 <==> p == first)
  {
    (p - first) % PAGES
  }

  /** p is one of the pages from first to last, going round. */
  predicate InRange(p: nat, first: nat, last: nat)
    requires p < PAGES && first < PAGES && last < PAGES
  {
    Dist(first, p) <= Dist(first, last)
  }

  /** The entry that maps page p when first is mapped to pa. */
  function EntryFor(pa: Addr, perm: bv12, k: nat): Entry {
    NewEntry(Wrap(pa + k * PAGE_SIZE), perm | PRESENT, TAB_MASK)
  }

  lemma EntryForPresent(pa: Addr, perm: bv12, k: nat)
    ensures Has(EntryFor(pa, perm, k), TAB_MASK, PRESENT)
  {
    var low := IntBits(Wrap(pa + k * PAGE_SIZE) % PAGE_SIZE);
    PresentStays(low, perm);
  }

  lemma PresentStays(low: bv12, perm: bv12)
    ensures (low | ((perm | PRESENT) & TAB_MASK)) & TAB_MASK & PRESENT == PRESENT
  {
  }

  /** The n pages from first on are mapped to the frames from pa on, and were free; all others are as in s0. */
  predicate MapsRange(s0: Space, s: Space, first: nat, n: nat, pa: Addr, perm: bv12)
    requires first < PAGES
  {
    forall p | 0 <= p < PAGES ::
      if Dist(first, p) < n then
        Translate(s0, p) == Fault && Translate(s, p) == Page(EntryFor(pa, perm, Dist(first, p)))
      else
        Translate(s, p) == Translate(s0, p)
  }

  /** Mapping one page more. */
  lemma MapsRangeNext(s0: Space, s: Space, s': Space, first: nat, p: nat, pa: Addr, perm: bv12)
    requires first < PAGES && p < PAGES && MapsRange(s0, s, first, Dist(first, p), pa, perm)
    requires Translate(s, p) == Fault
    requires forall q | 0 <= q < PAGES ::
               Translate(s', q) == if q == p then Page(EntryFor(pa, perm, Dist(first, p))) else Translate(s, q)
    ensures MapsRange(s0, s', first, Dist(first, p) + 1, pa, perm)
  {
    hide Translate, EntryFor;
    forall q | 0 <= q < PAGES ensures Dist(first, q) == Dist(first, p) <==> q == p {
    }
  }

  lemma SameTranslations(s0: Space, s: Space, s': Space, first: nat, n: nat, pa: Addr, perm: bv12)
    requires first < PAGES && MapsRange(s0, s, first, n, pa, perm)
    requires forall q | 0 <= q < PAGES :: Translate(s', q) == Translate(s, q)
    ensures MapsRange(s0, s', first, n, pa, perm)
  {
    hide Translate, EntryFor;
  }

  /** The next page of a cyclic range. */
  lemma NextPage(a: Addr, first: nat, last: nat)
    requires a % PAGE_SIZE == 0 && first < PAGES && last < PAGES
    requires Dist(first, Vpn(a)) < Dist(first, last)
    ensures Dist(first, Vpn(Wrap(a + PAGE_SIZE))) == Dist(first, Vpn(a)) + 1
    ensures Wrap(a + PAGE_SIZE) % PAGE_SIZE == 0
    ensures InRange(Vpn(Wrap(a + PAGE_SIZE)), first, last)
  {
    assert Vpn(Wrap(a + PAGE_SIZE)) == (Vpn(a) + 1) % PAGES;
  }

  lemma NotLastYet(a: Addr, last: Addr, first: nat)
    requires a % PAGE_SIZE == 0 && last % PAGE_SIZE == 0 && first < PAGES && InRange(Vpn(a), first, Vpn(last)) && a != last
    ensures Dist(first, Vpn(a)) < Dist(first, Vpn(last))
  {
  }

  lemma NextFrame(pa0: Addr, k: nat)
    ensures Wrap(Wrap(pa0 + k * PAGE_SIZE) + PAGE_SIZE) == Wrap(pa0 + (k + 1) * PAGE_SIZE)
  {
  }

  /** The directory entries of the pages from first to last. */
  ghost function Spanned(first: nat, last: nat): set<nat>
    requires first < PAGES && last < PAGES
  {
    set p: nat | p < PAGES && InRange(p, first, last) :: p / 1024
  }

  lemma SameTables(s: Space, allowed: set<nat>)
    ensures TablesGrow(s, s, allowed)
  {
    hide HasTable;
  }

  lemma GrowMore(s0: Space, s: Space, s': Space, p: nat, first: nat, last: nat)
    requires first < PAGES && last < PAGES && p < PAGES && InRange(p, first, last)
    requires TablesGrow(s0, s, Spanned(first, last)) && TablesGrow(s, s', {p / 1024})
    ensures TablesGrow(s0, s', Spanned(first, last))
  {
    hide HasTable, InRange;
  }

  lemma {:induction false} NoTables(dir: Table, n: nat)
    requires n <= 1024 && forall i | 0 <= i < 1024 :: !Has(dir[i], DIR_MASK, PRESENT)
    ensures TablesBelow(dir, n) == 0
  {
    if n == 0 {
    } else {
      NoTables(dir, n - 1);
    }
  }

  class AddressSpace {
    var dir: Table
    var tables: map<int, Table>
    var pool: seq<Addr>

    function S(): Space
      reads this
    {
      Space(dir, tables, pool)
    }

    /** An empty directory, with these pages left for tables. */
    constructor (pages: seq<Addr>)
      requires forall k | 0 <= k < |pages| :: pages[k] % PAGE_SIZE == 0
      requires forall k, l | 0 <= k < l < |pages| :: pages[k] != pages[l]
      ensures Valid(S()) && PageBudget(S()) == |pages| && forall p | 0 <= p < PAGES :: Translate(S(), p) == Fault
      ensures forall i | 0 <= i < 1024 :: !HasTable(S(), i)
    {
      dir := ZeroTable();
      tables := map[];
      pool := pages;
      assert !Has(NO_ENTRY, DIR_MASK, PRESENT);
      new;
      NoTables(dir, 1024);
    }

    /** Where the page table entry of va is, after adding a table for it if asked to. */
    method WalkPageDir(va: Addr, alloc: bool) returns (r: Walk)
      requires Valid(S())
      modifies this
      ensures Valid(S())
      ensures r.Found? ==> HasTable(S(), Pdx(va)) && r == Found(TableOf(S(), Pdx(va)), Ptx(va))
      ensures forall p | 0 <= p < PAGES :: Translate(S(), p) == Translate(old(S()), p)
      ensures !alloc ==> S() == old(S()) && r.Found? == HasTable(S(), Pdx(va)) && !r.NoMemory?
      ensures alloc ==> !r.Missing?
      ensures PageBudget(S()) == old(PageBudget(S()))
      ensures TablesGrow(old(S()), S(), {Pdx(va)})
      ensures r.NoMemory? ==> S() == old(S()) && pool == [] && !HasTable(S(), Pdx(va))
      ensures old(pool) == [] ==> S() == old(S())
    {
      var i := Pdx(va);
      if Has(dir[i], DIR_MASK, PRESENT) {
        return Found(P2V(AddrOf(dir[i], DIR_MASK)), Ptx(va));
      }
      if !alloc {
        return Missing;
      }
      if pool == [] {
        return NoMemory;
      }
      WithTableKeeps(S(), i);
      var table := pool[0];
      NewTableEntry(table);
      TableAdded(dir, i, NewEntry(V2P(table), PRESENT | WRITABLE | USER, DIR_MASK), 1024);
      pool := pool[1..];
      tables := tables[table := ZeroTable()];
      dir := dir[i := NewEntry(V2P(table), PRESENT | WRITABLE | USER, DIR_MASK)];
      assert S() == WithTable(old(S()), i);
      return Found(table, Ptx(va));
    }

    /** Map one page that must not be mapped yet. */
    method MapPage(a: Addr, pa: Addr, perm: bv12) returns (r: Outcome)
      requires Valid(S())
      modifies this
      ensures Valid(S())
      ensures PageBudget(S()) == old(PageBudget(S()))
      ensures TablesGrow(old(S()), S(), {Vpn(a) / 1024})
      ensures r.OutOfMemory? ==> S() == old(S()) && pool == [] && !HasTable(S(), Vpn(a) / 1024)
      ensures old(pool) == [] ==> dir == old(dir) && pool == []
      ensures r.Remap? ==> Translate(old(S()), Vpn(a)).Page?
      ensures r.Mapped? ==> Translate(old(S()), Vpn(a)) == Fault
      ensures forall q | 0 <= q < PAGES ::
        Translate(S(), q) == if r.Mapped? && q == Vpn(a) then Page(EntryFor(pa, perm, 0)) else Translate(old(S()), q)
    {
      hide Translate, NewEntry, AddrOf, TablesBelow;
      var w := WalkPageDir(a, true);
      if w.NoMemory? {
        return OutOfMemory;
      }
      PresentTranslates(S(), Vpn(a));
      if Has(tables[w.table][w.index], TAB_MASK, PRESENT) {
        return Remap;
      }
      var pte := NewEntry(pa, perm | PRESENT, TAB_MASK);
      EntryForPresent(pa, perm, 0);
      WithEntryMaps(S(), Vpn(a), pte);
      ghost var s := S();
      tables := tables[w.table := tables[w.table][w.index := pte]];
      assert S() == WithEntry(s, Vpn(a), pte);
      return Mapped;
    }

    /** Map the pages of [va, va + size) to the frames from pa0 on, in 32-bit arithmetic. */
    method MapPages(va: Addr, size: Addr, pa0: Addr, perm: bv12) returns (r: Outcome)
      requires Valid(S())
      modifies this
      ensures Valid(S()) && PageBudget(S()) == old(PageBudget(S()))
      ensures TablesGrow(old(S()), S(), Spanned(Vpn(va), Vpn(Wrap(va + size - 1))))
      ensures old(pool) == [] ==> dir == old(dir) && pool == []
      ensures var first, last := Vpn(va), Vpn(Wrap(va + size - 1));
        match r
        case Mapped => MapsRange(old(S()), S(), first, Dist(first, last) + 1, pa0, perm)
        case Remap => exists q | 0 <= q < PAGES && InRange(q, first, last) ::
            Translate(old(S()), q).Page? && MapsRange(old(S()), S(), first, Dist(first, q), pa0, perm)
        case OutOfMemory => pool == [] && exists q | 0 <= q < PAGES && InRange(q, first, last) ::
            && !HasTable(S(), q / 1024) && MapsRange(old(S()), S(), first, Dist(first, q), pa0, perm)
            && (q == first ==> S() == old(S()))
    {
      hide Translate, EntryFor, Valid, PageBudget, HasTable, TablesGrow, Spanned;
      var a: Addr := RoundDown(va);
      var last: Addr := RoundDown(Wrap(va + size - 1));
      var pa: Addr := pa0;
      ghost var first := Vpn(va);
      assert Vpn(a) == first && Vpn(last) == Vpn(Wrap(va + size - 1));
      assert pa == Wrap(pa0 + 0 * PAGE_SIZE);
      hide Vpn, RoundDown, Wrap, Dist;
      SameTables(S(), Spanned(first, Vpn(last)));
      while true
        invariant Valid(S()) && PageBudget(S()) == old(PageBudget(S()))
        invariant a % PAGE_SIZE == 0 && InRange(Vpn(a), first, Vpn(last))
        invariant TablesGrow(old(S()), S(), Spanned(first, Vpn(last)))
        invariant old(pool) == [] ==> dir == old(dir) && pool == []
        invariant Vpn(a) == first ==> S() == old(S())
        invariant pa == Wrap(pa0 + Dist(first, Vpn(a)) * PAGE_SIZE)
        invariant MapsRange(old(S()), S(), first, Dist(first, Vpn(a)), pa0, perm)
        decreases Dist(first, Vpn(last)) - Dist(first, Vpn(a))
      {
        ghost var p := Vpn(a);
        ghost var s := S();
        r := MapPage(a, pa, perm);
        GrowMore(old(S()), s, S(), p, first, Vpn(last));
        if r != Mapped {
          SameTranslations(old(S()), s, S(), first, Dist(first, p), pa0, perm);
          assert Translate(s, p) == Translate(old(S()), p);
          return;
        }
        SameEntry(pa0, pa, perm, Dist(first, p));
        MapsRangeNext(old(S()), s, S(), first, p, pa0, perm);
        if a == last {
          return;
        }
        NotLastYet(a, last, first);
        NextPage(a, first, Vpn(last));
        NextFrame(pa0, Dist(first, p));
        a := Wrap(a + PAGE_SIZE);
        pa := Wrap(pa + PAGE_SIZE);
      }
    }
  }

  lemma SameEntry(pa0: Addr, pa: Addr, perm: bv12, k: nat)
    requires pa == Wrap(pa0 + k * PAGE_SIZE)
    ensures EntryFor(pa, perm, 0) == EntryFor(pa0, perm, k)
  {
    hide NewEntry;
    assert Wrap(pa + 0 * PAGE_SIZE) == pa;
  }

  lemma PresentTranslates(s: Space, p: nat)
    requires Valid(s) && p < PAGES && HasTable(s, p / 1024)
    ensures Translate(s, p).Page? <==> Has(s.tables[TableOf(s, p / 1024)][p % 1024], TAB_MASK, PRESENT)
  {
  }

  lemma FrameAt(start: Addr, perm: bv12, k: nat)
    requires start % PAGE_SIZE == 0 && start + k * PAGE_SIZE < 0x1_0000_0000
    ensures EntryFor(start, perm, k) == Entry(start / PAGE_SIZE + k, (perm | PRESENT) & TAB_MASK)
  {
    var pa := start + k * PAGE_SIZE;
    assert Wrap(pa) == pa && pa % PAGE_SIZE == 0 && pa / PAGE_SIZE == start / PAGE_SIZE + k;
    EntryFields(pa, perm | PRESENT, TAB_MASK);
  }

  lemma PermBits(perm: bv12)
    ensures (((perm | PRESENT) & TAB_MASK) & TAB_MASK & USER == USER) <==> perm & USER == USER
    ensures (((perm | PRESENT) & TAB_MASK) & TAB_MASK & WRITABLE == WRITABLE) <==> perm & WRITABLE == WRITABLE
  {
  }

  /** The plain reading of MapsRange: a range that does not wrap round, also one that ends at 4 GiB. */
  lemma MapsInterval(s0: Space, s: Space, va: Addr, size: Addr, pa: Addr, perm: bv12, p: nat)
    requires 0 < size && va + size <= 0x1_0000_0000 && pa % PAGE_SIZE == 0 && p < PAGES
    requires RoundDown(va + size - 1) - RoundDown(va) + pa < 0x1_0000_0000
    requires MapsRange(s0, s, Vpn(va), Dist(Vpn(va), Vpn(Wrap(va + size - 1))) + 1, pa, perm)
    ensures Translate(s, p) == if Vpn(va) <= p <= Vpn(va + size - 1)
              then Page(Entry(pa / PAGE_SIZE + p - Vpn(va), (perm | PRESENT) & TAB_MASK)) else Translate(s0, p)
  {
    hide Translate, EntryFor;
    var first, last := Vpn(va), Vpn(va + size - 1);
    assert Dist(first, last) == last - first;
    if first <= p <= last {
      assert Dist(first, p) == p - first && (p - first) * PAGE_SIZE <= RoundDown(va + size - 1) - RoundDown(va);
      FrameAt(pa, perm, p - first);
    }
  }

  /** What the pages then allow, by both entries: user and write access as perm says, to consecutive frames. */
  lemma MapsAccess(s0: Space, s: Space, va: Addr, size: Addr, pa: Addr, perm: bv12, p: nat)
    requires 0 < size && va + size <= 0x1_0000_0000 && pa % PAGE_SIZE == 0 && p < PAGES
    requires RoundDown(va + size - 1) - RoundDown(va) + pa < 0x1_0000_0000
    requires MapsRange(s0, s, Vpn(va), Dist(Vpn(va), Vpn(Wrap(va + size - 1))) + 1, pa, perm) && Valid(s0) && Valid(s)
    ensures AccessTo(s, p) == if Vpn(va) <= p <= Vpn(va + size - 1)
              then Access(pa / PAGE_SIZE + p - Vpn(va), perm & USER == USER, perm & WRITABLE == WRITABLE)
              else AccessTo(s0, p)
  {
    hide Translate, Valid, AccessTo, MapsRange, Dist;
    MapsInterval(s0, s, va, size, pa, perm, p);
    EntryDecides(s0, p);
    EntryDecides(s, p);
    PermBits(perm);
  }
}

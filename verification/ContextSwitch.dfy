/** kernel/src/proc.rs: the switch routine over any number of kernel stacks. */
module ContextSwitch {
  import opened X86

  /** The assembly of switch(old, new): fetch the arguments, save, change stacks, restore, return. */
  const ARGS: seq<Instr> := [LoadStack(4, Eax), LoadStack(8, Edx)]
  const SAVE: seq<Instr> := [Push(Ebp), Push(Ebx), Push(Esi), Push(Edi)]
  const SWAP: seq<Instr> := [StoreAt(Esp, Eax), Move(Edx, Esp)]
  const RESTORE: seq<Instr> := [Pop(Edi), Pop(Esi), Pop(Ebx), Pop(Ebp)]
  const SWITCH: seq<Instr> := ARGS + SAVE + SWAP + RESTORE + [Ret]

  /** What switch saves of its caller: struct Context, eip being the return address. */
  datatype Context = Context(edi: Word, esi: Word, ebx: Word, ebp: Word, eip: Word)

  /** Memory holds the five words of a context at address a. */
  predicate ContextAt(mem: Memory, a: int, c: Context) {
    && Load(mem, a) == c.edi && Load(mem, a + 4) == c.esi && Load(mem, a + 8) == c.ebx
    && Load(mem, a + 12) == c.ebp && Load(mem, a + 16) == c.eip
  }

  /** Memory after the first half of switch; the address of the caller's context goes to `cell`. */
  function SavedMemory(m: Machine, cell: Word): Memory
    requires m.esp >= 16
  {
    m.mem[m.esp - 4 := m.r.ebp][m.esp - 8 := m.r.ebx][m.esp - 12 := m.r.esi][m.esp - 16 := m.r.edi][cell := m.esp - 16]
  }

  lemma RunSwitch(m: Machine)
    ensures WellFormed(SWITCH)
    ensures WellFormed(ARGS) && WellFormed(SAVE) && WellFormed(SWAP) && WellFormed(RESTORE) && WellFormed([Ret])
    ensures Run(m, SWITCH) == Exec(Run(Run(Run(Run(m, ARGS), SAVE), SWAP), RESTORE), Ret)
  {
    hide Exec;
    assert WellFormed(ARGS) && WellFormed(SAVE) && WellFormed(SWAP) && WellFormed(RESTORE) && WellFormed([Ret]);
    RunAppend(m, ARGS + SAVE + SWAP + RESTORE, [Ret]);
    RunAppend(m, ARGS + SAVE + SWAP, RESTORE);
    RunAppend(m, ARGS + SAVE, SWAP);
    RunAppend(m, ARGS, SAVE);
  }

  lemma ArgsEffect(m: Machine)
    requires m.esp + 12 <= 0x1_0000_0000
    ensures WellFormed(ARGS)
    ensures Run(m, ARGS) == Set(Set(m, Eax, Load(m.mem, m.esp + 4)), Edx, Load(m.mem, m.esp + 8))
  {
    hide Run, Load;
    Run2(m, LoadStack(4, Eax), LoadStack(8, Edx));
    var a := Exec(m, LoadStack(4, Eax));
    assert a == Set(m, Eax, Load(m.mem, m.esp + 4)) && a.esp == m.esp && a.mem == m.mem;
  }

  lemma SaveEffect(m: Machine)
    requires 16 <= m.esp
    ensures WellFormed(SAVE)
    ensures var m' := Run(m, SAVE);
      && m'.esp == m.esp - 16 && m'.r == m.r
      && m'.mem == m.mem[m.esp - 4 := m.r.ebp][m.esp - 8 := m.r.ebx][m.esp - 12 := m.r.esi][m.esp - 16 := m.r.edi]
  {
    Run4(m, Push(Ebp), Push(Ebx), Push(Esi), Push(Edi));
    hide Run;
    var a := Exec(m, Push(Ebp));
    assert a.esp == m.esp - 4 && a.r == m.r && a.mem == m.mem[m.esp - 4 := m.r.ebp];
    var b := Exec(a, Push(Ebx));
    assert b.esp == m.esp - 8 && b.r == m.r && b.mem == a.mem[m.esp - 8 := m.r.ebx];
    var c := Exec(b, Push(Esi));
    assert c.esp == m.esp - 12 && c.r == m.r && c.mem == b.mem[m.esp - 12 := m.r.esi];
    var d := Exec(c, Push(Edi));
    assert d.esp == m.esp - 16 && d.r == m.r && d.mem == c.mem[m.esp - 16 := m.r.edi];
  }

  lemma SwapEffect(m: Machine)
    ensures WellFormed(SWAP)
    ensures Run(m, SWAP) == m.(esp := m.r.edx, mem := m.mem[m.r.eax := m.esp])
  {
    Run2(m, StoreAt(Esp, Eax), Move(Edx, Esp));
  }

  lemma RestoreEffect(m: Machine)
    requires m.esp + 20 < 0x1_0000_0000
    ensures WellFormed(RESTORE)
    ensures var m' := Exec(Run(m, RESTORE), Ret);
      m'.mem == m.mem && m'.esp == m.esp + 20
      && ContextAt(m.mem, m.esp, Context(m'.r.edi, m'.r.esi, m'.r.ebx, m'.r.ebp, m'.eip))
  {
    Run4(m, Pop(Edi), Pop(Esi), Pop(Ebx), Pop(Ebp));
    hide Load, Run;
  }

  /** The whole effect of switch. */
  lemma SwitchEffect(m: Machine, cell: Word, to: Word)
    requires 16 <= m.esp && m.esp + 12 <= 0x1_0000_0000 && to + 20 < 0x1_0000_0000
    requires cell == Load(m.mem, m.esp + 4) && to == Load(m.mem, m.esp + 8)
    ensures WellFormed(SWITCH)
    ensures var mem := SavedMemory(m, cell);
      var m' := Run(m, SWITCH);
      && m'.mem == mem && m'.esp == to + 20
      && ContextAt(mem, to, Context(m'.r.edi, m'.r.esi, m'.r.ebx, m'.r.ebp, m'.eip))
  {
    hide Exec, Load, Run, ContextAt;
    RunSwitch(m);
    ArgsEffect(m);
    var m1 := Run(m, ARGS);
    SaveEffect(m1);
    var m2 := Run(m1, SAVE);
    SwapEffect(m2);
    RestoreEffect(Run(m2, SWAP));
  }

  // ---- many stacks ----

  /** A kernel stack, and the variable that holds the address of its context while it is not running. */
  datatype Stack = Stack(lo: int, hi: int, cell: int)

  predicate OnStack(st: Stack, a: int) {
    st.lo <= a < st.hi
  }

  /** Stacks are disjoint from each other and from the variables. */
  ghost predicate Layout(sts: seq<Stack>) {
    && (forall i | 0 <= i < |sts| ::
          0 <= sts[i].lo && sts[i].hi < 0x1_0000_0000 && 0 <= sts[i].cell < 0x1_0000_0000 && sts[i].cell % 4 == 0)
    && (forall i, j, a | 0 <= i < |sts| && 0 <= j < |sts| && OnStack(sts[i], a) && OnStack(sts[j], a) :: i == j)
    && (forall i, j | 0 <= i < |sts| && 0 <= j < |sts| :: !OnStack(sts[i], sts[j].cell))
    && (forall i, j | 0 <= i < |sts| && 0 <= j < |sts| && sts[i].cell == sts[j].cell :: i == j)
  }

  /** What a thread had when it called switch: its context and its stack pointer. */
  datatype Left = Left(ctx: Context, esp: int)

  /** The thread is off the CPU with l saved on its own stack, in the layout of Context. */
  predicate Suspended(mem: Memory, st: Stack, l: Left) {
    && st.lo <= l.esp - 16 && l.esp + 4 <= st.hi && l.esp % 4 == 0
    && Load(mem, st.cell) == l.esp - 16
    && ContextAt(mem, l.esp - 16, l.ctx)
  }

  /** One CPU running thread `current`; `left` records, for every thread, the state it last left with. */
  datatype World = World(m: Machine, current: nat, left: map<nat, Left>)

  ghost predicate Inv(sts: seq<Stack>, w: World) {
    && Layout(sts) && w.current < |sts|
    && forall i | 0 <= i < |sts| && i != w.current :: i in w.left && Suspended(w.m.mem, sts[i], w.left[i])
  }

  datatype Event = Local(m: Machine) | Switch(j: nat)

  /** The running thread may change registers and memory, but not other stacks and not the variables. */
  ghost predicate Allowed(sts: seq<Stack>, w: World, e: Event)
    requires w.current < |sts|
  {
    match e
    case Local(m) =>
      && (forall i, a | 0 <= i < |sts| && i != w.current && OnStack(sts[i], a) :: Load(m.mem, a) == Load(w.m.mem, a))
      && (forall i | 0 <= i < |sts| :: Load(m.mem, sts[i].cell) == Load(w.m.mem, sts[i].cell))
    case Switch(j) =>
      && j < |sts| && j != w.current && w.m.esp % 4 == 0
      && sts[w.current].lo + 16 <= w.m.esp && w.m.esp + 12 <= sts[w.current].hi
      && Load(w.m.mem, w.m.esp + 4) == sts[w.current].cell
      && Load(w.m.mem, w.m.esp + 8) == Load(w.m.mem, sts[j].cell)
  }

  function Leaving(m: Machine): Left {
    Left(Context(m.r.edi, m.r.esi, m.r.ebx, m.r.ebp, Load(m.mem, m.esp)), m.esp)
  }

  function Next(w: World, e: Event): World {
    match e
    case Local(m) => World(m, w.current, w.left)
    case Switch(j) =>
      assert WellFormed(SWITCH) by { RunSwitch(w.m); }
      World(Run(w.m, SWITCH), j, w.left[w.current := Leaving(w.m)])
  }

  /** The thread goes on where it left: same callee-saved registers, return address and stack pointer. */
  predicate Resumed(m: Machine, l: Left) {
    && m.r.edi == l.ctx.edi && m.r.esi == l.ctx.esi && m.r.ebx == l.ctx.ebx && m.r.ebp == l.ctx.ebp
    && m.eip == l.ctx.eip && m.esp == l.esp + 4
  }

  lemma SuspendedFrame(mem: Memory, mem': Memory, st: Stack, l: Left)
    requires Suspended(mem, st, l)
    requires forall a | OnStack(st, a) :: Load(mem', a) == Load(mem, a)
    requires Load(mem', st.cell) == Load(mem, st.cell)
    ensures Suspended(mem', st, l)
  {
    hide Load;
    var a := l.esp - 16;
    assert OnStack(st, a) && OnStack(st, a + 4) && OnStack(st, a + 8) && OnStack(st, a + 12) && OnStack(st, a + 16);
  }

  /** Saving a context writes to the caller's own stack and its own variable only. */
  lemma OthersUntouched(sts: seq<Stack>, m: Machine, c: nat, i: nat, l: Left)
    requires Layout(sts) && c < |sts| && i < |sts| && i != c
    requires sts[c].lo + 16 <= m.esp && m.esp + 12 <= sts[c].hi && Suspended(m.mem, sts[i], l)
    ensures Suspended(SavedMemory(m, sts[c].cell), sts[i], l)
  {
    hide Suspended;
    var mem := SavedMemory(m, sts[c].cell);
    var e := m.esp;
    assert OnStack(sts[c], e - 4) && OnStack(sts[c], e - 8) && OnStack(sts[c], e - 12) && OnStack(sts[c], e - 16);
    forall a | OnStack(sts[i], a) || a == sts[i].cell ensures Load(mem, a) == Load(m.mem, a) {
      assert a != e - 4 && a != e - 8 && a != e - 12 && a != e - 16 && a != sts[c].cell;
    }
    SuspendedFrame(m.mem, mem, sts[i], l);
  }

  lemma SwitchStep(sts: seq<Stack>, w: World, j: nat)
    requires Inv(sts, w) && Allowed(sts, w, Switch(j))
    ensures Inv(sts, Next(w, Switch(j)))
    ensures Resumed(Next(w, Switch(j)).m, w.left[j])
  {
    hide Run, SavedMemory, Load;
    var c := w.current;
    var cell := sts[c].cell;
    assert Suspended(w.m.mem, sts[j], w.left[j]);
    SwitchEffect(w.m, cell, w.left[j].esp - 16);
    hide Layout;
    var mem := SavedMemory(w.m, cell);
    forall i | 0 <= i < |sts| && i != c ensures Suspended(mem, sts[i], w.left[i]) {
      OthersUntouched(sts, w.m, c, i, w.left[i]);
    }
    LeavingSaved(sts, w);
  }

  /** The caller's five words, the last of them its return address, are on its stack. */
  lemma LeavingSaved(sts: seq<Stack>, w: World)
    requires Layout(sts) && w.current < |sts|
    requires sts[w.current].lo + 16 <= w.m.esp && w.m.esp + 12 <= sts[w.current].hi && w.m.esp % 4 == 0
    ensures Suspended(SavedMemory(w.m, sts[w.current].cell), sts[w.current], Leaving(w.m))
  {
    var st := sts[w.current];
    var a := w.m.esp - 16;
    assert OnStack(st, a) && OnStack(st, a + 4) && OnStack(st, a + 8) && OnStack(st, a + 12) && OnStack(st, a + 16);
  }

  lemma StepInv(sts: seq<Stack>, w: World, e: Event)
    requires Inv(sts, w) && Allowed(sts, w, e)
    ensures Inv(sts, Next(w, e))
  {
    hide Run;
    match e
    case Switch(j) => SwitchStep(sts, w, j);
    case Local(m) =>
      forall i | 0 <= i < |sts| && i != w.current ensures Suspended(m.mem, sts[i], w.left[i]) {
        SuspendedFrame(w.m.mem, m.mem, sts[i], w.left[i]);
      }
  }

  // ---- runs ----

  ghost predicate CanRun(sts: seq<Stack>, w: World, run: seq<Event>)
    decreases |run|
  {
    run == [] || (w.current < |sts| && Allowed(sts, w, run[0]) && CanRun(sts, Next(w, run[0]), run[1..]))
  }

  function After(w: World, run: seq<Event>): World
    decreases |run|
  {
    if run == [] then w else After(Next(w, run[0]), run[1..])
  }

  lemma {:induction false} RunInv(sts: seq<Stack>, w: World, run: seq<Event>)
    requires Inv(sts, w) && CanRun(sts, w, run)
    ensures Inv(sts, After(w, run))
    decreases |run|
  {
    hide Next, Inv, Allowed;
    if run == [] {
    } else {
      StepInv(sts, w, run[0]);
      RunInv(sts, Next(w, run[0]), run[1..]);
    }
  }

  /** While a thread is off the CPU nothing disturbs its record. */
  lemma {:induction false} LeftStays(w: World, run: seq<Event>, c: nat)
    requires w.current != c && c in w.left && Switch(c) !in run
    ensures var w' := After(w, run); w'.current != c && c in w'.left && w'.left[c] == w.left[c]
    decreases |run|
  {
    if run == [] {
    } else {
      assert run[0] in run;
      LeftStays(Next(w, run[0]), run[1..], c);
    }
  }

  /** A step of another thread leaves the whole stack of thread c alone. */
  lemma StackStep(sts: seq<Stack>, w: World, e: Event, c: nat, a: int)
    requires Inv(sts, w) && Allowed(sts, w, e) && w.current != c && c < |sts| && OnStack(sts[c], a)
    ensures Load(Next(w, e).m.mem, a) == Load(w.m.mem, a)
  {
    if e.Switch? {
      SwitchMemory(sts, w, e.j);
      hide Run;
      var m, st := w.m, sts[w.current];
      assert OnStack(st, m.esp - 4) && OnStack(st, m.esp - 8) && OnStack(st, m.esp - 12) && OnStack(st, m.esp - 16);
    }
  }

  lemma SwitchMemory(sts: seq<Stack>, w: World, j: nat)
    requires Inv(sts, w) && Allowed(sts, w, Switch(j))
    ensures w.m.esp >= 16 && 0 <= sts[w.current].cell < 0x1_0000_0000
    ensures Next(w, Switch(j)).m.mem == SavedMemory(w.m, sts[w.current].cell)
  {
    hide Run, SavedMemory, Load;
    assert Suspended(w.m.mem, sts[j], w.left[j]);
    SwitchEffect(w.m, sts[w.current].cell, w.left[j].esp - 16);
  }

  /** While a thread is off the CPU nothing on its stack changes. */
  lemma {:induction false} StackStays(sts: seq<Stack>, w: World, run: seq<Event>, c: nat, a: int)
    requires Inv(sts, w) && CanRun(sts, w, run) && Switch(c) !in run
    requires w.current != c && c < |sts| && OnStack(sts[c], a)
    ensures Load(After(w, run).m.mem, a) == Load(w.m.mem, a)
    decreases |run|
  {
    hide Inv, Allowed, Load, OnStack;
    if run == [] {
    } else {
      assert run[0] in run;
      StepInv(sts, w, run[0]);
      StackStep(sts, w, run[0], c, a);
      hide Run;
      StackStays(sts, Next(w, run[0]), run[1..], c, a);
    }
  }

  /**
   * Whatever the other threads do in between, a thread that switches away is resumed exactly as it
   * left, and finds its stack as it left it, but for the four words below its stack pointer.
   */
  lemma {:induction false} ResumeExact(sts: seq<Stack>, w: World, j: nat, run: seq<Event>)
    requires Inv(sts, w) && Allowed(sts, w, Switch(j))
    requires Switch(w.current) !in run && CanRun(sts, Next(w, Switch(j)), run)
    requires var w2 := After(Next(w, Switch(j)), run); w2.current < |sts| && Allowed(sts, w2, Switch(w.current))
    ensures var m := Next(After(Next(w, Switch(j)), run), Switch(w.current)).m;
      && Resumed(m, Leaving(w.m))
      && forall a | OnStack(sts[w.current], a) && !(w.m.esp - 16 <= a < w.m.esp) :: Load(m.mem, a) == Load(w.m.mem, a)
  {
    hide Run, Resumed, CanRun, Allowed, Load, SavedMemory;
    var c := w.current;
    var w1 := Next(w, Switch(j));
    SwitchStep(sts, w, j);
    RunInv(sts, w1, run);
    assert j != c by { SwitchTarget(sts, w, j); }
    LeftStays(w1, run, c);
    var w2 := After(w1, run);
    SwitchStep(sts, w2, c);
    hide Inv, OnStack;
    forall a | OnStack(sts[c], a) && !(w.m.esp - 16 <= a < w.m.esp)
      ensures Load(Next(w2, Switch(c)).m.mem, a) == Load(w.m.mem, a)
    {
      OwnStackSaved(sts, w, j, a);
      StackStays(sts, w1, run, c, a);
      StackStep(sts, w2, Switch(c), c, a);
    }
  }

  /** Leaving, a thread writes four words of its own stack. */
  lemma OwnStackSaved(sts: seq<Stack>, w: World, j: nat, a: int)
    requires Inv(sts, w) && Allowed(sts, w, Switch(j))
    requires OnStack(sts[w.current], a) && !(w.m.esp - 16 <= a < w.m.esp)
    ensures Load(Next(w, Switch(j)).m.mem, a) == Load(w.m.mem, a)
  {
    SwitchMemory(sts, w, j);
    hide Run;
    SavedLoad(w.m, sts[w.current].cell, a);
  }

  lemma SavedLoad(m: Machine, cell: Word, a: int)
    requires m.esp >= 16 && (a < m.esp - 16 || m.esp <= a)
    ensures Load(SavedMemory(m, cell), a) == if a == cell then m.esp - 16 else Load(m.mem, a)
  {
  }

  lemma SwitchTarget(sts: seq<Stack>, w: World, j: nat)
    requires w.current < |sts| && Allowed(sts, w, Switch(j))
    ensures j != w.current
  {
  }

  // ---- two threads ----

  const TWO: seq<Stack> := [Stack(0x1000, 0x1100, 0x10), Stack(0x2000, 0x2100, 0x14)]

  /** Each thread's stack holds the arguments of its next call of switch: its variable, the other's context. */
  function TwoMemory(): Memory {
    map[0x14 := 0x2070, 0x1084 := 0x10, 0x1088 := 0x2070, 0x2088 := 0x14, 0x208c := 0x1070]
  }

  /** Thread 0 runs, thread 1 is suspended. */
  function TwoThreads(): World {
    World(Machine(Regs(0, 0, 0, 1, 2, 3, 4, 0, 0, 0, 0), 0x1080, 0, 0, 0, 0, TwoMemory()), 0,
          map[1 := Left(Context(0, 0, 0, 0, 0), 0x2080)])
  }

  lemma TwoLayout()
    ensures Layout(TWO)
  {
    assert TWO[0].cell == 0x10 && TWO[1].cell == 0x14;
  }

  lemma TwoReady()
    ensures Inv(TWO, TwoThreads()) && Allowed(TWO, TwoThreads(), Switch(1))
  {
    hide Layout;
    TwoLayout();
    var mem := TwoMemory();
    assert Load(mem, 0x14) == 0x2070 && Load(mem, 0x1084) == 0x10 && Load(mem, 0x1088) == 0x2070;
    assert ContextAt(mem, 0x2070, Context(0, 0, 0, 0, 0));
    hide Load, TwoMemory, ContextAt;
    assert Suspended(mem, TWO[1], TwoThreads().left[1]);
  }

  lemma TwoSwitched()
    ensures var w := Next(TwoThreads(), Switch(1)); w.current < |TWO| && Allowed(TWO, w, Switch(0))
  {
    hide Run, SavedMemory, ContextAt;
    var w := TwoThreads();
    var mem := w.m.mem;
    assert Load(mem, 0x1084) == 0x10 && Load(mem, 0x1088) == 0x2070;
    assert Load(mem, 0x2088) == 0x14 && Load(mem, 0x208c) == 0x1070;
    hide Load, TwoMemory;
    SwitchEffect(w.m, 0x10, 0x2070);
    SavedLoad(w.m, 0x10, 0x10);
    SavedLoad(w.m, 0x10, 0x2088);
    SavedLoad(w.m, 0x10, 0x208c);
  }

  /** The hypotheses of ResumeExact are met by an actual run, there and back. */
  lemma ThereAndBack()
    ensures Inv(TWO, TwoThreads()) && Allowed(TWO, TwoThreads(), Switch(1))
    ensures var w := Next(TwoThreads(), Switch(1)); w.current < |TWO| && Allowed(TWO, w, Switch(0))
    ensures Resumed(Next(Next(TwoThreads(), Switch(1)), Switch(0)).m, Leaving(TwoThreads().m))
  {
    hide Run, Inv, Allowed, Resumed, Leaving;
    TwoReady();
    TwoSwitched();
    ResumeExact(TWO, TwoThreads(), 1, []);
  }
}

/**
 * kernel/src/lock.rs as a small-step system: any number of spin locks and CPUs, with every atomic
 * load, store and compare-and-swap, and every push_cli and pop_cli, as one step.
 */
module SpinLocks {

  datatype Lock = Lock(locked: bool, cpu: int)

  datatype Op = Acquire | Release

  /** What a CPU does next. */
  datatype Pc =
    | Idle
    | Pushed(l: nat)                        // acquire: push_cli done, about to call holding
    | LoadLocked(l: nat, op: Op)            // holding: about to load `locked`
    | LoadCpu(l: nat, op: Op)               // holding: `locked` was true, about to load `cpu`
    | Loaded(l: nat, op: Op, result: bool)  // holding: about to pop_cli and return
    | Spin(l: nat)                          // acquire: about to compare-and-swap
    | Store(l: nat)                         // acquire: about to store the CPU number
    | Clear(l: nat)                         // release: about to store -1
    | Unlock(l: nat)                        // release: about to store false
    | Pop(l: nat)                           // release: about to pop_cli
    | Panicked

  /**
   * A CPU: its interrupt flag, num_cli and int_enabled. The last three fields are history: the locks
   * whose acquire has returned, the open cli sections, and the interrupt flag when num_cli was last 0.
   */
  datatype Cpu = Cpu(irq: bool, numCli: int, intEnabled: bool, pc: Pc, held: set<nat>, open: nat, saved: bool)

  datatype Sys = Sys(locks: seq<Lock>, cpus: seq<Cpu>)

  datatype Action = StartAcquire(l: nat) | StartRelease(l: nat) | OpenCli | CloseCli | SetIrq(on: bool) | Continue

  function PushCli(c: Cpu): Cpu {
    if c.numCli == 0 then
      Cpu(false, 1, c.irq, c.pc, c.held, c.open, c.irq)
    else
      Cpu(false, c.numCli + 1, c.intEnabled, c.pc, c.held, c.open, c.saved)
  }

  function PopCli(c: Cpu): Cpu {
    if c.irq || c.numCli == 0 then
      c.(pc := Panicked)
    else
      c.(numCli := c.numCli - 1, irq := c.numCli == 1 && c.intEnabled)
  }

  /** The CPU after pop_cli, going on at pc unless pop_cli panicked. */
  function PopTo(c: Cpu, pc: Pc): Cpu {
    var d := PopCli(c);
    if d.pc.Panicked? then d else d.(pc := pc)
  }

  predicate Enabled(s: Sys, i: nat, a: Action) {
    && i < |s.cpus|
    && var c := s.cpus[i];
      match a
      case StartAcquire(l) => c.pc.Idle? && l < |s.locks|
      case StartRelease(l) => c.pc.Idle? && l < |s.locks|
      case OpenCli => c.pc.Idle?
      case CloseCli => c.pc.Idle? && c.open > 0
      case SetIrq(_) => c.pc.Idle? && c.numCli == 0
      case Continue => !c.pc.Idle? && !c.pc.Panicked?
  }

  predicate WellFormed(s: Sys) {
    forall i | 0 <= i < |s.cpus| ::
      s.cpus[i].pc.Idle? || s.cpus[i].pc.Panicked? || s.cpus[i].pc.l < |s.locks|
  }

  function WithCpu(s: Sys, i: nat, c: Cpu): Sys
    requires i < |s.cpus|
  {
    Sys(s.locks, s.cpus[i := c])
  }

  function WithBoth(s: Sys, l: nat, k: Lock, i: nat, c: Cpu): Sys
    requires i < |s.cpus| && l < |s.locks|
  {
    Sys(s.locks[l := k], s.cpus[i := c])
  }

  /** One step of CPU i. */
  function Step(s: Sys, i: nat, a: Action): Sys
    requires WellFormed(s) && Enabled(s, i, a)
  {
    var c := s.cpus[i];
    match a
    case StartAcquire(l) => WithCpu(s, i, PushCli(c).(pc := Pushed(l)))
    case StartRelease(l) => WithCpu(s, i, PushCli(c).(pc := LoadLocked(l, Release)))
    case OpenCli => WithCpu(s, i, PushCli(c).(open := c.open + 1))
    case CloseCli => WithCpu(s, i, PopCli(c).(open := c.open - 1))
    case SetIrq(on) => WithCpu(s, i, c.(irq := on, saved := on))
    case Continue => Next(s, i)
  }

  function Next(s: Sys, i: nat): Sys
    requires WellFormed(s) && Enabled(s, i, Continue)
  {
    var c := s.cpus[i];
    match c.pc
    case Pushed(l) => WithCpu(s, i, PushCli(c).(pc := LoadLocked(l, Acquire)))
    case LoadLocked(l, op) =>
      WithCpu(s, i, c.(pc := if s.locks[l].locked then LoadCpu(l, op) else Loaded(l, op, false)))
    case LoadCpu(l, op) =>
      // my_cpu_id panics when interrupts are on
      WithCpu(s, i, c.(pc := if c.irq then Panicked else Loaded(l, op, s.locks[l].cpu == i)))
    case Loaded(l, op, result) =>
      WithCpu(s, i, PopTo(c,
        match op
        case Acquire => if result then Panicked else Spin(l)
        case Release => if result then Clear(l) else Panicked))
    case Spin(l) =>
      if s.locks[l].locked then s
      else WithBoth(s, l, Lock(true, s.locks[l].cpu), i, c.(pc := Store(l)))
    case Store(l) =>
      if c.irq then WithCpu(s, i, c.(pc := Panicked))
      else WithBoth(s, l, Lock(s.locks[l].locked, i), i, c.(pc := Idle, held := c.held + {l}))
    case Clear(l) => WithBoth(s, l, Lock(s.locks[l].locked, -1), i, c.(pc := Unlock(l)))
    case Unlock(l) => WithBoth(s, l, Lock(false, s.locks[l].cpu), i, c.(pc := Pop(l), held := c.held - {l}))
    case Pop(l) => WithCpu(s, i, PopTo(c, Idle))
  }

  /** All locks free, all CPUs idle, interrupts on or off. */
  predicate Init(s: Sys) {
    && (forall l | 0 <= l < |s.locks| :: s.locks[l] == Lock(false, -1))
    && (forall i | 0 <= i < |s.cpus| ::
          var c := s.cpus[i];
          c.pc == Idle && c.numCli == 0 && c.held == {} && c.open == 0 && c.saved == c.irq)
  }

  // ---- the invariant ----

  /** CPU c has won the lock: from the successful compare-and-swap to the store of false. */
  predicate Owns(c: Cpu, l: nat) {
    l in c.held || c.pc == Store(l)
  }

  /** The levels of push_cli that the code at this point has open beyond the locks held. */
  function Depth(pc: Pc): nat {
    match pc
    case Idle => 0
    case Pushed(_) => 1
    case LoadLocked(_, op) => if op == Acquire then 2 else 1
    case LoadCpu(_, op) => if op == Acquire then 2 else 1
    case Loaded(_, op, _) => if op == Acquire then 2 else 1
    case Spin(_) => 1
    case Store(_) => 1
    case Clear(_) => 0
    case Unlock(_) => 0
    case Pop(_) => 1
    case Panicked => 0
  }

  /** num_cli counts locks held or being acquired and open sections; it governs the interrupt flag. */
  predicate CpuOk(c: Cpu) {
    c.pc.Panicked? ||
    (&& c.numCli == |c.held| + c.open + Depth(c.pc)
     && (c.numCli > 0 ==> !c.irq && c.intEnabled == c.saved)
     && (c.numCli == 0 ==> c.irq == c.saved)
     && (c.pc.Loaded? ==> (c.pc.result <==> c.pc.l in c.held))
     && (c.pc.Clear? || c.pc.Unlock? ==> c.pc.l in c.held)
     && (c.pc.Spin? || c.pc.Store? || c.pc.Pop? ==> c.pc.l !in c.held))
  }

  /** `locked` and `cpu` tell who owns lock l; `cpu` lags behind and runs ahead by one store. */
  predicate LockOk(s: Sys, l: nat)
    requires l < |s.locks|
  {
    && (forall i, j | 0 <= i < |s.cpus| && 0 <= j < |s.cpus| && Owns(s.cpus[i], l) && Owns(s.cpus[j], l) :: i == j)
    && (s.locks[l].locked <==> exists i :: 0 <= i < |s.cpus| && Owns(s.cpus[i], l))
    && (forall i | 0 <= i < |s.cpus| :: s.locks[l].cpu == i <==> l in s.cpus[i].held && s.cpus[i].pc != Unlock(l))
    && -1 <= s.locks[l].cpu < |s.cpus|
  }

  predicate Inv(s: Sys) {
    && WellFormed(s)
    && (forall i | 0 <= i < |s.cpus| :: CpuOk(s.cpus[i]))
    && (forall l | 0 <= l < |s.locks| :: LockOk(s, l))
  }

  lemma InitInv(s: Sys)
    requires Init(s)
    ensures Inv(s)
  {
  }

  /** A step that changes no lock and no ownership. */
  lemma LocalStep(s: Sys, i: nat, c: Cpu)
    requires Inv(s) && i < |s.cpus| && CpuOk(c)
    requires c.pc.Idle? || c.pc.Panicked? || c.pc.l < |s.locks|
    requires c.held == s.cpus[i].held
    requires !c.pc.Store? && !c.pc.Unlock? && !s.cpus[i].pc.Store? && !s.cpus[i].pc.Unlock?
    ensures Inv(WithCpu(s, i, c))
  {
    var s' := WithCpu(s, i, c);
    forall l | 0 <= l < |s.locks| ensures LockOk(s', l) {
      assert LockOk(s, l);
      forall j | 0 <= j < |s.cpus| ensures Owns(s'.cpus[j], l) == Owns(s.cpus[j], l) {
      }
      if s.locks[l].locked {
        var j :| 0 <= j < |s.cpus| && Owns(s.cpus[j], l);
        assert Owns(s'.cpus[j], l);
      }
    }
  }

  /** A step on lock l alone: the other locks see no change of owner. */
  lemma OtherLocks(s: Sys, l: nat, k: Lock, i: nat, c: Cpu, m: nat)
    requires Inv(s) && i < |s.cpus| && l < |s.locks| && m < |s.locks| && m != l
    requires m in c.held <==> m in s.cpus[i].held
    requires c.pc != Store(m) && s.cpus[i].pc != Store(m) && c.pc != Unlock(m) && s.cpus[i].pc != Unlock(m)
    ensures LockOk(WithBoth(s, l, k, i, c), m)
  {
    var s' := WithBoth(s, l, k, i, c);
    assert LockOk(s, m);
    forall j | 0 <= j < |s.cpus| ensures Owns(s'.cpus[j], m) == Owns(s.cpus[j], m) {
    }
    if s.locks[m].locked {
      var j :| 0 <= j < |s.cpus| && Owns(s.cpus[j], m);
      assert Owns(s'.cpus[j], m);
    }
  }

  /** The compare-and-swap, the two stores of `cpu` and the store of `locked`. */
  lemma LockStep(s: Sys, i: nat)
    requires Inv(s) && Enabled(s, i, Continue)
    requires var pc := s.cpus[i].pc; pc.Spin? || pc.Store? || pc.Clear? || pc.Unlock?
    ensures Inv(Next(s, i))
  {
    var s' := Next(s, i);
    var c := s.cpus[i];
    var l := c.pc.l;
    assert CpuOk(c) && LockOk(s, l);
    if s' != s {
      var c', k := s'.cpus[i], s'.locks[l];
      assert CpuOk(c') by {
        if c.pc.Store? {
          assert |c.held + {l}| == |c.held| + 1;
        } else if c.pc.Unlock? {
          assert |c.held - {l}| == |c.held| - 1;
        }
      }
      assert s' == WithBoth(s, l, k, i, c');
      forall m | 0 <= m < |s.locks| && m != l ensures LockOk(s', m) {
        OtherLocks(s, l, k, i, c', m);
      }
      forall j | 0 <= j < |s.cpus| && j != i ensures !Owns(s'.cpus[j], l) {
        assert s'.cpus[j] == s.cpus[j];
        assert c.pc.Spin? ==> !s.locks[l].locked;
      }
      assert c.pc.Unlock? <==> !Owns(c', l);
    }
  }

  /** Every step keeps the invariant. */
  lemma StepInv(s: Sys, i: nat, a: Action)
    requires Inv(s) && Enabled(s, i, a)
    ensures Inv(Step(s, i, a))
  {
    var c := s.cpus[i];
    assert CpuOk(c);
    if a == Continue && (c.pc.Spin? || c.pc.Store? || c.pc.Clear? || c.pc.Unlock?) {
      LockStep(s, i);
    } else {
      if a == Continue {
        assert LockOk(s, c.pc.l);
      }
      var c' := Step(s, i, a).cpus[i];
      LocalStep(s, i, c');
    }
  }

  // ---- runs ----

  datatype Event = Event(cpu: nat, action: Action)

  predicate CanRun(s: Sys, run: seq<Event>)
    requires WellFormed(s)
    decreases |run|
  {
    run == [] ||
    (Enabled(s, run[0].cpu, run[0].action) &&
     var s' := Step(s, run[0].cpu, run[0].action);
     WellFormed(s') && CanRun(s', run[1..]))
  }

  function Run(s: Sys, run: seq<Event>): Sys
    requires WellFormed(s) && CanRun(s, run)
    decreases |run|
  {
    if run == [] then s else Run(Step(s, run[0].cpu, run[0].action), run[1..])
  }

  lemma {:induction false} RunInv(s: Sys, run: seq<Event>)
    requires Inv(s) && CanRun(s, run)
    ensures Inv(Run(s, run))
    decreases |run|
  {
    hide CpuOk, LockOk, Step;
    if run == [] {
    } else {
      StepInv(s, run[0].cpu, run[0].action);
      RunInv(Step(s, run[0].cpu, run[0].action), run[1..]);
    }
  }

  /** In every interleaving: mutual exclusion, and `cpu` is -1 or the number of the CPU that holds the lock. */
  lemma MutualExclusion(s: Sys, run: seq<Event>, l: nat)
    requires Init(s) && WellFormed(s) && CanRun(s, run) && l < |s.locks|
    ensures var t := Run(s, run);
      && |t.locks| == |s.locks| && |t.cpus| == |s.cpus|
      && (forall i, j | 0 <= i < |t.cpus| && 0 <= j < |t.cpus| && Owns(t.cpus[i], l) && Owns(t.cpus[j], l) :: i == j)
      && (t.locks[l].cpu == -1 || (0 <= t.locks[l].cpu < |t.cpus| && l in t.cpus[t.locks[l].cpu].held))
      && (forall i | 0 <= i < |t.cpus| && t.cpus[i].pc == Store(l) :: t.locks[l] == Lock(true, -1))
  {
    InitInv(s);
    RunInv(s, run);
    RunShape(s, run);
    var t := Run(s, run);
    hide Run, CanRun;
    assert LockOk(t, l);
    assert t.locks[l].cpu != -1 ==> Owns(t.cpus[t.locks[l].cpu], l);
    forall i | 0 <= i < |t.cpus| && t.cpus[i].pc == Store(l) ensures t.locks[l] == Lock(true, -1) {
      assert CpuOk(t.cpus[i]) && Owns(t.cpus[i], l);
    }
  }

  /** The two loads of holding answer correctly for the CPU that makes them, whatever other CPUs do. */
  lemma HoldingIsExact(s: Sys, run: seq<Event>, i: nat)
    requires Init(s) && WellFormed(s) && CanRun(s, run) && i < |s.cpus|
    ensures var c := Run(s, run).cpus; |c| == |s.cpus| && (c[i].pc.Loaded? ==> (c[i].pc.result <==> c[i].pc.l in c[i].held))
  {
    InitInv(s);
    RunInv(s, run);
    RunShape(s, run);
    assert CpuOk(Run(s, run).cpus[i]);
  }

  /** Nested disabling: num_cli counts, interrupts are off while it is positive and restored at 0. */
  lemma InterruptsRestored(s: Sys, run: seq<Event>, i: nat)
    requires Init(s) && WellFormed(s) && CanRun(s, run) && i < |s.cpus|
    ensures |Run(s, run).cpus| == |s.cpus|
    ensures var c := Run(s, run).cpus[i];
      c.pc.Panicked? ||
      (&& c.numCli == |c.held| + c.open + Depth(c.pc)
       && (c.numCli > 0 ==> !c.irq)
       && (c.numCli == 0 ==> c.irq == c.saved))
  {
    InitInv(s);
    RunInv(s, run);
    RunShape(s, run);
    assert CpuOk(Run(s, run).cpus[i]);
  }

  /** A CPU panics exactly when it acquires a lock it holds or releases one it does not hold. */
  lemma PanicIff(s: Sys, i: nat, a: Action)
    requires Inv(s) && Enabled(s, i, a)
    ensures Step(s, i, a).cpus[i].pc.Panicked? <==>
      var c := s.cpus[i];
      a == Continue && c.pc.Loaded? && (c.pc.op == Acquire <==> c.pc.l in c.held)
  {
    assert CpuOk(s.cpus[i]);
  }

  lemma {:induction false} RunShape(s: Sys, run: seq<Event>)
    requires WellFormed(s) && CanRun(s, run)
    ensures |Run(s, run).locks| == |s.locks| && |Run(s, run).cpus| == |s.cpus|
    decreases |run|
  {
    if run == [] {
    } else {
      RunShape(Step(s, run[0].cpu, run[0].action), run[1..]);
    }
  }

  // ---- whole calls ----

  /** What a CPU that was c0 when it started the call has become, at each point of the call. */
  predicate InCall(c0: Cpu, c: Cpu, op: Op, l: nat) {
    c.pc.Panicked? ||
    (&& c.open == c0.open
     && match op
        case Acquire =>
          if c.pc.Idle? then c.numCli == c0.numCli + 1 && c.held == c0.held + {l}
          else
            && c.held == c0.held && (c.pc.LoadLocked? || c.pc.LoadCpu? || c.pc.Loaded? ==> c.pc.op == Acquire) && c.pc.l == l
            && (c.pc.Pushed? || c.pc.LoadLocked? || c.pc.LoadCpu? || c.pc.Loaded? || c.pc.Spin? || c.pc.Store?)
            && c.numCli == c0.numCli + if c.pc.Pushed? || c.pc.Spin? || c.pc.Store? then 1 else 2
        case Release =>
          if c.pc.Idle? then c.numCli == c0.numCli - 1 && c.held == c0.held - {l} && l in c0.held
          else
            && c.pc.l == l && (c.pc.LoadLocked? || c.pc.LoadCpu? || c.pc.Loaded? ==> c.pc.op == Release)
            && (c.pc.LoadLocked? || c.pc.LoadCpu? || c.pc.Loaded? || c.pc.Clear? || c.pc.Unlock? || c.pc.Pop?)
            && (c.pc.Clear? || c.pc.Unlock? || c.pc.Pop? ==> l in c0.held)
            && c.held == (if c.pc.Pop? then c0.held - {l} else c0.held)
            && c.numCli == c0.numCli + if c.pc.Clear? || c.pc.Unlock? || c.pc.Pop? then 0 else 1)
  }

  /** CPU i does not return from its call before the end of the run. */
  predicate Busy(s: Sys, run: seq<Event>, i: nat)
    requires WellFormed(s) && CanRun(s, run) && i < |s.cpus|
    decreases |run|
  {
    run == [] || (!s.cpus[i].pc.Idle? && Busy(Step(s, run[0].cpu, run[0].action), run[1..], i))
  }

  lemma CallStep(s: Sys, i: nat, a: Action, j: nat, c0: Cpu, op: Op, l: nat)
    requires Inv(s) && Enabled(s, i, a) && j < |s.cpus| && InCall(c0, s.cpus[j], op, l) && !s.cpus[j].pc.Idle?
    ensures InCall(c0, Step(s, i, a).cpus[j], op, l)
  {
    if i == j {
      assert CpuOk(s.cpus[i]);
    }
  }

  lemma {:induction false} CallRun(s: Sys, run: seq<Event>, j: nat, c0: Cpu, op: Op, l: nat)
    requires Inv(s) && CanRun(s, run) && j < |s.cpus| && InCall(c0, s.cpus[j], op, l) && Busy(s, run, j)
    ensures j < |Run(s, run).cpus| && InCall(c0, Run(s, run).cpus[j], op, l)
    decreases |run|
  {
    hide CpuOk, LockOk, InCall;
    if run == [] {
    } else {
      var e := run[0];
      StepInv(s, e.cpu, e.action);
      CallStep(s, e.cpu, e.action, j, c0, op, l);
      hide Step;
      CallRun(Step(s, e.cpu, e.action), run[1..], j, c0, op, l);
    }
  }

  /**
   * acquire takes the lock: in every interleaving, a CPU that returns from it holds the lock, which
   * names that CPU, one more level of interrupts is off, and nothing else of the CPU has changed.
   */
  lemma AcquireTakes(s: Sys, i: nat, l: nat, run: seq<Event>)
    requires Inv(s) && Enabled(s, i, StartAcquire(l))
    requires var s1 := Step(s, i, StartAcquire(l)); WellFormed(s1) && CanRun(s1, run) && Busy(s1, run, i)
    ensures var c, t := s.cpus[i], Run(Step(s, i, StartAcquire(l)), run);
      i < |t.cpus| && l < |t.locks| &&
      (t.cpus[i].pc.Idle? ==>
        && t.locks[l] == Lock(true, i) && t.cpus[i].held == c.held + {l} && l !in c.held
        && t.cpus[i].numCli == c.numCli + 1 && t.cpus[i].open == c.open && !t.cpus[i].irq)
  {
    hide LockOk;
    var c := s.cpus[i];
    var s1 := Step(s, i, StartAcquire(l));
    StepInv(s, i, StartAcquire(l));
    CallRun(s1, run, i, c, Acquire, l);
    RunInv(s1, run);
    RunShape(s1, run);
    var t := Run(s1, run);
    hide Run, Step, CanRun, Busy;
    if t.cpus[i].pc.Idle? {
      HeldByOwner(t, i, l);
      assert CpuOk(t.cpus[i]) && CpuOk(c);
      assert l in c.held ==> c.held + {l} == c.held;
    }
  }

  lemma HeldByOwner(s: Sys, i: nat, l: nat)
    requires Inv(s) && i < |s.cpus| && l < |s.locks| && s.cpus[i].pc.Idle?
    ensures l in s.cpus[i].held ==> s.locks[l] == Lock(true, i)
    ensures l !in s.cpus[i].held ==> s.locks[l].cpu != i
  {
    assert LockOk(s, l);
    if l in s.cpus[i].held {
      assert Owns(s.cpus[i], l);
    }
  }

  /**
   * release gives the lock up: in every interleaving, a CPU that returns from it held the lock and
   * no longer does, the lock no longer names it, and one level of interrupts is undone.
   */
  lemma ReleaseReleases(s: Sys, i: nat, l: nat, run: seq<Event>)
    requires Inv(s) && Enabled(s, i, StartRelease(l))
    requires var s1 := Step(s, i, StartRelease(l)); WellFormed(s1) && CanRun(s1, run) && Busy(s1, run, i)
    ensures var c, t := s.cpus[i], Run(Step(s, i, StartRelease(l)), run);
      i < |t.cpus| && l < |t.locks| &&
      (t.cpus[i].pc.Idle? ==>
        && l in c.held && t.cpus[i].held == c.held - {l} && t.locks[l].cpu != i && !Owns(t.cpus[i], l)
        && t.cpus[i].numCli == c.numCli - 1 && t.cpus[i].open == c.open
        && (c.numCli == 1 ==> t.cpus[i].irq == t.cpus[i].saved))
  {
    hide LockOk;
    var c := s.cpus[i];
    var s1 := Step(s, i, StartRelease(l));
    StepInv(s, i, StartRelease(l));
    CallRun(s1, run, i, c, Release, l);
    RunInv(s1, run);
    RunShape(s1, run);
    var t := Run(s1, run);
    hide Run, Step, CanRun, Busy;
    if t.cpus[i].pc.Idle? {
      HeldByOwner(t, i, l);
      assert CpuOk(t.cpus[i]);
    }
  }

  // ---- calls return ----

  /** Steps of its own that a CPU has at most left in its call, not counting failed compare-and-swaps. */
  function Rank(pc: Pc): nat {
    match pc
    case Idle => 0
    case Panicked => 0
    case Pushed(_) => 6
    case LoadLocked(_, op) => if op == Acquire then 5 else 6
    case LoadCpu(_, op) => if op == Acquire then 4 else 5
    case Loaded(_, op, _) => if op == Acquire then 3 else 4
    case Spin(_) => 2
    case Store(_) => 1
    case Clear(_) => 3
    case Unlock(_) => 2
    case Pop(_) => 1
  }

  /** Every step of a call brings it nearer to its end, except a spin on a lock that is taken, which changes nothing. */
  lemma CallAdvances(s: Sys, i: nat)
    requires Inv(s) && Enabled(s, i, Continue)
    ensures var pc, s' := s.cpus[i].pc, Step(s, i, Continue);
      if pc.Spin? && s.locks[pc.l].locked then s' == s else Rank(s'.cpus[i].pc) < Rank(pc)
  {
    assert CpuOk(s.cpus[i]);
  }

  /** A CPU that finds the lock free in its compare-and-swap owns it, and no other CPU does. */
  lemma FreeLockIsTaken(s: Sys, i: nat, l: nat)
    requires Inv(s) && Enabled(s, i, Continue) && s.cpus[i].pc == Spin(l) && !s.locks[l].locked
    ensures var s' := Step(s, i, Continue);
      && s'.locks[l].locked && Owns(s'.cpus[i], l)
      && forall j | 0 <= j < |s'.cpus| && j != i :: !Owns(s'.cpus[j], l)
  {
    StepInv(s, i, Continue);
    var s' := Step(s, i, Continue);
    assert LockOk(s', l) && Owns(s'.cpus[i], l);
  }

  /** How many of the events are steps of CPU i. */
  function StepsOf(run: seq<Event>, i: nat): nat {
    if run == [] then 0 else (if run[0].cpu == i then 1 else 0) + StepsOf(run[1..], i)
  }

  /** A CPU inside the release of a lock that it holds has exactly Rank steps left, whatever the others do. */
  predicate Releasing(c0: Cpu, c: Cpu, l: nat) {
    InCall(c0, c, Release, l) && !c.pc.Panicked? && (c.pc.Loaded? ==> c.pc.result)
  }

  lemma ReleasingStep(s: Sys, i: nat, a: Action, j: nat, c0: Cpu, l: nat)
    requires Inv(s) && Enabled(s, i, a) && j < |s.cpus| && l in c0.held && Releasing(c0, s.cpus[j], l) && !s.cpus[j].pc.Idle?
    ensures Releasing(c0, Step(s, i, a).cpus[j], l)
    ensures Rank(Step(s, i, a).cpus[j].pc) == Rank(s.cpus[j].pc) - if i == j then 1 else 0
  {
    CallStep(s, i, a, j, c0, Release, l);
    assert CpuOk(s.cpus[j]) && LockOk(s, l);
    if l in s.cpus[j].held {
      assert Owns(s.cpus[j], l);
    }
  }

  lemma {:induction false} ReleasingRun(s: Sys, run: seq<Event>, j: nat, c0: Cpu, l: nat)
    requires Inv(s) && CanRun(s, run) && j < |s.cpus| && l in c0.held && Releasing(c0, s.cpus[j], l) && Busy(s, run, j)
    ensures j < |Run(s, run).cpus| && Releasing(c0, Run(s, run).cpus[j], l)
    ensures Rank(Run(s, run).cpus[j].pc) == Rank(s.cpus[j].pc) - StepsOf(run, j)
    decreases |run|
  {
    hide CpuOk, LockOk, Releasing, Rank;
    if run == [] {
    } else {
      var e := run[0];
      StepInv(s, e.cpu, e.action);
      ReleasingStep(s, e.cpu, e.action, j, c0, l);
      hide Step;
      ReleasingRun(Step(s, e.cpu, e.action), run[1..], j, c0, l);
    }
  }

  /** The release of a lock that is held returns after exactly six more steps of its CPU, and never panics. */
  lemma ReleaseReturns(s: Sys, i: nat, l: nat, run: seq<Event>)
    requires Inv(s) && Enabled(s, i, StartRelease(l)) && l in s.cpus[i].held
    requires var s1 := Step(s, i, StartRelease(l)); WellFormed(s1) && CanRun(s1, run) && Busy(s1, run, i)
    ensures var t := Run(Step(s, i, StartRelease(l)), run);
      i < |t.cpus| && StepsOf(run, i) <= 6 && (t.cpus[i].pc.Idle? <==> StepsOf(run, i) == 6) && !t.cpus[i].pc.Panicked?
  {
    hide CpuOk, LockOk;
    var s1 := Step(s, i, StartRelease(l));
    StepInv(s, i, StartRelease(l));
    ReleasingRun(s1, run, i, s.cpus[i], l);
  }

  // ---- nested sections ----

  function Pushes(c: Cpu, n: nat): Cpu {
    if n == 0 then c else PushCli(Pushes(c, n - 1))
  }

  function Pops(c: Cpu, n: nat): Cpu {
    if n == 0 then c else PopCli(Pops(c, n - 1))
  }

  lemma {:induction false} PushesEffect(c: Cpu, n: nat)
    requires c.numCli >= 0
    ensures var d := Pushes(c, n);
      && d.numCli == c.numCli + n && d.pc == c.pc && (n > 0 ==> !d.irq)
      && (n > 0 ==> d.intEnabled == if c.numCli == 0 then c.irq else c.intEnabled)
  {
    if n == 0 {
    } else {
      PushesEffect(c, n - 1);
    }
  }

  lemma {:induction false} PopsEffect(c: Cpu, n: nat)
    requires !c.irq && 0 <= n <= c.numCli && !c.pc.Panicked?
    ensures var d := Pops(c, n);
      && d.numCli == c.numCli - n && d.pc == c.pc && d.intEnabled == c.intEnabled
      && d.irq == (n > 0 && n == c.numCli && c.intEnabled)
  {
    if n == 0 {
    } else {
      PopsEffect(c, n - 1);
    }
  }

  /** It takes n pop_cli to undo n push_cli: interrupts are off until the last, which puts the flag back as it was. */
  lemma PopsUndoPushes(c: Cpu, n: nat, k: nat)
    requires CpuOk(c) && !c.pc.Panicked? && k <= n && n > 0
    ensures var d := Pops(Pushes(c, n), k);
      && d.numCli == c.numCli + n - k && !d.pc.Panicked?
      && d.irq == (k == n && c.irq)
  {
    PushesEffect(c, n);
    PopsEffect(Pushes(c, n), k);
  }

  /** Opening a cli section adds one level and closing it takes one away, neither of which panics. */
  lemma SectionCounts(s: Sys, i: nat, a: Action)
    requires Inv(s) && Enabled(s, i, a) && (a == OpenCli || a == CloseCli)
    ensures var c, c' := s.cpus[i], Step(s, i, a).cpus[i];
      && c'.pc == Idle && c'.held == c.held && Step(s, i, a).locks == s.locks
      && c'.numCli == c.numCli + (if a == OpenCli then 1 else -1)
      && (a == OpenCli ==> !c'.irq) && (a == CloseCli ==> c'.irq == (c.numCli == 1 && c.saved))
  {
    assert CpuOk(s.cpus[i]);
  }
}

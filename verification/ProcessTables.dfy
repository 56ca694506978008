/** kernel/src/proc.rs: the run queue, the sleep channels and process numbers. */
module ProcessTables {

  datatype State = Embryo | Runnable | Running

  /** The table, with the records of all processes by number. */
  datatype Table = Table(runnable: seq<nat>, sleeping: map<int, seq<nat>>, nextPid: nat, states: map<nat, State>)

  const U32 := 0x1_0000_0000

  function Empty(): Table {
    Table([], map[], 1, map[])
  }

  // ---- the operations, as functions ----

  function Alloc(t: Table): Table {
    Table(t.runnable, t.sleeping, t.nextPid + 1, t.states[t.nextPid := Embryo])
  }

  /** Mark a process runnable and put it on the run queue. */
  function Start(t: Table, p: nat): Table {
    Table(t.runnable + [p], t.sleeping, t.nextPid, t.states[p := Runnable])
  }

  function Dispatch(t: Table): Table
    requires t.runnable != []
  {
    Table(t.runnable[1..], t.sleeping, t.nextPid, t.states[t.runnable[0] := Running])
  }

  function Sleepers(t: Table, chan: int): seq<nat> {
    if chan in t.sleeping then t.sleeping[chan] else []
  }

  function Sleep(t: Table, chan: int, p: nat): Table {
    Table(t.runnable, t.sleeping[chan := Sleepers(t, chan) + [p]], t.nextPid, t.states)
  }

  function MakeRunnable(states: map<nat, State>, ps: seq<nat>): map<nat, State> {
    map p | p in states.Keys + (set q | q in ps) :: if p in ps then Runnable else states[p]
  }

  function Wakeup(t: Table, chan: int): Table {
    Table(t.runnable + Sleepers(t, chan), t.sleeping - {chan}, t.nextPid, MakeRunnable(t.states, Sleepers(t, chan)))
  }

  // ---- the operations, in place ----

  class ProcessTable {
    var runnable: seq<nat>
    var sleeping: map<int, seq<nat>>
    var nextPid: nat
    var states: map<nat, State>

    function T(): Table
      reads this
    {
      Table(runnable, sleeping, nextPid, states)
    }

    constructor ()
      ensures T() == Empty()
    {
      runnable, sleeping, nextPid, states := [], map[], 1, map[];
    }

    method Put(p: nat)
      modifies this`runnable
      ensures runnable == old(runnable) + [p]
    {
      runnable := runnable + [p];
    }

    /** The next process to run, if any. */
    method GetRunnable() returns (found: bool, p: nat)
      modifies this`runnable
      ensures found <==> old(runnable) != []
      ensures found ==> p == old(runnable)[0] && runnable == old(runnable)[1..]
      ensures !found ==> runnable == old(runnable)
    {
      if runnable == [] {
        return false, 0;
      }
      found, p := true, runnable[0];
      runnable := runnable[1..];
    }

    method TakeNextPid() returns (pid: nat)
      requires nextPid + 1 < U32
      modifies this`nextPid
      ensures pid == old(nextPid) && nextPid == pid + 1
    {
      pid := nextPid;
      nextPid := nextPid + 1;
    }

    method AllocProc() returns (p: nat)
      requires nextPid + 1 < U32
      modifies this
      ensures p == old(nextPid) && T() == Alloc(old(T()))
    {
      p := TakeNextPid();
      states := states[p := Embryo];
    }

    /** As user_init ends: mark the process runnable and queue it. */
    method StartProc(p: nat)
      modifies this
      ensures T() == Start(old(T()), p)
    {
      states := states[p := Runnable];
      Put(p);
    }

    /** As the scheduler's loop begins: take the next process and mark it running. */
    method DispatchNext() returns (found: bool, p: nat)
      modifies this
      ensures found <==> old(runnable) != []
      ensures found ==> p == old(runnable)[0] && T() == Dispatch(old(T()))
      ensures !found ==> T() == old(T())
    {
      found, p := GetRunnable();
      if found {
        states := states[p := Running];
      }
    }

    method SleepOn(chan: int, p: nat)
      modifies this`sleeping
      ensures T() == Sleep(old(T()), chan, p)
    {
      if chan !in sleeping {
        sleeping := sleeping[chan := []];
      }
      sleeping := sleeping[chan := sleeping[chan] + [p]];
      assert sleeping == Sleep(old(T()), chan, p).sleeping;
    }

    /** Wake up all processes sleeping on chan, in the order in which they went to sleep. */
    method WakeupAll(chan: int)
      modifies this
      ensures T() == Wakeup(old(T()), chan)
    {
      if chan in sleeping {
        var list := sleeping[chan];
        sleeping := sleeping - {chan};
        for i := 0 to |list|
          invariant sleeping == old(sleeping) - {chan} && nextPid == old(nextPid)
          invariant runnable == old(runnable) + list[..i]
          invariant states == MakeRunnable(old(states), list[..i])
        {
          states := states[list[i] := Runnable];
          Put(list[i]);
          assert list[..i + 1] == list[..i] + [list[i]];
        }
        assert list[..|list|] == list;
      } else {
        assert MakeRunnable(states, []) == states;
        assert sleeping - {chan} == sleeping;
      }
    }
  }

  // ---- runs ----

  datatype Place = New | Queued | Asleep(chan: int) | OnCpu

  predicate NoDup(s: seq<nat>) {
    forall i, j | 0 <= i < j < |s| :: s[i] != s[j]
  }

  ghost predicate PidsOk(t: Table, at: map<nat, Place>) {
    && 1 <= t.nextPid < U32
    && (forall p: nat :: p in at <==> 1 <= p < t.nextPid)
    && (forall p: nat :: p in t.states <==> p in at)
  }

  ghost predicate QueueOk(t: Table, at: map<nat, Place>) {
    && NoDup(t.runnable)
    && (forall p: nat :: p in t.runnable <==> p in at && at[p] == Queued)
  }

  ghost predicate ChannelsOk(t: Table, at: map<nat, Place>) {
    && (forall c: int | c in t.sleeping :: NoDup(t.sleeping[c]))
    && (forall c: int, p: nat :: p in Sleepers(t, c) <==> p in at && at[p] == Asleep(c))
  }

  /** The state recorded for a process tells where it is, but that one asleep is still marked running. */
  ghost predicate StatesOk(t: Table, at: map<nat, Place>) {
    forall p: nat | p in at :: p in t.states && t.states[p] ==
      match at[p]
      case New => Embryo
      case Queued => Runnable
      case Asleep(_) => Running
      case OnCpu => Running
  }

  /** Every process ever allocated is in exactly the place that `at` says, once. */
  ghost predicate Inv(t: Table, at: map<nat, Place>) {
    PidsOk(t, at) && QueueOk(t, at) && ChannelsOk(t, at) && StatesOk(t, at)
  }

  datatype Op = AllocOp | StartOp(p: nat) | DispatchOp | SleepOp(chan: int, p: nat) | WakeupOp(chan: int)

  /** A new process is started once, and only a dispatched process goes to sleep. */
  predicate Legal(t: Table, at: map<nat, Place>, op: Op) {
    match op
    case AllocOp => t.nextPid + 1 < U32
    case StartOp(p) => p in at && at[p] == New
    case DispatchOp => t.runnable != []
    case SleepOp(_, p) => p in at && at[p] == OnCpu
    case WakeupOp(_) => true
  }

  function Apply(t: Table, op: Op): Table
    requires op == DispatchOp ==> t.runnable != []
  {
    match op
    case AllocOp => Alloc(t)
    case StartOp(p) => Start(t, p)
    case DispatchOp => Dispatch(t)
    case SleepOp(chan, p) => Sleep(t, chan, p)
    case WakeupOp(chan) => Wakeup(t, chan)
  }

  function Moved(t: Table, at: map<nat, Place>, op: Op): map<nat, Place>
    requires Legal(t, at, op)
  {
    match op
    case AllocOp => at[t.nextPid := New]
    case StartOp(p) => at[p := Queued]
    case DispatchOp => at[t.runnable[0] := OnCpu]
    case SleepOp(chan, p) => at[p := Asleep(chan)]
    case WakeupOp(chan) => map p | p in at :: if at[p] == Asleep(chan) then Queued else at[p]
  }

  lemma InitInv()
    ensures Inv(Empty(), map[])
  {
  }

  /** Every operation keeps each process in exactly one place. */
  lemma StepInv(t: Table, at: map<nat, Place>, op: Op)
    requires Inv(t, at) && Legal(t, at, op)
    ensures Inv(Apply(t, op), Moved(t, at, op))
  {
    hide PidsOk, QueueOk, ChannelsOk, StatesOk;
    match op
    case AllocOp => AllocInv(t, at);
    case StartOp(p) => StartInv(t, at, p);
    case DispatchOp => DispatchInv(t, at);
    case SleepOp(chan, p) => SleepInv(t, at, chan, p);
    case WakeupOp(chan) =>
      WakeupPids(t, at, chan);
      WakeupStates(t, at, chan);
      WakeupQueue(t, at, chan);
      WakeupChannels(t, at, chan);
  }

  /** An operation that leaves the channels alone and no process in or out of them. */
  lemma SameChannels(t: Table, at: map<nat, Place>, t': Table, at': map<nat, Place>)
    requires ChannelsOk(t, at) && t'.sleeping == t.sleeping
    requires forall p: nat | p in at && at[p].Asleep? :: p in at' && at'[p] == at[p]
    requires forall p: nat | p in at' && at'[p].Asleep? :: p in at && at[p] == at'[p]
    ensures ChannelsOk(t', at')
  {
    assert forall c: int :: Sleepers(t', c) == Sleepers(t, c);
  }

  lemma AllocInv(t: Table, at: map<nat, Place>)
    requires Inv(t, at) && t.nextPid + 1 < U32
    ensures Inv(Alloc(t), at[t.nextPid := New])
  {
    hide ChannelsOk, NoDup;
    var at' := at[t.nextPid := New];
    assert t.nextPid !in at;
    assert forall p: nat | p in at :: p in at' && at'[p] == at[p];
    SameChannels(t, at, Alloc(t), at');
    assert StatesOk(Alloc(t), at') by {
      hide PidsOk, QueueOk;
    }
    hide StatesOk;
  }

  lemma StartInv(t: Table, at: map<nat, Place>, p: nat)
    requires Inv(t, at) && p in at && at[p] == New
    ensures Inv(Start(t, p), at[p := Queued])
  {
    hide ChannelsOk;
    assert p !in t.runnable;
    SameChannels(t, at, Start(t, p), at[p := Queued]);
  }

  lemma DispatchInv(t: Table, at: map<nat, Place>)
    requires Inv(t, at) && t.runnable != []
    ensures Inv(Dispatch(t), at[t.runnable[0] := OnCpu])
  {
    hide ChannelsOk;
    var p, rest := t.runnable[0], t.runnable[1..];
    assert p in t.runnable && t.runnable == [p] + rest;
    assert p !in rest && NoDup(rest);
    assert forall q: nat :: q in t.runnable <==> q == p || q in rest;
    SameChannels(t, at, Dispatch(t), at[p := OnCpu]);
    hide NoDup;
  }

  lemma SleepInv(t: Table, at: map<nat, Place>, chan: int, p: nat)
    requires Inv(t, at) && p in at && at[p] == OnCpu
    ensures Inv(Sleep(t, chan, p), at[p := Asleep(chan)])
  {
    var t' := Sleep(t, chan, p);
    assert forall c: int | c != chan :: Sleepers(t', c) == Sleepers(t, c);
    assert Sleepers(t', chan) == Sleepers(t, chan) + [p];
    assert p !in Sleepers(t, chan);
  }

  lemma WakeupPids(t: Table, at: map<nat, Place>, chan: int)
    requires PidsOk(t, at) && ChannelsOk(t, at)
    ensures PidsOk(Wakeup(t, chan), Moved(t, at, WakeupOp(chan)))
  {
    MakeRunnableEffect(t.states, Sleepers(t, chan));
    hide MakeRunnable, Sleepers;
    assert forall p: nat | p in Sleepers(t, chan) :: p in at;
  }

  lemma WakeupStates(t: Table, at: map<nat, Place>, chan: int)
    requires StatesOk(t, at) && ChannelsOk(t, at)
    ensures StatesOk(Wakeup(t, chan), Moved(t, at, WakeupOp(chan)))
  {
    MakeRunnableEffect(t.states, Sleepers(t, chan));
    hide MakeRunnable, Sleepers;
    assert forall p: nat | p in at :: p in Sleepers(t, chan) <==> at[p] == Asleep(chan);
  }

  lemma WakeupQueue(t: Table, at: map<nat, Place>, chan: int)
    requires Inv(t, at)
    ensures QueueOk(Wakeup(t, chan), Moved(t, at, WakeupOp(chan)))
  {
    var t' := Wakeup(t, chan);
    var woken := Sleepers(t, chan);
    assert forall p: nat :: p in woken <==> p in at && at[p] == Asleep(chan);
    assert NoDup(woken);
    MakeRunnableEffect(t.states, woken);
    hide ChannelsOk, PidsOk, StatesOk, Sleepers, MakeRunnable;
    AppendNoDup(t.runnable, woken);
    hide NoDup;
    assert forall p: nat :: p in t'.runnable <==> p in t.runnable || p in woken;
  }

  lemma MakeRunnableEffect(states: map<nat, State>, ps: seq<nat>)
    ensures var m := MakeRunnable(states, ps);
      && (forall p: nat :: p in m <==> p in states || p in ps)
      && (forall p: nat | p in m :: m[p] == if p in ps then Runnable else states[p])
  {
  }

  lemma AppendNoDup(a: seq<nat>, b: seq<nat>)
    requires NoDup(a) && NoDup(b) && forall p: nat :: !(p in a && p in b)
    ensures NoDup(a + b)
  {
    forall i, j | 0 <= i < |a| && 0 <= j < |b| ensures a[i] != b[j] {
      assert a[i] in a && b[j] in b;
    }
  }

  lemma WakeupChannels(t: Table, at: map<nat, Place>, chan: int)
    requires Inv(t, at)
    ensures ChannelsOk(Wakeup(t, chan), Moved(t, at, WakeupOp(chan)))
  {
    var t' := Wakeup(t, chan);
    hide PidsOk, QueueOk, StatesOk;
    assert forall c: int | c != chan :: Sleepers(t', c) == Sleepers(t, c);
    assert Sleepers(t', chan) == [];
  }

  ghost predicate CanRun(t: Table, at: map<nat, Place>, ops: seq<Op>)
    decreases |ops|
  {
    ops == [] || (Legal(t, at, ops[0]) && CanRun(Apply(t, ops[0]), Moved(t, at, ops[0]), ops[1..]))
  }

  ghost function After(t: Table, at: map<nat, Place>, ops: seq<Op>): (Table, map<nat, Place>)
    requires CanRun(t, at, ops)
    decreases |ops|
  {
    if ops == [] then (t, at) else After(Apply(t, ops[0]), Moved(t, at, ops[0]), ops[1..])
  }

  /** In every run each process, and so each process number, is in exactly one place. */
  lemma {:induction false} RunInv(t: Table, at: map<nat, Place>, ops: seq<Op>)
    requires Inv(t, at) && CanRun(t, at, ops)
    ensures Inv(After(t, at, ops).0, After(t, at, ops).1)
    decreases |ops|
  {
    hide Inv, Apply, Moved;
    if ops == [] {
    } else {
      StepInv(t, at, ops[0]);
      RunInv(Apply(t, ops[0]), Moved(t, at, ops[0]), ops[1..]);
    }
  }

  function Dispatches(ops: seq<Op>): nat {
    if ops == [] then 0 else (if ops[0] == DispatchOp then 1 else 0) + Dispatches(ops[1..])
  }

  /** First in, first out: whatever happens in between, the process at index k runs after k others. */
  lemma {:induction false} FirstInFirstOut(t: Table, at: map<nat, Place>, ops: seq<Op>, k: nat)
    requires CanRun(t, at, ops) && k < |t.runnable| && Dispatches(ops) <= k
    ensures var q := After(t, at, ops).0.runnable; var i := k - Dispatches(ops);
      i < |q| && q[i] == t.runnable[k]
    decreases |ops|
  {
    if ops == [] {
    } else {
      var i := if ops[0] == DispatchOp then k - 1 else k;
      assert Apply(t, ops[0]).runnable[i] == t.runnable[k];
      FirstInFirstOut(Apply(t, ops[0]), Moved(t, at, ops[0]), ops[1..], i);
    }
  }

  // ---- the order in which processes run, from the operations alone ----

  /** The processes put to sleep on chan, in order. */
  function SleepsOn(ops: seq<Op>, chan: int): seq<nat> {
    if ops == [] then []
    else (if ops[0].SleepOp? && ops[0].chan == chan then [ops[0].p] else []) + SleepsOn(ops[1..], chan)
  }

  /** The operations after the last wakeup of chan. */
  function SinceWakeup(ops: seq<Op>, chan: int): seq<Op> {
    if WakeupOp(chan) in ops then SinceWakeup(ops[1..], chan) else ops
  }

  /** Who sleeps on chan after the operations. */
  function Slept(ops: seq<Op>, chan: int): seq<nat> {
    SleepsOn(SinceWakeup(ops, chan), chan)
  }

  /** Every process that the operations put on the run queue, in order. */
  function Enqueued(ops: seq<Op>): seq<nat> {
    if ops == [] then []
    else
      var less := ops[..|ops| - 1];
      Enqueued(less) +
      match ops[|ops| - 1]
      case StartOp(p) => [p]
      case WakeupOp(chan) => Slept(less, chan)
      case _ => []
  }

  lemma {:induction false} SleepsOnSnoc(ops: seq<Op>, op: Op, chan: int)
    ensures SleepsOn(ops + [op], chan) == SleepsOn(ops, chan) + if op.SleepOp? && op.chan == chan then [op.p] else []
    decreases |ops|
  {
    if ops == [] {
      assert ops + [op] == [op] && [op][1..] == [];
    } else {
      assert (ops + [op])[1..] == ops[1..] + [op];
      SleepsOnSnoc(ops[1..], op, chan);
    }
  }

  lemma {:induction false} SinceWakeupSnoc(ops: seq<Op>, op: Op, chan: int)
    ensures SinceWakeup(ops + [op], chan) == if op == WakeupOp(chan) then [] else SinceWakeup(ops, chan) + [op]
    decreases |ops|
  {
    var all := ops + [op];
    if ops == [] {
      assert all == [op] && all[1..] == [];
    } else {
      assert all[1..] == ops[1..] + [op];
      assert WakeupOp(chan) in all <==> WakeupOp(chan) in ops || op == WakeupOp(chan);
      if WakeupOp(chan) in all {
        SinceWakeupSnoc(ops[1..], op, chan);
        assert WakeupOp(chan) !in ops ==> WakeupOp(chan) !in ops[1..];
      }
    }
  }

  lemma SleptSnoc(ops: seq<Op>, op: Op, chan: int)
    ensures Slept(ops + [op], chan)
         == if op == WakeupOp(chan) then [] else Slept(ops, chan) + if op.SleepOp? && op.chan == chan then [op.p] else []
  {
    SinceWakeupSnoc(ops, op, chan);
    SleepsOnSnoc(SinceWakeup(ops, chan), op, chan);
  }

  lemma {:induction false} DispatchesSnoc(ops: seq<Op>, op: Op)
    ensures Dispatches(ops + [op]) == Dispatches(ops) + if op == DispatchOp then 1 else 0
    decreases |ops|
  {
    if ops == [] {
      assert ops + [op] == [op] && [op][1..] == [];
    } else {
      assert (ops + [op])[1..] == ops[1..] + [op];
      DispatchesSnoc(ops[1..], op);
    }
  }

  lemma {:induction false} AfterSnoc(t: Table, at: map<nat, Place>, ops: seq<Op>, op: Op)
    requires CanRun(t, at, ops + [op])
    ensures CanRun(t, at, ops)
    ensures var (t1, at1) := After(t, at, ops);
      Legal(t1, at1, op) && After(t, at, ops + [op]) == (Apply(t1, op), Moved(t1, at1, op))
    decreases |ops|
  {
    hide Apply, Moved;
    var all := ops + [op];
    if ops == [] {
      assert all == [op] && all[1..] == [];
    } else {
      assert all[0] == ops[0] && all[1..] == ops[1..] + [op];
      AfterSnoc(Apply(t, ops[0]), Moved(t, at, ops[0]), ops[1..], op);
    }
  }

  /** The table holds what the operations say: each channel its sleepers in order, the queue who is due. */
  ghost predicate AsSaid(t: Table, ops: seq<Op>) {
    && (forall c: int :: Sleepers(t, c) == Slept(ops, c))
    && Dispatches(ops) <= |Enqueued(ops)| && t.runnable == Enqueued(ops)[Dispatches(ops)..]
  }

  lemma SleepersNext(t: Table, at: map<nat, Place>, ops: seq<Op>, op: Op, c: int)
    requires Sleepers(t, c) == Slept(ops, c) && Legal(t, at, op)
    ensures Sleepers(Apply(t, op), c) == Slept(ops + [op], c)
  {
    SleptSnoc(ops, op, c);
    hide Slept;
  }

  lemma QueueNext(t: Table, at: map<nat, Place>, ops: seq<Op>, op: Op)
    requires AsSaid(t, ops) && Legal(t, at, op)
    ensures var k := Dispatches(ops + [op]);
      k <= |Enqueued(ops + [op])| && Apply(t, op).runnable == Enqueued(ops + [op])[k..]
  {
    assert op.WakeupOp? ==> Sleepers(t, op.chan) == Slept(ops, op.chan);
    hide Slept, Dispatches, Sleepers;
    var all := ops + [op];
    assert all[..|ops|] == ops && all[|ops|] == op;
    DispatchesSnoc(ops, op);
    hide Legal;
  }

  lemma AsSaidNext(t: Table, at: map<nat, Place>, ops: seq<Op>, op: Op)
    requires AsSaid(t, ops) && Legal(t, at, op)
    ensures AsSaid(Apply(t, op), ops + [op])
  {
    QueueNext(t, at, ops, op);
    hide Slept, Dispatches, Sleepers, Apply, Enqueued;
    forall c: int ensures Sleepers(Apply(t, op), c) == Slept(ops + [op], c) {
      SleepersNext(t, at, ops, op, c);
    }
  }

  /**
   * In every run from the empty table: the sleepers of a channel are those put there since its last
   * wakeup, in order, and the run queue is everything ever enqueued but for what has been dispatched.
   */
  lemma {:induction false} RunOrder(ops: seq<Op>)
    requires CanRun(Empty(), map[], ops)
    ensures AsSaid(After(Empty(), map[], ops).0, ops)
    decreases |ops|
  {
    hide Apply, Moved, Legal;
    if ops == [] {
    } else {
      var less, op := ops[..|ops| - 1], ops[|ops| - 1];
      assert less + [op] == ops;
      AfterSnoc(Empty(), map[], less, op);
      RunOrder(less);
      hide AsSaid;
      var (t, at) := After(Empty(), map[], less);
      AsSaidNext(t, at, less, op);
    }
  }

  /** The k-th dispatch of a run, counting from 0, takes the k-th process ever enqueued. */
  lemma DispatchOrder(ops: seq<Op>)
    requires CanRun(Empty(), map[], ops + [DispatchOp])
    ensures CanRun(Empty(), map[], ops)
    ensures var q, k := After(Empty(), map[], ops).0.runnable, Dispatches(ops);
      q != [] && k < |Enqueued(ops)| && q[0] == Enqueued(ops)[k]
  {
    hide Enqueued;
    AfterSnoc(Empty(), map[], ops, DispatchOp);
    RunOrder(ops);
  }

  /** Processes woken together run in the order in which they went to sleep, after those queued before the wakeup. */
  lemma WokenInOrder(pre: seq<Op>, chan: int, post: seq<Op>, k: nat)
    requires CanRun(Empty(), map[], pre) && k < |Slept(pre, chan)|
    requires var (t, at) := After(Empty(), map[], pre);
      && CanRun(Wakeup(t, chan), Moved(t, at, WakeupOp(chan)), post + [DispatchOp])
      && Dispatches(post) == |t.runnable| + k
    ensures var (t, at) := After(Empty(), map[], pre);
      && CanRun(Wakeup(t, chan), Moved(t, at, WakeupOp(chan)), post)
      && var q := After(Wakeup(t, chan), Moved(t, at, WakeupOp(chan)), post).0.runnable;
        q != [] && q[0] == Slept(pre, chan)[k]
  {
    hide Slept, Moved, After, CanRun;
    var (t, at) := After(Empty(), map[], pre);
    RunOrder(pre);
    assert Sleepers(t, chan) == Slept(pre, chan);
    AfterSnoc(Wakeup(t, chan), Moved(t, at, WakeupOp(chan)), post, DispatchOp);
    FirstInFirstOut(Wakeup(t, chan), Moved(t, at, WakeupOp(chan)), post, |t.runnable| + k);
  }

  /** In every run a process that goes to sleep is still marked Running, which is what sched refuses. */
  lemma SleepsWhileRunning(ops: seq<Op>, chan: int, p: nat)
    requires CanRun(Empty(), map[], ops + [SleepOp(chan, p)])
    ensures var t := After(Empty(), map[], ops + [SleepOp(chan, p)]).0; p in t.states && t.states[p] == Running
  {
    hide CanRun, After;
    AfterSnoc(Empty(), map[], ops, SleepOp(chan, p));
    InitInv();
    RunInv(Empty(), map[], ops + [SleepOp(chan, p)]);
  }
}

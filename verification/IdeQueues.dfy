/** kernel/src/fs/ide.rs: the queue of disk requests, served in order, one at a time. */
module IdeQueues {

  datatype Command = Read | Write

  /** A request: its command, the block, the buffer whose flags and data it names, and who waits for it. */
  datatype Request = Request(cmd: Command, dev: nat, block: nat, buf: nat, chan: nat)

  datatype Flags = Flags(valid: bool, dirty: bool)

  type Data = seq<int>

  /** What an interrupt finds at the disk: whether it reports an error, and the data read. */
  datatype Reply = Reply(error: bool, data: Data)

  /** Output to a port: one byte, or a block of words. */
  datatype Out = Outb(port: nat, value: nat) | Outsl(port: nat, data: Data)

  /** The driver's state, the buffers, and the history of requests started, waiters woken and outputs. */
  datatype Driver = Driver(que: seq<Request>, running: bool, flags: map<nat, Flags>, data: map<nat, Data>,
                           started: seq<Request>, woken: seq<nat>, outs: seq<Out>)

  function Idle(flags: map<nat, Flags>, data: map<nat, Data>): Driver {
    Driver([], false, flags, data, [], [], [])
  }

  /** A buffer's flags and data; a new buffer has no flag set. */
  function FlagsOf(flags: map<nat, Flags>, b: nat): Flags {
    if b in flags then flags[b] else Flags(false, false)
  }

  function DataOf(data: map<nat, Data>, b: nat): Data {
    if b in data then data[b] else []
  }

  // ---- the operations, as functions ----

  /** Interrupts on, one sector, then the bytes of the 28-bit sector number and the device. */
  function AddressWrites(r: Request): seq<Out> {
    var (a, b, c) := (r.block / 0x100, r.block / 0x100 / 0x100, r.block / 0x100 / 0x100 / 0x100);
    [Outb(0x3F6, 0), Outb(0x1F2, 1), Outb(0x1F3, r.block % 0x100)]
    + [Outb(0x1F4, a % 0x100), Outb(0x1F5, b % 0x100), Outb(0x1F6, 0xE0 + r.dev % 2 * 0x10 + c % 0x10)]
  }

  /** The command; a write sends its data too. */
  function CommandWrites(cmd: Command, x: Data): seq<Out> {
    match cmd
    case Read => [Outb(0x1F0, 0x20)]
    case Write => [Outb(0x1F7, 0x30), Outsl(0x1F0, x)]
  }

  /** Everything that starting a request writes to the ports. */
  function PortWrites(r: Request, x: Data): (outs: seq<Out>)
    ensures |outs| >= 7
  {
    AddressWrites(r) + CommandWrites(r.cmd, x)
  }

  function StartFront(d: Driver): Driver
    requires d.que != []
  {
    var r := d.que[0];
    Driver(d.que, true, d.flags, d.data, d.started + [r], d.woken, d.outs + PortWrites(r, DataOf(d.data, r.buf)))
  }

  function Append(d: Driver, r: Request): Driver {
    var e := d.(que := d.que + [r]);
    if |e.que| == 1 then StartFront(e) else e
  }

  /** The data after a request: read data arrives unless the disk reports an error. */
  function Received(data: map<nat, Data>, r: Request, reply: Reply): map<nat, Data> {
    if r.cmd == Read && !reply.error then data[r.buf := reply.data] else data
  }

  function Interrupt(d: Driver, reply: Reply): Driver {
    if d.que == [] then d
    else
      var r := d.que[0];
      var e := Driver(d.que[1..], false, d.flags[r.buf := Flags(true, false)], Received(d.data, r, reply),
                      d.started, d.woken + [r.chan], d.outs);
      if e.que != [] then StartFront(e) else e
  }

  // ---- the operations, in place ----

  class IdeQueue {
    var que: seq<Request>
    var running: bool
    var flags: map<nat, Flags>
    var data: map<nat, Data>
    ghost var started: seq<Request>
    ghost var woken: seq<nat>
    ghost var outs: seq<Out>

    ghost function D(): Driver
      reads this
    {
      Driver(que, running, flags, data, started, woken, outs)
    }

    constructor (flags: map<nat, Flags>, data: map<nat, Data>)
      ensures D() == Idle(flags, data)
    {
      que, running := [], false;
      this.flags, this.data := flags, data;
      started, woken, outs := [], [], [];
    }

    /** Hand the front request to the disk. */
    method StartDisk()
      requires que != []
      modifies this`running, this`started, this`outs
      ensures D() == StartFront(old(D()))
    {
      var r := que[0];
      outs := outs + PortWrites(r, DataOf(data, r.buf));
      started := started + [r];
      running := true;
    }

    method AppendRequest(r: Request)
      modifies this
      ensures D() == Append(old(D()), r)
    {
      que := que + [r];
      if |que| == 1 {
        StartDisk();
      }
    }

    method NotifyReady(reply: Reply)
      requires que != []
      modifies this
      ensures D() == Interrupt(old(D()), reply)
    {
      running := false;
      var r := que[0];
      que := que[1..];
      if r.cmd == Read && !reply.error {
        data := data[r.buf := reply.data];
      }
      flags := flags[r.buf := Flags(true, false)];
      woken := woken + [r.chan];
      if que != [] {
        StartDisk();
      }
    }

    method IdeIntr(reply: Reply)
      modifies this
      ensures D() == Interrupt(old(D()), reply)
    {
      if que != [] {
        NotifyReady(reply);
      }
    }
  }

  // ---- what the disk is told ----

  /** The disk's registers after the outputs: the last byte written to each port. */
  function Registers(regs: map<nat, nat>, outs: seq<Out>): map<nat, nat>
    decreases |outs|
  {
    if outs == [] then regs
    else Registers(match outs[0] case Outb(port, value) => regs[port := value] case Outsl(_, _) => regs, outs[1..])
  }

  /** The sector number and device that the disk takes from its address registers. */
  function Target(regs: map<nat, nat>): (int, int)
    requires {0x1F3, 0x1F4, 0x1F5, 0x1F6} <= regs.Keys
  {
    (regs[0x1F3] + 0x100 * regs[0x1F4] + 0x1_0000 * regs[0x1F5] + 0x100_0000 * (regs[0x1F6] % 0x10),
     regs[0x1F6] / 0x10 % 2)
  }

  lemma {:induction false} RegistersAppend(regs: map<nat, nat>, a: seq<Out>, b: seq<Out>)
    ensures Registers(regs, a + b) == Registers(Registers(regs, a), b)
    decreases |a|
  {
    if a == [] {
      assert a + b == b;
    } else {
      assert (a + b)[1..] == a[1..] + b;
      RegistersAppend(match a[0] case Outb(port, value) => regs[port := value] case Outsl(_, _) => regs, a[1..], b);
    }
  }

  lemma OneOut(regs: map<nat, nat>, o: Out)
    ensures Registers(regs, [o]) == match o case Outb(port, value) => regs[port := value] case Outsl(_, _) => regs
  {
    assert [o][1..] == [];
  }

  lemma ThreeOuts(regs: map<nat, nat>, p: nat, v: nat, q: nat, w: nat, r: nat, x: nat)
    ensures Registers(regs, [Outb(p, v), Outb(q, w), Outb(r, x)]) == regs[p := v][q := w][r := x]
  {
    assert [Outb(p, v), Outb(q, w), Outb(r, x)] == [Outb(p, v)] + ([Outb(q, w)] + [Outb(r, x)]);
    RegistersAppend(regs, [Outb(p, v)], [Outb(q, w)] + [Outb(r, x)]);
    RegistersAppend(regs[p := v], [Outb(q, w)], [Outb(r, x)]);
    OneOut(regs, Outb(p, v));
    OneOut(regs[p := v], Outb(q, w));
    OneOut(regs[p := v][q := w], Outb(r, x));
  }

  lemma AddressRegisters(regs: map<nat, nat>, r: Request)
    ensures var (a, b, c) := (r.block / 0x100, r.block / 0x100 / 0x100, r.block / 0x100 / 0x100 / 0x100);
      Registers(regs, AddressWrites(r))
      == regs[0x3F6 := 0][0x1F2 := 1][0x1F3 := r.block % 0x100]
             [0x1F4 := a % 0x100][0x1F5 := b % 0x100][0x1F6 := 0xE0 + r.dev % 2 * 0x10 + c % 0x10]
  {
    var (a, b, c) := (r.block / 0x100, r.block / 0x100 / 0x100, r.block / 0x100 / 0x100 / 0x100);
    var h := 0xE0 + r.dev % 2 * 0x10 + c % 0x10;
    var m := regs[0x3F6 := 0][0x1F2 := 1][0x1F3 := r.block % 0x100];
    hide Registers;
    RegistersAppend(regs, [Outb(0x3F6, 0), Outb(0x1F2, 1), Outb(0x1F3, r.block % 0x100)],
                    [Outb(0x1F4, a % 0x100), Outb(0x1F5, b % 0x100), Outb(0x1F6, h)]);
    ThreeOuts(regs, 0x3F6, 0, 0x1F2, 1, 0x1F3, r.block % 0x100);
    ThreeOuts(m, 0x1F4, a % 0x100, 0x1F5, b % 0x100, 0x1F6, h);
  }

  lemma CommandRegisters(regs: map<nat, nat>, cmd: Command, x: Data)
    ensures Registers(regs, CommandWrites(cmd, x)) == if cmd == Read then regs[0x1F0 := 0x20] else regs[0x1F7 := 0x30]
  {
    hide Registers;
    OneOut(regs, Outb(0x1F0, 0x20));
    OneOut(regs, Outb(0x1F7, 0x30));
    OneOut(regs[0x1F7 := 0x30], Outsl(0x1F0, x));
    RegistersAppend(regs, [Outb(0x1F7, 0x30)], [Outsl(0x1F0, x)]);
    assert [Outb(0x1F7, 0x30)] + [Outsl(0x1F0, x)] == [Outb(0x1F7, 0x30), Outsl(0x1F0, x)];
  }

  /** The disk is given the block and device asked for exactly if they have at most 28 bits and one bit. */
  lemma AddressRoundTrip(regs: map<nat, nat>, r: Request, x: Data)
    ensures var g := Registers(regs, PortWrites(r, x));
      && {0x3F6, 0x1F2, 0x1F3, 0x1F4, 0x1F5, 0x1F6} <= g.Keys
      && g[0x3F6] == 0 && g[0x1F2] == 1 && g[0x1F6] / 0x20 == 7
      && Target(g) == (r.block % 0x1000_0000, r.dev % 2)
      && (Target(g) == (r.block, r.dev) <==> r.block < 0x1000_0000 && r.dev < 2)
  {
    hide Registers;
    RegistersAppend(regs, AddressWrites(r), CommandWrites(r.cmd, x));
    AddressRegisters(regs, r);
    CommandRegisters(Registers(regs, AddressWrites(r)), r.cmd, x);
    hide AddressWrites, CommandWrites;
    Digits(r.block);
    High(r.dev, r.block / 0x100 / 0x100 / 0x100);
  }

  lemma High(dev: nat, c: nat)
    ensures var h := 0xE0 + dev % 2 * 0x10 + c % 0x10; h % 0x10 == c % 0x10 && h / 0x10 % 2 == dev % 2 && h / 0x20 == 7
  {
  }

  /** The byte in the disk's command register: 0x20 asks it to read a sector, 0x30 to write one. */
  function CommandByte(cmd: Command): nat {
    if cmd == Read then 0x20 else 0x30
  }

  /**
   * The disk is told to do what a request asks if and only if the request is a write, or its command
   * register held the byte for reading already: the byte for reading goes to the data port.
   */
  lemma CommandReceived(regs: map<nat, nat>, r: Request, x: Data)
    ensures var g := Registers(regs, PortWrites(r, x));
      && ((0x1F7 in g && g[0x1F7] == CommandByte(r.cmd)) <==> r.cmd == Write || (0x1F7 in regs && regs[0x1F7] == 0x20))
      && (r.cmd == Write ==> PortWrites(r, x)[7] == Outsl(0x1F0, x))
  {
    hide Registers;
    RegistersAppend(regs, AddressWrites(r), CommandWrites(r.cmd, x));
    AddressRegisters(regs, r);
    CommandRegisters(Registers(regs, AddressWrites(r)), r.cmd, x);
  }

  lemma Digits(b: nat)
    ensures b % 0x1000_0000 == b % 0x100 + 0x100 * (b / 0x100 % 0x100) + 0x1_0000 * (b / 0x100 / 0x100 % 0x100)
                             + 0x100_0000 * (b / 0x100 / 0x100 / 0x100 % 0x10)
  {
    var p := b / 0x100;
    var q := p / 0x100;
    var t := q / 0x100;
    assert b == b % 0x100 + 0x100 * p && p == p % 0x100 + 0x100 * q;
    assert q == q % 0x100 + 0x100 * t && t == t % 0x10 + 0x10 * (t / 0x10);
    Remainder(b, b % 0x100 + 0x100 * (p % 0x100) + 0x1_0000 * (q % 0x100) + 0x100_0000 * (t % 0x10), t / 0x10);
  }

  lemma Remainder(b: nat, low: nat, h: nat)
    requires b == low + 0x1000_0000 * h && low < 0x1000_0000
    ensures b % 0x1000_0000 == low
  {
  }

  // ---- runs ----

  /** A client of the buffer cache may set the flags and the data of a buffer at any time. */
  datatype Event = Submit(r: Request) | Irq(reply: Reply) | Client(buf: nat, flags: Flags, data: Data)

  function Step(d: Driver, e: Event): Driver {
    match e
    case Submit(r) => Append(d, r)
    case Irq(reply) => Interrupt(d, reply)
    case Client(b, f, x) => d.(flags := d.flags[b := f], data := d.data[b := x])
  }

  function Run(d: Driver, es: seq<Event>): Driver {
    if es == [] then d else Step(Run(d, es[..|es| - 1]), es[|es| - 1])
  }

  /** All requests submitted, in order. */
  function Submitted(es: seq<Event>): seq<Request> {
    if es == [] then []
    else
      var e := es[|es| - 1];
      Submitted(es[..|es| - 1]) + if e.Submit? then [e.r] else []
  }

  /** How many requests have completed: each interrupt completes one, if any is left. */
  function Completions(es: seq<Event>): (k: nat)
    ensures k <= |Submitted(es)|
  {
    if es == [] then 0
    else
      var k := Completions(es[..|es| - 1]);
      if es[|es| - 1].Irq? && k < |Submitted(es[..|es| - 1])| then k + 1 else k
  }

  /** Flags after one more event: the mark of a client, or the completion of request k of `all`. */
  function NextFlags(f: map<nat, Flags>, all: seq<Request>, k: nat, e: Event): map<nat, Flags> {
    match e
    case Client(b, mark, _) => f[b := mark]
    case Irq(_) => if k < |all| then f[all[k].buf := Flags(true, false)] else f
    case Submit(_) => f
  }

  function NextData(x: map<nat, Data>, all: seq<Request>, k: nat, e: Event): map<nat, Data> {
    match e
    case Client(b, _, y) => x[b := y]
    case Irq(reply) => if k < |all| then Received(x, all[k], reply) else x
    case Submit(_) => x
  }

  /** Flags and data by events alone: the last client access, or completion of a request for the buffer. */
  function FlagsAfter(flags: map<nat, Flags>, es: seq<Event>): map<nat, Flags> {
    if es == [] then flags
    else
      var less := es[..|es| - 1];
      NextFlags(FlagsAfter(flags, less), Submitted(less), Completions(less), es[|es| - 1])
  }

  function DataAfter(data: map<nat, Data>, es: seq<Event>): map<nat, Data> {
    if es == [] then data
    else
      var less := es[..|es| - 1];
      NextData(DataAfter(data, less), Submitted(less), Completions(less), es[|es| - 1])
  }

  function Chans(rs: seq<Request>): seq<nat> {
    if rs == [] then [] else Chans(rs[..|rs| - 1]) + [rs[|rs| - 1].chan]
  }

  /** k of the requests have completed; the others are queued and the first of them is at the disk. */
  predicate InOrder(d: Driver, all: seq<Request>, k: nat) {
    && k <= |all| && d.que == all[k..] && (d.running <==> k < |all|)
    && d.started == all[..if k < |all| then k + 1 else k]
    && d.woken == Chans(all[..k])
  }

  /**
   * In every run, whatever the clients do to the buffers: requests are started, completed and their
   * waiters woken in the order they came, one at a time; and each buffer's flags and data are those
   * of the last client access or completion that concerns it.
   */
  lemma {:induction false} ServedInOrder(flags: map<nat, Flags>, data: map<nat, Data>, es: seq<Event>)
    ensures InOrder(Run(Idle(flags, data), es), Submitted(es), Completions(es))
    ensures Run(Idle(flags, data), es).flags == FlagsAfter(flags, es)
    ensures Run(Idle(flags, data), es).data == DataAfter(data, es)
    decreases |es|
  {
    hide Step, NextFlags, NextData;
    if es == [] {
    } else {
      var n := |es| - 1;
      ServedInOrder(flags, data, es[..n]);
      hide InOrder;
      StepKeeps(Run(Idle(flags, data), es[..n]), Submitted(es[..n]), Completions(es[..n]), es[n]);
    }
  }

  lemma StepKeeps(d: Driver, all: seq<Request>, k: nat, e: Event)
    requires InOrder(d, all, k)
    ensures InOrder(Step(d, e), all + (if e.Submit? then [e.r] else []), if e.Irq? && k < |all| then k + 1 else k)
    ensures Step(d, e).flags == NextFlags(d.flags, all, k, e) && Step(d, e).data == NextData(d.data, all, k, e)
  {
    hide Chans, PortWrites;
    assert all + [] == all;
    match e
    case Submit(r) => AppendKeeps(d, all, k, r);
    case Irq(reply) => InterruptKeeps(d, all, k, reply);
    case Client(_, _, _) =>
  }

  lemma AppendKeeps(d: Driver, all: seq<Request>, k: nat, r: Request)
    requires InOrder(d, all, k)
    ensures InOrder(Append(d, r), all + [r], k)
    ensures Append(d, r).flags == d.flags && Append(d, r).data == d.data
  {
    hide Chans, PortWrites;
    var d', all' := Append(d, r), all + [r];
    assert all'[..k] == all[..k];
    assert d'.que == all'[k..];
    assert d'.started == all'[..k + 1];
  }

  lemma InterruptKeeps(d: Driver, all: seq<Request>, k: nat, reply: Reply)
    requires InOrder(d, all, k)
    ensures InOrder(Interrupt(d, reply), all, if k < |all| then k + 1 else k)
    ensures k < |all| ==> d.que != [] && d.que[0] == all[k]
  {
    hide PortWrites;
    if k < |all| {
      var d' := Interrupt(d, reply);
      assert all[..k + 1][..k] == all[..k];
      assert d'.que == all[k + 1..];
    }
  }

  // ---- one request ----

  /** The reply with which request k completed. */
  function ReplyTo(es: seq<Event>, k: nat): Reply
    requires k < Completions(es)
  {
    var less := es[..|es| - 1];
    if k < Completions(less) then ReplyTo(less, k) else es[|es| - 1].reply
  }

  /** None of the events is an access of buffer b by a client or a request for it. */
  predicate LeftAlone(es: seq<Event>, b: nat) {
    forall i | 0 <= i < |es| :: (es[i].Client? ==> es[i].buf != b) && (es[i].Submit? ==> es[i].r.buf != b)
  }

  /** No request for b is waiting after es, except perhaps number k. */
  predicate NoOther(es: seq<Event>, b: nat, k: nat) {
    forall i | Completions(es) <= i < |Submitted(es)| && i != k :: Submitted(es)[i].buf != b
  }

  /** What request k has made of its buffer, which had flags f and data x before. */
  predicate Outcome(es: seq<Event>, k: nat, f: Flags, x: Data, f': Flags, x': Data) {
    k < |Submitted(es)| &&
    if k < Completions(es) then
      && f' == Flags(true, false)
      && x' == if Submitted(es)[k].cmd == Read && !ReplyTo(es, k).error then ReplyTo(es, k).data else x
    else f' == f && x' == x
  }

  /**
   * A buffer with one request outstanding keeps its flags and its data until that request completes,
   * whatever other requests complete in between; then it is valid and clean, and holds what the disk
   * returned, or what it held before if the disk reported an error.
   */
  lemma {:induction false} OneRequest(flags: map<nat, Flags>, data: map<nat, Data>, pre: seq<Event>, r: Request,
                                      mid: seq<Event>)
    requires NoOther(pre, r.buf, |Submitted(pre)|) && LeftAlone(mid, r.buf)
    ensures var es, k, b := pre + [Submit(r)] + mid, |Submitted(pre)|, r.buf;
      && k < |Submitted(es)| && Submitted(es)[k] == r && NoOther(es, b, k)
      && Outcome(es, k, FlagsOf(FlagsAfter(flags, pre), b), DataOf(DataAfter(data, pre), b),
                 FlagsOf(FlagsAfter(flags, es), b), DataOf(DataAfter(data, es), b))
    decreases |mid|
  {
    var es := pre + [Submit(r)] + mid;
    var n := |es| - 1;
    if mid == [] {
      assert es[..n] == pre && es[n] == Submit(r);
    } else {
      var less := mid[..|mid| - 1];
      assert es[..n] == pre + [Submit(r)] + less && es[n] == mid[|mid| - 1];
      OneRequest(flags, data, pre, r, less);
      hide NoOther, Outcome, FlagsAfter, DataAfter, Submitted, Completions;
      var f, x := FlagsOf(FlagsAfter(flags, pre), r.buf), DataOf(DataAfter(data, pre), r.buf);
      OneMore(flags, data, es, |Submitted(pre)|, r, f, x);
    }
  }

  /** One more event that does not access r's buffer. */
  lemma OneMore(flags: map<nat, Flags>, data: map<nat, Data>, es: seq<Event>, k: nat, r: Request, f: Flags, x: Data)
    requires es != []
    requires var e := es[|es| - 1]; (e.Client? ==> e.buf != r.buf) && (e.Submit? ==> e.r.buf != r.buf)
    requires var less := es[..|es| - 1];
      && k < |Submitted(less)| && Submitted(less)[k] == r && NoOther(less, r.buf, k)
      && Outcome(less, k, f, x, FlagsOf(FlagsAfter(flags, less), r.buf), DataOf(DataAfter(data, less), r.buf))
    ensures k < |Submitted(es)| && Submitted(es)[k] == r && NoOther(es, r.buf, k)
    ensures Outcome(es, k, f, x, FlagsOf(FlagsAfter(flags, es), r.buf), DataOf(DataAfter(data, es), r.buf))
  {
    var less, e := es[..|es| - 1], es[|es| - 1];
    var all, c := Submitted(less), Completions(less);
    if e.Irq? && c < |all| && c != k {
      assert all[c].buf != r.buf;
    }
  }

  /** read_from_disk waits until the buffer is valid, write_to_disk until it is clean: exactly until the request is done. */
  lemma WaitEnds(flags: map<nat, Flags>, data: map<nat, Data>, pre: seq<Event>, r: Request, mid: seq<Event>)
    requires NoOther(pre, r.buf, |Submitted(pre)|) && LeftAlone(mid, r.buf)
    ensures var es, k, b := pre + [Submit(r)] + mid, |Submitted(pre)|, r.buf;
      var f, f' := FlagsOf(Run(Idle(flags, data), pre).flags, b), FlagsOf(Run(Idle(flags, data), es).flags, b);
      && (!f.valid ==> (f'.valid <==> k < Completions(es)))
      && (f.dirty ==> (!f'.dirty <==> k < Completions(es)))
  {
    OneRequest(flags, data, pre, r, mid);
    ServedInOrder(flags, data, pre);
    ServedInOrder(flags, data, pre + [Submit(r)] + mid);
  }

  /** Once a read is done the buffer holds what the disk returned if and only if there was no error, or it did before. */
  lemma DataArrives(flags: map<nat, Flags>, data: map<nat, Data>, pre: seq<Event>, r: Request, mid: seq<Event>)
    requires NoOther(pre, r.buf, |Submitted(pre)|) && LeftAlone(mid, r.buf) && r.cmd == Read
    requires |Submitted(pre)| < Completions(pre + [Submit(r)] + mid)
    ensures var es := pre + [Submit(r)] + mid;
      var reply := ReplyTo(es, |Submitted(pre)|);
      var x := DataOf(Run(Idle(flags, data), pre).data, r.buf);
      && DataOf(Run(Idle(flags, data), es).data, r.buf) == (if reply.error then x else reply.data)
      && (DataOf(Run(Idle(flags, data), es).data, r.buf) == reply.data <==> !reply.error || x == reply.data)
  {
    OneRequest(flags, data, pre, r, mid);
    ServedInOrder(flags, data, pre);
    ServedInOrder(flags, data, pre + [Submit(r)] + mid);
  }

  /** A disk error leaves a buffer marked valid that does not hold the block. */
  lemma ErrorMarksValid(r: Request, x: Data, y: Data)
    requires r.cmd == Read && x != y
    ensures var d := Run(Idle(map[], map[r.buf := x]), [Submit(r), Irq(Reply(true, y))]);
      FlagsOf(d.flags, r.buf) == Flags(true, false) && DataOf(d.data, r.buf) == x != y
  {
    var es := [Submit(r), Irq(Reply(true, y))];
    assert es[..1] == [Submit(r)] && es[..1][..0] == [];
    var d0 := Idle(map[], map[r.buf := x]);
    assert Run(d0, es[..1]) == Step(d0, Submit(r));
  }

  // ---- writing back ----

  /** The requests of read_from_disk and write_to_disk; both carry the command Read. */
  function FetchRequest(dev: nat, block: nat, b: nat): Request {
    Request(Read, dev, block, b, b)
  }

  function WriteBackRequest(dev: nat, block: nat, b: nat): Request {
    Request(Read, dev, block, b, b)
  }

  predicate HasWords(outs: seq<Out>) {
    exists i :: 0 <= i < |outs| && outs[i].Outsl?
  }

  predicate HasWrite(rs: seq<Request>) {
    exists i :: 0 <= i < |rs| && rs[i].cmd == Write
  }

  /** Data goes to the disk in a run if and only if a request with the command Write is started. */
  lemma {:induction false} WordsIffWrite(flags: map<nat, Flags>, data: map<nat, Data>, es: seq<Event>)
    ensures var d := Run(Idle(flags, data), es); HasWords(d.outs) <==> HasWrite(d.started)
    decreases |es|
  {
    if es == [] {
    } else {
      var d := Run(Idle(flags, data), es[..|es| - 1]);
      WordsIffWrite(flags, data, es[..|es| - 1]);
      StepWords(d, es[|es| - 1]);
    }
  }

  lemma StepWords(d: Driver, e: Event)
    requires HasWords(d.outs) <==> HasWrite(d.started)
    ensures HasWords(Step(d, e).outs) <==> HasWrite(Step(d, e).started)
  {
    hide HasWords, HasWrite, PortWrites;
    match e
    case Submit(r) =>
      StartWords(d.outs, d.started, r, DataOf(d.data, r.buf));
    case Irq(reply) =>
      if |d.que| > 1 {
        var r := d.que[1];
        StartWords(d.outs, d.started, r, DataOf(Received(d.data, d.que[0], reply), r.buf));
      }
    case Client(_, _, _) =>
  }

  lemma StartWords(outs: seq<Out>, started: seq<Request>, r: Request, x: Data)
    ensures HasWords(outs + PortWrites(r, x)) <==> HasWords(outs) || r.cmd == Write
    ensures HasWrite(started + [r]) <==> HasWrite(started) || r.cmd == Write
  {
    var more := PortWrites(r, x);
    if HasWords(outs) {
      var i :| 0 <= i < |outs| && outs[i].Outsl?;
      assert (outs + more)[i].Outsl?;
    }
    if HasWrite(started) {
      var i :| 0 <= i < |started| && started[i].cmd == Write;
      assert (started + [r])[i].cmd == Write;
    }
    if r.cmd == Write {
      assert (outs + more)[|outs| + 7].Outsl? && (started + [r])[|started|].cmd == Write;
    }
  }

  /** The outputs that start these requests one after the other, sending these data. */
  function AllWrites(rs: seq<Request>, xs: seq<Data>): seq<Out>
    requires |rs| == |xs|
    decreases |rs|
  {
    if rs == [] then []
    else AllWrites(rs[..|rs| - 1], xs[..|rs| - 1]) + PortWrites(rs[|rs| - 1], xs[|rs| - 1])
  }

  lemma WritesSnoc(rs: seq<Request>, xs: seq<Data>, r: Request, x: Data)
    requires |rs| == |xs|
    ensures AllWrites(rs + [r], xs + [x]) == AllWrites(rs, xs) + PortWrites(r, x)
  {
    assert (rs + [r])[..|rs|] == rs && (xs + [x])[..|rs|] == xs;
  }

  /** In every run the ports receive, in order, exactly the writes of the requests started, each for its own block. */
  lemma {:induction false} PortsInOrder(flags: map<nat, Flags>, data: map<nat, Data>, es: seq<Event>) returns (xs: seq<Data>)
    ensures var d := Run(Idle(flags, data), es); |xs| == |d.started| && d.outs == AllWrites(d.started, xs)
    decreases |es|
  {
    hide PortWrites;
    if es == [] {
      xs := [];
    } else {
      var less := es[..|es| - 1];
      xs := PortsInOrder(flags, data, less);
      var d, e := Run(Idle(flags, data), less), es[|es| - 1];
      var d' := Step(d, e);
      if d'.started != d.started {
        var r := d'.started[|d.started|];
        var x := DataOf(d'.data, r.buf);
        WritesSnoc(d.started, xs, r, x);
        xs := xs + [x];
      }
    }
  }

  /** However the two calls are used, no data is ever sent to the disk. */
  lemma NothingWritten(flags: map<nat, Flags>, data: map<nat, Data>, es: seq<Event>)
    requires forall i | 0 <= i < |Submitted(es)| ::
               var r := Submitted(es)[i];
               r == FetchRequest(r.dev, r.block, r.buf) || r == WriteBackRequest(r.dev, r.block, r.buf)
    ensures !HasWords(Run(Idle(flags, data), es).outs)
  {
    ServedInOrder(flags, data, es);
    WordsIffWrite(flags, data, es);
  }

  /** write_to_disk replaces the dirty data by what the disk holds, and marks it clean. */
  lemma DirtyDataLost(dev: nat, block: nat, b: nat, x: Data, y: Data)
    requires x != y
    ensures var d0 := Idle(map[b := Flags(true, true)], map[b := x]);
      var d := Run(d0, [Submit(WriteBackRequest(dev, block, b)), Irq(Reply(false, y))]);
      FlagsOf(d.flags, b) == Flags(true, false) && DataOf(d.data, b) == y != x
  {
    var r := WriteBackRequest(dev, block, b);
    var es := [Submit(r), Irq(Reply(false, y))];
    var d0 := Idle(map[b := Flags(true, true)], map[b := x]);
    assert es[..1] == [Submit(r)] && es[..1][..0] == [];
    assert Run(d0, [Submit(r)]) == Step(d0, Submit(r));
  }
}

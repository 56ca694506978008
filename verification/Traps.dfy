/** kernel/src/trap.rs: from the hardware's trap to the trap frame and back, and a new process's first steps. */
module Traps {
  import opened X86
  import opened ContextSwitch

  const KCODE: Selector := 8
  const KDATA: Selector := 16
  const KSTACKSIZE := 4096
  /** Size of TrapFrame in bytes: 19 words. */
  const FRAME_SIZE := 76

  predicate FromUser(u: Machine) {
    u.cs % 4 == 3
  }

  /** The words the processor pushes; from ring 3 also the user's stack pointer. */
  function HardwareWords(u: Machine): seq<Word> {
    (if FromUser(u) then [u.ss, u.esp] else []) + [u.eflags, u.cs, u.eip]
  }

  /** A trap without error code: change to the kernel stack if needed, push, and jump to the vector. */
  function HardwareTrap(u: Machine, esp0: Word, vector: Word, eflags: Word): Machine {
    var m := if FromUser(u) then u.(esp := esp0, ss := KDATA) else u;
    PushWords(m, HardwareWords(u)).(cs := KCODE, eip := vector, eflags := eflags)
  }

  /** The vector stub: a zero error code and the trap number. */
  function Vector(n: Word): seq<Instr> {
    [PushImm(0), PushImm(n)]
  }

  /** alltraps up to the call of trap(tf). */
  const SAVE_SEGMENTS: seq<Instr> := [Push(Ds), Push(Es), Push(Fs), Push(Gs)]
  const SET_SEGMENTS: seq<Instr> := [SetAx(KDATA), MoveAx(Ds), MoveAx(Es), Push(Esp)]
  const ALLTRAPS: seq<Instr> := SAVE_SEGMENTS + [PushAll] + SET_SEGMENTS

  /** trapret; alltraps reaches it after dropping the argument of trap. */
  const LOAD_SEGMENTS: seq<Instr> := [Pop(Gs), Pop(Fs), Pop(Es), Pop(Ds)]
  const TRAPRET: seq<Instr> := [PopAll] + LOAD_SEGMENTS + [AddEsp(8), Iret]

  /** Struct TrapFrame as words, lowest address first; the last two only for a trap from ring 3. */
  function Frame(r: Regs, origEsp: Word, n: Word, eip: Word, cs: Selector, eflags: Word, esp: Word, ss: Selector)
    : seq<Word>
  {
    [r.edi, r.esi, r.ebp, origEsp, r.ebx, r.edx, r.ecx, r.eax, r.gs, r.fs, r.es, r.ds, n, 0, eip, cs, eflags, esp, ss]
  }

  predicate WordsAt(mem: Memory, a: int, ws: seq<Word>) {
    forall k | 0 <= k < |ws| :: Load(mem, a + 4 * k) == ws[k]
  }

  /** What the vector stub and alltraps push, when pushal starts at stack pointer sp. */
  function SoftwareWords(r: Regs, n: Word, sp: Word): seq<Word> {
    [0, n] + [r.ds, r.es, r.fs, r.gs] + [r.eax, r.ecx, r.edx, r.ebx, sp, r.ebp, r.esi, r.edi]
  }

  /** The stack pointer at which pushing starts. */
  function StackTop(u: Machine, esp0: Word): Word {
    if FromUser(u) then esp0 else u.esp
  }

  function FrameBytes(u: Machine): nat {
    if FromUser(u) then FRAME_SIZE else FRAME_SIZE - 8
  }

  function Entered(u: Machine, esp0: Word, vector: Word, eflags: Word, n: Word): Machine {
    assert WellFormed(Vector(n)) && WellFormed(ALLTRAPS);
    Run(Run(HardwareTrap(u, esp0, vector, eflags), Vector(n)), ALLTRAPS)
  }

  lemma RunAllTraps(m: Machine)
    ensures WellFormed(ALLTRAPS) && WellFormed(SET_SEGMENTS) && WellFormed(SAVE_SEGMENTS)
    ensures Run(m, ALLTRAPS) == Run(Exec(Run(m, SAVE_SEGMENTS), PushAll), SET_SEGMENTS)
  {
    hide Exec;
    assert WellFormed(SAVE_SEGMENTS) && WellFormed([PushAll]) && WellFormed(SET_SEGMENTS);
    RunAppend(m, SAVE_SEGMENTS + [PushAll], SET_SEGMENTS);
    RunAppend(m, SAVE_SEGMENTS, [PushAll]);
    assert [PushAll][1..] == [];
    var m1 := Run(m, SAVE_SEGMENTS);
    assert Run(m1, [PushAll]) == Run(Exec(m1, PushAll), []) == Exec(m1, PushAll);
  }

  lemma SaveSegments(m: Machine)
    ensures WellFormed(SAVE_SEGMENTS)
    ensures Run(m, SAVE_SEGMENTS) == PushWords(m, [m.r.ds, m.r.es, m.r.fs, m.r.gs])
  {
    hide Run, Exec, PushWord, PushWords;
    Run4(m, Push(Ds), Push(Es), Push(Fs), Push(Gs));
    PushSegment(m, m, Ds);
    var a := PushWord(m, m.r.ds);
    PushSegment(m, a, Es);
    var b := PushWord(a, m.r.es);
    PushSegment(m, b, Fs);
    var c := PushWord(b, m.r.fs);
    PushSegment(m, c, Gs);
    PushFour(m, [m.r.ds, m.r.es, m.r.fs, m.r.gs]);
  }

  lemma PushSegment(m: Machine, a: Machine, r: Reg)
    requires a.r == m.r && r != Esp
    ensures Exec(a, Push(r)) == PushWord(a, Get(m, r)) && PushWord(a, Get(m, r)).r == m.r
  {
  }

  lemma PushFour(m: Machine, ws: seq<Word>)
    requires |ws| == 4
    ensures PushWords(m, ws) == PushWord(PushWord(PushWord(PushWord(m, ws[0]), ws[1]), ws[2]), ws[3])
  {
    hide PushWord;
    var m2 := PushWord(PushWord(m, ws[0]), ws[1]);
    PushTwo(m, ws[..2]);
    PushTwo(m2, ws[2..]);
    PushWordsAppend(m, ws[..2], ws[2..]);
    assert ws[..2] + ws[2..] == ws;
  }

  lemma PushTwo(m: Machine, ws: seq<Word>)
    requires |ws| == 2
    ensures PushWords(m, ws) == PushWord(PushWord(m, ws[0]), ws[1])
  {
    hide PushWord;
    var n := PushWord(m, ws[0]);
    assert ws[1..] == [ws[1]] && ws[1..][1..] == [];
    assert PushWords(n, ws[1..]) == PushWords(PushWord(n, ws[1]), []);
  }

  lemma VectorPushes(h: Machine, n: Word)
    ensures WellFormed(Vector(n)) && Run(h, Vector(n)) == PushWords(h, [0, n])
  {
    Run2(h, PushImm(0), PushImm(n));
    PushTwo(h, [0, n]);
  }

  lemma AllPushes(s: Machine, r: Regs, sp: Word)
    requires s.r == r && s.esp == sp
    ensures Exec(s, PushAll) == PushWords(s, [r.eax, r.ecx, r.edx, r.ebx, sp, r.ebp, r.esi, r.edi])
  {
    hide PushWords;
  }

  /** The stub and alltraps push fourteen words. */
  lemma FourteenWords(h: Machine, n: Word)
    requires 60 <= h.esp
    ensures WellFormed(Vector(n)) && WellFormed(SAVE_SEGMENTS)
    ensures Exec(Run(Run(h, Vector(n)), SAVE_SEGMENTS), PushAll) == PushWords(h, SoftwareWords(h.r, n, h.esp - 24))
  {
    hide PushWords, Run, Exec;
    var r := h.r;
    VectorPushes(h, n);
    PushWordsEffect(h, [0, n]);
    var v := PushWords(h, [0, n]);
    var segs: seq<Word> := [r.ds, r.es, r.fs, r.gs];
    SaveSegments(v);
    PushWordsEffect(v, segs);
    var s := PushWords(v, segs);
    AllPushes(s, r, h.esp - 24);
    PushWordsAppend(h, [0, n], segs);
    PushWordsAppend(h, [0, n] + segs, [r.eax, r.ecx, r.edx, r.ebx, h.esp - 24, r.ebp, r.esi, r.edi]);
  }

  /** Then they set the segments and push the frame's address. */
  lemma SoftwarePushes(h: Machine, n: Word)
    requires 60 <= h.esp
    ensures WellFormed(Vector(n)) && WellFormed(ALLTRAPS)
    ensures var m := Run(Run(h, Vector(n)), ALLTRAPS);
      var sw := SoftwareWords(h.r, n, h.esp - 24);
      && m.esp == h.esp - 60 && m.ss == h.ss && m.cs == h.cs && Load(m.mem, m.esp) == h.esp - 56
      && m.r.ds == KDATA && m.r.es == KDATA
      && (forall k | 0 <= k < |sw| :: Load(m.mem, h.esp - 4 * (k + 1)) == sw[k])
      && (forall a | a >= h.esp :: Load(m.mem, a) == Load(h.mem, a))
  {
    hide PushWords, Run, Exec, Load;
    FourteenWords(h, n);
    RunAllTraps(Run(h, Vector(n)));
    var sw := SoftwareWords(h.r, n, h.esp - 24);
    PushWordsEffect(h, sw);
    hide SoftwareWords;
    SetSegments(PushWords(h, sw));
  }

  lemma SetSegments(p: Machine)
    requires 4 <= p.esp
    ensures WellFormed(SET_SEGMENTS)
    ensures var m := Run(p, SET_SEGMENTS);
      && m.esp == p.esp - 4 && m.ss == p.ss && m.cs == p.cs && m.r.ds == KDATA && m.r.es == KDATA
      && Load(m.mem, m.esp) == p.esp && forall a | a >= p.esp :: Load(m.mem, a) == Load(p.mem, a)
  {
    Run4(p, SetAx(KDATA), MoveAx(Ds), MoveAx(Es), Push(Esp));
    hide Run;
    assert Low16(p.r.eax / 0x1_0000 * 0x1_0000 + KDATA) == KDATA;
  }

  /**
   * Trap entry builds exactly the layout of TrapFrame, FrameBytes below the stack top, and passes
   * its address to trap.
   */
  lemma EntryBuildsFrame(u: Machine, esp0: Word, vector: Word, eflags: Word, n: Word)
    requires StackTop(u, esp0) >= FRAME_SIZE + 4
    ensures var m := Entered(u, esp0, vector, eflags, n);
      var tf := StackTop(u, esp0) - FrameBytes(u);
      var f := Frame(u.r, tf + 32, n, u.eip, u.cs, u.eflags, u.esp, u.ss);
      && m.esp == tf - 4 && Load(m.mem, m.esp) == tf
      && m.ss == (if FromUser(u) then 0x10 else u.ss) && m.cs == 8 && m.r.ds == 0x10 && m.r.es == 0x10
      && WordsAt(m.mem, tf, if FromUser(u) then f else f[..17])
  {
    hide Run, PushWords, Load;
    var base := if FromUser(u) then u.(esp := esp0, ss := KDATA) else u;
    var hw := HardwareWords(u);
    PushWordsEffect(base, hw);
    var h := HardwareTrap(u, esp0, vector, eflags);
    SoftwarePushes(h, n);
    var m := Entered(u, esp0, vector, eflags, n);
    var tf := h.esp - 56;
    var f := Frame(u.r, tf + 32, n, u.eip, u.cs, u.eflags, u.esp, u.ss);
    forall k | 0 <= k < FrameBytes(u) / 4 ensures Load(m.mem, tf + 4 * k) == f[k] {
      FrameOrder(u, n, tf + 32, k);
      if k < 14 {
        assert tf + 4 * k == h.esp - 4 * ((13 - k) + 1);
      } else {
        var j := |hw| - 1 - (k - 14);
        assert tf + 4 * k == base.esp - 4 * (j + 1);
      }
    }
  }

  /** The frame, read upwards, is the pushed words in reverse. */
  lemma FrameOrder(u: Machine, n: Word, sp: Word, k: nat)
    requires k < FrameBytes(u) / 4
    ensures var f := Frame(u.r, sp, n, u.eip, u.cs, u.eflags, u.esp, u.ss);
      var hw := HardwareWords(u);
      if k < 14 then SoftwareWords(u.r, n, sp)[13 - k] == f[k] else hw[|hw| - 1 - (k - 14)] == f[k]
  {
  }

  // ---- the way back ----

  lemma RunTrapRet(m: Machine)
    ensures WellFormed(TRAPRET) && WellFormed(LOAD_SEGMENTS)
    ensures Run(m, TRAPRET) == Exec(Exec(Run(Exec(m, PopAll), LOAD_SEGMENTS), AddEsp(8)), Iret)
  {
    hide Exec;
    var tail := [AddEsp(8), Iret];
    assert WellFormed([PopAll]) && WellFormed(LOAD_SEGMENTS) && WellFormed(tail);
    RunAppend(m, [PopAll] + LOAD_SEGMENTS, tail);
    RunAppend(m, [PopAll], LOAD_SEGMENTS);
    assert [PopAll][1..] == [];
    assert Run(m, [PopAll]) == Run(Exec(m, PopAll), []) == Exec(m, PopAll);
    Run2(Run(Exec(m, PopAll), LOAD_SEGMENTS), AddEsp(8), Iret);
  }

  lemma LoadSegments(m: Machine)
    requires m.esp + 16 < 0x1_0000_0000
    ensures WellFormed(LOAD_SEGMENTS)
    ensures var m' := Run(m, LOAD_SEGMENTS); var r := m.r;
      && m'.esp == m.esp + 16 && m'.ss == m.ss && m'.mem == m.mem
      && m'.r == Regs(r.eax, r.ecx, r.edx, r.ebx, r.ebp, r.esi, r.edi,
                      Low16(Load(m.mem, m.esp + 12)), Low16(Load(m.mem, m.esp + 8)),
                      Low16(Load(m.mem, m.esp + 4)), Low16(Load(m.mem, m.esp)))
  {
    Run4(m, Pop(Gs), Pop(Fs), Pop(Es), Pop(Ds));
    hide Run, Exec, Load, Low16;
    PopSegment(m, Gs);
    var a := PoppedSegment(m, Gs);
    PopSegment(a, Fs);
    var b := PoppedSegment(a, Fs);
    PopSegment(b, Es);
    var c := PoppedSegment(b, Es);
    PopSegment(c, Ds);
  }

  /** The machine after popping a segment register. */
  function PoppedSegment(m: Machine, seg: Reg): Machine
    requires m.esp + 4 < 0x1_0000_0000
  {
    var r, w := m.r, Low16(Load(m.mem, m.esp));
    var r' := match seg
      case Gs => Regs(r.eax, r.ecx, r.edx, r.ebx, r.ebp, r.esi, r.edi, r.ds, r.es, r.fs, w)
      case Fs => Regs(r.eax, r.ecx, r.edx, r.ebx, r.ebp, r.esi, r.edi, r.ds, r.es, w, r.gs)
      case Es => Regs(r.eax, r.ecx, r.edx, r.ebx, r.ebp, r.esi, r.edi, r.ds, w, r.fs, r.gs)
      case _ => Regs(r.eax, r.ecx, r.edx, r.ebx, r.ebp, r.esi, r.edi, w, r.es, r.fs, r.gs);
    Machine(r', m.esp + 4, m.ss, m.eip, m.cs, m.eflags, m.mem)
  }

  lemma PopSegment(m: Machine, seg: Reg)
    requires m.esp + 4 < 0x1_0000_0000 && seg in {Gs, Fs, Es, Ds}
    ensures Exec(m, Pop(seg)) == PoppedSegment(m, seg)
  {
    hide Load, Low16;
  }

  lemma PopAllLoads(m: Machine, f: seq<Word>)
    requires m.esp + FRAME_SIZE - 8 < 0x1_0000_0000 && |f| >= 17 && WordsAt(m.mem, m.esp, f)
    ensures Exec(m, PopAll) == Machine(Regs(f[7], f[6], f[5], f[4], f[2], f[1], f[0], m.r.ds, m.r.es, m.r.fs, m.r.gs),
                                       m.esp + 32, m.ss, m.eip, m.cs, m.eflags, m.mem)
  {
    hide Load;
    assert forall k: nat | k < 8 :: Above(m.esp, 4 * k) == m.esp + 4 * k && Load(m.mem, m.esp + 4 * k) == f[k];
  }

  lemma IretLoads(m: Machine, eip: Word, cs: Selector, eflags: Word, esp: Word, ss: Selector)
    requires m.esp + (if cs % 4 == 3 then 20 else 12) < 0x1_0000_0000
    requires Load(m.mem, m.esp) == eip && Load(m.mem, m.esp + 4) == cs && Load(m.mem, m.esp + 8) == eflags
    requires cs % 4 == 3 ==> Load(m.mem, m.esp + 12) == esp && Load(m.mem, m.esp + 16) == ss
    ensures Exec(m, Iret) == if cs % 4 == 3 then Machine(m.r, esp, ss, eip, cs, eflags, m.mem)
                             else Machine(m.r, m.esp + 12, m.ss, eip, cs, eflags, m.mem)
  {
    hide Load;
  }

  /** trapret loads every register from the frame at the stack pointer. */
  lemma TrapRetLoads(m: Machine, r: Regs, x: Word, n: Word, eip: Word, cs: Selector, eflags: Word, esp: Word, ss: Selector)
    requires m.esp + (if cs % 4 == 3 then FRAME_SIZE else FRAME_SIZE - 8) < 0x1_0000_0000
    requires var f := Frame(r, x, n, eip, cs, eflags, esp, ss);
      WordsAt(m.mem, m.esp, if cs % 4 == 3 then f else f[..17])
    ensures WellFormed(TRAPRET)
    ensures Run(m, TRAPRET) == if cs % 4 == 3 then Machine(r, esp, ss, eip, cs, eflags, m.mem)
                               else Machine(r, m.esp + FRAME_SIZE - 8, m.ss, eip, cs, eflags, m.mem)
  {
    hide Run, Load, Exec, Frame;
    RunTrapRet(m);
    FrameParts(r, x, n, eip, cs, eflags, esp, ss);
    var f := Frame(r, x, n, eip, cs, eflags, esp, ss);
    var g := if cs % 4 == 3 then f else f[..17];
    PopAllLoads(m, g);
    var p := Exec(m, PopAll);
    SegmentWords(m, g, p);
    LoadSegments(p);
    var q := Run(p, LOAD_SEGMENTS);
    assert q.r == r && q.esp == m.esp + 48 && q.mem == m.mem && q.ss == m.ss;
    ReturnWords(m, g, q);
    var z := Skip(q);
    IretLoads(z, eip, cs, eflags, esp, ss);
  }

  lemma FrameParts(r: Regs, x: Word, n: Word, eip: Word, cs: Selector, eflags: Word, esp: Word, ss: Selector)
    ensures var f := Frame(r, x, n, eip, cs, eflags, esp, ss);
      && |f| == 19
      && r == Regs(f[7], f[6], f[5], f[4], f[2], f[1], f[0], Low16(f[11]), Low16(f[10]), Low16(f[9]), Low16(f[8]))
      && x == f[3] && n == f[12] && f[13] == 0
      && eip == f[14] && cs == f[15] && eflags == f[16] && esp == f[17] && ss == f[18]
  {
  }

  lemma SegmentWords(m: Machine, g: seq<Word>, p: Machine)
    requires |g| >= 17 && WordsAt(m.mem, m.esp, g) && p.esp == m.esp + 32 && p.mem == m.mem
    ensures Load(p.mem, p.esp) == g[8] && Load(p.mem, p.esp + 4) == g[9]
    ensures Load(p.mem, p.esp + 8) == g[10] && Load(p.mem, p.esp + 12) == g[11]
  {
    assert Load(m.mem, m.esp + 4 * 8) == g[8] && Load(m.mem, m.esp + 4 * 9) == g[9];
    assert Load(m.mem, m.esp + 4 * 10) == g[10] && Load(m.mem, m.esp + 4 * 11) == g[11];
  }

  /** Skipping the trap number and the error code. */
  function Skip(q: Machine): (z: Machine)
    requires q.esp + 8 < 0x1_0000_0000
    ensures z == Exec(q, AddEsp(8)) && z.esp == q.esp + 8 && z.r == q.r && z.mem == q.mem && z.ss == q.ss
  {
    Machine(q.r, q.esp + 8, q.ss, q.eip, q.cs, q.eflags, q.mem)
  }

  lemma ReturnWords(m: Machine, g: seq<Word>, q: Machine)
    requires q.esp == m.esp + 48 && q.mem == m.mem
    requires (|g| == 17 || |g| == 19) && WordsAt(m.mem, m.esp, g)
    ensures Load(q.mem, q.esp + 8) == g[14] && Load(q.mem, q.esp + 12) == g[15] && Load(q.mem, q.esp + 16) == g[16]
    ensures |g| == 19 ==> Load(q.mem, q.esp + 20) == g[17] && Load(q.mem, q.esp + 24) == g[18]
  {
    assert Load(m.mem, m.esp + 4 * 14) == g[14] && Load(m.mem, m.esp + 4 * 15) == g[15];
    assert Load(m.mem, m.esp + 4 * 16) == g[16];
    assert |g| == 19 ==> Load(m.mem, m.esp + 4 * 17) == g[17] && Load(m.mem, m.esp + 4 * 18) == g[18];
  }

  /**
   * A trap is invisible to the code it interrupts: whatever trap does with the registers, as long as
   * it leaves the frame and returns with the stack pointer at it, every register comes back.
   */
  lemma TrapRoundTrip(u: Machine, esp0: Word, vector: Word, eflags: Word, n: Word, m2: Machine)
    requires StackTop(u, esp0) >= FRAME_SIZE + 4
    requires var m := Entered(u, esp0, vector, eflags, n);
      && m2.esp == m.esp + 4 && m2.ss == m.ss
      && forall a | m.esp + 4 <= a < StackTop(u, esp0) :: Load(m2.mem, a) == Load(m.mem, a)
    ensures WellFormed(TRAPRET)
    ensures Run(m2, TRAPRET) == Machine(u.r, u.esp, u.ss, u.eip, u.cs, u.eflags, m2.mem)
  {
    hide Run, Load, Entered;
    EntryBuildsFrame(u, esp0, vector, eflags, n);
    var tf := StackTop(u, esp0) - FrameBytes(u);
    var f := Frame(u.r, tf + 32, n, u.eip, u.cs, u.eflags, u.esp, u.ss);
    assert WordsAt(m2.mem, tf, if FromUser(u) then f else f[..17]);
    TrapRetLoads(m2, u.r, tf + 32, n, u.eip, u.cs, u.eflags, u.esp, u.ss);
  }

  // ---- a new process ----

  /** The words ws from address a on. */
  function StoreWords(mem: Memory, a: int, ws: seq<Word>): Memory
    decreases |ws|
  {
    if ws == [] then mem else StoreWords(mem[a := ws[0]], a + 4, ws[1..])
  }

  lemma {:induction false} StoreWordsEffect(mem: Memory, a: int, ws: seq<Word>)
    ensures WordsAt(StoreWords(mem, a, ws), a, ws)
    ensures forall b | b < a || b >= a + 4 * |ws| :: Load(StoreWords(mem, a, ws), b) == Load(mem, b)
    decreases |ws|
  {
    if ws == [] {
    } else {
      var mem1 := mem[a := ws[0]];
      StoreWordsEffect(mem1, a + 4, ws[1..]);
      var mem' := StoreWords(mem1, a + 4, ws[1..]);
      forall k | 0 <= k < |ws| ensures Load(mem', a + 4 * k) == ws[k] {
        if k > 0 {
          assert a + 4 * k == (a + 4) + 4 * (k - 1) && ws[1..][k - 1] == ws[k];
        }
      }
    }
  }

  const UCODE: Selector := 0x1B
  const UDATA: Selector := 0x23
  const FL_IF: Word := 0x200
  const NO_REGS := Regs(0, 0, 0, 0, 0, 0, 0, 0, 0, 0, 0)

  function TrapFrameOf(kstack: int): int {
    kstack + KSTACKSIZE - FRAME_SIZE
  }

  function ContextOf(kstack: int): int {
    TrapFrameOf(kstack) - 24
  }

  /** alloc_proc: a zeroed trap frame, the address of trapret, and a context that starts at forkret. */
  function AllocProc(mem: Memory, kstack: int, forkret: Word, trapret: Word): Memory {
    var frame := StoreWords(mem, TrapFrameOf(kstack), Frame(NO_REGS, 0, 0, 0, 0, 0, 0, 0));
    StoreWords(frame, ContextOf(kstack), [0, 0, 0, 0, forkret, trapret])
  }

  /** user_init: the trap frame that enters the program at address 0 of its one page. */
  function UserInit(mem: Memory, kstack: int): Memory {
    StoreWords(mem, TrapFrameOf(kstack), UserFrame())
  }

  function UserFrame(): seq<Word> {
    Frame(NO_REGS.(ds := UDATA, es := UDATA), 0, 0, 0, UCODE, FL_IF, 4096, UDATA)
  }

  /** A new process looks like one that left the CPU just before forkret, with zero registers. */
  lemma NewProcessSuspended(mem: Memory, st: Stack, forkret: Word, trapret: Word)
    requires 0 <= st.lo && st.lo % 4 == 0 && st.hi == st.lo + KSTACKSIZE && !OnStack(st, st.cell)
    requires Load(mem, st.cell) == ContextOf(st.lo)
    ensures var mem' := UserInit(AllocProc(mem, st.lo, forkret, trapret), st.lo);
      && Suspended(mem', st, Left(Context(0, 0, 0, 0, forkret), ContextOf(st.lo) + 16))
      && Load(mem', TrapFrameOf(st.lo) - 4) == trapret
      && WordsAt(mem', TrapFrameOf(st.lo), UserFrame())
  {
    hide Load, StoreWords;
    var tf, cx := TrapFrameOf(st.lo), ContextOf(st.lo);
    var zero := Frame(NO_REGS, 0, 0, 0, 0, 0, 0, 0);
    var ws: seq<Word> := [0, 0, 0, 0, forkret, trapret];
    StoreWordsEffect(mem, tf, zero);
    var m1 := StoreWords(mem, tf, zero);
    StoreWordsEffect(m1, cx, ws);
    var m2 := StoreWords(m1, cx, ws);
    StoreWordsEffect(m2, tf, UserFrame());
    assert Load(m2, cx + 4 * 0) == ws[0] && Load(m2, cx + 4 * 1) == ws[1] && Load(m2, cx + 4 * 2) == ws[2];
    assert Load(m2, cx + 4 * 3) == ws[3] && Load(m2, cx + 4 * 4) == ws[4] && Load(m2, cx + 4 * 5) == ws[5];
  }

  /** With its stack still in place it runs forkret with zeroed registers, whose return enters trapret at the frame. */
  lemma ForkretReturns(m: Machine, st: Stack, forkret: Word, trapret: Word)
    requires 0 <= st.lo && st.hi == st.lo + KSTACKSIZE < 0x1_0000_0000
    requires Resumed(m, Left(Context(0, 0, 0, 0, forkret), ContextOf(st.lo) + 16))
    requires Load(m.mem, TrapFrameOf(st.lo) - 4) == trapret && WordsAt(m.mem, TrapFrameOf(st.lo), UserFrame())
    ensures m.eip == forkret && m.r.edi == m.r.esi == m.r.ebx == m.r.ebp == 0
    ensures Exec(m, Ret).eip == trapret && Exec(m, Ret).esp == TrapFrameOf(st.lo)
    ensures WellFormed(TRAPRET)
    ensures Run(Exec(m, Ret), TRAPRET)
         == Machine(NO_REGS.(ds := UDATA, es := UDATA), 4096, UDATA, 0, UCODE, FL_IF, m.mem)
  {
    hide Run, Load, Frame;
    var t := m.(eip := trapret, esp := TrapFrameOf(st.lo));
    assert Exec(m, Ret) == t;
    hide Exec;
    TrapRetLoads(t, NO_REGS.(ds := UDATA, es := UDATA), 0, 0, 0, UCODE, FL_IF, 4096, UDATA);
  }

  /** Thread j is being made: its stack and variable are set aside, every other thread is as it should be. */
  ghost predicate BeforeNew(sts: seq<Stack>, w: World, j: nat) {
    && Layout(sts) && w.current < |sts| && j < |sts| && j != w.current
    && sts[j].lo % 4 == 0 && sts[j].hi == sts[j].lo + KSTACKSIZE
    && forall i | 0 <= i < |sts| && i != w.current && i != j :: i in w.left && Suspended(w.m.mem, sts[i], w.left[i])
  }

  /** alloc_proc, which also sets the process's context variable, then user_init. */
  function WithNew(w: World, st: Stack, j: nat, forkret: Word, trapret: Word): World
    requires 0 <= st.lo && st.hi == st.lo + KSTACKSIZE < 0x1_0000_0000
  {
    var mem := UserInit(AllocProc(w.m.mem[st.cell := ContextOf(st.lo)], st.lo, forkret, trapret), st.lo);
    World(w.m.(mem := mem), w.current, w.left[j := NewLeft(st, forkret)])
  }

  function NewLeft(st: Stack, forkret: Word): Left {
    Left(Context(0, 0, 0, 0, forkret), ContextOf(st.lo) + 16)
  }

  /** alloc_proc and user_init write to the new stack and its variable only. */
  lemma NewStackOnly(mem: Memory, st: Stack, forkret: Word, trapret: Word, a: int)
    requires 0 <= st.lo && st.hi == st.lo + KSTACKSIZE < 0x1_0000_0000
    requires !OnStack(st, a) && a != st.cell
    ensures Load(UserInit(AllocProc(mem[st.cell := ContextOf(st.lo)], st.lo, forkret, trapret), st.lo), a) == Load(mem, a)
  {
    var m0: Memory := mem[st.cell := ContextOf(st.lo)];
    assert Load(m0, a) == Load(mem, a);
    hide Load, StoreWords;
    var tf, cx := TrapFrameOf(st.lo), ContextOf(st.lo);
    StoreWordsEffect(m0, tf, Frame(NO_REGS, 0, 0, 0, 0, 0, 0, 0));
    var m1 := StoreWords(m0, tf, Frame(NO_REGS, 0, 0, 0, 0, 0, 0, 0));
    StoreWordsEffect(m1, cx, [0, 0, 0, 0, forkret, trapret]);
    StoreWordsEffect(StoreWords(m1, cx, [0, 0, 0, 0, forkret, trapret]), tf, UserFrame());
  }

  lemma OthersKept(sts: seq<Stack>, w: World, j: nat, forkret: Word, trapret: Word, i: nat)
    requires BeforeNew(sts, w, j) && i < |sts| && i != w.current && i != j
    ensures Suspended(WithNew(w, sts[j], j, forkret, trapret).m.mem, sts[i], w.left[i])
  {
    hide UserInit, AllocProc, Suspended, Load;
    var st := sts[j];
    var mem' := WithNew(w, st, j, forkret, trapret).m.mem;
    forall a | OnStack(sts[i], a) || a == sts[i].cell ensures Load(mem', a) == Load(w.m.mem, a) {
      assert !OnStack(st, a) && a != st.cell;
      NewStackOnly(w.m.mem, st, forkret, trapret, a);
    }
    SuspendedFrame(w.m.mem, mem', sts[i], w.left[i]);
  }

  /** Making a process keeps the invariant, and makes it a suspended thread. */
  lemma NewProcess(sts: seq<Stack>, w: World, j: nat, forkret: Word, trapret: Word)
    requires BeforeNew(sts, w, j)
    ensures var w' := WithNew(w, sts[j], j, forkret, trapret);
      && Inv(sts, w')
      && Load(w'.m.mem, TrapFrameOf(sts[j].lo) - 4) == trapret && WordsAt(w'.m.mem, TrapFrameOf(sts[j].lo), UserFrame())
  {
    hide UserInit, AllocProc, Suspended, UserFrame, WordsAt;
    var st := sts[j];
    var m0: Memory := w.m.mem[st.cell := ContextOf(st.lo)];
    NewProcessSuspended(m0, st, forkret, trapret);
    hide Load;
    forall i | 0 <= i < |sts| && i != w.current && i != j
      ensures Suspended(WithNew(w, st, j, forkret, trapret).m.mem, sts[i], w.left[i])
    {
      OthersKept(sts, w, j, forkret, trapret, i);
    }
  }

  /** A new process's stack above its context reads the same after any run of the others and the switch to it. */
  lemma NewStackStays(sts: seq<Stack>, w: World, j: nat, run: seq<Event>, trapret: Word)
    requires Inv(sts, w) && CanRun(sts, w, run) && Switch(j) !in run && w.current != j && j < |sts|
    requires sts[j].hi == sts[j].lo + KSTACKSIZE
    requires Load(w.m.mem, TrapFrameOf(sts[j].lo) - 4) == trapret && WordsAt(w.m.mem, TrapFrameOf(sts[j].lo), UserFrame())
    requires var w2 := After(w, run);
      Inv(sts, w2) && w2.current < |sts| && w2.current != j && Allowed(sts, w2, Switch(j))
    ensures var mem := Next(After(w, run), Switch(j)).m.mem;
      Load(mem, TrapFrameOf(sts[j].lo) - 4) == trapret && WordsAt(mem, TrapFrameOf(sts[j].lo), UserFrame())
  {
    hide Load, Inv, Allowed, CanRun, Next, After;
    var w2 := After(w, run);
    var w3 := Next(w2, Switch(j));
    forall a | OnStack(sts[j], a) ensures Load(w3.m.mem, a) == Load(w.m.mem, a) {
      StackStays(sts, w, run, j, a);
      StackStep(sts, w2, Switch(j), j, a);
    }
    var tf := TrapFrameOf(sts[j].lo);
    assert OnStack(sts[j], tf - 4);
    assert |UserFrame()| == 19;
    hide UserFrame;
    forall k | 0 <= k < 19 ensures Load(w3.m.mem, tf + 4 * k) == UserFrame()[k] {
      assert OnStack(sts[j], tf + 4 * k);
    }
  }

  /**
   * A process made by alloc_proc and user_init, switched to for the first time after any run of the
   * other threads, starts forkret with zeroed registers; forkret's return enters trapret at its
   * frame, and trapret enters the program with the state that user_init wrote.
   */
  lemma FirstResume(sts: seq<Stack>, w: World, j: nat, forkret: Word, trapret: Word, run: seq<Event>)
    requires BeforeNew(sts, w, j)
    requires CanRun(sts, WithNew(w, sts[j], j, forkret, trapret), run) && Switch(j) !in run
    requires var w2 := After(WithNew(w, sts[j], j, forkret, trapret), run);
      w2.current < |sts| && Allowed(sts, w2, Switch(j))
    ensures WellFormed(TRAPRET)
    ensures var m := Next(After(WithNew(w, sts[j], j, forkret, trapret), run), Switch(j)).m;
      && m.eip == forkret && m.r.edi == m.r.esi == m.r.ebx == m.r.ebp == 0
      && Exec(m, Ret).eip == trapret && Exec(m, Ret).esp == TrapFrameOf(sts[j].lo)
      && Run(Exec(m, Ret), TRAPRET)
      == Machine(Regs(0, 0, 0, 0, 0, 0, 0, 0x23, 0x23, 0, 0), 4096, 0x23, 0, 0x1B, 0x200, m.mem)
  {
    var w1 := WithNew(w, sts[j], j, forkret, trapret);
    assert 0 <= sts[j].lo && sts[j].hi < 0x1_0000_0000;
    assert w1.current != j && j in w1.left && w1.left[j] == NewLeft(sts[j], forkret);
    hide UserInit, AllocProc, UserFrame, WordsAt, Load, Run, Exec, Next, After, Inv, CanRun, Allowed, WithNew, Resumed;
    NewProcess(sts, w, j, forkret, trapret);
    RunInv(sts, w1, run);
    LeftStays(w1, run, j);
    var w2 := After(w1, run);
    NewStackStays(sts, w1, j, run, trapret);
    SwitchStep(sts, w2, j);
    ForkretReturns(Next(w2, Switch(j)).m, sts[j], forkret, trapret);
  }

  /** Traps of the process land on the frame that alloc_proc set aside. */
  lemma FrameIsTheProcessFrame(u: Machine, kstack: int, vector: Word, eflags: Word, n: Word)
    requires FromUser(u) && 0 <= kstack && kstack + KSTACKSIZE < 0x1_0000_0000
    ensures Entered(u, kstack + KSTACKSIZE, vector, eflags, n).esp + 4 == TrapFrameOf(kstack)
  {
    hide Run;
    EntryBuildsFrame(u, kstack + KSTACKSIZE, vector, eflags, n);
  }
}

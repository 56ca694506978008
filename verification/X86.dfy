/** The part of a 32-bit x86 CPU that the kernel's assembly uses: registers, stack, word memory. */
module X86 {
  import opened LittleEndian

  type Word = U32
  type Selector = U16

  /** Memory by word address, a multiple of 4; words never written are zero. */
  type Memory = map<int, Word>

  datatype Regs = Regs(eax: Word, ecx: Word, edx: Word, ebx: Word, ebp: Word, esi: Word, edi: Word,
                       ds: Selector, es: Selector, fs: Selector, gs: Selector)

  /** General and segment registers, then what interrupts and returns also change. */
  datatype Machine = Machine(r: Regs, esp: Word, ss: Selector, eip: Word, cs: Selector, eflags: Word, mem: Memory)

  function Load(mem: Memory, a: int): Word {
    if a in mem then mem[a] else 0
  }

  function Below(a: Word): Word {
    if a < 4 then a + 0xFFFF_FFFC else a - 4
  }

  function Above(a: Word, n: nat): Word
    requires n < 0x1_0000_0000
  {
    if a + n < 0x1_0000_0000 then a + n else a + n - 0x1_0000_0000
  }

  datatype Reg = Eax | Ecx | Edx | Ebx | Esp | Ebp | Esi | Edi | Ds | Es | Fs | Gs

  datatype Instr =
    | LoadStack(off: nat, dst: Reg)   // movl off(%esp), %dst
    | StoreAt(src: Reg, at: Reg)      // movl %src, (%at)
    | Move(src: Reg, dst: Reg)        // movl %src, %dst
    | SetAx(sel: Selector)            // movw $imm, %ax
    | MoveAx(seg: Reg)                // movw %ax, %seg
    | Push(src: Reg)
    | PushImm(imm: Word)
    | Pop(dst: Reg)
    | PushAll                         // pushal
    | PopAll                          // popal
    | AddEsp(n: nat)
    | Ret
    | Iret

  function Get(m: Machine, r: Reg): Word {
    match r
    case Eax => m.r.eax
    case Ecx => m.r.ecx
    case Edx => m.r.edx
    case Ebx => m.r.ebx
    case Esp => m.esp
    case Ebp => m.r.ebp
    case Esi => m.r.esi
    case Edi => m.r.edi
    case Ds => m.r.ds
    case Es => m.r.es
    case Fs => m.r.fs
    case Gs => m.r.gs
  }

  function Low16(w: Word): Selector {
    w % 0x1_0000
  }

  function Set(m: Machine, r: Reg, w: Word): Machine {
    match r
    case Eax => m.(r := m.r.(eax := w))
    case Ecx => m.(r := m.r.(ecx := w))
    case Edx => m.(r := m.r.(edx := w))
    case Ebx => m.(r := m.r.(ebx := w))
    case Esp => m.(esp := w)
    case Ebp => m.(r := m.r.(ebp := w))
    case Esi => m.(r := m.r.(esi := w))
    case Edi => m.(r := m.r.(edi := w))
    case Ds => m.(r := m.r.(ds := Low16(w)))
    case Es => m.(r := m.r.(es := Low16(w)))
    case Fs => m.(r := m.r.(fs := Low16(w)))
    case Gs => m.(r := m.r.(gs := Low16(w)))
  }

  function PushWord(m: Machine, w: Word): Machine {
    m.(esp := Below(m.esp), mem := m.mem[Below(m.esp) := w])
  }

  /** Words pushed one after the other; the last one ends up at the lowest address. */
  function PushWords(m: Machine, ws: seq<Word>): Machine
    decreases |ws|
  {
    if ws == [] then m else PushWords(PushWord(m, ws[0]), ws[1..])
  }

  function Exec(m: Machine, i: Instr): Machine
    requires i.LoadStack? ==> i.off < 0x1_0000_0000
    requires i.AddEsp? ==> i.n < 0x1_0000_0000
  {
    match i
    case LoadStack(off, dst) => Set(m, dst, Load(m.mem, Above(m.esp, off)))
    case StoreAt(src, at) => m.(mem := m.mem[Get(m, at) := Get(m, src)])
    case Move(src, dst) => Set(m, dst, Get(m, src))
    case SetAx(sel) => Set(m, Eax, m.r.eax / 0x1_0000 * 0x1_0000 + sel)
    case MoveAx(seg) => Set(m, seg, m.r.eax)
    case Push(src) => PushWord(m, Get(m, src))
    case PushImm(imm) => PushWord(m, imm)
    case Pop(dst) => Set(m.(esp := Above(m.esp, 4)), dst, Load(m.mem, m.esp))
    case PushAll => PushWords(m, [m.r.eax, m.r.ecx, m.r.edx, m.r.ebx, m.esp, m.r.ebp, m.r.esi, m.r.edi])
    case PopAll => PopEight(m)
    case AddEsp(n) => m.(esp := Above(m.esp, n))
    case Ret => m.(eip := Load(m.mem, m.esp), esp := Above(m.esp, 4))
    case Iret => InterruptReturn(m)
  }

  function PopEight(m: Machine): Machine {
    var w := (k: nat) requires k < 8 => Load(m.mem, Above(m.esp, 4 * k));
    Machine(Regs(w(7), w(6), w(5), w(4), w(2), w(1), w(0), m.r.ds, m.r.es, m.r.fs, m.r.gs),
            Above(m.esp, 32), m.ss, m.eip, m.cs, m.eflags, m.mem)
  }

  /** Returning to ring 3 also takes the stack pointer and its segment from the stack. */
  function InterruptReturn(m: Machine): Machine {
    var eip, cs, fl := Load(m.mem, m.esp), Low16(Load(m.mem, Above(m.esp, 4))), Load(m.mem, Above(m.esp, 8));
    if cs % 4 == 3 then
      Machine(m.r, Load(m.mem, Above(m.esp, 12)), Low16(Load(m.mem, Above(m.esp, 16))), eip, cs, fl, m.mem)
    else
      Machine(m.r, Above(m.esp, 12), m.ss, eip, cs, fl, m.mem)
  }

  predicate WellFormed(p: seq<Instr>) {
    forall i | i in p :: (i.LoadStack? ==> i.off < 0x1_0000_0000) && (i.AddEsp? ==> i.n < 0x1_0000_0000)
  }

  function Run(m: Machine, p: seq<Instr>): Machine
    requires WellFormed(p)
    decreases |p|
  {
    if p == [] then m else Run(Exec(m, p[0]), p[1..])
  }

  lemma {:induction false} RunAppend(m: Machine, p: seq<Instr>, q: seq<Instr>)
    requires WellFormed(p) && WellFormed(q)
    ensures Run(m, p + q) == Run(Run(m, p), q)
    decreases |p|
  {
    hide Exec;
    if p == [] {
      assert p + q == q;
    } else {
      assert (p + q)[1..] == p[1..] + q;
      RunAppend(Exec(m, p[0]), p[1..], q);
    }
  }

  lemma Run2(m: Machine, i: Instr, j: Instr)
    requires WellFormed([i, j])
    ensures Run(m, [i, j]) == Exec(Exec(m, i), j)
  {
    hide Exec;
    assert i in [i, j] && j in [i, j];
    assert [i, j][1..] == [j] && [j][1..] == [];
    var n := Exec(m, i);
    assert Run(n, [j]) == Run(Exec(n, j), []) == Exec(n, j);
  }

  lemma Run4(m: Machine, i: Instr, j: Instr, k: Instr, l: Instr)
    requires WellFormed([i, j, k, l])
    ensures Run(m, [i, j, k, l]) == Exec(Exec(Exec(Exec(m, i), j), k), l)
  {
    hide Exec;
    assert i in [i, j, k, l] && j in [i, j, k, l] && k in [i, j, k, l] && l in [i, j, k, l];
    RunAppend(m, [i, j], [k, l]);
    assert [i, j] + [k, l] == [i, j, k, l];
    Run2(m, i, j);
    Run2(Exec(Exec(m, i), j), k, l);
  }

  // ---- pushing several words ----

  lemma {:induction false} PushWordsEffect(m: Machine, ws: seq<Word>)
    requires 4 * |ws| <= m.esp
    ensures var m' := PushWords(m, ws);
      && m'.esp == m.esp - 4 * |ws| && m'.r == m.r
      && m'.ss == m.ss && m'.eip == m.eip && m'.cs == m.cs && m'.eflags == m.eflags
      && (forall k | 0 <= k < |ws| :: Load(m'.mem, m.esp - 4 * (k + 1)) == ws[k])
      && (forall a | a >= m.esp :: Load(m'.mem, a) == Load(m.mem, a))
    decreases |ws|
  {
    if ws == [] {
    } else {
      var m1 := PushWord(m, ws[0]);
      PushWordsEffect(m1, ws[1..]);
      var m' := PushWords(m1, ws[1..]);
      hide PushWords;
      forall k | 0 <= k < |ws| ensures Load(m'.mem, m.esp - 4 * (k + 1)) == ws[k] {
        if k > 0 {
          assert m1.esp - 4 * k == m.esp - 4 * (k + 1) && ws[1..][k - 1] == ws[k];
        }
      }
    }
  }

  lemma {:induction false} PushWordsAppend(m: Machine, a: seq<Word>, b: seq<Word>)
    ensures PushWords(PushWords(m, a), b) == PushWords(m, a + b)
    decreases |a|
  {
    if a == [] {
      assert a + b == b;
    } else {
      assert (a + b)[1..] == a[1..] + b;
      PushWordsAppend(PushWord(m, a[0]), a[1..], b);
    }
  }
}

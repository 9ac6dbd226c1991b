/**
 Exception entry (arm_exception.c).
 */
module Exceptions {
  import opened Words
  import opened Mem
  import opened Reg
  import opened Machine
  import opened Core

  const RESET := 1
  const DATA_ABORT := 2
  const FAST_INTERRUPT := 3
  const INTERRUPT := 4
  const PREFETCH_ABORT := 6
  const UNDEFINED_INSTRUCTION := 7
  const SOFTWARE_INTERRUPT := 8
  const END_SIMULATION := 9

  // The five exceptions that enter a handler.
  predicate IsHandled(e: int) {
    e in {DATA_ABORT, FAST_INTERRUPT, INTERRUPT, PREFETCH_ABORT, UNDEFINED_INSTRUCTION}
  }

  function HandlerMode(e: int): (mode: byte)
    requires IsHandled(e)
    ensures IsMode(mode) && SpsrBank(mode) >= 0
  {
    if e == FAST_INTERRUPT then FIQ
    else if e == INTERRUPT then IRQ
    else if e == UNDEFINED_INSTRUCTION then UND
    else ABT
  }

  function Vector(e: int): (a: word)
    requires IsHandled(e)
  {
    if e == DATA_ABORT then 0x10
    else if e == FAST_INTERRUPT then 0x1C
    else if e == INTERRUPT then 0x18
    else if e == PREFETCH_ABORT then 0x0C
    else 0x04
  }

  // How far the saved return address is from what the pc reads.
  function ReturnOffset(e: int): (o: int) {
    if e == DATA_ABORT || e == FAST_INTERRUPT then 4 else 0
  }

  // Bits 31 to 10 are kept; E = 0, A = 1, I = 1, T = 0 and the mode are set; F is set for a fast
  // interrupt and kept otherwise.
  function EntryCpsr(cpsr: word, mode: byte, fast: bool): (r: word)
    requires mode < 32
  {
    cpsr / 0x400 * 0x400 + 0x180 + (if fast || cpsr / 0x40 % 2 == 1 then 0x40 else 0) + mode
  }

  // The return address and the saved status go to the bank of the interrupted mode.
  function Enter(s: State, e: int): (s': State)
    requires IsHandled(e)
  {
    var saved := SetSpsr(SetReg(s, 14, Add(Read(s, 15), ReturnOffset(e))), s.cpsr);
    SetReg(SetCpsr(saved, EntryCpsr(s.cpsr, HandlerMode(e), e == FAST_INTERRUPT)), 15, Vector(e))
  }

  // The instruction a software interrupt looks at; `junk` is what its variable holds when the
  // read is rejected.
  function SwiNumber(s: State, junk: word): (n: word) {
    var read := LoadWord(s.mem, Sub(Read(s, 15), 8), s.be);
    BitAnd(if read.Some? then read.value else junk, 0xFF_FFFF)
  }

  function Exception(s: State, e: int, junk: word): (r: (State, int)) {
    if e == SOFTWARE_INTERRUPT && SwiNumber(s, junk) == 0x12_3456 then (s, END_SIMULATION)
    else if e == SOFTWARE_INTERRUPT && SwiNumber(s, junk) == 1 then (s, 0)
    else if e == RESET then (SetReg(SetCpsr(s, 0x1d3), 15, 0), e)
    else if IsHandled(e) then (Enter(s, e), e)
    else (s, e)
  }

  // The machine that arm_create builds from given registers and memory.
  function Created(s: State): (s': State) {
    SetReg(Exception(s.(cycles := 0), RESET, 0).0, 13, |s.mem| % TWO32)
  }

  // ---------- what entry does ----------

  lemma LinkIsOwnRegister(mode: byte)
    ensures Physical(14, mode) != 0
  {
  }

  // The control bits of a status word: E, A, I, F, T and the mode below the other bits.
  datatype StatusBits = StatusBits(high: nat, e: nat, a: nat, i: nat, f: nat, t: nat, mode: nat)
  {
    ghost predicate Valid() {
      high < 0x40_0000 && e < 2 && a < 2 && i < 2 && f < 2 && t < 2 && mode < 32
    }

    ghost function Value(): (v: word)
      requires Valid()
    {
      0x400 * high + 0x200 * e + 0x100 * a + 0x80 * i + 0x40 * f + 0x20 * t + mode
    }

    // What exception entry does with the bit at a position.
    ghost function Put(position: nat): (b: StatusBits)
      requires Valid() && 5 <= position <= 9
      ensures b.Valid()
    {
      if position == 5 then this.(t := 0)
      else if position == 6 then this.(f := 1)
      else if position == 7 then this.(i := 1)
      else if position == 8 then this.(a := 1)
      else this.(e := 0)
    }
  }

  lemma ControlBits(b: StatusBits)
    requires b.Valid()
    ensures var v := b.Value();
            && v / 0x400 == b.high && v / 0x200 % 2 == b.e && v / 0x100 % 2 == b.a && v / 0x80 % 2 == b.i
            && v / 0x40 % 2 == b.f && v / 0x20 % 2 == b.t && v % 32 == b.mode
  {
    var v := b.Value();
    var v200 := 2 * b.high + b.e;
    var v100 := 2 * v200 + b.a;
    var v80 := 2 * v100 + b.i;
    var v40 := 2 * v80 + b.f;
    var v20 := 2 * v40 + b.t;
    FieldAt(v, 0x20, v40, b.t, b.mode);
    FieldAt(v, 0x40, v80, b.f, v - 0x40 * v40);
    FieldAt(v, 0x80, v100, b.i, v - 0x80 * v80);
    FieldAt(v, 0x100, v200, b.a, v - 0x100 * v100);
    FieldAt(v, 0x200, b.high, b.e, v - 0x200 * v200);
    DivModIs(v, 0x400, b.high, v - 0x400 * b.high);
    DivModIs(v, 32, v20, b.mode);
  }

  lemma EntryCpsrBits(cpsr: word, mode: byte, fast: bool)
    requires mode < 32
    ensures var c := EntryCpsr(cpsr, mode, fast);
            && c % 32 == mode && c / 0x20 % 2 == 0 && c / 0x80 % 2 == 1 && c / 0x100 % 2 == 1
            && c / 0x200 % 2 == 0 && c / 0x400 == cpsr / 0x400
            && c / 0x40 % 2 == (if fast then 1 else cpsr / 0x40 % 2)
  {
    ControlBits(StatusBits(cpsr / 0x400, 0, 1, 1, if fast then 1 else cpsr / 0x40 % 2, 0, mode));
  }

  // Everything an entry does: the mode and the vector it goes to, the link it leaves, and that all
  // other physical registers, the other SPSRs, the memory and the cycle count stay.
  predicate Entered(s: State, s': State, mode: nat, vector: nat, link: int, fast: bool, p: nat, b: nat)
    requires p < PHYSICAL && b < BANKS
  {
    && s'.mode == mode == s'.cpsr % 32
    && s'.cpsr / 0x20 % 2 == 0 && s'.cpsr / 0x80 % 2 == 1 && s'.cpsr / 0x100 % 2 == 1
    && s'.cpsr / 0x200 % 2 == 0 && s'.cpsr / 0x400 == s.cpsr / 0x400
    && s'.cpsr / 0x40 % 2 == (if fast then 1 else s.cpsr / 0x40 % 2)
    && s'.file[p] == (if p == 0 then vector else if p == Physical(14, s.mode) then link else s.file[p])
    && s'.spsr[b] == (if b == SpsrBank(s.mode) then s.cpsr else s.spsr[b])
    && s'.mem == s.mem && s'.cycles == s.cycles && s'.be == s.be
  }

  // The five entries in numbers: data abort, fast interrupt, interrupt, prefetch abort and
  // undefined instruction.
  lemma EntryEffect(s: State, e: int, p: nat, b: nat)
    requires e in {2, 3, 4, 6, 7} && p < PHYSICAL && b < BANKS
    ensures var pc := Read(s, 15);
            && (e == 2 ==> Entered(s, Enter(s, e), 0x17, 0x10, (pc + 4) % 0x1_0000_0000, false, p, b))
            && (e == 3 ==> Entered(s, Enter(s, e), 0x11, 0x1C, (pc + 4) % 0x1_0000_0000, true, p, b))
            && (e == 4 ==> Entered(s, Enter(s, e), 0x12, 0x18, pc, false, p, b))
            && (e == 6 ==> Entered(s, Enter(s, e), 0x17, 0x0C, pc, false, p, b))
            && (e == 7 ==> Entered(s, Enter(s, e), 0x1b, 0x04, pc, false, p, b))
  {
    var c := EntryCpsr(s.cpsr, HandlerMode(e), e == FAST_INTERRUPT);
    EntryCpsrBits(s.cpsr, HandlerMode(e), e == FAST_INTERRUPT);
    LinkIsOwnRegister(s.mode);
  }

  lemma Low24(x: word)
    ensures And(x, 0xFF_FFFF) == x % 0x100_0000
  {
    Pow2Bytes();
    AndLow(x, 24, 0xFF_FFFF);
    HighLowAreDivMod(x, 24);
  }

  // The exceptions that are not entries, in numbers: reset, the software interrupts that the
  // simulator answers itself, and the rest, which changes nothing.
  lemma OtherExceptions(s: State, e: int, junk: word)
    requires e !in {2, 3, 4, 6, 7}
    ensures var (s', r) := Exception(s, e, junk);
            var at := Sub(Read(s, 15), 8);
            var call := (if at + 4 <= |s.mem| then LoadWord(s.mem, at, s.be).value else junk) % 0x100_0000;
            && (e == 1 ==> r == 1 && s' == SetReg(s, 15, 0).(cpsr := 0x1d3, mode := 0x13))
            && (e != 1 ==> s' == s)
            && (e == 8 ==> r == if call == 0x12_3456 then 9 else if call == 1 then 0 else 8)
            && (e != 1 && e != 8 ==> r == e)
  {
    var at := Sub(Read(s, 15), 8);
    var read := if at + 4 <= |s.mem| then LoadWord(s.mem, at, s.be).value else junk;
    Low24(read);
  }

  // The new machine in numbers: Supervisor mode with interrupts off, pc 0, the stack pointer at the
  // end of memory, and everything else as it was given.
  lemma CreatedMachine(s: State, p: nat)
    requires p < PHYSICAL
    ensures var s' := Created(s);
            && s' == s.(file := s'.file, cpsr := 0x1d3, mode := 0x13, cycles := 0)
            && s'.file[p] == (if p == 0 then 0
                              else if p == Physical(13, 0x13) then |s.mem| % 0x1_0000_0000
                              else s.file[p])
  {
    OtherExceptions(s.(cycles := 0), 1, 0);
  }

  // The handler looks for its return address and the saved status in the banks of its own mode.
  // It finds them exactly when that is the mode that was interrupted, or when its banks happened
  // to hold both already.
  lemma HandlerFindsReturn(s: State, e: int)
    requires IsHandled(e)
    ensures var s', mode, back := Enter(s, e), HandlerMode(e), Add(Read(s, 15), ReturnOffset(e));
            Raw(s', 14) == back && Spsr(s') == s.cpsr
            <==> s.mode == mode || (ReadBank(s.file, 14, mode) == back && s.spsr[SpsrBank(mode)] == s.cpsr)
  {
    var mode := HandlerMode(e);
    EntryEffect(s, e, Physical(14, mode), SpsrBank(mode));
  }

  lemma StatusOf(x: word) returns (b: StatusBits)
    ensures b.Valid() && b.Value() == x
  {
    b := StatusBits(x / 0x400, x / 0x200 % 2, x / 0x100 % 2, x / 0x80 % 2, x / 0x40 % 2, x / 0x20 % 2, x % 32);
    assert x / 0x40 == x / 0x20 / 2 && x / 0x80 == x / 0x40 / 2 && x / 0x100 == x / 0x80 / 2;
    assert x / 0x200 == x / 0x100 / 2 && x / 0x400 == x / 0x200 / 2;
  }

  // A machine in Supervisor mode with zero everywhere else.
  const FRESH: State := RawState(seq(31, _ => 0), seq(5, _ => 0), 0x1d3, SVC, seq(4, _ => 0), 0, false)

  // There an undefined instruction leaves 4, the address to return to, in the link register of
  // Supervisor mode; its handler finds 0.
  lemma HandlerMissesReturn(s: State)
    requires s == FRESH
    ensures var s' := Enter(s, UNDEFINED_INSTRUCTION);
            && Add(Read(s, 15), ReturnOffset(UNDEFINED_INSTRUCTION)) == 4
            && ReadBank(s'.file, 14, SVC) == 4 && s'.mode == UND && Raw(s', 14) == 0
  {
    assert Read(s, 15) == PcRead(0) == 4;
  }

  // ---------- the implementation ----------

  lemma ReplaceMode(cpsr: word, mode: byte)
    requires mode < 32
    ensures Or(And(cpsr, 0xFFFF_FFE0), mode) == cpsr - cpsr % 32 + mode
  {
    Pow2At32();
    assert Pow2(5) == 32;
    AndHigh(cpsr, 5, 32, 0xFFFF_FFE0);
    HighLowAreDivMod(cpsr, 5);
    Split(cpsr, 5);
    HighRange(cpsr, 5);
    OrSplit(High(cpsr, 5), mode, 5);
    OrCommutes(mode, Up(High(cpsr, 5), 5));
  }

  lemma MacroBit(x: word, i: nat, w: word)
    requires i < 32 && w == Pow2(i)
    ensures ClrBit(x, i) == if x / w % 2 == 1 then x - w else x
    ensures SetBit(x, i) == if x / w % 2 == 1 then x else x + w
  {
    HighLowAreDivMod(x, i);
  }

  lemma BitAt(b: StatusBits, i: nat)
    requires b.Valid() && 5 <= i <= 9
    ensures var x := b.Value();
            if i == 5 || i == 9 then ClrBit(x, i) == b.Put(i).Value() else SetBit(x, i) == b.Put(i).Value()
  {
    var x := b.Value();
    ControlBits(b);
    if i == 5 {
      MacroBit(x, 5, 0x20);
    } else if i == 6 {
      MacroBit(x, 6, 0x40);
    } else if i == 7 {
      MacroBit(x, 7, 0x80);
    } else if i == 8 {
      MacroBit(x, 8, 0x100);
    } else {
      MacroBit(x, 9, 0x200);
    }
  }

  // set_bit or clr_bit on the CPSR
  method PutCpsrBit(p: ArmCore, i: nat, ghost b: StatusBits)
    requires p.Valid() && 5 <= i <= 9 && b.Valid() && b.Value() == p.state.cpsr
    modifies p.Repr()
    ensures p.Valid() && p.state == SetCpsr(old(p.state), b.Put(i).Value())
  {
    BitAt(b, i);
    var cpsr := p.ReadCpsr();
    if i == 5 || i == 9 {
      p.WriteCpsr(ClrBit(cpsr, i));
    } else {
      p.WriteCpsr(SetBit(cpsr, i));
    }
  }

  // SPSR = CPSR, then CPSR[4:0] = mode
  method SwitchMode(p: ArmCore, mode: byte, ghost b: StatusBits)
    requires p.Valid() && mode < 32 && b.Valid() && b.Value() == p.state.cpsr
    modifies p.Repr()
    ensures p.Valid()
    ensures p.state == SetCpsr(SetSpsr(old(p.state), b.Value()), b.(mode := mode).Value())
  {
    var cpsr := p.ReadCpsr();
    p.WriteSpsr(cpsr);
    ControlBits(b);
    ReplaceMode(cpsr, mode);
    p.WriteCpsr(BitOr(BitAnd(cpsr, BitNot(0x1f)), mode));
  }

  lemma EntryIsPut(b: StatusBits, mode: byte, fast: bool)
    requires b.Valid() && mode < 32
    ensures var c := b.(mode := mode).Put(5);
            (if fast then c.Put(6) else c).Put(7).Put(8).Put(9).Value() == EntryCpsr(b.Value(), mode, fast)
  {
    ControlBits(b);
  }

  method SetExceptionCpsr(p: ArmCore, mode: byte, bit6: bool)
    requires p.Valid() && IsMode(mode)
    modifies p.Repr()
    ensures p.Valid()
    ensures p.state == SetCpsr(SetSpsr(old(p.state), old(p.state.cpsr)), EntryCpsr(old(p.state.cpsr), mode, bit6))
  {
    ghost var b := StatusOf(p.state.cpsr);
    EntryIsPut(b, mode, bit6);
    SwitchMode(p, mode, b);
    b := b.(mode := mode);
    PutCpsrBit(p, 5, b);
    b := b.Put(5);
    if bit6 {
      PutCpsrBit(p, 6, b);
      b := b.Put(6);
    }
    PutCpsrBit(p, 7, b);
    PutCpsrBit(p, 8, b.Put(7));
    PutCpsrBit(p, 9, b.Put(7).Put(8));
  }

  method DataAbort(p: ArmCore)
    requires p.Valid()
    modifies p.Repr()
    ensures p.Valid() && p.state == Enter(old(p.state), DATA_ABORT)
  {
    var pc := p.ReadRegister(15);
    AddOffset(pc, 4, 0);
    AddOffset(pc, -4, 8);
    p.WriteRegister(14, Add(Sub(pc, 4), 8));
    SetExceptionCpsr(p, 0x17, false);
    p.WriteRegister(15, 0x10);
  }

  method Interrupt(p: ArmCore)
    requires p.Valid()
    modifies p.Repr()
    ensures p.Valid() && p.state == Enter(old(p.state), INTERRUPT)
  {
    var pc := p.ReadRegister(15);
    AddOffset(pc, 4, 0);
    AddOffset(pc, -4, 4);
    p.WriteRegister(14, Add(Sub(pc, 4), 4));
    SetExceptionCpsr(p, 0x12, false);
    p.WriteRegister(15, 0x18);
  }

  method UndefinedInstruction(p: ArmCore)
    requires p.Valid()
    modifies p.Repr()
    ensures p.Valid() && p.state == Enter(old(p.state), UNDEFINED_INSTRUCTION)
  {
    var pc := p.ReadRegister(15);
    AddOffset(pc, 0, 0);
    p.WriteRegister(14, pc);
    SetExceptionCpsr(p, 0x1b, false);
    p.WriteRegister(15, 0x04);
  }

  method FetchAbort(p: ArmCore)
    requires p.Valid()
    modifies p.Repr()
    ensures p.Valid() && p.state == Enter(old(p.state), PREFETCH_ABORT)
  {
    var pc := p.ReadRegister(15);
    AddOffset(pc, 4, 0);
    AddOffset(pc, -4, 4);
    p.WriteRegister(14, Add(Sub(pc, 4), 4));
    SetExceptionCpsr(p, 0x17, false);
    p.WriteRegister(15, 0x0C);
  }

  method FastInterruptRequest(p: ArmCore)
    requires p.Valid()
    modifies p.Repr()
    ensures p.Valid() && p.state == Enter(old(p.state), FAST_INTERRUPT)
  {
    var pc := p.ReadRegister(15);
    p.WriteRegister(14, Add(pc, 4));
    SetExceptionCpsr(p, 0x11, true);
    p.WriteRegister(15, 0x1C);
  }

  // `junk` stands for the content of the uninitialised variable that a rejected read leaves.
  method ArmException(p: ArmCore, e: int, junk: word) returns (result: int)
    requires p.Valid()
    modifies p.Repr()
    ensures p.Valid() && (p.state, result) == Exception(old(p.state), e, junk)
  {
    if e == SOFTWARE_INTERRUPT {
      var pc := p.ReadRegister(15);
      var read := p.ReadWord(Sub(pc, 8));
      var instruction := BitAnd(if read.Some? then read.value else junk, 0xFF_FFFF);
      if instruction == 0x12_3456 {
        return END_SIMULATION;
      } else if instruction == 1 {
        return 0;
      }
    }
    if e == RESET {
      p.WriteCpsr(0x1d3);
      p.WriteRegister(15, 0);
    }
    if e == DATA_ABORT {
      DataAbort(p);
    }
    if e == INTERRUPT {
      Interrupt(p);
    }
    if e == UNDEFINED_INSTRUCTION {
      UndefinedInstruction(p);
    }
    if e == PREFETCH_ABORT {
      FetchAbort(p);
    }
    if e == FAST_INTERRUPT {
      FastInterruptRequest(p);
    }
    result := e;
  }

  // arm_create
  method ArmCreate(reg: Registers, mem: Memory, be: bool) returns (p: ArmCore)
    requires reg.Valid() && mem.Valid() && mem.data !in reg.Repr()
    modifies reg.Repr(), mem, mem.data
    ensures p.Valid() && fresh(p) && p.reg == reg && p.mem == mem
    ensures p.state == Created(old(RawState(reg.File(), reg.spsr[..], reg.cpsr, reg.currentMode, mem.data[..], 0, be)))
  {
    p := new ArmCore(reg, mem, be);
    var r := ArmException(p, RESET, 0);
    var size := p.MemorySize();
    p.WriteRegister(13, size % TWO32);
  }
}

/**
 Branches and status register reads (arm_branch_other.c).
 */
module Branch {
  import opened Words
  import opened Mem
  import opened Reg
  import opened Machine
  import opened Core
  import opened Exceptions

  // The signed 24-bit offset in words.
  function SignedOffset(ins: word): (o: int) {
    var o := GetBits(ins, 23, 0);
    if o >= 0x80_0000 then o - 0x100_0000 else o
  }

  function Link(s: State): (s': State) {
    SetReg(s, 14, Sub(Read(s, 15), 4))
  }

  // B and BL
  function BranchTo(s: State, ins: word): (s': State) {
    var s := if GetBit(ins, 24) == 1 then Link(s) else s;
    SetReg(s, 15, Add(Read(s, 15), 4 * SignedOffset(ins)))
  }

  // BX and BLX; the target is read before the link register is written.
  function Exchange(s: State, ins: word): (r: (State, int)) {
    var target := Even(Read(s, RegField(ins, 0)));
    var kind := GetBits(ins, 7, 4);
    if kind == 1 then (SetReg(s, 15, target), 0)
    else if kind == 3 then (SetReg(Link(s), 15, target), 0)
    else (s, UNDEFINED_INSTRUCTION)
  }

  function BranchBy(s: State, ins: word): (r: (State, int)) {
    if GetBits(ins, 27, 25) == 5 then (BranchTo(s, ins), 0)
    else if GetBits(ins, 27, 20) == 18 then Exchange(s, ins)
    else (s, UNDEFINED_INSTRUCTION)
  }

  // arm_miscellaneous: MRS
  function StatusToRegister(s: State, ins: word): (r: (State, int)) {
    if GetBit(ins, 22) == 0 then (SetReg(s, RegField(ins, 12), s.cpsr), 0)
    else if SpsrBank(s.mode) >= 0 then (SetReg(s, RegField(ins, 12), Spsr(s)), 0)
    else (s, UNDEFINED_INSTRUCTION)
  }

  function OtherOrSwi(ins: word): (r: int) {
    if GetBit(ins, 24) == 1 then SOFTWARE_INTERRUPT else UNDEFINED_INSTRUCTION
  }

  // ---------- the implementation ----------

  lemma SignFields(o: word)
    requires o < 0x100_0000
    ensures GetBit(o, 23) == if o >= 0x80_0000 then 1 else 0
    ensures 0x3F < Pow2(6)
    ensures SetBits(o, 29, 24, 0x3F) == o + 0x3F00_0000
  {
    Pow2Bytes();
    assert Pow2(24) == 2 * Pow2(23) && Pow2(6) == 0x40;
    HighTop(o, 23);
    Pow2Less(24, 30);
    LowSmall(o, 30);
    LowSmall(o, 24);
    UpIsTimes(0x3F, 24);
    UpIsTimes(0, 30);
  }

  // The source extends the sign to 30 bits, and then shifts by two.
  function SignExtend(o: word): (e: word)
    requires o < 0x100_0000
    ensures e == if o >= 0x80_0000 then o + 0x3F00_0000 else o
  {
    SignFields(o);
    if GetBit(o, 23) == 1 then SetBits(o, 29, 24, 0x3F) else o
  }

  lemma OffsetInBytes(o: word)
    requires o < 0x100_0000
    ensures Shl(SignExtend(o), 2) == (4 * (if o >= 0x80_0000 then o - 0x100_0000 else o)) % TWO32
  {
    UpIsTimes(SignExtend(o), 2);
    assert Pow2(2) == 4;
  }

  method DecodeOffset(ins: word) returns (offset: word)
    ensures offset == (4 * SignedOffset(ins)) % TWO32
  {
    offset := GetBits(ins, 23, 0);
    LowRange(High(ins, 0), 24);
    Pow2Bytes();
    OffsetInBytes(offset);
    offset := Shl(SignExtend(offset), 2);
  }

  lemma AddModulo(x: word, i: int)
    ensures Add(x, i % TWO32) == Add(x, i)
  {
  }

  method BranchWithOffset(p: ArmCore, ins: word)
    requires p.Valid()
    modifies p.Repr()
    ensures p.Valid() && p.state == BranchTo(old(p.state), ins)
  {
    if GetBit(ins, 24) == 1 {
      var pc := p.ReadRegister(15);
      p.WriteRegister(14, Sub(pc, 4));
    }
    var offset := DecodeOffset(ins);
    var pc := p.ReadRegister(15);
    AddModulo(pc, 4 * SignedOffset(ins));
    p.WriteRegister(15, Add(pc, offset));
  }

  method BranchExchange(p: ArmCore, ins: word) returns (r: int)
    requires p.Valid()
    modifies p.Repr()
    ensures p.Valid() && (p.state, r) == Exchange(old(p.state), ins)
  {
    var v := p.ReadRegister(RegField(ins, 0));
    ClearBit0(v);
    if GetBits(ins, 7, 4) == 1 {
      p.WriteRegister(15, BitAnd(v, 0xFFFF_FFFE));
      r := 0;
    } else if GetBits(ins, 7, 4) == 3 {
      var pc := p.ReadRegister(15);
      p.WriteRegister(14, Sub(pc, 4));
      p.WriteRegister(15, BitAnd(v, 0xFFFF_FFFE));
      r := 0;
    } else {
      r := UNDEFINED_INSTRUCTION;
    }
  }

  method ArmBranch(p: ArmCore, ins: word) returns (r: int)
    requires p.Valid()
    modifies p.Repr()
    ensures p.Valid() && (p.state, r) == BranchBy(old(p.state), ins)
  {
    if GetBits(ins, 27, 25) == 5 {
      BranchWithOffset(p, ins);
      r := 0;
    } else if GetBits(ins, 27, 20) == 18 {
      r := BranchExchange(p, ins);
    } else {
      r := UNDEFINED_INSTRUCTION;
    }
  }

  method ArmMiscellaneous(p: ArmCore, ins: word) returns (r: int)
    requires p.Valid()
    modifies p.Repr()
    ensures p.Valid() && (p.state, r) == StatusToRegister(old(p.state), ins)
  {
    if GetBit(ins, 22) == 0 {
      var cpsr := p.ReadCpsr();
      p.WriteRegister(RegField(ins, 12), cpsr);
    } else {
      var banked := p.CurrentModeHasSpsr();
      if !banked {
        return UNDEFINED_INSTRUCTION;
      }
      var spsr := p.ReadSpsr();
      p.WriteRegister(RegField(ins, 12), spsr);
    }
    r := 0;
  }
}

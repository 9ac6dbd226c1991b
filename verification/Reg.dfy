/**
 The banked register file (registers.c).

 The sixteen register numbers name 31 physical registers, chosen by the processor mode.
 The functions describe the file on the sequence of its physical registers; class
 `Registers` is the implementation, which keeps them in the tables of the source.
 */
module Reg {
  import opened Words

  const USR: byte := 0x10
  const FIQ: byte := 0x11
  const IRQ: byte := 0x12
  const SVC: byte := 0x13
  const ABT: byte := 0x17
  const UND: byte := 0x1b
  const SYS: byte := 0x1f
  // mode_update returns -1 in a uint8_t when CPSR[4:0] names no mode.
  const NO_MODE: byte := 0xFF

  predicate IsMode(mode: byte) {
    mode == USR || mode == FIQ || mode == IRQ || mode == SVC || mode == ABT || mode == UND || mode == SYS
  }

  lemma LowIsMod32(x: word)
    ensures Low(High(x, 0), 5) == x % 32
  {
    HighLowAreDivMod(x, 5);
    assert Pow2(5) == 32;
  }

  function ModeOf(cpsr: word): (mode: byte)
    ensures mode == if IsMode(cpsr % 32) then cpsr % 32 else NO_MODE
  {
    LowIsMod32(cpsr);
    var bits := GetBits(cpsr, 4, 0);
    if IsMode(bits) then bits else NO_MODE
  }

  // ---------- banks ----------

  const PHYSICAL := 31
  const BANKS := 5

  function StackBank(mode: byte): (b: int)
    ensures -1 <= b < 6
  {
    if mode == USR || mode == SYS then 0
    else if mode == FIQ then 1
    else if mode == IRQ then 2
    else if mode == SVC then 3
    else if mode == UND then 4
    else if mode == ABT then 5
    else -1
  }

  // The physical register that a register number names in a mode, or -1.
  function Physical(reg: nat, mode: byte): (p: int)
    ensures -1 <= p < PHYSICAL
  {
    if reg == 15 then 0
    else if reg < 8 then 1 + reg
    else if reg < 13 then 9 + 2 * (reg - 8) + (if mode == FIQ then 1 else 0)
    else if reg < 15 && StackBank(mode) >= 0 then 19 + 6 * (reg - 13) + StackBank(mode)
    else -1
  }

  function SpsrBank(mode: byte): (b: int)
    ensures -1 <= b < BANKS
  {
    if mode == FIQ then 0
    else if mode == IRQ then 1
    else if mode == SVC then 2
    else if mode == ABT then 3
    else if mode == UND then 4
    else -1
  }

  function ReadBank(file: seq<word>, reg: nat, mode: byte): (v: word)
    requires |file| == PHYSICAL
  {
    if Physical(reg, mode) < 0 then MAX32 else file[Physical(reg, mode)]
  }

  function WriteBank(file: seq<word>, reg: nat, mode: byte, v: word): (file': seq<word>)
    requires |file| == PHYSICAL
    ensures |file'| == PHYSICAL
  {
    if Physical(reg, mode) < 0 then file else file[Physical(reg, mode) := v]
  }

  // The architecture's rule (section A2.4): r0 to r7 and the pc are shared by all modes, r8 to
  // r12 have a second copy for FIQ, and User and System share the sp and lr the others own.
  predicate SameRegister(reg: nat, mode: byte, reg': nat, mode': byte) {
    reg == reg' &&
    (reg < 8 || reg == 15 ||
     (if reg < 13 then (mode == FIQ) == (mode' == FIQ)
      else mode == mode' || (mode in {USR, SYS} && mode' in {USR, SYS})))
  }

  lemma PhysicalIsArchitectural(reg: nat, mode: byte, reg': nat, mode': byte)
    requires reg < 16 && reg' < 16 && IsMode(mode) && IsMode(mode')
    ensures 0 <= Physical(reg, mode)
    ensures Physical(reg, mode) == Physical(reg', mode') <==> SameRegister(reg, mode, reg', mode')
  {
  }

  // What a read sees after a write, for every pair of names.
  lemma ReadAfterWrite(file: seq<word>, reg: nat, mode: byte, v: word, reg': nat, mode': byte)
    requires |file| == PHYSICAL
    requires reg < 16 && reg' < 16 && IsMode(mode) && IsMode(mode')
    ensures ReadBank(WriteBank(file, reg, mode, v), reg', mode')
         == if SameRegister(reg, mode, reg', mode') then v else ReadBank(file, reg', mode')
  {
    PhysicalIsArchitectural(reg, mode, reg', mode');
  }

  // Each of the 31 physical registers has a name.
  lemma EveryPhysicalHasAName(p: nat) returns (reg: nat, mode: byte)
    requires p < PHYSICAL
    ensures reg < 16 && IsMode(mode) && Physical(reg, mode) == p
  {
    if p == 0 {
      reg, mode := 15, USR;
    } else if p < 9 {
      reg, mode := p - 1, USR;
    } else if p < 19 {
      reg, mode := 8 + (p - 9) / 2, if (p - 9) % 2 == 1 then FIQ else USR;
    } else {
      reg, mode := 13 + (p - 19) / 6, [USR, FIQ, IRQ, SVC, UND, ABT][(p - 19) % 6];
    }
  }

  // The modes in numbers.
  lemma ModesInNumbers(mode: byte)
    ensures IsMode(mode) <==> mode in {0x10, 0x11, 0x12, 0x13, 0x17, 0x1b, 0x1f}
    ensures NO_MODE == 0xFF
  {
  }

  // FIQ, IRQ, Supervisor, Abort and Undefined each have an SPSR of their own; no other mode has one.
  lemma SpsrBankIsOwn(mode: byte, mode': byte)
    ensures SpsrBank(mode) >= 0 <==> mode in {0x11, 0x12, 0x13, 0x17, 0x1b}
    ensures SpsrBank(mode) >= 0 && SpsrBank(mode') == SpsrBank(mode) ==> mode == mode'
  {
  }

  // A number that names no register in a mode reads as all ones, and writing it changes nothing:
  // sp and lr where no mode is named, and numbers above 15.
  lemma Unnamed(file: seq<word>, reg: nat, mode: byte, v: word)
    requires |file| == PHYSICAL && (reg > 15 || (reg in {13, 14} && !IsMode(mode)))
    ensures ReadBank(file, reg, mode) == 0xFFFF_FFFF && WriteBank(file, reg, mode, v) == file
  {
  }

  // ---------- the implementation ----------

  class Registers {
    var pc: word
    const tabR0R7: array<word>
    const tabR8R12: array2<word>
    const tabR13R14: array2<word>
    var cpsr: word
    const spsr: array<word>
    var currentMode: byte

    ghost predicate Valid()
      reads this
    {
      tabR0R7.Length == 8 && spsr.Length == BANKS && tabR0R7 != spsr &&
      tabR8R12.Length0 == 5 && tabR8R12.Length1 == 2 &&
      tabR13R14.Length0 == 2 && tabR13R14.Length1 == 6 && tabR8R12 != tabR13R14
    }

    ghost function Repr(): set<object> {
      {this, tabR0R7, tabR8R12, tabR13R14, spsr}
    }

    ghost function FileAt(p: nat): word
      requires Valid() && p < PHYSICAL
      reads this, Repr()
    {
      if p == 0 then pc
      else if p < 9 then tabR0R7[p - 1]
      else if p < 19 then tabR8R12[(p - 9) / 2, (p - 9) % 2]
      else tabR13R14[(p - 19) / 6, (p - 19) % 6]
    }

    ghost function File(): (file: seq<word>)
      requires Valid()
      reads this, Repr()
      ensures |file| == PHYSICAL
    {
      seq(PHYSICAL, p requires 0 <= p < PHYSICAL && Valid() reads this, Repr() => FileAt(p))
    }

    // malloc leaves the tables unspecified; the mode starts as SVC.
    constructor ()
      ensures Valid() && fresh(Repr()) && currentMode == SVC
    {
      tabR0R7 := new word[8];
      tabR8R12 := new word[5, 2];
      tabR13R14 := new word[2, 6];
      spsr := new word[5];
      currentMode := SVC;
    }

    method HasSpsr() returns (b: bool)
      ensures b <==> SpsrBank(currentMode) >= 0
    {
      match currentMode
      case 0x13 => b := true;
      case 0x11 => b := true;
      case 0x17 => b := true;
      case 0x1b => b := true;
      case 0x12 => b := true;
      case _ => b := false;
    }

    method Read(reg: nat, mode: byte) returns (v: word)
      requires Valid()
      ensures v == ReadBank(File(), reg, mode)
    {
      if reg == 15 {
        return pc;
      } else if reg <= 7 {
        return tabR0R7[reg];
      } else if reg <= 12 {
        return if mode == FIQ then tabR8R12[reg - 8, 1] else tabR8R12[reg - 8, 0];
      } else if reg == 13 || reg == 14 {
        match mode
        case 0x10 => return tabR13R14[reg - 13, 0];
        case 0x1f => return tabR13R14[reg - 13, 0];
        case 0x11 => return tabR13R14[reg - 13, 1];
        case 0x12 => return tabR13R14[reg - 13, 2];
        case 0x13 => return tabR13R14[reg - 13, 3];
        case 0x1b => return tabR13R14[reg - 13, 4];
        case 0x17 => return tabR13R14[reg - 13, 5];
        case _ =>
      }
      v := MAX32;
    }

    method Write(reg: nat, mode: byte, value: word)
      requires Valid()
      modifies this`pc, tabR0R7, tabR8R12, tabR13R14
      ensures File() == WriteBank(old(File()), reg, mode, value)
    {
      if reg == 15 {
        pc := value;
      }
      if reg < 8 {
        tabR0R7[reg] := value;
      } else if 8 <= reg <= 12 {
        if mode == FIQ {
          tabR8R12[reg - 8, 1] := value;
        } else {
          tabR8R12[reg - 8, 0] := value;
        }
      } else if reg == 13 || reg == 14 {
        match mode
        case 0x10 => tabR13R14[reg - 13, 0] := value;
        case 0x1f => tabR13R14[reg - 13, 0] := value;
        case 0x11 => tabR13R14[reg - 13, 1] := value;
        case 0x12 => tabR13R14[reg - 13, 2] := value;
        case 0x13 => tabR13R14[reg - 13, 3] := value;
        case 0x1b => tabR13R14[reg - 13, 4] := value;
        case 0x17 => tabR13R14[reg - 13, 5] := value;
        case _ =>
      }
    }

    method ReadSpsr(mode: byte) returns (v: word)
      requires Valid()
      ensures v == if SpsrBank(mode) < 0 then MAX32 else spsr[SpsrBank(mode)]
    {
      if mode == USR || mode == SYS {
        return MAX32;
      }
      match mode
      case 0x13 => return spsr[2];
      case 0x11 => return spsr[0];
      case 0x17 => return spsr[3];
      case 0x1b => return spsr[4];
      case 0x12 => return spsr[1];
      case _ => return MAX32;
    }

    method WriteSpsr(mode: byte, value: word)
      requires Valid()
      modifies spsr
      ensures spsr[..] == if SpsrBank(mode) < 0 then old(spsr[..]) else old(spsr[..])[SpsrBank(mode) := value]
    {
      match mode
      case 0x11 => spsr[0] := value;
      case 0x12 => spsr[1] := value;
      case 0x13 => spsr[2] := value;
      case 0x17 => spsr[3] := value;
      case 0x1b => spsr[4] := value;
      case _ =>
    }

    method WriteCpsr(value: word)
      modifies this`cpsr, this`currentMode
      ensures cpsr == value && currentMode == ModeOf(value)
    {
      cpsr := value;
      currentMode := ModeOf(cpsr);
    }
  }
}

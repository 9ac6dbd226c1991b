/**
 The processor object (arm_core.c): accesses to the registers of the current mode and to memory.
 */
module Core {
  import opened Words
  import opened Mem
  import opened Reg
  import opened Machine

  predicate Expand(k: nat) { true }

  class ArmCore {
    var cycleCount: word
    const reg: Registers
    const mem: Memory
    const bigEndian: bool
    ghost var state: State

    ghost function Repr(): set<object> {
      {this, mem, mem.data} + reg.Repr()
    }

    ghost function State(): State
      requires reg.Valid() && mem.Valid()
      reads this, reg, mem, mem.data, Repr()
    {
      RawState(reg.File(), reg.spsr[..], reg.cpsr, reg.currentMode, mem.data[..], cycleCount, bigEndian)
    }

    // `state` is the value of the fields.  The quantifier hides the fields from the callers of
    // this class: the solver compares them only where Expand occurs.
    ghost predicate InStep()
      requires reg.Valid() && mem.Valid()
      reads this, reg, mem, mem.data, Repr()
    {
      forall k: nat {:trigger Expand(k)} :: Expand(k) ==> state == State()
    }

    ghost predicate Valid()
      reads this, Repr()
    {
      reg.Valid() && mem.Valid() && mem.data !in reg.Repr() && InStep()
    }

    // arm_create before its reset
    constructor (reg: Registers, mem: Memory, bigEndian: bool)
      requires reg.Valid() && mem.Valid() && mem.data !in reg.Repr()
      ensures Valid() && this.reg == reg && this.mem == mem
      ensures state == RawState(reg.File(), reg.spsr[..], reg.cpsr, reg.currentMode, mem.data[..], 0, bigEndian)
    {
      this.reg := reg;
      this.mem := mem;
      this.bigEndian := bigEndian;
      cycleCount := 0;
      new;
      state := State();
    }

    // registers_read in the current mode
    method RawRead(r: nat) returns (value: word)
      requires Valid()
      ensures Valid() && value == Raw(state, r)
    {
      assert Expand(0);
      value := reg.Read(r, reg.currentMode);
    }

    method ReadRegister(r: nat) returns (value: word)
      requires Valid()
      ensures Valid() && value == Read(state, r)
    {
      assert Expand(0);
      value := reg.Read(r, reg.currentMode);
      if r == 15 {
        ClearBit1(Add(value, 4));
        value := BitAnd(Add(value, 4), 0xFFFF_FFFD);
      }
    }

    method WriteRegister(r: nat, value: word)
      requires Valid()
      modifies Repr()
      ensures Valid() && state == SetReg(old(state), r, value)
    {
      assert Expand(0);
      reg.Write(r, reg.currentMode, value);
      state := State();
    }

    method WriteCpsr(value: word)
      requires Valid()
      modifies Repr()
      ensures Valid() && state == SetCpsr(old(state), value)
    {
      assert Expand(0);
      reg.WriteCpsr(value);
      state := State();
    }

    method ReadCpsr() returns (value: word)
      requires Valid()
      ensures Valid() && value == state.cpsr
    {
      assert Expand(0);
      value := reg.cpsr;
    }

    method CurrentModeHasSpsr() returns (b: bool)
      requires Valid()
      ensures Valid() && (b <==> SpsrBank(state.mode) >= 0)
    {
      assert Expand(0);
      b := reg.HasSpsr();
    }

    // True when no mode is named.
    method InAPrivilegedMode() returns (b: bool)
      requires Valid()
      ensures Valid() && (b <==> state.mode != USR && state.mode != SYS)
    {
      assert Expand(0);
      b := reg.currentMode != USR && reg.currentMode != SYS;
    }

    // memory_get_size
    method MemorySize() returns (n: nat)
      requires Valid()
      ensures Valid() && n == |state.mem|
    {
      assert Expand(0);
      n := mem.data.Length;
    }

    method ReadSpsr() returns (value: word)
      requires Valid()
      ensures Valid() && value == Spsr(state)
    {
      assert Expand(0);
      value := reg.ReadSpsr(reg.currentMode);
    }

    method WriteSpsr(value: word)
      requires Valid()
      modifies Repr()
      ensures Valid() && state == SetSpsr(old(state), value)
    {
      assert Expand(0);
      reg.WriteSpsr(reg.currentMode, value);
      state := State();
    }

    method ReadByte(address: word) returns (r: Option<byte>)
      requires Valid()
      ensures Valid() && r == LoadByte(state.mem, address)
    {
      assert Expand(0);
      r := mem.ReadByte(address);
    }

    method ReadHalf(address: word) returns (r: Option<half>)
      requires Valid()
      ensures Valid() && r == LoadHalf(state.mem, address, state.be)
    {
      assert Expand(0);
      r := mem.ReadHalf(address, bigEndian);
    }

    method ReadWord(address: word) returns (r: Option<word>)
      requires Valid()
      ensures Valid() && r == LoadWord(state.mem, address, state.be)
    {
      assert Expand(0);
      r := mem.ReadWord(address, bigEndian);
    }

    method CountCycle()
      requires Valid()
      modifies this`cycleCount, this`state
      ensures Valid() && state == old(state).(cycles := Add(old(state).cycles, 1))
    {
      assert Expand(0);
      cycleCount := Add(cycleCount, 1);
      state := State();
    }

    method Fetch() returns (r: Option<word>)
      requires Valid()
      modifies Repr()
      ensures Valid() && state == Fetched(old(state))
      ensures r == LoadWord(state.mem, Raw(old(state), 15), state.be)
    {
      assert Expand(0);
      var address := RawRead(15);
      WriteRegister(15, Add(address, 4));
      r := ReadWord(address);
      CountCycle();
    }

    method WriteByte(address: word, value: byte) returns (ok: bool)
      requires Valid()
      modifies Repr()
      ensures Valid() && state == SetMem(old(state), Access.WriteByte(address, value))
      ensures ok <==> address + 1 <= |state.mem|
    {
      assert Expand(0);
      ok := mem.WriteByte(address, value);
      state := State();
    }

    method WriteHalf(address: word, value: half) returns (ok: bool)
      requires Valid() && address != MAX32
      modifies Repr()
      ensures Valid() && state == SetMem(old(state), Access.WriteHalf(address, value, state.be))
      ensures ok <==> address + 2 <= |state.mem|
    {
      assert Expand(0);
      ok := mem.WriteHalf(address, value, bigEndian);
      state := State();
    }

    method WriteWord(address: word, value: word) returns (ok: bool)
      requires Valid()
      modifies Repr()
      ensures Valid() && state == SetMem(old(state), Access.WriteWord(address, value, state.be))
      ensures ok <==> address + 4 <= |state.mem|
    {
      assert Expand(0);
      ok := mem.WriteWord(address, value, bigEndian);
      state := State();
    }
  }
}

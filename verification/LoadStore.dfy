/**
 Loads and stores of one word, byte or half-word (arm_load_store.c, load_store_addressing_operations.c
 and load_store_memory_operations.c).
 */
module LoadStore {
  import opened Words
  import opened Mem
  import opened Reg
  import opened Machine
  import opened Core
  import opened Shifter
  import opened Exceptions

  // ---------- addressing ----------

  // determine_addressing_mode_ldr_str, with the nine modes grouped by what they do to the base.
  datatype Addressing = Undefined | Offset | Indexed

  function AddressingOf(ins: word): (a: Addressing) {
    var p, w := GetBit(ins, 24) == 1, GetBit(ins, 21) == 1;
    if !p && w then Undefined
    else if GetBit(ins, 25) == 1 && GetBits(ins, 11, 4) != 0 && GetBit(ins, 4) == 1 then Undefined
    else if p && !w then Offset
    else Indexed
  }

  predicate IsRegisterOffset(ins: word) { GetBits(ins, 27, 25) == 3 && GetBits(ins, 11, 4) == 0 }

  predicate IsScaledRegisterOffset(ins: word) { GetBits(ins, 27, 25) == 3 && GetBit(ins, 4) == 0 }

  predicate IsImmediateOffset(ins: word) { GetBits(ins, 27, 25) == 2 }

  function ScaledOffset(s: State, ins: word): (o: word) {
    Fields(ins);
    ScaledIndex(Read(s, RegField(ins, 0)), GetBits(ins, 6, 5), GetBits(ins, 11, 7), CFlag(s))
  }

  // The offset that handle_memory_operation picks, in the order of its tests.
  function OffsetOf(s: State, ins: word): (o: Option<word>) {
    if IsRegisterOffset(ins) then Some(Read(s, RegField(ins, 0)))
    else if IsScaledRegisterOffset(ins) then Some(ScaledOffset(s, ins))
    else if IsImmediateOffset(ins) then Some(GetBits(ins, 11, 0))
    else None
  }

  // Every register form gives the index of the architecture (section A5.2), which is the operand
  // of the data-processing shift by the same immediate.  An encoding with [11:4] = 0 passes both
  // the test for a plain register and the test for a scaled one; either path gives this index.
  lemma RegisterOffsetIsShift(s: State, ins: word)
    requires GetBits(ins, 27, 25) == 3 && GetBit(ins, 4) == 0
    ensures ScaledOffset(s, ins)
         == ShiftedByImmediate(KindOf(ins), GetBits(ins, 11, 7), Read(s, RegField(ins, 0)), CFlag(s)).value
    ensures OffsetOf(s, ins) == Some(ScaledOffset(s, ins))
    ensures IsRegisterOffset(ins) ==> ScaledOffset(s, ins) == Read(s, RegField(ins, 0))
  {
    Fields(ins);
    ScaledIndexIsShift(Read(s, RegField(ins, 0)), GetBits(ins, 6, 5), GetBits(ins, 11, 7), CFlag(s));
  }

  function AddressFrom(base: word, offset: word, up: bool): (a: word) {
    if up then Add(base, offset) else Sub(base, offset)
  }

  // ---------- one access ----------

  function FailUnless(ok: bool): (r: int) { if ok then 0 else -1 }

  // process_memory_access
  function OneAccess(s: State, address: word, load: bool, isByte: bool, rd: nat): (r: (State, int)) {
    if !load then
      var w := if isByte then WriteByte(address, Read(s, rd) % 0x100) else WriteWord(address, Read(s, rd), s.be);
      (SetMem(s, w), FailUnless(w.Fits(s.mem)))
    else if isByte then
      var v := LoadByte(s.mem, address);
      if v.Some? then (SetReg(s, rd, v.value), 0) else (s, -1)
    else
      var v := LoadWord(s.mem, address, s.be);
      if v.Some? then (SetReg(s, rd, v.value), 0) else (s, -1)
  }

  // process_memory_access_half
  function AccessHalf(s: State, address: word, load: bool, rd: nat): (r: (State, int)) {
    if !load then
      var w := WriteHalf(address, Read(s, rd) % 0x1_0000, s.be);
      (SetMem(s, w), FailUnless(w.Fits(s.mem)))
    else
      var v := LoadHalf(s.mem, address, s.be);
      if v.Some? then (SetReg(s, rd, v.value), 0) else (s, -1)
  }

  // What is left of a register value in an access of the given width.
  function Narrow(v: word, width: nat): (r: word) {
    if width == 1 then v % 0x100 else if width == 2 then v % 0x1_0000 else v
  }

  // Either the store is refused and nothing changes, or a load of the same width from the same
  // address gives any register what the store kept of the other, extended with zeros; and only
  // the bytes of the access change.
  lemma StoreThenLoad(s: State, address: word, isByte: bool, rd: nat, rd2: nat, k: nat)
    requires rd2 < 16 && IsMode(s.mode) && k < |s.mem|
    ensures var (s1, r1) := OneAccess(s, address, false, isByte, rd);
            var (s2, r2) := OneAccess(s1, address, true, isByte, rd2);
            var width := if isByte then 1 else 4;
            && r1 == r2 == FailUnless(address + width <= |s.mem|)
            && s1 == s.(mem := s1.mem)
            && (r1 == 0 ==> Raw(s2, rd2) == Narrow(Read(s, rd), width))
            && (r1 != 0 || !(address <= k < address + width) ==> s1.mem[k] == s.mem[k])
  {
    var w := if isByte then WriteByte(address, Read(s, rd) % 0x100) else WriteWord(address, Read(s, rd), s.be);
    StoreAt(s.mem, w, k);
    if w.Fits(s.mem) {
      if isByte {
        StoreAt(s.mem, w, address);
      } else {
        WordReadBack(s.mem, address, Read(s, rd), s.be, s.be);
      }
      ReadAfterWrite(s.file, rd2, s.mode, Narrow(Read(s, rd), if isByte then 1 else 4), rd2, s.mode);
    }
  }

  lemma StoreThenLoadHalf(s: State, address: word, rd: nat, rd2: nat, k: nat)
    requires rd2 < 16 && IsMode(s.mode) && k < |s.mem|
    ensures var (s1, r1) := AccessHalf(s, address, false, rd);
            var (s2, r2) := AccessHalf(s1, address, true, rd2);
            && r1 == r2 == FailUnless(address + 2 <= |s.mem|)
            && s1 == s.(mem := s1.mem)
            && (r1 == 0 ==> Raw(s2, rd2) == Narrow(Read(s, rd), 2))
            && (r1 != 0 || !(address <= k < address + 2) ==> s1.mem[k] == s.mem[k])
  {
    var h := Read(s, rd) % 0x1_0000;
    StoreAt(s.mem, WriteHalf(address, h, s.be), k);
    if address + 2 <= |s.mem| {
      HalfReadBack(s.mem, address, h, s.be, s.be);
      ReadAfterWrite(s.file, rd2, s.mode, h, rd2, s.mode);
    }
  }

  // Pre- and post-indexed forms write the address to the base before the access, and both access
  // that address.
  function Indexing(s: State, rn: nat, address: word, a: Addressing): (s': State) {
    if a == Indexed then SetReg(s, rn, address) else s
  }

  function SingleTransfer(s: State, ins: word): (r: (State, int)) {
    var a, rn := AddressingOf(ins), RegField(ins, 16);
    if a == Undefined then (s, UNDEFINED_INSTRUCTION)
    else
      var o := OffsetOf(s, ins);
      if o.None? then (s, -1)
      else
        var address := AddressFrom(Read(s, rn), o.value, GetBit(ins, 23) == 1);
        OneAccess(Indexing(s, rn, address, a), address, GetBit(ins, 20) == 1, GetBit(ins, 22) == 1, RegField(ins, 12))
  }

  // A post-indexed form accesses the updated address, where the architecture accesses the base.
  // The two are the same address exactly when the offset is zero.
  lemma PostIndexedAccess(s: State, ins: word)
    requires AddressingOf(ins) == Indexed && GetBit(ins, 24) == 0 && OffsetOf(s, ins).Some?
    ensures var rn, offset := RegField(ins, 16), OffsetOf(s, ins).value;
            var base: int := Read(s, rn);
            var address := (if GetBit(ins, 23) == 1 then base + offset else base - offset) % 0x1_0000_0000;
            && SingleTransfer(s, ins) == OneAccess(SetReg(s, rn, address), address, GetBit(ins, 20) == 1,
                                                   GetBit(ins, 22) == 1, RegField(ins, 12))
            && (address == Read(s, rn) <==> offset == 0)
  {
  }

  // handle_ldrh_strh: its scaled forms have no handler.
  function HalfOffsetOf(s: State, ins: word): (o: Option<word>) {
    if GetBit(ins, 25) == 0 then Some(0x10 * RegField(ins, 8) + RegField(ins, 0))
    else if GetBits(ins, 11, 4) == 0 then Some(Read(s, RegField(ins, 0)))
    else None
  }

  function HalfTransfer(s: State, ins: word): (r: (State, int)) {
    var a, rn, o := AddressingOf(ins), RegField(ins, 16), HalfOffsetOf(s, ins);
    if a == Undefined || o.None? then (s, UNDEFINED_INSTRUCTION)
    else
      var address := AddressFrom(Read(s, rn), o.value, GetBit(ins, 23) == 1);
      AccessHalf(Indexing(s, rn, address, a), address, GetBit(ins, 20) == 1, RegField(ins, 12))
  }

  // arm_load_store
  function LoadOrStore(s: State, ins: word): (r: (State, int)) {
    var kind := GetBits(ins, 27, 26);
    if kind == 1 then SingleTransfer(s, ins)
    else if kind == 0 then HalfTransfer(s, ins)
    else (s, UNDEFINED_INSTRUCTION)
  }

  // ---------- the implementation ----------

  method ReadOffset(p: ArmCore, ins: word) returns (o: Option<word>)
    requires p.Valid()
    ensures o == OffsetOf(p.state, ins)
  {
    if IsRegisterOffset(ins) {
      var rm := p.ReadRegister(RegField(ins, 0));
      o := Some(rm);
    } else if IsScaledRegisterOffset(ins) {
      var rm := p.ReadRegister(RegField(ins, 0));
      Fields(ins);
      var cpsr := p.ReadCpsr();
      o := Some(ScaledIndex(rm, GetBits(ins, 6, 5), GetBits(ins, 11, 7), GetBit(cpsr, C_BIT)));
    } else if IsImmediateOffset(ins) {
      o := Some(GetBits(ins, 11, 0));
    } else {
      o := None;
    }
  }

  method ProcessMemoryAccess(p: ArmCore, address: word, load: bool, isByte: bool, rd: nat) returns (r: int)
    requires p.Valid()
    modifies p.Repr()
    ensures p.Valid() && (p.state, r) == OneAccess(old(p.state), address, load, isByte, rd)
  {
    if !load {
      var value := p.ReadRegister(rd);
      var ok;
      if !isByte {
        ok := p.WriteWord(address, value);
      } else {
        ok := p.WriteByte(address, value % 0x100);
      }
      r := FailUnless(ok);
    } else if !isByte {
      var v := p.ReadWord(address);
      if v.Some? {
        p.WriteRegister(rd, v.value);
      }
      r := FailUnless(v.Some?);
    } else {
      var v := p.ReadByte(address);
      if v.Some? {
        p.WriteRegister(rd, v.value);
      }
      r := FailUnless(v.Some?);
    }
  }

  method HandleMemoryOperation(p: ArmCore, ins: word, a: Addressing) returns (r: int)
    requires p.Valid() && a == AddressingOf(ins) != Undefined
    modifies p.Repr()
    ensures p.Valid() && (p.state, r) == SingleTransfer(old(p.state), ins)
  {
    var offset := ReadOffset(p, ins);
    if offset.None? {
      return -1;
    }
    var base := p.ReadRegister(RegField(ins, 16));
    var address := AddressFrom(base, offset.value, GetBit(ins, 23) == 1);
    if a == Indexed {
      p.WriteRegister(RegField(ins, 16), address);
    }
    r := ProcessMemoryAccess(p, address, GetBit(ins, 20) == 1, GetBit(ins, 22) == 1, RegField(ins, 12));
  }

  // A store at 2^32-1 passes the bounds check in C and writes outside the array; it is taken as
  // rejected here.
  method ProcessMemoryAccessHalf(p: ArmCore, address: word, load: bool, rd: nat) returns (r: int)
    requires p.Valid()
    modifies p.Repr()
    ensures p.Valid() && (p.state, r) == AccessHalf(old(p.state), address, load, rd)
  {
    if !load {
      var value := p.ReadRegister(rd);
      if address == MAX32 {
        return -1;
      }
      var ok := p.WriteHalf(address, value % 0x1_0000);
      r := FailUnless(ok);
    } else {
      var v := p.ReadHalf(address);
      if v.Some? {
        p.WriteRegister(rd, v.value);
      }
      r := FailUnless(v.Some?);
    }
  }

  lemma HalfOffset(high: word, low: word)
    requires high < 16 && low < 16
    ensures BitOr(Shl(high, 4), low) == 0x10 * high + low
  {
    assert Shl(high, 4) == Up(high, 4) == 0x10 * high by {
      assert Pow2(4) == 16;
      UpIsTimes(high, 4);
    }
    assert Pow2(4) == 16;
    OrSplit(high, low, 4);
    OrCommutes(low, 0x10 * high);
  }

  method ReadHalfOffset(p: ArmCore, ins: word) returns (o: Option<word>)
    requires p.Valid()
    ensures o == HalfOffsetOf(p.state, ins)
  {
    if GetBit(ins, 25) == 0 {
      HalfOffset(RegField(ins, 8), RegField(ins, 0));
      o := Some(BitOr(Shl(RegField(ins, 8), 4), RegField(ins, 0)));
    } else if GetBits(ins, 11, 4) == 0 {
      var rm := p.ReadRegister(RegField(ins, 0));
      o := Some(rm);
    } else {
      o := None;
    }
  }

  method HandleLdrhStrh(p: ArmCore, ins: word) returns (r: int)
    requires p.Valid()
    modifies p.Repr()
    ensures p.Valid() && (p.state, r) == HalfTransfer(old(p.state), ins)
  {
    var a := AddressingOf(ins);
    var offset := ReadHalfOffset(p, ins);
    if a == Undefined || offset.None? {
      return UNDEFINED_INSTRUCTION;
    }
    var base := p.ReadRegister(RegField(ins, 16));
    var address := AddressFrom(base, offset.value, GetBit(ins, 23) == 1);
    if a == Indexed {
      p.WriteRegister(RegField(ins, 16), address);
    }
    r := ProcessMemoryAccessHalf(p, address, GetBit(ins, 20) == 1, RegField(ins, 12));
  }

  method ArmLoadStore(p: ArmCore, ins: word) returns (r: int)
    requires p.Valid()
    modifies p.Repr()
    ensures p.Valid() && (p.state, r) == LoadOrStore(old(p.state), ins)
  {
    if GetBits(ins, 27, 26) == 1 {
      var a := AddressingOf(ins);
      if a == Undefined {
        r := UNDEFINED_INSTRUCTION;
      } else {
        r := HandleMemoryOperation(p, ins, a);
      }
    } else if GetBits(ins, 27, 26) == 0 {
      r := HandleLdrhStrh(p, ins);
    } else {
      r := UNDEFINED_INSTRUCTION;
    }
  }
}

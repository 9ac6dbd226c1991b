/**
 Data-processing instructions (arm_data_processing.c) with the shifter operand in front of them
 (carry and nzc_shifftercarry_update in arm_data_processing_functions.c).
 */
module DataProcessing {
  import opened Words
  import opened Mem
  import opened Reg
  import opened Machine
  import opened Core
  import opened Shifter
  import opened Exceptions

  // ---------- flags ----------

  // N, Z and C come from the result; V and the other bits are kept.
  function PutNzc(cpsr: word, result: word, c: word): (r: word)
    requires c < 2
  {
    cpsr % 0x2000_0000 + (if result >= 0x8000_0000 then 0x8000_0000 else 0)
    + (if result == 0 then 0x4000_0000 else 0) + 0x2000_0000 * c
  }

  function PutV(cpsr: word, v: bool): (r: word) {
    var top := cpsr / 0x1000_0000;
    0x1000_0000 * (top - top % 2 + (if v then 1 else 0)) + cpsr % 0x1000_0000
  }

  // ---------- one instruction ----------

  // The flag part of an instruction: a carry, and for the arithmetic ones an overflow.
  datatype FlagUpdate = NoFlags | Nzc(c: word) | Nzcv(c: word, v: bool)

  function UpdateFlags(s: State, result: word, f: FlagUpdate): (s': State)
    requires f != NoFlags && f.c < 2
  {
    var cpsr := PutNzc(s.cpsr, result, f.c);
    SetCpsr(s, if f.Nzcv? then PutV(cpsr, f.v) else cpsr)
  }

  // Write-back and flags.  The source tells the pc by its value: when the destination reads the
  // same as the pc, the saved status is restored instead of setting the flags.
  function Retire(s: State, rd: nat, result: word, f: FlagUpdate): (r: (State, int))
    requires f.NoFlags? || f.c < 2
    ensures r.1 == 0 || r.1 == UNDEFINED_INSTRUCTION
  {
    var s := SetReg(s, rd, result);
    if f.NoFlags? then (s, 0)
    else if Read(s, rd) == Read(s, 15) then
      if SpsrBank(s.mode) >= 0 then (SetCpsr(s, Spsr(s)), 0) else (s, UNDEFINED_INSTRUCTION)
    else (UpdateFlags(s, result, f), 0)
  }

  // The saved status is restored (or its lack reported) although the destination is not the pc
  // exactly when the result is what the pc reads as.
  lemma TakenForPc(s: State, rd: nat, result: word, f: FlagUpdate)
    requires rd < 15 && IsMode(s.mode) && f != NoFlags && f.c < 2
    ensures var s2 := SetReg(s, rd, result);
            Retire(s, rd, result, f) == if result != Read(s, 15) then (UpdateFlags(s2, result, f), 0)
                                        else if SpsrBank(s.mode) >= 0 then (SetCpsr(s2, Spsr(s)), 0)
                                        else (s2, UNDEFINED_INSTRUCTION)
  {
    ReadAfterWrite(s.file, rd, s.mode, result, rd, s.mode);
    ReadAfterWrite(s.file, rd, s.mode, result, 15, s.mode);
  }

  predicate Negative(x: word) { x >= 0x8000_0000 }

  function Borrow(result: word, a: word): (c: word) { if result > a then 1 else 0 }

  function AddFlags(a: word, result: word): (f: FlagUpdate) {
    Nzcv(if result < a then 1 else 0, !Negative(a) && Negative(result))
  }

  function SubFlags(a: word, result: word): (f: FlagUpdate) {
    Nzcv(Borrow(result, a), Negative(a) && !Negative(result))
  }

  function If(setCond: bool, f: FlagUpdate): (f': FlagUpdate) {
    if setCond then f else NoFlags
  }

  function AddTo(s: State, a: word, b: word, rd: nat, setCond: bool): (r: (State, int)) {
    Retire(s, rd, Add(a, b), If(setCond, AddFlags(a, Add(a, b))))
  }

  function AdcTo(s: State, a: word, b: word, c: word, rd: nat, setCond: bool): (r: (State, int)) {
    var first := AddTo(s, a, b, rd, setCond);
    if first.1 == 0 then AddTo(first.0, Read(first.0, rd), c, rd, setCond) else first
  }

  function Execute(s: State, op: nat, a: word, o: Operand, rd: nat, setCond: bool): (r: (State, int))
    requires o.carry < 2
  {
    var b, c := o.value, o.carry;
    match op
    case 0 => Retire(s, rd, BitAnd(a, b), If(setCond, Nzc(c)))
    case 1 => Retire(s, rd, BitXor(a, b), If(setCond, Nzc(c)))
    case 2 => Retire(s, rd, Sub(a, b), If(setCond, SubFlags(a, Sub(a, b))))
    case 3 =>
      var result := Sub(b, a);
      var v := Negative(b) && !Negative(result);
      Retire(s, rd, result, If(setCond, Nzcv(if v then 0 else 1, v)))
    case 4 => AddTo(s, a, b, rd, setCond)
    case 5 => AdcTo(s, a, b, c, rd, setCond)
    case 6 =>
      var result := Sub(a, b + 1 - c);
      Retire(s, rd, result, If(setCond, SubFlags(a, result)))
    case 7 =>
      var result := Sub(b, a + 1 - c);
      Retire(s, rd, result, If(setCond, SubFlags(a, result)))
    case 8 => (UpdateFlags(s, BitAnd(a, b), Nzc(c)), 0)
    case 9 =>
      var first := Retire(s, rd, BitXor(a, b), Nzc(c));
      (UpdateFlags(first.0, first.1, Nzc(c)), 0)
    case 10 => (UpdateFlags(s, Sub(a, b), SubFlags(a, Sub(a, b))), 0)
    case 11 => (UpdateFlags(s, Add(a, b), AddFlags(a, Add(a, b))), 0)
    case 12 => Retire(s, rd, BitOr(a, b), If(setCond, Nzc(c)))
    case 13 => Retire(s, rd, b, If(setCond, Nzc(c)))
    case 14 =>
      var result := BitAnd(a, BitNot(b));
      Retire(s, rd, result, If(setCond, Nzc(GetBit(result, 28))))
    case 15 => Retire(s, rd, BitNot(b), If(setCond, Nzc(c)))
    case _ => (s, UNDEFINED_INSTRUCTION)
  }

  function OperandOf(s: State, ins: word): (o: Operand)
    ensures o.carry < 2
  {
    CarryOperand(ins, Read(s, RegField(ins, 0)), Read(s, RegField(ins, 8)), CFlag(s))
  }

  function DataProcess(s: State, ins: word): (r: (State, int)) {
    Execute(s, GetBits(ins, 24, 21), Read(s, RegField(ins, 16)), OperandOf(s, ins), RegField(ins, 12),
            GetBit(ins, 20) == 1)
  }

  // ---------- the implementation ----------

  // carry(): each test may overwrite what an earlier one computed.
  method Carry(p: ArmCore, ins: word) returns (r: Operand)
    requires p.Valid()
    ensures r == OperandOf(p.state, ins)
    ensures Dispatched(ins) ==>
      r == ShifterOperand(ins, Read(p.state, RegField(ins, 0)), Read(p.state, RegField(ins, 8)), CFlag(p.state))
  {
    if Dispatched(ins) {
      CarryIsShifterOperand(ins, Read(p.state, RegField(ins, 0)), Read(p.state, RegField(ins, 8)), CFlag(p.state));
    }
    var cpsr := p.ReadCpsr();
    var c := GetBit(cpsr, C_BIT);
    Fields(ins);
    if GetBit(ins, 25) == 1 {
      r := Immediate(GetBits(ins, 7, 0), GetBits(ins, 11, 8), c);
    } else {
      var rm := p.ReadRegister(RegField(ins, 0));
      var rs := p.ReadRegister(RegField(ins, 8));
      var amount := if GetBit(ins, 4) == 1 then rs else GetBits(ins, 11, 7);
      r := CarryByFields(GetBits(ins, 6, 4), GetBits(ins, 7, 4), GetBits(ins, 11, 4), rm, amount, c,
                         GetBit(ins, 4) == 1, GetBits(ins, 6, 5), GetBit(ins, 7), GetBits(ins, 11, 7));
    }
  }

  lemma FlagShifts(x: word)
    requires x < 4
    ensures Shl(x, 3) == Up(x, 3) == 8 * x && Shl(x, 2) == Up(x, 2) == 4 * x && Shl(x, 1) == Up(x, 1) == 2 * x
  {
    assert Up(x, 1) == 2 * Up(x, 0) == 2 * x;
    assert Up(x, 2) == 2 * Up(x, 1);
    assert Up(x, 3) == 2 * Up(x, 2);
  }

  lemma JoinFlag(h: nat, l: nat, k: nat, p: nat)
    requires p == Pow2(k) && l < p
    ensures Up(h, k) >= 0 && Or(Up(h, k), l) == Up(h, k) + l
  {
    OrSplit(h, l, k);
    OrCommutes(Up(h, k), l);
  }

  lemma FlagBits(n: word, z: word, c: word)
    requires n < 2 && z < 2 && c < 2
    ensures BitOr(BitOr(Shl(n, 3), Shl(z, 2)), Shl(c, 1)) == 8 * n + 4 * z + 2 * c
  {
    var nz := 2 * n + z;
    assert BitOr(Shl(n, 3), Shl(z, 2)) == Up(nz, 2) by {
      FlagShifts(n);
      FlagShifts(z);
      JoinFlag(n, 4 * z, 3, 8);
      FlagShifts(nz);
    }
    assert Up(nz, 2) == 4 * nz && Shl(c, 1) == 2 * c by {
      FlagShifts(nz);
      FlagShifts(c);
    }
    JoinFlag(nz, 2 * c, 2, 4);
  }

  lemma Pow2At28()
    ensures Pow2(28) == 0x1000_0000 && Pow2(29) == 0x2000_0000
  {
    Pow2Bytes();
    assert Pow2(28) == 0x1000_0000;
  }

  lemma OrAbove29(low: word, half: nat, placed: word)
    requires low < 0x2000_0000 && placed == 0x2000_0000 * half
    ensures BitOr(low, placed) == low + placed
  {
    Pow2At28();
    UpIsTimes(half, 29);
    OrSplit(half, low, 29);
  }

  lemma Low29(x: word)
    ensures And(x, 0x1FFF_FFFF) == x % 0x2000_0000
  {
    Pow2At28();
    AndLow(x, 29, 0x1FFF_FFFF);
    HighLowAreDivMod(x, 29);
  }

  lemma ShlFlags(flags: word)
    requires flags < 16
    ensures Shl(flags, 28) == 0x1000_0000 * flags
  {
    Pow2At28();
    UpIsTimes(flags, 28);
  }

  lemma FlagsInPlace(cpsr: word, flags: word, half: nat)
    requires flags == 2 * half < 16
    ensures BitOr(BitAnd(cpsr, 0x1FFF_FFFF), Shl(flags, 28)) == cpsr % 0x2000_0000 + 0x1000_0000 * flags
  {
    var low, placed := cpsr % 0x2000_0000, 0x1000_0000 * flags;
    assert BitAnd(cpsr, 0x1FFF_FFFF) == low by {
      Low29(cpsr);
    }
    assert Shl(flags, 28) == placed by {
      ShlFlags(flags);
    }
    OrAbove29(low, half, placed);
  }

  lemma NzcPlaced(cpsr: word, n: word, z: word, c: word)
    requires n < 2 && z < 2 && c < 2
    ensures BitOr(BitAnd(cpsr, 0x1FFF_FFFF), Shl(BitOr(BitOr(Shl(n, 3), Shl(z, 2)), Shl(c, 1)), 28))
         == cpsr % 0x2000_0000 + 0x8000_0000 * n + 0x4000_0000 * z + 0x2000_0000 * c
  {
    FlagBits(n, z, c);
    FlagsInPlace(cpsr, 8 * n + 4 * z + 2 * c, 4 * n + 2 * z + c);
  }

  lemma NzcMasks(cpsr: word, result: word, c: word)
    requires c < 2
    ensures var n, z := GetBit(result, 31), if result == 0 then 1 else 0;
            var flags := BitOr(BitOr(Shl(n, 3), Shl(z, 2)), Shl(c, 1));
            BitOr(BitAnd(cpsr, 0x1FFF_FFFF), Shl(flags, 28)) == PutNzc(cpsr, result, c)
  {
    TopBit(result);
    NzcPlaced(cpsr, GetBit(result, 31), if result == 0 then 1 else 0, c);
  }

  lemma ClearBit28(x: word)
    ensures var top := x / 0x1000_0000;
            And(x, 0xEFFF_FFFF) == 0x1000_0000 * (top - top % 2) + x % 0x1000_0000
  {
    Pow2At28();
    Pow2At32();
    AndWithoutBit(x, 28, 32, 0xEFFF_FFFF);
    HighLowAreDivMod(x, 28);
  }

  lemma OrBit28(q: nat, r: nat)
    requires q % 2 == 0 && r < 0x1000_0000
    ensures Or(0x1000_0000 * q + r, 0x1000_0000) == 0x1000_0000 * (q + 1) + r
  {
    Pow2At28();
    UpIsTimes(q, 28);
    JoinParts(q, r, 28);
    OrBit(0x1000_0000 * q + r, 28, 0x1000_0000);
  }

  lemma VMasks(cpsr: word, v: bool)
    ensures BitOr(BitAnd(cpsr, 0xEFFF_FFFF), Shl(if v then 1 else 0, 28)) == PutV(cpsr, v)
  {
    var top, r := cpsr / 0x1000_0000, cpsr % 0x1000_0000;
    var kept := 0x1000_0000 * (top - top % 2) + r;
    assert BitAnd(cpsr, 0xEFFF_FFFF) == kept by {
      ClearBit28(cpsr);
    }
    ShlFlags(if v then 1 else 0);
    if v {
      OrBit28(top - top % 2, r);
    } else {
      OrZero(kept);
      OrCommutes(kept, 0);
    }
  }

  method UpdateNzc(p: ArmCore, result: word, c: word)
    requires p.Valid() && c < 2
    modifies p.Repr()
    ensures p.Valid() && p.state == SetCpsr(old(p.state), PutNzc(old(p.state).cpsr, result, c))
  {
    var cpsr := p.ReadCpsr();
    NzcMasks(cpsr, result, c);
    var n, z := GetBit(result, 31), if result == 0 then 1 else 0;
    var flags := BitOr(BitOr(Shl(n, 3), Shl(z, 2)), Shl(c, 1));
    p.WriteCpsr(BitOr(BitAnd(cpsr, 0x1FFF_FFFF), Shl(flags, 28)));
  }

  method UpdateV(p: ArmCore, v: bool)
    requires p.Valid()
    modifies p.Repr()
    ensures p.Valid() && p.state == SetCpsr(old(p.state), PutV(old(p.state).cpsr, v))
  {
    var cpsr := p.ReadCpsr();
    VMasks(cpsr, v);
    p.WriteCpsr(BitOr(BitAnd(cpsr, 0xEFFF_FFFF), Shl(if v then 1 else 0, 28)));
  }

  method SetFlags(p: ArmCore, result: word, f: FlagUpdate)
    requires p.Valid() && f != NoFlags && f.c < 2
    modifies p.Repr()
    ensures p.Valid() && p.state == UpdateFlags(old(p.state), result, f)
  {
    UpdateNzc(p, result, f.c);
    if f.Nzcv? {
      UpdateV(p, f.v);
    }
  }

  method RestoreStatus(p: ArmCore) returns (r: int)
    requires p.Valid()
    modifies p.Repr()
    ensures p.Valid()
    ensures if SpsrBank(old(p.state).mode) >= 0 then r == 0 && p.state == SetCpsr(old(p.state), Spsr(old(p.state)))
            else r == UNDEFINED_INSTRUCTION && p.state == old(p.state)
  {
    var banked := p.CurrentModeHasSpsr();
    if !banked {
      return UNDEFINED_INSTRUCTION;
    }
    var spsr := p.ReadSpsr();
    p.WriteCpsr(spsr);
    r := 0;
  }

  // What and, eor, sub, rsb, add, sbc, rsc, orr, mov and bic do with their result.
  method WriteResult(p: ArmCore, rd: nat, result: word, f: FlagUpdate) returns (r: int)
    requires p.Valid() && (f.NoFlags? || f.c < 2)
    modifies p.Repr()
    ensures p.Valid() && (p.state, r) == Retire(old(p.state), rd, result, f)
    ensures r == 0 || r == UNDEFINED_INSTRUCTION
  {
    p.WriteRegister(rd, result);
    r := 0;
    if !f.NoFlags? {
      var d := p.ReadRegister(rd);
      var pc := p.ReadRegister(15);
      if d == pc {
        r := RestoreStatus(p);
      } else {
        SetFlags(p, result, f);
      }
    }
  }

  method AddInto(p: ArmCore, a: word, b: word, rd: nat, setCond: bool) returns (r: int)
    requires p.Valid()
    modifies p.Repr()
    ensures p.Valid() && (p.state, r) == AddTo(old(p.state), a, b, rd, setCond)
  {
    var result := Add(a, b);
    r := WriteResult(p, rd, result, If(setCond, AddFlags(a, result)));
  }

  // adc: two additions, the second on what the first wrote
  method AddWithCarry(p: ArmCore, a: word, b: word, c: word, rd: nat, setCond: bool) returns (r: int)
    requires p.Valid()
    modifies p.Repr()
    ensures p.Valid() && (p.state, r) == AdcTo(old(p.state), a, b, c, rd, setCond)
  {
    r := AddInto(p, a, b, rd, setCond);
    if r == 0 {
      var first := p.ReadRegister(rd);
      r := AddInto(p, first, c, rd, setCond);
    }
  }

  // sub, rsb, add, adc, sbc and rsc
  method Arithmetic(p: ArmCore, op: nat, a: word, o: Operand, rd: nat, setCond: bool) returns (r: int)
    requires p.Valid() && o.carry < 2 && 2 <= op < 8
    modifies p.Repr()
    ensures p.Valid() && (p.state, r) == Execute(old(p.state), op, a, o, rd, setCond)
  {
    var b, c := o.value, o.carry;
    if op == 2 {
      var result := Sub(a, b);
      r := WriteResult(p, rd, result, If(setCond, SubFlags(a, result)));
    } else if op == 3 {
      var result := Sub(b, a);
      var v := Negative(b) && !Negative(result);
      r := WriteResult(p, rd, result, If(setCond, Nzcv(if v then 0 else 1, v)));
    } else if op == 4 {
      r := AddInto(p, a, b, rd, setCond);
    } else if op == 5 {
      r := AddWithCarry(p, a, b, c, rd, setCond);
    } else {
      var result := if op == 6 then Sub(a, b as int + 1 - c) else Sub(b, a as int + 1 - c);
      r := WriteResult(p, rd, result, If(setCond, SubFlags(a, result)));
    }
  }

  // tst, teq, cmp and cmn; teq calls eor and tests what that returns
  method Compare(p: ArmCore, op: nat, a: word, o: Operand, rd: nat, setCond: bool) returns (r: int)
    requires p.Valid() && o.carry < 2 && 8 <= op < 12
    modifies p.Repr()
    ensures p.Valid() && (p.state, r) == Execute(old(p.state), op, a, o, rd, setCond)
  {
    var b, c := o.value, o.carry;
    if op == 8 {
      SetFlags(p, BitAnd(a, b), Nzc(c));
    } else if op == 9 {
      var first := WriteResult(p, rd, BitXor(a, b), Nzc(c));
      SetFlags(p, first, Nzc(c));
    } else if op == 10 {
      var result := Sub(a, b);
      SetFlags(p, result, SubFlags(a, result));
    } else {
      var result := Add(a, b);
      SetFlags(p, result, AddFlags(a, result));
    }
    r := 0;
  }

  method Dispatch(p: ArmCore, op: nat, a: word, o: Operand, rd: nat, setCond: bool) returns (r: int)
    requires p.Valid() && o.carry < 2
    modifies p.Repr()
    ensures p.Valid() && (p.state, r) == Execute(old(p.state), op, a, o, rd, setCond)
  {
    var b, c := o.value, o.carry;
    if op == 0 {
      r := WriteResult(p, rd, BitAnd(a, b), If(setCond, Nzc(c)));
    } else if op == 1 {
      r := WriteResult(p, rd, BitXor(a, b), If(setCond, Nzc(c)));
    } else if op < 8 {
      r := Arithmetic(p, op, a, o, rd, setCond);
    } else if op < 12 {
      r := Compare(p, op, a, o, rd, setCond);
    } else if op == 12 {
      r := WriteResult(p, rd, BitOr(a, b), If(setCond, Nzc(c)));
    } else if op == 13 {
      r := WriteResult(p, rd, b, If(setCond, Nzc(c)));
    } else if op == 14 {
      var result := BitAnd(a, BitNot(b));
      r := WriteResult(p, rd, result, If(setCond, Nzc(GetBit(result, 28))));
    } else if op == 15 {
      r := WriteResult(p, rd, BitNot(b), If(setCond, Nzc(c)));
    } else {
      r := UNDEFINED_INSTRUCTION;
    }
  }

  method ArmDataProcessingShift(p: ArmCore, ins: word) returns (r: int)
    requires p.Valid()
    modifies p.Repr()
    ensures p.Valid() && (p.state, r) == DataProcess(old(p.state), ins)
  {
    var a := p.ReadRegister(RegField(ins, 16));
    var o := Carry(p, ins);
    r := Dispatch(p, GetBits(ins, 24, 21), a, o, RegField(ins, 12), GetBit(ins, 20) == 1);
  }
}

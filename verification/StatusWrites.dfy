/**
 Immediate writes of the status registers (arm_data_processing.c:324-397).
 */
module StatusWrites {
  import opened Words
  import opened Mem
  import opened Reg
  import opened Machine
  import opened Core
  import opened Exceptions

  // ---------- what an instruction does ----------

  lemma ShiftedByte(b: byte, n: nat)
    ensures 0 <= High(b, n) < 0x100
  {
    HighRange(b, n);
  }

  // The operand of an immediate MSR: the low byte moved down.  The field [11:8] rotates it by
  // single places, and what goes round does not fit the byte variable that holds the result.
  function MsrOperand(ins: word): (operand: byte)
  {
    ShiftedByte(ins % 0x100, RegField(ins, 8));
    High(ins % 0x100, RegField(ins, 8))
  }

  // In C the old status is masked with `!mask`, which is 0 or 1, so of it at most bit 0 survives;
  // of the operand, a byte, the mask leaves nothing in the CPSR.
  function ToCpsr(s: State, operand: byte, all: bool): (r: (State, int)) {
    if s.mode != USR && s.mode != SYS && operand / 0x20 % 2 == 1 then (s, UNDEFINED_INSTRUCTION)
    else (SetCpsr(s, if all then 0 else s.cpsr % 2), DATA_ABORT)
  }

  // In the SPSR it leaves bit 5 and the low four.
  function ToSpsr(s: State, operand: byte, all: bool): (r: (State, int)) {
    if SpsrBank(s.mode) < 0 then (s, UNDEFINED_INSTRUCTION)
    else (SetSpsr(s, if all then operand % 0x10 + 0x20 * (operand / 0x20 % 2) else Spsr(s) % 2), DATA_ABORT)
  }

  // arm_data_processing_immediate_msr, reached with bit 25 set.  Bit 16 alone stands for all four
  // fields.  An MSR that is not refused reports a data abort.
  function MoveToStatus(s: State, ins: word): (r: (State, int)) {
    if GetBit(ins, 22) == 0 then ToCpsr(s, MsrOperand(ins), GetBit(ins, 16) == 1)
    else ToSpsr(s, MsrOperand(ins), GetBit(ins, 16) == 1)
  }

  // An accepted MSR to the CPSR leaves no mode at all, so that the data abort it reports finds no
  // bank for the return address and the status.
  lemma MsrLosesMode(s: State, ins: word)
    requires GetBit(ins, 22) == 0 && MoveToStatus(s, ins).1 == DATA_ABORT
    ensures var s' := MoveToStatus(s, ins).0;
            s'.cpsr < 2 && s'.mode == NO_MODE && SpsrBank(s'.mode) < 0 && Physical(14, s'.mode) < 0
  {
  }

  // ---------- the implementation ----------

  // In C, `!mask` is 1 for a zero mask and 0 otherwise.
  function LogicalNot(mask: word): (r: word) { if mask == 0 then 1 else 0 }

  // (status & !mask) | (operand & mask)
  function Merge(status: word, operand: byte, mask: word): (r: word) {
    BitOr(BitAnd(status, LogicalNot(mask)), BitAnd(operand, mask))
  }

  lemma WithoutTop(low: nat, top: nat)
    requires low < 0x100 && top % 0x100 == 0
    ensures (low + top) % 0x100 == low
  {
  }

  lemma RoundTheTop(low: nat, n: nat)
    requires 1 <= n < 16
    ensures Up(low, 32 - n) % 0x100 == 0
  {
    var y := Up(low, 24 - n);
    assert Up(low, 32 - n) == Up(y, 8) by {
      UpUp(low, 24 - n, 8);
    }
    assert Up(y, 8) == 0x100 * y by {
      assert Pow2(8) == 0x100;
      UpIsTimes(y, 8);
    }
    DivModIs(0x100 * y, 0x100, y, 0);
  }

  lemma RotatedByte(b: byte, n: nat)
    requires n < 16
    ensures Ror(b, n) % 0x100 == High(b, n)
  {
    ShiftedByte(b, n);
    if n > 0 {
      RoundTheTop(Low(b, n), n);
      LowRange(b, n);
      UpRange(Low(b, n), 32 - n);
      WithoutTop(High(b, n), Up(Low(b, n), 32 - n));
    }
  }

  lemma ModTwice(x: nat, d: nat, k: nat)
    requires (d == 0x10 || d == 0x100) && k == 2
    ensures x % (d * k) % d == x % d
  {
  }

  lemma NineBits(x: word)
    ensures GetBits(x, 8, 0) % 0x100 == x % 0x100
  {
    assert Low(x, 9) == x % 0x200 by {
      assert Pow2(9) == 0x200;
      HighLowAreDivMod(x, 9);
    }
    ModTwice(x, 0x100, 2);
  }

  lemma AddField(mask: word, field: byte, k: nat, p: nat)
    requires k == 8 || k == 16 || k == 24
    requires p == Pow2(k) && mask < p
    ensures Or(mask, p * field) == p * field + mask
  {
    OrSum(field, mask, k, p);
  }

  // Four tests, all of the same bit.
  method FieldMask(fieldMask: word) returns (mask: word)
    ensures mask == if fieldMask % 2 == 1 then MAX32 else 0
  {
    Pow2Bytes();
    mask := 0;
    if GetBit(fieldMask, 0) == 1 {
      OrZero(0xFF);
      mask := BitOr(mask, 0xFF);
    }
    if GetBit(fieldMask, 0) == 1 {
      AddField(mask, 0xFF, 8, 0x100);
      mask := BitOr(mask, 0xFF00);
    }
    if GetBit(fieldMask, 0) == 1 {
      AddField(mask, 0xFF, 16, 0x1_0000);
      mask := BitOr(mask, 0xFF_0000);
    }
    if GetBit(fieldMask, 0) == 1 {
      AddField(mask, 0xFF, 24, 0x100_0000);
      mask := BitOr(mask, 0xFF00_0000);
    }
  }

  lemma OrNothing(x: nat)
    ensures Or(x, 0) == x
  {
    OrZero(x);
    OrCommutes(x, 0);
  }

  lemma AllOrNothing(byteMask: word, m: word)
    requires byteMask == 0 || byteMask == MAX32
    ensures And(byteMask, m) == if byteMask == 0 then 0 else m
  {
    if byteMask != 0 {
      Pow2At32();
      AndCommutes(byteMask, m);
      AndLow(m, 32, byteMask);
      LowSmall(m, 32);
    }
  }

  // With a mask that is not zero only its bits of the operand are left, with a zero mask only
  // bit 0 of the status.
  lemma Merged(status: word, operand: byte, mask: word)
    ensures Merge(status, operand, mask) == if mask == 0 then status % 2 else And(operand, mask)
  {
    if mask == 0 {
      assert Pow2(1) == 2;
      AndLow(status, 1, 1);
      assert Low(status, 1) == status % 2;
      AndCommutes(operand, 0);
      OrNothing(status % 2);
    } else {
      AndCommutes(status, 0);
      OrZero(And(operand, mask));
    }
  }

  lemma AboveByte(operand: byte, m: word, h: nat, l: nat)
    requires m == 0x100 * h + l && l < 0x100
    ensures And(operand, m) == And(operand, l)
  {
    Pow2Bytes();
    UpIsTimes(h, 8);
    UpIsTimes(0, 8);
    AndMiddle(0, h, operand, l, 8, operand, m);
  }

  lemma AndPieces(q: nat, b: nat, r: nat, d: nat, x: nat, y: nat)
    requires r < 0x20 && d < 0x20 && x == 0x20 * q + r && y == 0x20 * b + d
    ensures And(x, y) == 0x20 * And(q, b) + And(r, d)
  {
    assert Pow2(5) == 0x20;
    UpIsTimes(q, 5);
    UpIsTimes(b, 5);
    AndMiddle(q, b, r, d, 5, x, y);
    UpIsTimes(And(q, b), 5);
  }

  lemma LowestBit(q: nat)
    ensures And(q, 1) == q % 2
  {
    assert Pow2(1) == 2;
    AndLow(q, 1, 1);
    assert Low(q, 1) == q % 2;
  }

  lemma TestBit5(operand: byte)
    ensures And(operand, 0x20) == 0x20 * (operand / 0x20 % 2)
  {
    var q, r := operand / 0x20, operand % 0x20;
    AndPieces(q, 1, r, 0, operand, 0x20);
    LowestBit(q);
    AndCommutes(r, 0);
  }

  lemma LowFour(r: nat)
    ensures And(r, 0xF) == r % 0x10
  {
    assert Pow2(4) == 0x10;
    AndLow(r, 4, 0xF);
    HighLowAreDivMod(r, 4);
  }

  lemma LowBits(operand: byte, m: nat)
    requires m == 0x2F
    ensures And(operand, m) == operand % 0x10 + 0x20 * (operand / 0x20 % 2)
  {
    var q, r := operand / 0x20, operand % 0x20;
    AndPieces(q, 1, r, 0xF, operand, m);
    LowestBit(q);
    LowFour(r);
    ModTwice(operand, 0x10, 2);
  }

  lemma StatusMask(top: word, user: word, x: word)
    requires top == 0xF000_0000 && user == 0xF && x == top + user
    ensures Or(top, user) == x && Or(x, 0x20) == x + 0x20
  {
    var a, high := 0x780_0000, 0xF00_0000;
    assert Pow2(4) == 0x10 && Pow2(5) == 0x20 && Pow2(0) == 1;
    UpIsTimes(high, 4);
    OrSplit(high, user, 4);
    OrCommutes(top, user);
    UpIsTimes(a, 5);
    UpIsTimes(1, 5);
    OrMiddle(a, 1, user, 5, x, 0x20);
    OrBit(a, 0, 1);
    UpIsTimes(a + 1, 5);
  }

  lemma MergedCpsr(cpsr: word, operand: byte, byteMask: word)
    requires byteMask == 0 || byteMask == MAX32
    ensures Merge(cpsr, operand, BitAnd(byteMask, 0xF000_0000)) == if byteMask == 0 then cpsr % 2 else 0
  {
    AllOrNothing(byteMask, 0xF000_0000);
    Merged(cpsr, operand, And(byteMask, 0xF000_0000));
    AboveByte(operand, 0xF000_0000, 0xF0_0000, 0);
    AndCommutes(operand, 0);
  }

  lemma MergedSpsr(spsr: word, operand: byte, byteMask: word, top: word, user: word)
    requires byteMask == 0 || byteMask == MAX32
    requires top == 0xF000_0000 && user == 0xF
    ensures Merge(spsr, operand, BitAnd(byteMask, BitOr(BitOr(top, user), 0x20)))
         == if byteMask == 0 then spsr % 2 else operand % 0x10 + 0x20 * (operand / 0x20 % 2)
  {
    var mask := 0xF000_002F;
    assert BitOr(BitOr(top, user), 0x20) == mask by {
      StatusMask(top, user, 0xF000_000F);
    }
    AllOrNothing(byteMask, mask);
    Merged(spsr, operand, And(byteMask, mask));
    assert And(operand, mask) == operand % 0x10 + 0x20 * (operand / 0x20 % 2) by {
      AboveByte(operand, mask, 0xF0_0000, 0x2F);
      LowBits(operand, 0x2F);
    }
  }

  // The SPSR that is left, with the masks of the source.
  lemma SpsrIsMasked(s: State, ins: word)
    requires GetBit(ins, 22) == 1 && SpsrBank(s.mode) >= 0
    ensures MoveToStatus(s, ins).1 == 2
    ensures MoveToStatus(s, ins).0 == s.(spsr := s.spsr[SpsrBank(s.mode) :=
              if GetBit(ins, 16) == 1 then BitAnd(MsrOperand(ins), 0x2F) else BitAnd(Spsr(s), 1)])
  {
    LowBits(MsrOperand(ins), 0x2F);
    LowestBit(Spsr(s));
  }

  lemma FieldBit(ins: word)
    ensures RegField(ins, 16) % 2 == GetBit(ins, 16)
  {
    assert Low(High(ins, 16), 4) == 2 * Low(High(ins, 16) / 2, 3) + High(ins, 16) % 2;
  }

  // The two halves of arm_data_processing_immediate_msr.
  method WriteMergedCpsr(p: ArmCore, operand: byte, byteMask: word) returns (r: int)
    requires p.Valid() && (byteMask == 0 || byteMask == MAX32)
    modifies p.Repr()
    ensures p.Valid() && (p.state, r) == ToCpsr(old(p.state), operand, byteMask != 0)
  {
    TestBit5(operand);
    var privileged := p.InAPrivilegedMode();
    if privileged && BitAnd(operand, 0x20) != 0 {
      return UNDEFINED_INSTRUCTION;
    }
    var cpsr := p.ReadCpsr();
    MergedCpsr(cpsr, operand, byteMask);
    p.WriteCpsr(Merge(cpsr, operand, BitAnd(byteMask, 0xF000_0000)));
    r := DATA_ABORT;
  }

  method WriteMergedSpsr(p: ArmCore, operand: byte, byteMask: word) returns (r: int)
    requires p.Valid() && (byteMask == 0 || byteMask == MAX32)
    modifies p.Repr()
    ensures p.Valid() && (p.state, r) == ToSpsr(old(p.state), operand, byteMask != 0)
  {
    var banked := p.CurrentModeHasSpsr();
    if !banked {
      return UNDEFINED_INSTRUCTION;
    }
    var spsr := p.ReadSpsr();
    var userMask, privMask, stateMask := 0xF000_0000, 0xF, 0x20;
    MergedSpsr(spsr, operand, byteMask, userMask, privMask);
    p.WriteSpsr(Merge(spsr, operand, BitAnd(byteMask, BitOr(BitOr(userMask, privMask), stateMask))));
    r := DATA_ABORT;
  }

  method ArmDataProcessingImmediateMsr(p: ArmCore, ins: word) returns (r: int)
    requires p.Valid()
    modifies p.Repr()
    ensures p.Valid() && (p.state, r) == MoveToStatus(old(p.state), ins)
  {
    var operand := Ror(GetBits(ins, 8, 0) % 0x100, RegField(ins, 8)) % 0x100;
    NineBits(ins);
    RotatedByte(ins % 0x100, RegField(ins, 8));
    var byteMask := FieldMask(RegField(ins, 16));
    FieldBit(ins);
    if GetBit(ins, 22) == 0 {
      r := WriteMergedCpsr(p, operand, byteMask);
    } else {
      r := WriteMergedSpsr(p, operand, byteMask);
    }
  }
}

/**
 Laws about executed instructions: comparisons and the conditions that test them, calls and
 returns.
 */
module Programs {
  import opened Words
  import opened Mem
  import opened Reg
  import opened Machine
  import opened Exceptions
  import opened Shifter
  import opened DataProcessing
  import opened Instruction
  import opened Operations
  import opened Steps
  import Branch
  import BlockTransfer
  import StatusWrites

  // ---------- comparisons ----------

  // After cmp: equal, unsigned below (the carry is the borrow), and its opposite.
  lemma AfterCompare(s: State, a: word, o: Operand, rd: nat, setCond: bool)
    requires o.carry < 2
    ensures var (s', r) := Execute(s, 10, a, o, rd, setCond);
            && r == 0 && OnlyFlagsChange(s, s')
            && (ConditionPassed(s'.cpsr, EQ) <==> a == o.value)
            && (ConditionPassed(s'.cpsr, NE) <==> a != o.value)
            && (ConditionPassed(s'.cpsr, CS) <==> a < o.value)
            && (ConditionPassed(s'.cpsr, CC) <==> a >= o.value)
  {
    var result := Sub(a, o.value);
    BorrowIsBelow(a, o.value);
    FlagsAfter(s, result, Borrow(result, a), Negative(a) && !Negative(result));
  }

  // In two's complement the result's sign decides, but for operands of different signs.
  lemma LessBySigns(a: word, b: word)
    ensures Negative(a) == Negative(b) ==> (Signed(a) < Signed(b) <==> a < b) && (Negative(Sub(a, b)) <==> a < b)
    ensures Negative(a) != Negative(b) ==> (Signed(a) < Signed(b) <==> Negative(a))
  {
  }

  // LT after cmp: V is set only when a negative first operand gives a result that is not, so the
  // signed comparison comes out right exactly when of two negative operands the first is smaller,
  // and a negative one taken from one that is not leaves no negative result.
  lemma SignedLess(s: State, a: word, o: Operand, rd: nat, setCond: bool)
    requires o.carry < 2
    ensures var s', b := Execute(s, 10, a, o, rd, setCond).0, o.value;
            (ConditionPassed(s'.cpsr, LT) <==> Signed(a) < Signed(b))
            <==> (Negative(a) && Negative(b) ==> a < b) && (!Negative(a) && Negative(b) ==> !Negative(Sub(a, b)))
  {
    var result := Sub(a, o.value);
    var c, v := Borrow(result, a), Negative(a) && !Negative(result);
    FlagsWritten(s.cpsr, result, c, v);
    FlagsOfSum(if Negative(result) then 1 else 0, if result == 0 then 1 else 0, c, if v then 1 else 0,
               s.cpsr % 0x1000_0000);
    LessBySigns(a, o.value);
  }

  // After cmn: the sum is zero in 32 bits, and it does not fit.
  lemma AfterCompareNegative(s: State, a: word, o: Operand, rd: nat, setCond: bool)
    requires o.carry < 2
    ensures var (s', r) := Execute(s, 11, a, o, rd, setCond);
            && r == 0 && OnlyFlagsChange(s, s')
            && (ConditionPassed(s'.cpsr, EQ) <==> (a + o.value) % TWO32 == 0)
            && (ConditionPassed(s'.cpsr, CS) <==> a + o.value >= TWO32)
            && (ConditionPassed(s'.cpsr, CC) <==> a + o.value < TWO32)
  {
    var result := Add(a, o.value);
    CarryIsOverflow(a, o.value);
    FlagsAfter(s, result, if result < a then 1 else 0, !Negative(a) && Negative(result));
  }

  // A whole step of cmp: afterwards the instruction at the next address is executed under EQ, CS
  // or CC as the operands compare, and nothing but the pc, the flags and the cycle count changed.
  lemma CompareStep(s: State, ins: word, junk: word)
    requires Executes(s, ins) && IsDataProcessing(ins) && GetBits(ins, 24, 21) == 10
    ensures var (s', r) := Step(s, junk);
            var a, b := Read(Fetched(s), RegField(ins, 16)), OperandOf(Fetched(s), ins).value;
            && r == 0 && OnlyFlagsChange(Fetched(s), s')
            && (ConditionPassed(s'.cpsr, EQ) <==> a == b)
            && (ConditionPassed(s'.cpsr, CS) <==> a < b)
            && (ConditionPassed(s'.cpsr, CC) <==> a >= b)
  {
    var s1 := Fetched(s);
    var a, o, rd, setCond := Read(s1, RegField(ins, 16)), OperandOf(s1, ins), RegField(ins, 12), GetBit(ins, 20) == 1;
    AfterCompare(s1, a, o, rd, setCond);
    DataProcessingDecodes(s1, ins, junk);
    StepDecodes(s, ins, junk, Execute(s1, 10, a, o, rd, setCond).0);
  }

  // A whole step of cmn.
  lemma CompareNegativeStep(s: State, ins: word, junk: word)
    requires Executes(s, ins) && IsDataProcessing(ins) && GetBits(ins, 24, 21) == 11
    ensures var (s', r) := Step(s, junk);
            var a, b := Read(Fetched(s), RegField(ins, 16)), OperandOf(Fetched(s), ins).value;
            && r == 0 && OnlyFlagsChange(Fetched(s), s')
            && (ConditionPassed(s'.cpsr, EQ) <==> (a + b) % TWO32 == 0)
            && (ConditionPassed(s'.cpsr, CS) <==> a + b >= TWO32)
            && (ConditionPassed(s'.cpsr, CC) <==> a + b < TWO32)
  {
    var s1 := Fetched(s);
    var a, o, rd, setCond := Read(s1, RegField(ins, 16)), OperandOf(s1, ins), RegField(ins, 12), GetBit(ins, 20) == 1;
    AfterCompareNegative(s1, a, o, rd, setCond);
    DataProcessingDecodes(s1, ins, junk);
    StepDecodes(s, ins, junk, Execute(s1, 11, a, o, rd, setCond).0);
  }

  // ---------- calls and returns ----------

  predicate IsCall(ins: word) { GetBits(ins, 27, 25) == 5 && GetBit(ins, 24) == 1 }

  predicate IsReturn(ins: word) { GetBits(ins, 27, 20) == 18 && GetBits(ins, 7, 4) == 1 && RegField(ins, 0) == 14 }

  lemma AlignedSum(a: word, k: nat) returns (q: nat)
    requires a % 4 == 0
    ensures Add(a, 4 * k) == 4 * q
  {
    var n := a / 4 + k;
    q := n % 0x4000_0000;
    DivModIs(4 * n, TWO32, n / 0x4000_0000, 4 * q);
  }

  lemma PcReadAligned(a: word)
    requires a % 4 == 0
    ensures PcRead(Add(a, 4)) == Add(a, 8)
  {
    AddOffset(a, 4, 4);
    var q := AlignedSum(a, 2);
    DivModIs(4 * q, 2, 2 * q, 0);
    DivModIs(2 * q, 2, q, 0);
  }

  lemma ReturnIsRegisterForm(ins: word)
    requires IsReturn(ins)
    ensures GetBits(ins, 27, 25) == 0
  {
    var y := High(ins, 20);
    LowSplit(y, 5, 3);
    HighHigh(ins, 20, 5);
    LowRange(y, 5);
    UpIsTimes(Low(High(y, 5), 3), 5);
    assert Pow2(5) == 32;
  }

  lemma AlignedIsEven(a: word)
    requires a % 4 == 0
    ensures Even(Add(a, 4)) == Add(a, 4)
  {
    var q := AlignedSum(a, 1);
  }

  lemma CallDecodes(s: State, ins: word, junk: word)
    requires IsCall(ins)
    ensures Decode(s, ins, junk) == (Branch.BranchTo(s, ins), 0)
  {
  }

  lemma ReturnDecodes(s: State, ins: word, junk: word)
    requires IsReturn(ins)
    ensures Decode(s, ins, junk) == (SetReg(s, 15, Even(Read(s, 14))), 0)
  {
    ReturnIsRegisterForm(ins);
  }

  lemma Linked(s: State, a: word, p: nat)
    requires Raw(s, 15) == Add(a, 4) && a % 4 == 0 && IsMode(s.mode) && p < PHYSICAL
    ensures var s2 := Branch.Link(s);
            && Read(s2, 15) == Add(a, 8) && Raw(s2, 14) == Add(a, 4) && s2 == s.(file := s2.file)
            && (p != Physical(14, s.mode) ==> s2.file[p] == s.file[p])
  {
    PcReadAligned(a);
    assert Sub(Add(a, 8), 4) == Add(a, 4);
    ReadAfterWrite(s.file, 14, s.mode, Add(a, 4), 15, s.mode);
    ReadAfterWrite(s.file, 14, s.mode, Add(a, 4), 14, s.mode);
  }

  // The 24-bit offset in numbers.
  lemma OffsetField(ins: word)
    ensures var o := ins % 0x100_0000; Branch.SignedOffset(ins) == if o >= 0x80_0000 then o - 0x100_0000 else o
  {
    Pow2Bytes();
    FieldIsDigits(ins, 23, 0, 1, 0x100_0000);
  }

  // Where a branch at address a goes.
  function Target(a: word, ins: word): (t: int) {
    var o := ins % 0x100_0000;
    (a + 8 + 4 * (if o >= 0x80_0000 then o - 0x100_0000 else o)) % 0x1_0000_0000
  }

  lemma TargetOf(a: word, ins: word)
    ensures Add(Add(a, 8), 4 * Branch.SignedOffset(ins)) == Target(a, ins)
  {
    OffsetField(ins);
    AddOffset(a, 8, 4 * Branch.SignedOffset(ins));
  }

  // B with a link, after the fetch at a.
  lemma LinkedBranch(s: State, ins: word, a: word, p: nat)
    requires Raw(s, 15) == Add(a, 4) && a % 4 == 0 && IsMode(s.mode) && GetBit(ins, 24) == 1 && p < PHYSICAL
    ensures var s' := Branch.BranchTo(s, ins);
            && Raw(s', 15) == Target(a, ins) && Raw(s', 14) == Add(a, 4) && s' == s.(file := s'.file)
            && (p != 0 && p != Physical(14, s.mode) ==> s'.file[p] == s.file[p])
  {
    TargetOf(a, ins);
    Linked(s, a, p);
    ReadAfterWrite(Branch.Link(s).file, 15, s.mode, Target(a, ins), 14, s.mode);
  }

  // A call from a 4-aligned address a goes to a + 8 plus four times the signed 24-bit offset, leaves
  // a + 4 in the link register and counts a cycle; nothing else changes in any bank.
  lemma Call(s: State, ins: word, junk: word, p: nat)
    requires Executes(s, ins) && IsCall(ins) && Raw(s, 15) % 4 == 0 && IsMode(s.mode) && p < PHYSICAL
    ensures var (s', result) := Step(s, junk);
            && result == 0
            && Raw(s', 15) == Target(Raw(s, 15), ins)
            && Raw(s', 14) == (Raw(s, 15) + 4) % 0x1_0000_0000
            && (p != 0 && p != Physical(14, s.mode) ==> s'.file[p] == s.file[p])
            && s' == s.(file := s'.file, cycles := Add(s.cycles, 1))
  {
    CallDecodes(Fetched(s), ins, junk);
    StepDecodes(s, ins, junk, Branch.BranchTo(Fetched(s), ins));
    LinkedBranch(Fetched(s), ins, Raw(s, 15), p);
  }

  // Without the link bit only the pc changes.
  lemma BranchStep(s: State, ins: word, junk: word, p: nat)
    requires Executes(s, ins) && GetBits(ins, 27, 25) == 5 && GetBit(ins, 24) == 0
    requires Raw(s, 15) % 4 == 0 && p < PHYSICAL
    ensures var (s', result) := Step(s, junk);
            && result == 0 && Raw(s', 15) == Target(Raw(s, 15), ins)
            && (p != 0 ==> s'.file[p] == s.file[p])
            && s' == s.(file := s'.file, cycles := Add(s.cycles, 1))
  {
    PcReadAligned(Raw(s, 15));
    TargetOf(Raw(s, 15), ins);
    StepDecodes(s, ins, junk, Branch.BranchTo(Fetched(s), ins));
  }

  predicate IsExchange(ins: word, link: bool) {
    GetBits(ins, 27, 25) == 0 && GetBits(ins, 27, 20) == 18 && GetBits(ins, 7, 4) == if link then 3 else 1
  }

  lemma ExchangeDecodes(s: State, ins: word, junk: word, link: bool)
    requires IsExchange(ins, link)
    ensures Decode(s, ins, junk)
         == (SetReg(if link then Branch.Link(s) else s, 15, Even(Read(s, RegField(ins, 0)))), 0)
  {
  }

  lemma FetchKeeps(s: State, r: nat)
    requires IsMode(s.mode) && r < 15
    ensures Raw(Fetched(s), r) == Raw(s, r)
  {
    ReadAfterWrite(s.file, 15, s.mode, Add(Raw(s, 15), 4), r, s.mode);
  }

  // BX and BLX go to the register without its bit 0, as it was before the link was written.
  lemma ExchangeStep(s: State, ins: word, junk: word, link: bool, rm: nat, p: nat)
    requires Executes(s, ins) && IsExchange(ins, link) && rm == RegField(ins, 0) < 15
    requires Raw(s, 15) % 4 == 0 && IsMode(s.mode) && p < PHYSICAL
    ensures var (s', result) := Step(s, junk);
            && result == 0 && Raw(s', 15) == Raw(s, rm) - Raw(s, rm) % 2
            && Raw(s', 14) == (if link then (Raw(s, 15) + 4) % 0x1_0000_0000 else Raw(s, 14))
            && (p != 0 && p != Physical(14, s.mode) ==> s'.file[p] == s.file[p])
            && s' == s.(file := s'.file, cycles := Add(s.cycles, 1))
  {
    var s1 := Fetched(s);
    FetchKeeps(s, rm);
    FetchKeeps(s, 14);
    Linked(s1, Raw(s, 15), p);
    var s2 := if link then Branch.Link(s1) else s1;
    ReadAfterWrite(s2.file, 15, s.mode, Even(Raw(s, rm)), 14, s.mode);
    ExchangeDecodes(s1, ins, junk, link);
    StepDecodes(s, ins, junk, SetReg(s2, 15, Even(Raw(s, rm))));
  }

  predicate IsStatusRead(ins: word) {
    && GetBits(ins, 27, 25) == 0 && GetBits(ins, 27, 20) != 18 && GetBits(ins, 7, 4) != 11
    && GetBits(ins, 24, 23) == 2 && GetBit(ins, 20) == 0
  }

  lemma StatusReadDecodes(s: State, ins: word, junk: word)
    requires IsStatusRead(ins)
    ensures Decode(s, ins, junk) == Branch.StatusToRegister(s, ins)
  {
  }

  // MRS writes the CPSR, or the SPSR of the mode, to a register.
  lemma StatusReadStep(s: State, ins: word, junk: word, rd: nat, p: nat)
    requires Executes(s, ins) && IsStatusRead(ins) && rd == RegField(ins, 12) < 15 && IsMode(s.mode) && p < PHYSICAL
    requires GetBit(ins, 22) == 0 || SpsrBank(s.mode) >= 0
    ensures var (s', r) := Step(s, junk);
            && r == 0 && s'.cpsr == s.cpsr && s'.mode == s.mode
            && OneRegisterWritten(s, s', rd, if GetBit(ins, 22) == 0 then s.cpsr else s.spsr[SpsrBank(s.mode)], p)
  {
    var v := if GetBit(ins, 22) == 0 then s.cpsr else s.spsr[SpsrBank(s.mode)];
    StatusReadDecodes(Fetched(s), ins, junk);
    StepDecodes(s, ins, junk, SetReg(Fetched(s), rd, v));
    WrittenAfterFetch(s, rd, v, p);
  }

  // In a mode without an SPSR, an MRS of it is undefined.
  lemma NoStatusStep(s: State, ins: word, junk: word, p: nat, b: nat)
    requires Executes(s, ins) && IsStatusRead(ins) && GetBit(ins, 22) == 1 && SpsrBank(s.mode) < 0
    requires p < PHYSICAL && b < BANKS
    ensures var (s', r) := Step(s, junk);
            r == 7 && Entered(Fetched(s), s', 0x1b, 0x04, Read(Fetched(s), 15), false, p, b)
  {
    StatusReadDecodes(Fetched(s), ins, junk);
    ExecutesAs(s, ins, junk, Fetched(s), 7);
    StepRaises(s, Fetched(s), 7, junk);
    EntryEffect(Fetched(s), 7, p, b);
  }

  lemma Return(s: State, ins: word, junk: word)
    requires Executes(s, ins) && IsReturn(ins) && IsMode(s.mode)
    ensures var (s', result) := Step(s, junk);
            result == 0 && Raw(s', 15) == Even(Raw(s, 14)) && s'.mode == s.mode
  {
    ReturnDecodes(Fetched(s), ins, junk);
    StepDecodes(s, ins, junk, SetReg(Fetched(s), 15, Even(Read(Fetched(s), 14))));
  }

  // Any later return in the same mode, with the link register as the call left it, goes back to
  // the instruction after the call.
  lemma CallThenReturn(s: State, call: word, junk: word, called: State, s2: State, ret: word, junk2: word)
    requires Executes(s, call) && IsCall(call) && Raw(s, 15) % 4 == 0 && IsMode(s.mode)
    requires called == Step(s, junk).0 && s2.mode == s.mode && Raw(s2, 14) == Raw(called, 14)
    requires Executes(s2, ret) && IsReturn(ret)
    ensures Raw(Step(s2, junk2).0, 15) == Add(Raw(s, 15), 4)
  {
    assert Raw(called, 14) == Add(Raw(s, 15), 4) by {
      Call(s, call, junk, 0);
    }
    AlignedIsEven(Raw(s, 15));
    Return(s2, ret, junk2);
  }

  // ---------- block transfers ----------

  predicate IsBlockTransfer(ins: word) { GetBits(ins, 27, 25) == 4 }

  lemma TransferStep(s: State, ins: word, junk: word)
    requires Executes(s, ins) && IsBlockTransfer(ins)
    ensures Step(s, junk) == BlockTransfer.Transfer(Fetched(s), ins, junk)
  {
    assert ExecuteInstruction(s, junk) == BlockTransfer.Transfer(Fetched(s), ins, junk);
  }

  // Two steps, with any run of the machine between them that keeps the mode, the base and the word
  // asked about: a push and a pop.
  lemma PushThenPopSteps(s: State, push: word, junk: word, s2: State, pop: word, junk2: word,
                         rn: nat, list: word, j: nat)
    requires Executes(s, push) && IsBlockTransfer(push) && BlockTransfer.IsPush(push, rn, list)
    requires Executes(s2, pop) && IsBlockTransfer(pop) && BlockTransfer.IsPop(pop, rn, list)
    requires rn < 15 && list < 0x1_0000 && GetBit(list, rn) == 0 && j < 15 && GetBit(list, j) == 1
    requires IsMode(s.mode) && BlockTransfer.WordFits(Fetched(s), BlockTransfer.FormOf(push), j)
    requires var s1, place := Step(s, junk).0, BlockTransfer.Place(Fetched(s), BlockTransfer.FormOf(push), j);
             s2.mode == s.mode && BlockTransfer.SameWord(s1, s2, place) && Raw(s2, rn) == Raw(s1, rn)
    ensures Raw(Step(s2, junk2).0, j) == Raw(s, j)
  {
    TransferStep(s, push, junk);
    TransferStep(s2, pop, junk2);
    FetchKeeps(s, j);
    FetchKeeps(s2, rn);
    BlockTransfer.PushThenPopTransfers(Fetched(s), push, junk, Fetched(s2), pop, junk2, rn, list, j);
  }

  // And a store and a load multiple in the same mode without write-back.
  lemma TransferThenBackSteps(s: State, stm: word, junk: word, s2: State, ldm: word, junk2: word, j: nat)
    requires Executes(s, stm) && IsBlockTransfer(stm) && GetBit(stm, 20) == 0
    requires Executes(s2, ldm) && IsBlockTransfer(ldm) && GetBit(ldm, 20) == 1
    requires BlockTransfer.FormOf(ldm) == BlockTransfer.FormOf(stm)
    requires var f := BlockTransfer.FormOf(stm);
             && !f.w && f.rn < 15 && IsMode(s.mode)
             && j < 15 && BlockTransfer.WordFits(Fetched(s), f, j)
             && GetBit(f.list, f.rn) == 0 && GetBit(f.list, j) == 1
    requires var s1, f := Step(s, junk).0, BlockTransfer.FormOf(stm);
             var place := BlockTransfer.Place(Fetched(s), f, j);
             s2.mode == s.mode && BlockTransfer.SameWord(s1, s2, place) && Raw(s2, f.rn) == Raw(s1, f.rn)
    ensures Raw(Step(s2, junk2).0, j) == Raw(s, j)
  {
    var f := BlockTransfer.FormOf(stm);
    TransferStep(s, stm, junk);
    TransferStep(s2, ldm, junk2);
    FetchKeeps(s, j);
    FetchKeeps(s2, f.rn);
    BlockTransfer.TransferThenBack(Fetched(s), stm, junk, Fetched(s2), ldm, junk2, j);
  }

  // ---------- status register writes ----------

  predicate IsStatusWrite(ins: word) {
    GetBits(ins, 27, 25) == 1 && GetBits(ins, 24, 23) == 2 && GetBits(ins, 21, 20) == 2
  }

  lemma StatusWriteDecodes(s: State, ins: word, junk: word)
    requires IsStatusWrite(ins)
    ensures Decode(s, ins, junk) == StatusWrites.MoveToStatus(s, ins)
  {
  }

  // Bit 5 of the operand, which is the low byte moved down by the field [11:8].
  predicate StateBit(ins: word) {
    ins % 0x100 / Pow2(ins / 0x100 % 0x10) / 0x20 % 2 == 1
  }

  lemma StateBitOf(ins: word)
    ensures StatusWrites.MsrOperand(ins) == ins % 0x100 / Pow2(ins / 0x100 % 0x10)
  {
    assert Pow2(4) == 0x10 && Pow2(8) == 0x100;
    FieldIsDigits(ins, 11, 8, 0x100, 0x10);
    HighLowAreDivMod(ins % 0x100, ins / 0x100 % 0x10);
  }

  // A write of the CPSR is refused exactly in a privileged mode (or none) with bit 5 set.
  predicate Refused(s: State, ins: word) {
    if GetBit(ins, 22) == 0 then s.mode !in {0x10, 0x1f} && StateBit(ins) else SpsrBank(s.mode) < 0
  }

  lemma RefusedStep(s: State, ins: word, junk: word, p: nat, b: nat)
    requires Executes(s, ins) && IsStatusWrite(ins) && Refused(s, ins) && p < PHYSICAL && b < BANKS
    ensures var (s', r) := Step(s, junk);
            r == 7 && Entered(Fetched(s), s', 0x1b, 0x04, Read(Fetched(s), 15), false, p, b)
  {
    StateBitOf(ins);
    StatusWriteDecodes(Fetched(s), ins, junk);
    ExecutesAs(s, ins, junk, Fetched(s), 7);
    StepRaises(s, Fetched(s), 7, junk);
    EntryEffect(Fetched(s), 7, p, b);
  }

  // An abort taken in no mode.
  lemma AbortFromNowhere(s: State, p: nat)
    requires s.mode == NO_MODE && s.cpsr < 2 && 0 < p < PHYSICAL
    ensures var s' := Enter(s, DATA_ABORT);
            && s'.mode == 0x17 && s'.cpsr == 0x197 && Raw(s', 15) == 0x10
            && s'.file[p] == s.file[p] && s'.spsr == s.spsr && s'.mem == s.mem
  {
    EntryEffect(s, DATA_ABORT, p, 0);
  }

  // One of the CPSR that is not refused ends in the handler of a data abort, with a CPSR that no
  // longer holds anything of the old one, and with nothing to return to: no link register of any
  // bank and no SPSR has changed.
  lemma CpsrWriteStep(s: State, ins: word, junk: word, p: nat)
    requires Executes(s, ins) && IsStatusWrite(ins) && GetBit(ins, 22) == 0 && !Refused(s, ins) && 0 < p < PHYSICAL
    ensures var (s', r) := Step(s, junk);
            && r == 2 && s'.mode == 0x17 && s'.cpsr == 0x197 && Raw(s', 15) == 0x10
            && s'.file[p] == s.file[p] && s'.spsr == s.spsr && s'.mem == s.mem
  {
    StateBitOf(ins);
    var s2 := StatusWrites.MoveToStatus(Fetched(s), ins).0;
    StatusWrites.MsrLosesMode(Fetched(s), ins);
    StatusWriteDecodes(Fetched(s), ins, junk);
    ExecutesAs(s, ins, junk, s2, 2);
    StepRaises(s, s2, 2, junk);
    AbortFromNowhere(s2, p);
  }

  // One of the SPSR that is not refused ends there too, and the abort's own saving of the status
  // replaces what it wrote.
  lemma SpsrWriteStep(s: State, ins: word, junk: word, p: nat, b: nat)
    requires Executes(s, ins) && IsStatusWrite(ins) && GetBit(ins, 22) == 1 && !Refused(s, ins)
    requires p < PHYSICAL && b < BANKS
    ensures var (s', r) := Step(s, junk);
            r == 2 && Entered(Fetched(s), s', 0x17, 0x10, (Read(Fetched(s), 15) + 4) % 0x1_0000_0000, false, p, b)
  {
    var s2 := StatusWrites.MoveToStatus(Fetched(s), ins).0;
    StatusWriteDecodes(Fetched(s), ins, junk);
    ExecutesAs(s, ins, junk, s2, 2);
    StepRaises(s, s2, 2, junk);
    EntryEffect(s2, 2, p, b);
  }
}

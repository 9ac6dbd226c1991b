/**
 What a step does before and besides the instruction itself: the fetch, the condition, and the
 exception that its result raises.
 */
module Steps {
  import opened Words
  import opened Mem
  import opened Reg
  import opened Machine
  import opened Exceptions
  import opened Instruction

  // ---------- conditions ----------

  lemma HighPowers()
    ensures Pow2(28) == 0x1000_0000 && Pow2(29) == 0x2000_0000 && Pow2(30) == 0x4000_0000 && Pow2(31) == 0x8000_0000
  {
    Pow2Bytes();
    assert Pow2(28) == 0x10 * Pow2(24);
    assert Pow2(29) == 2 * Pow2(28) && Pow2(30) == 2 * Pow2(29) && Pow2(31) == 2 * Pow2(30);
  }

  lemma FlagNumbers(cpsr: word)
    ensures GetBit(cpsr, 31) == cpsr / 0x8000_0000 && GetBit(cpsr, 30) == cpsr / 0x4000_0000 % 2
    ensures GetBit(cpsr, 29) == cpsr / 0x2000_0000 % 2 && GetBit(cpsr, 28) == cpsr / 0x1000_0000 % 2
  {
    HighPowers();
    BitIsDigit(cpsr, 31, 0x8000_0000);
    BitIsDigit(cpsr, 30, 0x4000_0000);
    BitIsDigit(cpsr, 29, 0x2000_0000);
    BitIsDigit(cpsr, 28, 0x1000_0000);
  }

  // The sixteen conditions on the CPSR as a number.  LS asks for both of its halves, and the last
  // two always hold.
  lemma Conditions(cpsr: word, cond: nat)
    requires cond < 16
    ensures var n, z := cpsr / 0x8000_0000, cpsr / 0x4000_0000 % 2;
            var c, v := cpsr / 0x2000_0000 % 2, cpsr / 0x1000_0000 % 2;
            ConditionPassed(cpsr, cond) == [z == 1, z == 0, c == 1, c == 0, cpsr >= 0x8000_0000, cpsr < 0x8000_0000,
                                            v == 1, v == 0, c == 1 && z == 0, c == 0 && z == 1, n == v, n != v,
                                            z == 0 && n == v, z == 1 || n != v, true, true][cond]
  {
    FlagNumbers(cpsr);
  }

  // The condition is the top digit of the instruction.
  lemma ConditionField(ins: word)
    ensures GetBits(ins, 31, 28) == ins / 0x1000_0000 < 16
  {
    HighPowers();
    assert Pow2(4) == 16;
    FieldIsDigits(ins, 31, 28, 0x1000_0000, 16);
  }

  // The next step executes ins.
  predicate Executes(s: State, ins: word) {
    LoadWord(s.mem, Raw(s, 15), s.be) == Some(ins) && ConditionPassed(s.cpsr, GetBits(ins, 31, 28))
  }

  lemma StepDecodes(s: State, ins: word, junk: word, s': State)
    requires Executes(s, ins) && Decode(Fetched(s), ins, junk) == (s', 0)
    ensures Step(s, junk) == (s', 0)
  {
  }

  // An instruction whose condition is 14 or 15 is executed in every state.
  lemma AlwaysExecutes(s: State, ins: word)
    requires LoadWord(s.mem, Raw(s, 15), s.be) == Some(ins) && ins / 0x1000_0000 in {14, 15}
    ensures Executes(s, ins)
  {
    ConditionField(ins);
    Conditions(s.cpsr, ins / 0x1000_0000);
  }

  // What the fetch changes.
  lemma FetchEffect(s: State, p: nat)
    requires p < PHYSICAL
    ensures var s', before: int := Fetched(s), s.file[p];
            && s' == s.(file := s'.file, cycles := s'.cycles)
            && s'.cycles == (s.cycles + 1) % 0x1_0000_0000
            && (p == 0 ==> s'.file[p] == (before + 4) % 0x1_0000_0000)
            && (p != 0 ==> s'.file[p] == before)
  {
  }

  // ---------- steps that execute nothing ----------

  lemma HandledBy(s: State, e: int, junk: word)
    requires IsHandled(e)
    ensures Exception(s, e % 0x100, junk) == (Enter(s, e), e)
  {
    assert e % 0x100 == e;
  }

  lemma StepRaises(s: State, s2: State, e: int, junk: word)
    requires e in {2, 3, 4, 6, 7} && ExecuteInstruction(s, junk) == (s2, e)
    ensures Step(s, junk) == (Enter(s2, e), e)
  {
    HandledBy(s2, e, junk);
  }

  // An instruction whose condition fails is not executed, but raises an interrupt.
  lemma ConditionFails(s: State, ins: word, junk: word, p: nat, b: nat)
    requires LoadWord(s.mem, Raw(s, 15), s.be) == Some(ins) && !ConditionPassed(s.cpsr, ins / 0x1000_0000)
    requires p < PHYSICAL && b < BANKS
    ensures var (s', r) := Step(s, junk);
            r == 4 && Entered(Fetched(s), s', 0x12, 0x18, Read(Fetched(s), 15), false, p, b)
  {
    ConditionField(ins);
    StepRaises(s, Fetched(s), 4, junk);
    EntryEffect(Fetched(s), 4, p, b);
  }

  // A fetch that memory rejects raises a prefetch abort.
  lemma FetchFails(s: State, junk: word, p: nat, b: nat)
    requires Raw(s, 15) + 4 > |s.mem| && p < PHYSICAL && b < BANKS
    ensures var (s', r) := Step(s, junk);
            r == 6 && Entered(Fetched(s), s', 0x17, 0x0C, Read(Fetched(s), 15), false, p, b)
  {
    StepRaises(s, Fetched(s), 6, junk);
    EntryEffect(Fetched(s), 6, p, b);
  }

  // ---------- steps that refuse an instruction ----------

  // Encodings that are undefined in every state: coprocessor instructions, the media space with bit
  // 24 clear or with 24 to 20 all set, an MRS shape with an immediate, the multiplies and the other
  // extra loads and stores, branches by register of another kind than BX and BLX, and single
  // transfers with P = 0 and W = 1.
  predicate IsUndefined(ins: word) {
    var category := GetBits(ins, 27, 25);
    || category == 6
    || (category == 7 && GetBit(ins, 24) == 0)
    || (category == 3 && GetBit(ins, 4) == 1 && (GetBit(ins, 24) == 0 || GetBits(ins, 24, 20) == 31))
    || (category == 1 && GetBits(ins, 24, 23) == 2 && GetBits(ins, 21, 20) == 0)
    || (category == 0 && GetBits(ins, 27, 20) != 18 && GetBits(ins, 7, 4) != 11
        && !(GetBits(ins, 24, 23) == 2 && GetBit(ins, 20) == 0) && GetBit(ins, 4) == 1 && GetBit(ins, 7) == 1)
    || (GetBits(ins, 27, 20) == 18 && GetBits(ins, 7, 4) !in {1, 3} && category == 0)
    || ((category == 2 || (category == 3 && GetBit(ins, 4) == 0) || (category == 0 && GetBits(ins, 27, 20) != 18
         && GetBits(ins, 7, 4) == 11)) && GetBit(ins, 24) == 0 && GetBit(ins, 21) == 1)
  }

  // Bits 27 and 26 are the upper two of the category.
  lemma KindField(ins: word)
    ensures GetBits(ins, 27, 26) == GetBits(ins, 27, 25) / 2
  {
    var y := High(ins, 25);
    HighHigh(ins, 25, 1);
    assert Low(y, 3) == 2 * Low(y / 2, 2) + y % 2;
    assert High(y, 1) == y / 2;
  }

  lemma UndefinedDecodes(s: State, ins: word, junk: word)
    requires IsUndefined(ins)
    ensures Decode(s, ins, junk) == (s, 7)
  {
    KindField(ins);
  }

  lemma UndefinedStep(s: State, ins: word, junk: word, p: nat, b: nat)
    requires Executes(s, ins) && IsUndefined(ins) && p < PHYSICAL && b < BANKS
    ensures var (s', r) := Step(s, junk);
            r == 7 && Entered(Fetched(s), s', 0x1b, 0x04, Read(Fetched(s), 15), false, p, b)
  {
    UndefinedDecodes(Fetched(s), ins, junk);
    StepRaises(s, Fetched(s), 7, junk);
    EntryEffect(Fetched(s), 7, p, b);
  }

  lemma StepAfter(s: State, junk: word, s2: State, r: int, e: int)
    requires ExecuteInstruction(s, junk) == (s2, r) && r != 0 && r != -2 && e == r % 0x100
    ensures Step(s, junk) == Exception(s2, e, junk)
  {
  }

  lemma ExecutesAs(s: State, ins: word, junk: word, s2: State, r: int)
    requires Executes(s, ins) && Decode(Fetched(s), ins, junk) == (s2, r)
    ensures ExecuteInstruction(s, junk) == (s2, r)
  {
  }

  // A memory access that is refused is reported as 255, which raises nothing.
  lemma StepRefused(s: State, ins: word, junk: word, s2: State)
    requires Executes(s, ins) && Decode(Fetched(s), ins, junk) == (s2, -1)
    ensures Step(s, junk) == (s2, 255)
  {
    ExecutesAs(s, ins, junk, s2, -1);
    StepAfter(s, junk, s2, -1, 255);
    OtherExceptions(s2, 255, junk);
  }

  // A software interrupt instruction raises an interrupt.
  lemma SoftwareInterruptStep(s: State, ins: word, junk: word, p: nat, b: nat)
    requires Executes(s, ins) && GetBits(ins, 27, 25) == 7 && GetBit(ins, 24) == 1 && p < PHYSICAL && b < BANKS
    ensures var (s', r) := Step(s, junk);
            r == 4 && Entered(Fetched(s), s', 0x12, 0x18, Read(Fetched(s), 15), false, p, b)
  {
    assert Decode(Fetched(s), ins, junk) == (Fetched(s), 4);
    StepRaises(s, Fetched(s), 4, junk);
    EntryEffect(Fetched(s), 4, p, b);
  }

  lemma StepAnswers(s: State, ins: word, junk: word)
    requires Executes(s, ins) && Decode(Fetched(s), ins, junk) == (Fetched(s), 8)
    ensures Step(s, junk) == Exception(Fetched(s), 8, junk)
  {
    ExecutesAs(s, ins, junk, Fetched(s), 8);
    StepAfter(s, junk, Fetched(s), 8, 8);
  }

  // What the pc reads as after the fetch at an aligned address, less eight, is that address.
  lemma OwnAddress(a: word)
    requires a % 4 == 0
    ensures Sub(PcRead(Add(a, 4)), 8) == a
  {
  }

  // The rest of the media space is what reaches the software interrupt: an instruction at an aligned
  // address ends the simulation when its low 24 bits say so, and otherwise only the fetch happens.
  lemma MediaStep(s: State, ins: word, junk: word)
    requires Executes(s, ins) && GetBits(ins, 27, 25) == 3 && GetBit(ins, 4) == 1
    requires GetBit(ins, 24) == 1 && GetBits(ins, 24, 20) != 31 && Raw(s, 15) % 4 == 0
    ensures Step(s, junk).0 == Fetched(s)
    ensures Step(s, junk).1 == if ins % 0x100_0000 == 0x12_3456 then 9 else if ins % 0x100_0000 == 1 then 0 else 8
  {
    assert Decode(Fetched(s), ins, junk) == (Fetched(s), 8);
    OwnAddress(Raw(s, 15));
    OtherExceptions(Fetched(s), 8, junk);
    StepAnswers(s, ins, junk);
  }
}

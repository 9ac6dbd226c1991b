/**
 What single loads and stores do, from the encoding to the bytes of memory.
 */
module Transfers {
  import opened Words
  import opened Mem
  import opened Reg
  import opened Machine
  import opened Shifter
  import opened LoadStore
  import opened Instruction
  import opened Steps

  // ---------- addresses ----------

  // Words and bytes, with an immediate offset or a shifted register; the form P = 0, W = 1 is
  // undefined.
  predicate IsSingle(ins: word) {
    && (GetBits(ins, 27, 25) == 2 || (GetBits(ins, 27, 25) == 3 && GetBit(ins, 4) == 0))
    && (GetBit(ins, 24) == 1 || GetBit(ins, 21) == 0)
  }

  // Half-words with an immediate offset.  One form is not among them: the encoding with [27:20] = 18
  // is taken for a branch.
  predicate IsHalf(ins: word) {
    && GetBits(ins, 27, 25) == 0 && GetBits(ins, 7, 4) == 11 && GetBits(ins, 27, 20) != 18
    && (GetBit(ins, 24) == 1 || GetBit(ins, 21) == 0)
  }

  // The base is written in every form but P = 1, W = 0.
  predicate WritesBase(ins: word) { GetBit(ins, 24) == 0 || GetBit(ins, 21) == 1 }

  // The offset in numbers: twelve bits, or a register shifted by the field [11:7].
  predicate OffsetIs(s: State, ins: word, o: Operand) {
    if GetBits(ins, 27, 25) == 2 then o.value == ins % 0x1000
    else ShiftsByField(ins / 0x20 % 4, Read(s, ins % 0x10), ins / 0x80 % 32, s.cpsr / 0x2000_0000 % 2, o)
  }

  lemma TwelveBits(ins: word)
    ensures GetBits(ins, 11, 0) == ins % 0x1000
  {
    assert Pow2(0) == 1 && Pow2(8) == 0x100;
    assert Pow2(12) == 0x10 * Pow2(8);
    FieldIsDigits(ins, 11, 0, 1, 0x1000);
  }

  lemma FourBits(ins: word)
    ensures RegField(ins, 0) == ins % 0x10 && RegField(ins, 8) == ins / 0x100 % 0x10
  {
    assert Pow2(0) == 1 && Pow2(4) == 0x10 && Pow2(8) == 0x100;
    FieldIsDigits(ins, 3, 0, 1, 0x10);
    FieldIsDigits(ins, 11, 8, 0x100, 0x10);
  }

  lemma OffsetInNumbers(s: State, ins: word) returns (o: Operand)
    requires IsSingle(ins)
    ensures OffsetOf(s, ins) == Some(o.value) && OffsetIs(s, ins, o)
  {
    if GetBits(ins, 27, 25) == 2 {
      TwelveBits(ins);
      o := Operand(GetBits(ins, 11, 0), 0);
    } else {
      var x := Read(s, RegField(ins, 0));
      o := ShiftedByImmediate(KindOf(ins), GetBits(ins, 11, 7), x, CFlag(s));
      RegisterOffsetIsShift(s, ins);
      OperandFields(ins);
      FieldShift(ins / 0x20 % 4, x, ins / 0x80 % 32, CFlag(s));
      FlagNumbers(s.cpsr);
      FourBits(ins);
    }
  }

  // Up with U = 1, down with U = 0, modulo 2^32.
  function AddressFor(s: State, ins: word, offset: word): (a: int) {
    var base := Read(s, RegField(ins, 16));
    (if GetBit(ins, 23) == 1 then base + offset else base - offset) % 0x1_0000_0000
  }

  // ---------- the registers ----------

  // What a register holds after the base was written, if it was.
  function AfterIndexing(s: State, ins: word, a: word, r: nat): (v: word) {
    if WritesBase(ins) && r == RegField(ins, 16) then a else Raw(s, r)
  }

  predicate SameElse(s: State, s': State) {
    s' == s.(file := s'.file, mem := s'.mem)
  }

  // ---------- loads ----------

  // A load of `width` bytes at a, with s the machine after the fetch: register r and physical
  // register p afterwards.
  predicate Loads(s: State, s': State, result: int, ins: word, a: word, width: nat, r: nat, p: nat)
    requires width in {1, 2, 4} && p < PHYSICAL
  {
    var rd, rn := RegField(ins, 12), RegField(ins, 16);
    && SameElse(s, s') && s'.mem == s.mem
    && result == (if a + width <= |s.mem| then 0 else 255)
    && Raw(s', r) == (if r == rd && a + width <= |s.mem| then NumberAt(s.mem, a, width, s.be)
                      else AfterIndexing(s, ins, a, r))
    && (p != Physical(rd, s.mode) && p != Physical(rn, s.mode) ==> s'.file[p] == s.file[p])
  }

  predicate LoadsSo(s: State, s2: State, result: int, ins: word, a: word, width: nat, r: nat, p: nat)
    requires width in {1, 2, 4} && p < PHYSICAL
  {
    result in {0, -1} && Loads(s, s2, if result == 0 then 0 else 255, ins, a, width, r, p)
  }

  lemma BaseWritten(s: State, ins: word, a: word, r: nat, p: nat)
    requires IsMode(s.mode) && r < 16 && p < PHYSICAL
    ensures var s1 := if WritesBase(ins) then SetReg(s, RegField(ins, 16), a) else s;
            && s1 == s.(file := s1.file) && Raw(s1, r) == AfterIndexing(s, ins, a, r)
            && (p != Physical(RegField(ins, 16), s.mode) ==> s1.file[p] == s.file[p])
  {
    ReadAfterWrite(s.file, RegField(ins, 16), s.mode, a, r, s.mode);
  }

  lemma LoadAccess(s: State, ins: word, a: word, width: nat, r: nat, p: nat)
    requires IsMode(s.mode) && r < 16 && p < PHYSICAL && width in {1, 2, 4}
    ensures var s1 := if WritesBase(ins) then SetReg(s, RegField(ins, 16), a) else s;
            var (s2, result) := if width == 2 then AccessHalf(s1, a, true, RegField(ins, 12))
                                else OneAccess(s1, a, true, width == 1, RegField(ins, 12));
            LoadsSo(s, s2, result, ins, a, width, r, p)
  {
    var s1 := if WritesBase(ins) then SetReg(s, RegField(ins, 16), a) else s;
    BaseWritten(s, ins, a, r, p);
    LoadsNumber(s.mem, a, s.be);
    if a + width <= |s.mem| {
      ReadAfterWrite(s1.file, RegField(ins, 12), s.mode, NumberAt(s.mem, a, width, s.be), r, s.mode);
    }
  }

  lemma SingleDecodes(s: State, ins: word, junk: word)
    requires IsSingle(ins)
    ensures Decode(s, ins, junk) == SingleTransfer(s, ins)
  {
    KindField(ins);
  }

  lemma CategoryBit(ins: word)
    ensures GetBit(ins, 25) == GetBits(ins, 27, 25) % 2
  {
    var y := High(ins, 25);
    assert Low(y, 3) == 2 * Low(y / 2, 2) + y % 2;
  }

  lemma Addressing(ins: word)
    requires IsSingle(ins)
    ensures AddressingOf(ins) == if WritesBase(ins) then LoadStore.Indexed else Offset
  {
    CategoryBit(ins);
  }

  // The machine after the write of the base.
  function WithBase(s: State, ins: word, a: word): (s1: State) {
    if WritesBase(ins) then SetReg(s, RegField(ins, 16), a) else s
  }

  lemma AddressAgrees(s: State, ins: word, offset: word)
    ensures AddressFrom(Read(s, RegField(ins, 16)), offset, GetBit(ins, 23) == 1) == AddressFor(s, ins, offset)
  {
  }

  lemma SingleIsAccess(s: State, ins: word) returns (o: Operand, a: word)
    requires IsSingle(ins)
    ensures OffsetIs(s, ins, o) && a == AddressFor(s, ins, o.value)
    ensures SingleTransfer(s, ins)
         == OneAccess(WithBase(s, ins, a), a, GetBit(ins, 20) == 1, GetBit(ins, 22) == 1, RegField(ins, 12))
  {
    o := OffsetInNumbers(s, ins);
    a := AddressFor(s, ins, o.value);
    Addressing(ins);
    AddressAgrees(s, ins, o.value);
    assert LoadStore.Indexing(s, RegField(ins, 16), a, AddressingOf(ins)) == WithBase(s, ins, a);
  }

  function Width(ins: word): (width: nat)
    ensures width in {1, 4}
  {
    if GetBit(ins, 22) == 1 then 1 else 4
  }

  lemma HalfDecodes(s: State, ins: word, junk: word)
    requires IsHalf(ins)
    ensures Decode(s, ins, junk) == HalfTransfer(s, ins)
  {
    KindField(ins);
  }

  lemma StepIsTransfer(s: State, ins: word, junk: word, s2: State, result: int)
    requires Executes(s, ins) && (IsSingle(ins) || IsHalf(ins)) && result in {0, -1}
    requires (s2, result) == if IsSingle(ins) then SingleTransfer(Fetched(s), ins) else HalfTransfer(Fetched(s), ins)
    ensures Step(s, junk) == (s2, if result == 0 then 0 else 255)
  {
    if IsSingle(ins) {
      SingleDecodes(Fetched(s), ins, junk);
    } else {
      HalfDecodes(Fetched(s), ins, junk);
    }
    if result == 0 {
      StepDecodes(s, ins, junk, s2);
    } else {
      StepRefused(s, ins, junk, s2);
    }
  }

  lemma StepIsSingle(s: State, ins: word, junk: word)
    requires Executes(s, ins) && IsSingle(ins) && SingleTransfer(Fetched(s), ins).1 in {0, -1}
    ensures Step(s, junk).0 == SingleTransfer(Fetched(s), ins).0
    ensures Step(s, junk).1 == if SingleTransfer(Fetched(s), ins).1 == 0 then 0 else 255
  {
    StepIsTransfer(s, ins, junk, SingleTransfer(Fetched(s), ins).0, SingleTransfer(Fetched(s), ins).1);
  }

  // A step of a load of a word or a byte.
  lemma LoadStep(s: State, ins: word, junk: word, r: nat, p: nat) returns (o: Operand, a: word)
    requires Executes(s, ins) && IsSingle(ins) && GetBit(ins, 20) == 1
    requires IsMode(s.mode) && r < 16 && p < PHYSICAL
    ensures OffsetIs(Fetched(s), ins, o) && a == AddressFor(Fetched(s), ins, o.value)
    ensures Loads(Fetched(s), Step(s, junk).0, Step(s, junk).1, ins, a, if GetBit(ins, 22) == 1 then 1 else 4, r, p)
  {
    o, a := SingleIsAccess(Fetched(s), ins);
    LoadAccess(Fetched(s), ins, a, Width(ins), r, p);
    StepIsSingle(s, ins, junk);
  }

  // ---------- stores ----------

  // What is stored: the register, after the write of the base.
  function StoredValue(s: State, ins: word, a: word): (v: word) {
    var rd := RegField(ins, 12);
    if rd == 15 then BitAnd(Add(AfterIndexing(s, ins, a, 15), 4), 0xFFFF_FFFD) else AfterIndexing(s, ins, a, rd)
  }

  // A store of `width` bytes at a: byte k of memory and physical register p afterwards.
  predicate Stores(s: State, s': State, result: int, ins: word, a: word, width: nat, k: nat, p: nat)
    requires width in {1, 2, 4} && k < |s.mem| && p < PHYSICAL
  {
    var rn := RegField(ins, 16);
    && SameElse(s, s')
    && result == (if a + width <= |s.mem| then 0 else 255)
    && HoldsNumber(s.mem, s'.mem, a, width, StoredValue(s, ins, a), s.be, k)
    && Raw(s', rn) == AfterIndexing(s, ins, a, rn)
    && (p != Physical(rn, s.mode) ==> s'.file[p] == s.file[p])
  }

  lemma ValueAfterBase(s: State, ins: word, a: word)
    requires IsMode(s.mode)
    ensures Read(WithBase(s, ins, a), RegField(ins, 12)) == StoredValue(s, ins, a)
  {
    BaseWritten(s, ins, a, RegField(ins, 12), 0);
    PcReadIsMasked(AfterIndexing(s, ins, a, 15));
  }

  lemma StoreAccess(s: State, ins: word, a: word, width: nat, k: nat, p: nat)
    requires IsMode(s.mode) && k < |s.mem| && p < PHYSICAL && width in {1, 2, 4}
    ensures var (s2, result) := if width == 2 then AccessHalf(WithBase(s, ins, a), a, false, RegField(ins, 12))
                                else OneAccess(WithBase(s, ins, a), a, false, width == 1, RegField(ins, 12));
            result in {0, -1} && Stores(s, s2, if result == 0 then 0 else 255, ins, a, width, k, p)
  {
    BaseWritten(s, ins, a, RegField(ins, 16), p);
    ValueAfterBase(s, ins, a);
    StoresNumber(s.mem, a, StoredValue(s, ins, a), s.be, k);
  }

  // A step of a store of a word or a byte.
  lemma StoreStep(s: State, ins: word, junk: word, k: nat, p: nat) returns (o: Operand, a: word)
    requires Executes(s, ins) && IsSingle(ins) && GetBit(ins, 20) == 0
    requires IsMode(s.mode) && k < |s.mem| && p < PHYSICAL
    ensures OffsetIs(Fetched(s), ins, o) && a == AddressFor(Fetched(s), ins, o.value)
    ensures Stores(Fetched(s), Step(s, junk).0, Step(s, junk).1, ins, a, if GetBit(ins, 22) == 1 then 1 else 4, k, p)
  {
    o, a := SingleIsAccess(Fetched(s), ins);
    StoreAccess(Fetched(s), ins, a, Width(ins), k, p);
    StepIsSingle(s, ins, junk);
  }

  // ---------- half-words ----------

  // The offset is split over two fields.
  function HalfOffsetNumber(ins: word): (o: nat)
    ensures o < 0x100
  {
    0x10 * (ins / 0x100 % 0x10) + ins % 0x10
  }

  lemma HalfIsAccess(s: State, ins: word) returns (a: word)
    requires IsHalf(ins)
    ensures a == AddressFor(s, ins, HalfOffsetNumber(ins))
    ensures HalfTransfer(s, ins) == AccessHalf(WithBase(s, ins, a), a, GetBit(ins, 20) == 1, RegField(ins, 12))
  {
    CategoryBit(ins);
    FourBits(ins);
    a := AddressFor(s, ins, HalfOffsetNumber(ins));
  }

  lemma HalfLoadStep(s: State, ins: word, junk: word, r: nat, p: nat)
    requires Executes(s, ins) && IsHalf(ins) && GetBit(ins, 20) == 1
    requires IsMode(s.mode) && r < 16 && p < PHYSICAL
    ensures Loads(Fetched(s), Step(s, junk).0, Step(s, junk).1, ins,
                  AddressFor(Fetched(s), ins, HalfOffsetNumber(ins)), 2, r, p)
  {
    var a := HalfIsAccess(Fetched(s), ins);
    LoadAccess(Fetched(s), ins, a, 2, r, p);
    StepIsTransfer(s, ins, junk, HalfTransfer(Fetched(s), ins).0, HalfTransfer(Fetched(s), ins).1);
  }

  lemma HalfStoreStep(s: State, ins: word, junk: word, k: nat, p: nat)
    requires Executes(s, ins) && IsHalf(ins) && GetBit(ins, 20) == 0
    requires IsMode(s.mode) && k < |s.mem| && p < PHYSICAL
    ensures Stores(Fetched(s), Step(s, junk).0, Step(s, junk).1, ins,
                   AddressFor(Fetched(s), ins, HalfOffsetNumber(ins)), 2, k, p)
  {
    var a := HalfIsAccess(Fetched(s), ins);
    StoreAccess(Fetched(s), ins, a, 2, k, p);
    StepIsTransfer(s, ins, junk, HalfTransfer(Fetched(s), ins).0, HalfTransfer(Fetched(s), ins).1);
  }

  // The offset of any half-word encoding.  The register form needs bit 25, which no half-word has
  // that reaches these functions.
  lemma HalfOffsetInNumbers(s: State, ins: word)
    ensures HalfOffsetOf(s, ins) == if ins / 0x200_0000 % 2 == 0 then Some(HalfOffsetNumber(ins))
                                    else if ins / 0x10 % 0x100 == 0 then Some(Read(s, ins % 0x10))
                                    else None
  {
    OperandFields(ins);
    FourBits(ins);
    assert Pow2(4) == 0x10 && Pow2(8) == 0x100;
    FieldIsDigits(ins, 11, 4, 0x10, 0x100);
  }
}

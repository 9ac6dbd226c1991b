/**
 What the sixteen data-processing operations compute, as relations between numbers and bits.
 */
module Operations {
  import opened Words
  import opened Mem
  import opened Reg
  import opened Machine
  import opened Exceptions
  import opened Shifter
  import opened DataProcessing
  import opened Instruction
  import opened Steps

  // ---------- flags ----------

  // The bit at position i of a number written as quotient, bit and rest.
  lemma BitIn(x: word, i: nat, d: nat, q: nat, bit: nat, rest: nat)
    requires i < 32 && d == Pow2(i) && bit < 2 && rest < d && x == d * (2 * q + bit) + rest
    ensures GetBit(x, i) == bit
  {
    HighLowAreDivMod(x, i);
    FieldAt(x, d, q, bit, rest);
  }

  lemma FlagsOfSum(n: nat, z: nat, c: nat, v: nat, low: nat)
    requires n < 2 && z < 2 && c < 2 && v < 2 && low < 0x1000_0000
    ensures var x := 0x8000_0000 * n + 0x4000_0000 * z + 0x2000_0000 * c + 0x1000_0000 * v + low;
            && GetBit(x, 31) == n && GetBit(x, 30) == z && GetBit(x, 29) == c && GetBit(x, 28) == v
            && x % 0x1000_0000 == low
  {
    var x := 0x8000_0000 * n + 0x4000_0000 * z + 0x2000_0000 * c + 0x1000_0000 * v + low;
    assert Pow2(28) == 0x1000_0000 && Pow2(29) == 0x2000_0000 && Pow2(30) == 0x4000_0000 && Pow2(31) == 0x8000_0000 by {
      Pow2At28();
      assert Pow2(31) == 2 * Pow2(30) && Pow2(30) == 2 * Pow2(29);
    }
    BitIn(x, 31, 0x8000_0000, 0, n, x - 0x8000_0000 * n);
    BitIn(x, 30, 0x4000_0000, n, z, x - 0x4000_0000 * (2 * n + z));
    BitIn(x, 29, 0x2000_0000, 2 * n + z, c, x - 0x2000_0000 * (4 * n + 2 * z + c));
    BitIn(x, 28, 0x1000_0000, 4 * n + 2 * z + c, v, low);
    DivModIs(x, 0x1000_0000, 8 * n + 4 * z + 2 * c + v, low);
  }

  lemma KeepBit28(cpsr: word)
    ensures cpsr % 0x2000_0000 == 0x1000_0000 * (cpsr / 0x1000_0000 % 2) + cpsr % 0x1000_0000
  {
    var q := cpsr / 0x1000_0000;
    DivModIs(cpsr, 0x2000_0000, q / 2, 0x1000_0000 * (q % 2) + cpsr % 0x1000_0000);
  }

  lemma FlagsWritten(cpsr: word, result: word, c: word, v: bool)
    requires c < 2
    ensures PutV(PutNzc(cpsr, result, c), v)
         == (if Negative(result) then 0x8000_0000 else 0) + (if result == 0 then 0x4000_0000 else 0)
            + 0x2000_0000 * c + (if v then 0x1000_0000 else 0) + cpsr % 0x1000_0000
  {
    var x := PutNzc(cpsr, result, c);
    var b, low := cpsr / 0x1000_0000 % 2, cpsr % 0x1000_0000;
    var top := (if Negative(result) then 8 else 0) + (if result == 0 then 4 else 0) + 2 * c;
    KeepBit28(cpsr);
    DivModIs(x, 0x1000_0000, top + b, low);
  }

  // Only the four flags of the status word change.
  predicate OnlyFlagsChange(s: State, s': State) {
    && s' == s.(cpsr := s'.cpsr, mode := s'.mode)
    && s'.cpsr % 0x1000_0000 == s.cpsr % 0x1000_0000
    && (ModeAgrees(s) ==> s'.mode == s.mode)
  }

  lemma SameLowBits(x: word, y: word)
    requires x % 0x1000_0000 == y % 0x1000_0000
    ensures x % 32 == y % 32
  {
    assert (x % 0x1000_0000) % 32 == x % 32 && (y % 0x1000_0000) % 32 == y % 32;
  }

  lemma BorrowIsBelow(a: word, b: word)
    ensures Borrow(Sub(a, b), a) == (if a < b then 1 else 0) && (Sub(a, b) == 0 <==> a == b)
  {
  }

  lemma CarryIsOverflow(a: word, b: word)
    ensures Add(a, b) < a <==> a + b >= TWO32
  {
  }

  lemma FlagsAfter(s: State, result: word, c: word, v: bool)
    requires c < 2
    ensures var s' := UpdateFlags(s, result, Nzcv(c, v));
            && OnlyFlagsChange(s, s')
            && GetBit(s'.cpsr, 30) == (if result == 0 then 1 else 0) && GetBit(s'.cpsr, 29) == c
  {
    FlagsWritten(s.cpsr, result, c, v);
    FlagsOfSum(if Negative(result) then 1 else 0, if result == 0 then 1 else 0, c, if v then 1 else 0,
               s.cpsr % 0x1000_0000);
    SameLowBits(s.cpsr, UpdateFlags(s, result, Nzcv(c, v)).cpsr);
  }

  // The flags, and nothing else of the status word, are as said.
  predicate FlagsAre(s: State, s': State, n: bool, z: bool, c: bool, v: bool) {
    && OnlyFlagsChange(s, s')
    && (s'.cpsr / 0x8000_0000 == 1 <==> n) && (s'.cpsr / 0x4000_0000 % 2 == 1 <==> z)
    && (s'.cpsr / 0x2000_0000 % 2 == 1 <==> c) && (s'.cpsr / 0x1000_0000 % 2 == 1 <==> v)
  }

  // A flag update that leaves V alone writes the V there was.
  lemma OldV(cpsr: word, result: word, c: word)
    requires c < 2
    ensures PutNzc(cpsr, result, c) == PutV(PutNzc(cpsr, result, c), cpsr / 0x1000_0000 % 2 == 1)
  {
    FlagsWritten(cpsr, result, c, cpsr / 0x1000_0000 % 2 == 1);
    KeepBit28(cpsr);
  }

  lemma FlagsPut(s: State, result: word, f: FlagUpdate)
    requires f != NoFlags && f.c < 2
    ensures FlagsAre(s, UpdateFlags(s, result, f), result >= 0x8000_0000, result == 0, f.c == 1,
                     if f.Nzcv? then f.v else s.cpsr / 0x1000_0000 % 2 == 1)
  {
    var s' := UpdateFlags(s, result, f);
    var v := if f.Nzcv? then f.v else s.cpsr / 0x1000_0000 % 2 == 1;
    OldV(s.cpsr, result, f.c);
    FlagsWritten(s.cpsr, result, f.c, v);
    FlagsOfSum(if Negative(result) then 1 else 0, if result == 0 then 1 else 0, f.c, if v then 1 else 0,
               s.cpsr % 0x1000_0000);
    FlagNumbers(s'.cpsr);
    SameLowBits(s.cpsr, s'.cpsr);
  }

  // ---------- results ----------

  // v is the result of an operation on a and b; c is the carry out of the shifter, which the code
  // also takes for the carry in.  The logical operations are given bit by bit.
  predicate Computes(op: nat, a: word, b: word, c: word, v: word) {
    && (op in {0, 8} ==> forall i :: 0 <= i < 32 ==> (GetBit(v, i) == 1 <==> GetBit(a, i) == 1 && GetBit(b, i) == 1))
    && (op in {1, 9} ==> forall i :: 0 <= i < 32 ==> (GetBit(v, i) == 1 <==> GetBit(a, i) != GetBit(b, i)))
    && (op in {2, 10} ==> v == (a - b) % 0x1_0000_0000)
    && (op == 3 ==> v == (b - a) % 0x1_0000_0000)
    && (op in {4, 11} ==> v == (a + b) % 0x1_0000_0000)
    && (op == 5 ==> v == (a + b + c) % 0x1_0000_0000)
    && (op == 6 ==> v == (a - b - 1 + c) % 0x1_0000_0000)
    && (op == 7 ==> v == (b - a - 1 + c) % 0x1_0000_0000)
    && (op == 12 ==> forall i :: 0 <= i < 32 ==> (GetBit(v, i) == 1 <==> GetBit(a, i) == 1 || GetBit(b, i) == 1))
    && (op == 13 ==> v == b)
    && (op == 14 ==> forall i :: 0 <= i < 32 ==> (GetBit(v, i) == 1 <==> GetBit(a, i) == 1 && GetBit(b, i) == 0))
    && (op == 15 ==> v == 0xFFFF_FFFF - b)
  }

  // The carry that the operation leaves: the borrow of a subtraction, the overflow of a sum, what
  // rsb and rsc make of theirs, bit 28 of a bic, and the shifter's carry of the other logical ones.
  predicate CarryAfter(op: nat, a: word, b: word, c: word, v: word) {
    if op in {2, 10} then a < b
    else if op == 3 then b < 0x8000_0000 || v >= 0x8000_0000
    else if op in {4, 11} then a + b >= 0x1_0000_0000
    else if op == 5 then (a + b) % 0x1_0000_0000 + c >= 0x1_0000_0000
    else if op == 6 then a < b + 1 - c < 0x1_0000_0000
    else if op == 7 then v > a
    else if op == 14 then v / 0x1000_0000 % 2 == 1
    else c == 1
  }

  // The V that it leaves, from the signs of one operand and the result.
  predicate OverflowAfter(op: nat, a: word, b: word, v: word, before: bool) {
    if op in {2, 6, 7, 10} then a >= 0x8000_0000 && v < 0x8000_0000
    else if op == 3 then b >= 0x8000_0000 && v < 0x8000_0000
    else if op in {4, 11} then a < 0x8000_0000 && v >= 0x8000_0000
    else if op == 5 then (a + b) % 0x1_0000_0000 < 0x8000_0000 && v >= 0x8000_0000
    else before
  }

  lemma AndOf(a: word, b: word)
    ensures Computes(0, a, b, 0, BitAnd(a, b))
  {
    forall i | 0 <= i < 32 ensures GetBit(BitAnd(a, b), i) == 1 <==> GetBit(a, i) == 1 && GetBit(b, i) == 1 {
      AndBit(a, b, i);
    }
  }

  lemma XorOf(a: word, b: word)
    ensures Computes(1, a, b, 0, BitXor(a, b))
  {
    forall i | 0 <= i < 32 ensures GetBit(BitXor(a, b), i) == 1 <==> GetBit(a, i) != GetBit(b, i) {
      XorBit(a, b, i);
    }
  }

  lemma OrOf(a: word, b: word)
    ensures Computes(12, a, b, 0, BitOr(a, b))
  {
    forall i | 0 <= i < 32 ensures GetBit(BitOr(a, b), i) == 1 <==> GetBit(a, i) == 1 || GetBit(b, i) == 1 {
      OrBitAt(a, b, i);
    }
  }

  lemma ClearOf(a: word, b: word)
    ensures Computes(14, a, b, 0, BitAnd(a, BitNot(b)))
  {
    Pow2At32();
    forall i | 0 <= i < 32
      ensures GetBit(BitAnd(a, BitNot(b)), i) == 1 <==> GetBit(a, i) == 1 && GetBit(b, i) == 0
    {
      AndBit(a, BitNot(b), i);
      NotBit(b, 0xFFFF_FFFF, 32, i);
    }
  }

  // What an operation writes to its register.
  function ResultOf(op: nat, a: word, o: Operand): (v: word)
    requires o.carry < 2
  {
    var b, c := o.value, o.carry;
    if op in {0, 8} then BitAnd(a, b)
    else if op in {1, 9} then BitXor(a, b)
    else if op in {2, 10} then Sub(a, b)
    else if op == 3 then Sub(b, a)
    else if op in {4, 11} then Add(a, b)
    else if op == 5 then Add(Add(a, b), c)
    else if op == 6 then Sub(a, b + 1 - c)
    else if op == 7 then Sub(b, a + 1 - c)
    else if op == 12 then BitOr(a, b)
    else if op == 13 then b
    else if op == 14 then BitAnd(a, BitNot(b))
    else BitNot(b)
  }

  lemma ResultComputes(op: nat, a: word, o: Operand)
    requires op < 16 && o.carry < 2
    ensures Computes(op, a, o.value, o.carry, ResultOf(op, a, o))
  {
    var b := o.value;
    if op in {0, 8} {
      AndOf(a, b);
    } else if op in {1, 9} {
      XorOf(a, b);
    } else if op == 12 {
      OrOf(a, b);
    } else if op == 14 {
      ClearOf(a, b);
    } else if op == 5 {
      AddOffset(a, b, o.carry);
    }
  }

  lemma WriteTwice(s: State, rd: nat, v: word, w: word)
    requires rd < 15 && IsMode(s.mode)
    ensures Read(SetReg(s, rd, v), rd) == v && SetReg(SetReg(s, rd, v), rd, w) == SetReg(s, rd, w)
  {
  }

  // Without flags, the operation writes its result to its register and does nothing else.
  lemma Unflagged(s: State, op: nat, a: word, o: Operand, rd: nat) returns (v: word)
    requires op < 16 && op !in {8, 9, 10, 11} && o.carry < 2 && rd < 15 && IsMode(s.mode)
    ensures Computes(op, a, o.value, o.carry, v) && Execute(s, op, a, o, rd, false) == (SetReg(s, rd, v), 0)
  {
    v := ResultOf(op, a, o);
    ResultComputes(op, a, o);
    if op == 5 {
      WriteTwice(s, rd, Add(a, o.value), v);
    }
  }

  predicate V(s: State) { s.cpsr / 0x1000_0000 % 2 == 1 }

  lemma RetireFlagged(s: State, rd: nat, v: word, f: FlagUpdate)
    requires rd < 15 && IsMode(s.mode) && f != NoFlags && f.c < 2 && v != Read(s, 15)
    ensures var (s', r) := Retire(s, rd, v, f);
            && r == 0 && s' == UpdateFlags(SetReg(s, rd, v), v, f)
            && FlagsAre(SetReg(s, rd, v), s', v >= 0x8000_0000, v == 0, f.c == 1, if f.Nzcv? then f.v else V(s))
  {
    TakenForPc(s, rd, v, f);
    FlagsPut(SetReg(s, rd, v), v, f);
  }

  lemma BorrowNumbers(a: word, b: word, c: word)
    requires c < 2
    ensures Borrow(Sub(a, b + 1 - c), a) == if a < b + 1 - c < 0x1_0000_0000 then 1 else 0
  {
  }

  // Setting flags and then others.
  lemma FlagsTwice(s: State, s1: State, s2: State, s': State, rd: nat, w: word, v: word,
                   n: bool, z: bool, c: bool, o: bool)
    requires rd < 15 && IsMode(s.mode) && ModeAgrees(s)
    requires OnlyFlagsChange(SetReg(s, rd, w), s1) && s2 == SetReg(s1, rd, v) && FlagsAre(s2, s', n, z, c, o)
    ensures FlagsAre(SetReg(s, rd, v), s', n, z, c, o)
  {
    WriteTwice(s, rd, w, v);
    SameLowBits(s.cpsr, s1.cpsr);
    SameLowBits(s.cpsr, s'.cpsr);
  }

  // The flags of adc come from its second addition.
  lemma AdcFlagged(s: State, a: word, b: word, c: word, rd: nat)
    requires c < 2 && rd < 15 && IsMode(s.mode) && ModeAgrees(s)
    requires Add(a, b) != Read(s, 15) && Add(Add(a, b), c) != Read(s, 15)
    ensures var (s', r) := AdcTo(s, a, b, c, rd, true);
            var w, v := Add(a, b), Add(Add(a, b), c);
            r == 0 && FlagsAre(SetReg(s, rd, v), s', v >= 0x8000_0000, v == 0, w + c >= 0x1_0000_0000,
                               w < 0x8000_0000 && v >= 0x8000_0000)
  {
    var w, v := Add(a, b), Add(Add(a, b), c);
    RetireFlagged(s, rd, w, AddFlags(a, w));
    var s1 := AddTo(s, a, b, rd, true).0;
    assert s1.mode == s.mode && Read(s1, rd) == w && Read(s1, 15) == Read(s, 15) by {
      WriteTwice(s, rd, w, v);
      ReadAfterWrite(s.file, rd, s.mode, w, 15, s.mode);
    }
    CarryIsOverflow(w, c);
    RetireFlagged(s1, rd, v, AddFlags(w, v));
    var s' := AddTo(s1, w, c, rd, true).0;
    FlagsTwice(s, s1, SetReg(s1, rd, v), s', rd, w, v, v >= 0x8000_0000, v == 0, w + c >= 0x1_0000_0000,
               w < 0x8000_0000 && v >= 0x8000_0000);
  }

  // The result is not what the pc reads as, nor for adc its first sum.
  predicate NotThePc(pc: word, op: nat, a: word, b: word, v: word) {
    v != pc && (op == 5 ==> (a + b) % 0x1_0000_0000 != pc)
  }

  function FlagsFor(op: nat, a: word, b: word, c: word, v: word): (f: FlagUpdate)
    requires c < 2
    ensures f != NoFlags && f.c < 2
  {
    if op in {2, 6, 7} then SubFlags(a, v)
    else if op == 3 then Nzcv(if Negative(b) && !Negative(v) then 0 else 1, Negative(b) && !Negative(v))
    else if op == 4 then AddFlags(a, v)
    else if op == 14 then Nzc(GetBit(v, 28))
    else Nzc(c)
  }

  lemma ExecuteIsRetire(s: State, op: nat, a: word, o: Operand, rd: nat)
    requires op < 16 && op !in {5, 8, 9, 10, 11} && o.carry < 2
    ensures Execute(s, op, a, o, rd, true)
         == Retire(s, rd, ResultOf(op, a, o), FlagsFor(op, a, o.value, o.carry, ResultOf(op, a, o)))
  {
  }

  lemma FlagsForAreRight(s: State, op: nat, a: word, o: Operand, v: word)
    requires op < 16 && op !in {5, 8, 9, 10, 11} && o.carry < 2 && v == ResultOf(op, a, o)
    ensures var f := FlagsFor(op, a, o.value, o.carry, v);
            && (f.c == 1 <==> CarryAfter(op, a, o.value, o.carry, v))
            && ((if f.Nzcv? then f.v else V(s)) <==> OverflowAfter(op, a, o.value, v, V(s)))
  {
    BorrowIsBelow(a, o.value);
    BorrowNumbers(a, o.value, o.carry);
    CarryIsOverflow(a, o.value);
    FlagNumbers(v);
  }

  lemma RetiredFlags(s: State, op: nat, a: word, o: Operand, rd: nat, v: word)
    requires op < 16 && op !in {5, 8, 9, 10, 11} && o.carry < 2 && rd < 15 && IsMode(s.mode)
    requires v == ResultOf(op, a, o) != Read(s, 15)
    ensures var (s', r) := Retire(s, rd, v, FlagsFor(op, a, o.value, o.carry, v));
            r == 0 && FlagsAre(SetReg(s, rd, v), s', v >= 0x8000_0000, v == 0,
                               CarryAfter(op, a, o.value, o.carry, v), OverflowAfter(op, a, o.value, v, V(s)))
  {
    RetireFlagged(s, rd, v, FlagsFor(op, a, o.value, o.carry, v));
    FlagsForAreRight(s, op, a, o, v);
  }

  // With flags, it also sets them, unless its result is what the pc reads as (see TakenForPc).
  lemma Flagged(s: State, op: nat, a: word, o: Operand, rd: nat) returns (v: word, s': State)
    requires op < 16 && op !in {8, 9, 10, 11} && o.carry < 2 && rd < 15 && IsMode(s.mode) && ModeAgrees(s)
    ensures Computes(op, a, o.value, o.carry, v)
    ensures NotThePc(Read(s, 15), op, a, o.value, v) ==>
              && Execute(s, op, a, o, rd, true) == (s', 0)
              && FlagsAre(SetReg(s, rd, v), s', v >= 0x8000_0000, v == 0,
                          CarryAfter(op, a, o.value, o.carry, v), OverflowAfter(op, a, o.value, v, V(s)))
  {
    v := ResultOf(op, a, o);
    ResultComputes(op, a, o);
    if op == 5 {
      s' := AdcTo(s, a, o.value, o.carry, rd, true).0;
      if NotThePc(Read(s, 15), op, a, o.value, v) {
        AdcFlagged(s, a, o.value, o.carry, rd);
      }
    } else {
      s' := Retire(s, rd, v, FlagsFor(op, a, o.value, o.carry, v)).0;
      ExecuteIsRetire(s, op, a, o, rd);
      if NotThePc(Read(s, 15), op, a, o.value, v) {
        RetiredFlags(s, op, a, o, rd, v);
      }
    }
  }

  // The tests write no register: tst, cmp and cmn.
  lemma Tested(s: State, op: nat, a: word, o: Operand, rd: nat, setCond: bool) returns (v: word)
    requires op in {8, 10, 11} && o.carry < 2
    ensures Computes(op, a, o.value, o.carry, v)
    ensures var (s', r) := Execute(s, op, a, o, rd, setCond);
            r == 0 && FlagsAre(s, s', v >= 0x8000_0000, v == 0, CarryAfter(op, a, o.value, o.carry, v),
                               OverflowAfter(op, a, o.value, v, V(s)))
  {
    v := ResultOf(op, a, o);
    ResultComputes(op, a, o);
    BorrowIsBelow(a, o.value);
    CarryIsOverflow(a, o.value);
    FlagsPut(s, v, if op == 8 then Nzc(o.carry) else if op == 10 then SubFlags(a, v) else AddFlags(a, v));
  }

  // teq writes the exclusive or to its register, and then sets the flags of its own success: N is
  // clear and Z set whatever the operands are.
  lemma TestedEqual(s: State, a: word, o: Operand, rd: nat, setCond: bool) returns (v: word)
    requires o.carry < 2 && rd < 15 && IsMode(s.mode) && ModeAgrees(s)
    ensures Computes(9, a, o.value, o.carry, v)
    ensures v != Read(s, 15) ==>
              var (s', r) := Execute(s, 9, a, o, rd, setCond);
              r == 0 && FlagsAre(SetReg(s, rd, v), s', false, true, o.carry == 1, V(s))
  {
    v := ResultOf(9, a, o);
    ResultComputes(9, a, o);
    if v != Read(s, 15) {
      var f := Nzc(o.carry);
      RetireFlagged(s, rd, v, f);
      FlagsPut(Retire(s, rd, v, f).0, 0, f);
    }
  }

  // The encodings that reach the data-processing operations.
  predicate IsDataProcessing(ins: word) {
    var category, op := GetBits(ins, 27, 25), GetBits(ins, 24, 23);
    || (category == 1 && !(op == 2 && GetBits(ins, 21, 20) in {0, 2}))
    || (category == 0 && GetBits(ins, 27, 20) != 18 && GetBits(ins, 7, 4) != 11
        && !(op == 2 && GetBit(ins, 20) == 0) && !(GetBit(ins, 4) == 1 && GetBit(ins, 7) == 1))
  }

  lemma DataProcessingDecodes(s: State, ins: word, junk: word)
    requires IsDataProcessing(ins)
    ensures Decode(s, ins, junk) == DataProcess(s, ins)
  {
  }

  // ---------- whole steps ----------

  function FirstOperand(s: State, ins: word): (a: word) { Read(Fetched(s), RegField(ins, 16)) }

  function SecondOperand(s: State, ins: word): (o: Operand)
    ensures o.carry < 2
  {
    OperandOf(Fetched(s), ins)
  }

  lemma OperationStep(s: State, ins: word, junk: word, op: nat, rd: nat, s': State)
    requires Executes(s, ins) && IsDataProcessing(ins) && op == GetBits(ins, 24, 21) && rd == RegField(ins, 12)
    requires Execute(Fetched(s), op, FirstOperand(s, ins), SecondOperand(s, ins), rd, GetBit(ins, 20) == 1) == (s', 0)
    ensures Step(s, junk) == (s', 0)
  {
    DataProcessingDecodes(Fetched(s), ins, junk);
    StepDecodes(s, ins, junk, s');
  }

  // The register and the pc after a step that writes one register: nothing else is different.
  predicate OneRegisterWritten(s: State, s': State, rd: nat, v: word, p: nat)
    requires p < PHYSICAL
  {
    && Raw(s', rd) == v && Raw(s', 15) == (Raw(s, 15) + 4) % 0x1_0000_0000
    && (p != 0 && p != Physical(rd, s.mode) ==> s'.file[p] == s.file[p])
    && s'.spsr == s.spsr && s'.mem == s.mem && s'.be == s.be && s'.cycles == (s.cycles + 1) % 0x1_0000_0000
  }

  lemma WrittenAfterFetch(s: State, rd: nat, v: word, p: nat)
    requires rd < 15 && IsMode(s.mode) && p < PHYSICAL
    ensures OneRegisterWritten(s, SetReg(Fetched(s), rd, v), rd, v, p)
  {
    FetchEffect(s, p);
    ReadAfterWrite(Fetched(s).file, rd, s.mode, v, rd, s.mode);
    ReadAfterWrite(Fetched(s).file, rd, s.mode, v, 15, s.mode);
  }

  lemma FlagsKeepWritten(s: State, s1: State, s': State, rd: nat, v: word, p: nat)
    requires p < PHYSICAL && OneRegisterWritten(s, s1, rd, v, p) && ModeAgrees(s1) && OnlyFlagsChange(s1, s')
    ensures OneRegisterWritten(s, s', rd, v, p)
  {
  }

  lemma OperationCode(ins: word)
    ensures GetBits(ins, 24, 21) < 16
  {
    LowRange(High(ins, 21), 4);
    assert Pow2(4) == 16;
  }

  // A step of an operation that writes a register, without flags.
  lemma UnflaggedStep(s: State, ins: word, junk: word, op: nat, rd: nat, p: nat) returns (v: word)
    requires Executes(s, ins) && IsDataProcessing(ins) && op == GetBits(ins, 24, 21) && rd == RegField(ins, 12)
    requires op !in {8, 9, 10, 11} && GetBit(ins, 20) == 0 && rd < 15 && IsMode(s.mode) && p < PHYSICAL
    ensures Computes(op, FirstOperand(s, ins), SecondOperand(s, ins).value, SecondOperand(s, ins).carry, v)
    ensures var (s', r) := Step(s, junk);
            r == 0 && OneRegisterWritten(s, s', rd, v, p) && s'.cpsr == s.cpsr && s'.mode == s.mode
  {
    OperationCode(ins);
    v := Unflagged(Fetched(s), op, FirstOperand(s, ins), SecondOperand(s, ins), rd);
    OperationStep(s, ins, junk, op, rd, SetReg(Fetched(s), rd, v));
    WrittenAfterFetch(s, rd, v, p);
  }

  // s' is what an operation with flags makes of s: its register written, and the flags set.
  predicate FlagsAndRegister(s: State, s': State, op: nat, a: word, b: word, c: word, rd: nat, v: word, p: nat)
    requires p < PHYSICAL
  {
    && OneRegisterWritten(s, s', rd, v, p)
    && FlagsAre(SetReg(Fetched(s), rd, v), s', v >= 0x8000_0000, v == 0,
                CarryAfter(op, a, b, c, v), OverflowAfter(op, a, b, v, V(s)))
  }

  lemma FlaggedAfterFetch(s: State, op: nat, a: word, o: Operand, rd: nat, p: nat) returns (v: word, s': State)
    requires op < 16 && op !in {8, 9, 10, 11} && o.carry < 2 && rd < 15 && p < PHYSICAL
    requires IsMode(s.mode) && ModeAgrees(s)
    ensures Computes(op, a, o.value, o.carry, v)
    ensures NotThePc(Read(Fetched(s), 15), op, a, o.value, v) ==>
              && Execute(Fetched(s), op, a, o, rd, true) == (s', 0)
              && FlagsAndRegister(s, s', op, a, o.value, o.carry, rd, v, p)
  {
    v, s' := Flagged(Fetched(s), op, a, o, rd);
    WrittenAfterFetch(s, rd, v, p);
    if NotThePc(Read(Fetched(s), 15), op, a, o.value, v) {
      FlagsKeepWritten(s, SetReg(Fetched(s), rd, v), s', rd, v, p);
    }
  }

  // And with flags.
  lemma FlaggedStep(s: State, ins: word, junk: word, op: nat, rd: nat, p: nat) returns (v: word)
    requires Executes(s, ins) && IsDataProcessing(ins) && op == GetBits(ins, 24, 21) && rd == RegField(ins, 12)
    requires op !in {8, 9, 10, 11} && GetBit(ins, 20) == 1 && rd < 15 && p < PHYSICAL
    requires IsMode(s.mode) && ModeAgrees(s)
    ensures var a, o := FirstOperand(s, ins), SecondOperand(s, ins);
            && Computes(op, a, o.value, o.carry, v)
            && (NotThePc(Read(Fetched(s), 15), op, a, o.value, v) ==>
                  && Step(s, junk).1 == 0
                  && FlagsAndRegister(s, Step(s, junk).0, op, a, o.value, o.carry, rd, v, p))
  {
    OperationCode(ins);
    var a, o := FirstOperand(s, ins), SecondOperand(s, ins);
    var s';
    v, s' := FlaggedAfterFetch(s, op, a, o, rd, p);
    if NotThePc(Read(Fetched(s), 15), op, a, o.value, v) {
      OperationStep(s, ins, junk, op, rd, s');
    }
  }

  // A step of tst, cmp or cmn: the flags, and no register but the pc.
  lemma TestStep(s: State, ins: word, junk: word, op: nat) returns (v: word)
    requires Executes(s, ins) && IsDataProcessing(ins) && op == GetBits(ins, 24, 21) && op in {8, 10, 11}
    ensures var a, o, s' := FirstOperand(s, ins), SecondOperand(s, ins), Step(s, junk).0;
            && Computes(op, a, o.value, o.carry, v) && Step(s, junk).1 == 0
            && FlagsAre(Fetched(s), s', v >= 0x8000_0000, v == 0,
                        CarryAfter(op, a, o.value, o.carry, v), OverflowAfter(op, a, o.value, v, V(s)))
  {
    var a, o, rd, setCond := FirstOperand(s, ins), SecondOperand(s, ins), RegField(ins, 12), GetBit(ins, 20) == 1;
    v := Tested(Fetched(s), op, a, o, rd, setCond);
    OperationStep(s, ins, junk, op, rd, Execute(Fetched(s), op, a, o, rd, setCond).0);
  }

  // A step of teq.
  lemma TestEqualStep(s: State, ins: word, junk: word, rd: nat, p: nat) returns (v: word)
    requires Executes(s, ins) && IsDataProcessing(ins) && GetBits(ins, 24, 21) == 9 && rd == RegField(ins, 12)
    requires rd < 15 && p < PHYSICAL && IsMode(s.mode) && ModeAgrees(s)
    ensures var o := SecondOperand(s, ins);
            && Computes(9, FirstOperand(s, ins), o.value, o.carry, v)
            && (v != Read(Fetched(s), 15) ==>
                  var (s', r) := Step(s, junk);
                  && r == 0 && OneRegisterWritten(s, s', rd, v, p)
                  && FlagsAre(SetReg(Fetched(s), rd, v), s', false, true, o.carry == 1, V(s)))
  {
    var a, o, setCond := FirstOperand(s, ins), SecondOperand(s, ins), GetBit(ins, 20) == 1;
    v := TestedEqual(Fetched(s), a, o, rd, setCond);
    if v != Read(Fetched(s), 15) {
      var s' := Execute(Fetched(s), 9, a, o, rd, setCond).0;
      OperationStep(s, ins, junk, 9, rd, s');
      WrittenAfterFetch(s, rd, v, p);
      FlagsKeepWritten(s, SetReg(Fetched(s), rd, v), s', rd, v, p);
    }
  }

  // ---------- encodings in numbers ----------

  lemma Powers()
    ensures Pow2(0) == 1 && Pow2(1) == 2 && Pow2(2) == 4 && Pow2(3) == 8 && Pow2(4) == 0x10 && Pow2(8) == 0x100
    ensures Pow2(7) == 0x80 && Pow2(12) == 0x1000 && Pow2(16) == 0x1_0000 && Pow2(20) == 0x10_0000
    ensures Pow2(21) == 0x20_0000 && Pow2(23) == 0x80_0000 && Pow2(25) == 0x200_0000
  {
    Pow2Bytes();
    assert Pow2(4) == 0x10;
    assert Pow2(12) == 0x10 * Pow2(8) && Pow2(20) == 0x10 * Pow2(16) && Pow2(21) == 2 * Pow2(20);
    assert Pow2(24) == 2 * Pow2(23) && Pow2(25) == 2 * Pow2(24);
  }

  // The fields of a data-processing instruction as its digits.
  lemma OperationFields(ins: word)
    ensures GetBits(ins, 24, 21) == ins / 0x20_0000 % 0x10 && GetBit(ins, 20) == ins / 0x10_0000 % 2
    ensures RegField(ins, 16) == ins / 0x1_0000 % 0x10 && RegField(ins, 12) == ins / 0x1000 % 0x10
    ensures RegField(ins, 8) == ins / 0x100 % 0x10 && RegField(ins, 0) == ins % 0x10
  {
    Powers();
    FieldIsDigits(ins, 24, 21, 0x20_0000, 0x10);
    BitIsDigit(ins, 20, 0x10_0000);
    FieldIsDigits(ins, 19, 16, 0x1_0000, 0x10);
    FieldIsDigits(ins, 15, 12, 0x1000, 0x10);
    FieldIsDigits(ins, 11, 8, 0x100, 0x10);
    FieldIsDigits(ins, 3, 0, 1, 0x10);
  }

  // The fields that decoding looks at.
  lemma DecodingFields(ins: word)
    ensures GetBits(ins, 27, 25) == ins / 0x200_0000 % 8 && GetBits(ins, 24, 23) == ins / 0x80_0000 % 4
    ensures GetBits(ins, 21, 20) == ins / 0x10_0000 % 4 && GetBits(ins, 27, 20) == ins / 0x10_0000 % 0x100
    ensures GetBits(ins, 7, 4) == ins / 0x10 % 0x10 && GetBit(ins, 7) == ins / 0x80 % 2
  {
    Powers();
    FieldIsDigits(ins, 27, 25, 0x200_0000, 8);
    FieldIsDigits(ins, 24, 23, 0x80_0000, 4);
    FieldIsDigits(ins, 21, 20, 0x10_0000, 4);
    FieldIsDigits(ins, 27, 20, 0x10_0000, 0x100);
    FieldIsDigits(ins, 7, 4, 0x10, 0x10);
    BitIsDigit(ins, 7, 0x80);
  }

  // The second operand of an executed instruction in numbers: its registers are read after the
  // fetch, and its carry in is bit 29 of the CPSR.
  lemma SecondOperandInNumbers(s: State, ins: word)
    requires Dispatched(ins)
    ensures var r, kind, n, c := SecondOperand(s, ins), ins / 0x20 % 4, ins / 0x80 % 32, s.cpsr / 0x2000_0000 % 2;
            var rm, rs := Read(Fetched(s), ins % 0x10), Read(Fetched(s), ins / 0x100 % 0x10);
            if ins / 0x200_0000 % 2 == 1 then ShiftsTo(3, ins % 0x100, 2 * (ins / 0x100 % 16), c, r)
            else if ins / 0x10 % 2 == 1 then ShiftsTo(kind, rm, rs % 0x100, c, r)
            else ShiftsByField(kind, rm, n, c, r)
  {
    OperationFields(ins);
    FlagNumbers(s.cpsr);
    var rm, rs, c := Read(Fetched(s), ins % 0x10), Read(Fetched(s), ins / 0x100 % 0x10), s.cpsr / 0x2000_0000 % 2;
    CarryIsShifterOperand(ins, rm, rs, c);
    OperandInNumbers(ins, rm, rs, c);
  }
}

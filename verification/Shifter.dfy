/**
 The barrel shifter (arm_data_processing_functions.c) and the second implementation of the
 immediate shifts that load/store addressing uses (load_store_addressing_operations.c).
 */
module Shifter {
  import opened Words

  datatype Shift = LSL | LSR | ASR | ROR | RRX

  datatype Operand = Operand(value: word, carry: word)

  function RotatedWithCarry(x: word, c: word): (r: Operand) {
    Operand((x + (if c == 1 then TWO32 else 0)) / 2, x % 2)
  }

  lemma RotationRange(x: word, k: nat)
    requires 1 <= k < 32
    ensures 0 <= High(x, k) + Up(Low(x, k), 32 - k) < TWO32
  {
    assert Ror(x, k) == High(x, k) + Up(Low(x, k), 32 - k);
  }

  // Rotation by k places; a multiple of 32 only brings out the top bit.
  function Rotated(x: word, k: nat): (r: Operand)
    requires k < 32
  {
    if k == 0 then Operand(x, x / 0x8000_0000)
    else
      RotationRange(x, k);
      Operand(High(x, k) + Up(Low(x, k), 32 - k), High(x, k - 1) % 2)
  }

  // The shifts of section A5.1: move up, move down, move the signed value down, rotate.  The
  // carry is the last bit shifted out, and c when nothing moves.
  function Shifted(kind: Shift, x: word, n: nat, c: word): (r: Operand)
    ensures c < 2 ==> r.carry < 2
  {
    if kind == RRX then RotatedWithCarry(x, c)
    else if n == 0 then Operand(x, c)
    else if kind == LSL then Operand(Up(x, n) % TWO32, Up(x, n) / TWO32 % 2)
    else if kind == LSR then HighRange(x, n); Operand(High(x, n), High(x, n - 1) % 2)
    else if kind == ASR then Operand(High(Signed(x), n) % TWO32, High(Signed(x), n - 1) % 2)
    else Rotated(x, n % 32)
  }

  lemma RotationIsArithmetic(x: word, k: nat)
    requires k < 32
    ensures Rotated(x, k).value == x / Pow2(k) + x % Pow2(k) * Pow2(32 - k)
    ensures Rotated(x, k).carry == if k > 0 then x / Pow2(k - 1) % 2 else x / 0x8000_0000
  {
    if k > 0 {
      HighLowAreDivMod(x, k);
      HighLowAreDivMod(x, k - 1);
      UpIsTimes(Low(x, k), 32 - k);
    } else {
      assert Pow2(0) == 1;
      assert x % 1 * Pow2(32) == 0;
    }
  }

  lemma LeftIsTimes(x: word, n: nat, c: word)
    requires n >= 1
    ensures Shifted(LSL, x, n, c) == Operand(x * Pow2(n) % TWO32, x * Pow2(n) / TWO32 % 2)
  {
    UpIsTimes(x, n);
  }

  lemma RightIsDivision(x: word, n: nat, c: word)
    requires n >= 1
    ensures Shifted(LSR, x, n, c).value == x / Pow2(n)
    ensures Shifted(LSR, x, n, c).carry == x / Pow2(n - 1) % 2
  {
    HighLowAreDivMod(x, n);
    HighLowAreDivMod(x, n - 1);
  }

  lemma SignedIsDivision(x: word, n: nat, c: word)
    requires n >= 1
    ensures Shifted(ASR, x, n, c).value == Signed(x) / Pow2(n) % TWO32
    ensures Shifted(ASR, x, n, c).carry == Signed(x) / Pow2(n - 1) % 2
  {
    HighLowAreDivMod(Signed(x), n);
    HighLowAreDivMod(Signed(x), n - 1);
  }

  // The same in integer arithmetic: multiply, divide, divide the signed value and round down,
  // and swap quotient and remainder.
  lemma ShiftedIsArithmetic(x: word, n: nat, c: word)
    requires n >= 1
    ensures Shifted(LSL, x, n, c) == Operand(x * Pow2(n) % TWO32, x * Pow2(n) / TWO32 % 2)
    ensures Shifted(LSR, x, n, c).value == x / Pow2(n)
    ensures Shifted(LSR, x, n, c).carry == x / Pow2(n - 1) % 2
    ensures Shifted(ASR, x, n, c).value == Signed(x) / Pow2(n) % TWO32
    ensures Shifted(ASR, x, n, c).carry == Signed(x) / Pow2(n - 1) % 2
    ensures var k := n % 32; Shifted(ROR, x, n, c).value == x / Pow2(k) + x % Pow2(k) * Pow2(32 - k)
    ensures var k := n % 32; Shifted(ROR, x, n, c).carry == if k > 0 then x / Pow2(k - 1) % 2 else x / 0x8000_0000
  {
    LeftIsTimes(x, n, c);
    RightIsDivision(x, n, c);
    SignedIsDivision(x, n, c);
    RotationIsArithmetic(x, n % 32);
  }

  // ---------- what shifts and rotations do to words ----------

  lemma ShortRotation(x: word, n: nat, c: word)
    requires 1 <= n < 32
    ensures Shifted(ROR, x, n, c) == Rotated(x, n)
  {
    assert n % 32 == n;
  }

  lemma {:induction false} BitOfLow(x: int, n: nat)
    requires n >= 1
    ensures High(Low(x, n), n - 1) == High(x, n - 1) % 2
    decreases n
  {
    if n > 1 {
      BitOfLow(x / 2, n - 1);
      assert Low(x, n) / 2 == Low(x / 2, n - 1);
    }
  }

  lemma RotatedHigh(x: word, n: nat)
    requires 1 <= n < 32
    ensures High(Ror(x, n), 32 - n) == Low(x, n)
  {
    var h, l := High(x, n), Low(x, n);
    assert Ror(x, n) == h + Up(l, 32 - n);
    Pow2At32();
    HighRange(x, n);
    HighBelow(x, n, 32 - n);
    JoinParts(l, h, 32 - n);
  }

  lemma RotatedTopBit(x: word, n: nat)
    requires 1 <= n < 32
    ensures GetBit(Ror(x, n), 31) == High(x, n - 1) % 2
  {
    var r, l := Ror(x, n), Low(x, n);
    assert High(r, 32 - n) == l by {
      RotatedHigh(x, n);
    }
    assert High(r, 31) == High(l, n - 1) by {
      HighHigh(r, 32 - n, n - 1);
    }
    BitOfLow(x, n);
  }

  lemma ShiftedRor(x: word, n: nat, c: word)
    requires 1 <= n < 32
    ensures Shifted(ROR, x, n, c) == Operand(Ror(x, n), GetBit(Ror(x, n), 31))
  {
    RotatedTopBit(x, n);
    ShortRotation(x, n, c);
  }

  lemma LowByte(rs: word)
    ensures GetBits(rs, 7, 0) == rs % 0x100
  {
    HighLowAreDivMod(rs, 8);
    assert Pow2(8) == 0x100;
  }

  lemma LeftShift(x: word, n: nat)
    requires 1 <= n < 32
    ensures GetBit(x, 32 - n) == Up(x, n) / TWO32 % 2
  {
    UpSplit(x, 32 - n, n);
    ShlFields(x, n);
    DivModIs(Up(x, n), TWO32, High(x, 32 - n), Shl(x, n));
  }

  lemma MultipleOfTwo32(y: int, u: int)
    requires y == TWO32 * u
    ensures y % TWO32 == 0 && y / TWO32 % 2 == u % 2
  {
  }

  lemma UpEven(x: int, n: nat)
    requires n >= 1
    ensures Up(x, n) % 2 == 0
  {
  }

  lemma FarLeftShift(x: word, n: nat)
    requires n >= 32
    ensures Up(x, n) % TWO32 == 0
    ensures Up(x, n) / TWO32 % 2 == if n == 32 then x % 2 else 0
  {
    var u := Up(x, n - 32);
    assert Up(x, n) == TWO32 * u by {
      UpUp(x, n - 32, 32);
      Up32(u);
    }
    MultipleOfTwo32(Up(x, n), u);
    if n > 32 {
      UpEven(x, n - 32);
    }
  }

  lemma FitsBelow(x: word, n: nat)
    requires n >= 32
    ensures High(x, n) == 0
  {
    Pow2At32();
    if n > 32 {
      Pow2Less(32, n);
    }
    LowSmall(x, n);
  }

  lemma FarRightShift(x: word, n: nat)
    requires n >= 32
    ensures High(x, n) == 0
    ensures High(x, n - 1) % 2 == if n == 32 then GetBit(x, 31) else 0
  {
    FitsBelow(x, n);
    if n > 32 {
      FitsBelow(x, n - 1);
    }
  }

  lemma SignKeepsBit(x: word, i: nat)
    requires i < 32
    ensures High(Signed(x), i) % 2 == High(x, i) % 2
  {
    Pow2At32();
    UpPow2(32 - i, i);
    HighSub(x, Pow2(32 - i), i);
  }

  // From 31 places on only the sign is left.
  lemma {:induction false} OnlySign(x: int, n: nat)
    requires 0 <= x + Pow2(n) && x < Pow2(n)
    ensures High(x, n) == if x < 0 then -1 else 0
    decreases n
  {
    if n > 0 {
      OnlySign(x / 2, n - 1);
    }
  }

  lemma SignedBelow(x: word, n: nat)
    requires n >= 31
    ensures 0 <= Signed(x) + Pow2(n) && Signed(x) < Pow2(n)
  {
    Pow2At32();
    assert Pow2(32) == 2 * Pow2(31);
    if n > 31 {
      Pow2Less(31, n);
    }
  }

  lemma FarSignedShift(x: word, n: nat)
    requires n >= 32
    ensures High(Signed(x), n) % TWO32 == if GetBit(x, 31) == 0 then 0 else 0xFFFF_FFFF
    ensures High(Signed(x), n - 1) % 2 == GetBit(x, 31)
  {
    TopBit(x);
    SignedBelow(x, n);
    SignedBelow(x, n - 1);
    OnlySign(Signed(x), n);
    OnlySign(Signed(x), n - 1);
  }

  lemma CarryOnTop(x: word, c: word)
    requires c < 2
    ensures BitOr(Shl(c, 31), Shr(x, 1)) == RotatedWithCarry(x, c).value
    ensures GetBit(x, 0) == x % 2
  {
    Pow2At32();
    assert Pow2(32) == 2 * Pow2(31);
    UpIsTimes(c, 31);
    assert High(x, 1) == High(x / 2, 0) == x / 2;
    OrSplit(c, x / 2, 31);
    OrCommutes(x / 2, Up(c, 31));
  }

  // ---------- the helpers of the source ----------

  method LogicalShiftLeftByImmediate(shift: nat, rm: word, c: word) returns (r: Operand)
    requires shift < 32
    ensures r == Shifted(LSL, rm, shift, c)
  {
    if shift == 0 {
      r := Operand(rm, c);
    } else {
      LeftShift(rm, shift);
      r := Operand(Shl(rm, shift), GetBit(rm, 32 - shift));
    }
  }

  method LogicalShiftLeftByRegister(rm: word, rs: word, c: word) returns (r: Operand)
    ensures r == Shifted(LSL, rm, rs % 0x100, c)
  {
    LowByte(rs);
    var n := GetBits(rs, 7, 0);
    if n == 0 {
      r := Operand(rm, c);
    } else if n < 32 {
      LeftShift(rm, n);
      r := Operand(Shl(rm, n), GetBit(rm, 32 - n));
    } else if n == 32 {
      FarLeftShift(rm, n);
      assert GetBit(rm, 0) == rm % 2;
      r := Operand(0, GetBit(rm, 0));
    } else {
      FarLeftShift(rm, n);
      r := Operand(0, 0);
    }
  }

  // A zero amount encodes 32.
  method LogicalShiftRightByImmediate(shift: nat, rm: word, c: word) returns (r: Operand)
    requires shift < 32
    ensures r == Shifted(LSR, rm, if shift == 0 then 32 else shift, c)
  {
    if shift == 0 {
      FarRightShift(rm, 32);
      r := Operand(0, GetBit(rm, 31));
    } else {
      r := Operand(Shr(rm, shift), GetBit(rm, shift - 1));
    }
  }

  method LogicalShiftRightByRegister(rs: word, rm: word, c: word) returns (r: Operand)
    ensures r == Shifted(LSR, rm, rs % 0x100, c)
  {
    LowByte(rs);
    var n := GetBits(rs, 7, 0);
    if n == 0 {
      r := Operand(rm, c);
    } else if n < 32 {
      r := Operand(Shr(rm, n), GetBit(rm, n - 1));
    } else if n == 32 {
      FarRightShift(rm, n);
      r := Operand(0, GetBit(rm, 31));
    } else {
      FarRightShift(rm, n);
      r := Operand(0, 0);
    }
  }

  // A zero amount encodes 32.
  method ArithmeticShiftRightByImmediate(shift: nat, rm: word, c: word) returns (r: Operand)
    requires shift < 32
    ensures r == Shifted(ASR, rm, if shift == 0 then 32 else shift, c)
  {
    if shift == 0 {
      FarSignedShift(rm, 32);
      r := Operand(if GetBit(rm, 31) == 0 then 0 else 0xFFFF_FFFF, GetBit(rm, 31));
    } else {
      SignKeepsBit(rm, shift - 1);
      r := Operand(Asr(rm, shift), GetBit(rm, shift - 1));
    }
  }

  method ArithmeticShiftRightByRegister(rm: word, rs: word, c: word) returns (r: Operand)
    ensures r == Shifted(ASR, rm, rs % 0x100, c)
  {
    LowByte(rs);
    var n := GetBits(rs, 7, 0);
    if n == 0 {
      r := Operand(rm, c);
    } else if n < 32 {
      SignKeepsBit(rm, n - 1);
      r := Operand(Asr(rm, n), GetBit(rm, n - 1));
    } else {
      FarSignedShift(rm, n);
      r := Operand(if GetBit(rm, 31) == 0 then 0 else 0xFFFF_FFFF, GetBit(rm, 31));
    }
  }

  method RotateRightWithExtend(rm: word, c: word) returns (r: Operand)
    requires c < 2
    ensures r == RotatedWithCarry(rm, c)
  {
    CarryOnTop(rm, c);
    r := Operand(BitOr(Shl(c, 31), Shr(rm, 1)), GetBit(rm, 0));
  }

  // A zero amount encodes the rotation through the carry.
  method RotateRightByImmediate(shift: nat, rm: word, c: word) returns (r: Operand)
    requires shift < 32 && c < 2
    ensures r == if shift == 0 then RotatedWithCarry(rm, c) else Shifted(ROR, rm, shift, c)
  {
    if shift == 0 {
      r := RotateRightWithExtend(rm, c);
    } else {
      ShortRotation(rm, shift, c);
      r := Operand(Ror(rm, shift), GetBit(rm, shift - 1));
    }
  }

  method Immediate(immed8: byte, rotate: nat, c: word) returns (r: Operand)
    requires rotate < 16
    ensures r == Shifted(ROR, immed8, 2 * rotate, c)
  {
    var operand := Ror(immed8, rotate * 2);
    if rotate == 0 {
      r := Operand(operand, c);
    } else {
      ShiftedRor(immed8, 2 * rotate, c);
      r := Operand(operand, GetBit(operand, 31));
    }
  }

  // ---------- decoding ----------

  function Kind(bits: nat): (kind: Shift)
    ensures kind != RRX
  {
    if bits == 0 then LSL else if bits == 1 then LSR else if bits == 2 then ASR else ROR
  }

  function KindOf(ins: word): (kind: Shift)
    ensures kind != RRX
  {
    Kind(GetBits(ins, 6, 5))
  }

  // A shift by an encoded amount: zero stands for LSL #0, LSR #32, ASR #32 and RRX.
  function ShiftedByImmediate(kind: Shift, n: nat, x: word, c: word): (r: Operand)
    requires kind != RRX
    ensures c < 2 ==> r.carry < 2
  {
    if n > 0 then Shifted(kind, x, n, c)
    else if kind == LSL then Operand(x, c)
    else if kind == ROR then Shifted(RRX, x, 0, c)
    else Shifted(kind, x, 32, c)
  }

  // The shifter operand of a data-processing instruction (section A5.1) whose Rm and Rs hold
  // rm and rs, when the C flag is c.
  function ShifterOperand(ins: word, rm: word, rs: word, c: word): (r: Operand)
    ensures c < 2 ==> r.carry < 2
  {
    if GetBit(ins, 25) == 1 then Shifted(ROR, GetBits(ins, 7, 0), 2 * GetBits(ins, 11, 8), c)
    else if GetBit(ins, 4) == 1 then Shifted(KindOf(ins), rm, rs % 0x100, c)
    else ShiftedByImmediate(KindOf(ins), GetBits(ins, 11, 7), rm, c)
  }

  // The shifts by n places in integer arithmetic: 0 is LSL, 1 LSR, 2 ASR and 3 ROR.  The carry is
  // the last bit shifted out, and c when nothing moves.
  predicate ShiftsTo(kind: nat, x: word, n: nat, c: word, r: Operand) {
    var signed, k := if x >= 0x8000_0000 then x - 0x1_0000_0000 else x, n % 32;
    && (n == 0 ==> r == Operand(x, c))
    && (n > 0 && kind == 0 ==>
          r.value == x * Pow2(n) % 0x1_0000_0000 && r.carry == x * Pow2(n) / 0x1_0000_0000 % 2)
    && (n > 0 && kind == 1 ==> r.value == x / Pow2(n) && r.carry == x / Pow2(n - 1) % 2)
    && (n > 0 && kind == 2 ==>
          r.value == signed / Pow2(n) % 0x1_0000_0000 && r.carry == signed / Pow2(n - 1) % 2)
    && (n > 0 && kind == 3 ==>
          && r.value == x / Pow2(k) + x % Pow2(k) * Pow2(32 - k)
          && r.carry == if k > 0 then x / Pow2(k - 1) % 2 else x / 0x8000_0000)
  }

  lemma ShiftedShiftsTo(kind: nat, x: word, n: nat, c: word)
    requires kind < 4
    ensures ShiftsTo(kind, x, n, c, Shifted(Kind(kind), x, n, c))
  {
    if n > 0 {
      ShiftedIsArithmetic(x, n, c);
    }
  }

  // A shift by an amount in the instruction, with what an amount of zero stands for.
  predicate ShiftsByField(kind: nat, x: word, n: nat, c: word, r: Operand)
    requires c < 2
  {
    if n > 0 then ShiftsTo(kind, x, n, c, r)
    else if kind == 0 then r == Operand(x, c)
    else if kind == 1 then r == Operand(0, x / 0x8000_0000)
    else if kind == 2 then r == Operand(if x >= 0x8000_0000 then 0xFFFF_FFFF else 0, x / 0x8000_0000)
    else r == Operand(x / 2 + 0x8000_0000 * c, x % 2)
  }

  lemma FieldShift(kind: nat, x: word, n: nat, c: word)
    requires kind < 4 && c < 2
    ensures ShiftsByField(kind, x, n, c, ShiftedByImmediate(Kind(kind), n, x, c))
  {
    if n > 0 {
      ShiftedShiftsTo(kind, x, n, c);
    } else {
      TopBit(x);
      FarRightShift(x, 32);
      FarSignedShift(x, 32);
      assert Operand((x + c * TWO32) / 2, x % 2) == RotatedWithCarry(x, c);
    }
  }

  lemma SmallPowers()
    ensures Pow2(2) == 4 && Pow2(4) == 0x10 && Pow2(5) == 0x20 && Pow2(7) == 0x80 && Pow2(8) == 0x100
    ensures Pow2(25) == 0x200_0000
  {
    assert Pow2(8) == 0x100;
    assert Pow2(16) == 0x100 * Pow2(8) && Pow2(24) == 0x100 * Pow2(16) && Pow2(25) == 2 * Pow2(24);
  }

  // The fields of a shifter operand as digits of the instruction.
  lemma OperandFields(ins: word)
    ensures GetBit(ins, 25) == ins / 0x200_0000 % 2 && GetBit(ins, 4) == ins / 0x10 % 2
    ensures GetBits(ins, 6, 5) == ins / 0x20 % 4 && GetBits(ins, 11, 7) == ins / 0x80 % 32
    ensures GetBits(ins, 11, 8) == ins / 0x100 % 16 && GetBits(ins, 7, 0) == ins % 0x100
  {
    SmallPowers();
    BitIsDigit(ins, 25, 0x200_0000);
    BitIsDigit(ins, 4, 0x10);
    FieldIsDigits(ins, 6, 5, 0x20, 4);
    FieldIsDigits(ins, 11, 7, 0x80, 32);
    FieldIsDigits(ins, 11, 8, 0x100, 16);
    LowByte(ins);
  }

  // The shifter operand on the digits of the instruction: the low byte rotated by twice the field
  // [11:8], or a register shifted by the low byte of another or by the field [11:7].
  lemma OperandInNumbers(ins: word, rm: word, rs: word, c: word)
    requires c < 2
    ensures var r, kind, n := ShifterOperand(ins, rm, rs, c), ins / 0x20 % 4, ins / 0x80 % 32;
            if ins / 0x200_0000 % 2 == 1 then ShiftsTo(3, ins % 0x100, 2 * (ins / 0x100 % 16), c, r)
            else if ins / 0x10 % 2 == 1 then ShiftsTo(kind, rm, rs % 0x100, c, r)
            else ShiftsByField(kind, rm, n, c, r)
  {
    OperandFields(ins);
    ShiftedShiftsTo(3, ins % 0x100, 2 * (ins / 0x100 % 16), c);
    ShiftedShiftsTo(ins / 0x20 % 4, rm, rs % 0x100, c);
    FieldShift(ins / 0x20 % 4, rm, ins / 0x80 % 32, c);
  }

  // carry() has no branch for a rotation by a register, nor for the encodings with bits 7 and 4
  // set (which are not data processing): they get the left shift by a register.
  predicate FallsIntoLeftShift(ins: word) {
    GetBit(ins, 25) == 0 && GetBit(ins, 4) == 1 && (GetBit(ins, 7) == 1 || KindOf(ins) == ROR)
  }

  function CarryOperand(ins: word, rm: word, rs: word, c: word): (r: Operand)
    ensures c < 2 ==> r.carry < 2
  {
    if FallsIntoLeftShift(ins) then Shifted(LSL, rm, rs % 0x100, c) else ShifterOperand(ins, rm, rs, c)
  }

  lemma {:induction false} LowSplit(x: int, a: nat, b: nat)
    ensures Low(x, a + b) == Up(Low(High(x, a), b), a) + Low(x, a)
    decreases a
  {
    if a > 0 {
      LowSplit(x / 2, a - 1, b);
    }
  }

  lemma LowAbove3(y: int, n: nat)
    ensures Low(y, 3 + n) == 8 * Low(High(y, 3), n) + Low(y, 3)
  {
    LowSplit(y, 3, n);
    UpIsTimes(Low(High(y, 3), n), 3);
    assert Pow2(3) == 8;
  }

  lemma LowPieces(y: int)
    ensures Low(High(y, 1), 2) == Low(y / 2, 2) < 4
    ensures Low(y, 3) == 2 * Low(y / 2, 2) + y % 2
    ensures Low(y, 4) == 8 * (High(y, 3) % 2) + Low(y, 3)
    ensures Low(y, 8) == 8 * Low(High(y, 3), 5) + Low(y, 3)
    ensures Low(High(y, 3), 5) % 2 == High(y, 3) % 2 && Low(High(y, 3), 5) < 32
  {
    LowRange(y / 2, 2);
    LowRange(High(y, 3), 5);
    LowAbove3(y, 1);
    LowAbove3(y, 5);
    assert Pow2(2) == 4 && Pow2(5) == 32;
    assert Low(High(y, 3), 1) == High(y, 3) % 2;
  }

  // The overlapping fields that carry() tests, in terms of the separate ones.
  lemma Fields(ins: word)
    ensures var i, kind, low := GetBit(ins, 4), GetBits(ins, 6, 5), GetBit(ins, 7);
            && kind < 4 && GetBits(ins, 6, 4) == 2 * kind + i
            && GetBits(ins, 7, 4) == 8 * low + 2 * kind + i
            && GetBits(ins, 11, 7) % 2 == low && GetBits(ins, 11, 7) < 32
            && GetBits(ins, 11, 4) == 8 * GetBits(ins, 11, 7) + 2 * kind + i
            && GetBits(ins, 11, 8) < 16 && GetBits(ins, 7, 0) < 0x100
  {
    var y := High(ins, 4);
    HighHigh(ins, 4, 1);
    HighHigh(ins, 4, 3);
    LowPieces(y);
    LowRange(High(ins, 8), 4);
    LowRange(High(ins, 0), 8);
    assert Pow2(4) == 16 && Pow2(8) == 0x100;
  }

  // The data-processing encodings whose field [7:4] is not 7 (nor 9, 11, 13 or 15, which are not
  // data processing).
  predicate Dispatched(ins: word) {
    GetBit(ins, 25) == 1 || GetBit(ins, 4) == 0 || GetBits(ins, 7, 4) in {1, 3, 5}
  }

  // There carry() owes the operand of the architecture, for all register values.
  lemma CarryIsShifterOperand(ins: word, rm: word, rs: word, c: word)
    requires Dispatched(ins)
    ensures CarryOperand(ins, rm, rs, c) == ShifterOperand(ins, rm, rs, c)
  {
    Fields(ins);
  }

  lemma ShiftedOutTop(n: nat)
    requires n >= 1
    ensures Up(0x8000_0000, n) % TWO32 == 0
  {
    UpUp(0x8000_0000, 1, n - 1);
    UpIsTimes(TWO32, n - 1);
    DivModIs(Up(0x8000_0000, n), TWO32, Pow2(n - 1), 0);
  }

  lemma RotatedTop(k: nat)
    requires k < 32
    ensures Rotated(0x8000_0000, k).value != 0
  {
    if k > 0 {
      Pow2At32();
      assert Pow2(32) == 2 * Pow2(31);
      UpPow2(31 - k, k);
      JoinParts(Pow2(31 - k), 0, k);
      UpRange(0, 32 - k);
    }
  }

  // With [7:4] = 7 it rotates correctly, for every value of Rm, exactly when Rs[7:0] is zero.
  lemma RotationByRegister(ins: word, rs: word, c: word)
    requires GetBit(ins, 25) == 0 && GetBits(ins, 7, 4) == 7
    ensures (forall rm: word :: CarryOperand(ins, rm, rs, c) == ShifterOperand(ins, rm, rs, c)) <==> rs % 0x100 == 0
  {
    Fields(ins);
    var n := rs % 0x100;
    if n != 0 {
      var rm: word := 0x8000_0000;
      RotatedTop(n % 32);
      ShiftedOutTop(n);
      assert CarryOperand(ins, rm, rs, c) != ShifterOperand(ins, rm, rs, c);
    }
  }

  // mov r0, r1, ror r2
  const MOV_ROR: word := 0xE1A0_0271

  lemma TopMovedDown(x: word, n: nat)
    requires x == 0x8000_0000 && n == 1
    ensures Rotated(x, n).value == 0x4000_0000
  {
    assert High(x, n) == High(x / 2, 0) == 0x4000_0000;
    assert Low(x, n) == x % 2;
    UpIsTimes(0, 31);
  }

  lemma RotateFields(ins: word)
    requires ins == MOV_ROR
    ensures GetBit(ins, 25) == 0 && GetBit(ins, 4) == 1 && KindOf(ins) == ROR
  {
    OperandFields(ins);
  }

  // With 2^31 to rotate by one place the result is 0 instead of 2^30.
  lemma RotationFails(ins: word, c: word)
    requires ins == MOV_ROR
    ensures CarryOperand(ins, 0x8000_0000, 1, c).value == 0
    ensures ShifterOperand(ins, 0x8000_0000, 1, c).value == 0x4000_0000
  {
    var x, n := 0x8000_0000, 1;
    RotateFields(ins);
    ShiftedOutTop(n);
    TopMovedDown(x, n);
  }

  // The register part of carry(), on the fields [6:4], [7:4] and [11:4] that it tests: each test
  // may overwrite what an earlier one computed.  The fields consist of the bit 4, the kind in
  // [6:5], the bit 7 and the amount n in [11:7].
  method CarryByFields(f64: nat, f74: nat, f114: nat, rm: word, amount: word, c: word,
                       ghost byRegister: bool, ghost kind: nat, ghost bit7: nat, ghost n: nat)
    returns (r: Operand)
    requires c < 2 && kind < 4 && n < 32 && bit7 == n % 2
    requires f64 == 2 * kind + (if byRegister then 1 else 0)
    requires f74 == 8 * bit7 + f64 && f114 == 8 * n + f64
    requires byRegister || amount == n
    ensures byRegister ==> r == Shifted(if bit7 == 1 || kind == 3 then LSL else Kind(kind), rm, amount % 0x100, c)
    ensures !byRegister ==> r == ShiftedByImmediate(Kind(kind), n, rm, c)
  {
    if f64 == 0 {
      r := LogicalShiftLeftByImmediate(amount, rm, c);
    }
    if f74 != 0 {
      r := LogicalShiftLeftByRegister(rm, amount, c);
    }
    if f64 == 2 {
      r := LogicalShiftRightByImmediate(amount, rm, c);
    }
    if f74 == 3 {
      r := LogicalShiftRightByRegister(amount, rm, c);
    }
    if f64 == 4 {
      r := ArithmeticShiftRightByImmediate(amount, rm, c);
    }
    if f74 == 5 {
      r := ArithmeticShiftRightByRegister(rm, amount, c);
    }
    if f64 == 6 {
      r := RotateRightByImmediate(amount, rm, c);
    }
    if f114 == 6 {
      r := RotateRightWithExtend(rm, c);
    }
  }

  // ---------- load/store addressing ----------

  // calculate_address_scaled_register
  function ScaledIndex(rm: word, shift: nat, shiftImm: nat, c: word): (index: word)
    requires shift < 4 && shiftImm < 32 && c < 2
  {
    match shift
    case 0 => Shl(rm, shiftImm)
    case 1 => if shiftImm == 0 then 0 else Shr(rm, shiftImm)
    case 2 =>
      if shiftImm == 0 then (if GetBit(rm, 31) == 1 then 0xFFFF_FFFF else 0) else Asr(rm, shiftImm)
    case _ =>
      if shiftImm == 0 then BitOr(Shl(c, 31), Shr(rm, 1)) else Ror(rm, shiftImm)
  }

  lemma LeftIndex(rm: word, n: nat, c: word)
    requires n < 32 && c < 2
    ensures ScaledIndex(rm, 0, n, c) == ShiftedByImmediate(LSL, n, rm, c).value
  {
    assert Up(rm, 0) == rm;
  }

  lemma RightIndex(rm: word, n: nat, c: word)
    requires n < 32 && c < 2
    ensures ScaledIndex(rm, 1, n, c) == ShiftedByImmediate(LSR, n, rm, c).value
  {
    FarRightShift(rm, 32);
  }

  lemma SignedIndex(rm: word, n: nat, c: word)
    requires n < 32 && c < 2
    ensures ScaledIndex(rm, 2, n, c) == ShiftedByImmediate(ASR, n, rm, c).value
  {
    FarSignedShift(rm, 32);
  }

  lemma RotatedIndex(rm: word, n: nat, c: word)
    requires n < 32 && c < 2
    ensures ScaledIndex(rm, 3, n, c) == ShiftedByImmediate(ROR, n, rm, c).value
  {
    CarryOnTop(rm, c);
    if n > 0 {
      ShortRotation(rm, n, c);
    }
  }

  // The index is the operand of the data-processing shift by the same immediate.
  lemma ScaledIndexIsShift(rm: word, bits: nat, n: nat, c: word)
    requires bits < 4 && n < 32 && c < 2
    ensures ScaledIndex(rm, bits, n, c) == ShiftedByImmediate(Kind(bits), n, rm, c).value
  {
    LeftIndex(rm, n, c);
    RightIndex(rm, n, c);
    SignedIndex(rm, n, c);
    RotatedIndex(rm, n, c);
  }
}

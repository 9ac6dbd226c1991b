/**
 The state of the processor and its memory as one value, with the accesses every instruction
 is made of (arm_core.c).
 */
module Machine {
  import opened Words
  import opened Mem
  import opened Reg

  // `be` is the byte order fixed when the simulator is compiled.
  datatype RawState = RawState(
    file: seq<word>, spsr: seq<word>, cpsr: word, mode: byte, mem: seq<byte>, cycles: word, be: bool)

  type State = s: RawState | |s.file| == PHYSICAL && |s.spsr| == BANKS && Sized(s.mem)
    witness RawState(seq(31, _ => 0), seq(5, _ => 0), 0, SVC, seq(4, _ => 0), 0, false)

  // What gdb sees: the pc is the address of the next instruction.
  function Raw(s: State, reg: nat): (v: word) {
    ReadBank(s.file, reg, s.mode)
  }

  // The pc reads four ahead of the fetched pc, with bit 1 cleared.
  function PcRead(pc: word): (v: word) {
    var x := Add(pc, 4);
    if x / 2 % 2 == 1 then x - 2 else x
  }

  lemma ClearBit1(x: word)
    ensures And(x, 0xFFFF_FFFD) == if x / 2 % 2 == 1 then x - 2 else x
  {
    Pow2At32();
    AndWithoutBit(x, 1, 32, 0xFFFF_FFFD);
    assert High(x, 1) == x / 2;
  }

  function Even(x: word): (r: word) { x - x % 2 }

  lemma ClearBit0(x: word)
    ensures And(x, 0xFFFF_FFFE) == Even(x)
  {
    Pow2At32();
    AndWithoutBit(x, 0, 32, 0xFFFF_FFFE);
    assert High(x, 0) == x;
  }

  // The mask that the source applies.
  lemma PcReadIsMasked(pc: word)
    ensures PcRead(pc) == BitAnd(Add(pc, 4), 0xFFFF_FFFD)
  {
    ClearBit1(Add(pc, 4));
  }

  // What an instruction sees.
  function Read(s: State, reg: nat): (v: word) {
    if reg == 15 then PcRead(Raw(s, 15)) else Raw(s, reg)
  }

  function SetReg(s: State, reg: nat, v: word): (s': State) {
    s.(file := WriteBank(s.file, reg, s.mode, v))
  }

  function SetCpsr(s: State, v: word): (s': State) {
    s.(cpsr := v, mode := ModeOf(v))
  }

  function Spsr(s: State): (v: word) {
    if SpsrBank(s.mode) < 0 then MAX32 else s.spsr[SpsrBank(s.mode)]
  }

  function SetSpsr(s: State, v: word): (s': State) {
    if SpsrBank(s.mode) < 0 then s else s.(spsr := s.spsr[SpsrBank(s.mode) := v])
  }

  function SetMem(s: State, a: Access): (s': State) {
    s.(mem := Store(s.mem, a))
  }

  // The pc moves on and the cycle is counted whether or not the read is accepted.
  function Fetched(s: State): (s': State) {
    SetReg(s, 15, Add(Raw(s, 15), 4)).(cycles := Add(s.cycles, 1))
  }

  // ---------- instruction fields ----------

  // The register number in the field [l+3:l].
  function RegField(ins: word, l: nat): (n: nat)
    requires l <= 28
    ensures n < 16
  {
    LowRange(High(ins, l), 4);
    assert Pow2(4) == 16;
    GetBits(ins, l + 3, l)
  }

  const C_BIT := 29

  function CFlag(s: State): (c: word)
    ensures c == 0 || c == 1
  {
    GetBit(s.cpsr, C_BIT)
  }

  // The mode in use is the one that CPSR[4:0] names, or none.
  predicate ModeAgrees(s: State) {
    s.mode == if IsMode(s.cpsr % 32) then s.cpsr % 32 else NO_MODE
  }
}

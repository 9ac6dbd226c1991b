/**
 Decoding and stepping (arm_instruction.c), and the runs made of steps, interrupts and writes by
 gdb.
 */
module Instruction {
  import opened Words
  import opened Mem
  import opened Machine
  import opened Core
  import opened Exceptions
  import opened Shifter
  import DataProcessing
  import StatusWrites
  import BlockTransfer
  import LoadStore
  import Branch

  // ---------- conditions ----------

  const EQ := 0
  const NE := 1
  const CS := 2
  const CC := 3
  const LT := 11

  predicate ConditionPassed(cpsr: word, cond: nat) {
    var n, z, c, v := GetBit(cpsr, 31), GetBit(cpsr, 30), GetBit(cpsr, 29), GetBit(cpsr, 28);
    match cond
    case 0 => z == 1
    case 1 => z == 0
    case 2 => c == 1
    case 3 => c == 0
    case 4 => n == 1
    case 5 => n == 0
    case 6 => v == 1
    case 7 => v == 0
    case 8 => c == 1 && z == 0
    case 9 => c == 0 && z == 1
    case 10 => n == v
    case 11 => n != v
    case 12 => z == 0 && ((n == 1 && v == 1) || (n == 0 && v == 0))
    case 13 => z == 1 || (n == 1 && v == 0) || (n == 0 && v == 1)
    case _ => true
  }

  // ---------- one step ----------

  // Bits 27 to 25 are 0.
  function DecodeRegisterForm(s: State, ins: word): (r: (State, int)) {
    if GetBits(ins, 27, 20) == 18 then Branch.BranchBy(s, ins)
    else if GetBits(ins, 7, 4) == 11 then LoadStore.LoadOrStore(s, ins)
    else if GetBits(ins, 24, 23) == 2 && GetBit(ins, 20) == 0 then Branch.StatusToRegister(s, ins)
    else if GetBit(ins, 4) == 1 && GetBit(ins, 7) == 1 then (s, UNDEFINED_INSTRUCTION)
    else DataProcessing.DataProcess(s, ins)
  }

  // Bits 27 to 25 are 1.
  function DecodeImmediateForm(s: State, ins: word): (r: (State, int)) {
    var op := GetBits(ins, 24, 23);
    if op == 2 && GetBits(ins, 21, 20) == 0 then (s, UNDEFINED_INSTRUCTION)
    else if op == 2 && GetBits(ins, 21, 20) == 2 then StatusWrites.MoveToStatus(s, ins)
    else DataProcessing.DataProcess(s, ins)
  }

  // What arm_execute_instruction answers for the categories that change nothing.
  function Refuse(ins: word): (r: int) {
    var category := GetBits(ins, 27, 25);
    if category == 3 then
      if GetBits(ins, 24, 20) == 31 then UNDEFINED_INSTRUCTION else Branch.OtherOrSwi(ins)
    else if category == 6 then UNDEFINED_INSTRUCTION
    else if GetBit(ins, 24) == 0 then Branch.OtherOrSwi(ins)
    else INTERRUPT
  }

  // The instruction categories of bits 27 to 25.
  function Decode(s: State, ins: word, junk: word): (r: (State, int)) {
    var category := GetBits(ins, 27, 25);
    if category == 0 then DecodeRegisterForm(s, ins)
    else if category == 1 then DecodeImmediateForm(s, ins)
    else if category == 2 || (category == 3 && GetBit(ins, 4) == 0) then LoadStore.LoadOrStore(s, ins)
    else if category == 4 then BlockTransfer.Transfer(s, ins, junk)
    else if category == 5 then Branch.BranchBy(s, ins)
    else (s, Refuse(ins))
  }

  // A failed condition is reported as an interrupt.
  function ExecuteFetched(s: State, fetched: Option<word>, junk: word): (r: (State, int)) {
    if fetched.None? then (s, PREFETCH_ABORT)
    else if !ConditionPassed(s.cpsr, GetBits(fetched.value, 31, 28)) then (s, INTERRUPT)
    else Decode(s, fetched.value, junk)
  }

  function ExecuteInstruction(s: State, junk: word): (r: (State, int)) {
    ExecuteFetched(Fetched(s), LoadWord(s.mem, Raw(s, 15), s.be), junk)
  }

  // The result reaches arm_exception as an unsigned byte.
  function Step(s: State, junk: word): (r: (State, int)) {
    var (s1, result) := ExecuteInstruction(s, junk);
    if result == 0 || result == BlockTransfer.ASSERT_FAILED then (s1, result)
    else Exception(s1, result % 0x100, junk)
  }

  // ---------- runs ----------

  // What happens to the machine from outside and inside: steps, interrupts sent to the
  // simulator, and the register and memory writes of gdb.
  datatype Event =
    | Stepped(junk: word)
    | Interrupted(e: byte, junk: word)
    | RegisterWritten(reg: nat, value: word)
    | CpsrWritten(value: word)
    | MemoryWritten(access: Access)

  function Apply(s: State, e: Event): (s': State) {
    match e
    case Stepped(junk) => Step(s, junk).0
    case Interrupted(e, junk) => Exception(s, e, junk).0
    case RegisterWritten(reg, value) => SetReg(s, reg, value)
    case CpsrWritten(value) => SetCpsr(s, value)
    case MemoryWritten(access) => SetMem(s, access)
  }

  function Run(s: State, events: seq<Event>): (s': State)
    decreases |events|
  {
    if events == [] then s else Run(Apply(s, events[0]), events[1..])
  }

  lemma RetireAgrees(s: State, rd: nat, result: word, f: DataProcessing.FlagUpdate)
    requires ModeAgrees(s) && (f.NoFlags? || f.c < 2)
    ensures ModeAgrees(DataProcessing.Retire(s, rd, result, f).0)
  {
  }

  lemma AdcAgrees(s: State, a: word, b: word, c: word, rd: nat, setCond: bool)
    requires ModeAgrees(s)
    ensures ModeAgrees(DataProcessing.AddTo(s, a, b, rd, setCond).0)
    ensures ModeAgrees(DataProcessing.AdcTo(s, a, b, c, rd, setCond).0)
  {
    RetireAgrees(s, rd, Add(a, b), DataProcessing.If(setCond, DataProcessing.AddFlags(a, Add(a, b))));
    var first := DataProcessing.AddTo(s, a, b, rd, setCond).0;
    var again := Add(Read(first, rd), c);
    RetireAgrees(first, rd, again, DataProcessing.If(setCond, DataProcessing.AddFlags(Read(first, rd), again)));
  }

  lemma ExecuteAgrees(s: State, op: nat, a: word, o: Operand, rd: nat, setCond: bool)
    requires ModeAgrees(s) && o.carry < 2
    ensures ModeAgrees(DataProcessing.Execute(s, op, a, o, rd, setCond).0)
  {
    if op == 4 || op == 5 {
      AdcAgrees(s, a, o.value, o.carry, rd, setCond);
    } else if op == 9 {
      RetireAgrees(s, rd, BitXor(a, o.value), DataProcessing.Nzc(o.carry));
    } else {
      forall result: word, f: DataProcessing.FlagUpdate | f.NoFlags? || f.c < 2
        ensures ModeAgrees(DataProcessing.Retire(s, rd, result, f).0)
      {
        RetireAgrees(s, rd, result, f);
      }
    }
  }

  predicate SameStatus(s: State, s': State) {
    s'.cpsr == s.cpsr && s'.mode == s.mode
  }

  lemma AccessKeepsStatus(s: State, address: word, load: bool, isByte: bool, rd: nat)
    ensures SameStatus(s, LoadStore.OneAccess(s, address, load, isByte, rd).0)
    ensures SameStatus(s, LoadStore.AccessHalf(s, address, load, rd).0)
  {
  }

  lemma LoadOrStoreKeepsStatus(s: State, ins: word)
    ensures SameStatus(s, LoadStore.SingleTransfer(s, ins).0)
    ensures SameStatus(s, LoadStore.HalfTransfer(s, ins).0)
  {
    forall s1: State, address: word, load: bool, isByte: bool, rd: nat
      ensures SameStatus(s1, LoadStore.OneAccess(s1, address, load, isByte, rd).0)
      ensures SameStatus(s1, LoadStore.AccessHalf(s1, address, load, rd).0)
    {
      AccessKeepsStatus(s1, address, load, isByte, rd);
    }
  }

  lemma BranchKeepsStatus(s: State, ins: word)
    ensures SameStatus(s, Branch.BranchBy(s, ins).0) && SameStatus(s, Branch.StatusToRegister(s, ins).0)
  {
  }

  lemma TransferKeepsStatus(s: State, ins: word, junk: word)
    ensures SameStatus(s, BlockTransfer.Transfer(s, ins, junk).0)
  {
  }

  lemma MoveToStatusAgrees(s: State, ins: word)
    requires ModeAgrees(s)
    ensures ModeAgrees(StatusWrites.MoveToStatus(s, ins).0)
  {
  }

  lemma DataProcessAgrees(s: State, ins: word)
    requires ModeAgrees(s)
    ensures ModeAgrees(DataProcessing.DataProcess(s, ins).0)
  {
    ExecuteAgrees(s, GetBits(ins, 24, 21), Read(s, RegField(ins, 16)), DataProcessing.OperandOf(s, ins),
                  RegField(ins, 12), GetBit(ins, 20) == 1);
  }

  lemma RegisterFormAgrees(s: State, ins: word)
    requires ModeAgrees(s)
    ensures ModeAgrees(DecodeRegisterForm(s, ins).0)
  {
    if GetBits(ins, 27, 20) == 18 || (GetBits(ins, 24, 23) == 2 && GetBit(ins, 20) == 0) {
      BranchKeepsStatus(s, ins);
      LoadOrStoreKeepsStatus(s, ins);
    } else if GetBits(ins, 7, 4) == 11 {
      LoadOrStoreKeepsStatus(s, ins);
    } else {
      DataProcessAgrees(s, ins);
    }
  }

  lemma ImmediateFormAgrees(s: State, ins: word)
    requires ModeAgrees(s)
    ensures ModeAgrees(DecodeImmediateForm(s, ins).0)
  {
    MoveToStatusAgrees(s, ins);
    DataProcessAgrees(s, ins);
  }

  lemma DecodeAgrees(s: State, ins: word, junk: word)
    requires ModeAgrees(s)
    ensures ModeAgrees(Decode(s, ins, junk).0)
  {
    var category := GetBits(ins, 27, 25);
    if category == 0 {
      RegisterFormAgrees(s, ins);
    } else if category == 1 {
      ImmediateFormAgrees(s, ins);
    } else if category == 2 || category == 3 {
      LoadOrStoreKeepsStatus(s, ins);
    } else if category == 4 {
      TransferKeepsStatus(s, ins, junk);
    } else if category == 5 {
      BranchKeepsStatus(s, ins);
    }
  }

  lemma ExceptionAgrees(s: State, e: int, junk: word)
    requires ModeAgrees(s)
    ensures ModeAgrees(Exception(s, e, junk).0)
  {
  }

  lemma StepAgrees(s: State, junk: word)
    requires ModeAgrees(s)
    ensures ModeAgrees(Step(s, junk).0)
  {
    var s1 := Fetched(s);
    var fetched := LoadWord(s.mem, Raw(s, 15), s.be);
    if fetched.Some? {
      DecodeAgrees(s1, fetched.value, junk);
    }
    var (s2, result) := ExecuteInstruction(s, junk);
    ExceptionAgrees(s2, result % 0x100, junk);
  }

  lemma ApplyAgrees(s: State, e: Event)
    requires ModeAgrees(s)
    ensures ModeAgrees(Apply(s, e))
  {
    match e
    case Stepped(junk) => StepAgrees(s, junk);
    case Interrupted(n, junk) => ExceptionAgrees(s, n, junk);
    case _ =>
  }

  lemma {:induction false} RunAgrees(s: State, events: seq<Event>)
    requires ModeAgrees(s)
    ensures ModeAgrees(Run(s, events))
    decreases |events|
  {
    if events != [] {
      ApplyAgrees(s, events[0]);
      RunAgrees(Apply(s, events[0]), events[1..]);
    }
  }

  // Safety over every run from arm_create, whatever registers and memory it was given.
  lemma ModeFollowsCpsr(s: State, events: seq<Event>)
    ensures ModeAgrees(Run(Created(s), events))
  {
    RunAgrees(Created(s), events);
  }

  // ---------- the implementation ----------

  method ExecuteRegisterForm(p: ArmCore, ins: word) returns (r: int)
    requires p.Valid()
    modifies p.Repr()
    ensures p.Valid() && (p.state, r) == DecodeRegisterForm(old(p.state), ins)
  {
    if GetBits(ins, 27, 20) == 18 {
      r := Branch.ArmBranch(p, ins);
    } else if GetBits(ins, 7, 4) == 11 {
      r := LoadStore.ArmLoadStore(p, ins);
    } else if GetBits(ins, 24, 23) == 2 && GetBit(ins, 20) == 0 {
      r := Branch.ArmMiscellaneous(p, ins);
    } else if GetBit(ins, 4) == 1 && GetBit(ins, 7) == 1 {
      r := UNDEFINED_INSTRUCTION;
    } else {
      r := DataProcessing.ArmDataProcessingShift(p, ins);
    }
  }

  method ExecuteImmediateForm(p: ArmCore, ins: word) returns (r: int)
    requires p.Valid()
    modifies p.Repr()
    ensures p.Valid() && (p.state, r) == DecodeImmediateForm(old(p.state), ins)
  {
    if GetBits(ins, 24, 23) == 2 && GetBits(ins, 21, 20) == 0 {
      r := UNDEFINED_INSTRUCTION;
    } else if GetBits(ins, 24, 23) == 2 && GetBits(ins, 21, 20) == 2 {
      r := StatusWrites.ArmDataProcessingImmediateMsr(p, ins);
    } else {
      r := DataProcessing.ArmDataProcessingShift(p, ins);
    }
  }

  method ExecuteCategory(p: ArmCore, ins: word, junk: word) returns (r: int)
    requires p.Valid()
    modifies p.Repr()
    ensures p.Valid() && (p.state, r) == Decode(old(p.state), ins, junk)
  {
    var category := GetBits(ins, 27, 25);
    if category == 0 {
      r := ExecuteRegisterForm(p, ins);
    } else if category == 1 {
      r := ExecuteImmediateForm(p, ins);
    } else if category == 2 || (category == 3 && GetBit(ins, 4) == 0) {
      r := LoadStore.ArmLoadStore(p, ins);
    } else if category == 4 {
      r := BlockTransfer.ArmLoadStoreMultiple(p, ins, junk);
    } else if category == 5 {
      r := Branch.ArmBranch(p, ins);
    } else {
      r := Refuse(ins);
    }
  }

  method ArmExecuteInstruction(p: ArmCore, junk: word) returns (r: int)
    requires p.Valid()
    modifies p.Repr()
    ensures p.Valid() && (p.state, r) == ExecuteInstruction(old(p.state), junk)
  {
    var fetched := p.Fetch();
    if fetched.None? {
      r := PREFETCH_ABORT;
      return;
    }
    var cpsr := p.ReadCpsr();
    if ConditionPassed(cpsr, GetBits(fetched.value, 31, 28)) {
      r := ExecuteCategory(p, fetched.value, junk);
    } else {
      r := INTERRUPT;
    }
  }

  method ArmStep(p: ArmCore, junk: word) returns (r: int)
    requires p.Valid()
    modifies p.Repr()
    ensures p.Valid() && (p.state, r) == Step(old(p.state), junk)
  {
    r := ArmExecuteInstruction(p, junk);
    if r != 0 && r != BlockTransfer.ASSERT_FAILED {
      r := ArmException(p, r % 0x100, junk);
    }
  }
}

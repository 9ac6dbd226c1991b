/**
 The gdb server (gdb_protocol.c): breakpoints, packets and the request handlers that touch the
 machine.
 */
module Gdb {
  import opened Words
  import opened Mem
  import opened Machine
  import opened Core
  import opened Text
  import opened Breakpoints
  import Instruction

  const MAX_PACKET_SIZE := 4096

  // r is the result of a step from s.  The quantifier keeps the solver from expanding the whole
  // instruction set wherever a step is mentioned: it does so only where Expand occurs.
  ghost predicate StepsTo(s: State, junk: word, r: (State, int)) {
    forall k: nat {:trigger Expand(k)} :: Expand(k) ==> r == Instruction.Step(s, junk)
  }

  // The step as a function, known to the solver only by its graph.
  ghost function Stepped(s: State, junk: word): (r: (State, int))
    ensures StepsTo(s, junk, r)
  {
    assert StepsTo(s, junk, Instruction.Step(s, junk));
    var r :| StepsTo(s, junk, r);
    r
  }

  lemma SteppedIsStep(s: State, junk: word)
    ensures Stepped(s, junk) == Instruction.Step(s, junk)
  {
    assert Expand(0);
  }

  // The machine after n steps and the result of the last one; junks holds what the uninitialised
  // variables contain at each step.
  ghost function After(s: State, junks: seq<word>, n: nat): (r: (State, int))
    requires n <= |junks|
    decreases n, s
  {
    if n == 0 then (s, 0) else Stepped(After(s, junks, n - 1).0, junks[n - 1])
  }

  // A breakpoint is at the pc, or the step reported something.
  predicate Stops(breakpoints: set<word>, r: (State, int)) {
    Raw(r.0, 15) in breakpoints || r.1 != 0
  }

  class GdbProtocol {
    const arm: ArmCore
    var targetException: int
    const packet: array<byte>
    const breakpoints: array<word>
    var breakpointsNumber: nat
    var len: nat
    // everything written to the connection so far
    var wire: text

    ghost function Table(): (t: seq<word>)
      requires breakpointsNumber <= breakpoints.Length
      reads this, breakpoints
    {
      breakpoints[..breakpointsNumber]
    }

    ghost predicate Valid()
      reads this, packet, breakpoints
    {
      packet.Length == MAX_PACKET_SIZE && breakpoints.Length == MAX_BREAKPOINTS &&
      breakpointsNumber <= MAX_BREAKPOINTS && Sorted(Table())
    }

    // The machine is valid and shares nothing with the server.
    ghost predicate Connected()
      reads this, arm, arm.Repr()
    {
      arm.Valid() && this !in arm.Repr() && packet !in arm.Repr() && breakpoints !in arm.Repr()
    }

    // gdb_init_data
    constructor (arm: ArmCore)
      requires arm.Valid()
      ensures Valid() && this.arm == arm && Table() == [] && wire == [] && targetException == 0
      ensures fresh(packet) && fresh(breakpoints) && Connected()
    {
      this.arm := arm;
      targetException := 0;
      packet := new byte[MAX_PACKET_SIZE];
      breakpoints := new word[MAX_BREAKPOINTS];
      breakpointsNumber := 0;
      len := 0;
      wire := [];
    }

    // ---------- breakpoints ----------

    method FindBreakpoint(address: word) returns (i: int)
      requires Valid()
      ensures -1 <= i < breakpointsNumber
      ensures i >= 0 ==> breakpoints[i] == address
      ensures i >= 0 <==> address in SetOf(Table())
    {
      var begin, end := 0, breakpointsNumber;
      while begin < end
        invariant 0 <= begin <= end <= breakpointsNumber
        invariant forall k :: 0 <= k < begin ==> Table()[k] < address
        invariant forall k :: end <= k < breakpointsNumber ==> Table()[k] > address
      {
        var middle := (begin + end) / 2;
        assert breakpoints[middle] == Table()[middle];
        if breakpoints[middle] > address {
          end := middle;
        } else if breakpoints[middle] < address {
          begin := middle + 1;
        } else {
          return middle;
        }
      }
      return -1;
    }

    // The insertion of gdb_add_breakpoint: larger addresses move up one place.
    method InsertSorted(address: word)
      requires Valid() && breakpointsNumber < MAX_BREAKPOINTS && address !in Table()
      modifies this`breakpointsNumber, breakpoints
      ensures Valid() && SetOf(Table()) == SetOf(old(Table())) + {address}
    {
      ghost var t := Table();
      var n := breakpointsNumber;
      var j := n;
      breakpointsNumber := n + 1;
      while j > 0 && breakpoints[j - 1] > address
        invariant 0 <= j <= n && breakpointsNumber == n + 1
        invariant forall k :: 0 <= k < j ==> breakpoints[k] == t[k]
        invariant forall k :: j < k <= n ==> breakpoints[k] == t[k - 1]
        invariant j < n ==> t[j] > address
      {
        breakpoints[j] := breakpoints[j - 1];
        j := j - 1;
      }
      breakpoints[j] := address;
      assert Table() == InsertedAt(t, j, address);
      InsertKeepsOrder(t, j, address);
      InsertAddsAddress(t, j, address);
    }

    method AddBreakpoint(address: word) returns (ok: bool)
      requires Valid()
      modifies this`breakpointsNumber, breakpoints
      ensures Valid()
      ensures (SetOf(Table()), ok) == Answer(SetOf(old(Table())), Insert(address))
    {
      SortedSize(Table());
      if breakpointsNumber == MAX_BREAKPOINTS {
        return false;
      }
      var i := FindBreakpoint(address);
      if i != -1 {
        assert SetOf(Table()) == SetOf(Table()) + {address};
        return true;
      }
      InsertSorted(address);
      ok := true;
    }

    method RemoveBreakpoint(address: word) returns (ok: bool)
      requires Valid()
      modifies this`breakpointsNumber, breakpoints
      ensures Valid()
      ensures (SetOf(Table()), ok) == Answer(SetOf(old(Table())), Delete(address))
    {
      var position := FindBreakpoint(address);
      if position == -1 {
        return false;
      }
      ghost var t := Table();
      ghost var u := DeletedAt(t, position);
      var last := breakpointsNumber - 1;
      breakpointsNumber := last;
      var j := position;
      while j < last
        invariant position <= j <= last && breakpointsNumber == last
        invariant forall k :: 0 <= k < j ==> breakpoints[k] == u[k]
        invariant forall k :: j <= k <= last ==> breakpoints[k] == t[k]
      {
        assert u[j] == t[j + 1] == breakpoints[j + 1];
        breakpoints[j] := breakpoints[j + 1];
        j := j + 1;
      }
      assert Table() == u;
      DeleteKeeps(t, position);
      ok := true;
    }

    method Serve(r: Request) returns (ok: bool)
      requires Valid()
      modifies this`breakpointsNumber, breakpoints
      ensures Valid() && (SetOf(Table()), ok) == Answer(SetOf(old(Table())), r)
    {
      match r
      case Insert(a) => ok := AddBreakpoint(a);
      case Delete(a) => ok := RemoveBreakpoint(a);
    }

    // The requests that the connection hands on one after the other: they are answered as the
    // reference machine on sets does, and leave its set.
    method ServeAll(requests: seq<Request>) returns (answers: seq<bool>)
      requires Valid()
      modifies this`breakpointsNumber, breakpoints
      ensures Valid()
      ensures (SetOf(Table()), answers) == AnswerAll(SetOf(old(Table())), requests)
    {
      answers := [];
      ghost var s := SetOf(Table());
      var i := 0;
      while i < |requests|
        invariant 0 <= i <= |requests| && Valid()
        invariant (SetOf(Table()), answers) == AnswerAll(s, requests[..i])
      {
        AnswerLast(s, requests[..i], requests[i]);
        assert requests[..i + 1] == requests[..i] + [requests[i]];
        var ok := Serve(requests[i]);
        answers := answers + [ok];
        i := i + 1;
      }
      assert requests[..|requests|] == requests;
    }

    // ---------- packets out ----------

    // A C string stands in the buffer, which is the packet without its first character.
    ghost predicate InBuffer(payload: text)
      reads this, packet
    {
      packet.Length == MAX_PACKET_SIZE && |payload| + 4 < MAX_PACKET_SIZE && 0 !in payload &&
      packet[1..|payload| + 1] == payload && packet[|payload| + 1] == 0
    }

    // strcpy or snprintf: the characters and a NUL
    method Print(at: nat, t: text)
      requires packet.Length == MAX_PACKET_SIZE && 1 <= at && at + |t| < MAX_PACKET_SIZE
      modifies packet
      ensures packet[..at] == old(packet[..at])
      ensures packet[at..at + |t|] == t && packet[at + |t|] == 0
    {
      var k := 0;
      while k < |t|
        invariant 0 <= k <= |t|
        invariant forall j :: 0 <= j < at ==> packet[j] == old(packet[j])
        invariant forall j :: 0 <= j < k ==> packet[at + j] == t[j]
      {
        packet[at + k] := t[k];
        k := k + 1;
      }
      packet[at + |t|] := 0;
    }

    method Transmit()
      requires packet.Length == MAX_PACKET_SIZE && len <= MAX_PACKET_SIZE
      modifies this`wire
      ensures wire == old(wire) + packet[..len]
    {
      wire := wire + packet[..len];
    }

    // gdb_send_buffer
    method SendBuffer(ghost payload: text)
      requires InBuffer(payload)
      modifies packet, this`len, this`wire
      ensures wire == old(wire) + Frame(payload)
      ensures len == |payload| + 4 && packet[..len] == Frame(payload)
    {
      packet[0] := DOLLAR;
      var check: byte := 0;
      var i := 1;
      assert forall k :: 1 <= k <= |payload| ==> packet[k] == packet[1..|payload| + 1][k - 1] == payload[k - 1];
      while packet[i] != 0
        invariant 1 <= i <= |payload| + 1
        invariant forall k :: 1 <= k <= |payload| ==> packet[k] == payload[k - 1] && payload[k - 1] != 0
        invariant check == Checksum(payload[..i - 1])
        invariant packet[0] == DOLLAR && packet[1..|payload| + 1] == payload && packet[|payload| + 1] == 0
        decreases |payload| - i
      {
        assert packet[i] == payload[i - 1];
        assert payload[..i][..i - 1] == payload[..i - 1];
        check := (check + packet[i]) % 0x100;
        i := i + 1;
      }
      assert payload[..i - 1] == payload;
      packet[i] := HASH;
      Print(i + 1, Hex(check, 2));
      len := i + 3;
      assert packet[..len] == packet[..i + 1] + packet[i + 1..i + 3];
      assert packet[..i + 1] == [DOLLAR] + payload + [HASH];
      Transmit();
    }

    method SendData(data: text)
      requires packet.Length == MAX_PACKET_SIZE && |data| + 4 < MAX_PACKET_SIZE && 0 !in data
      modifies packet, this`len, this`wire
      ensures wire == old(wire) + Frame(data)
    {
      Print(1, data);
      SendBuffer(data);
    }

    // ---------- packets in ----------

    static lemma SliceOfPrefix(a: array<byte>, t: text, lo: nat, hi: nat)
      requires lo <= hi <= |t| <= a.Length && a[..|t|] == t
      ensures a[lo..hi] == t[lo..hi]
    {
      forall k | lo <= k < hi ensures a[k] == t[k] {
        assert a[k] == a[..|t|][k];
      }
    }

    // gdb_packet_analysis up to the call of the handler.  `frame` is the scanner's buffer.
    method PacketAnalysis(frame: array<byte>, length: nat) returns (d: Dispatch)
      requires Valid() && frame != packet && length <= frame.Length && Scanned(frame[..length])
      modifies frame, packet, this`len, this`wire
      ensures d == Analyse(old(frame[..length]))
      ensures wire == old(wire) + (match d
                                   case Retransmit => [MINUS]
                                   case Unsupported => [PLUS] + Frame([])
                                   case Handle(_, _) => [PLUS])
    {
      ghost var t := frame[..length];
      var check: byte := 0;
      var i := 1;
      while i < length - 3
        invariant 1 <= i <= length - 3
        invariant check == Checksum(Payload(t)[..i - 1])
      {
        assert frame[i] == t[i] == Payload(t)[i - 1];
        assert Payload(t)[..i][..i - 1] == Payload(t)[..i - 1];
        check := (check + frame[i]) % 0x100;
        i := i + 1;
      }
      assert Payload(t)[..i - 1] == Payload(t);
      assert frame[i + 1..length] == t[length - 2..];
      var given := Scan(frame[i + 1..length], 2, 0);
      if check != given {
        wire := wire + [MINUS];
        return Retransmit;
      }
      PayloadParts(t);
      assert frame[..length] == t && i == |t| - 3;
      if i > 1 {
        assert frame[1] == t[1];
        SliceOfPrefix(frame, t, 2, i);
      }
      wire := wire + [PLUS];
      frame[i] := 0;
      var index := frame[1];
      if HasHandler(index) {
        d := Handle(index, frame[2..i]);
      } else {
        SendData([]);
        d := Unsupported;
      }
    }

    // ---------- stop reasons and execution ----------

    method SendStopReason()
      requires packet.Length == MAX_PACKET_SIZE
      modifies packet, this`len, this`wire
      ensures wire == old(wire) + Frame(StopReason(targetException))
    {
      SendData(StopReason(targetException));
    }

    method SingleStep(junk: word)
      requires Connected()
      modifies arm.Repr(), this`targetException
      ensures Connected() && (arm.state, targetException) == Stepped(old(arm.state), junk)
    {
      SteppedIsStep(arm.state, junk);
      targetException := Instruction.ArmStep(arm, junk);
    }

    // One turn of the loop of cont.
    method StepAndTest(junk: word) returns (stop: bool)
      requires Valid() && Connected()
      modifies arm.Repr(), this`targetException
      ensures Connected() && (arm.state, targetException) == Stepped(old(arm.state), junk)
      ensures stop <==> Stops(SetOf(Table()), (arm.state, targetException))
    {
      SingleStep(junk);
      var pc := arm.RawRead(15);
      var i := FindBreakpoint(pc);
      stop := i != -1 || targetException != 0;
    }

    // The loop of cont, for as many steps as there are junks.
    method RunUntilStop(junks: seq<word>) returns (n: nat, stopped: bool)
      requires Valid() && Connected()
      modifies arm.Repr(), this`targetException
      ensures Connected() && n <= |junks|
      ensures arm.state == After(old(arm.state), junks, n).0
      ensures n >= 1 ==> targetException == After(old(arm.state), junks, n).1
      ensures forall k :: 1 <= k < n ==> !Stops(SetOf(Table()), After(old(arm.state), junks, k))
      ensures stopped ==> n >= 1 && Stops(SetOf(Table()), After(old(arm.state), junks, n))
      ensures !stopped ==> n == |junks| && (n >= 1 ==> !Stops(SetOf(Table()), After(old(arm.state), junks, n)))
    {
      ghost var s := arm.state;
      ghost var points := SetOf(Table());
      n, stopped := 0, false;
      while n < |junks| && !stopped
        invariant n <= |junks| && Valid() && Connected() && SetOf(Table()) == points
        invariant arm.state == After(s, junks, n).0
        invariant n >= 1 ==> targetException == After(s, junks, n).1
        invariant forall k :: 1 <= k < n ==> !Stops(points, After(s, junks, k))
        invariant if n >= 1 then stopped <==> Stops(points, After(s, junks, n)) else !stopped
        decreases |junks| - n, !stopped
      {
        stopped := StepAndTest(junks[n]);
        n := n + 1;
      }
    }

    // cont: it stops after the first step that reaches a breakpoint or reports something, and
    // only then.
    method Cont(junks: seq<word>) returns (n: nat, stopped: bool)
      requires Valid() && Connected()
      modifies arm.Repr(), this`targetException, packet, this`len, this`wire
      ensures Connected() && n <= |junks|
      ensures arm.state == After(old(arm.state), junks, n).0
      ensures forall k :: 1 <= k < n ==> !Stops(SetOf(Table()), After(old(arm.state), junks, k))
      ensures stopped ==> n >= 1 && Stops(SetOf(Table()), After(old(arm.state), junks, n))
      ensures !stopped ==> n == |junks| && (n >= 1 ==> !Stops(SetOf(Table()), After(old(arm.state), junks, n)))
      ensures stopped ==> wire == old(wire) + Frame(StopReason(After(old(arm.state), junks, n).1))
    {
      n, stopped := RunUntilStop(junks);
      if stopped {
        SendStopReason();
      }
    }

    // ---------- registers ----------

    // Extends the string that fills the buffer up to `at`.
    method PrintAfter(ghost before: text, at: nat, t: text)
      requires packet.Length == MAX_PACKET_SIZE && at + |t| < MAX_PACKET_SIZE
      requires at == |before| + 1 && packet[1..at] == before
      modifies packet
      ensures packet[1..at + |t|] == before + t && packet[at + |t|] == 0
    {
      Print(at, t);
      assert packet[1..at] == packet[..at][1..] == before;
      assert packet[1..at + |t|] == packet[1..at] + packet[at..at + |t|];
    }

    // read_register at a place of the buffer
    method PrintRegister(ghost before: text, at: nat, i: nat)
      requires packet.Length == MAX_PACKET_SIZE && Connected() && at + 8 < MAX_PACKET_SIZE
      requires at == |before| + 1 && packet[1..at] == before
      modifies packet
      ensures packet[1..at + 8] == before + Hex(Raw(arm.state, i), 8)
    {
      var value := arm.RawRead(i);
      PrintAfter(before, at, Hex(value, 8));
    }

    // The loop of read_general_registers over r0 to r15.
    method PrintRegisters() returns (position: nat)
      requires packet.Length == MAX_PACKET_SIZE && Connected()
      modifies packet
      ensures position == 129 && packet[1..129] == WordTexts(VisibleRegisters(arm.state))
    {
      ghost var words := VisibleRegisters(arm.state);
      position := 1;
      var i := 0;
      while i < 16
        invariant 0 <= i <= 16 && position == 1 + 8 * i
        invariant packet[1..position] == WordTexts(words[..i])
      {
        assert words[..i + 1] == words[..i] + [words[i]];
        WordTextsSnoc(words[..i], words[i]);
        PrintRegister(WordTexts(words[..i]), position, i);
        position := position + 8;
        i := i + 1;
      }
      assert words[..16] == words;
    }

    // `g`
    method ReadGeneralRegisters()
      requires packet.Length == MAX_PACKET_SIZE && Connected()
      modifies packet, this`len, this`wire
      ensures wire == old(wire) + Frame(Dump(arm.state))
    {
      ghost var words := WordTexts(VisibleRegisters(arm.state));
      var position := PrintRegisters();
      PrintAfter(words, position, Fill(200));
      position := position + 200;
      var cpsr := arm.ReadCpsr();
      PrintAfter(words + Fill(200), position, Hex(cpsr, 8));
      DumpHasNoNul(arm.state);
      SendBuffer(Dump(arm.state));
    }

    // The loop of write_general_registers over r0 to r15.
    method RestoreRegisters(data: text, junks: seq<word>)
      requires Connected() && Restorable(data, junks)
      modifies arm.Repr()
      ensures Connected() && arm.state == RestoreFrom(old(arm.state), data, junks, 0)
    {
      ghost var s := arm.state;
      var position, i := 0, 0;
      while i < 16
        invariant 0 <= i <= 16 && position == 8 * i && Connected()
        invariant RestoreFrom(s, data, junks, 0) == RestoreFrom(arm.state, data, junks, i)
      {
        arm.WriteRegister(i, ReadNumber(data[position..], junks[i]));
        position := position + 8;
        i := i + 1;
      }
    }

    // `G`; junks holds what the variable of read_uint32 contains at each call.
    method WriteGeneralRegisters(data: text, junks: seq<word>)
      requires packet.Length == MAX_PACKET_SIZE && Connected() && Restorable(data, junks)
      modifies arm.Repr(), packet, this`len, this`wire
      ensures Connected() && arm.state == Restore(old(arm.state), data, junks)
      ensures wire == old(wire) + Frame(OK)
    {
      RestoreRegisters(data, junks);
      var position := 16 * 8 + 8 * 3 * 8 + 8;
      arm.WriteCpsr(ReadNumber(data[position..], junks[16]));
      SendData(OK);
    }

    // ---------- memory ----------

    // One byte of memory at a place of the buffer, unless memory ends before it.
    method PrintByte(ghost before: text, at: nat, address: word) returns (ok: bool)
      requires packet.Length == MAX_PACKET_SIZE && Connected()
      requires address < |arm.state.mem| ==> at + 2 < MAX_PACKET_SIZE
      requires at < MAX_PACKET_SIZE
      requires at == |before| + 1 && packet[1..at] == before
      modifies packet
      ensures Connected() && arm.state == old(arm.state)
      ensures ok <==> LoadByte(arm.state.mem, address).Some?
      ensures ok ==> packet[1..at + 2] == before + Hex(LoadByte(arm.state.mem, address).value, 2) && packet[at + 2] == 0
      ensures !ok ==> packet[..] == old(packet[..])
    {
      var value := arm.ReadByte(address);
      ok := value.Some?;
      if ok {
        PrintAfter(before, at, Hex(value.value, 2));
      }
    }

    // The loop of read_memory: the string in the buffer becomes the answer.
    method PrintMemory(address: word, size: nat, ghost bytes: seq<byte>)
      requires packet.Length == MAX_PACKET_SIZE && Connected()
      requires StartsAs(arm.state.mem, address, size, bytes) && 2 * |bytes| + 4 < MAX_PACKET_SIZE
      modifies packet
      ensures InBuffer(HexBytes(bytes))
    {
      ghost var m := arm.state.mem;
      var next, left, position := address, size, 1;
      packet[position] := 0;
      ghost var k, done := 0, [];
      assert HexBytes(bytes[..0]) == done;
      while left != 0
        invariant Connected() && arm.state.mem == m
        invariant left + k == size && k <= |bytes| && position == 1 + 2 * k
        invariant k < size ==> next == Add(address, k)
        invariant done == HexBytes(bytes[..k])
        invariant packet[1..position] == done && packet[position] == 0
        decreases left
      {
        left := left - 1;
        assert Considered(k);
        var ok := PrintByte(done, position, next);
        if !ok {
          break;
        }
        HexBytesSnoc(bytes, k);
        done := HexBytes(bytes[..k + 1]);
        AddOffset(address, k, 1);
        next := Add(next, 1);
        position := position + 2;
        k := k + 1;
      }
      assert bytes[..k] == bytes;
      HexBytesHaveNoNul(bytes);
    }

    // `m`, with the address and the size already read
    method ReadMemory(address: word, size: nat)
      requires packet.Length == MAX_PACKET_SIZE && Connected()
      requires 2 * Available(|arm.state.mem|, address, size) + 4 < MAX_PACKET_SIZE
      modifies packet, this`len, this`wire
      ensures wire == old(wire) + Frame(MemoryText(old(arm.state).mem, address, size))
    {
      ghost var bytes := Slice(arm.state.mem, address, size);
      var end := arm.MemorySize();
      if address >= end {
        SendData(FAULT);
      } else {
        SliceIsThere(arm.state.mem, address, size);
        PrintMemory(address, size, bytes);
        SendBuffer(HexBytes(bytes));
      }
    }

    // The first of the bytes left, and where in the content the next one starts.
    static method NextByte(content: text, c: nat, ghost left: text) returns (value: byte, after: nat)
      requires c <= |content| && left != [] && left <= Unescape(content[c..])
      ensures after <= |content| && value == left[0] && left[1..] <= Unescape(content[after..])
    {
      UnescapeOne(content, c);
      after := c;
      if content[after] == ESCAPE {
        after := after + 1;
        value := Flip(content[after]);
      } else {
        value := content[after];
      }
      after := after + 1;
      assert Unescape(content[c..]) == [value] + Unescape(content[after..]);
    }

    // The loop of write_memory_binary.
    method StoreEscaped(address: word, size: nat, content: text, ghost bytes: text) returns (ok: bool)
      requires Connected() && |bytes| == size && bytes <= Unescape(content)
      modifies arm.Repr()
      ensures Connected() && arm.state == old(arm.state).(mem := arm.state.mem)
      ensures (arm.state.mem, ok) == WriteBinary(old(arm.state).mem, address, bytes)
    {
      ghost var s, left := arm.state, bytes;
      var next, i := address, 0;
      var c: nat := 0;
      var end := arm.MemorySize();
      ok := address < end;
      assert content[0..] == content;
      while i < size && ok
        invariant Connected() && arm.state == s.(mem := arm.state.mem)
        invariant i + |left| == size && c <= |content| && left <= Unescape(content[c..])
        invariant WriteBinary(s.mem, address, bytes)
               == if ok then StoreBytes(arm.state.mem, next, left) else (arm.state.mem, false)
        decreases size - i
      {
        var value, after := NextByte(content, c, left);
        ok := arm.WriteByte(next, value);
        next := Add(next, 1);
        c := after;
        i := i + 1;
        left := left[1..];
      }
    }

    // `X`, with the address and the size already read: the content is what the buffer holds after
    // the colon, far enough for `size` bytes; the request itself may end before.
    method WriteMemoryBinary(address: word, size: nat, content: text)
      requires packet.Length == MAX_PACKET_SIZE && Connected() && size <= |Unescape(content)|
      modifies arm.Repr(), packet, this`len, this`wire
      ensures Connected()
      ensures var (m, ok) := WriteBinary(old(arm.state).mem, address, Unescape(content)[..size]);
              && arm.state == old(arm.state).(mem := m)
              && wire == old(wire) + Frame(if ok then OK else ERROR2)
    {
      var ok := StoreEscaped(address, size, content, Unescape(content)[..size]);
      SendData(if ok then OK else ERROR2);
    }
  }
}

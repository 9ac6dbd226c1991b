/**
 What gdb does to the machine, as runs of the events that the invariants are about.
 */
module Requests {
  import opened Words
  import opened Mem
  import opened Machine
  import opened Instruction
  import opened Text
  import Exceptions
  import Gdb

  lemma {:induction false} RunAppend(s: State, first: seq<Event>, later: seq<Event>)
    ensures Run(s, first + later) == Run(Run(s, first), later)
    decreases |first|
  {
    if first == [] {
      assert [] + later == later;
    } else {
      assert (first + later)[0] == first[0] && (first + later)[1..] == first[1..] + later;
      RunAppend(Apply(s, first[0]), first[1..], later);
    }
  }

  // `G` writes r0 to r15 in turn and then the CPSR.
  function RestoreEvents(data: text, junks: seq<word>, i: nat): (events: seq<Event>)
    requires i <= 16 && Restorable(data, junks)
    decreases 16 - i, data
  {
    if i == 16 then [CpsrWritten(ReadNumber(data[328..], junks[16]))]
    else [RegisterWritten(i, ReadNumber(data[8 * i..], junks[i]))] + RestoreEvents(data, junks, i + 1)
  }

  lemma RunOne(s: State, e: Event)
    ensures Run(s, [e]) == Apply(s, e)
  {
    assert [e][1..] == [];
    assert Run(Apply(s, e), []) == Apply(s, e);
  }

  lemma {:induction false} RestoreFromIsRun(s: State, data: text, junks: seq<word>, i: nat)
    requires i <= 16 && Restorable(data, junks)
    ensures Run(s, RestoreEvents(data, junks, i))
         == SetCpsr(RestoreFrom(s, data, junks, i), ReadNumber(data[328..], junks[16]))
    decreases 16 - i
  {
    if i == 16 {
      RunOne(s, CpsrWritten(ReadNumber(data[328..], junks[16])));
    } else {
      var e := RegisterWritten(i, ReadNumber(data[8 * i..], junks[i]));
      RestoreFromIsRun(Apply(s, e), data, junks, i + 1);
      RunAppend(s, [e], RestoreEvents(data, junks, i + 1));
      RunOne(s, e);
    }
  }

  lemma RestoreIsRun(s: State, data: text, junks: seq<word>)
    requires Restorable(data, junks)
    ensures Restore(s, data, junks) == Run(s, RestoreEvents(data, junks, 0))
  {
    RestoreFromIsRun(s, data, junks, 0);
  }

  // `X` writes byte after byte.
  function StoreEvents(m: seq<byte>, address: word, bytes: seq<byte>): (events: seq<Event>)
    decreases |bytes|
  {
    if bytes == [] || address >= |m| then []
    else
      var w := WriteByte(address, bytes[0]);
      [MemoryWritten(w)] + StoreEvents(Store(m, w), Add(address, 1), bytes[1..])
  }

  lemma {:induction false} StoreIsRun(s: State, address: word, bytes: seq<byte>)
    ensures s.(mem := StoreBytes(s.mem, address, bytes).0) == Run(s, StoreEvents(s.mem, address, bytes))
    decreases |bytes|
  {
    if bytes != [] && address < |s.mem| {
      var w := WriteByte(address, bytes[0]);
      var e, later := MemoryWritten(w), StoreEvents(Store(s.mem, w), Add(address, 1), bytes[1..]);
      StoreIsRun(Apply(s, e), Add(address, 1), bytes[1..]);
      RunAppend(s, [e], later);
      RunOne(s, e);
    }
  }

  // `c` takes steps.
  ghost function StepEvents(junks: seq<word>): (events: seq<Event>) {
    seq(|junks|, i requires 0 <= i < |junks| => Stepped(junks[i]))
  }

  lemma StepIsEvent(s: State, junks: seq<word>, n: nat)
    requires 0 < n <= |junks|
    ensures Gdb.After(s, junks, n).0 == Apply(Gdb.After(s, junks, n - 1).0, Stepped(junks[n - 1]))
  {
    Gdb.SteppedIsStep(Gdb.After(s, junks, n - 1).0, junks[n - 1]);
  }

  lemma {:induction false} AfterIsRun(s: State, junks: seq<word>, n: nat)
    requires n <= |junks|
    ensures Gdb.After(s, junks, n).0 == Run(s, StepEvents(junks[..n]))
    decreases n
  {
    if n > 0 {
      AfterIsRun(s, junks, n - 1);
      var e := Stepped(junks[n - 1]);
      assert StepEvents(junks[..n]) == StepEvents(junks[..n - 1]) + [e];
      RunAppend(s, StepEvents(junks[..n - 1]), [e]);
      RunOne(Gdb.After(s, junks, n - 1).0, e);
      StepIsEvent(s, junks, n);
    }
  }

  // An interrupt sent to the simulator enters its handler.
  lemma InterruptIsEvent(s: State, junk: word, p: nat, b: nat)
    requires p < 31 && b < 5
    ensures Exceptions.Entered(s, Run(s, [Interrupted(4, junk)]), 0x12, 0x18, Read(s, 15), false, p, b)
  {
    RunOne(s, Interrupted(4, junk));
    Exceptions.EntryEffect(s, 4, p, b);
  }
}

/**
 Load and store multiple (arm_load_store.c:207-299).
 */
module BlockTransfer {
  import opened Words
  import opened Mem
  import opened Reg
  import opened Machine
  import opened Core

  // Not a value the source returns: its assert has failed and the process is gone.
  const ASSERT_FAILED := -2

  // ---------- counting registers ----------

  // How many of the registers below r<n> are in the list.
  function Ones(list: word, n: nat): (c: nat)
    requires n <= 16
    ensures c <= n
  {
    if n == 0 then 0 else Ones(list, n - 1) + GetBit(list, n - 1)
  }

  function Pop(x: nat): nat {
    if x == 0 then 0 else x % 2 + Pop(x / 2)
  }

  lemma {:induction false} OnesFromTheBottom(x: word, n: nat)
    requires 1 <= n <= 16
    ensures Ones(x, n) == x % 2 + Ones(x / 2, n - 1)
  {
    if n > 1 {
      OnesFromTheBottom(x, n - 1);
    } else {
      assert Ones(x, 0) == 0;
    }
  }

  lemma {:induction false} PopIsOnes(x: word, n: nat)
    requires n <= 16 && x < Pow2(n)
    ensures Pop(x) == Ones(x, n)
    decreases n
  {
    if n > 0 {
      OnesFromTheBottom(x, n);
      PopIsOnes(x / 2, n - 1);
    }
  }

  method CountSetBits(regList: word) returns (count: nat)
    requires regList < 0x1_0000
    ensures count == Ones(regList, 16)
  {
    assert Pow2(8) == 0x100;
    PopIsOnes(regList, 16);
    count := 0;
    var rest := regList;
    while rest != 0
      invariant count + Pop(rest) == Pop(regList)
      decreases rest
    {
      count := count + rest % 2;
      rest := rest / 2;
    }
  }

  // ---------- addresses and write-back ----------

  datatype Form = Form(p: bool, u: bool, w: bool, rn: nat, list: word)

  predicate ValidForm(f: Form) {
    f.rn < 16 && f.list < 0x1_0000
  }

  function FormOf(ins: word): (f: Form)
    ensures ValidForm(f)
  {
    LowRange(High(ins, 0), 16);
    assert Pow2(8) == 0x100 && Pow2(16) == 0x1_0000;
    Form(GetBit(ins, 24) == 1, GetBit(ins, 23) == 1, GetBit(ins, 21) == 1, RegField(ins, 16), GetBits(ins, 15, 0))
  }

  predicate IncrementAfter(f: Form) { !f.p && f.u }

  function Count(f: Form): (n: nat) { Ones(f.list, 16) }

  function Start(f: Form, base: word): (a: word) {
    if IncrementAfter(f) then base
    else if f.u then Add(base, 4)
    else if !f.p then Add(Sub(base, 4 * Count(f)), 4)
    else Sub(base, 4 * Count(f))
  }

  // Increment-after computes its end from the register's number.
  function End(f: Form, base: word): (a: word)
    requires ValidForm(f)
  {
    if IncrementAfter(f) then Sub(f.rn + 4 * Count(f), 4)
    else if f.u then Add(base, 4 * Count(f))
    else if !f.p then base
    else Sub(base, 4)
  }

  // Increment-after with write-back moves to another register instead of another value.
  function BaseRegister(f: Form): (r: nat) {
    if IncrementAfter(f) && f.w then f.rn + 4 * Count(f) else f.rn
  }

  function NewBase(f: Form, base: word): (v: word) {
    if IncrementAfter(f) || !f.w then base
    else if f.u then Add(base, 4 * Count(f))
    else Sub(base, 4 * Count(f))
  }

  function WriteBase(s: State, f: Form): (s': State) {
    SetReg(s, BaseRegister(f), NewBase(f, Read(s, f.rn)))
  }

  // The base a load or store multiple with write-back has to leave.
  function ArchitecturalBase(f: Form, base: word): (v: word) {
    if f.u then Add(base, 4 * Count(f)) else Sub(base, 4 * Count(f))
  }

  // Write-back leaves the architecture's base exactly when it is not increment-after, or when
  // the list is empty.
  lemma WriteBackIsRight(s: State, f: Form)
    requires ValidForm(f) && f.w && f.rn < 15 && IsMode(s.mode)
    ensures Read(WriteBase(s, f), f.rn) == ArchitecturalBase(f, Read(s, f.rn))
            <==> !IncrementAfter(f) || Count(f) == 0
  {
  }

  // The other registers stay as they are exactly when it is not increment-after with write-back,
  // or the list is empty, or the register it picks instead does not exist or holds the base.
  lemma WriteBackKeepsOthers(s: State, f: Form)
    requires ValidForm(f) && f.rn < 15 && IsMode(s.mode)
    ensures var picked := f.rn + 4 * Count(f);
            (forall r :: 0 <= r < 16 && r != f.rn ==> Raw(WriteBase(s, f), r) == Raw(s, r))
            <==> !f.w || !IncrementAfter(f) || Count(f) == 0 || picked > 15 || Raw(s, picked) == Raw(s, f.rn)
  {
    var b, v := BaseRegister(f), NewBase(f, Read(s, f.rn));
    if b < 16 {
      forall r | 0 <= r < 16
        ensures Raw(WriteBase(s, f), r) == if r == b then v else Raw(s, r)
      {
        ReadAfterWrite(s.file, b, s.mode, v, r, s.mode);
      }
    }
  }

  // ---------- the transfers ----------

  // The contents after storing registers i to 14 of s in a memory m; a store that memory rejects
  // is dropped.
  function StoreFrom(s: State, m: seq<byte>, list: word, i: nat, address: word): (m': seq<byte>)
    requires i <= 15
    ensures |m'| == |m|
    decreases 15 - i
  {
    if i == 15 then m
    else if GetBit(list, i) == 1 then
      StoreFrom(s, Store(m, WriteWord(address, Read(s, i), s.be)), list, i + 1, Add(address, 4))
    else StoreFrom(s, m, list, i + 1, address)
  }

  // The variables of the loading loop: the registers, the address and the last word.
  datatype Loading = Loading(file: seq<word>, address: word, value: word)
  {
    predicate Valid() { |file| == PHYSICAL }
  }

  // A rejected read leaves the variable, and the register gets its previous content.
  function Loaded(s: State, address: word, value: word): (v: word) {
    var r := LoadWord(s.mem, address, s.be);
    if r.Some? then r.value else value
  }

  function LoadOne(s: State, l: Loading, i: nat): (l': Loading)
    requires l.Valid()
    ensures l'.Valid()
  {
    var v := Loaded(s, l.address, l.value);
    Loading(WriteBank(l.file, i, s.mode, v), Add(l.address, 4), v)
  }

  function LoadFrom(s: State, l: Loading, list: word, i: nat): (l': Loading)
    requires i <= 15 && l.Valid()
    ensures l'.Valid()
    decreases 15 - i
  {
    if i == 15 then l
    else if GetBit(list, i) == 1 then LoadFrom(s, LoadOne(s, l, i), list, i + 1)
    else LoadFrom(s, l, list, i + 1)
  }

  function StoreMultiple(s: State, f: Form): (s': State) {
    var s1 := WriteBase(s, f);
    s1.(mem := StoreFrom(s1, s1.mem, f.list, 0, Start(f, Read(s, f.rn))))
  }

  function LoadMultiple(s: State, f: Form, junk: word): (l: Loading)
    ensures l.Valid()
  {
    var s1 := WriteBase(s, f);
    LoadFrom(s1, Loading(s1.file, Start(f, Read(s, f.rn)), junk), f.list, 0)
  }

  function LoadPc(s: State, l: Loading): (l': Loading)
    requires l.Valid()
    ensures l'.Valid()
  {
    var v := Loaded(s, l.address, l.value);
    Loading(WriteBank(l.file, 15, s.mode, Even(v)), Add(l.address, 4), v)
  }

  function Transfer(s: State, ins: word, junk: word): (r: (State, int)) {
    var f := FormOf(ins);
    if GetBit(ins, 20) == 0 then (StoreMultiple(s, f), 0)
    else
      var l := LoadMultiple(s, f, junk);
      if GetBit(f.list, 15) == 0 then (s.(file := l.file), 0)
      else
        var l := LoadPc(s, l);
        (s.(file := l.file), if End(f, Read(s, f.rn)) == Sub(l.address, 4) then 0 else ASSERT_FAILED)
  }

  // ---------- where the words go ----------

  lemma {:induction false} OnesGrow(list: word, a: nat, b: nat)
    requires a <= b <= 16
    ensures Ones(list, a) <= Ones(list, b)
    decreases b
  {
    if a < b {
      OnesGrow(list, a, b - 1);
    }
  }

  // The address for r<j> in a transfer from `start`: four bytes per listed register below it,
  // modulo 2^32.
  function PlaceFrom(start: word, list: word, j: nat): (a: word)
    requires j <= 16
  {
    Add(start, 4 * Ones(list, j))
  }

  lemma NextPlace(start: word, list: word, i: nat)
    requires i < 16
    ensures PlaceFrom(start, list, i + 1)
         == if GetBit(list, i) == 1 then Add(PlaceFrom(start, list, i), 4) else PlaceFrom(start, list, i)
  {
    AddOffset(start, 4 * Ones(list, i), 4);
  }

  // A byte k of a word that memory accepts at start + n is n to n + 3 bytes behind start.
  lemma OffsetInWord(start: word, n: nat, k: word)
    requires n <= 60 && Add(start, n) <= k < Add(start, n) + 4
    ensures n <= Sub(k, start) < n + 4
  {
    var p, d := Add(start, n), k - Add(start, n);
    assert k == Add(p, d);
    AddOffset(start, n, d);
    BackTo(start, n + d);
  }

  // One store, of the word of r<i>.
  lemma StoreOneFrame(m: seq<byte>, list: word, i: nat, start: word, v: word, be: bool, k: nat)
    requires i < 15 && k < |m| <= TWO32
    requires !(4 * Ones(list, i) <= Sub(k, start) < 4 * Ones(list, i) + 4)
    ensures Store(m, WriteWord(PlaceFrom(start, list, i), v, be))[k] == m[k]
  {
    var p := PlaceFrom(start, list, i);
    StoreAt(m, WriteWord(p, v, be), k);
    if p <= k < p + 4 {
      OffsetInWord(start, 4 * Ones(list, i), k);
    }
  }

  // Storing registers i to 14 touches no byte that is below the word of r<i> or behind the last
  // one, counted from the start.
  lemma {:induction false} StoreFrame(s: State, m: seq<byte>, list: word, i: nat, start: word, k: nat)
    requires i <= 15 && k < |m| <= TWO32
    requires Sub(k, start) < 4 * Ones(list, i) || Sub(k, start) >= 4 * Ones(list, 15)
    ensures StoreFrom(s, m, list, i, PlaceFrom(start, list, i))[k] == m[k]
    decreases 15 - i
  {
    if i < 15 {
      OnesGrow(list, i + 1, 15);
      NextPlace(start, list, i);
      if GetBit(list, i) == 1 {
        var place := PlaceFrom(start, list, i);
        StoreOneFrame(m, list, i, start, Read(s, i), s.be, k);
        StoreFrame(s, Store(m, WriteWord(place, Read(s, i), s.be)), list, i + 1, start, k);
      } else {
        StoreFrame(s, m, list, i + 1, start, k);
      }
    }
  }

  lemma LoadWordSame(m: seq<byte>, m': seq<byte>, a: word, be: bool)
    requires |m| == |m'| && a + 4 <= |m|
    requires m[a] == m'[a] && m[a + 1] == m'[a + 1] && m[a + 2] == m'[a + 2] && m[a + 3] == m'[a + 3]
    ensures LoadWord(m, a, be) == LoadWord(m', a, be)
  {
  }

  // The word of r<i> survives the later ones.
  lemma WordSurvives(s: State, m: seq<byte>, list: word, i: nat, start: word)
    requires i < 15 && GetBit(list, i) == 1 && PlaceFrom(start, list, i) + 4 <= |m| <= TWO32
    ensures LoadWord(StoreFrom(s, m, list, i + 1, PlaceFrom(start, list, i + 1)), PlaceFrom(start, list, i), s.be)
         == LoadWord(m, PlaceFrom(start, list, i), s.be)
  {
    var p, m' := PlaceFrom(start, list, i), StoreFrom(s, m, list, i + 1, PlaceFrom(start, list, i + 1));
    assert forall k :: p <= k < p + 4 ==> m'[k] == m[k] by {
      forall k | p <= k < p + 4 ensures m'[k] == m[k] {
        OffsetInWord(start, 4 * Ones(list, i), k);
        StoreFrame(s, m, list, i + 1, start, k);
      }
    }
    LoadWordSame(m, m', p, s.be);
  }

  lemma FirstWord(s: State, m: seq<byte>, list: word, i: nat, start: word)
    requires i < 15 && GetBit(list, i) == 1 && PlaceFrom(start, list, i) + 4 <= |m| <= TWO32
    ensures LoadWord(StoreFrom(s, m, list, i, PlaceFrom(start, list, i)), PlaceFrom(start, list, i), s.be)
         == Some(Read(s, i))
  {
    var p := PlaceFrom(start, list, i);
    NextPlace(start, list, i);
    WordReadBack(m, p, Read(s, i), s.be, s.be);
    WordSurvives(s, Store(m, WriteWord(p, Read(s, i), s.be)), list, i, start);
  }

  // The word of register j is found at its place, if memory has room for it there.
  lemma {:induction false} StoredWord(s: State, m: seq<byte>, list: word, i: nat, start: word, j: nat)
    requires i <= j < 15 && GetBit(list, j) == 1 && PlaceFrom(start, list, j) + 4 <= |m| <= TWO32
    ensures LoadWord(StoreFrom(s, m, list, i, PlaceFrom(start, list, i)), PlaceFrom(start, list, j), s.be)
         == Some(Read(s, j))
    decreases j - i
  {
    NextPlace(start, list, i);
    if i == j {
      FirstWord(s, m, list, i, start);
    } else if GetBit(list, i) == 1 {
      StoredWord(s, Store(m, WriteWord(PlaceFrom(start, list, i), Read(s, i), s.be)), list, i + 1, start, j);
    } else {
      StoredWord(s, m, list, i + 1, start, j);
    }
  }

  // A word that memory rejects leaves no byte of itself.
  lemma {:induction false} RejectedWord(s: State, m: seq<byte>, list: word, i: nat, start: word, j: nat, k: nat)
    requires i <= j < 15 && GetBit(list, j) == 1 && PlaceFrom(start, list, j) + 4 > |m| && k < |m| <= TWO32
    requires 4 * Ones(list, j) <= Sub(k, start) < 4 * Ones(list, j) + 4
    ensures StoreFrom(s, m, list, i, PlaceFrom(start, list, i))[k] == m[k]
    decreases j - i
  {
    NextPlace(start, list, i);
    if i == j {
      StoreFrame(s, m, list, i + 1, start, k);
    } else if GetBit(list, i) == 1 {
      OnesGrow(list, i + 1, j);
      StoreOneFrame(m, list, i, start, Read(s, i), s.be, k);
      RejectedWord(s, Store(m, WriteWord(PlaceFrom(start, list, i), Read(s, i), s.be)), list, i + 1, start, j, k);
    } else {
      RejectedWord(s, m, list, i + 1, start, j, k);
    }
  }

  // A load touches the registers of the list only.
  lemma {:induction false} LoadFrame(s: State, l: Loading, list: word, i: nat, r: nat)
    requires i <= 15 && r < 16 && IsMode(s.mode) && l.Valid()
    requires r < i || r == 15 || GetBit(list, r) == 0
    ensures ReadBank(LoadFrom(s, l, list, i).file, r, s.mode) == ReadBank(l.file, r, s.mode)
    decreases 15 - i
  {
    if i < 15 {
      if GetBit(list, i) == 1 {
        var v := Loaded(s, l.address, l.value);
        ReadAfterWrite(l.file, i, s.mode, v, r, s.mode);
        LoadFrame(s, LoadOne(s, l, i), list, i + 1, r);
      } else {
        LoadFrame(s, l, list, i + 1, r);
      }
    }
  }

  // No hidden bank is touched: a physical register that no listed number names keeps its value.
  lemma {:induction false} LoadKeepsBanks(s: State, l: Loading, list: word, i: nat, p: nat)
    requires i <= 15 && p < PHYSICAL && l.Valid()
    requires forall r :: i <= r < 15 && GetBit(list, r) == 1 ==> Physical(r, s.mode) != p
    ensures LoadFrom(s, l, list, i).file[p] == l.file[p]
    decreases 15 - i
  {
    if i < 15 {
      if GetBit(list, i) == 1 {
        LoadKeepsBanks(s, LoadOne(s, l, i), list, i + 1, p);
      } else {
        LoadKeepsBanks(s, l, list, i + 1, p);
      }
    }
  }

  // What the variable of the loading loop holds when r<i> is next: the last word that a listed
  // register below it was given, at first junk.
  function Held(s: State, start: word, list: word, junk: word, i: nat): (v: word)
    requires i <= 16
    decreases i, s
  {
    if i == 0 then junk
    else if GetBit(list, i - 1) == 1 then
      Loaded(s, PlaceFrom(start, list, i - 1), Held(s, start, list, junk, i - 1))
    else Held(s, start, list, junk, i - 1)
  }

  // The loop is about to look at r<i>.
  predicate Reached(s: State, l: Loading, list: word, i: nat, start: word, junk: word)
    requires i <= 15
  {
    l.Valid() && l.address == PlaceFrom(start, list, i) && l.value == Held(s, start, list, junk, i)
  }

  lemma ReachesNext(s: State, l: Loading, list: word, i: nat, start: word, junk: word)
    requires i < 15 && Reached(s, l, list, i, start, junk)
    ensures Reached(s, if GetBit(list, i) == 1 then LoadOne(s, l, i) else l, list, i + 1, start, junk)
  {
    NextPlace(start, list, i);
  }

  lemma {:induction false} LoadEnds(s: State, l: Loading, list: word, i: nat, start: word, junk: word)
    requires i <= 15 && Reached(s, l, list, i, start, junk)
    ensures Reached(s, LoadFrom(s, l, list, i), list, 15, start, junk)
    decreases 15 - i
  {
    if i < 15 {
      ReachesNext(s, l, list, i, start, junk);
      LoadEnds(s, if GetBit(list, i) == 1 then LoadOne(s, l, i) else l, list, i + 1, start, junk);
    }
  }

  // What r<j> of the list gets: the word at its place, or what the variable held before.
  function Given(s: State, start: word, list: word, junk: word, j: nat): (v: word)
    requires j <= 15
  {
    Loaded(s, PlaceFrom(start, list, j), Held(s, start, list, junk, j))
  }

  lemma FirstRegister(s: State, l: Loading, list: word, i: nat, start: word, junk: word)
    requires i < 15 && GetBit(list, i) == 1 && IsMode(s.mode) && Reached(s, l, list, i, start, junk)
    ensures ReadBank(LoadFrom(s, l, list, i).file, i, s.mode) == Given(s, start, list, junk, i)
  {
    ReadAfterWrite(l.file, i, s.mode, Loaded(s, l.address, l.value), i, s.mode);
    LoadFrame(s, LoadOne(s, l, i), list, i + 1, i);
  }

  lemma {:induction false} LoadedWord(s: State, l: Loading, list: word, i: nat, start: word, junk: word, j: nat)
    requires i <= j < 15 && GetBit(list, j) == 1 && IsMode(s.mode) && Reached(s, l, list, i, start, junk)
    ensures ReadBank(LoadFrom(s, l, list, i).file, j, s.mode) == Given(s, start, list, junk, j)
    decreases 15 - i
  {
    if i == j {
      FirstRegister(s, l, list, i, start, junk);
    } else {
      ReachesNext(s, l, list, i, start, junk);
      LoadedWord(s, if GetBit(list, i) == 1 then LoadOne(s, l, i) else l, list, i + 1, start, junk, j);
    }
  }

  // ---------- one instruction ----------

  function BaseOf(s: State, f: Form): (base: word) { Read(s, f.rn) }

  function StartOf(s: State, f: Form): (start: word) { Start(f, BaseOf(s, f)) }

  // Where the word of r<j> belongs.
  function Place(s: State, f: Form, j: nat): (a: word)
    requires j <= 16
  {
    PlaceFrom(StartOf(s, f), f.list, j)
  }

  function WordAt(s: State, a: word): (r: Option<word>) {
    LoadWord(s.mem, a, s.be)
  }

  predicate WordFits(s: State, f: Form, j: nat)
    requires j <= 15
  {
    Place(s, f, j) + 4 <= |s.mem|
  }

  // A store multiple, whatever memory accepts of it: each listed register below the pc whose
  // place is in memory is found there, one whose place is not leaves memory as it was, every byte
  // outside the block (counted modulo 2^32 from its start) is kept, and no register changes but by
  // the write-back.
  lemma StoreMultipleEffect(s: State, f: Form, j: nat, k: nat)
    requires ValidForm(f) && k < |s.mem| && j < 15
    ensures var s', d := StoreMultiple(s, f), Sub(k, StartOf(s, f));
            && s' == WriteBase(s, f).(mem := s'.mem)
            && (GetBit(f.list, j) == 1 && WordFits(s, f, j) ==>
                  WordAt(s', Place(s, f, j)) == Some(Read(WriteBase(s, f), j)))
            && (GetBit(f.list, j) == 1 && !WordFits(s, f, j) && 4 * Ones(f.list, j) <= d < 4 * Ones(f.list, j) + 4 ==>
                  s'.mem[k] == s.mem[k])
            && (d >= 4 * Ones(f.list, 15) ==> s'.mem[k] == s.mem[k])
  {
    var s1, start := WriteBase(s, f), StartOf(s, f);
    var d := Sub(k, start);
    AddOffset(start, 0, 0);
    if GetBit(f.list, j) == 1 && WordFits(s, f, j) {
      StoredWord(s1, s1.mem, f.list, 0, start, j);
    }
    if GetBit(f.list, j) == 1 && !WordFits(s, f, j) && 4 * Ones(f.list, j) <= d < 4 * Ones(f.list, j) + 4 {
      RejectedWord(s1, s1.mem, f.list, 0, start, j, k);
    }
    if d >= 4 * Ones(f.list, 15) {
      StoreFrame(s1, s1.mem, f.list, 0, start, k);
    }
  }

  // The registers after a load multiple that does not load the pc.
  function AfterLoad(s: State, f: Form, junk: word): (s': State) {
    s.(file := LoadMultiple(s, f, junk).file)
  }

  // What r<j> of the list is given.
  function GivenTo(s: State, f: Form, junk: word, j: nat): (v: word)
    requires j <= 15
  {
    Given(s, StartOf(s, f), f.list, junk, j)
  }

  lemma {:induction false} HeldSame(s: State, s1: State, start: word, list: word, junk: word, i: nat)
    requires i <= 16 && s1.mem == s.mem && s1.be == s.be
    ensures Held(s1, start, list, junk, i) == Held(s, start, list, junk, i)
    decreases i
  {
    if i > 0 {
      HeldSame(s, s1, start, list, junk, i - 1);
    }
  }

  lemma StartReached(s: State, f: Form, junk: word) returns (l: Loading)
    ensures l == Loading(WriteBase(s, f).file, StartOf(s, f), junk)
    ensures Reached(WriteBase(s, f), l, f.list, 0, StartOf(s, f), junk)
    ensures LoadMultiple(s, f, junk) == LoadFrom(WriteBase(s, f), l, f.list, 0)
  {
    l := Loading(WriteBase(s, f).file, StartOf(s, f), junk);
    AddOffset(StartOf(s, f), 0, 0);
  }

  // A load multiple up to r14: each listed register gets its word, the others keep what write-back
  // left.
  lemma LoadMultipleEffect(s: State, f: Form, junk: word, j: nat)
    requires ValidForm(f) && IsMode(s.mode) && j < 16
    ensures var s' := AfterLoad(s, f, junk);
            && s' == s.(file := s'.file)
            && (j < 15 && GetBit(f.list, j) == 1 ==> Raw(s', j) == GivenTo(s, f, junk, j))
            && (j == 15 || GetBit(f.list, j) == 0 ==> Raw(s', j) == Raw(WriteBase(s, f), j))
  {
    var s1 := WriteBase(s, f);
    var l := StartReached(s, f, junk);
    if j < 15 && GetBit(f.list, j) == 1 {
      LoadedWord(s1, l, f.list, 0, StartOf(s, f), junk, j);
      HeldSame(s, s1, StartOf(s, f), f.list, junk, j);
    } else {
      LoadFrame(s1, l, f.list, 0, j);
    }
  }

  // A physical register that no listed number names keeps what write-back left.
  lemma LoadMultipleFrame(s: State, f: Form, junk: word, p: nat)
    requires p < PHYSICAL
    requires forall r :: 0 <= r < 15 && GetBit(f.list, r) == 1 ==> Physical(r, s.mode) != p
    ensures AfterLoad(s, f, junk).file[p] == WriteBase(s, f).file[p]
  {
    var s1 := WriteBase(s, f);
    LoadKeepsBanks(s1, Loading(s1.file, StartOf(s, f), junk), f.list, 0, p);
  }

  // The load of r0 to r14 stops at the place of the pc.
  lemma PcReached(s: State, f: Form, junk: word)
    ensures LoadMultiple(s, f, junk).address == Place(s, f, 15)
    ensures Loaded(s, LoadMultiple(s, f, junk).address, LoadMultiple(s, f, junk).value) == GivenTo(s, f, junk, 15)
  {
    var l := StartReached(s, f, junk);
    LoadEnds(WriteBase(s, f), l, f.list, 0, StartOf(s, f), junk);
    HeldSame(s, WriteBase(s, f), StartOf(s, f), f.list, junk, 15);
  }

  lemma BackFour(x: word, below: nat)
    ensures Sub(Add(Add(x, below), 4), 4) == Add(x, below)
  {
  }

  lemma LastFromRegister(base: word, rn: word, below: nat)
    requires rn < 16 && below <= 60
    ensures Sub(rn + below + 4, 4) == Add(base, below) <==> base == rn
  {
  }

  lemma LastBelow(base: word, below: nat)
    ensures Add(Sub(base, below + 4), below) == Sub(base, 4)
  {
  }

  lemma LastAtBase(base: word, below: nat)
    ensures Add(Add(Sub(base, below + 4), 4), below) == base
  {
    AddOffset(Sub(base, below + 4), 4, below);
  }

  lemma LastAddress(f: Form, base: word, below: nat)
    requires ValidForm(f) && 4 * Count(f) == below + 4 && Count(f) <= 16
    ensures End(f, base) == Sub(Add(Add(Start(f, base), below), 4), 4)
            <==> !IncrementAfter(f) || base == f.rn
  {
    BackFour(Start(f, base), below);
    if IncrementAfter(f) {
      LastFromRegister(base, f.rn, below);
    } else if f.u {
      AddOffset(base, 4, below);
    } else if f.p {
      LastBelow(base, below);
    } else {
      LastAtBase(base, below);
    }
  }

  // The end address that start_end_adresse returns is where the last word goes, so that the
  // assert after loading the pc holds, except for increment-after: there it holds only when the
  // base happens to be the register's number.
  lemma EndIsLastWord(s: State, ins: word, junk: word)
    requires GetBit(ins, 20) == 1 && GetBit(FormOf(ins).list, 15) == 1
    ensures var f := FormOf(ins);
            Transfer(s, ins, junk).1 == ASSERT_FAILED <==> IncrementAfter(f) && BaseOf(s, f) != f.rn
  {
    var f := FormOf(ins);
    var base := BaseOf(s, f);
    PcReached(s, f, junk);
    assert Count(f) == Ones(f.list, 15) + 1;
    LastAddress(f, base, 4 * Ones(f.list, 15));
  }

  lemma MiddlePowers()
    ensures Pow2(0) == 1 && Pow2(4) == 0x10 && Pow2(16) == 0x1_0000 && Pow2(20) == 0x10_0000 && Pow2(21) == 0x20_0000
    ensures Pow2(23) == 0x80_0000 && Pow2(24) == 0x100_0000
  {
    Pow2Bytes();
    assert Pow2(4) == 0x10;
    assert Pow2(20) == 0x10 * Pow2(16) && Pow2(21) == 2 * Pow2(20) && Pow2(24) == 2 * Pow2(23);
  }

  // The form on the digits of the instruction.
  lemma FormInNumbers(ins: word)
    ensures FormOf(ins) == Form(ins / 0x100_0000 % 2 == 1, ins / 0x80_0000 % 2 == 1, ins / 0x20_0000 % 2 == 1,
                                ins / 0x1_0000 % 0x10, ins % 0x1_0000)
    ensures GetBit(ins, 20) == ins / 0x10_0000 % 2
  {
    MiddlePowers();
    BitIsDigit(ins, 24, 0x100_0000);
    BitIsDigit(ins, 23, 0x80_0000);
    BitIsDigit(ins, 21, 0x20_0000);
    BitIsDigit(ins, 20, 0x10_0000);
    FieldIsDigits(ins, 19, 16, 0x1_0000, 0x10);
    FieldIsDigits(ins, 15, 0, 1, 0x1_0000);
  }

  // How far from the base the first word is, with n registers in the list.
  function FirstOffset(p: bool, u: bool, n: nat): (o: int) {
    if u then (if p then 4 else 0) else (if p then -4 * n else 4 - 4 * n)
  }

  lemma StartInNumbers(f: Form, base: word)
    ensures Start(f, base) == Add(base, FirstOffset(f.p, f.u, Ones(f.list, 16)))
  {
    var n: int := Ones(f.list, 16);
    AddOffset(base, 0, 0);
    AddOffset(base, -4 * n, 4);
    AddOffset(base, 4 * n, 0);
  }

  // The places of the four modes from the base, and the end address that the source works out.
  lemma ModesInNumbers(s: State, f: Form, j: nat)
    requires ValidForm(f) && j <= 16
    ensures var base: int, n: int := Read(s, f.rn), Ones(f.list, 16);
            && Place(s, f, j) == (base + FirstOffset(f.p, f.u, n) + 4 * Ones(f.list, j)) % 0x1_0000_0000
            && (f.p && f.u ==> End(f, base) == (base + 4 * n) % 0x1_0000_0000)
            && (f.p && !f.u ==> End(f, base) == (base - 4) % 0x1_0000_0000)
            && (!f.p && f.u ==> End(f, base) == (4 * n - 4 + f.rn) % 0x1_0000_0000)
            && (!f.p && !f.u ==> End(f, base) == base)
  {
    StartInNumbers(f, Read(s, f.rn));
    AddOffset(Read(s, f.rn), FirstOffset(f.p, f.u, Ones(f.list, 16)), 4 * Ones(f.list, j));
  }

  // The register and the value that write-back leaves.
  lemma WriteBackInNumbers(f: Form, base: word)
    requires ValidForm(f)
    ensures var n: int := Ones(f.list, 16);
            && BaseRegister(f) == (if f.w && !f.p && f.u then f.rn + 4 * Ones(f.list, 16) else f.rn)
            && (!f.w || (!f.p && f.u) ==> NewBase(f, base) == base)
            && (f.w && f.p && f.u ==> NewBase(f, base) == (base + 4 * n) % 0x1_0000_0000)
            && (f.w && !f.u ==> NewBase(f, base) == (base - 4 * n) % 0x1_0000_0000)
  {
  }

  // ---------- the whole instruction ----------

  lemma TransferWithoutPc(s: State, ins: word, junk: word)
    requires GetBit(ins, 20) == 1 && GetBit(FormOf(ins).list, 15) == 0
    ensures Transfer(s, ins, junk) == (AfterLoad(s, FormOf(ins), junk), 0)
  {
  }

  lemma TransferWithPc(s: State, ins: word, junk: word)
    requires GetBit(ins, 20) == 1 && GetBit(FormOf(ins).list, 15) == 1
    ensures Transfer(s, ins, junk).0
         == SetReg(AfterLoad(s, FormOf(ins), junk), 15, Even(GivenTo(s, FormOf(ins), junk, 15)))
  {
    PcReached(s, FormOf(ins), junk);
  }

  // What a register of the list holds when it was given v: the pc loses bit 0.
  function Landed(j: nat, v: word): (w: word) {
    if j == 15 then Even(v) else v
  }

  lemma AfterLoadThenPc(s: State, f: Form, junk: word, v: word, j: nat)
    requires IsMode(s.mode) && j < 16
    ensures var s' := SetReg(AfterLoad(s, f, junk), 15, Even(v));
            s' == s.(file := s'.file) && Raw(s', j) == if j == 15 then Even(v) else Raw(AfterLoad(s, f, junk), j)
  {
    ReadAfterWrite(AfterLoad(s, f, junk).file, 15, s.mode, Even(v), j, s.mode);
  }

  // A load multiple as a whole, with or without the pc in its list: every listed register gets
  // the word at its place if memory has one there, and otherwise what the register before it in
  // the list was given; every other one keeps what write-back left, and nothing but registers
  // changes.
  lemma LoadTransfer(s: State, ins: word, junk: word, j: nat)
    requires GetBit(ins, 20) == 1 && IsMode(s.mode) && j < 16
    ensures var f, s' := FormOf(ins), Transfer(s, ins, junk).0;
            && s' == s.(file := s'.file)
            && (GetBit(f.list, j) == 0 ==> Raw(s', j) == Raw(WriteBase(s, f), j))
            && (GetBit(f.list, j) == 1 ==> Raw(s', j) == Landed(j, GivenTo(s, f, junk, j)))
            && (WordFits(s, f, j) ==> WordAt(s, Place(s, f, j)) == Some(GivenTo(s, f, junk, j)))
            && (!WordFits(s, f, j) ==> GivenTo(s, f, junk, j) == Held(s, StartOf(s, f), f.list, junk, j))
  {
    var f := FormOf(ins);
    LoadMultipleEffect(s, f, junk, j);
    if GetBit(f.list, 15) == 1 {
      TransferWithPc(s, ins, junk);
      AfterLoadThenPc(s, f, junk, GivenTo(s, f, junk, 15), j);
    } else {
      TransferWithoutPc(s, ins, junk);
    }
  }

  // And no physical register changes that no listed number names.
  lemma LoadTransferFrame(s: State, ins: word, junk: word, p: nat)
    requires GetBit(ins, 20) == 1 && p < PHYSICAL
    requires forall r :: 0 <= r < 16 && GetBit(FormOf(ins).list, r) == 1 ==> Physical(r, s.mode) != p
    ensures Transfer(s, ins, junk).0.file[p] == WriteBase(s, FormOf(ins)).file[p]
  {
    var f := FormOf(ins);
    LoadMultipleFrame(s, f, junk, p);
    assert GetBit(f.list, 15) == 1 ==> Physical(15, s.mode) != p;
  }

  // Loading the pc last does not disturb the other registers.
  lemma TransferKeepsLoaded(s: State, ins: word, junk: word, j: nat)
    requires GetBit(ins, 20) == 1 && IsMode(s.mode) && j < 15
    ensures Raw(Transfer(s, ins, junk).0, j) == Raw(AfterLoad(s, FormOf(ins), junk), j)
  {
    var l := LoadMultiple(s, FormOf(ins), junk);
    var v := Loaded(s, l.address, l.value);
    ReadAfterWrite(l.file, 15, s.mode, Even(v), j, s.mode);
  }

  // ---------- there and back ----------

  // Two machines whose word at an address is the same.
  predicate SameWord(s: State, s2: State, a: word) {
    WordAt(s, a) == WordAt(s2, a)
  }

  // What is stored from one start is loaded again from the same start.
  lemma Reload(s: State, f: Form, s2: State, g: Form, junk: word, j: nat)
    requires ValidForm(f) && ValidForm(g) && g.list == f.list && j < 15 && GetBit(f.list, j) == 1
    requires IsMode(s2.mode) && WordFits(s, f, j) && StartOf(s2, g) == StartOf(s, f)
    requires SameWord(StoreMultiple(s, f), s2, Place(s, f, j))
    ensures Raw(AfterLoad(s2, g, junk), j) == Read(WriteBase(s, f), j)
  {
    StoreMultipleEffect(s, f, j, 0);
    LoadMultipleEffect(s2, g, junk, j);
  }

  lemma BaseKept(s: State, f: Form, r: nat)
    requires !f.w && f.rn < 15 && r < 15 && IsMode(s.mode)
    ensures Raw(WriteBase(s, f), r) == Raw(s, r)
  {
    ReadAfterWrite(s.file, f.rn, s.mode, Raw(s, f.rn), r, s.mode);
  }

  // Store multiple and load multiple in the same mode without write-back: a listed register whose
  // place is in memory gets its value back, whatever happened in between, if the base, the mode and
  // the word at that place are the same.
  lemma StoreThenLoad(s: State, f: Form, s2: State, junk: word, j: nat)
    requires ValidForm(f) && !f.w && f.rn < 15 && IsMode(s.mode) && j < 15 && WordFits(s, f, j)
    requires GetBit(f.list, f.rn) == 0 && GetBit(f.list, j) == 1
    requires s2.mode == s.mode && SameWord(StoreMultiple(s, f), s2, Place(s, f, j))
    requires Raw(s2, f.rn) == Raw(StoreMultiple(s, f), f.rn)
    ensures Raw(AfterLoad(s2, f, junk), j) == Raw(s, j)
  {
    BaseKept(s, f, f.rn);
    BaseKept(s, f, j);
    Reload(s, f, s2, f, junk, j);
  }

  lemma BasePushed(s: State, f: Form, r: nat)
    requires !IncrementAfter(f) && f.rn < 15 && r < 15 && IsMode(s.mode)
    ensures Raw(WriteBase(s, f), r) == if r == f.rn then NewBase(f, Raw(s, r)) else Raw(s, r)
  {
    ReadAfterWrite(s.file, f.rn, s.mode, NewBase(f, Raw(s, f.rn)), r, s.mode);
  }

  // Store multiple decrement-before with write-back, then load multiple increment-after from the
  // same base register: a push and a pop (the pop cannot move the base, see WriteBackIsRight).
  lemma PushThenPop(s: State, rn: nat, list: word, s2: State, junk: word, j: nat)
    requires rn < 15 && list < 0x1_0000 && GetBit(list, rn) == 0 && j < 15 && GetBit(list, j) == 1
    requires IsMode(s.mode) && WordFits(s, Form(true, false, true, rn, list), j)
    requires var push := Form(true, false, true, rn, list);
             var s1 := StoreMultiple(s, push);
             s2.mode == s.mode && SameWord(s1, s2, Place(s, push, j)) && Raw(s2, rn) == Raw(s1, rn)
    ensures Raw(s2, rn) == Sub(Raw(s, rn), 4 * Ones(list, 16))
    ensures Raw(AfterLoad(s2, Form(false, true, false, rn, list), junk), j) == Raw(s, j)
  {
    var push, pop := Form(true, false, true, rn, list), Form(false, true, false, rn, list);
    BasePushed(s, push, rn);
    BasePushed(s, push, j);
    assert BaseOf(s2, pop) == NewBase(push, Raw(s, rn));
    Reload(s, push, s2, pop, junk, j);
  }

  // The same for whole instructions.
  lemma TransferThenBack(s: State, stm: word, junk: word, s2: State, ldm: word, junk2: word, j: nat)
    requires GetBit(stm, 20) == 0 && GetBit(ldm, 20) == 1 && FormOf(ldm) == FormOf(stm)
    requires var f := FormOf(stm);
             && !f.w && f.rn < 15 && IsMode(s.mode) && j < 15 && WordFits(s, f, j)
             && GetBit(f.list, f.rn) == 0 && GetBit(f.list, j) == 1
    requires var s1, f := Transfer(s, stm, junk).0, FormOf(stm);
             s2.mode == s.mode && SameWord(s1, s2, Place(s, f, j)) && Raw(s2, f.rn) == Raw(s1, f.rn)
    ensures Raw(Transfer(s2, ldm, junk2).0, j) == Raw(s, j)
  {
    StoreThenLoad(s, FormOf(stm), s2, junk2, j);
    TransferKeepsLoaded(s2, ldm, junk2, j);
  }

  predicate IsPush(ins: word, rn: nat, list: word) {
    GetBit(ins, 20) == 0 && FormOf(ins) == Form(true, false, true, rn, list)
  }

  predicate IsPop(ins: word, rn: nat, list: word) {
    GetBit(ins, 20) == 1 && FormOf(ins) == Form(false, true, false, rn, list)
  }

  lemma PushThenPopTransfers(s: State, push: word, junk: word, s2: State, pop: word, junk2: word,
                             rn: nat, list: word, j: nat)
    requires IsPush(push, rn, list) && IsPop(pop, rn, list)
    requires rn < 15 && list < 0x1_0000 && GetBit(list, rn) == 0 && j < 15 && GetBit(list, j) == 1
    requires IsMode(s.mode) && WordFits(s, FormOf(push), j)
    requires var s1 := Transfer(s, push, junk).0;
             s2.mode == s.mode && SameWord(s1, s2, Place(s, FormOf(push), j)) && Raw(s2, rn) == Raw(s1, rn)
    ensures Raw(Transfer(s2, pop, junk2).0, j) == Raw(s, j)
  {
    PushThenPop(s, rn, list, s2, junk2, j);
    TransferKeepsLoaded(s2, pop, junk2, j);
  }

  // ---------- two instructions that go wrong ----------

  // ldmia r0!, {r1}
  const LDMIA_WRITE_BACK: word := 0xE8B0_0002

  // ldmia r0, {r1, pc}
  const LDMIA_PC: word := 0xE890_8002

  lemma FormAt(ins: word, q: nat, list: word)
    requires ins == 0x1_0000 * q + list && list < 0x1_0000
    ensures FormOf(ins) == Form(q / 0x100 % 2 == 1, q / 0x80 % 2 == 1, q / 0x20 % 2 == 1, q % 0x10, list)
    ensures GetBit(ins, 20) == q / 0x10 % 2
  {
    Pow2Bytes();
    assert Pow2(4) == 0x10 && Pow2(5) == 0x20 && Pow2(7) == 0x80;
    HighLowAreDivMod(ins, 16);
    DivModIs(ins, 0x1_0000, q, list);
    HighHigh(ins, 16, 8);
    HighHigh(ins, 16, 7);
    HighHigh(ins, 16, 5);
    HighHigh(ins, 16, 4);
    HighLowAreDivMod(q, 8);
    HighLowAreDivMod(q, 7);
    HighLowAreDivMod(q, 5);
    HighLowAreDivMod(q, 4);
  }

  lemma {:induction false} NoMore(list: word, a: nat, b: nat)
    requires a <= b <= 16 && High(list, a) == 0
    ensures Ones(list, b) == Ones(list, a)
    decreases b
  {
    if a < b {
      NoMore(list, a, b - 1);
      HighHigh(list, a, b - 1 - a);
      HighRange(0, b - 1 - a);
    }
  }

  lemma TwoIsCounted(list: word)
    requires list == 2
    ensures GetBit(list, 4) == 0 && Ones(list, 16) == 1
  {
    assert Pow2(2) == 4;
    LowSmall(list, 2);
    NoMore(list, 2, 16);
    assert GetBit(list, 1) == 1 && GetBit(list, 0) == 0;
    HighHigh(list, 2, 2);
  }

  lemma PcIsListed(list: word)
    requires list == 0x8002
    ensures GetBit(list, 15) == 1
  {
    Pow2Bytes();
    assert Pow2(16) == 2 * Pow2(15);
    HighTop(list, 15);
  }

  lemma BaseStays(s: State, f: Form)
    requires ValidForm(f) && IsMode(s.mode) && IncrementAfter(f) && f.w && f.rn == 0 && Count(f) > 0
    ensures Read(WriteBase(s, f), 0) == Read(s, 0) != ArchitecturalBase(f, Read(s, 0))
  {
    assert BaseRegister(f) != 0;
  }

  // The first should move r0 up by four; it stays where it is.
  lemma WriteBackFails(s: State, ins: word)
    requires IsMode(s.mode) && ins == LDMIA_WRITE_BACK
    ensures var f := FormOf(ins);
            f.w && f.rn == 0 && Read(WriteBase(s, f), 0) == Read(s, 0) != ArchitecturalBase(f, Read(s, 0))
  {
    var f := FormOf(ins);
    assert f == Form(false, true, true, 0, 2) by {
      FormAt(ins, 0xE8B0, 2);
    }
    TwoIsCounted(f.list);
    BaseStays(s, f);
  }

  // And r4, which is not in the list, loses its value to it.
  lemma AnotherRegisterLost(s: State, ins: word, junk: word)
    requires IsMode(s.mode) && ins == LDMIA_WRITE_BACK
    ensures Raw(Transfer(s, ins, junk).0, 4) == Raw(s, 0)
  {
    var f := FormOf(ins);
    assert f == Form(false, true, true, 0, 2) && GetBit(ins, 20) == 1 by {
      FormAt(ins, 0xE8B0, 2);
    }
    TwoIsCounted(f.list);
    LoadTransfer(s, ins, junk, 4);
    ReadAfterWrite(s.file, 4, s.mode, Raw(s, 0), 4, s.mode);
  }

  // The second fails its assert whenever r0 is not zero.
  lemma AssertFails(s: State, ins: word, junk: word)
    requires ins == LDMIA_PC
    ensures Transfer(s, ins, junk).1 == ASSERT_FAILED <==> Raw(s, 0) != 0
  {
    var f := FormOf(ins);
    assert f == Form(false, true, false, 0, 0x8002) && GetBit(ins, 20) == 1 by {
      FormAt(ins, 0xE890, 0x8002);
    }
    PcIsListed(f.list);
    EndIsLastWord(s, ins, junk);
  }

  // ---------- the implementation ----------

  method StartEndAddress(p: ArmCore, f: Form) returns (start: word, end: word)
    requires p.Valid() && ValidForm(f)
    modifies p.Repr()
    ensures p.Valid() && p.state == WriteBase(old(p.state), f)
    ensures var base := BaseOf(old(p.state), f); start == Start(f, base) && end == End(f, base)
  {
    var count := CountSetBits(f.list);
    var rn := f.rn;
    var base := p.ReadRegister(rn);
    if !f.p && f.u {
      start := base;
      end := Sub(rn + count * 4, 4);
      if f.w {
        rn := rn + count * 4;
      }
    } else if f.p && f.u {
      start := Add(base, 4);
      end := Add(base, count * 4);
      if f.w {
        base := Add(base, count * 4);
      }
    } else if !f.p && !f.u {
      start := Add(Sub(base, count * 4), 4);
      end := base;
      if f.w {
        base := Sub(base, count * 4);
      }
    } else {
      start := Sub(base, count * 4);
      end := Sub(base, 4);
      if f.w {
        base := Sub(base, count * 4);
      }
    }
    p.WriteRegister(rn, base);
  }

  method Stm(p: ArmCore, list: word, start: word)
    requires p.Valid()
    modifies p.Repr()
    ensures p.Valid()
    ensures p.state == old(p.state).(mem := StoreFrom(old(p.state), old(p.state).mem, list, 0, start))
  {
    var address := start;
    ghost var s := p.state;
    var i := 0;
    while i < 15
      invariant 0 <= i <= 15 && p.Valid()
      invariant p.state == s.(mem := p.state.mem)
      invariant StoreFrom(s, s.mem, list, 0, start) == StoreFrom(s, p.state.mem, list, i, address)
    {
      if GetBit(list, i) == 1 {
        var value := p.ReadRegister(i);
        var ok := p.WriteWord(address, value);
        address := Add(address, 4);
      }
      i := i + 1;
    }
  }

  method Ldm(p: ArmCore, list: word, start: word, junk: word) returns (address: word, value: word)
    requires p.Valid()
    modifies p.Repr()
    ensures p.Valid()
    ensures var l := LoadFrom(old(p.state), Loading(old(p.state).file, start, junk), list, 0);
            p.state == old(p.state).(file := l.file) && address == l.address && value == l.value
  {
    address, value := start, junk;
    ghost var s := p.state;
    var i := 0;
    while i < 15
      invariant 0 <= i <= 15 && p.Valid()
      invariant p.state == s.(file := p.state.file)
      invariant LoadFrom(s, Loading(s.file, start, junk), list, 0)
             == LoadFrom(s, Loading(p.state.file, address, value), list, i)
    {
      if GetBit(list, i) == 1 {
        var read := p.ReadWord(address);
        if read.Some? {
          value := read.value;
        }
        p.WriteRegister(i, value);
        address := Add(address, 4);
      }
      i := i + 1;
    }
  }

  // The last part of a load multiple whose list has the pc.
  method LdmPc(p: ArmCore, address: word, value: word) returns (next: word)
    requires p.Valid()
    modifies p.Repr()
    ensures p.Valid()
    ensures var l := LoadPc(old(p.state), Loading(old(p.state).file, address, value));
            p.state == old(p.state).(file := l.file) && next == l.address
  {
    var read := p.ReadWord(address);
    var v := if read.Some? then read.value else value;
    ClearBit0(v);
    p.WriteRegister(15, BitAnd(v, 0xFFFF_FFFE));
    next := Add(address, 4);
  }

  method ArmLoadStoreMultiple(p: ArmCore, ins: word, junk: word) returns (r: int)
    requires p.Valid()
    modifies p.Repr()
    ensures p.Valid() && (p.state, r) == Transfer(old(p.state), ins, junk)
  {
    var f := FormOf(ins);
    var start, end := StartEndAddress(p, f);
    r := 0;
    if GetBit(ins, 20) == 0 {
      Stm(p, f.list, start);
    } else {
      var address, value := Ldm(p, f.list, start, junk);
      if GetBit(f.list, 15) == 1 {
        address := LdmPc(p, address, value);
        if end != Sub(address, 4) {
          r := ASSERT_FAILED;
        }
      }
    }
  }
}

/**
 The texts of the gdb remote protocol (gdb_protocol.c): hexadecimal numbers, packets with their
 checksum, register dumps and escaped bytes.
 */
module Text {
  import opened Words
  import opened Mem
  import opened Reg
  import opened Machine
  import Exceptions

  type text = seq<byte>

  const DOLLAR: byte := 0x24
  const HASH: byte := 0x23
  const PLUS: byte := 0x2b
  const MINUS: byte := 0x2d
  const ESCAPE: byte := 0x7d

  const OK: text := [0x4f, 0x4b]
  const ERROR2: text := [0x45, 0x30, 0x32]

  function StopReason(exception: int): (t: text)
    ensures 0 !in t && |t| == 3
  {
    if exception == Exceptions.UNDEFINED_INSTRUCTION then [0x53, 0x30, 0x34]
    else if exception == Exceptions.PREFETCH_ABORT then [0x53, 0x30, 0x41]
    else if exception == Exceptions.DATA_ABORT then [0x53, 0x30, 0x42]
    else if exception == Exceptions.END_SIMULATION then [0x58, 0x30, 0x35]
    else [0x53, 0x30, 0x35]
  }

  // ---------- hexadecimal ----------

  function Digit(n: nat): (c: byte)
    requires n < 16
  {
    if n < 10 then 0x30 + n else 0x57 + n
  }

  // `%0<n>x`: n digits, the most significant first
  function Hex(v: nat, n: nat): (t: text)
    ensures |t| == n
    decreases n, v
  {
    if n == 0 then [] else Hex(v / 16, n - 1) + [Digit(v % 16)]
  }

  function DigitValue(c: byte): (d: Option<nat>)
    ensures d.Some? ==> d.value < 16
  {
    if 0x30 <= c <= 0x39 then Some(c - 0x30)
    else if 0x61 <= c <= 0x66 then Some(c - 0x57)
    else if 0x41 <= c <= 0x46 then Some(c - 0x37)
    else None
  }

  // `%<n>x`: at most n digits, up to the first character that is none
  function Scan(t: text, n: nat, value: word): (v: word)
    decreases n, t
  {
    if n == 0 || t == [] || DigitValue(t[0]).None? then value
    else Scan(t[1..], n - 1, (16 * value + DigitValue(t[0]).value) % TWO32)
  }

  // read_uint32: when there is no digit the variable keeps what it happened to hold.
  function ReadNumber(t: text, junk: word): (v: word) {
    if t == [] || DigitValue(t[0]).None? then junk else Scan(t, 8, 0)
  }

  function Pow16(n: nat): (p: nat)
    ensures p >= 1
  {
    if n == 0 then 1 else 16 * Pow16(n - 1)
  }

  lemma Regroup(a: text, b: text, c: text)
    ensures (a + b) + c == a + (b + c)
  {
  }

  lemma ScanDigit(d: nat, rest: text, n: nat, value: word, v: word)
    requires d < 16 && v == 16 * value + d
    ensures Scan([Digit(d)] + rest, n + 1, value) == Scan(rest, n, v)
  {
    assert ([Digit(d)] + rest)[1..] == rest;
  }

  lemma HexLast(v: nat, n: nat, rest: text)
    requires n > 0
    ensures Hex(v, n) + rest == Hex(v / 16, n - 1) + ([Digit(v % 16)] + rest)
  {
    Regroup(Hex(v / 16, n - 1), [Digit(v % 16)], rest);
  }

  lemma {:induction false} Pow16Less(a: nat, b: nat)
    requires a <= b
    ensures Pow16(a) <= Pow16(b)
  {
    if a < b {
      Pow16Less(a, b - 1);
    }
  }

  lemma {:induction false} Pow16Bound(n: nat)
    requires n <= 8
    ensures Pow16(n) <= TWO32
  {
    assert Pow16(4) == 0x1_0000;
    if n == 8 {
      assert Pow16(8) == TWO32;
    } else {
      Pow16Less(n, 8);
      assert Pow16(8) == TWO32;
    }
  }

  lemma {:induction false} ScanSplits(v: nat, n: nat, rest: text, more: nat)
    requires v < Pow16(n) && n + more <= 8
    ensures v < TWO32
    ensures Scan(Hex(v, n) + rest, n + more, 0) == Scan(rest, more, v)
    decreases n
  {
    if n == 0 {
      assert Hex(v, 0) + rest == rest;
    } else {
      Pow16Bound(n);
      var high, low := v / 16, v % 16;
      assert high < Pow16(n - 1);
      var digit := [Digit(low)] + rest;
      ScanSplits(high, n - 1, digit, more + 1);
      ScanDigit(low, rest, more, high, v);
      var t := Hex(high, n - 1) + digit;
      assert Hex(v, n) + rest == t by {
        HexLast(v, n, rest);
      }
      assert Scan(t, n + more, 0) == Scan(digit, more + 1, high);
    }
  }

  // Reading back what was printed, whatever follows.
  lemma HexReadBack(v: nat, n: nat, rest: text)
    requires v < Pow16(n) && n <= 8
    ensures v < TWO32 && Scan(Hex(v, n) + rest, n, 0) == v
  {
    ScanSplits(v, n, rest, 0);
  }

  // ---------- packets ----------

  function Checksum(t: text): (c: byte) {
    if t == [] then 0 else (Checksum(t[..|t| - 1]) + t[|t| - 1]) % 0x100
  }

  function Frame(payload: text): (t: text)
    ensures |t| == |payload| + 4
  {
    [DOLLAR] + payload + [HASH] + Hex(Checksum(payload), 2)
  }

  // The requests that have a handler: c C k q g m p ? H s S G X P z Z
  predicate HasHandler(c: byte) {
    c in {0x63, 0x43, 0x6b, 0x71, 0x67, 0x6d, 0x70, 0x3f, 0x48, 0x73, 0x53, 0x47, 0x58, 0x50, 0x7a, 0x5a}
  }

  // What the analysis of a packet does: ask for it again, answer that the request is not
  // supported, or call the handler of its first byte on the rest.
  datatype Dispatch = Retransmit | Unsupported | Handle(command: byte, data: text)

  // The scanner passes on only `$...#` followed by two hexadecimal digits (scanner.l:67).
  predicate Scanned(t: text) {
    |t| >= 4 && DigitValue(t[|t| - 2]).Some? && DigitValue(t[|t| - 1]).Some?
  }

  function Payload(t: text): (p: text)
    requires |t| >= 4
  {
    t[1..|t| - 3]
  }

  lemma PayloadParts(t: text)
    requires |t| >= 4
    ensures |t| > 4 ==> Payload(t) != [] && Payload(t)[0] == t[1] && Payload(t)[1..] == t[2..|t| - 3]
    ensures |t| == 4 ==> Payload(t) == []
  {
  }

  function Analyse(t: text): (d: Dispatch)
    requires Scanned(t)
  {
    var payload := Payload(t);
    if Checksum(payload) != Scan(t[|t| - 2..], 2, 0) then Retransmit
    else if payload != [] && HasHandler(payload[0]) then Handle(payload[0], payload[1..])
    else Unsupported
  }

  lemma HexDigits(c: byte)
    ensures Hex(c, 2) == [Digit(c / 16), Digit(c % 16)]
  {
    assert Hex(c / 16 / 16, 0) == [];
    assert Hex(c / 16, 1) == [] + [Digit(c / 16 % 16)];
  }

  lemma FrameParts(p: text)
    ensures var t := Frame(p);
            && Scanned(t) && Payload(t) == p && t[|t| - 2..] == Hex(Checksum(p), 2)
            && Scan(t[|t| - 2..], 2, 0) == Checksum(p)
  {
    var t, c := Frame(p), Checksum(p);
    assert t[|t| - 2..] == Hex(c, 2);
    assert Pow16(2) == 256;
    HexReadBack(c, 2, []);
    assert Hex(c, 2) + [] == Hex(c, 2);
    HexDigits(c);
    assert t[|t| - 2] == t[|t| - 2..][0] && t[|t| - 1] == t[|t| - 2..][1];
  }

  // What gdb_send_buffer builds is accepted, and dispatched on its first byte with the rest.
  lemma FrameIsDispatched(p: text)
    ensures Scanned(Frame(p))
    ensures Analyse(Frame(p)) == if p != [] && HasHandler(p[0]) then Handle(p[0], p[1..]) else Unsupported
  {
    FrameParts(p);
  }

  lemma SumDiffers(c: byte, a: byte, b: byte)
    requires a != b
    ensures (c + a) % 0x100 != (c + b) % 0x100 && (a + c) % 0x100 != (b + c) % 0x100
  {
  }

  lemma {:induction false} ChecksumDiffers(p: text, k: nat, b: byte)
    requires k < |p| && b != p[k]
    ensures Checksum(p[k := b]) != Checksum(p)
    decreases |p|
  {
    var q, last := p[k := b], |p| - 1;
    var front := p[..last];
    if k == last {
      assert q[..last] == front;
      SumDiffers(Checksum(front), p[last], b);
    } else {
      assert q[..last] == front[k := b];
      ChecksumDiffers(front, k, b);
      SumDiffers(p[last], Checksum(front), Checksum(front[k := b]));
    }
  }

  // Any change of one byte of the payload is noticed.
  lemma CorruptionIsDetected(p: text, k: nat, b: byte)
    requires k < |p| && b != p[k]
    ensures var t := Frame(p)[k + 1 := b]; Scanned(t) && Analyse(t) == Retransmit
  {
    var t := Frame(p)[k + 1 := b];
    FrameParts(p);
    assert Payload(t) == p[k := b];
    assert t[|t| - 2..] == Frame(p)[|t| - 2..];
    ChecksumDiffers(p, k, b);
  }

  // ---------- escaped bytes ----------

  function Flip(b: byte): (f: byte) {
    assert Pow2(8) == 0x100;
    OrBound(b, 0x20, 8);
    Xor(b, 0x20)
  }

  function Unescape(t: text): (bytes: text)
    decreases |t|
  {
    if t == [] then []
    else if t[0] != ESCAPE then [t[0]] + Unescape(t[1..])
    else if |t| == 1 then []
    else [Flip(t[1])] + Unescape(t[2..])
  }

  // The bytes that a sender must not put in a packet as they are.
  predicate MustEscape(b: byte) {
    b == ESCAPE || b == HASH || b == DOLLAR
  }

  function Escaped(bytes: text): (t: text) {
    if bytes == [] then []
    else (if MustEscape(bytes[0]) then [ESCAPE, Flip(bytes[0])] else [bytes[0]]) + Escaped(bytes[1..])
  }

  lemma {:induction false} XorTwice(x: nat, y: nat)
    ensures Xor(Xor(x, y), y) == x
    decreases x + y
  {
    if x != 0 || y != 0 {
      XorTwice(x / 2, y / 2);
      var z := Xor(x, y);
      assert z / 2 == Xor(x / 2, y / 2);
      if z == 0 && y == 0 {
        assert x % 2 == 0;
      }
    }
  }

  lemma {:induction false} UnescapeEscaped(bytes: text)
    ensures Unescape(Escaped(bytes)) == bytes
  {
    if bytes != [] {
      var b, t := bytes[0], Escaped(bytes);
      UnescapeEscaped(bytes[1..]);
      XorTwice(b, 0x20);
      if MustEscape(b) {
        assert t[2..] == Escaped(bytes[1..]);
      } else {
        assert t[1..] == Escaped(bytes[1..]);
      }
    }
  }

  // ---------- register dumps ----------

  function Fill(n: nat): (t: text)
    ensures |t| == n
  {
    seq(n, _ => 0x78)
  }

  // Words in eight digits each
  function WordTexts(words: seq<word>): (t: text)
    ensures |t| == 8 * |words|
  {
    if words == [] then [] else Hex(words[0], 8) + WordTexts(words[1..])
  }

  function VisibleRegisters(s: State): (words: seq<word>)
    ensures |words| == 16
  {
    seq(16, i requires 0 <= i < 16 => Raw(s, i))
  }

  // The answer to `g`: r0 to r15, eight floating-point registers of three words and their status
  // that do not exist, and the CPSR.
  const DUMP_LENGTH := 336

  function Dump(s: State): (t: text)
    ensures |t| == DUMP_LENGTH
  {
    WordTexts(VisibleRegisters(s)) + Fill(200) + Hex(s.cpsr, 8)
  }

  // `data` is what the buffer holds after the letter of the request.  It reaches to the end of a
  // dump; the request itself may end before that, at its NUL.
  predicate Restorable(data: text, junks: seq<word>) {
    |data| >= DUMP_LENGTH && |junks| == 17
  }

  function RestoreFrom(s: State, data: text, junks: seq<word>, i: nat): (s': State)
    requires i <= 16 && Restorable(data, junks)
    decreases 16 - i, data
  {
    if i == 16 then s else RestoreFrom(SetReg(s, i, ReadNumber(data[8 * i..], junks[i])), data, junks, i + 1)
  }

  // What `G` does with a dump.
  function Restore(s: State, data: text, junks: seq<word>): (s': State)
    requires Restorable(data, junks)
  {
    SetCpsr(RestoreFrom(s, data, junks, 0), ReadNumber(data[328..], junks[16]))
  }

  lemma {:induction false} StartsWithDigit(v: nat, n: nat, rest: text)
    requires n > 0
    ensures DigitValue((Hex(v, n) + rest)[0]).Some?
    decreases n
  {
    if n > 1 {
      StartsWithDigit(v / 16, n - 1, [Digit(v % 16)] + rest);
      HexLast(v, n, rest);
    } else {
      assert Hex(v / 16, 0) == [];
    }
  }

  lemma WordReadBack8(v: word, rest: text, junk: word)
    ensures ReadNumber(Hex(v, 8) + rest, junk) == v
  {
    StartsWithDigit(v, 8, rest);
    assert Pow16(4) == 0x1_0000;
    assert Pow16(8) == TWO32;
    HexReadBack(v, 8, rest);
  }

  lemma DropBoth(a: text, b: text, k: nat)
    requires k <= |b|
    ensures (a + b)[|a| + k..] == b[k..]
  {
  }

  lemma {:induction false} WordTextsSuffix(words: seq<word>, tail: text, j: nat)
    requires j <= |words|
    ensures (WordTexts(words) + tail)[8 * j..] == WordTexts(words[j..]) + tail
    decreases j
  {
    if j == 0 {
      assert words[0..] == words;
    } else {
      var first, later := Hex(words[0], 8), WordTexts(words[1..]);
      Regroup(first, later, tail);
      DropBoth(first, later + tail, 8 * (j - 1));
      WordTextsSuffix(words[1..], tail, j - 1);
      assert words[1..][j - 1..] == words[j..];
    }
  }

  lemma DumpedRegister(s: State, j: nat, junk: word)
    requires j < 16
    ensures ReadNumber(Dump(s)[8 * j..], junk) == Raw(s, j)
  {
    var words, tail := VisibleRegisters(s), Fill(200) + Hex(s.cpsr, 8);
    Regroup(WordTexts(words), Fill(200), Hex(s.cpsr, 8));
    WordTextsSuffix(words, tail, j);
    var rest := words[j..];
    assert rest[0] == words[j] == Raw(s, j);
    Regroup(Hex(rest[0], 8), WordTexts(rest[1..]), tail);
    WordReadBack8(rest[0], WordTexts(rest[1..]) + tail, junk);
  }

  lemma DumpedStatus(s: State, junk: word)
    ensures ReadNumber(Dump(s)[328..], junk) == s.cpsr
  {
    assert Dump(s)[328..] == Hex(s.cpsr, 8) + [];
    WordReadBack8(s.cpsr, [], junk);
  }

  lemma ReadAfterWriteInMode(file: seq<word>, mode: byte, reg: nat, v: word, reg': nat)
    requires |file| == PHYSICAL && reg < 16 && reg' < 16
    ensures ReadBank(WriteBank(file, reg, mode, v), reg', mode)
         == if reg == reg' && Physical(reg, mode) >= 0 then v else ReadBank(file, reg', mode)
  {
  }

  // Restoring writes the dumped value to every register of the mode, and to nothing else.
  lemma {:induction false} RestoredRegister(s: State, s2: State, junks: seq<word>, i: nat, r: nat)
    requires |junks| == 17 && i <= 16 && r < 16 && s2.mode == s.mode
    ensures var s3 := RestoreFrom(s2, Dump(s), junks, i);
            s3 == s2.(file := s3.file) && Raw(s3, r) == if r >= i then Raw(s, r) else Raw(s2, r)
    decreases 16 - i
  {
    if i < 16 {
      DumpedRegister(s, i, junks[i]);
      var s' := SetReg(s2, i, Raw(s, i));
      ReadAfterWriteInMode(s2.file, s2.mode, i, Raw(s, i), r);
      RestoredRegister(s, s', junks, i + 1, r);
    }
  }

  lemma {:induction false} RestoreKeepsHidden(s: State, data: text, junks: seq<word>, i: nat, p: nat)
    requires i <= 16 && Restorable(data, junks) && p < PHYSICAL
    requires forall r :: 0 <= r < 16 ==> Physical(r, s.mode) != p
    ensures RestoreFrom(s, data, junks, i).file[p] == s.file[p]
    decreases 16 - i
  {
    if i < 16 {
      RestoreKeepsHidden(SetReg(s, i, ReadNumber(data[8 * i..], junks[i])), data, junks, i + 1, p);
    }
  }

  // A dump, then any change that keeps the mode, then a restore of the dump: all sixteen
  // registers and the CPSR are back (and with them the mode, in a machine that agrees).
  lemma DumpThenRestore(s: State, s2: State, junks: seq<word>, r: nat)
    requires |junks| == 17 && s2.mode == s.mode && r < 16
    ensures var s3 := Restore(s2, Dump(s), junks);
            && ReadBank(s3.file, r, s.mode) == Raw(s, r) && s3.cpsr == s.cpsr
            && (ModeAgrees(s) ==> s3.mode == s.mode && Raw(s3, r) == Raw(s, r))
            && s3 == s2.(file := s3.file, cpsr := s3.cpsr, mode := s3.mode)
  {
    DumpedStatus(s, junks[16]);
    RestoredRegister(s, s2, junks, 0, r);
  }

  // The banks of the other modes keep what they held before the restore.
  lemma RestoreTouchesNoHiddenBank(s: State, data: text, junks: seq<word>, p: nat)
    requires Restorable(data, junks) && p < PHYSICAL
    requires forall r :: 0 <= r < 16 ==> Physical(r, s.mode) != p
    ensures Restore(s, data, junks).file[p] == s.file[p]
  {
    RestoreKeepsHidden(s, data, junks, 0, p);
  }

  // ---------- memory texts ----------

  function HexBytes(bytes: seq<byte>): (t: text)
    ensures |t| == 2 * |bytes|
  {
    if bytes == [] then [] else HexBytes(bytes[..|bytes| - 1]) + Hex(bytes[|bytes| - 1], 2)
  }

  // "E0E": EFAULT in two capital digits
  const FAULT: text := [0x45, 0x30, 0x45]

  // How many of `size` bytes from `address` there are: as far as memory goes, and all of them in a
  // memory of 2^32 bytes, where addresses wrap round.
  function Available(capacity: nat, address: word, size: nat): (n: nat)
    ensures n <= size
  {
    if address >= capacity then 0
    else if capacity >= TWO32 || address + size <= capacity then size
    else capacity - address
  }

  lemma AvailableNext(capacity: nat, address: word, size: nat)
    requires address < capacity <= TWO32 && size > 0
    ensures Available(capacity, address, size) == 1 + Available(capacity, Add(address, 1), size - 1)
  {
  }

  // The bytes that successive reads meet.
  function Slice(m: seq<byte>, address: word, size: nat): (bytes: seq<byte>)
    decreases size, m
  {
    if size == 0 || address >= |m| then [] else [m[address]] + Slice(m, Add(address, 1), size - 1)
  }

  lemma {:induction false} SliceAt(m: seq<byte>, address: word, size: nat, k: nat)
    requires |m| <= TWO32
    ensures |Slice(m, address, size)| == Available(|m|, address, size)
    ensures k < |Slice(m, address, size)| ==>
      Add(address, k) < |m| && Slice(m, address, size)[k] == m[Add(address, k)]
    decreases size
  {
    if size > 0 && address < |m| {
      AvailableNext(|m|, address, size);
      if k == 0 {
        assert Add(address, 0) == address;
        SliceAt(m, Add(address, 1), size - 1, 0);
      } else {
        AddOffset(address, 1, k - 1);
        SliceAt(m, Add(address, 1), size - 1, k - 1);
      }
    }
  }

  // Says nothing: the quantifier of StartsAs is used for the numbers that occur in it only.
  predicate Considered(k: nat) { true }

  // The bytes are those of memory from the address on, as many as asked for or up to its end.
  predicate StartsAs(m: seq<byte>, address: word, size: nat, bytes: seq<byte>) {
    |bytes| <= size &&
    forall k: nat {:trigger Considered(k)} :: Considered(k) && k < size && k <= |bytes| ==>
      LoadByte(m, Add(address, k)) == if k < |bytes| then Some(bytes[k]) else None
  }

  lemma SliceIsThere(m: seq<byte>, address: word, size: nat)
    requires address < |m| <= TWO32
    ensures |Slice(m, address, size)| == Available(|m|, address, size)
    ensures StartsAs(m, address, size, Slice(m, address, size))
  {
    var bytes := Slice(m, address, size);
    forall k: nat | k < size && k <= |bytes|
      ensures LoadByte(m, Add(address, k)) == if k < |bytes| then Some(bytes[k]) else None
    {
      SliceAt(m, address, size, k);
    }
    SliceAt(m, address, size, 0);
  }

  lemma HexBytesSnoc(bytes: seq<byte>, k: nat)
    requires k < |bytes|
    ensures HexBytes(bytes[..k + 1]) == HexBytes(bytes[..k]) + Hex(bytes[k], 2)
  {
    assert bytes[..k + 1][..k] == bytes[..k];
  }

  // The answer to `m`.
  function MemoryText(m: seq<byte>, address: word, size: nat): (t: text) {
    if address >= |m| then FAULT else HexBytes(Slice(m, address, size))
  }

  // Writing bytes one after the other up to the first that memory rejects.
  function StoreBytes(m: seq<byte>, address: word, bytes: seq<byte>): (r: (seq<byte>, bool))
    ensures |r.0| == |m|
    decreases |bytes|
  {
    if bytes == [] then (m, true)
    else if address >= |m| then (m, false)
    else StoreBytes(Store(m, WriteByte(address, bytes[0])), Add(address, 1), bytes[1..])
  }

  // The effect of `X`: the answer is OK or an error.
  function WriteBinary(m: seq<byte>, address: word, bytes: seq<byte>): (r: (seq<byte>, bool)) {
    if address >= |m| then (m, false) else StoreBytes(m, address, bytes)
  }

  lemma NextOffset(k: word, address: word)
    ensures Sub(k, Add(address, 1)) == if k == address then MAX32 else Sub(k, address) - 1
    ensures Sub(k, address) == 0 <==> k == address
  {
  }

  // Byte k of memory afterwards, for every k: exactly the bytes that there is room for are
  // written, at consecutive addresses, and success means all.
  lemma {:induction false} StoreBytesAt(m: seq<byte>, address: word, bytes: seq<byte>, k: nat)
    requires k < |m| <= TWO32 && |bytes| <= TWO32
    ensures var ((m', ok), n, j) := (StoreBytes(m, address, bytes), Available(|m|, address, |bytes|), Sub(k, address));
            (ok <==> n == |bytes|) && m'[k] == if j < n then bytes[j] else m[k]
    decreases |bytes|
  {
    if bytes != [] && address < |m| {
      var w, later := WriteByte(address, bytes[0]), bytes[1..];
      StoreAt(m, w, k);
      StoreBytesAt(Store(m, w), Add(address, 1), later, k);
      AvailableNext(|m|, address, |bytes|);
      NextOffset(k, address);
      assert StoreBytes(m, address, bytes) == StoreBytes(Store(m, w), Add(address, 1), later);
    }
  }

  // What the j-th byte written is found as.
  lemma WrittenAt(m: seq<byte>, address: word, bytes: seq<byte>, j: nat)
    requires |m| <= TWO32 && |bytes| < TWO32 && j < Available(|m|, address, |bytes|)
    ensures LoadByte(StoreBytes(m, address, bytes).0, Add(address, j)) == Some(bytes[j])
  {
    BackTo(address, j);
    assert Add(address, j) < |m|;
    StoreBytesAt(m, address, bytes, Add(address, j));
  }

  lemma {:induction false} SliceIs(m: seq<byte>, address: word, size: nat, bytes: seq<byte>)
    requires |m| <= TWO32 && |bytes| == Available(|m|, address, size)
    requires forall j :: 0 <= j < |bytes| ==> LoadByte(m, Add(address, j)) == Some(bytes[j])
    ensures Slice(m, address, size) == bytes
    decreases size
  {
    if bytes == [] {
      SliceAt(m, address, size, 0);
    } else {
      var next, later := Add(address, 1), bytes[1..];
      assert LoadByte(m, Add(address, 0)) == Some(bytes[0]);
      forall j | 0 <= j < |later| ensures LoadByte(m, Add(next, j)) == Some(later[j]) {
        AddOffset(address, 1, j);
        assert LoadByte(m, Add(address, j + 1)) == Some(bytes[j + 1]);
      }
      AvailableNext(|m|, address, size);
      SliceIs(m, next, size - 1, later);
    }
  }

  lemma WrittenSlice(m: seq<byte>, address: word, bytes: seq<byte>)
    requires address < |m| <= TWO32 && |bytes| < TWO32
    ensures Slice(StoreBytes(m, address, bytes).0, address, |bytes|) == bytes[..Available(|m|, address, |bytes|)]
  {
    var m', n := StoreBytes(m, address, bytes).0, Available(|m|, address, |bytes|);
    var front := bytes[..n];
    forall j | 0 <= j < n ensures LoadByte(m', Add(address, j)) == Some(front[j]) {
      WrittenAt(m, address, bytes, j);
    }
    SliceIs(m', address, |bytes|, front);
  }

  // An escaped write of any bytes, read back over the same range: the text of what there was room
  // for.  Sizes have 32 bits.
  lemma WriteThenRead(m: seq<byte>, address: word, bytes: seq<byte>)
    requires |m| <= TWO32 && |bytes| < TWO32
    ensures var ((m', ok), n) := (WriteBinary(m, address, Unescape(Escaped(bytes))), Available(|m|, address, |bytes|));
            && (ok <==> address < |m| && n == |bytes|)
            && MemoryText(m', address, |bytes|) == if address < |m| then HexBytes(bytes[..n]) else FAULT
  {
    UnescapeEscaped(bytes);
    if address < |m| {
      StoreBytesAt(m, address, bytes, address);
      WrittenSlice(m, address, bytes);
    }
  }

  // ---------- texts are C strings ----------

  lemma {:induction false} HexHasNoNul(v: nat, n: nat)
    ensures 0 !in Hex(v, n)
    decreases n
  {
    if n > 0 {
      HexHasNoNul(v / 16, n - 1);
    }
  }

  lemma {:induction false} WordTextsHaveNoNul(words: seq<word>)
    ensures 0 !in WordTexts(words)
  {
    if words != [] {
      HexHasNoNul(words[0], 8);
      WordTextsHaveNoNul(words[1..]);
    }
  }

  lemma {:induction false} HexBytesHaveNoNul(bytes: seq<byte>)
    ensures 0 !in HexBytes(bytes)
    decreases |bytes|
  {
    if bytes != [] {
      HexHasNoNul(bytes[|bytes| - 1], 2);
      HexBytesHaveNoNul(bytes[..|bytes| - 1]);
    }
  }

  lemma DumpHasNoNul(s: State)
    ensures 0 !in Dump(s)
  {
    WordTextsHaveNoNul(VisibleRegisters(s));
    HexHasNoNul(s.cpsr, 8);
  }

  lemma {:induction false} WordTextsSnoc(words: seq<word>, w: word)
    ensures WordTexts(words + [w]) == WordTexts(words) + Hex(w, 8)
  {
    if words == [] {
      assert [] + [w] == [w];
      assert [w][1..] == [];
      assert WordTexts([w]) == Hex(w, 8) + WordTexts([]);
    } else {
      assert (words + [w])[0] == words[0] && (words + [w])[1..] == words[1..] + [w];
      WordTextsSnoc(words[1..], w);
      Regroup(Hex(words[0], 8), WordTexts(words[1..]), Hex(w, 8));
    }
  }

  lemma UnescapeOne(content: text, c: nat)
    requires c <= |content| && Unescape(content[c..]) != []
    ensures c < |content|
    ensures content[c] != ESCAPE ==> Unescape(content[c..]) == [content[c]] + Unescape(content[c + 1..])
    ensures content[c] == ESCAPE ==>
      c + 1 < |content| && Unescape(content[c..]) == [Flip(content[c + 1])] + Unescape(content[c + 2..])
  {
    var t := content[c..];
    assert t[1..] == content[c + 1..];
    if content[c] == ESCAPE && |t| > 1 {
      assert t[2..] == content[c + 2..];
    }
  }
}

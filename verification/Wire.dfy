/**
 What is on the wire: the texts of the protocol as they are written in its description, and the
 meaning of each request and answer in terms of its characters.
 */
module Wire {
  import opened Words
  import opened Mem
  import opened Reg
  import opened Machine
  import opened Text
  import opened Breakpoints
  import Gdb

  // The codes of a literal text.
  function Ascii(s: string): (t: text)
    requires forall i :: 0 <= i < |s| ==> s[i] < 256 as char
    ensures |t| == |s|
  {
    seq(|s|, i requires 0 <= i < |s| => s[i] as int)
  }

  // ---------- fixed texts ----------

  lemma Answers()
    ensures OK == Ascii("OK") && ERROR2 == Ascii("E02") && FAULT == Ascii("E0E")
    ensures [PLUS] == Ascii("+") && [MINUS] == Ascii("-")
    ensures [DOLLAR] == Ascii("$") && [HASH] == Ascii("#") && [ESCAPE] == Ascii("}")
    ensures MAX_BREAKPOINTS == 1024 && Gdb.MAX_PACKET_SIZE == 4096
  {
  }

  lemma StopReasons(exception: int)
    ensures StopReason(exception) == Ascii(if exception == 7 then "S04"
                                           else if exception == 6 then "S0A"
                                           else if exception == 2 then "S0B"
                                           else if exception == 9 then "X05"
                                           else "S05")
  {
  }

  // The requests that have a handler.
  lemma Handlers(c: byte)
    ensures HasHandler(c) <==> c as char in "cCkqgmp?HsSGXPzZ"
  {
    assert c as char in "cCkqgmp?HsSGXPzZ" <==> c in Ascii("cCkqgmp?HsSGXPzZ") by {
      var s, t := "cCkqgmp?HsSGXPzZ", Ascii("cCkqgmp?HsSGXPzZ");
      forall i | 0 <= i < |s| ensures t[i] == s[i] as int && (t[i] == c <==> s[i] == c as char) {
      }
    }
  }

  // ---------- numbers ----------

  lemma Product(d: int, q: int, r: int, t: int)
    ensures 16 * (d * q + r) + t == (16 * d) * q + (16 * r + t)
  {
    assert (16 * d) * q == 16 * (d * q);
  }

  lemma DivideTwice(v: nat, d: nat)
    requires d >= 1
    ensures v / 16 / d == v / (16 * d)
  {
    var q, r := v / 16 / d, v / 16 % d;
    Product(d, q, r, v % 16);
    assert v / 16 == d * q + r;
    DivModIs(v, 16 * d, q, 16 * r + v % 16);
  }

  // Digit k of n, counted from the left, in lower case.
  lemma {:induction false} PrintedDigit(v: nat, n: nat, k: nat)
    requires k < n
    ensures Hex(v, n)[k] == Ascii("0123456789abcdef")[v / Pow16(n - 1 - k) % 16]
    decreases n
  {
    if k == n - 1 {
      assert Pow16(0) == 1;
      assert Hex(v, n)[k] == Digit(v % 16);
    } else {
      PrintedDigit(v / 16, n - 1, k);
      DivideTwice(v, Pow16(n - 2 - k));
      assert Pow16(n - 1 - k) == 16 * Pow16(n - 2 - k);
    }
  }

  // Digits are read in either case, and nothing else is a digit.
  lemma ReadDigit(c: byte)
    ensures DigitValue(c) == if '0' as int <= c <= '9' as int then Some(c - '0' as int)
                             else if 'a' as int <= c <= 'f' as int then Some(10 + c - 'a' as int)
                             else if 'A' as int <= c <= 'F' as int then Some(10 + c - 'A' as int)
                             else None
  {
  }

  predicate AllDigits(t: text) {
    forall i :: 0 <= i < |t| ==> DigitValue(t[i]).Some?
  }

  // The number that digits stand for.
  function Number(t: text): (n: nat)
    requires AllDigits(t)
    decreases |t|
  {
    if t == [] then 0 else 16 * Number(t[..|t| - 1]) + DigitValue(t[|t| - 1]).value
  }

  lemma {:induction false} NumberFits(t: text)
    requires AllDigits(t)
    ensures Number(t) < Pow16(|t|)
    decreases |t|
  {
    if t != [] {
      NumberFits(t[..|t| - 1]);
      assert Pow16(|t|) == 16 * Pow16(|t| - 1);
    }
  }

  lemma ScanOneMore(c: byte, rest: text, n: nat, value: word, v: word)
    requires DigitValue(c).Some? && v == 16 * value + DigitValue(c).value
    ensures Scan([c] + rest, n + 1, value) == Scan(rest, n, v)
  {
    assert ([c] + rest)[1..] == rest;
  }

  lemma {:induction false} ScanSkips(front: text, rest: text, n: nat)
    requires AllDigits(front) && |front| + n <= 8
    ensures Number(front) < TWO32 && Scan(front + rest, |front| + n, 0) == Scan(rest, n, Number(front))
    decreases |front|
  {
    NumberFits(front);
    Pow16Bound(|front|);
    if front == [] {
      assert front + rest == rest;
    } else {
      var before, last := front[..|front| - 1], front[|front| - 1];
      ScanSkips(before, [last] + rest, n + 1);
      assert front + rest == before + ([last] + rest);
      ScanOneMore(last, rest, n, Number(before), Number(front));
    }
  }

  // read_uint32 takes the digits at the front, at most eight of them; without any it gives what the
  // variable held.
  lemma NumberOnTheWire(digits: text, rest: text, junk: word)
    requires AllDigits(digits) && |digits| <= 8
    requires |digits| == 8 || rest == [] || DigitValue(rest[0]).None?
    ensures ReadNumber(digits + rest, junk) == if digits == [] then junk else Number(digits)
  {
    if digits == [] {
      assert digits + rest == rest;
    } else {
      assert (digits + rest)[0] == digits[0];
      ScanSkips(digits, rest, 8 - |digits|);
    }
  }

  // ---------- packets ----------

  function Sum(t: text): (n: nat) {
    if t == [] then 0 else t[0] + Sum(t[1..])
  }

  lemma {:induction false} SumSnoc(t: text, b: byte)
    ensures Sum(t + [b]) == Sum(t) + b
  {
    if t == [] {
      assert [] + [b] == [b];
      assert [b][1..] == [];
      assert Sum([b]) == b + Sum([]);
    } else {
      assert (t + [b])[1..] == t[1..] + [b];
      SumSnoc(t[1..], b);
    }
  }

  lemma AddThenReduce(n: nat, b: byte)
    ensures (n % 0x100 + b) % 0x100 == (n + b) % 0x100
  {
  }

  lemma {:induction false} ChecksumIsSum(t: text)
    ensures Checksum(t) == Sum(t) % 0x100
    decreases |t|
  {
    if t != [] {
      var front, last := t[..|t| - 1], t[|t| - 1];
      ChecksumIsSum(front);
      SumSnoc(front, last);
      assert t == front + [last];
      AddThenReduce(Sum(front), last);
    }
  }

  // A packet: a dollar sign, the payload, a hash sign and the sum of its bytes modulo 256.
  lemma FrameOnTheWire(p: text)
    ensures Frame(p) == Ascii("$") + p + Ascii("#") + Hex(Sum(p) % 0x100, 2)
  {
    ChecksumIsSum(p);
  }

  lemma TwoDigits(d1: byte, d0: byte)
    requires DigitValue(d1).Some? && DigitValue(d0).Some?
    ensures Scan([d1, d0], 2, 0) == 16 * DigitValue(d1).value + DigitValue(d0).value
  {
    ScanOneMore(d1, [d0], 1, 0, DigitValue(d1).value);
    ScanOneMore(d0, [], 0, DigitValue(d1).value, 16 * DigitValue(d1).value + DigitValue(d0).value);
    assert [d1] + [d0] == [d1, d0] && [d0] + [] == [d0];
  }

  lemma PartsOfPacket(t: text, p: text, d1: byte, d0: byte)
    requires t == [DOLLAR] + p + [HASH] + [d1, d0]
    ensures Payload(t) == p && t[|t| - 2..] == [d1, d0]
  {
  }

  // What is made of a packet that the scanner passes on: its two digits must be that sum, and then
  // the handler of its first byte gets the rest.
  lemma AnalysisOnTheWire(p: text, d1: byte, d0: byte)
    requires DigitValue(d1).Some? && DigitValue(d0).Some?
    ensures var t := Ascii("$") + p + Ascii("#") + [d1, d0];
            && Scanned(t)
            && Analyse(t) == if 16 * DigitValue(d1).value + DigitValue(d0).value != Sum(p) % 0x100 then Retransmit
                             else if p != [] && p[0] as char in "cCkqgmp?HsSGXPzZ" then Handle(p[0], p[1..])
                             else Unsupported
  {
    Answers();
    var t := [DOLLAR] + p + [HASH] + [d1, d0];
    PartsOfPacket(t, p, d1, d0);
    assert Scanned(t);
    assert Checksum(Payload(t)) == Sum(p) % 0x100 by {
      ChecksumIsSum(p);
    }
    assert Scan(t[|t| - 2..], 2, 0) == 16 * DigitValue(d1).value + DigitValue(d0).value by {
      TwoDigits(d1, d0);
    }
    if p != [] {
      Handlers(p[0]);
    }
  }

  // ---------- escaped bytes ----------

  // The byte after an escape has bit 5 the other way round.
  lemma FlipInNumbers(b: byte)
    ensures Flip(b) == if b / 0x20 % 2 == 1 then b - 0x20 else b + 0x20
  {
    assert Pow2(5) == 0x20;
    XorPower(b, 5, 0x20);
    HighLowAreDivMod(b, 5);
  }

  lemma UnescapeFirst(c: byte, t: text)
    ensures c as char != '}' ==> Unescape([c] + t) == [c] + Unescape(t)
    ensures Unescape(Ascii("}") + [c] + t) == [if c / 0x20 % 2 == 1 then c - 0x20 else c + 0x20] + Unescape(t)
    ensures Unescape([]) == [] && Unescape(Ascii("}")) == []
  {
    FlipInNumbers(c);
    assert ([c] + t)[1..] == t;
    assert (Ascii("}") + [c] + t)[2..] == t;
  }

  // t stands for the bytes: each as it is, or behind a `}` with bit 5 the other way round.  A `}` is
  // never as it is.
  predicate Encodes(t: text, bytes: text)
    decreases |t|
  {
    if t == [] then bytes == []
    else if t[0] as char != '}' then bytes != [] && bytes[0] == t[0] && Encodes(t[1..], bytes[1..])
    else
      && |t| > 1 && bytes != [] && Encodes(t[2..], bytes[1..])
      && bytes[0] == if t[1] / 0x20 % 2 == 1 then t[1] - 0x20 else t[1] + 0x20
  }

  // One byte in front of an encoding, in either form.
  lemma DecodesPlain(c: byte, t: text, bytes: text, tail: text)
    requires c as char != '}' && Unescape(t) == bytes + tail
    ensures Unescape([c] + t) == ([c] + bytes) + tail
  {
    UnescapeFirst(c, t);
    Regroup([c], bytes, tail);
  }

  lemma DecodesEscaped(c: byte, b: byte, t: text, bytes: text, tail: text)
    requires b == (if c / 0x20 % 2 == 1 then c - 0x20 else c + 0x20) && Unescape(t) == bytes + tail
    ensures Unescape(Ascii("}") + [c] + t) == ([b] + bytes) + tail
  {
    UnescapeFirst(c, t);
    Regroup([b], bytes, tail);
  }

  lemma {:induction false} EncodedIsDecoded(t: text, bytes: text, rest: text)
    requires Encodes(t, bytes)
    ensures Unescape(t + rest) == bytes + Unescape(rest)
    decreases |t|
  {
    if t == [] {
      assert t + rest == rest && bytes + Unescape(rest) == Unescape(rest);
    } else {
      var n := if t[0] as char != '}' then 1 else 2;
      EncodedIsDecoded(t[n..], bytes[1..], rest);
      assert bytes == [bytes[0]] + bytes[1..];
      if n == 1 {
        DecodesPlain(t[0], t[1..] + rest, bytes[1..], Unescape(rest));
        assert t + rest == [t[0]] + (t[1..] + rest);
      } else {
        DecodesEscaped(t[1], bytes[0], t[2..] + rest, bytes[1..], Unescape(rest));
        assert t + rest == Ascii("}") + [t[1]] + (t[2..] + rest);
      }
    }
  }

  lemma PlainEncodes(b: byte, t: text, bytes: text)
    requires b as char != '}' && Encodes(t, bytes)
    ensures Encodes([b] + t, [b] + bytes)
  {
    assert ([b] + t)[1..] == t && ([b] + bytes)[1..] == bytes;
  }

  lemma EscapeEncodes(c: byte, b: byte, t: text, bytes: text)
    requires b == (if c / 0x20 % 2 == 1 then c - 0x20 else c + 0x20) && Encodes(t, bytes)
    ensures Encodes([ESCAPE, c] + t, [b] + bytes)
  {
    assert ([ESCAPE, c] + t)[2..] == t && ([b] + bytes)[1..] == bytes;
  }

  lemma FlipBack(b: byte)
    ensures var c := Flip(b); b == if c / 0x20 % 2 == 1 then c - 0x20 else c + 0x20
    ensures MustEscape(b) ==> Flip(b) != HASH && Flip(b) != DOLLAR
  {
    FlipInNumbers(b);
    assert (b + 0x20) / 0x20 == b / 0x20 + 1;
  }

  // Every byte string has an encoding in which none of the three special characters is as it is.
  lemma {:induction false} EscapedEncodes(bytes: text)
    ensures Encodes(Escaped(bytes), bytes) && HASH !in Escaped(bytes) && DOLLAR !in Escaped(bytes)
  {
    if bytes != [] {
      var b, later := bytes[0], Escaped(bytes[1..]);
      EscapedEncodes(bytes[1..]);
      assert bytes == [b] + bytes[1..];
      FlipBack(b);
      var c := Flip(b);
      if MustEscape(b) {
        assert Escaped(bytes) == [ESCAPE, c] + later;
        EscapeEncodes(c, b, later, bytes[1..]);
      } else {
        assert Escaped(bytes) == [b] + later;
        PlainEncodes(b, later, bytes[1..]);
      }
    }
  }

  // The effect of `X` on every byte k of memory, for a content that encodes the bytes, whatever
  // follows it in the buffer: byte j goes to the address j places on, modulo 2^32, as far as memory
  // reaches.
  lemma BinaryWrite(m: seq<byte>, address: word, t: text, rest: text, bytes: text, k: nat)
    requires Encodes(t, bytes) && k < |m| <= 0x1_0000_0000 && |bytes| < 0x1_0000_0000
    ensures |bytes| <= |Unescape(t + rest)|
    ensures var (m', ok) := WriteBinary(m, address, Unescape(t + rest)[..|bytes|]);
            var n := if |m| == 0x1_0000_0000 || address + |bytes| <= |m| then |bytes| else |m| - address;
            var j := (k - address) % 0x1_0000_0000;
            && (ok <==> address < |m| && n == |bytes|)
            && m'[k] == if address < |m| && j < n then bytes[j] else m[k]
  {
    EncodedIsDecoded(t, bytes, rest);
    assert Unescape(t + rest)[..|bytes|] == bytes;
    StoreBytesAt(m, address, bytes, k);
  }

  // ---------- dumps and memory ----------

  // The dump that answers `g`: register i in the eight digits from 8 * i on, 200 times the letter x
  // for what does not exist, and the CPSR in the last eight.
  lemma DumpOnTheWire(s: State, i: nat, k: nat)
    requires i < 16 && k < 200
    ensures |Dump(s)| == 336 && Dump(s)[8 * i..8 * i + 8] == Hex(Raw(s, i), 8)
    ensures Dump(s)[128 + k] as char == 'x' && Dump(s)[328..336] == Hex(s.cpsr, 8)
  {
    var words := VisibleRegisters(s);
    WordTextsSuffix(words, [], i);
    assert WordTexts(words) + [] == WordTexts(words) && WordTexts(words[i..]) + [] == WordTexts(words[i..]);
    assert WordTexts(words)[8 * i..] == Hex(words[i..][0], 8) + WordTexts(words[i..][1..]);
    assert words[i..][0] == Raw(s, i);
    assert Dump(s)[8 * i..8 * i + 8] == WordTexts(words)[8 * i..][..8];
  }

  lemma {:induction false} ByteText(bytes: seq<byte>, j: nat)
    requires j < |bytes|
    ensures HexBytes(bytes)[2 * j..2 * j + 2] == Hex(bytes[j], 2)
    decreases |bytes|
  {
    var last := |bytes| - 1;
    if j < last {
      ByteText(bytes[..last], j);
      assert HexBytes(bytes)[2 * j..2 * j + 2] == HexBytes(bytes[..last])[2 * j..2 * j + 2];
    }
  }

  // The answer to `m`: two digits for each byte from the address on, modulo 2^32, as many as asked
  // for or as there are.
  lemma MemoryOnTheWire(m: seq<byte>, address: word, size: nat, j: nat)
    requires address < |m| <= 0x1_0000_0000
    ensures var n := if |m| == 0x1_0000_0000 || address + size <= |m| then size else |m| - address;
            && |MemoryText(m, address, size)| == 2 * n
            && (j < n ==> var a := (address + j) % 0x1_0000_0000;
                          a < |m| && MemoryText(m, address, size)[2 * j..2 * j + 2] == Hex(m[a], 2))
  {
    SliceAt(m, address, size, j);
    var bytes := Slice(m, address, size);
    if j < |bytes| {
      ByteText(bytes, j);
    }
  }

  // ---------- stops ----------

  // A run stops at a breakpoint or when something is reported.
  lemma StopsWhen(breakpoints: set<word>, s: State, result: int)
    ensures Gdb.Stops(breakpoints, (s, result)) <==> s.file[0] in breakpoints || result != 0
  {
  }

  // The reference machine of the breakpoints, in numbers.
  lemma FullTable(s: set<word>, a: word)
    ensures Answer(s, Insert(a)) == if |s| >= 1024 then (s, false) else (s + {a}, true)
    ensures Answer(s, Delete(a)) == (s - {a}, a in s)
  {
    assert a !in s ==> s - {a} == s;
  }
}

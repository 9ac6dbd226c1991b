/**
 Byte-addressed memory (memory.c) with byte, half-word and word accesses in either byte order.

 The functions describe one access on the contents of the memory; class `Memory` is the
 implementation, which works in place on its array.
 */
module Mem {
  import opened Words

  datatype Option<T> = None | Some(value: T)

  type half = x: int | 0 <= x < 0x1_0000

  // `capacity - 3` must not wrap, and addresses have 32 bits.
  predicate Sized(m: seq<byte>) {
    4 <= |m| <= TWO32
  }

  // ---------- accesses on the contents ----------

  // Byte i of v, counted from the least significant one.
  function ByteOf(v: word, i: nat): (b: byte)
    requires i < 4
  {
    if i == 0 then v % 0x100 else ByteOf(v / 0x100, i - 1)
  }

  function Word(b0: byte, b1: byte, b2: byte, b3: byte): (v: word) {
    b0 + 0x100 * b1 + 0x1_0000 * b2 + 0x100_0000 * b3
  }

  function Half(lo: byte, hi: byte): (h: half) {
    lo + 0x100 * hi
  }

  function LoadByte(m: seq<byte>, a: word): (r: Option<byte>) {
    if a < |m| then Some(m[a]) else None
  }

  function LoadHalf(m: seq<byte>, a: word, be: bool): (r: Option<half>) {
    if a + 1 >= |m| then None
    else if be then Some(Half(m[a + 1], m[a]))
    else Some(Half(m[a], m[a + 1]))
  }

  function LoadWord(m: seq<byte>, a: word, be: bool): (r: Option<word>) {
    if a + 3 >= |m| then None
    else if be then Some(Word(m[a + 3], m[a + 2], m[a + 1], m[a]))
    else Some(Word(m[a], m[a + 1], m[a + 2], m[a + 3]))
  }

  // A write access, with the number of bytes it covers and the byte it puts at each offset.
  datatype Access =
    | WriteByte(address: word, b: byte)
    | WriteHalf(address: word, h: half, be: bool)
    | WriteWord(address: word, w: word, be: bool)
  {
    function Width(): (n: nat) {
      match this
      case WriteByte(_, _) => 1
      case WriteHalf(_, _, _) => 2
      case WriteWord(_, _, _) => 4
    }

    function ByteAt(i: nat): (v: byte)
      requires i < Width()
    {
      match this
      case WriteByte(_, b) => b
      case WriteHalf(_, h, be) => ByteOf(h, if be then 1 - i else i)
      case WriteWord(_, w, be) => ByteOf(w, if be then 3 - i else i)
    }

    predicate Fits(m: seq<byte>) {
      address + Width() <= |m|
    }
  }

  // The contents after a write: accepted as a whole or rejected as a whole.
  function Store(m: seq<byte>, a: Access): (r: seq<byte>)
    ensures |r| == |m|
  {
    if !a.Fits(m) then m
    else m[..a.address] + seq(a.Width(), i requires 0 <= i < a.Width() => a.ByteAt(i))
         + m[a.address + a.Width()..]
  }

  lemma StoreAt(m: seq<byte>, a: Access, k: nat)
    requires k < |m|
    ensures Store(m, a)[k] ==
            if a.Fits(m) && a.address <= k < a.address + a.Width() then a.ByteAt(k - a.address) else m[k]
  {
  }

  // ---------- sequences of writes ----------

  function StoreAll(m: seq<byte>, ws: seq<Access>): (r: seq<byte>)
    ensures |r| == |m|
    decreases |ws|
  {
    if ws == [] then m else StoreAll(Store(m, ws[0]), ws[1..])
  }

  // What the most recent write that covers byte k leaves there, in a memory of the given size.
  function LastWriter(size: nat, ws: seq<Access>, k: nat): (r: Option<byte>)
    decreases |ws|
  {
    if ws == [] then None
    else
      var last := ws[|ws| - 1];
      if last.address <= k < last.address + last.Width() <= size
      then Some(last.ByteAt(k - last.address))
      else LastWriter(size, ws[..|ws| - 1], k)
  }

  lemma {:induction false} StoreAllSnoc(m: seq<byte>, ws: seq<Access>, w: Access)
    ensures StoreAll(m, ws + [w]) == Store(StoreAll(m, ws), w)
    decreases |ws|
  {
    if ws == [] {
      assert ([] + [w])[1..] == [];
    } else {
      assert (ws + [w])[1..] == ws[1..] + [w];
      StoreAllSnoc(Store(m, ws[0]), ws[1..], w);
    }
  }

  // After any sequence of writes each byte is what its last writer put there.
  lemma {:induction false} BytesFromLastWriter(m: seq<byte>, ws: seq<Access>, k: nat)
    requires k < |m|
    ensures StoreAll(m, ws)[k] == match LastWriter(|m|, ws, k) case Some(b) => b case None => m[k]
    decreases |ws|
  {
    if ws == [] {
    } else {
      var front, last := ws[..|ws| - 1], ws[|ws| - 1];
      assert ws == front + [last];
      BytesFromLastWriter(m, front, k);
      StoreAllSnoc(m, front, last);
      StoreAt(StoreAll(m, front), last, k);
    }
  }

  // ---------- reading back ----------

  lemma Pow2Bytes()
    ensures Pow2(0) == 1 && Pow2(8) == 0x100 && Pow2(16) == 0x1_0000 && Pow2(24) == 0x100_0000
  {
  }

  lemma ByteShl(b: byte)
    ensures Shl(b, 8) == 0x100 * b && Shl(b, 16) == 0x1_0000 * b && Shl(b, 24) == 0x100_0000 * b
  {
    Pow2Bytes();
    UpIsTimes(b, 8);
    UpIsTimes(b, 16);
    UpIsTimes(b, 24);
  }

  lemma OrSum(x: nat, y: nat, k: nat, p: nat)
    requires k == 8 || k == 16 || k == 24
    requires p == Pow2(k) && y < p
    ensures Or(p * x, y) == p * x + y && Or(y, p * x) == p * x + y
  {
    UpIsTimes(x, k);
    OrSplit(x, y, k);
    OrCommutes(Up(x, k), y);
  }

  function OrHalf(lo: byte, hi: byte): (h: half)
    ensures h == Half(lo, hi)
  {
    ByteShl(hi);
    Pow2Bytes();
    OrSum(hi, lo, 8, 0x100);
    BitOr(lo, Shl(hi, 8))
  }

  lemma OrUp(b0: byte, b1: byte, b2: byte, b3: byte)
    ensures Or(Or(Or(b0, 0x100 * b1), 0x1_0000 * b2), 0x100_0000 * b3) == Word(b0, b1, b2, b3)
  {
    Pow2Bytes();
    OrSum(b1, b0, 8, 0x100);
    OrSum(b2, b0 + 0x100 * b1, 16, 0x1_0000);
    OrSum(b3, b0 + 0x100 * b1 + 0x1_0000 * b2, 24, 0x100_0000);
  }

  // Joining bytes with shifts and ors, from the least significant byte or from the most.
  function OrBytes(b0: byte, b1: byte, b2: byte, b3: byte): (v: word)
    ensures v == Word(b0, b1, b2, b3)
  {
    ByteShl(b1);
    ByteShl(b2);
    ByteShl(b3);
    OrUp(b0, b1, b2, b3);
    BitOr(BitOr(BitOr(b0, Shl(b1, 8)), Shl(b2, 16)), Shl(b3, 24))
  }

  lemma OrDown(b0: byte, b1: byte, b2: byte, b3: byte)
    ensures Or(Or(Or(0x100_0000 * b3, 0x1_0000 * b2), 0x100 * b1), b0) == Word(b0, b1, b2, b3)
  {
    Pow2Bytes();
    OrSum(b3, 0x1_0000 * b2, 24, 0x100_0000);
    OrSum(0x100 * b3 + b2, 0x100 * b1, 16, 0x1_0000);
    OrSum(0x1_0000 * b3 + 0x100 * b2 + b1, b0, 8, 0x100);
  }

  function OrBytesDown(b3: byte, b2: byte, b1: byte, b0: byte): (v: word)
    ensures v == Word(b0, b1, b2, b3)
  {
    ByteShl(b1);
    ByteShl(b2);
    ByteShl(b3);
    OrDown(b0, b1, b2, b3);
    BitOr(BitOr(BitOr(Shl(b3, 24), Shl(b2, 16)), Shl(b1, 8)), b0)
  }

  lemma MaskIsMod(x: word)
    ensures And(x, 0xFF) == x % 0x100
  {
    Pow2Bytes();
    AndLow(x, 8, 0xFF);
    HighLowAreDivMod(x, 8);
  }

  lemma {:induction false} HighIsByte(v: word, i: nat)
    requires i < 4
    ensures 0 <= High(v, 8 * i) <= v
    ensures High(v, 8 * i) % 0x100 == ByteOf(v, i)
    decreases i
  {
    HighRange(v, 8 * i);
    if i > 0 {
      Pow2Bytes();
      HighLowAreDivMod(v, 8);
      HighHigh(v, 8, 8 * (i - 1));
      HighIsByte(v / 0x100, i - 1);
    }
  }

  // (v >> 8 * i) & 0xFF
  function MaskByte(v: word, i: nat): (b: byte)
    requires i < 4
    ensures b == ByteOf(v, i)
  {
    MaskIsMod(Shr(v, 8 * i));
    HighIsByte(v, i);
    BitAnd(Shr(v, 8 * i), 0xFF)
  }

  // reverse_4 of util.h
  function Reverse4(x: word): (r: word)
    ensures r == Word(ByteOf(x, 3), ByteOf(x, 2), ByteOf(x, 1), ByteOf(x, 0))
  {
    OrBytesDown(MaskByte(x, 0), MaskByte(x, 1), MaskByte(x, 2), MaskByte(x, 3))
  }

  lemma WordOfBytes(v: word)
    ensures Word(ByteOf(v, 0), ByteOf(v, 1), ByteOf(v, 2), ByteOf(v, 3)) == v
  {
  }

  lemma HalfOfBytes(h: half)
    ensures Half(ByteOf(h, 0), ByteOf(h, 1)) == h
  {
    assert ByteOf(h, 1) == h / 0x100;
  }

  lemma WordReadBack(m: seq<byte>, a: word, v: word, be: bool, be': bool)
    requires a + 4 <= |m|
    ensures LoadWord(Store(m, WriteWord(a, v, be)), a, be')
         == Some(if be == be' then v else Reverse4(v))
  {
    var w := WriteWord(a, v, be);
    forall i | 0 <= i < 4 ensures Store(m, w)[a + i] == w.ByteAt(i) {
      StoreAt(m, w, a + i);
    }
    WordOfBytes(v);
  }

  lemma HalfReadBack(m: seq<byte>, a: word, h: half, be: bool, be': bool)
    requires a + 2 <= |m|
    ensures LoadHalf(Store(m, WriteHalf(a, h, be)), a, be')
         == Some(if be == be' then h else Half(ByteOf(h, 1), ByteOf(h, 0)))
  {
    var w := WriteHalf(a, h, be);
    StoreAt(m, w, a);
    StoreAt(m, w, a + 1);
    HalfOfBytes(h);
  }

  // ---------- the two byte orders in numbers ----------

  // The number that the bytes at an address make: the first is the least significant, or the most
  // significant when big-endian.
  function NumberAt(m: seq<byte>, a: nat, width: nat, be: bool): (v: word)
    requires width in {1, 2, 4} && a + width <= |m|
  {
    var b0: int := m[a];
    if width == 1 then b0
    else
      var b1: int := m[a + 1];
      if width == 2 then (if be then 0x100 * b0 + b1 else b0 + 0x100 * b1)
      else
        var b2: int, b3: int := m[a + 2], m[a + 3];
        if be then 0x100_0000 * b0 + 0x1_0000 * b1 + 0x100 * b2 + b3
        else b0 + 0x100 * b1 + 0x1_0000 * b2 + 0x100_0000 * b3
  }

  lemma LoadsNumber(m: seq<byte>, a: word, be: bool)
    ensures LoadByte(m, a) == if a + 1 <= |m| then Some(NumberAt(m, a, 1, be)) else None
    ensures LoadHalf(m, a, be) == if a + 2 <= |m| then Some(NumberAt(m, a, 2, be)) else None
    ensures LoadWord(m, a, be) == if a + 4 <= |m| then Some(NumberAt(m, a, 4, be)) else None
  {
  }

  // m' holds the low `width` bytes of v at an address, and is m everywhere else.
  predicate HoldsNumber(m: seq<byte>, m': seq<byte>, a: nat, width: nat, v: word, be: bool, k: nat)
    requires k < |m|
  {
    && |m'| == |m|
    && (a + width <= |m| && a <= k < a + width ==>
          var i := if be then width - 1 - (k - a) else k - a;
          m'[k] == if i == 0 then v % 0x100 else if i == 1 then v / 0x100 % 0x100
                   else if i == 2 then v / 0x1_0000 % 0x100 else v / 0x100_0000 % 0x100)
    && (a + width > |m| || !(a <= k < a + width) ==> m'[k] == m[k])
  }

  lemma BytesInNumbers(v: word)
    ensures ByteOf(v, 0) == v % 0x100 && ByteOf(v, 1) == v / 0x100 % 0x100
    ensures ByteOf(v, 2) == v / 0x1_0000 % 0x100 && ByteOf(v, 3) == v / 0x100_0000 % 0x100
  {
    assert v / 0x100 / 0x100 == v / 0x1_0000 && v / 0x1_0000 / 0x100 == v / 0x100_0000;
    assert ByteOf(v, 2) == ByteOf(v / 0x100, 1) && ByteOf(v, 3) == ByteOf(v / 0x100, 2);
  }

  lemma LowHalfBytes(v: word)
    ensures ByteOf(v % 0x1_0000, 0) == v % 0x100 && ByteOf(v % 0x1_0000, 1) == v / 0x100 % 0x100
  {
    var low := v % 0x1_0000;
    assert v == 0x1_0000 * (v / 0x1_0000) + low;
    assert low % 0x100 == v % 0x100;
    assert ByteOf(low, 1) == low / 0x100 % 0x100;
  }

  lemma StoresNumber(m: seq<byte>, a: word, v: word, be: bool, k: nat)
    requires k < |m|
    ensures HoldsNumber(m, Store(m, WriteByte(a, v % 0x100)), a, 1, v, be, k)
    ensures HoldsNumber(m, Store(m, WriteHalf(a, v % 0x1_0000, be)), a, 2, v, be, k)
    ensures HoldsNumber(m, Store(m, WriteWord(a, v, be)), a, 4, v, be, k)
  {
    StoreAt(m, WriteByte(a, v % 0x100), k);
    StoreAt(m, WriteHalf(a, v % 0x1_0000, be), k);
    StoreAt(m, WriteWord(a, v, be), k);
    BytesInNumbers(v);
    LowHalfBytes(v);
  }

  // ---------- the implementation ----------

  class Memory {
    const data: array<byte>

    constructor (size: nat)
      requires 4 <= size <= TWO32
      ensures data.Length == size && fresh(data)
    {
      data := new byte[size];
    }

    ghost predicate Valid()
      reads this, data
    {
      Sized(data[..])
    }

    // The functions of memory.c return -1 and leave `value` alone (here None), or return 0.
    method ReadByte(address: word) returns (r: Option<byte>)
      requires Valid()
      ensures r == LoadByte(data[..], address)
    {
      if address >= data.Length {
        return None;
      }
      r := Some(data[address]);
    }

    method ReadHalf(address: word, be: bool) returns (r: Option<half>)
      requires Valid()
      ensures r == LoadHalf(data[..], address, be)
    {
      if address >= data.Length - 1 {
        return None;
      }
      var lo, hi := data[address], data[address + 1];
      if be {
        lo, hi := hi, lo;
      }
      r := Some(OrHalf(lo, hi));
    }

    method ReadWord(address: word, be: bool) returns (r: Option<word>)
      requires Valid()
      ensures r == LoadWord(data[..], address, be)
    {
      if address >= data.Length - 3 {
        return None;
      }
      var b0, b1, b2, b3 := data[address], data[address + 1], data[address + 2], data[address + 3];
      r := Some(if be then OrBytesDown(b0, b1, b2, b3) else OrBytes(b0, b1, b2, b3));
    }

    method WriteByte(address: word, value: byte) returns (ok: bool)
      requires Valid()
      modifies data
      ensures Valid() && data[..] == Store(old(data[..]), Access.WriteByte(address, value))
      ensures ok <==> address + 1 <= data.Length
    {
      if address >= data.Length {
        return false;
      }
      data[address] := value;
      ok := true;
    }

    // The bounds check adds in 32 bits, so address 2^32-1 must not be asked for.
    method WriteHalf(address: word, value: half, be: bool) returns (ok: bool)
      requires Valid() && address != MAX32
      modifies data
      ensures Valid() && data[..] == Store(old(data[..]), Access.WriteHalf(address, value, be))
      ensures ok <==> address + 2 <= data.Length
    {
      if Add(address, 1) >= data.Length {
        return false;
      }
      if !be {
        data[address] := MaskByte(value, 0);
        data[address + 1] := MaskByte(value, 1);
      } else {
        data[address] := MaskByte(value, 1);
        data[address + 1] := MaskByte(value, 0);
      }
      ok := true;
    }

    method WriteWord(address: word, value: word, be: bool) returns (ok: bool)
      requires Valid()
      modifies data
      ensures Valid() && data[..] == Store(old(data[..]), Access.WriteWord(address, value, be))
      ensures ok <==> address + 4 <= data.Length
    {
      ghost var was, access := data[..], Access.WriteWord(address, value, be);
      if address >= data.Length - 3 {
        return false;
      }
      if !be {
        data[address] := MaskByte(value, 0);
        data[address + 1] := MaskByte(value, 1);
        data[address + 2] := MaskByte(value, 2);
        data[address + 3] := MaskByte(value, 3);
      } else {
        data[address] := MaskByte(value, 3);
        data[address + 1] := MaskByte(value, 2);
        data[address + 2] := MaskByte(value, 1);
        data[address + 3] := MaskByte(value, 0);
      }
      forall k | 0 <= k < data.Length ensures data[k] == Store(was, access)[k] {
        StoreAt(was, access, k);
      }
      ok := true;
    }
  }
}

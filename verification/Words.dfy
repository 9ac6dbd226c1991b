/**
 Machine words (util.h, util.c).

 A C `uint32_t` is an integer below 2^32.  The bitwise operators work bit by bit, and each
 macro and function of the source is composed from them in the same way as there; its
 contract says what it computes, in terms of the bits below and above a position.
 */
module Words {
  const TWO32 := 0x1_0000_0000
  const MAX32 := 0xFFFF_FFFF

  type word = x: int | 0 <= x < 0x1_0000_0000
  type byte = x: int | 0 <= x < 0x100

  function Add(x: word, y: int): (r: word) { (x + y) % TWO32 }

  function Sub(x: word, y: int): (r: word) { (x - y) % TWO32 }

  lemma AddOffset(x: word, a: int, b: int)
    ensures Add(Add(x, a), b) == Add(x, a + b)
    ensures Sub(x, a) == Add(x, -a) && Add(x, 0) == x
  {
  }

  lemma BackTo(x: word, d: nat)
    requires d < TWO32
    ensures Sub(Add(x, d), x) == d
  {
  }

  // ---------- positions in a number ----------

  function Pow2(n: nat): (p: nat)
    ensures p >= 1
  {
    if n == 0 then 1 else 2 * Pow2(n - 1)
  }

  // x times 2^k
  function Up(x: int, k: nat): (r: int)
    decreases k, x
  {
    if k == 0 then x else 2 * Up(x, k - 1)
  }

  // the k low bits of x
  function Low(x: int, k: nat): (r: nat)
    decreases k, x
  {
    if k == 0 then 0 else 2 * Low(x / 2, k - 1) + x % 2
  }

  // x without its k low bits: x divided by 2^k, rounded down
  function High(x: int, k: nat): (r: int)
    decreases k, x
  {
    if k == 0 then x else High(x / 2, k - 1)
  }

  // ---------- division ----------

  lemma Distribute(a: int, b: int, d: int)
    ensures (a - b) * d == a * d - b * d
  {
  }

  lemma AtLeast(k: int, d: int)
    requires k >= 1 && d >= 0
    ensures k * d >= d
  {
  }

  lemma QuotientUnique(d: int, q: int, r: int, q': int, r': int)
    requires 0 <= r < d && 0 <= r' < d && q * d + r == q' * d + r'
    ensures q == q' && r == r'
  {
    Distribute(q, q', d);
    Distribute(q', q, d);
    if q' > q {
      AtLeast(q' - q, d);
    } else if q' < q {
      AtLeast(q - q', d);
    }
  }

  lemma DivModIs(x: int, d: int, q: int, r: int)
    requires 0 <= r < d && x == d * q + r
    ensures x / d == q && x % d == r
  {
    QuotientUnique(d, q, r, x / d, x % d);
  }

  lemma FieldAt(v: int, d: int, q: int, bit: int, r: int)
    requires 0 <= r < d && (bit == 0 || bit == 1) && v == d * (2 * q + bit) + r
    ensures v / d % 2 == bit
  {
    DivModIs(v, d, 2 * q + bit, r);
  }

  // ---------- powers of two ----------

  lemma {:induction false} Pow2Less(a: nat, b: nat)
    requires a < b
    ensures Pow2(a) < Pow2(b)
  {
    if a + 1 < b {
      Pow2Less(a, b - 1);
    }
  }

  lemma Pow2At32()
    ensures Pow2(32) == TWO32
  {
    assert Pow2(8) == 0x100;
    assert Pow2(16) == 0x1_0000;
    assert Pow2(24) == 0x100_0000;
  }

  lemma {:induction false} UpPow2(a: nat, b: nat)
    ensures Up(Pow2(a), b) == Pow2(a + b)
  {
    if b > 0 {
      UpPow2(a, b - 1);
    }
  }

  lemma {:induction false} UpAdd(x: int, y: int, k: nat)
    ensures Up(x + y, k) == Up(x, k) + Up(y, k)
  {
    if k > 0 {
      UpAdd(x, y, k - 1);
    }
  }

  lemma {:induction false} UpUp(x: int, a: nat, b: nat)
    ensures Up(Up(x, a), b) == Up(x, a + b)
  {
    if b > 0 {
      UpUp(x, a, b - 1);
    }
  }

  lemma {:induction false} UpLess(x: int, y: int, k: nat)
    requires x < y
    ensures Up(x, k) < Up(y, k)
  {
    if k > 0 {
      UpLess(x, y, k - 1);
    }
  }

  lemma UpBelow(x: nat, a: nat, b: nat)
    requires x < Pow2(a)
    ensures Up(x, b) < Pow2(a + b)
  {
    UpLess(x, Pow2(a), b);
    UpPow2(a, b);
  }

  lemma {:induction false} UpRange(x: nat, k: nat)
    ensures x <= Up(x, k)
  {
    if k > 0 {
      UpRange(x, k - 1);
    }
  }

  lemma {:induction false} UpIsTimes(x: int, k: nat)
    ensures Up(x, k) == x * Pow2(k)
    decreases k
  {
    if k > 0 {
      UpIsTimes(x, k - 1);
      assert x * (2 * Pow2(k - 1)) == 2 * (x * Pow2(k - 1));
    }
  }

  lemma Up32(x: int)
    ensures Up(x, 32) == x * TWO32
  {
    Pow2At32();
    UpIsTimes(x, 32);
  }

  // ---------- splitting a number at a position ----------

  lemma {:induction false} HighRange(x: nat, k: nat)
    ensures 0 <= High(x, k) <= x
    decreases k
  {
    if k > 0 {
      HighRange(x / 2, k - 1);
    }
  }

  lemma {:induction false} LowAtMost(x: nat, k: nat)
    ensures Low(x, k) <= x
    decreases k
  {
    if k > 0 {
      LowAtMost(x / 2, k - 1);
    }
  }

  lemma {:induction false} LowRange(x: int, k: nat)
    ensures 0 <= Low(x, k) < Pow2(k)
    decreases k
  {
    if k > 0 {
      LowRange(x / 2, k - 1);
    }
  }

  lemma {:induction false} Split(x: int, k: nat)
    ensures x == Up(High(x, k), k) + Low(x, k)
    decreases k
  {
    if k > 0 {
      Split(x / 2, k - 1);
    }
  }

  lemma HighLowAreDivMod(x: int, k: nat)
    ensures High(x, k) == x / Pow2(k) && Low(x, k) == x % Pow2(k)
  {
    Split(x, k);
    LowRange(x, k);
    UpIsTimes(High(x, k), k);
    QuotientUnique(Pow2(k), High(x, k), Low(x, k), x / Pow2(k), x % Pow2(k));
  }

  lemma {:induction false} HighBelow(x: nat, k: nat, n: nat)
    requires x < Pow2(k + n)
    ensures High(x, k) < Pow2(n)
  {
    if k > 0 {
      HighBelow(x / 2, k - 1, n);
    }
  }

  lemma {:induction false} LowSmall(x: nat, k: nat)
    requires x < Pow2(k)
    ensures Low(x, k) == x && High(x, k) == 0
  {
    if k > 0 {
      LowSmall(x / 2, k - 1);
    }
  }

  lemma {:induction false} JoinParts(h: int, l: nat, k: nat)
    requires l < Pow2(k)
    ensures High(Up(h, k) + l, k) == h && Low(Up(h, k) + l, k) == l
  {
    if k > 0 {
      JoinParts(h, l / 2, k - 1);
      assert (Up(h, k) + l) / 2 == Up(h, k - 1) + l / 2;
    }
  }

  lemma {:induction false} HighTop(x: nat, k: nat)
    requires x < Pow2(k + 1)
    ensures High(x, k) == if x >= Pow2(k) then 1 else 0
    decreases k
  {
    if k > 0 {
      HighTop(x / 2, k - 1);
    }
  }

  lemma {:induction false} HighHigh(x: int, a: nat, b: nat)
    ensures High(High(x, a), b) == High(x, a + b)
    decreases a
  {
    if a > 0 {
      HighHigh(x / 2, a - 1, b);
    }
  }

  lemma {:induction false} HighSub(x: int, m: int, s: nat)
    ensures High(x - Up(m, s), s) == High(x, s) - m
    decreases s
  {
    if s > 0 {
      HighSub(x / 2, m, s - 1);
      assert (x - Up(m, s)) / 2 == x / 2 - Up(m, s - 1);
    }
  }

  lemma UpSplit(x: int, k: nat, s: nat)
    requires k + s == 32
    ensures Up(x, s) == High(x, k) * TWO32 + Up(Low(x, k), s)
  {
    var h, l := High(x, k), Low(x, k);
    Split(x, k);
    UpAdd(Up(h, k), l, s);
    UpUp(h, k, s);
    Up32(h);
  }

  lemma {:induction false} LowOnes(n: nat, k: nat, m: nat)
    requires k <= n && m == Pow2(n) - 1
    ensures Low(m, k) == Pow2(k) - 1 && High(m, k) == Pow2(n - k) - 1
    decreases k
  {
    if k > 0 {
      LowOnes(n - 1, k - 1, m / 2);
    }
  }

  lemma OnesUp(a: nat, b: nat)
    ensures Up(Pow2(a) - 1, b) == Pow2(a + b) - Pow2(b)
  {
    UpAdd(Pow2(a) - 1, 1, b);
    UpPow2(a, b);
    UpPow2(0, b);
  }

  lemma DropMultiple(h: int, u: int)
    requires 0 <= u < TWO32
    ensures (h * TWO32 + u) % TWO32 == u
  {
  }

  // ---------- bitwise operators ----------

  function And(x: nat, y: nat): (r: nat) {
    if x == 0 || y == 0 then 0
    else 2 * And(x / 2, y / 2) + (if x % 2 == 1 && y % 2 == 1 then 1 else 0)
  }

  function Or(x: nat, y: nat): (r: nat)
    decreases x + y
  {
    if x == 0 && y == 0 then 0
    else 2 * Or(x / 2, y / 2) + (if x % 2 == 1 || y % 2 == 1 then 1 else 0)
  }

  function Xor(x: nat, y: nat): (r: nat)
    decreases x + y
  {
    if x == 0 && y == 0 then 0
    else 2 * Xor(x / 2, y / 2) + (if x % 2 != y % 2 then 1 else 0)
  }

  lemma {:induction false} AndBound(x: nat, y: nat)
    ensures And(x, y) <= x
  {
    if x != 0 && y != 0 {
      AndBound(x / 2, y / 2);
    }
  }

  lemma {:induction false} OrBound(x: nat, y: nat, k: nat)
    requires x < Pow2(k) && y < Pow2(k)
    ensures Or(x, y) < Pow2(k) && Xor(x, y) < Pow2(k)
    decreases k
  {
    if k > 0 {
      OrBound(x / 2, y / 2, k - 1);
    }
  }

  lemma {:induction false} OrCommutes(x: nat, y: nat)
    ensures Or(x, y) == Or(y, x)
    decreases x + y
  {
    if x != 0 || y != 0 {
      OrCommutes(x / 2, y / 2);
    }
  }

  lemma {:induction false} OrZero(x: nat)
    ensures Or(0, x) == x
  {
    if x != 0 {
      OrZero(x / 2);
    }
  }

  lemma {:induction false} AndLow(x: nat, k: nat, m: nat)
    requires m == Pow2(k) - 1
    ensures And(x, m) == Low(x, k)
    decreases k
  {
    if k > 0 {
      AndLow(x / 2, k - 1, m / 2);
    }
  }

  lemma {:induction false} AndHigh(x: nat, k: nat, n: nat, m: nat)
    requires k <= n && x < Pow2(n) && m == Pow2(n) - Pow2(k)
    ensures And(x, m) == x - Low(x, k)
    decreases k
  {
    if k == 0 {
      AndLow(x, n, m);
      LowSmall(x, n);
    } else {
      AndHigh(x / 2, k - 1, n - 1, m / 2);
    }
  }

  lemma {:induction false} AndWithoutBit(x: nat, i: nat, n: nat, m: nat)
    requires i < n && x < Pow2(n) && m == Pow2(n) - 1 - Pow2(i)
    ensures And(x, m) == if High(x, i) % 2 == 1 then x - Pow2(i) else x
    decreases i
  {
    if i == 0 {
      AndLow(x / 2, n - 1, m / 2);
      LowSmall(x / 2, n - 1);
    } else {
      AndWithoutBit(x / 2, i - 1, n - 1, m / 2);
    }
  }

  lemma {:induction false} AndCommutes(x: nat, y: nat)
    ensures And(x, y) == And(y, x)
  {
    if x != 0 && y != 0 {
      AndCommutes(x / 2, y / 2);
    }
  }

  lemma {:induction false} AndMiddle(a: nat, b: nat, c: nat, d: nat, k: nat, x: nat, y: nat)
    requires c < Pow2(k) && d < Pow2(k) && x == Up(a, k) + c && y == Up(b, k) + d
    ensures And(x, y) == Up(And(a, b), k) + And(c, d)
    decreases k
  {
    if k > 0 {
      AndMiddle(a, b, c / 2, d / 2, k - 1, x / 2, y / 2);
    } else {
      assert And(0, 0) == 0;
    }
  }

  lemma {:induction false} OrBit(x: nat, i: nat, p: nat)
    requires p == Pow2(i)
    ensures Or(x, p) == if High(x, i) % 2 == 1 then x else x + p
    decreases i
  {
    if i > 0 {
      OrBit(x / 2, i - 1, p / 2);
    } else {
      OrZero(x / 2);
      OrCommutes(x / 2, 0);
    }
  }

  lemma {:induction false} OrMiddle(a: nat, b: nat, c: nat, k: nat, x: nat, y: nat)
    requires c < Pow2(k) && x == Up(a, k) + c && y == Up(b, k)
    ensures Or(x, y) == Up(Or(a, b), k) + c
    decreases k
  {
    if k > 0 {
      OrMiddle(a, b, c / 2, k - 1, x / 2, y / 2);
    }
  }

  lemma OrSplit(h: nat, l: nat, k: nat)
    requires l < Pow2(k)
    ensures Up(h, k) >= 0
    ensures Or(l, Up(h, k)) == Up(h, k) + l
  {
    UpRange(h, k);
    UpAdd(0, 0, k);
    OrZero(h);
    OrMiddle(0, h, l, k, l, Up(h, k));
  }

  // A field goes between the two parts that are kept.
  lemma OrField(q: nat, r: nat, bits: nat, w: nat, l: nat)
    requires r < Pow2(l) && bits < Pow2(w)
    ensures Up(q, w + l) >= 0 && Up(bits, l) >= 0
    ensures Or(Or(r, Up(q, w + l)), Up(bits, l)) == Up(q, w + l) + Up(bits, l) + r
  {
    UpRange(bits, l);
    UpRange(q, w);
    if w > 0 {
      Pow2Less(l, w + l);
    }
    OrSplit(q, r, w + l);
    UpUp(q, w, l);
    OrMiddle(Up(q, w), bits, r, l, Up(q, w + l) + r, Up(bits, l));
    OrSplit(q, bits, w);
    OrCommutes(Up(q, w), bits);
    UpAdd(Up(q, w), bits, l);
  }

  // ---------- operators on words ----------

  function BitAnd(x: word, y: word): (r: word) {
    AndBound(x, y);
    And(x, y)
  }

  function BitOr(x: word, y: word): (r: word) {
    Pow2At32();
    OrBound(x, y, 32);
    Or(x, y)
  }

  function BitXor(x: word, y: word): (r: word) {
    Pow2At32();
    OrBound(x, y, 32);
    Xor(x, y)
  }

  function BitNot(x: word): (r: word) { MAX32 - x }

  function Shl(x: word, s: nat): (r: word)
    requires s < 32
  {
    Up(x, s) % TWO32
  }

  function Shr(x: word, s: nat): (r: word)
    requires s < 32
  {
    HighRange(x, s);
    High(x, s)
  }

  lemma ShlOne(i: nat)
    requires i < 32
    ensures Pow2(i) < TWO32 && Shl(1, i) == Pow2(i)
  {
    Pow2At32();
    Pow2Less(i, 32);
    UpPow2(0, i);
  }

  // A left shift moves the low bits up and drops the others.
  lemma ShlFields(x: word, s: nat)
    requires s < 32
    ensures Shl(x, s) == Up(Low(x, 32 - s), s)
  {
    UpSplit(x, 32 - s, s);
    LowRange(x, 32 - s);
    var h, l := High(x, 32 - s), Low(x, 32 - s);
    UpRange(l, s);
    UpBelow(l, 32 - s, s);
    Pow2At32();
    DropMultiple(h, Up(l, s));
  }

  lemma ShlSmall(x: word, w: nat, s: nat)
    requires x < Pow2(w) && w + s <= 32 && s < 32
    ensures Shl(x, s) == Up(x, s)
  {
    if w < 32 - s {
      Pow2Less(w, 32 - s);
    }
    LowSmall(x, 32 - s);
    ShlFields(x, s);
  }

  lemma MaxShl(s: nat)
    requires s < 32
    ensures Shl(MAX32, s) == TWO32 - Pow2(s)
  {
    Pow2At32();
    LowOnes(32, 32 - s, MAX32);
    ShlFields(MAX32, s);
    OnesUp(32 - s, s);
  }

  lemma HighMask(w: nat)
    requires w < 32
    ensures Shl(Shr(MAX32, w), w) == TWO32 - Pow2(w)
  {
    var ones := Shr(MAX32, w);
    Pow2At32();
    LowOnes(32, w, MAX32);
    LowSmall(ones, 32 - w);
    ShlFields(ones, w);
    OnesUp(32 - w, w);
  }

  // ---------- macros of util.h ----------

  function GetBit(x: word, i: nat): (b: word)
    requires i < 32
  {
    High(x, i) % 2
  }

  // ((x >> i) & 1)
  lemma GetBitMacro(x: word, i: nat)
    requires i < 32
    ensures BitAnd(Shr(x, i), 1) == GetBit(x, i)
  {
    assert Pow2(1) == 2;
    AndLow(Shr(x, i), 1, 1);
  }

  function SetBit(x: word, i: nat): (r: word)
    requires i < 32
    ensures r == if High(x, i) % 2 == 1 then x else x + Pow2(i)
  {
    ShlOne(i);
    OrBit(x, i, Pow2(i));
    BitOr(x, Shl(1, i))
  }

  function ClrBit(x: word, i: nat): (r: word)
    requires i < 32
    ensures r == if High(x, i) % 2 == 1 then x - Pow2(i) else x
  {
    ShlOne(i);
    Pow2At32();
    AndWithoutBit(x, i, 32, BitNot(Pow2(i)));
    BitAnd(x, BitNot(Shl(1, i)))
  }

  // The field [h:l] of x.
  function GetBits(x: word, h: nat, l: nat): (r: word)
    requires l <= h < 32
  {
    HighRange(x, l);
    LowAtMost(High(x, l), h - l + 1);
    Low(High(x, l), h - l + 1)
  }

  // ((x >> l) & ~((~0 >> w) << w)) for a width w below 32
  lemma GetBitsMacro(x: word, h: nat, l: nat)
    requires l <= h < 32 && h - l < 31
    ensures var w := h - l + 1;
            BitAnd(Shr(x, l), BitNot(Shl(Shr(MAX32, w), w))) == GetBits(x, h, l)
  {
    var w := h - l + 1;
    HighMask(w);
    AndLow(Shr(x, l), w, Pow2(w) - 1);
  }

  lemma KeptLow(x: word, l: nat)
    requires l < 32
    ensures BitAnd(x, BitNot(Shl(MAX32, l))) == Low(x, l)
  {
    MaxShl(l);
    AndLow(x, l, Pow2(l) - 1);
  }

  lemma KeptHigh(x: word, h: nat)
    requires h < 32
    ensures BitAnd(x, Shl(Shr(MAX32, h), h)) == Up(High(x, h), h)
  {
    Pow2At32();
    HighMask(h);
    Pow2Less(h, 32);
    AndHigh(x, h, 32, TWO32 - Pow2(h));
    Split(x, h);
  }

  lemma SetBitsFields(x: word, h: nat, l: nat, bits: word)
    requires l <= h < 31 && bits < Pow2(h - l + 1)
    ensures BitOr(BitOr(BitAnd(x, BitNot(Shl(MAX32, l))),
                        BitAnd(x, Shl(Shr(MAX32, h + 1), h + 1))), Shl(bits, l))
         == Up(High(x, h + 1), h + 1) + Up(bits, l) + Low(x, l)
  {
    KeptLow(x, l);
    KeptHigh(x, h + 1);
    ShlSmall(bits, h - l + 1, l);
    LowRange(x, l);
    HighRange(x, h + 1);
    OrField(High(x, h + 1), Low(x, l), bits, h - l + 1, l);
  }

  // Replaces the field [h:l] of x.  In C `~0` is the signed -1, so (~0 >> l) << l is ~0 << l.
  function SetBits(x: word, h: nat, l: nat, bits: word): (r: word)
    requires l <= h < 31 && bits < Pow2(h - l + 1)
    ensures r == Up(High(x, h + 1), h + 1) + Up(bits, l) + Low(x, l)
  {
    SetBitsFields(x, h, l, bits);
    BitOr(BitOr(BitAnd(x, BitNot(Shl(MAX32, l))),
                BitAnd(x, Shl(Shr(MAX32, h + 1), h + 1))), Shl(bits, l))
  }

  // ---------- the bitwise operators bit by bit ----------

  lemma {:induction false} HighOfZero(i: nat)
    ensures High(0, i) == 0
  {
    if i > 0 {
      HighOfZero(i - 1);
    }
  }

  lemma {:induction false} AndBit(x: nat, y: nat, i: nat)
    ensures High(And(x, y), i) % 2 == if High(x, i) % 2 == 1 && High(y, i) % 2 == 1 then 1 else 0
    decreases i
  {
    if x == 0 || y == 0 {
      HighOfZero(i);
    } else if i > 0 {
      AndBit(x / 2, y / 2, i - 1);
      assert And(x, y) / 2 == And(x / 2, y / 2);
    }
  }

  lemma OrHalves(x: nat, y: nat)
    ensures Or(x, y) / 2 == Or(x / 2, y / 2) && Xor(x, y) / 2 == Xor(x / 2, y / 2)
    ensures Or(x, y) % 2 == (if x % 2 == 1 || y % 2 == 1 then 1 else 0)
    ensures Xor(x, y) % 2 == (if x % 2 != y % 2 then 1 else 0)
  {
    if x == 0 && y == 0 {
      assert Or(0, 0) == 0 && Xor(0, 0) == 0;
    }
  }

  lemma {:induction false} OrBitAt(x: nat, y: nat, i: nat)
    ensures High(Or(x, y), i) % 2 == if High(x, i) % 2 == 1 || High(y, i) % 2 == 1 then 1 else 0
    decreases i
  {
    OrHalves(x, y);
    if i > 0 {
      OrBitAt(x / 2, y / 2, i - 1);
    }
  }

  lemma {:induction false} XorBit(x: nat, y: nat, i: nat)
    ensures High(Xor(x, y), i) % 2 == if High(x, i) % 2 != High(y, i) % 2 then 1 else 0
    decreases i
  {
    OrHalves(x, y);
    if i > 0 {
      XorBit(x / 2, y / 2, i - 1);
    }
  }

  lemma {:induction false} XorZero(x: nat)
    ensures Xor(x, 0) == x
  {
    if x != 0 {
      XorZero(x / 2);
    }
  }

  lemma {:induction false} XorPower(x: nat, i: nat, p: nat)
    requires p == Pow2(i)
    ensures Xor(x, p) == if High(x, i) % 2 == 1 then x - p else x + p
    decreases i
  {
    if i > 0 {
      XorPower(x / 2, i - 1, p / 2);
    } else {
      XorZero(x / 2);
    }
  }

  lemma {:induction false} NotBit(x: nat, m: nat, n: nat, i: nat)
    requires m == Pow2(n) - 1 && x <= m && i < n
    ensures High(m - x, i) % 2 == 1 - High(x, i) % 2
    decreases i
  {
    assert m == 2 * (Pow2(n - 1) - 1) + 1;
    if i > 0 {
      NotBit(x / 2, m / 2, n - 1, i - 1);
      assert (m - x) / 2 == m / 2 - x / 2;
    }
  }

  // A bit as a number.
  lemma BitIsDigit(x: word, i: nat, p: nat)
    requires i < 32 && p == Pow2(i)
    ensures GetBit(x, i) == x / p % 2
  {
    HighLowAreDivMod(x, i);
  }

  // A field as a number.
  lemma FieldIsDigits(x: word, h: nat, l: nat, p: nat, d: nat)
    requires l <= h < 32 && p == Pow2(l) && d == Pow2(h - l + 1)
    ensures GetBits(x, h, l) == x / p % d
  {
    HighLowAreDivMod(x, l);
    HighLowAreDivMod(High(x, l), h - l + 1);
  }

  // ---------- util.c ----------

  function Signed(x: word): (i: int) {
    if x >= 0x8000_0000 then x - TWO32 else x
  }

  lemma TopBit(x: word)
    ensures GetBit(x, 31) == if x >= 0x8000_0000 then 1 else 0
  {
    Pow2At32();
    assert Pow2(32) == 2 * Pow2(31);
    HighTop(x, 31);
  }

  lemma HighOfNegative(x: word, s: nat)
    requires 1 <= s < 32 && x >= 0x8000_0000
    ensures High(Signed(x), s) == High(x, s) - Pow2(32 - s)
  {
    Pow2At32();
    UpPow2(32 - s, s);
    HighSub(x, Pow2(32 - s), s);
  }

  lemma FillOnes(q: word, s: nat)
    requires 1 <= s < 32 && q < Pow2(32 - s)
    ensures BitOr(q, Shl(MAX32, 32 - s)) == q - Pow2(32 - s) + TWO32
  {
    Pow2At32();
    MaxShl(32 - s);
    OnesUp(s, 32 - s);
    OrSplit(Pow2(s) - 1, q, 32 - s);
  }

  lemma AsrNegative(x: word, s: nat)
    requires 1 <= s < 32 && x >= 0x8000_0000
    ensures BitOr(Shr(x, s), Shl(MAX32, 32 - s)) == High(Signed(x), s) % TWO32
  {
    var q, t := Shr(x, s), Pow2(32 - s);
    assert q < t < TWO32 by {
      Pow2At32();
      HighBelow(x, s, 32 - s);
      Pow2Less(32 - s, 32);
    }
    FillOnes(q, s);
    HighOfNegative(x, s);
    DropMultiple(-1, q - t + TWO32);
  }

  lemma AsrPositive(x: word, s: nat)
    requires 1 <= s < 32 && x < 0x8000_0000
    ensures BitOr(Shr(x, s), 0) == High(Signed(x), s) % TWO32
  {
    var q := Shr(x, s);
    OrZero(q);
    OrCommutes(q, 0);
    assert q == High(Signed(x), s);
  }

  lemma AsrFields(x: word, s: nat)
    requires 1 <= s < 32
    ensures BitOr(Shr(x, s), if GetBit(x, 31) == 1 then Shl(MAX32, 32 - s) else 0)
         == High(Signed(x), s) % TWO32
  {
    TopBit(x);
    if x >= 0x8000_0000 {
      AsrNegative(x, s);
    } else {
      AsrPositive(x, s);
    }
  }

  // Rounds the signed value down.
  function Asr(x: word, s: nat): (r: word)
    requires 1 <= s < 32
    ensures r == High(Signed(x), s) % TWO32
  {
    AsrFields(x, s);
    BitOr(Shr(x, s), if GetBit(x, 31) == 1 then Shl(MAX32, 32 - s) else 0)
  }

  lemma RorFields(x: word, s: nat)
    requires 1 <= s < 32
    ensures BitOr(Shr(x, s), Shl(x, 32 - s)) == High(x, s) + Up(Low(x, s), 32 - s)
  {
    Pow2At32();
    ShlFields(x, 32 - s);
    HighBelow(x, s, 32 - s);
    HighRange(x, s);
    LowRange(x, s);
    OrSplit(Low(x, s), High(x, s), 32 - s);
  }

  // A zero rotation shifts left by 32 in C, which is undefined; it is taken to leave x alone.
  function Ror(x: word, s: nat): (r: word)
    requires s < 32
    ensures r == if s == 0 then x else High(x, s) + Up(Low(x, s), 32 - s)
  {
    if s == 0 then
      x
    else
      RorFields(x, s);
      BitOr(Shr(x, s), Shl(x, 32 - s))
  }
}

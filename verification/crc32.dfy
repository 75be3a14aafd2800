/** CRC-32 as edgeconf/core computes it: a table-driven loop over bytes.

    Three descriptions are tied together. `Reference` is the definition of
    section 3.2.9 of IEEE 802.3: complement the first 32 bits, append 32 zero
    bits, divide by the generator polynomial over GF(2), complement the
    remainder. `Crc` is the reflected shift register of section 8 of RFC 1952.
    `Engine.Compute` is the program's loop over its cached table. */
module Crc32 {
  type Byte = bv8

  /** The generator without its leading term, bit-reversed. */
  const POLY: bv32 := 0xEDB8_8320

  const ONES: bv32 := 0xFFFF_FFFF

  // ---------------------------------------------------------------------
  // The shift register
  // ---------------------------------------------------------------------

  /** One division step on the reflected register. */
  function Shift(c: bv32): bv32 {
    if c & 1 == 1 then POLY ^ (c >> 1) else c >> 1
  }

  function Shifts(c: bv32, n: nat): bv32
    decreases n
  {
    if n == 0 then c else Shifts(Shift(c), n - 1)
  }

  /** Exclusive or under a name, so that proofs can treat it as uninterpreted. */
  function Xor(a: bv32, b: bv32): bv32 { a ^ b }

  function Widen(b: Byte): bv32 { b as bv32 }

  function FeedByte(reg: bv32, b: Byte): bv32 {
    Shifts(Xor(reg, Widen(b)), 8)
  }

  function Feed(reg: bv32, m: seq<Byte>): bv32
    decreases |m|
  {
    if |m| == 0 then reg else Feed(FeedByte(reg, m[0]), m[1..])
  }

  function Crc(m: seq<Byte>): bv32 {
    Xor(Feed(ONES, m), ONES)
  }

  lemma {:induction false} FeedConcat(reg: bv32, a: seq<Byte>, b: seq<Byte>)
    ensures Feed(reg, a + b) == Feed(Feed(reg, a), b)
    decreases |a|
  {
    hide FeedByte;
    if |a| == 0 {
      assert a + b == b;
    } else {
      assert (a + b)[1..] == a[1..] + b;
      FeedConcat(FeedByte(reg, a[0]), a[1..], b);
    }
  }

  // ---------------------------------------------------------------------
  // Linearity and injectivity
  // ---------------------------------------------------------------------

  lemma ShiftLinearOddOdd(a: bv32, b: bv32)
    requires a & 1 == 1 && b & 1 == 1
    ensures Shift(Xor(a, b)) == Xor(Shift(a), Shift(b))
  {}

  lemma ShiftLinearEvenOdd(a: bv32, b: bv32)
    requires a & 1 != 1 && b & 1 == 1
    ensures Shift(Xor(a, b)) == Xor(Shift(a), Shift(b))
  {}

  lemma ShiftLinearEvenEven(a: bv32, b: bv32)
    requires a & 1 != 1 && b & 1 != 1
    ensures Shift(Xor(a, b)) == Xor(Shift(a), Shift(b))
  {}

  lemma XorCommutes(a: bv32, b: bv32)
    ensures Xor(a, b) == Xor(b, a)
  {}

  lemma XorAssociates(a: bv32, b: bv32, c: bv32)
    ensures Xor(Xor(a, b), c) == Xor(a, Xor(b, c))
  {}

  lemma ShiftLinear(a: bv32, b: bv32)
    ensures Shift(Xor(a, b)) == Xor(Shift(a), Shift(b))
  {
    hide Shift, Xor;
    if a & 1 == 1 {
      if b & 1 == 1 {
        ShiftLinearOddOdd(a, b);
      } else {
        ShiftLinearEvenOdd(b, a);
        XorCommutes(a, b);
        XorCommutes(Shift(a), Shift(b));
      }
    } else if b & 1 == 1 {
      ShiftLinearEvenOdd(a, b);
    } else {
      ShiftLinearEvenEven(a, b);
    }
  }

  lemma {:induction false} ShiftsLinear(a: bv32, b: bv32, n: nat)
    ensures Shifts(Xor(a, b), n) == Xor(Shifts(a, n), Shifts(b, n))
    decreases n
  {
    hide Shift, Xor;
    if n > 0 {
      ShiftLinear(a, b);
      ShiftsLinear(Shift(a), Shift(b), n - 1);
    }
  }

  lemma ShiftInjective(a: bv32, b: bv32)
    requires Shift(a) == Shift(b)
    ensures a == b
  {}

  lemma {:induction false} ShiftsInjective(a: bv32, b: bv32, n: nat)
    requires Shifts(a, n) == Shifts(b, n)
    ensures a == b
    decreases n
  {
    hide Shift;
    if n > 0 {
      ShiftsInjective(Shift(a), Shift(b), n - 1);
      ShiftInjective(a, b);
    }
  }

  lemma XorInjective(a: bv32, b: bv32, x: bv32)
    requires Xor(a, x) == Xor(b, x)
    ensures a == b
  {}

  lemma {:induction false} ShiftsCompose(c: bv32, m: nat, n: nat)
    ensures Shifts(Shifts(c, m), n) == Shifts(c, m + n)
    decreases m
  {
    hide Shift;
    if m > 0 {
      ShiftsCompose(Shift(c), m - 1, n);
    }
  }

  /** Different registers fed the same bytes stay different. */
  lemma {:induction false} FeedInjective(r: bv32, s: bv32, m: seq<Byte>)
    requires Feed(r, m) == Feed(s, m)
    ensures r == s
    decreases |m|
  {
    hide Shifts, Xor;
    if |m| > 0 {
      FeedInjective(FeedByte(r, m[0]), FeedByte(s, m[0]), m[1..]);
      ShiftsInjective(Xor(r, Widen(m[0])), Xor(s, Widen(m[0])), 8);
      XorInjective(r, s, Widen(m[0]));
    }
  }

  // ---------------------------------------------------------------------
  // Eight shifts at once: what the table holds
  // ---------------------------------------------------------------------

  function Low(c: bv32): bv32 { c & 0xFF }

  function High(c: bv32): bv32 { c & 0xFFFF_FF00 }

  function Down(c: bv32): bv32 { c >> 8 }

  function Up(c: bv32): bv32 { c << 8 }

  lemma Even0(h: bv32) requires Low(h) == 0 ensures Shift(h) == h >> 1 {}
  lemma Even1(h: bv32) requires Low(h) == 0 ensures Shift(h >> 1) == h >> 2 {}
  lemma Even2(h: bv32) requires Low(h) == 0 ensures Shift(h >> 2) == h >> 3 {}
  lemma Even3(h: bv32) requires Low(h) == 0 ensures Shift(h >> 3) == h >> 4 {}
  lemma Even4(h: bv32) requires Low(h) == 0 ensures Shift(h >> 4) == h >> 5 {}
  lemma Even5(h: bv32) requires Low(h) == 0 ensures Shift(h >> 5) == h >> 6 {}
  lemma Even6(h: bv32) requires Low(h) == 0 ensures Shift(h >> 6) == h >> 7 {}
  lemma Even7(h: bv32) requires Low(h) == 0 ensures Shift(h >> 7) == Down(h) {}

  /** A register whose low byte is zero just moves down eight places. */
  lemma LowByteZero(h: bv32)
    requires Low(h) == 0
    ensures Shifts(h, 8) == Down(h)
  {
    hide Shift, Low, Down;
    Even0(h); Even1(h); Even2(h); Even3(h); Even4(h); Even5(h); Even6(h); Even7(h);
    assert Shifts(h, 8) == Shifts(h >> 1, 7) == Shifts(h >> 2, 6) == Shifts(h >> 3, 5) == Shifts(h >> 4, 4);
    assert Shifts(h >> 4, 4) == Shifts(h >> 5, 3) == Shifts(h >> 6, 2) == Shifts(h >> 7, 1) == Shifts(Down(h), 0);
  }

  lemma Halves(c: bv32)
    ensures c == Xor(Low(c), High(c))
    ensures Low(High(c)) == 0
    ensures Down(High(c)) == Down(c)
  {}

  /** Eight shifts are one table entry and one byte move. */
  lemma ShiftsByTable(c: bv32)
    ensures Shifts(c, 8) == Xor(Shifts(Low(c), 8), Down(c))
  {
    hide Shifts, Low, High, Down, Xor;
    Halves(c);
    ShiftsLinear(Low(c), High(c), 8);
    LowByteZero(High(c));
  }

  lemma DownIgnoresByte(reg: bv32, b: Byte)
    ensures Down(Xor(reg, Widen(b))) == Down(reg)
  {}

  // ---------------------------------------------------------------------
  // Burst detection
  // ---------------------------------------------------------------------

  /** Bytes as one little-endian word, first byte lowest. */
  function Word(m: seq<Byte>): bv32 {
    if |m| == 0 then 0 else Xor(Widen(m[0]), Up(Word(m[1..])))
  }

  function Limit(n: nat): bv32
    requires n < 4
  {
    if n == 0 then 1 else if n == 1 then 0x100 else if n == 2 then 0x1_0000 else 0x100_0000
  }

  lemma WordStepBound(b: Byte, w: bv32, n: nat)
    requires n < 3 && w < Limit(n)
    ensures Xor(Widen(b), Up(w)) < Limit(n + 1)
  {}

  lemma {:induction false} WordBound(m: seq<Byte>)
    requires |m| < 4
    ensures Word(m) < Limit(|m|)
  {
    hide Xor, Up, Widen;
    if |m| > 0 {
      WordBound(m[1..]);
      WordStepBound(m[0], Word(m[1..]), |m| - 1);
    }
  }

  lemma UpDown(w: bv32)
    requires w < 0x100_0000
    ensures Low(Up(w)) == 0 && Down(Up(w)) == w
  {}

  lemma LimitSmall(n: nat)
    requires n < 4
    ensures Limit(n) <= 0x100_0000
  {}

  /** A byte string fed to the register acts as one word, when it fits one. */
  lemma {:induction false} FeedWord(r: bv32, m: seq<Byte>)
    requires |m| <= 4
    ensures Feed(r, m) == Shifts(Xor(r, Word(m)), 8 * |m|)
    decreases |m|
  {
    if |m| == 0 {
      XorZero(r);
    } else {
      var first, rest := Widen(m[0]), Word(m[1..]);
      FeedWord(FeedByte(r, m[0]), m[1..]);
      WordFits(m[1..]);
      AbsorbWord(Xor(r, first), rest);
      XorAssociates(r, first, Up(rest));
      ShiftsCompose(Xor(r, Word(m)), 8, 8 * (|m| - 1));
      assert 8 + 8 * (|m| - 1) == 8 * |m|;
    }
  }

  lemma XorZero(r: bv32)
    ensures Xor(r, 0) == r
  {}

  lemma WordFits(m: seq<Byte>)
    requires |m| < 4
    ensures Word(m) < 0x100_0000
  {
    WordBound(m);
    LimitSmall(|m|);
  }

  lemma AbsorbWord(a: bv32, w: bv32)
    requires w < 0x100_0000
    ensures Xor(Shifts(a, 8), w) == Shifts(Xor(a, Up(w)), 8)
  {
    hide Xor, Up, Low, Down, Shifts;
    UpDown(w);
    LowByteZero(Up(w));
    ShiftsLinear(a, Up(w), 8);
  }

  lemma WordParts(b: Byte, v: bv32, c: Byte, w: bv32)
    requires v < 0x100_0000 && w < 0x100_0000
    requires Xor(Widen(b), Up(v)) == Xor(Widen(c), Up(w))
    ensures b == c && v == w
  {}

  lemma {:induction false} WordInjective(x: seq<Byte>, y: seq<Byte>)
    requires |x| == |y| <= 4
    requires Word(x) == Word(y)
    ensures x == y
  {
    hide Xor, Up, Widen;
    if |x| > 0 {
      WordFits(x[1..]);
      WordFits(y[1..]);
      WordParts(x[0], Word(x[1..]), y[0], Word(y[1..]));
      WordInjective(x[1..], y[1..]);
      assert x == [x[0]] + x[1..] && y == [y[0]] + y[1..];
    }
  }

  /** Two messages that differ only inside four consecutive bytes never share
      a CRC, whatever surrounds the four bytes and however long it is. */
  lemma BurstDetected(before: seq<Byte>, x: seq<Byte>, y: seq<Byte>, after: seq<Byte>)
    requires |x| == |y| <= 4 && x != y
    ensures Crc(before + x + after) != Crc(before + y + after)
  {
    if Crc(before + x + after) == Crc(before + y + after) {
      XorInjective(Feed(ONES, before + x + after), Feed(ONES, before + y + after), ONES);
      FeedConcat(ONES, before + x, after);
      FeedConcat(ONES, before + y, after);
      FeedConcat(ONES, before, x);
      FeedConcat(ONES, before, y);
      var r := Feed(ONES, before);
      FeedInjective(Feed(r, x), Feed(r, y), after);
      FeedWord(r, x);
      FeedWord(r, y);
      ShiftsInjective(Xor(r, Word(x)), Xor(r, Word(y)), 8 * |x|);
      XorCommutes(r, Word(x));
      XorCommutes(r, Word(y));
      XorInjective(Word(x), Word(y), r);
      WordInjective(x, y);
    }
  }

  /** The same, for a whole message and the position of the burst. */
  lemma BurstDetectedAt(m: seq<Byte>, n: seq<Byte>, at: nat)
    requires |m| == |n| && m != n
    requires forall i :: 0 <= i < |m| && !(at <= i < at + 4) ==> m[i] == n[i]
    ensures Crc(m) != Crc(n)
  {
    var lo := if at < |m| then at else |m|;
    var hi := if at + 4 < |m| then at + 4 else |m|;
    assert m == m[..lo] + m[lo..hi] + m[hi..];
    assert n == m[..lo] + n[lo..hi] + m[hi..];
    BurstDetected(m[..lo], m[lo..hi], n[lo..hi], m[hi..]);
  }

  // ---------------------------------------------------------------------
  // The definition: division of polynomials over GF(2)
  // ---------------------------------------------------------------------

  /** The powers of x in the generator polynomial. */
  predicate InGenerator(e: int) {
    e == 32 || e == 26 || e == 23 || e == 22 || e == 16 || e == 12 || e == 11 || e == 10 ||
    e == 8 || e == 7 || e == 5 || e == 4 || e == 2 || e == 1 || e == 0
  }

  /** Coefficients of the generator, highest power first. */
  function Generator(): (g: seq<bool>)
    ensures |g| == 33
  {
    seq(33, i => InGenerator(32 - i))
  }

  predicate Odd(c: bv32) { c & 1 == 1 }

  function Half(c: bv32): bv32 { c >> 1 }

  /** The `n` low bits, lowest first: the order in which bits are sent. */
  function Bits(c: bv32, n: nat): (s: seq<bool>)
    ensures |s| == n
    decreases n
  {
    if n == 0 then [] else [Odd(c)] + Bits(Half(c), n - 1)
  }

  function MessageBits(m: seq<Byte>): seq<bool> {
    if |m| == 0 then [] else Bits(Widen(m[0]), 8) + MessageBits(m[1..])
  }

  /** `w` with `x` added (exclusive or) to its first bits. */
  function AddFront(w: seq<bool>, x: seq<bool>): (s: seq<bool>)
    requires |x| <= |w|
    ensures |s| == |w|
  {
    seq(|w|, i requires 0 <= i < |w| => if i < |x| then w[i] != x[i] else w[i])
  }

  /** Long division by the generator, highest power first. */
  function Remainder(w: seq<bool>): (r: seq<bool>)
    requires |w| >= 32
    ensures |r| == 32
    decreases |w|
  {
    if |w| == 32 then w
    else if w[0] then Remainder(AddFront(w, Generator())[1..])
    else Remainder(w[1..])
  }

  function Fill(b: bool, n: nat): (s: seq<bool>)
    ensures |s| == n && forall i :: 0 <= i < n ==> s[i] == b
  {
    seq(n, _ => b)
  }

  /** The CRC of section 3.2.9 of IEEE 802.3, as bits, highest power first. */
  function Reference(m: seq<Byte>): seq<bool> {
    var dividend := MessageBits(m) + Fill(false, 32);
    AddFront(Remainder(AddFront(dividend, Fill(true, 32))), Fill(true, 32))
  }

  function FeedBits(r: bv32, bits: seq<bool>): bv32
    decreases |bits|
  {
    if |bits| == 0 then r else FeedBits(FeedBit(r, bits[0]), bits[1..])
  }

  function FeedBit(r: bv32, b: bool): bv32 {
    Shift(Xor(r, OfBit(b)))
  }

  lemma TwoBits(c: bv32, rest: bv32, n: nat, b0: bool, b1: bool)
    requires n >= 2 && rest == Half(Half(c)) && b0 == Odd(c) && b1 == Odd(Half(c))
    ensures Bits(c, n) == [b0, b1] + Bits(rest, n - 2)
  {
    hide Odd, Half;
    assert Bits(c, n) == [b0] + Bits(Half(c), n - 1);
    assert Bits(Half(c), n - 1) == [b1] + Bits(rest, n - 2);
  }

  lemma Nibble(c: bv32, rest: bv32, n: nat, b0: bool, b1: bool, b2: bool, b3: bool)
    requires n >= 4 && rest == Half(Half(Half(Half(c))))
    requires b0 == Odd(c) && b1 == Odd(Half(c)) && b2 == Odd(Half(Half(c))) && b3 == Odd(Half(Half(Half(c))))
    ensures Bits(c, n) == [b0, b1, b2, b3] + Bits(rest, n - 4)
  {
    hide Odd, Half, Bits;
    var mid := Half(Half(c));
    TwoBits(c, mid, n, b0, b1);
    TwoBits(mid, rest, n - 2, b2, b3);
    assert [b0, b1] + ([b2, b3] + Bits(rest, n - 4)) == [b0, b1, b2, b3] + Bits(rest, n - 4);
  }

  /** The constant in the source is the standard's generator, bit-reversed. */
  lemma GeneratorBits()
    ensures Generator() == [true] + Bits(POLY, 32)
  {
    hide Bits;
    PolyBits();
  }

  lemma PolyBits()
    ensures Bits(POLY, 32) == [
      false, false, false, false, false, true, false, false,
      true, true, false, false, false, false, false, true,
      false, false, false, true, true, true, false, true,
      true, false, true, true, false, true, true, true]
  {
    hide Bits;
    Nibble(0xEDB8_8320, 0xEDB_8832, 32, false, false, false, false);
    Nibble(0xEDB_8832, 0xED_B883, 28, false, true, false, false);
    Nibble(0xED_B883, 0xE_DB88, 24, true, true, false, false);
    Nibble(0xE_DB88, 0xEDB8, 20, false, false, false, true);
    Nibble(0xEDB8, 0xEDB, 16, false, false, false, true);
    Nibble(0xEDB, 0xED, 12, true, true, false, true);
    Nibble(0xED, 0xE, 8, true, false, true, true);
    Nibble(0xE, 0, 4, false, true, true, true);
    assert Bits(0, 0) == [];
  }

  function ClearLowBit(x: bv32): bv32 { x & 0xFFFF_FFFE }

  function OfBit(b: bool): bv32 { if b then 1 else 0 }

  lemma LowBitSplit(x: bv32)
    ensures x == Xor(OfBit(Odd(x)), ClearLowBit(x))
  {}

  lemma ShiftEven(x: bv32)
    ensures Shift(ClearLowBit(x)) == Half(x)
  {}

  lemma FeedBitSplits(r: bv32, x: bv32)
    ensures Xor(FeedBit(r, Odd(x)), Half(x)) == Shift(Xor(r, x))
  {
    hide Shift, Xor, OfBit, Odd, ClearLowBit, Half;
    LowBitSplit(x);
    ShiftEven(x);
    XorAssociates(r, OfBit(Odd(x)), ClearLowBit(x));
    ShiftLinear(Xor(r, OfBit(Odd(x))), ClearLowBit(x));
  }

  /** `x` has no bits at position `n` or above. */
  predicate Fits(x: bv32, n: nat)
    decreases n
  {
    if n == 0 then x == 0 else Fits(Half(x), n - 1)
  }

  lemma {:induction false} FeedBitsIsShifts(r: bv32, x: bv32, n: nat)
    requires Fits(x, n)
    ensures FeedBits(r, Bits(x, n)) == Shifts(Xor(r, x), n)
    decreases n
  {
    hide Xor, FeedBit, Shift, Odd, Half;
    if n == 0 {
      XorZero(r);
    } else {
      FeedBitSplits(r, x);
      assert Bits(x, n)[1..] == Bits(Half(x), n - 1);
      FeedBitsIsShifts(FeedBit(r, Odd(x)), Half(x), n - 1);
    }
  }

  function Down4(x: bv32): bv32 { x >> 4 }

  lemma HalfFour(x: bv32)
    ensures Half(Half(Half(Half(x)))) == Down4(x)
  {}

  lemma DropFour(x: bv32, n: nat)
    requires Fits(Down4(x), n)
    ensures Fits(x, n + 4)
  {
    hide Half, Down4;
    HalfFour(x);
    assert Fits(Half(Half(Half(x))), n + 1);
    assert Fits(Half(Half(x)), n + 2);
    assert Fits(Half(x), n + 3);
  }

  lemma ByteShiftedOut(b: Byte)
    ensures Down4(Down4(Widen(b))) == 0
  {}

  lemma ByteFits(b: Byte)
    ensures Fits(Widen(b), 8)
  {
    hide Widen, Half, Down4;
    ByteShiftedOut(b);
    DropFour(Down4(Widen(b)), 0);
    DropFour(Widen(b), 4);
  }

  lemma AllShiftedOut(x: bv32)
    ensures Down4(Down4(Down4(Down4(Down4(Down4(Down4(Down4(x)))))))) == 0
  {}

  lemma AllFit(x: bv32)
    ensures Fits(x, 32)
  {
    hide Half, Down4;
    AllShiftedOut(x);
    var x1 := Down4(x);
    var x2 := Down4(x1);
    var x3 := Down4(x2);
    var x4 := Down4(x3);
    var x5 := Down4(x4);
    var x6 := Down4(x5);
    var x7 := Down4(x6);
    DropFour(x7, 0);
    DropFour(x6, 4);
    DropFour(x5, 8);
    DropFour(x4, 12);
    DropFour(x3, 16);
    DropFour(x2, 20);
    DropFour(x1, 24);
    DropFour(x, 28);
  }

  lemma {:induction false} FeedBitsConcat(r: bv32, a: seq<bool>, b: seq<bool>)
    ensures FeedBits(r, a + b) == FeedBits(FeedBits(r, a), b)
    decreases |a|
  {
    hide FeedBit;
    if |a| == 0 {
      assert a + b == b;
    } else {
      assert (a + b)[1..] == a[1..] + b;
      FeedBitsConcat(FeedBit(r, a[0]), a[1..], b);
    }
  }

  lemma {:induction false} FeedIsFeedBits(r: bv32, m: seq<Byte>)
    ensures Feed(r, m) == FeedBits(r, MessageBits(m))
    decreases |m|
  {
    hide Xor, FeedBit, Widen, Fits;
    if |m| > 0 {
      ByteFits(m[0]);
      FeedBitsIsShifts(r, Widen(m[0]), 8);
      FeedBitsConcat(r, Bits(Widen(m[0]), 8), MessageBits(m[1..]));
      FeedIsFeedBits(FeedByte(r, m[0]), m[1..]);
    }
  }

  lemma {:induction false} BitsExtend(x: bv32, n: nat)
    requires Fits(x, n)
    ensures Bits(x, n + 1) == Bits(x, n) + [false]
    decreases n
  {
    if n == 0 {
      assert Bits(x, 1) == [false] + Bits(Half(x), 0);
    } else {
      BitsExtend(Half(x), n - 1);
    }
  }

  lemma BitsOfHalf(r: bv32)
    ensures Bits(Half(r), 32) == Bits(r, 32)[1..] + [false]
  {
    AllFit(r);
    BitsExtend(Half(r), 31);
  }

  lemma XorHalf(a: bv32, b: bv32)
    ensures Half(Xor(a, b)) == Xor(Half(a), Half(b))
  {}

  lemma XorOdd(a: bv32, b: bv32)
    ensures Odd(Xor(a, b)) == (Odd(a) != Odd(b))
  {}

  lemma {:induction false} BitsXor(a: bv32, b: bv32, n: nat)
    ensures forall i :: 0 <= i < n ==> Bits(Xor(a, b), n)[i] == (Bits(a, n)[i] != Bits(b, n)[i])
    decreases n
  {
    hide Xor, Odd, Half;
    if n > 0 {
      XorHalf(a, b);
      XorOdd(a, b);
      BitsXor(Half(a), Half(b), n - 1);
    }
  }

  lemma ShiftCases(r: bv32)
    ensures Shift(r) == if Odd(r) then Xor(POLY, Half(r)) else Half(r)
  {}

  lemma XorBit(r: bv32, b: bool)
    ensures Odd(Xor(r, OfBit(b))) == (Odd(r) != b)
    ensures Half(Xor(r, OfBit(b))) == Half(r)
  {
    hide Xor, OfBit, Odd, Half;
    OneBit(b);
    XorHalf(r, OfBit(b));
    XorOdd(r, OfBit(b));
    XorZero(Half(r));
  }

  lemma OneBit(b: bool)
    ensures Odd(OfBit(b)) == b && Half(OfBit(b)) == 0
  {}

  lemma FeedBitCases(r: bv32, b: bool)
    ensures FeedBit(r, b) == if Odd(r) != b then Xor(POLY, Half(r)) else Half(r)
  {
    hide Shift, Xor, OfBit, Odd, Half;
    ShiftCases(Xor(r, OfBit(b)));
    XorBit(r, b);
  }

  lemma SubtractGenerator(r: bv32, b: bool, t: seq<bool>, w: seq<bool>)
    requires |t| >= 32 && Odd(r) != b
    requires w == AddFront([b] + t, Bits(r, 32))
    ensures AddFront(w, Generator())[1..] == AddFront(t, Bits(Xor(POLY, Half(r)), 32))
  {
    hide Xor, Odd, Half, Generator, Bits;
    GeneratorBits();
    BitsOfHalf(r);
    BitsXor(POLY, Half(r), 32);
    var poly, half := Bits(POLY, 32), Bits(Half(r), 32);
    assert forall i :: 0 <= i < 32 ==> Generator()[i + 1] == poly[i];
    assert forall i :: 0 <= i < |t| ==> w[i + 1] == if i < 32 then t[i] != half[i] else t[i];
  }

  lemma ShiftDividend(r: bv32, b: bool, t: seq<bool>, w: seq<bool>)
    requires |t| >= 32
    requires w == AddFront([b] + t, Bits(r, 32))
    ensures w[0] == (Odd(r) != b)
    ensures w[1..] == AddFront(t, Bits(Half(r), 32))
  {
    hide Odd, Half, Bits;
    BitsFirst(r);
    BitsOfHalf(r);
    var bits, half := Bits(r, 32), Bits(Half(r), 32);
    assert forall i :: 0 <= i < 31 ==> half[i] == bits[i + 1];
    assert !half[31];
  }

  lemma BitsFirst(r: bv32)
    ensures Bits(r, 32)[0] == Odd(r)
  {}

  /** One register step is one division step. */
  lemma DivisionStep(r: bv32, b: bool, t: seq<bool>)
    requires |t| >= 32
    ensures Remainder(AddFront([b] + t, Bits(r, 32))) == Remainder(AddFront(t, Bits(FeedBit(r, b), 32)))
  {
    hide FeedBit, Xor, Odd, Half, Bits, AddFront, Generator;
    var w := AddFront([b] + t, Bits(r, 32));
    FeedBitCases(r, b);
    ShiftDividend(r, b, t, w);
    if w[0] {
      SubtractGenerator(r, b, t, w);
    }
  }

  lemma {:induction false} FeedBitsDivides(r: bv32, bits: seq<bool>)
    ensures Bits(FeedBits(r, bits), 32) == Remainder(AddFront(bits + Fill(false, 32), Bits(r, 32)))
    decreases |bits|
  {
    hide FeedBit, Generator, Bits;
    var zeros := Fill(false, 32);
    if |bits| == 0 {
      assert bits + zeros == zeros;
      assert AddFront(zeros, Bits(r, 32)) == Bits(r, 32);
    } else {
      var t := bits[1..] + zeros;
      assert bits + zeros == [bits[0]] + t;
      DivisionStep(r, bits[0], t);
      FeedBitsDivides(FeedBit(r, bits[0]), bits[1..]);
    }
  }

  lemma OnesBits()
    ensures Bits(ONES, 32) == Fill(true, 32)
  {
    hide Bits;
    Nibble(0xFFFF_FFFF, 0xFFF_FFFF, 32, true, true, true, true);
    Nibble(0xFFF_FFFF, 0xFF_FFFF, 28, true, true, true, true);
    Nibble(0xFF_FFFF, 0xF_FFFF, 24, true, true, true, true);
    Nibble(0xF_FFFF, 0xFFFF, 20, true, true, true, true);
    Nibble(0xFFFF, 0xFFF, 16, true, true, true, true);
    Nibble(0xFFF, 0xFF, 12, true, true, true, true);
    Nibble(0xFF, 0xF, 8, true, true, true, true);
    Nibble(0xF, 0, 4, true, true, true, true);
    assert Bits(0, 0) == [];
  }

  /** The shift register computes the CRC of IEEE 802.3 for every message. */
  lemma CrcIsReference(m: seq<Byte>)
    ensures Bits(Crc(m), 32) == Reference(m)
  {
    hide Feed, Bits, Remainder, Xor;
    FeedIsFeedBits(ONES, m);
    FeedBitsDivides(ONES, MessageBits(m));
    OnesBits();
    BitsXor(Feed(ONES, m), ONES, 32);
  }

  /** A register is its bits, so `Reference` determines the CRC. */
  lemma {:induction false} BitsDetermine(a: bv32, b: bv32, n: nat)
    requires Fits(a, n) && Fits(b, n) && Bits(a, n) == Bits(b, n)
    ensures a == b
    decreases n
  {
    hide Odd, Half;
    if n > 0 {
      assert Bits(a, n)[0] == Bits(b, n)[0];
      assert Bits(Half(a), n - 1) == Bits(a, n)[1..];
      assert Bits(Half(b), n - 1) == Bits(b, n)[1..];
      BitsDetermine(Half(a), Half(b), n - 1);
      Rejoin(a, b);
    }
  }

  lemma Rejoin(a: bv32, b: bv32)
    requires Half(a) == Half(b) && Odd(a) == Odd(b)
    ensures a == b
  {}

  // ---------------------------------------------------------------------
  // The program's loops
  // ---------------------------------------------------------------------

  function TableEntry(i: nat): bv32
    requires i < 256
  {
    Shifts(i as bv32, 8)
  }

  lemma IndexRoundTrip(x: bv32)
    ensures Low(x) as int < 256 && (Low(x) as int) as bv32 == Low(x)
  {}

  /** One byte of the table-driven loop is eight register steps. */
  lemma TableStep(reg: bv32, b: Byte)
    ensures Low(Xor(reg, Widen(b))) as int < 256
    ensures FeedByte(reg, b) == Xor(TableEntry(Low(Xor(reg, Widen(b))) as int), Down(reg))
  {
    hide Shifts, Low, Down, Xor, Widen;
    IndexRoundTrip(Xor(reg, Widen(b)));
    ShiftsByTable(Xor(reg, Widen(b)));
    DownIgnoresByte(reg, b);
  }

  /** The table index for the next byte, as the loop writes it. */
  function TableIndex(reg: bv32, b: Byte): (i: nat)
    ensures i < 256
  {
    ((reg ^ (b as bv32)) & 0xFF) as int
  }

  function Combine(entry: bv32, reg: bv32): bv32 { entry ^ (reg >> 8) }

  lemma TableIndexIsLow(reg: bv32, b: Byte)
    ensures TableIndex(reg, b) == Low(Xor(reg, Widen(b))) as int
  {
    assert (reg ^ (b as bv32)) & 0xFF == Low(Xor(reg, Widen(b)));
  }

  lemma CombineIsXor(entry: bv32, reg: bv32)
    ensures Combine(entry, reg) == Xor(entry, Down(reg))
  {}

  lemma LoopStep(reg: bv32, b: Byte)
    ensures Combine(TableEntry(TableIndex(reg, b)), reg) == FeedByte(reg, b)
  {
    hide FeedByte, TableEntry, TableIndex, Combine, Low, Down, Xor, Widen;
    TableStep(reg, b);
    TableIndexIsLow(reg, b);
    CombineIsXor(TableEntry(TableIndex(reg, b)), reg);
  }

  lemma TableEntryIsShifts(i: nat)
    requires i < 256
    ensures TableEntry(i) == Shifts(i as bv32, 8)
  {}

  lemma ShiftsUnfold(c: bv32, n: nat)
    ensures Shifts(c, 0) == c
    ensures n > 0 ==> Shifts(c, n) == Shifts(Shift(c), n - 1)
  {}

  lemma FeedUnfold(reg: bv32, m: seq<Byte>)
    ensures Feed(reg, []) == reg
    ensures |m| > 0 ==> Feed(reg, m) == Feed(FeedByte(reg, m[0]), m[1..])
  {}

  lemma CrcUnfold(m: seq<Byte>)
    ensures Crc(m) == Feed(ONES, m) ^ 0xFFFF_FFFF
  {}

  /** The file-scope table and its "already filled" flag. */
  class Engine {
    const table: array<bv32>
    var ready: bool

    ghost predicate Valid()
      reads this, table
    {
      table.Length == 256 &&
      (ready ==> forall i :: 0 <= i < 256 ==> table[i] == TableEntry(i))
    }

    constructor ()
      ensures Valid() && !ready && fresh(table)
    {
      table := new bv32[256];
      ready := false;
    }

    method Init()
      requires table.Length == 256
      modifies this, table
      ensures Valid() && ready
    {
      hide Shifts, TableEntry;
      var poly := POLY;
      for i := 0 to 256
        invariant forall k :: 0 <= k < i ==> table[k] == TableEntry(k)
      {
        var c := i as bv32;
        TableEntryIsShifts(i);
        for j := 0 to 8
          invariant Shifts(c, 8 - j) == TableEntry(i)
          invariant forall k :: 0 <= k < i ==> table[k] == TableEntry(k)
        {
          ShiftsUnfold(c, 8 - j);
          c := if c & 1 == 1 then poly ^ (c >> 1) else c >> 1;
        }
        ShiftsUnfold(c, 0);
        table[i] := c;
      }
      ready := true;
    }

    method Compute(buf: seq<Byte>) returns (crc: bv32)
      requires Valid()
      modifies this, table
      ensures Valid() && ready
      ensures crc == Crc(buf)
    {
      if !ready {
        Init();
      }
      hide Crc, Feed, FeedByte, TableEntry, TableIndex, Combine;
      crc := ONES;
      for i := 0 to |buf|
        invariant Valid() && ready
        invariant Feed(crc, buf[i..]) == Feed(ONES, buf)
      {
        assert buf[i..][1..] == buf[i + 1..];
        FeedUnfold(crc, buf[i..]);
        LoopStep(crc, buf[i]);
        crc := Combine(table[TableIndex(crc, buf[i])], crc);
      }
      FeedUnfold(crc, buf[|buf|..]);
      CrcUnfold(buf);
      crc := crc ^ 0xFFFF_FFFF;
    }
  }
}

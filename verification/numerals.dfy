/** Unsigned integers as little-endian bytes. */
module Numerals {
  /** The byte with number `n`, counted up to. */
  function ByteOf(n: nat): bv8
    requires n < 256
  {
    if n == 0 then 0 else Next(ByteOf(n - 1))
  }

  function Next(b: bv8): bv8 { b + 1 }

  function Number(b: bv8): (n: nat)
    ensures n < 256
  {
    b as int
  }

  lemma NextNumber(b: bv8)
    requires Number(b) < 255
    ensures Number(Next(b)) == Number(b) + 1
  {}

  lemma SameNumber(a: bv8, b: bv8)
    requires Number(a) == Number(b)
    ensures a == b
  {}

  lemma {:induction false} NumberOfByte(n: nat)
    requires n < 256
    ensures Number(ByteOf(n)) == n
  {
    hide Number, Next;
    if n == 0 {
      NumberOfZero();
    } else {
      NumberOfByte(n - 1);
      NextNumber(ByteOf(n - 1));
    }
  }

  lemma NumberOfZero()
    ensures Number(0) == 0
  {}

  lemma ByteOfNumber(b: bv8)
    ensures ByteOf(Number(b)) == b
  {
    hide ByteOf, Number;
    NumberOfByte(Number(b));
    SameNumber(ByteOf(Number(b)), b);
  }

  /** An unsigned integer in `width` bytes, least significant first. */
  function LeNat(n: nat, width: nat): (s: seq<bv8>)
    ensures |s| == width
  {
    if width == 0 then [] else [ByteOf(n % 256)] + LeNat(n / 256, width - 1)
  }

  function FromLeNat(s: seq<bv8>): nat {
    if |s| == 0 then 0 else Number(s[0]) + 256 * FromLeNat(s[1..])
  }

  function Pow256(width: nat): nat {
    if width == 0 then 1 else 256 * Pow256(width - 1)
  }

  lemma {:induction false} LeNatRoundTrip(n: nat, width: nat)
    requires n < Pow256(width)
    ensures FromLeNat(LeNat(n, width)) == n
    decreases width
  {
    hide ByteOf, Number;
    if width > 0 {
      NumberOfByte(n % 256);
      LeNatRoundTrip(n / 256, width - 1);
      assert LeNat(n, width)[1..] == LeNat(n / 256, width - 1);
    }
  }

  lemma {:induction false} FromLeNatRoundTrip(s: seq<bv8>)
    ensures FromLeNat(s) < Pow256(|s|)
    ensures LeNat(FromLeNat(s), |s|) == s
  {
    hide ByteOf, Number;
    if |s| > 0 {
      FromLeNatRoundTrip(s[1..]);
      LowByte(Number(s[0]), FromLeNat(s[1..]));
      ByteOfNumber(s[0]);
      assert s == [s[0]] + s[1..];
    }
  }

  lemma LowByte(low: nat, high: nat)
    requires low < 256
    ensures (low + 256 * high) / 256 == high && (low + 256 * high) % 256 == low
  {}

  lemma Widths()
    ensures Pow256(2) == 0x1_0000 && Pow256(4) == 0x1_0000_0000
  {
    assert Pow256(1) == 256 && Pow256(3) == 0x100_0000;
  }
}

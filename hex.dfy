/** Bytes, nibbles and the conversions the reader's protocol is built from:
    one ASCII hex character per nibble, a byte from a pair of nibbles, and
    the XOR that combines bytes into a checksum. */
module Hex {
  import opened Wrappers

  /** A value received from the serial line. */
  type Byte = x: int | 0 <= x < 256

  /** The value of one hex character. */
  type Nibble = x: int | 0 <= x < 16

  /** The characters Python's int(c, 16) accepts as a single digit. */
  predicate IsHexDigit(c: char) {
    ('0' <= c <= '9') || ('A' <= c <= 'F') || ('a' <= c <= 'f')
  }

  /** The digits the card reader sends: decimal digits and upper-case letters. */
  predicate IsUpperHexDigit(c: char) {
    ('0' <= c <= '9') || ('A' <= c <= 'F')
  }

  /** The character as it arrives on the wire (one byte per character). */
  function CharOf(b: Byte): (c: char)
    ensures c as int == b
  {
    b as char
  }

  /** int(c, 16) on a one-character string: None stands for the ValueError. */
  function HexNibble(c: char): (r: Option<Nibble>)
    ensures r.Some? <==> IsHexDigit(c)
    ensures r.Some? && IsUpperHexDigit(c) ==> HexDigit(r.value) == c
    ensures r.Some? && !IsUpperHexDigit(c) ==> HexDigit(r.value) as int == c as int - 32
  {
    if '0' <= c <= '9' then Some(c as int - '0' as int)
    else if 'A' <= c <= 'F' then Some(c as int - 'A' as int + 10)
    else if 'a' <= c <= 'f' then Some(c as int - 'a' as int + 10)
    else None
  }

  /** The upper-case hex character the reader sends for a nibble. */
  function HexDigit(n: Nibble): (c: char)
    ensures IsUpperHexDigit(c)
    ensures c as int < 128
  {
    if n < 10 then ('0' as int + n) as char else ('A' as int + n - 10) as char
  }

  /** Decoding the reader's character for a nibble gives the nibble back. */
  lemma HexDigitRoundTrip(n: Nibble)
    ensures HexNibble(HexDigit(n)) == Some(n)
  {
  }

  /** (hi << 4) + lo: a byte from its high and low nibble. */
  function PairByte(hi: Nibble, lo: Nibble): (r: Byte)
    ensures r / 16 == hi && r % 16 == lo
  {
    hi * 16 + lo
  }

  /** Two nibble pairs give the same byte only when they are the same pair. */
  lemma PairByteInjective(hi: Nibble, lo: Nibble, hi': Nibble, lo': Nibble)
    requires PairByte(hi, lo) == PairByte(hi', lo')
    ensures hi == hi' && lo == lo'
  {
  }

  /** 2 to the power w: the number of values of a w-bit field. */
  function Pow2(w: nat): (r: nat)
    ensures r >= 1
  {
    if w == 0 then 1 else 2 * Pow2(w - 1)
  }

  /** Width of a byte in bits. */
  const ByteBits: nat := 8

  lemma Pow2ByteBits()
    ensures Pow2(ByteBits) == 256
  {
    assert Pow2(4) == 16;
  }

  /** The exclusive or of the lowest bits of a and b. */
  function LowBitXor(a: nat, b: nat): (r: nat)
    ensures r < 2
    ensures r == 0 <==> a % 2 == b % 2
  {
    if a % 2 == b % 2 then 0 else 1
  }

  /** Bitwise exclusive or of the lowest w bits of a and b. */
  function XorBits(a: nat, b: nat, w: nat): (r: nat)
    ensures r < Pow2(w)
    decreases w
  {
    if w == 0 then 0 else LowBitXor(a, b) + 2 * XorBits(a / 2, b / 2, w - 1)
  }

  /** The inclusive or of the lowest bits of a and b. */
  function LowBitOr(a: nat, b: nat): (r: nat)
    ensures r < 2
  {
    if a % 2 == 1 || b % 2 == 1 then 1 else 0
  }

  /** Bitwise inclusive or of the lowest w bits of a and b. */
  function OrBits(a: nat, b: nat, w: nat): (r: nat)
    ensures r < Pow2(w)
    decreases w
  {
    if w == 0 then 0 else LowBitOr(a, b) + 2 * OrBits(a / 2, b / 2, w - 1)
  }

  /** Python's | on two values that fit in a byte. */
  function Or(a: Byte, b: Byte): (r: Byte)
  {
    Pow2ByteBits();
    OrBits(a, b, ByteBits)
  }

  /** Python's ^ on two values that fit in a byte. */
  function Xor(a: Byte, b: Byte): (r: Byte)
  {
    Pow2ByteBits();
    XorBits(a, b, ByteBits)
  }

  lemma SplitLowBit(bit: nat, t: nat)
    requires bit < 2
    ensures (bit + 2 * t) / 2 == t && (bit + 2 * t) % 2 == bit
  {
  }

  lemma Halve(a: nat, w: nat)
    requires w > 0 && a < Pow2(w)
    ensures a / 2 < Pow2(w - 1) && a == a % 2 + 2 * (a / 2)
  {
  }

  /** XOR-ing the same value twice restores a w-bit value. */
  lemma {:induction false} XorBitsCancel(a: nat, b: nat, w: nat)
    requires a < Pow2(w)
    ensures XorBits(XorBits(a, b, w), b, w) == a
    decreases w
  {
    if w > 0 {
      var t := XorBits(a / 2, b / 2, w - 1);
      var bit := LowBitXor(a, b);
      var x := XorBits(a, b, w);
      assert x == bit + 2 * t;
      SplitLowBit(bit, t);
      assert x / 2 == t && x % 2 == bit;
      Halve(a, w);
      XorBitsCancel(a / 2, b / 2, w - 1);
      assert XorBits(t, b / 2, w - 1) == a / 2;
      assert LowBitXor(x, b) == a % 2;
      assert XorBits(x, b, w) == LowBitXor(x, b) + 2 * XorBits(x / 2, b / 2, w - 1);
    }
  }

  lemma {:induction false} XorBitsCommutes(a: nat, b: nat, w: nat)
    ensures XorBits(a, b, w) == XorBits(b, a, w)
    decreases w
  {
    if w > 0 {
      XorBitsCommutes(a / 2, b / 2, w - 1);
    }
  }

  /** 0 is the neutral element: the checksum accumulator starts from it. */
  lemma {:induction false} XorBitsZero(a: nat, w: nat)
    requires a < Pow2(w)
    ensures XorBits(0, a, w) == a
    decreases w
  {
    if w > 0 {
      Halve(a, w);
      XorBitsZero(a / 2, w - 1);
    }
  }

  lemma XorCancel(a: Byte, b: Byte)
    ensures Xor(Xor(a, b), b) == a
  {
    Pow2ByteBits();
    XorBitsCancel(a, b, ByteBits);
  }

  lemma XorZero(a: Byte)
    ensures Xor(0, a) == a
  {
    Pow2ByteBits();
    XorBitsZero(a, ByteBits);
  }

  /** XOR-ing a fixed byte onto two different bytes, on either side, keeps
      them different. */
  lemma XorInjective(a: Byte, a': Byte, b: Byte)
    requires a != a'
    ensures Xor(a, b) != Xor(a', b)
    ensures Xor(b, a) != Xor(b, a')
  {
    XorCancel(a, b);
    XorCancel(a', b);
    XorBitsCommutes(a, b, ByteBits);
    XorBitsCommutes(a', b, ByteBits);
  }
}

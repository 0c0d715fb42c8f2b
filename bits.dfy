/**
 * The meeting point of the two number representations: message bytes are
 * integers, the checksum register is a `bv16`. A byte crosses over one
 * nibble at a time, through a sixteen-entry table, and back.
 */
module Bits {
  import opened Wire

  type nibble = x: int | 0 <= x < 0x10

  /** A four-bit number as register bits, counted up from zero. */
  function NibbleBits(n: nibble): bv16
    decreases n
  {
    if n == 0 then 0 else NibbleBits(n - 1) + 1
  }

  /** The sixteen values of `NibbleBits`. */
  lemma NibbleTable(n: nibble)
    ensures NibbleBits(n) == if n == 0 then 0x0 else if n == 1 then 0x1 else if n == 2 then 0x2 else if n == 3 then 0x3 else if n == 4 then 0x4 else if n == 5 then 0x5 else if n == 6 then 0x6 else if n == 7 then 0x7 else if n == 8 then 0x8 else if n == 9 then 0x9 else if n == 10 then 0xA else if n == 11 then 0xB else if n == 12 then 0xC else if n == 13 then 0xD else if n == 14 then 0xE else 0xF
  {
    assert NibbleBits(15) == 0xF;
  }

  lemma NibbleBitsBound(n: nibble)
    ensures NibbleBits(n) & !0xF == 0
  {
    NibbleTable(n);
  }

  /** The number held in four register bits. */
  function NibbleValue(x: bv16): nibble
    requires x & !0xF == 0
  {
    if x == 0x0 then 0 else if x == 0x1 then 1 else if x == 0x2 then 2 else if x == 0x3 then 3 else if x == 0x4 then 4 else if x == 0x5 then 5 else if x == 0x6 then 6 else if x == 0x7 then 7 else if x == 0x8 then 8 else if x == 0x9 then 9 else if x == 0xA then 10 else if x == 0xB then 11 else if x == 0xC then 12 else if x == 0xD then 13 else if x == 0xE then 14 else 15
  }

  lemma NibbleRoundTrip(n: nibble)
    ensures NibbleBits(n) & !0xF == 0 && NibbleValue(NibbleBits(n)) == n
  {
    NibbleTable(n);
  }

  lemma NibbleBitsRoundTrip(x: bv16)
    requires x & !0xF == 0
    ensures NibbleBits(NibbleValue(x)) == x
  {
    NibbleTable(NibbleValue(x));
  }

  /** A byte as the low eight bits of a register. */
  function ByteBits(b: byte): (r: bv16)
    ensures r & !0xFF == 0
  {
    NibbleBitsBound(b / 0x10);
    NibbleBitsBound(b % 0x10);
    (NibbleBits(b / 0x10) << 4) | NibbleBits(b % 0x10)
  }

  /** The byte held in the low eight bits of a register. */
  function LowByte(x: bv16): byte
  {
    0x10 * NibbleValue((x >> 4) & 0xF) + NibbleValue(x & 0xF)
  }

  lemma SplitNibbles(x: bv16, hi: bv16, lo: bv16)
    requires hi & !0xF == 0 && lo & !0xF == 0 && x == (hi << 4) | lo
    ensures (x >> 4) & 0xF == hi && x & 0xF == lo
  {
  }

  lemma ByteRoundTrip(b: byte)
    ensures LowByte(ByteBits(b)) == b
  {
    NibbleBitsBound(b / 0x10);
    NibbleBitsBound(b % 0x10);
    SplitNibbles(ByteBits(b), NibbleBits(b / 0x10), NibbleBits(b % 0x10));
    NibbleRoundTrip(b / 0x10);
    NibbleRoundTrip(b % 0x10);
  }

  lemma JoinNibbles(x: bv16)
    ensures (((x >> 4) & 0xF) << 4) | (x & 0xF) == x & 0xFF
  {
  }

  lemma LowByteRoundTrip(x: bv16)
    ensures ByteBits(LowByte(x)) == x & 0xFF
  {
    var hi, lo := NibbleValue((x >> 4) & 0xF), NibbleValue(x & 0xF);
    assert LowByte(x) / 0x10 == hi && LowByte(x) % 0x10 == lo;
    NibbleBitsRoundTrip((x >> 4) & 0xF);
    NibbleBitsRoundTrip(x & 0xF);
    JoinNibbles(x);
  }

  /** Distinct bytes enter the register as distinct bit patterns. */
  lemma ByteBitsInjective(b: byte, b': byte)
    requires ByteBits(b) == ByteBits(b')
    ensures b == b'
  {
    ByteRoundTrip(b);
    ByteRoundTrip(b');
  }
}

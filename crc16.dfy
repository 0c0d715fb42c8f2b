/**
 * The kernel's `crc16()` as the PMU core uses it: the reflected form of the
 * polynomial 0x8005 (0xA001 bit-reversed), processed least significant bit
 * first, with the register passed in and no final XOR. Started from 0xFFFF
 * these are the parameters catalogued as CRC-16/MODBUS.
 */
module Crc16 {
  import opened Wire
  import opened Bits

  /** The register as the unsigned 16-bit number the frame foot carries: low byte plus 256 times high byte. */
  function Value(c: bv16): (r: u16)
    ensures r % 0x100 == LowByte(c) && r / 0x100 == LowByte(c >> 8)
  {
    LowByte(c) + 0x100 * LowByte(c >> 8)
  }

  lemma BytesDetermineRegister(c: bv16, d: bv16)
    requires c & 0xFF == d & 0xFF && c >> 8 == d >> 8
    ensures c == d
  {
  }

  lemma LowBytesDetermineRegister(c: bv16, d: bv16)
    requires LowByte(c) == LowByte(d) && LowByte(c >> 8) == LowByte(d >> 8)
    ensures c == d
  {
    assert c & 0xFF == d & 0xFF by {
      LowByteRoundTrip(c);
      LowByteRoundTrip(d);
    }
    assert c >> 8 == d >> 8 by {
      LowByteRoundTrip(c >> 8);
      LowByteRoundTrip(d >> 8);
      HighByte(c);
      HighByte(d);
    }
    BytesDetermineRegister(c, d);
  }

  /** Distinct registers are stored as distinct foot values. */
  lemma ValueInjective(c: bv16, d: bv16)
    requires Value(c) == Value(d)
    ensures c == d
  {
    assert LowByte(c) == LowByte(d) && LowByte(c >> 8) == LowByte(d >> 8);
    LowBytesDetermineRegister(c, d);
  }

  /** One shift of the register: drop the low bit, and fold in the polynomial when it was set. */
  function Shift(c: bv16): bv16
  {
    if c & 1 == 1 then (c >> 1) ^ 0xA001 else c >> 1
  }

  function Shift8(c: bv16): bv16
  {
    Shift(Shift(Shift(Shift(Shift(Shift(Shift(Shift(c))))))))
  }

  /** One input byte: XOR it into the low end of the register, then eight shifts. */
  function Step(c: bv16, b: byte): bv16
  {
    Shift8(c ^ ByteBits(b))
  }

  /** crc16(crc, data, len): the register after feeding `data` one byte at a time, first byte first. */
  function Crc(crc: bv16, data: seq<byte>): bv16
    decreases |data|
  {
    if |data| == 0 then crc else Crc(Step(crc, data[0]), data[1..])
  }

  // ---------------------------------------------------------------------
  // Properties of the checksum
  // ---------------------------------------------------------------------

  /** The register can be carried from one chunk to the next: this is what lets a frame be summed in pieces. */
  lemma {:induction false} Chaining(crc: bv16, a: seq<byte>, b: seq<byte>)
    ensures Crc(Crc(crc, a), b) == Crc(crc, a + b)
    decreases |a|
  {
    if |a| == 0 {
      assert a + b == b;
    } else {
      assert (a + b)[0] == a[0];
      assert (a + b)[1..] == a[1..] + b;
      Chaining(Step(crc, a[0]), a[1..], b);
    }
  }

  lemma ShiftInjective(x: bv16, y: bv16)
    requires Shift(x) == Shift(y)
    ensures x == y
  {
  }

  lemma Shift8Injective(x: bv16, y: bv16)
    requires Shift8(x) == Shift8(y)
    ensures x == y
  {
    ShiftInjective(Shift(Shift(Shift(Shift(Shift(Shift(Shift(x))))))), Shift(Shift(Shift(Shift(Shift(Shift(Shift(y))))))));
    ShiftInjective(Shift(Shift(Shift(Shift(Shift(Shift(x)))))), Shift(Shift(Shift(Shift(Shift(Shift(y)))))));
    ShiftInjective(Shift(Shift(Shift(Shift(Shift(x))))), Shift(Shift(Shift(Shift(Shift(y))))));
    ShiftInjective(Shift(Shift(Shift(Shift(x)))), Shift(Shift(Shift(Shift(y)))));
    ShiftInjective(Shift(Shift(Shift(x))), Shift(Shift(Shift(y))));
    ShiftInjective(Shift(Shift(x)), Shift(Shift(y)));
    ShiftInjective(Shift(x), Shift(y));
    ShiftInjective(x, y);
  }

  lemma XorCancel(c: bv16, x: bv16, y: bv16)
    requires c ^ x == c ^ y
    ensures x == y
  {
  }

  lemma StepInput(c: bv16, d: bv16, b: byte, b': byte)
    requires Step(c, b) == Step(d, b')
    ensures c ^ ByteBits(b) == d ^ ByteBits(b')
  {
    Shift8Injective(c ^ ByteBits(b), d ^ ByteBits(b'));
  }

  /** Feeding the same byte to two different registers leaves two different registers. */
  lemma StepSeparatesRegisters(c: bv16, d: bv16, b: byte)
    requires c != d
    ensures Step(c, b) != Step(d, b)
  {
    if Step(c, b) == Step(d, b) {
      StepInput(c, d, b, b);
      XorCancel(ByteBits(b), c, d);
    }
  }

  /** Feeding two different bytes to the same register leaves two different registers. */
  lemma StepSeparatesBytes(c: bv16, b: byte, b': byte)
    requires b != b'
    ensures Step(c, b) != Step(c, b')
  {
    if Step(c, b) == Step(c, b') {
      StepInput(c, c, b, b');
      XorCancel(c, ByteBits(b), ByteBits(b'));
      ByteBitsInjective(b, b');
    }
  }

  /** Two registers that differ stay different whatever bytes follow. */
  lemma {:induction false} Crc16Injective(c: bv16, d: bv16, data: seq<byte>)
    requires c != d
    ensures Crc(c, data) != Crc(d, data)
    decreases |data|
  {
    if |data| > 0 {
      StepSeparatesRegisters(c, d, data[0]);
      Crc16Injective(Step(c, data[0]), Step(d, data[0]), data[1..]);
    }
  }

  /** Changing any one byte of a message changes its checksum. */
  lemma SingleByteChangeDetected(crc: bv16, pre: seq<byte>, b: byte, b': byte, post: seq<byte>)
    requires b != b'
    ensures Crc(crc, pre + [b] + post) != Crc(crc, pre + [b'] + post)
  {
    var c := Crc(crc, pre);
    StepSeparatesBytes(c, b, b');
    Crc16Injective(Step(c, b), Step(c, b'), post);
    assert ([b] + post)[1..] == post;
    assert ([b'] + post)[1..] == post;
    Chaining(crc, pre, [b] + post);
    Chaining(crc, pre, [b'] + post);
    assert pre + [b] + post == pre + ([b] + post);
    assert pre + [b'] + post == pre + ([b'] + post);
  }

  lemma Residue(c: bv16)
    ensures Shift8(Shift8(c ^ (c & 0xFF)) ^ (c >> 8)) == 0
  {
  }

  lemma HighByte(c: bv16)
    ensures (c >> 8) & 0xFF == c >> 8
  {
  }

  /** Feeding a register its own low byte and then its own high byte clears it. */
  lemma OwnBytesClear(c: bv16)
    ensures Step(Step(c, LowByte(c)), LowByte(c >> 8)) == 0
  {
    assert ByteBits(LowByte(c)) == c & 0xFF by {
      LowByteRoundTrip(c);
    }
    assert ByteBits(LowByte(c >> 8)) == c >> 8 by {
      LowByteRoundTrip(c >> 8);
      HighByte(c);
    }
    Residue(c);
  }

  lemma Crc16OfTwo(c: bv16, x: byte, y: byte)
    ensures Crc(c, [x, y]) == Step(Step(c, x), y)
  {
    assert [x, y][1..] == [y] && [y][1..] == [];
    assert Crc(c, [x, y]) == Crc(Step(c, x), [y]);
    assert Crc(Step(c, x), [y]) == Crc(Step(Step(c, x), y), []);
  }

  /** Appending the register, low byte first, to the message it covers brings the register to zero. */
  lemma AppendedChecksumLeavesZero(crc: bv16, data: seq<byte>)
    ensures Crc(crc, data + LE16(Value(Crc(crc, data)))) == 0
  {
    var c := Crc(crc, data);
    assert LE16(Value(c)) == [LowByte(c), LowByte(c >> 8)];
    Chaining(crc, data, [LowByte(c), LowByte(c >> 8)]);
    Crc16OfTwo(c, LowByte(c), LowByte(c >> 8));
    OwnBytesClear(c);
  }

  /** The catalogue's check value for CRC-16/MODBUS: the ASCII digits "123456789". */
  lemma ModbusCheckValue()
    ensures Crc(0xFFFF, [0x31, 0x32, 0x33, 0x34, 0x35, 0x36, 0x37, 0x38, 0x39]) == 0x4B37
  {
    var s: seq<byte> := [0x31, 0x32, 0x33, 0x34, 0x35, 0x36, 0x37, 0x38, 0x39];
    assert ByteBits(0x31) == 0x31 && ByteBits(0x32) == 0x32 && ByteBits(0x33) == 0x33;
    assert ByteBits(0x34) == 0x34 && ByteBits(0x35) == 0x35 && ByteBits(0x36) == 0x36;
    assert ByteBits(0x37) == 0x37 && ByteBits(0x38) == 0x38 && ByteBits(0x39) == 0x39;
    assert Step(0xFFFF, 0x31) == 0x947E;
    assert Step(0x947E, 0x32) == 0xF595;
    assert Step(0xF595, 0x33) == 0x7A75;
    assert Step(0x7A75, 0x34) == 0x30BA;
    assert Step(0x30BA, 0x35) == 0xA471;
    assert Step(0xA471, 0x36) == 0x32E4;
    assert Step(0x32E4, 0x37) == 0x9D73;
    assert Step(0x9D73, 0x38) == 0x37DD;
    assert Step(0x37DD, 0x39) == 0x4B37;
    assert s[1..][1..][1..][1..][1..][1..][1..][1..][1..] == [];
  }
}

/**
 * The frame format of drivers/mfd/photonicat-pmu.c: how `pcat_pmu_raw_write`
 * lays a frame out on the wire, and how `pcat_process_data` classifies the
 * bytes gathered so far in the receive buffer.
 *
 * A frame is the 9-byte head, the payload and the 4-byte foot. The head's
 * `length` counts the payload plus the foot minus one; the checksum covers
 * everything from the head's second byte up to and including the foot's
 * `need_ack` byte.
 */
module Codec {
  import opened Wire
  import opened Crc16

  const ADDR_CPU: byte := 0x01
  const ADDR_PMU: byte := 0x81
  const ADDR_CPU_ALL: byte := 0x80
  const ADDR_PMU_ALL: byte := 0xFE
  const ADDR_ALL: byte := 0xFF

  const MAGIC_HEAD: byte := 0xA5
  const MAGIC_END: byte := 0x5A

  const U16_MAX: nat := 0xFFFF

  const EAGAIN: int := 11
  const EBADMSG: int := 74

  /** A received frame: the head, the foot and the payload between them (struct pcat_data). */
  datatype Frame = Frame(head: Head, foot: Foot, data: seq<byte>)

  /** What `pcat_process_data` makes of a buffer. */
  datatype Decoded =
    | NeedMore          // -EAGAIN: the buffer is kept and more bytes are awaited
    | Corrupt           // -EBADMSG
    | Ignored           // 0 before any dispatch: a frame from or for someone else
    | Valid(frame: Frame)

  /** The value `process_data` returns for a classification (a valid frame also gives 0). */
  function DecodeStatus(d: Decoded): (r: int)
    ensures r == 0 || r == -EAGAIN || r == -EBADMSG
    ensures r == -EAGAIN <==> d == NeedMore
  {
    match d
    case NeedMore => -EAGAIN
    case Corrupt => -EBADMSG
    case Ignored => 0
    case Valid(_) => 0
  }

  /** crc16(0xFFFF, b, |b|), as the foot stores it. */
  function Checksum(b: seq<byte>): u16
  {
    Value(Crc(0xFFFF, b))
  }

  /** A frame's bytes on the wire: head, payload, foot. */
  function Serialize(f: Frame): (r: seq<byte>)
    ensures |r| == HeadSize + |f.data| + FootSize
  {
    SerializeHead(f.head) + f.data + SerializeFoot(f.foot)
  }

  /** The bytes the checksum covers: everything after the head's first byte, up to and including `need_ack`. */
  function Covered(f: Frame): (r: seq<byte>)
    ensures |r| == |f.data| + 9
  {
    (SerializeHead(f.head) + f.data + [f.foot.needAck])[1..]
  }

  /**
   * A frame as a sender seals it: both magics, a length that counts the
   * payload, and in the foot the value `sum` gives for the covered bytes.
   */
  predicate SealedBy(f: Frame, sum: seq<byte> -> u16)
  {
    && f.head.magicHead == MAGIC_HEAD
    && f.head.length == |f.data| + FootSize - 1
    && f.foot.magicEnd == MAGIC_END
    && f.foot.crc16 == sum(Covered(f))
  }

  /** Sealed with crc16, as the driver and the PMU do. */
  predicate Sealed(f: Frame)
  {
    SealedBy(f, Checksum)
  }

  /** The checksum summed in three chunks, as `pcat_pmu_raw_write` does: head bytes 1..8, the payload, `need_ack`. */
  function ChunkedChecksum(h: Head, payload: seq<byte>, needAck: byte): u16
  {
    Value(Crc(Crc(Crc(0xFFFF, SerializeHead(h)[1..]), payload), [needAck]))
  }

  /**
   * The frame `pcat_pmu_raw_write` builds: the head with `length` truncated
   * to the u16 field, the payload, and a foot carrying the chunked checksum.
   */
  function Seal(source: byte, dest: byte, frameId: u16, command: u16, needAck: byte, payload: seq<byte>): (f: Frame)
    ensures f.head == Head(MAGIC_HEAD, source, dest, frameId, (|payload| + FootSize - 1) % 0x1_0000, command)
    ensures f.data == payload && f.foot.needAck == needAck && f.foot.magicEnd == MAGIC_END
  {
    var h := Head(MAGIC_HEAD, source, dest, frameId, (|payload| + FootSize - 1) % 0x1_0000, command);
    Frame(h, Foot(needAck, ChunkedChecksum(h, payload, needAck), MAGIC_END), payload)
  }

  /** What `pcat_pmu_raw_write` builds is sealed whenever the length fits the head's u16 field. */
  lemma SealIsSealed(source: byte, dest: byte, frameId: u16, command: u16, needAck: byte, payload: seq<byte>)
    requires |payload| + FootSize - 1 <= U16_MAX
    ensures Sealed(Seal(source, dest, frameId, command, needAck, payload))
  {
    ChunkedChecksumIsWhole(Seal(source, dest, frameId, command, needAck, payload));
  }

  function AckByte(needAck: bool): byte
  {
    if needAck then 1 else 0
  }

  /**
   * The bytes `pcat_pmu_raw_write` emits: from the CPU to the PMU, the head,
   * the payload, then `need_ack`, the checksum of everything after the first
   * byte, and the end magic.
   */
  function Encode(frameId: u16, command: u16, needAck: bool, payload: seq<byte>): (r: seq<byte>)
    ensures |r| == |payload| + HeadSize + FootSize
  {
    Serialize(Seal(ADDR_CPU, ADDR_PMU, frameId, command, AckByte(needAck), payload))
  }

  /** Where `Encode` puts each field, and the checksum it carries. */
  lemma EncodeLayout(frameId: u16, command: u16, needAck: bool, payload: seq<byte>)
    ensures var r := Encode(frameId, command, needAck, payload);
      && r[..3] == [MAGIC_HEAD, ADDR_CPU, ADDR_PMU]
      && r[3..5] == LE16(frameId) && r[5..7] == LE16((|payload| + 3) % 0x1_0000) && r[7..9] == LE16(command)
      && r[9..9 + |payload|] == payload
      && r[9 + |payload|] == AckByte(needAck) && r[12 + |payload|] == MAGIC_END
      && r[10 + |payload|..12 + |payload|] == LE16(Checksum(r[1..10 + |payload|]))
  {
    var f := Seal(ADDR_CPU, ADDR_PMU, frameId, command, AckByte(needAck), payload);
    Layout(f);
    ChunkedChecksumIsWhole(f);
  }

  /** Only frames from the PMU, addressed to this CPU, to all CPUs or to everyone, are taken. */
  predicate ForThisHost(h: Head)
  {
    h.source == ADDR_PMU && (h.dest == ADDR_CPU || h.dest == ADDR_CPU_ALL || h.dest == ADDR_ALL)
  }

  /** `pcat_process_data`'s classification of the buffer, with crc16 as the checksum. */
  function Decode(b: seq<byte>): Decoded
  {
    DecodeBy(b, Checksum)
  }

  /**
   * The checks of `pcat_process_data` in the order the driver makes them,
   * for any checksum function `sum`: none of the framing depends on which
   * checksum is used.
   */
  function DecodeBy(b: seq<byte>, sum: seq<byte> -> u16): (r: Decoded)
    ensures r.Valid? ==> ForThisHost(r.frame.head) && r.frame.head.magicHead == MAGIC_HEAD
    ensures r.Valid? ==> |r.frame.data| + FootSize - 1 == r.frame.head.length && r.frame.foot.magicEnd == MAGIC_END
    ensures r.Valid? ==> |r.frame.data| + HeadSize + FootSize <= |b|
  {
    if |b| < HeadSize then NeedMore
    else
      var h := ParseHead(b);
      if h.magicHead != MAGIC_HEAD then Corrupt
      else if h.source != ADDR_PMU then Ignored
      else if h.dest != ADDR_CPU && h.dest != ADDR_CPU_ALL && h.dest != ADDR_ALL then Ignored
      else if h.length < FootSize - 1 || h.length >= U16_MAX - 4 then Corrupt
      else if HeadSize + h.length + 1 > |b| then NeedMore
      else
        var size := h.length + 1 - FootSize;
        var f := ParseFoot(b[HeadSize + size..]);
        if f.magicEnd != MAGIC_END then Corrupt
        else if f.crc16 != sum(b[1..h.length + 7]) then Corrupt
        else Valid(Frame(h, f, b[HeadSize..HeadSize + size]))
  }

  // ---------------------------------------------------------------------
  // Layout and checksum
  // ---------------------------------------------------------------------

  /** The three chunks sum to the single checksum the receiver computes over the covered bytes. */
  lemma ChunkedChecksumIsWhole(f: Frame)
    ensures ChunkedChecksum(f.head, f.data, f.foot.needAck) == Checksum(Covered(f))
  {
    var hb := SerializeHead(f.head)[1..];
    Chaining(0xFFFF, hb, f.data);
    Chaining(0xFFFF, hb + f.data, [f.foot.needAck]);
    assert Covered(f) == hb + f.data + [f.foot.needAck];
  }

  /** Where each field of a frame lies in its bytes. */
  lemma Layout(f: Frame)
    ensures var r := Serialize(f);
      var h, n := f.head, |f.data|;
      && r[..HeadSize] == SerializeHead(h) && r[9..9 + n] == f.data && r[9 + n..] == SerializeFoot(f.foot)
      && r[..3] == [h.magicHead, h.source, h.dest]
      && r[3..5] == LE16(h.frameId) && r[5..7] == LE16(h.length) && r[7..9] == LE16(h.command)
      && r[1..10 + n] == Covered(f)
      && r[9 + n] == f.foot.needAck && r[10 + n..12 + n] == LE16(f.foot.crc16) && r[12 + n] == f.foot.magicEnd
  {
    var r := Serialize(f);
    var n := |f.data|;
    var hb := SerializeHead(f.head);
    assert r[..HeadSize] == hb;
    assert r[..3] == hb[..3] && r[3..5] == hb[3..5] && r[5..7] == hb[5..7] && r[7..9] == hb[7..9];
    assert r[9 + n..] == SerializeFoot(f.foot);
    assert r[10 + n..12 + n] == SerializeFoot(f.foot)[1..3];
    assert r[..10 + n] == hb + f.data + [f.foot.needAck];
  }

  // ---------------------------------------------------------------------
  // Decoding, for any checksum function
  // ---------------------------------------------------------------------

  /**
   * The buffer is kept for more bytes exactly when it is shorter than a head,
   * or when it starts a well-formed frame for this host whose declared
   * length runs past the bytes at hand.
   */
  lemma NeedMoreExactly(b: seq<byte>, sum: seq<byte> -> u16)
    ensures DecodeBy(b, sum) == NeedMore <==>
      || |b| < HeadSize
      || (var h := ParseHead(b);
          && h.magicHead == MAGIC_HEAD && ForThisHost(h)
          && FootSize - 1 <= h.length < U16_MAX - 4 && |b| < HeadSize + h.length + 1)
  {
  }

  /**
   * A head from someone else, or for someone else, is ignored as soon as the
   * head has arrived, before its length is looked at and whatever follows.
   */
  lemma ForeignFrameIgnored(b: seq<byte>, rest: seq<byte>, sum: seq<byte> -> u16)
    requires |b| >= HeadSize && ParseHead(b).magicHead == MAGIC_HEAD && !ForThisHost(ParseHead(b))
    ensures DecodeBy(b + rest, sum) == Ignored
  {
    assert (b + rest)[..HeadSize] == b[..HeadSize];
    HeadBytesRoundTrip(b);
    HeadBytesRoundTrip(b + rest);
    assert SerializeHead(ParseHead(b + rest)) == SerializeHead(ParseHead(b));
    HeadRoundTrip(ParseHead(b));
    HeadRoundTrip(ParseHead(b + rest));
  }

  /** A buffer whose first byte is not the head magic is corrupt, whatever follows. */
  lemma HeadMagicCorrupt(b: seq<byte>, sum: seq<byte> -> u16)
    requires |b| >= HeadSize && b[0] != MAGIC_HEAD
    ensures DecodeBy(b, sum) == Corrupt
  {
  }

  /**
   * A complete frame for this host with a valid length whose last byte is not
   * the end magic is corrupt, before its checksum is looked at.
   */
  lemma EndMagicCorrupt(b: seq<byte>, sum: seq<byte> -> u16)
    requires |b| >= HeadSize
    requires var h := ParseHead(b);
      && h.magicHead == MAGIC_HEAD && ForThisHost(h) && FootSize - 1 <= h.length < U16_MAX - 4
      && HeadSize + h.length + 1 <= |b| && b[h.length + 9] != MAGIC_END
    ensures DecodeBy(b, sum) == Corrupt
  {
  }

  /**
   * A head for this host declaring a length below 3 or from U16_MAX - 4 on
   * is corrupt however many bytes are at hand: the bound is the u16 range,
   * not the receive buffer.
   */
  lemma BadLengthCorrupt(b: seq<byte>, sum: seq<byte> -> u16)
    requires |b| >= HeadSize
    requires var h := ParseHead(b);
      h.magicHead == MAGIC_HEAD && ForThisHost(h) && (h.length < FootSize - 1 || h.length >= U16_MAX - 4)
    ensures DecodeBy(b, sum) == Corrupt
  {
  }

  lemma DecodeSerializedBy(f: Frame, rest: seq<byte>, sum: seq<byte> -> u16)
    requires SealedBy(f, sum) && ForThisHost(f.head) && f.head.length < U16_MAX - 4
    ensures DecodeBy(Serialize(f) + rest, sum) == Valid(f)
  {
    var r := Serialize(f);
    var b := r + rest;
    var h, n := f.head, |f.data|;
    Layout(f);
    assert b[..HeadSize] == r[..HeadSize];
    HeadRoundTrip(h);
    assert ParseHead(b) == ParseHead(b[..HeadSize]);
    assert b[HeadSize + n..][..FootSize] == r[9 + n..];
    FootRoundTrip(f.foot);
    assert ParseFoot(b[HeadSize + n..]) == ParseFoot(b[HeadSize + n..][..FootSize]);
    assert b[1..h.length + 7] == r[1..10 + n];
    assert b[HeadSize..HeadSize + n] == f.data;
  }

  lemma ValidIsSerializedBy(b: seq<byte>, sum: seq<byte> -> u16)
    requires DecodeBy(b, sum).Valid?
    ensures var f := DecodeBy(b, sum).frame;
      |f.data| + 13 <= |b| && SealedBy(f, sum) && b[..|f.data| + 13] == Serialize(f)
  {
    var f := DecodeBy(b, sum).frame;
    var h, n := f.head, |f.data|;
    HeadBytesRoundTrip(b);
    FootBytesRoundTrip(b[HeadSize + n..]);
    assert b[..n + 13] == b[..HeadSize] + f.data + b[HeadSize + n..][..FootSize];
    Layout(f);
    assert b[1..h.length + 7] == b[..n + 13][1..10 + n];
  }

  lemma PrefixNeedsMoreBy(f: Frame, k: nat, sum: seq<byte> -> u16)
    requires SealedBy(f, sum) && ForThisHost(f.head) && f.head.length < U16_MAX - 4
    requires k < |f.data| + 13
    ensures DecodeBy(Serialize(f)[..k], sum) == NeedMore
  {
    var r := Serialize(f);
    if k >= HeadSize {
      Layout(f);
      HeadRoundTrip(f.head);
      assert r[..k][..HeadSize] == r[..HeadSize];
      assert ParseHead(r[..k]) == ParseHead(r[..HeadSize]);
    }
  }

  lemma ExtendedSlice(b: seq<byte>, more: seq<byte>, i: nat, j: nat)
    requires i <= j <= |b|
    ensures (b + more)[i..j] == b[i..j]
  {
  }

  lemma DecisionStableBy(b: seq<byte>, more: seq<byte>, sum: seq<byte> -> u16)
    requires DecodeBy(b, sum) != NeedMore
    ensures DecodeBy(b + more, sum) == DecodeBy(b, sum)
  {
    var c := b + more;
    assert ParseHead(c) == ParseHead(b);
    var h := ParseHead(b);
    if ForThisHost(h) && h.magicHead == MAGIC_HEAD && FootSize - 1 <= h.length < U16_MAX - 4 {
      var size := h.length + 1 - FootSize;
      assert ParseFoot(c[HeadSize + size..]) == ParseFoot(b[HeadSize + size..]);
      ExtendedSlice(b, more, 1, h.length + 7);
      ExtendedSlice(b, more, HeadSize, HeadSize + size);
    }
  }

  /** A frame whose covered bytes change while its head and foot stay put fails the checksum test. */
  lemma ChecksumMismatchCorruptBy(r: seq<byte>, r': seq<byte>, sum: seq<byte> -> u16)
    requires DecodeBy(r, sum).Valid? && |r'| == |r| == |DecodeBy(r, sum).frame.data| + 13
    requires r'[..HeadSize] == r[..HeadSize]
    requires var n := |DecodeBy(r, sum).frame.data|;
      r'[HeadSize + n..] == r[HeadSize + n..] && sum(r'[1..10 + n]) != sum(r[1..10 + n])
    ensures DecodeBy(r', sum) == Corrupt
  {
    var n := |DecodeBy(r, sum).frame.data|;
    assert ParseHead(r') == ParseHead(r) by {
      HeadBytesRoundTrip(r);
      HeadBytesRoundTrip(r');
    }
    assert ParseFoot(r'[HeadSize + n..]) == ParseFoot(r[HeadSize + n..]);
  }

  /** A payload byte changed so that the covered bytes sum differently: the decoder rejects the frame as corrupt. */
  lemma PayloadChangeCorruptBy(f: Frame, i: nat, b': byte, sum: seq<byte> -> u16)
    requires SealedBy(f, sum) && ForThisHost(f.head) && f.head.length < U16_MAX - 4
    requires i < |f.data|
    requires var r := Serialize(f);
      sum(r[HeadSize + i := b'][1..10 + |f.data|]) != sum(r[1..10 + |f.data|])
    ensures DecodeBy(Serialize(f)[HeadSize + i := b'], sum) == Corrupt
  {
    var r := Serialize(f);
    var r' := r[HeadSize + i := b'];
    DecodeSerializedBy(f, [], sum);
    assert r + [] == r;
    assert r'[..HeadSize] == r[..HeadSize];
    assert r'[HeadSize + |f.data|..] == r[HeadSize + |f.data|..];
    ChecksumMismatchCorruptBy(r, r', sum);
  }

  // ---------------------------------------------------------------------
  // Decoding with crc16
  // ---------------------------------------------------------------------

  /** A sealed frame for this host decodes to itself, whatever bytes follow it. */
  lemma DecodeSerialized(f: Frame, rest: seq<byte>)
    requires Sealed(f) && ForThisHost(f.head) && f.head.length < U16_MAX - 4
    ensures Decode(Serialize(f) + rest) == Valid(f)
  {
    DecodeSerializedBy(f, rest, Checksum);
  }

  /** What decodes as a valid frame is a sealed frame, and the bytes it took are exactly that frame's bytes. */
  lemma ValidIsSerialized(b: seq<byte>)
    requires Decode(b).Valid?
    ensures var f := Decode(b).frame;
      |f.data| + 13 <= |b| && Sealed(f) && b[..|f.data| + 13] == Serialize(f)
  {
    ValidIsSerializedBy(b, Checksum);
  }

  /** What the PMU seals for this host, the host decodes back to the same frame, whatever follows it. */
  lemma DecodeSealed(dest: byte, frameId: u16, command: u16, needAck: byte, payload: seq<byte>, rest: seq<byte>)
    requires dest == ADDR_CPU || dest == ADDR_CPU_ALL || dest == ADDR_ALL
    requires |payload| + FootSize - 1 < U16_MAX - 4
    ensures var f := Seal(ADDR_PMU, dest, frameId, command, needAck, payload);
      Decode(Serialize(f) + rest) == Valid(f)
  {
    SealIsSealed(ADDR_PMU, dest, frameId, command, needAck, payload);
    DecodeSerialized(Seal(ADDR_PMU, dest, frameId, command, needAck, payload), rest);
  }

  /** The host's own frames come from address 0x01, so its decoder ignores them. */
  lemma DecodeOwnFrameIgnored(frameId: u16, command: u16, needAck: bool, payload: seq<byte>, rest: seq<byte>)
    ensures Decode(Encode(frameId, command, needAck, payload) + rest) == Ignored
  {
    var b := Encode(frameId, command, needAck, payload) + rest;
    EncodeLayout(frameId, command, needAck, payload);
    assert b[..3] == [MAGIC_HEAD, ADDR_CPU, ADDR_PMU];
    assert ParseHead(b).source == b[1] == ADDR_CPU;
  }

  /** No proper prefix of a frame for this host is taken for anything but a frame still arriving. */
  lemma PrefixNeedsMore(f: Frame, k: nat)
    requires Sealed(f) && ForThisHost(f.head) && f.head.length < U16_MAX - 4
    requires k < |f.data| + 13
    ensures Decode(Serialize(f)[..k]) == NeedMore
  {
    PrefixNeedsMoreBy(f, k, Checksum);
  }

  /** Once the decoder has decided anything but "need more", later bytes do not change its mind. */
  lemma DecisionStable(b: seq<byte>, more: seq<byte>)
    requires Decode(b) != NeedMore
    ensures Decode(b + more) == Decode(b)
  {
    DecisionStableBy(b, more, Checksum);
  }

  lemma CoveredByteChecksumDiffers(r: seq<byte>, r': seq<byte>, i: nat, n: nat)
    requires |r'| == |r| == n + 13 && 1 <= i < 10 + n && r' == r[i := r'[i]] && r'[i] != r[i]
    ensures Checksum(r'[1..10 + n]) != Checksum(r[1..10 + n])
  {
    var pre := r[1..i];
    var post := r[i + 1..10 + n];
    assert r[1..10 + n] == pre + [r[i]] + post;
    assert r'[1..10 + n] == pre + [r'[i]] + post;
    SingleByteChangeDetected(0xFFFF, pre, r[i], r'[i], post);
    if Checksum(r'[1..10 + n]) == Checksum(r[1..10 + n]) {
      ValueInjective(Crc(0xFFFF, r[1..10 + n]), Crc(0xFFFF, r'[1..10 + n]));
    }
  }

  /** Changing one payload byte of a sealed frame for this host makes the decoder reject it as corrupt. */
  lemma PayloadChangeDetected(f: Frame, i: nat, b': byte)
    requires Sealed(f) && ForThisHost(f.head) && f.head.length < U16_MAX - 4
    requires i < |f.data| && b' != f.data[i]
    ensures Decode(Serialize(f)[HeadSize + i := b']) == Corrupt
  {
    var r := Serialize(f);
    assert r[HeadSize + i] == f.data[i] by {
      Layout(f);
    }
    CoveredByteChecksumDiffers(r, r[HeadSize + i := b'], HeadSize + i, |f.data|);
    PayloadChangeCorruptBy(f, i, b', Checksum);
  }
}

/**
 * The fixed 20-byte TCP header of RFC 9293 section 3.1: ports, sequence and
 * acknowledgment numbers, data offset and reserved bits packed into byte 12,
 * the eight control bits CWR..FIN in byte 13, window, checksum and urgent
 * pointer.
 */
module TcpHeaderCodec {
  import opened Bytes

  /** The eight control bits; byte 13 holds them with FIN in bit 0 and CWR in bit 7. */
  datatype TcpFlags = TcpFlags(cwr: bool, ece: bool, urg: bool, ack: bool, psh: bool, rst: bool, syn: bool, fin: bool)
  {
    /** `TcpFlags::new`: every bit clear. */
    static function New(): (f: TcpFlags)
      ensures f.Bits() == 0
    {
      TcpFlags(false, false, false, false, false, false, false, false)
    }

    /**
     * The flag byte as `to_u16` builds it: one bit per flag. Unlike the other
     * bytes of the model it is a `bv8`, so that its ORs and masks stay bitwise.
     */
    function Bits(): (v: bv8)
      ensures (v & 0x01 != 0) == fin && (v & 0x02 != 0) == syn
      ensures (v & 0x04 != 0) == rst && (v & 0x08 != 0) == psh
      ensures (v & 0x10 != 0) == ack && (v & 0x20 != 0) == urg
      ensures (v & 0x40 != 0) == ece && (v & 0x80 != 0) == cwr
    {
      (if fin then 0x01 else 0) | (if syn then 0x02 else 0)
      | (if rst then 0x04 else 0) | (if psh then 0x08 else 0)
      | (if ack then 0x10 else 0) | (if urg then 0x20 else 0)
      | (if ece then 0x40 else 0) | (if cwr then 0x80 else 0)
    }

    /** `to_u16`: ORs the mask of each set flag into an accumulator; the result is below 256. */
    method ToU16() returns (flags: uint16)
      ensures flags == Bits() as int && flags < 0x100
    {
      var acc: bv8 := 0;
      if fin {
        acc := acc | 0x01;
      }
      if syn {
        acc := acc | 0x02;
      }
      if rst {
        acc := acc | 0x04;
      }
      if psh {
        acc := acc | 0x08;
      }
      if ack {
        acc := acc | 0x10;
      }
      if urg {
        acc := acc | 0x20;
      }
      if ece {
        acc := acc | 0x40;
      }
      if cwr {
        acc := acc | 0x80;
      }
      flags := acc as int;
    }

    /** The flags of one byte, bit by bit. */
    static function FromByte(b: bv8): (f: TcpFlags)
      ensures f.Bits() == b
    {
      TcpFlags(b & 0x80 != 0, b & 0x40 != 0, b & 0x20 != 0, b & 0x10 != 0,
               b & 0x08 != 0, b & 0x04 != 0, b & 0x02 != 0, b & 0x01 != 0)
    }

    /** `from_u16`: reads bits 0-7; the bits above them are ignored. */
    static function FromU16(value: uint16): (f: TcpFlags)
      ensures f.Bits() as int == value % 0x100
    {
      var low := value % 0x100;
      ByteConversion(low);
      FromByte(low as bv8)
    }
  }

  lemma FromByteOfBits(f: TcpFlags)
    ensures TcpFlags.FromByte(f.Bits()) == f
  {
  }

  /** Every flag combination survives `to_u16` then `from_u16`. */
  lemma FlagsRoundTrip(f: TcpFlags)
    ensures TcpFlags.FromU16(f.Bits() as int) == f
  {
    var x := f.Bits();
    VectorConversion(x);
    FromByteOfBits(f);
    var n: uint8 := x as int;
    assert n % 0x100 == n;
  }

  /** The single-flag values: FIN 0x01, SYN 0x02, RST 0x04, PSH 0x08, ACK 0x10, URG 0x20, ECE 0x40, CWR 0x80. */
  lemma SingleFlagValues()
    ensures TcpFlags.New().(fin := true).Bits() == 0x01 && TcpFlags.New().(syn := true).Bits() == 0x02
    ensures TcpFlags.New().(rst := true).Bits() == 0x04 && TcpFlags.New().(psh := true).Bits() == 0x08
    ensures TcpFlags.New().(ack := true).Bits() == 0x10 && TcpFlags.New().(urg := true).Bits() == 0x20
    ensures TcpFlags.New().(ece := true).Bits() == 0x40 && TcpFlags.New().(cwr := true).Bits() == 0x80
  {
  }

  /** Byte 12 as `to_bytes` packs it, from a data offset and reserved field that fit their bits. */
  lemma PackOffsetByte(dataOffset: uint8, reserved: uint8)
    ensures (dataOffset as int * 0x10) % 0x100 == 0x10 * (dataOffset % 0x10)
    ensures var o := (dataOffset as int * 0x10) % 0x100 + reserved % 0x8;
      o / 0x10 == dataOffset % 0x10 && o % 0x10 == reserved % 0x8
  {
    var q := dataOffset / 0x10;
    assert dataOffset as int * 0x10 == 0x100 * q + 0x10 * (dataOffset % 0x10);
  }

  datatype TcpHeader = TcpHeader(
    sourcePort: uint16,
    destinationPort: uint16,
    sequenceNumber: uint32,
    acknowledgmentNumber: uint32,
    dataOffset: uint8,
    reserved: uint8,
    flags: TcpFlags,
    window: uint16,
    checksum: uint16,
    urgentPointer: uint16)
  {
    /** A fresh header: the two ports, data offset 5, no flags, every other field 0. */
    static function New(sourcePort: uint16, destinationPort: uint16): (h: TcpHeader)
      ensures h.sourcePort == sourcePort && h.destinationPort == destinationPort
      ensures h.dataOffset == 5 && h.reserved == 0 && h.flags == TcpFlags.New()
      ensures h.sequenceNumber == 0 && h.acknowledgmentNumber == 0
      ensures h.window == 0 && h.checksum == 0 && h.urgentPointer == 0
    {
      TcpHeader(sourcePort, destinationPort, 0, 0, 5, 0, TcpFlags.New(), 0, 0, 0)
    }

    /** Byte 12: `(data_offset << 4) | (reserved & 0x07)` on a u8. */
    function OffsetByte(): uint8
    {
      (dataOffset as int * 0x10) % 0x100 + reserved % 0x8
    }

    /** Bytes 0-15: everything before the checksum field. */
    function Front(): (b: seq<uint8>)
      ensures |b| == 16
    {
      BeBytes16(sourcePort) + BeBytes16(destinationPort)
      + BeBytes32(sequenceNumber) + BeBytes32(acknowledgmentNumber)
      + [OffsetByte(), flags.Bits() as int]
      + BeBytes16(window)
    }

    /** The header in network byte order, as `to_bytes` emits it. */
    function Encode(): (b: seq<uint8>)
      ensures |b| == 20
    {
      Front() + BeBytes16(checksum) + BeBytes16(urgentPointer)
    }

    /** `to_bytes`: extends a buffer with each field in turn. */
    method ToBytes() returns (bytes: seq<uint8>)
      ensures bytes == Encode()
    {
      bytes := [];
      bytes := bytes + BeBytes16(sourcePort);
      bytes := bytes + BeBytes16(destinationPort);
      bytes := bytes + BeBytes32(sequenceNumber);
      bytes := bytes + BeBytes32(acknowledgmentNumber);
      var dataOffsetAndReserved := OffsetByte();
      bytes := bytes + [dataOffsetAndReserved];
      var flagBits := flags.ToU16();
      bytes := bytes + [flagBits % 0x100];
      bytes := bytes + BeBytes16(window);
      bytes := bytes + BeBytes16(checksum);
      bytes := bytes + BeBytes16(urgentPointer);
    }
  }

  /**
   * Where `to_bytes` puts each field: ports at 0 and 2, sequence number at
   * 4, acknowledgment number at 8 (all big-endian), data offset in the high
   * nibble of byte 12 and the reserved bits in its low three bits, the flag
   * byte at 13, window at 14, checksum at 16, urgent pointer at 18.
   */
  predicate FieldsAt(b: seq<uint8>, h: TcpHeader)
    requires |b| >= 20
  {
    && FromBe16(b[0], b[1]) == h.sourcePort && FromBe16(b[2], b[3]) == h.destinationPort
    && FromBe32(b[4], b[5], b[6], b[7]) == h.sequenceNumber
    && FromBe32(b[8], b[9], b[10], b[11]) == h.acknowledgmentNumber
    && b[12] / 0x10 == h.dataOffset % 0x10 && b[12] % 0x10 == h.reserved % 0x8
    && b[13] == h.flags.Bits() as int
    && FromBe16(b[14], b[15]) == h.window
    && FromBe16(b[16], b[17]) == h.checksum
    && FromBe16(b[18], b[19]) == h.urgentPointer
  }

  /** Layout of `to_bytes`: every field at its RFC 9293 section 3.1 offset. */
  lemma EncodeLayout(h: TcpHeader)
    ensures FieldsAt(h.Encode(), h)
  {
    var b := h.Encode();
    assert b[..16] == h.Front();
    PackOffsetByte(h.dataOffset, h.reserved);
  }

  /** Bytes holding the fields of a header whose data offset and reserved field fit parse back to it. */
  lemma DecodeInvertsLayout(b: seq<uint8>, h: TcpHeader)
    requires |b| >= 20 && FieldsAt(b, h)
    requires h.dataOffset <= 15 && h.reserved <= 7
    ensures ReadFields(b, b[12] % 0x8) == h
  {
    var g := ReadFields(b, b[12] % 0x8);
    FlagsRoundTrip(h.flags);
    assert g.flags == h.flags;
    assert g.dataOffset == h.dataOffset && g.reserved == h.reserved;
  }

  lemma OffsetByteAtTwelve(h: TcpHeader)
    ensures h.Encode()[12] == h.OffsetByte()
  {
    assert h.Encode()[..16] == h.Front();
  }

  /** The field reads shared by both decoders, for a header of at least 20 bytes. */
  function ReadFields(bytes: seq<uint8>, reserved: uint8): TcpHeader
    requires |bytes| >= 20
  {
    TcpHeader(
      FromBe16(bytes[0], bytes[1]),
      FromBe16(bytes[2], bytes[3]),
      FromBe32(bytes[4], bytes[5], bytes[6], bytes[7]),
      FromBe32(bytes[8], bytes[9], bytes[10], bytes[11]),
      bytes[12] / 0x10,
      reserved,
      TcpFlags.FromU16(bytes[13]),
      FromBe16(bytes[14], bytes[15]),
      FromBe16(bytes[16], bytes[17]),
      FromBe16(bytes[18], bytes[19]))
  }

  /**
   * `from_bytes` as written: it panics below 20 bytes and reads the
   * reserved field from bits 1-3 of byte 12, `(b12 & 0x0E) >> 1`.
   */
  function DecodeAsWritten(bytes: seq<uint8>): (h: TcpHeader)
    requires |bytes| >= 20
    ensures h.dataOffset < 0x10 && h.reserved < 0x8
    ensures h.reserved == (bytes[12] % 0x10) / 2
  {
    ReadFields(bytes, (bytes[12] % 0x10) / 2)
  }

  /**
   * `from_bytes` reading the reserved field from bits 0-2 of byte 12, where
   * `to_bytes` writes it; every other field is read as written.
   */
  function Decode(bytes: seq<uint8>): (h: TcpHeader)
    requires |bytes| >= 20
    ensures h.dataOffset < 0x10 && h.reserved < 0x8
    ensures h.Encode() == bytes[..20] <==> bytes[12] % 0x10 < 0x8
  {
    var h := ReadFields(bytes, bytes[12] % 0x8);
    ReadFieldsEncode(bytes, h);
    h
  }

  /** Re-packing the nibble and the low three bits of byte 12 restores it exactly when its bit 3 is clear. */
  lemma UnpackOffsetByte(b: uint8)
    ensures ((b / 0x10) * 0x10) % 0x100 + (b % 0x8) % 0x8 == b <==> b % 0x10 < 0x8
  {
    var hi, lo := b / 0x10, b % 0x10;
    assert b == 0x10 * hi + lo;
    assert (hi * 0x10) % 0x100 == 0x10 * hi;
    assert b % 0x8 == lo % 0x8;
  }

  /** Bytes 0-15 of a parsed header whose byte 12 has bit 3 clear re-encode to the input. */
  lemma ReadFieldsFront(bytes: seq<uint8>, h: TcpHeader)
    requires |bytes| >= 20 && h == ReadFields(bytes, bytes[12] % 0x8) && bytes[12] % 0x10 < 0x8
    ensures h.Front() == bytes[..16]
  {
    UnpackOffsetByte(bytes[12]);
    assert h.OffsetByte() == bytes[12];
    FromBe16Inverse(bytes[0], bytes[1]);
    assert BeBytes16(h.sourcePort) == bytes[0..2];
    FromBe16Inverse(bytes[2], bytes[3]);
    assert BeBytes16(h.destinationPort) == bytes[2..4];
    FromBe32Inverse(bytes[4], bytes[5], bytes[6], bytes[7]);
    assert BeBytes32(h.sequenceNumber) == bytes[4..8];
    FromBe32Inverse(bytes[8], bytes[9], bytes[10], bytes[11]);
    assert BeBytes32(h.acknowledgmentNumber) == bytes[8..12];
    assert h.flags.Bits() as int == bytes[13];
    FromBe16Inverse(bytes[14], bytes[15]);
    assert BeBytes16(h.window) == bytes[14..16];
    assert bytes[..16] == bytes[0..2] + bytes[2..4] + bytes[4..8] + bytes[8..12]
      + [bytes[12], bytes[13]] + bytes[14..16];
  }

  /** Re-encoding a parsed header gives the input back exactly when bit 3 of byte 12 is clear. */
  lemma ReadFieldsEncode(bytes: seq<uint8>, h: TcpHeader)
    requires |bytes| >= 20 && h == ReadFields(bytes, bytes[12] % 0x8)
    ensures h.Encode() == bytes[..20] <==> bytes[12] % 0x10 < 0x8
  {
    if bytes[12] % 0x10 < 0x8 {
      ReadFieldsFront(bytes, h);
      FromBe16Inverse(bytes[16], bytes[17]);
      assert BeBytes16(h.checksum) == bytes[16..18];
      FromBe16Inverse(bytes[18], bytes[19]);
      assert BeBytes16(h.urgentPointer) == bytes[18..20];
      assert bytes[..20] == bytes[..16] + bytes[16..18] + bytes[18..20];
    } else {
      UnpackOffsetByte(bytes[12]);
      OffsetByteAtTwelve(h);
      assert h.Encode()[12] != bytes[..20][12];
    }
  }

  /** The corrected decoder inverts `to_bytes` for every data offset and reserved field that fit their bits. */
  lemma RoundTrip(h: TcpHeader)
    requires h.dataOffset <= 15 && h.reserved <= 7
    ensures Decode(h.Encode()) == h
  {
    EncodeLayout(h);
    DecodeInvertsLayout(h.Encode(), h);
  }

  /** As written, `from_bytes` inverts `to_bytes` when the reserved field is 0 and the data offset fits. */
  lemma RoundTripAsWritten(h: TcpHeader)
    requires h.dataOffset <= 15 && h.reserved == 0
    ensures DecodeAsWritten(h.Encode()) == h
  {
    RoundTrip(h);
    var b := h.Encode();
    EncodeLayout(h);
    assert b[12] % 0x10 == 0;
  }

  /**
   * As written, `from_bytes` reads back the encoded reserved field shifted
   * right by one bit, so no header with a reserved field of 1..7 survives.
   */
  lemma AsWrittenShiftsReserved(h: TcpHeader)
    ensures DecodeAsWritten(h.Encode()).reserved == (h.reserved % 0x8) / 2
    ensures 0 < h.reserved <= 7 ==> DecodeAsWritten(h.Encode()) != h
  {
    EncodeLayout(h);
  }

  /** With data offset 5 and reserved 1 the encoded byte 12 is 0x51, which `from_bytes` as written reads back as reserved 0. */
  lemma ReservedMismatch(h: TcpHeader)
    requires h.dataOffset == 5 && h.reserved == 1
    ensures h.Encode()[12] == 0x51 && DecodeAsWritten(h.Encode()).reserved == 0 && DecodeAsWritten(h.Encode()) != h
  {
    AsWrittenShiftsReserved(h);
    OffsetByteAtTwelve(h);
    assert h.OffsetByte() == 0x51;
  }

  /** Like the IPv4 header, the TCP header decoders read bytes 0-19 only. */
  lemma DecodeReadsTwentyBytes(bytes: seq<uint8>)
    requires |bytes| >= 20
    ensures Decode(bytes) == Decode(bytes[..20]) && DecodeAsWritten(bytes) == DecodeAsWritten(bytes[..20])
  {
  }
}

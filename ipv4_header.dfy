/**
 * The fixed 20-byte IPv4 header of RFC 791 section 3.1 and the 16-bit
 * flags/fragment-offset word packed into its bytes 6-7.
 */
module Ipv4HeaderCodec {
  import opened Bytes

  type Ipv4Address = a: seq<uint8> | |a| == 4 witness [0, 0, 0, 0]

  /** The three control flags: bit 15 reserved, bit 14 DF, bit 13 MF. */
  datatype Ipv4Flags = Ipv4Flags(reserved: bool, dontFragment: bool, moreFragments: bool)
  {
    /** The flags in the top three bits, the low 13 bits of the fragment offset below them. */
    function Word(fragmentOffset: uint16): (w: uint16)
      ensures HasBit(w, 0x8000) == reserved
      ensures HasBit(w, 0x4000) == dontFragment
      ensures HasBit(w, 0x2000) == moreFragments
      ensures w % 0x2000 == fragmentOffset % 0x2000
    {
      (if reserved then 0x8000 else 0)
      + (if dontFragment then 0x4000 else 0)
      + (if moreFragments then 0x2000 else 0)
      + fragmentOffset % 0x2000
    }

    /** `to_u16`: ORs each set flag into an accumulator, then the masked offset. */
    method ToU16(fragmentOffset: uint16) returns (w: uint16)
      ensures w == Word(fragmentOffset)
    {
      var acc := 0;
      if reserved {
        acc := acc + 0x8000;
      }
      if dontFragment {
        acc := acc + 0x4000;
      }
      if moreFragments {
        acc := acc + 0x2000;
      }
      w := acc + fragmentOffset % 0x2000;
    }

    /** `from_u16`: the three flag bits and the 13-bit fragment offset. */
    static function FromU16(value: uint16): (r: (Ipv4Flags, uint16))
      ensures r.1 < 0x2000
      ensures r.0.Word(r.1) == value
    {
      (Ipv4Flags(HasBit(value, 0x8000), HasBit(value, 0x4000), HasBit(value, 0x2000)), value % 0x2000)
    }
  }

  /** Packing then unpacking gives back the flags and the offset's low 13 bits. */
  lemma FlagsRoundTrip(f: Ipv4Flags, fragmentOffset: uint16)
    ensures Ipv4Flags.FromU16(f.Word(fragmentOffset)) == (f, fragmentOffset % 0x2000)
  {
  }

  /** The three failures of `from_bytes`, in the order it checks them. */
  datatype Ipv4HeaderError = HeaderTooShort | InvalidVersion | InvalidIhl

  datatype Ipv4Header = Ipv4Header(
    version: uint8,
    ihl: uint8,
    typeOfService: uint8,
    totalLength: uint16,
    identification: uint16,
    flags: Ipv4Flags,
    fragmentOffset: uint16,
    timeToLive: uint8,
    protocol: uint8,
    headerChecksum: uint16,
    sourceAddress: Ipv4Address,
    destinationAddress: Ipv4Address)
  {
    /** A fresh header: version 4, IHL 5, TTL 64, no flags, every other number 0. */
    static function New(sourceAddress: Ipv4Address, destinationAddress: Ipv4Address, protocol: uint8): (h: Ipv4Header)
      ensures h.version == 4 && h.ihl == 5 && h.timeToLive == 64 && h.protocol == protocol
      ensures h.flags == Ipv4Flags(false, false, false)
      ensures h.typeOfService == 0 && h.totalLength == 0 && h.identification == 0
      ensures h.fragmentOffset == 0 && h.headerChecksum == 0
      ensures h.sourceAddress == sourceAddress && h.destinationAddress == destinationAddress
    {
      Ipv4Header(4, 5, 0, 0, 0, Ipv4Flags(false, false, false), 0, 64, protocol, 0,
                 sourceAddress, destinationAddress)
    }

    /** Byte 0: `(version << 4) | (ihl & 0x0F)` on a u8, so bits of `version` above bit 3 are lost. */
    function VersionIhl(): uint8
    {
      (version as int * 0x10) % 0x100 + ihl % 0x10
    }

    /** Bytes 0-9: everything before the checksum field. */
    function Front(): (b: seq<uint8>)
      ensures |b| == 10
    {
      [VersionIhl(), typeOfService]
      + BeBytes16(totalLength)
      + BeBytes16(identification)
      + BeBytes16(flags.Word(fragmentOffset))
      + [timeToLive, protocol]
    }

    /** The header in network byte order, field by field as `to_bytes` emits it. */
    function Encode(): (b: seq<uint8>)
      ensures |b| == 20
    {
      Front() + BeBytes16(headerChecksum) + sourceAddress + destinationAddress
    }

    /** `to_bytes`: pushes the fields onto a buffer one after another. */
    method ToBytes() returns (bytes: seq<uint8>)
      ensures bytes == Encode()
    {
      bytes := [];
      bytes := bytes + [VersionIhl()];
      bytes := bytes + [typeOfService];
      bytes := bytes + BeBytes16(totalLength);
      bytes := bytes + BeBytes16(identification);
      var flagsAndFrag := flags.ToU16(fragmentOffset);
      bytes := bytes + BeBytes16(flagsAndFrag);
      bytes := bytes + [timeToLive];
      bytes := bytes + [protocol];
      bytes := bytes + BeBytes16(headerChecksum);
      bytes := bytes + sourceAddress;
      bytes := bytes + destinationAddress;
    }

    /**
     * `from_bytes`: fails below 20 bytes, then on a version nibble other
     * than 4, then on an IHL below 5; otherwise reads the first 20 bytes.
     * A set reserved flag is accepted.
     */
    static function Decode(bytes: seq<uint8>): (r: Result<Ipv4Header, Ipv4HeaderError>)
      ensures r == Err(HeaderTooShort) <==> |bytes| < 20
      ensures r == Err(InvalidVersion) <==> |bytes| >= 20 && bytes[0] / 0x10 != 4
      ensures r == Err(InvalidIhl) <==> |bytes| >= 20 && bytes[0] / 0x10 == 4 && bytes[0] % 0x10 < 5
      ensures r.Ok? ==> r.value.version == 4 && 5 <= r.value.ihl <= 15 && r.value.fragmentOffset < 0x2000
      ensures r.Ok? ==> r.value.Encode() == bytes[..20]
    {
      if |bytes| < 20 then Err(HeaderTooShort)
      else
        var version, ihl := bytes[0] / 0x10, bytes[0] % 0x10;
        if version != 4 then Err(InvalidVersion)
        else if ihl < 5 then Err(InvalidIhl)
        else
          ParseEncodes(bytes);
          Ok(Parse(bytes))
    }
  }

  /** The field reads of `from_bytes` once its checks have passed. */
  function Parse(bytes: seq<uint8>): Ipv4Header
    requires |bytes| >= 20
  {
    var (flags, fragmentOffset) := Ipv4Flags.FromU16(FromBe16(bytes[6], bytes[7]));
    Ipv4Header(
      bytes[0] / 0x10, bytes[0] % 0x10, bytes[1],
      FromBe16(bytes[2], bytes[3]),
      FromBe16(bytes[4], bytes[5]),
      flags, fragmentOffset,
      bytes[8], bytes[9],
      FromBe16(bytes[10], bytes[11]),
      bytes[12..16], bytes[16..20])
  }

  /** A parsed header with version 4 re-encodes to the bytes it was read from. */
  lemma ParseEncodes(bytes: seq<uint8>)
    requires |bytes| >= 20 && bytes[0] / 0x10 == 4
    ensures Parse(bytes).Encode() == bytes[..20]
  {
    var h := Parse(bytes);
    var f := Ipv4Flags.FromU16(FromBe16(bytes[6], bytes[7]));
    assert h.flags == f.0 && h.fragmentOffset == f.1;
    assert h.flags.Word(h.fragmentOffset) == FromBe16(bytes[6], bytes[7]);
    NibblesRecombine(bytes[0]);
    assert h.VersionIhl() == bytes[0];
    FromBe16Inverse(bytes[2], bytes[3]);
    FromBe16Inverse(bytes[4], bytes[5]);
    FromBe16Inverse(bytes[6], bytes[7]);
    FromBe16Inverse(bytes[10], bytes[11]);
    var front := [bytes[0], bytes[1]] + [bytes[2], bytes[3]] + [bytes[4], bytes[5]] + [bytes[6], bytes[7]] + [bytes[8], bytes[9]];
    assert h.Front() == front;
    assert front == bytes[..10];
    assert bytes[..20] == bytes[..10] + [bytes[10], bytes[11]] + bytes[12..16] + bytes[16..20];
  }

  /**
   * Where `to_bytes` puts each field: byte 0 packs the version and IHL
   * nibbles, then type of service, big-endian total length,
   * identification, flags word, TTL, protocol, checksum, and the two
   * addresses.
   */
  predicate FieldsAt(b: seq<uint8>, h: Ipv4Header)
    requires |b| >= 20
  {
    && b[0] / 0x10 == h.version % 0x10 && b[0] % 0x10 == h.ihl % 0x10
    && b[1] == h.typeOfService
    && FromBe16(b[2], b[3]) == h.totalLength && FromBe16(b[4], b[5]) == h.identification
    && FromBe16(b[6], b[7]) == h.flags.Word(h.fragmentOffset)
    && b[8] == h.timeToLive && b[9] == h.protocol
    && FromBe16(b[10], b[11]) == h.headerChecksum
    && b[12..16] == h.sourceAddress && b[16..20] == h.destinationAddress
  }

  /** Layout of `to_bytes`: every field at its RFC 791 offset. */
  lemma EncodeLayout(h: Ipv4Header)
    ensures FieldsAt(h.Encode(), h)
  {
    var b := h.Encode();
    assert b[..10] == h.Front();
    assert b[12..16] == h.sourceAddress;
    NibblesSplit(h.version, h.ihl);
  }

  /** Packing two nibbles into a byte and splitting it again gives back their low four bits. */
  lemma NibblesSplit(hi: uint8, lo: uint8)
    ensures var b := (hi as int * 0x10) % 0x100 + lo % 0x10; b / 0x10 == hi % 0x10 && b % 0x10 == lo % 0x10
  {
    assert hi as int * 0x10 == 0x100 * (hi / 0x10) + 0x10 * (hi % 0x10);
  }

  /** Bytes holding the fields of a well-formed header parse back to that header. */
  lemma ParseInvertsLayout(b: seq<uint8>, h: Ipv4Header)
    requires |b| >= 20 && FieldsAt(b, h)
    requires h.version == 4 && 5 <= h.ihl <= 15 && h.fragmentOffset < 0x2000
    ensures Parse(b) == h
  {
    var word := FromBe16(b[6], b[7]);
    FlagsRoundTrip(h.flags, h.fragmentOffset);
    assert Ipv4Flags.FromU16(word) == (h.flags, h.fragmentOffset);
    assert b[0] / 0x10 == h.version && b[0] % 0x10 == h.ihl;
    assert Parse(b) == Ipv4Header(h.version, h.ihl, b[1], FromBe16(b[2], b[3]), FromBe16(b[4], b[5]),
                                  h.flags, h.fragmentOffset, b[8], b[9], FromBe16(b[10], b[11]),
                                  b[12..16], b[16..20]);
  }

  /** Every header with version 4, an IHL of 5..15 and a 13-bit offset survives encoding. */
  lemma RoundTrip(h: Ipv4Header)
    requires h.version == 4 && 5 <= h.ihl <= 15 && h.fragmentOffset < 0x2000
    ensures Ipv4Header.Decode(h.Encode()) == Ok(h)
  {
    EncodeLayout(h);
    ParseInvertsLayout(h.Encode(), h);
  }

  /** A freshly created header survives encoding and decoding. */
  lemma NewRoundTrip(sourceAddress: Ipv4Address, destinationAddress: Ipv4Address, protocol: uint8)
    ensures var h := Ipv4Header.New(sourceAddress, destinationAddress, protocol);
      Ipv4Header.Decode(h.Encode()) == Ok(h)
  {
    RoundTrip(Ipv4Header.New(sourceAddress, destinationAddress, protocol));
  }

  /** `from_bytes` reads only bytes 0-19: whatever follows them has no effect. */
  lemma DecodeReadsTwentyBytes(bytes: seq<uint8>)
    requires |bytes| >= 20
    ensures Ipv4Header.Decode(bytes) == Ipv4Header.Decode(bytes[..20])
  {
    var p := bytes[..20];
    assert p[12..16] == bytes[12..16] && p[16..20] == bytes[16..20];
  }
}

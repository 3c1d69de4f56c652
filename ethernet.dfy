/**
 * The Ethernet II header and frame: positional parsing of the 6-byte
 * destination and source MAC addresses and the 2-byte EtherType, with the
 * rest of the input as the payload. No minimum or maximum frame length is
 * enforced beyond the 14 header bytes.
 */
module EthernetCodec {
  import opened Bytes

  type MacBytes = a: seq<uint8> | |a| == 6 witness [0, 0, 0, 0, 0, 0]
  type EtherTypeBytes = a: seq<uint8> | |a| == 2 witness [0, 0]

  datatype EthernetHeader = EthernetHeader(
    destinationMacAddress: MacBytes,
    sourceMacAddress: MacBytes,
    ethertype: EtherTypeBytes)
  {
    /** The 14 bytes the header occupies on the wire. */
    function Fields(): (b: seq<uint8>)
      ensures |b| == 14
    {
      destinationMacAddress + sourceMacAddress + ethertype
    }

    /**
     * `EthernetHeader::from_bytes`: splits the first 14 bytes into the three
     * fields; it panics on a shorter input.
     */
    static function FromBytes(bytes: seq<uint8>): (h: EthernetHeader)
      requires |bytes| >= 14
      ensures h.Fields() == bytes[..14]
    {
      EthernetHeader(bytes[0..6], bytes[6..12], bytes[12..14])
    }
  }

  datatype EthernetFrame = EthernetFrame(header: EthernetHeader, payload: seq<uint8>)
  {
    /** `EthernetFrame::from_bytes`: the header from bytes 0-13 and everything after it as the payload. */
    static function FromBytes(bytes: seq<uint8>): (f: EthernetFrame)
      requires |bytes| >= 14
      ensures f.header == EthernetHeader.FromBytes(bytes)
      ensures |f.payload| == |bytes| - 14
      ensures f.header.Fields() + f.payload == bytes
    {
      var f := EthernetFrame(EthernetHeader.FromBytes(bytes[0..14]), bytes[14..]);
      HeaderReadsFourteenBytes(bytes);
      assert bytes == bytes[..14] + bytes[14..];
      f
    }
  }

  /** The header parser reads bytes 0-13 only; whatever follows has no effect. */
  lemma HeaderReadsFourteenBytes(bytes: seq<uint8>)
    requires |bytes| >= 14
    ensures EthernetHeader.FromBytes(bytes) == EthernetHeader.FromBytes(bytes[..14])
  {
    var p := bytes[..14];
    assert p[0..6] == bytes[0..6] && p[6..12] == bytes[6..12] && p[12..14] == bytes[12..14];
  }

  /** Parsing a header's own bytes gives the header back. */
  lemma HeaderRoundTrip(h: EthernetHeader)
    ensures EthernetHeader.FromBytes(h.Fields()) == h
  {
    var b := h.Fields();
    assert b[0..6] == h.destinationMacAddress;
    assert b[6..12] == h.sourceMacAddress;
    assert b[12..14] == h.ethertype;
  }

  /** A header's bytes followed by any payload, however short or long, parse back to that header and payload. */
  lemma FrameRoundTrip(h: EthernetHeader, payload: seq<uint8>)
    ensures EthernetFrame.FromBytes(h.Fields() + payload) == EthernetFrame(h, payload)
  {
    var bytes := h.Fields() + payload;
    assert bytes[..14] == h.Fields() && bytes[14..] == payload;
    HeaderReadsFourteenBytes(bytes);
    HeaderRoundTrip(h);
  }
}

/**
 * Assembly of an IPv4 packet: header, options and payload. Before
 * serialising, the packet recomputes the IHL from the options, the total
 * length from the IHL and the payload, and the RFC 1071 header checksum over
 * the header (checksum field zeroed) followed by the options.
 */
module Ipv4PacketAssembly {
  import opened Bytes
  import Checksum
  import opened Ipv4HeaderCodec
  import opened Ipv4OptionsCodec

  /** What the header checksum covers: the header with bytes 10-11 cleared, then the options. */
  function ChecksumInput(h: Ipv4Header, opts: seq<Ipv4Option>): seq<uint8>
  {
    h.Encode()[10 := 0][11 := 0] + EncodeOptions(opts)
  }

  /** `calculate_header_checksum`. Neither the payload nor the stored checksum enters it. */
  function HeaderChecksum(h: Ipv4Header, opts: seq<Ipv4Option>): uint16
  {
    Checksum.InternetChecksum(ChecksumInput(h, opts))
  }

  /**
   * `to_bytes` recomputes the header without overflowing a u8 IHL or the
   * u16 total length (the payload length is cast to u16 first).
   */
  predicate CanFinalize(opts: seq<Ipv4Option>, payloadLength: nat)
  {
    OptionsWords(opts) <= 250 && (5 + OptionsWords(opts)) * 4 + payloadLength % 0x1_0000 <= 0xFFFF
  }

  /** The header as `to_bytes` leaves it: IHL, total length and checksum recomputed, in that order. */
  function Finalized(h: Ipv4Header, opts: seq<Ipv4Option>, payloadLength: nat): (f: Ipv4Header)
    requires CanFinalize(opts, payloadLength)
    ensures f.(ihl := h.ihl, totalLength := h.totalLength, headerChecksum := h.headerChecksum) == h
  {
    var withIhl := h.(ihl := 5 + OptionsWords(opts));
    var withLength := withIhl.(totalLength := withIhl.ihl as int * 4 + payloadLength % 0x1_0000);
    withLength.(headerChecksum := HeaderChecksum(withLength, opts))
  }

  /** The bytes `to_bytes` returns: the finalized header, the padded options, the payload. */
  function Image(h: Ipv4Header, opts: seq<Ipv4Option>, payload: seq<uint8>): seq<uint8>
    requires CanFinalize(opts, |payload|)
  {
    Finalized(h, opts, |payload|).Encode() + EncodeOptions(opts) + payload
  }

  class Ipv4Packet {
    var header: Ipv4Header
    var options: Ipv4Options
    var payload: seq<uint8>

    constructor (sourceAddress: Ipv4Address, destinationAddress: Ipv4Address, protocol: uint8, payload: seq<uint8>)
      ensures header == Ipv4Header.New(sourceAddress, destinationAddress, protocol)
      ensures fresh(options) && options.options == []
      ensures this.payload == payload
    {
      header := Ipv4Header.New(sourceAddress, destinationAddress, protocol);
      options := new Ipv4Options();
      this.payload := payload;
    }

    /** `update_ihl`: five header words plus the option words; no other field changes. */
    method UpdateIhl()
      requires OptionsWords(options.options) <= 250
      modifies this
      ensures options == old(options) && payload == old(payload)
      ensures header == old(header).(ihl := 5 + OptionsWords(options.options))
    {
      var headerWords := 5;
      var optionWords := options.WordsNeeded();
      header := header.(ihl := headerWords + optionWords);
    }

    /** `update_total_length`: four bytes per IHL word plus the payload length cast to u16. */
    method UpdateTotalLength()
      requires header.ihl as int * 4 + |payload| % 0x1_0000 <= 0xFFFF
      modifies this
      ensures options == old(options) && payload == old(payload)
      ensures header == old(header).(totalLength := old(header).ihl as int * 4 + |payload| % 0x1_0000)
    {
      var headerLength := header.ihl as int * 4;
      var totalLength := headerLength + |payload| % 0x1_0000;
      header := header.(totalLength := totalLength);
    }

    method CalculateHeaderChecksum() returns (checksum: uint16)
      ensures checksum == HeaderChecksum(header, options.options)
    {
      var headerBytes := header.ToBytes();
      headerBytes := headerBytes[10 := 0];
      headerBytes := headerBytes[11 := 0];
      var optionBytes := options.ToBytes();
      headerBytes := headerBytes + optionBytes;
      var sum := Checksum.AddWords(0, headerBytes);
      checksum := Checksum.FoldAndComplement(sum);
    }

    /** `to_bytes`: finalizes the header in place, then serialises the packet. */
    method ToBytes() returns (bytes: seq<uint8>)
      requires CanFinalize(options.options, |payload|)
      modifies this
      ensures options == old(options) && payload == old(payload)
      ensures header == Finalized(old(header), options.options, |payload|)
      ensures bytes == Image(old(header), options.options, payload)
    {
      UpdateIhl();
      UpdateTotalLength();
      var checksum := CalculateHeaderChecksum();
      header := header.(headerChecksum := checksum);
      bytes := header.ToBytes();
      var optionBytes := options.ToBytes();
      bytes := bytes + optionBytes;
      bytes := bytes + payload;
    }
  }

  /** Clearing bytes 10-11 of the encoding is encoding with a zero checksum. */
  lemma ChecksumInputZeroesField(h: Ipv4Header, opts: seq<Ipv4Option>)
    ensures ChecksumInput(h, opts) == h.(headerChecksum := 0).Encode() + EncodeOptions(opts)
  {
    var front := h.Front();
    assert h.(headerChecksum := 0).Front() == front;
    var cleared := h.Encode()[10 := 0][11 := 0];
    var zero := h.(headerChecksum := 0).Encode();
    assert cleared[..10] == front == zero[..10];
    assert cleared[10..12] == [0, 0] == zero[10..12];
    assert cleared[12..] == h.sourceAddress + h.destinationAddress == zero[12..];
    assert cleared == cleared[..10] + cleared[10..12] + cleared[12..];
    assert zero == zero[..10] + zero[10..12] + zero[12..];
  }

  /** The header checksum does not depend on the checksum value already stored in the header. */
  lemma ChecksumIgnoresStoredField(h: Ipv4Header, opts: seq<Ipv4Option>, stored: uint16)
    ensures HeaderChecksum(h.(headerChecksum := stored), opts) == HeaderChecksum(h, opts)
    ensures HeaderChecksum(h, opts)
      == Checksum.InternetChecksum(h.(headerChecksum := 0).Encode() + EncodeOptions(opts))
  {
    ChecksumInputZeroesField(h, opts);
    ChecksumInputZeroesField(h.(headerChecksum := stored), opts);
    assert h.(headerChecksum := stored).(headerChecksum := 0) == h.(headerChecksum := 0);
  }

  /** The checksum `to_bytes` stores is the checksum of the finished header itself. */
  lemma FinalizedChecksum(h: Ipv4Header, opts: seq<Ipv4Option>, payloadLength: nat)
    requires CanFinalize(opts, payloadLength)
    ensures var f := Finalized(h, opts, payloadLength); f.headerChecksum == HeaderChecksum(f, opts)
  {
    var f := Finalized(h, opts, payloadLength);
    var withLength := h.(ihl := f.ihl, totalLength := f.totalLength);
    assert withLength == f.(headerChecksum := h.headerChecksum);
    ChecksumIgnoresStoredField(f, opts, h.headerChecksum);
  }

  /** Finalizing a finalized header changes nothing, so calling `to_bytes` twice gives the same bytes. */
  lemma ToBytesIdempotent(h: Ipv4Header, opts: seq<Ipv4Option>, payload: seq<uint8>)
    requires CanFinalize(opts, |payload|)
    ensures Finalized(Finalized(h, opts, |payload|), opts, |payload|) == Finalized(h, opts, |payload|)
    ensures Image(Finalized(h, opts, |payload|), opts, payload) == Image(h, opts, payload)
  {
    var f := Finalized(h, opts, |payload|);
    FinalizedChecksum(h, opts, |payload|);
    var g := Finalized(f, opts, |payload|);
    assert f.(ihl := f.ihl, totalLength := f.totalLength) == f;
    assert g == f.(headerChecksum := HeaderChecksum(f, opts));
  }

  /**
   * With at most 40 option bytes (an IHL that fits its 4 bits), the image is
   * 20 + `total_length()` + payload bytes long and the IHL counts the
   * header and its options in 32-bit words.
   */
  lemma ImageLength(h: Ipv4Header, opts: seq<Ipv4Option>, payload: seq<uint8>)
    requires |opts| <= 40 && CanFinalize(opts, |payload|)
    ensures |Image(h, opts, payload)| == 20 + OptionsLength(opts) + |payload|
    ensures Finalized(h, opts, |payload|).ihl as int * 4 == 20 + OptionsLength(opts)
  {
    OptionsLengthIsPaddedCount(opts);
    Ipv4OptionsCodec.EncodedLength(opts);
  }

  /**
   * Bytes 2-3 of the image state its length when that fits in 16 bits, and
   * byte 0 carries version 4 and the IHL.
   */
  lemma ImageLengthField(h: Ipv4Header, opts: seq<Ipv4Option>, payload: seq<uint8>)
    requires |opts| <= 40 && CanFinalize(opts, |payload|)
    ensures |payload| < 0x1_0000 ==>
      FromBe16(Image(h, opts, payload)[2], Image(h, opts, payload)[3]) == |Image(h, opts, payload)|
    ensures h.version == 4 ==>
      Image(h, opts, payload)[0] == 0x40 + Finalized(h, opts, |payload|).ihl
  {
    ImageLength(h, opts, payload);
    OptionsLengthIsPaddedCount(opts);
    var f := Finalized(h, opts, |payload|);
    var img := Image(h, opts, payload);
    var e := f.Encode();
    assert img[..20] == e;
    assert e[..10] == f.Front();
    assert img[0] == f.VersionIhl() && [img[2], img[3]] == BeBytes16(f.totalLength);
    if |payload| < 0x1_0000 {
      assert f.totalLength == |img|;
    }
    if h.version == 4 {
      assert f.version == 4 && f.ihl < 0x10;
      assert f.VersionIhl() == 0x40 + f.ihl;
    }
  }

  /**
   * The receiver's check: the checksum of the emitted header and options,
   * checksum field included, is 0; and the checksum stored in the header
   * is what bytes 10-11 of the output hold.
   */
  lemma EmittedHeaderVerifies(h: Ipv4Header, opts: seq<Ipv4Option>, payload: seq<uint8>)
    requires CanFinalize(opts, |payload|)
    ensures Checksum.InternetChecksum(Image(h, opts, payload)[..20 + |EncodeOptions(opts)|]) == 0
    ensures FromBe16(Image(h, opts, payload)[10], Image(h, opts, payload)[11])
      == Finalized(h, opts, |payload|).headerChecksum
  {
    var f := Finalized(h, opts, |payload|);
    var enc := EncodeOptions(opts);
    var img := Image(h, opts, payload);
    var emitted := f.Encode() + enc;
    assert img[..20 + |enc|] == emitted;
    FinalizedChecksum(h, opts, |payload|);
    ChecksumInputZeroesField(f, opts);
    var zeroed := ChecksumInput(f, opts);
    var front, addresses := f.Front(), f.sourceAddress + f.destinationAddress;
    assert f.(headerChecksum := 0).Front() == front;
    assert zeroed == front + [0, 0] + (addresses + enc);
    Checksum.ChecksumVerifies(front, addresses + enc, f.headerChecksum);
    assert emitted == front + BeBytes16(f.headerChecksum) + (addresses + enc);
    assert img[10..12] == BeBytes16(f.headerChecksum);
  }

  /** A packet without options carrying four payload bytes over UDP. */
  lemma ExampleNoOptions(h: Ipv4Header, src: Ipv4Address, dst: Ipv4Address, payload: seq<uint8>)
    requires h == Ipv4Header.New(src, dst, 17) && |payload| == 4
    ensures var img := Image(h, [], payload);
      |img| == 24 && img[0] == 0x45 && img[1] == 0 && img[2] == 0 && img[3] == 0x18
      && img[9] == 17 && img[12..16] == src && img[16..20] == dst && img[20..24] == payload
  {
    ImageLengthField(h, [], payload);
    var f := Finalized(h, [], |payload|);
    var img := Image(h, [], payload);
    var e := f.Encode();
    assert img[..20] == e && img[20..24] == payload;
    assert e[..10] == f.Front() && e[12..16] == src && e[16..20] == dst;
    FromBe16Inverse(img[2], img[3]);
  }

  /** The same shape with a no-op and an end-of-list option over ICMP: IHL 6, 28 bytes. */
  lemma ExampleWithOptions(h: Ipv4Header, src: Ipv4Address, dst: Ipv4Address, payload: seq<uint8>)
    requires h == Ipv4Header.New(src, dst, 1) && |payload| == 4
    ensures CanFinalize([NoOperation, EndOfOptionsList], |payload|)
    ensures var img := Image(h, [NoOperation, EndOfOptionsList], payload);
      |img| == 28 && img[0] == 0x46 && img[2] == 0 && img[3] == 0x1C && img[9] == 1
      && img[12..16] == src && img[16..20] == dst
      && img[20..24] == [1, 0, 0, 0] && img[24..28] == payload
  {
    var opts := [NoOperation, EndOfOptionsList];
    OptionsLengthIsPaddedCount(opts);
    ImageLengthField(h, opts, payload);
    Ipv4OptionsCodec.EncodeLayout(opts);
    var f := Finalized(h, opts, |payload|);
    var img := Image(h, opts, payload);
    var enc := EncodeOptions(opts);
    var e := f.Encode();
    assert enc[0] == 1 && enc[1] == 0 && enc[2] == 0 && enc[3] == 0;
    assert img[..20] == e && img[20..24] == enc && img[24..28] == payload;
    assert e[..10] == f.Front() && e[12..16] == src && e[16..20] == dst;
    FromBe16Inverse(img[2], img[3]);
  }

  /** A fragment with more-fragments set, offset 185 and identification 0xABCD. */
  lemma ExampleFragment(h: Ipv4Header, src: Ipv4Address, dst: Ipv4Address, payload: seq<uint8>)
    requires h == Ipv4Header.New(src, dst, 17)
                   .(flags := Ipv4Flags(false, false, true), fragmentOffset := 185, identification := 0xABCD)
    requires |payload| == 8
    ensures var img := Image(h, [], payload);
      |img| == 28 && img[4] == 0xAB && img[5] == 0xCD && img[6] == 0x20 && img[7] == 0xB9
      && img[20..28] == payload
  {
    ImageLength(h, [], payload);
    var f := Finalized(h, [], |payload|);
    var img := Image(h, [], payload);
    var e := f.Encode();
    assert img[..20] == e && img[20..28] == payload;
    assert e[..10] == f.Front();
    assert f.Front()[4..6] == BeBytes16(0xABCD);
    assert f.flags.Word(f.fragmentOffset) == 0x20B9;
    assert f.Front()[6..8] == BeBytes16(0x20B9);
  }
}

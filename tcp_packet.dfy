/**
 * Assembly of a TCP segment: header, options and payload. Before
 * serialising, the segment sets the data offset from the options and
 * computes the RFC 1071 checksum over a pseudo-header (RFC 9293 section 3.1
 * for IPv4, RFC 8200 section 8.1 for IPv6) followed by the header with its
 * checksum field cleared, the padded options and the payload.
 */
module TcpPacketAssembly {
  import opened Bytes
  import Checksum
  import Ipv4HeaderCodec
  import opened TcpHeaderCodec
  import opened TcpOptionsCodec

  type Ipv4Address = Ipv4HeaderCodec.Ipv4Address
  type Ipv6Address = a: seq<uint8> | |a| == 16 witness [0, 0, 0, 0, 0, 0, 0, 0, 0, 0, 0, 0, 0, 0, 0, 0]

  /** The protocol number of TCP, the pseudo-header's protocol / next-header value. */
  const TcpProtocol: uint8 := 6

  /** `tcp_length`: four bytes per word of the header's current data offset, plus the payload. */
  function SegmentLength(h: TcpHeader, payloadLength: nat): nat
  {
    h.dataOffset as int * 4 + payloadLength
  }

  /** The header with bytes 16-17 cleared, then the padded options. */
  function SegmentBytes(h: TcpHeader, opts: seq<TcpOption>): (b: seq<uint8>)
    ensures |b| == 20 + |EncodeOptions(opts)|
  {
    h.Encode()[16 := 0][17 := 0] + EncodeOptions(opts)
  }

  /** The two summing loops: header and options, then the payload, each padded separately. */
  function SegmentSum(h: TcpHeader, opts: seq<TcpOption>, payload: seq<uint8>): nat
  {
    Checksum.WordSum(SegmentBytes(h, opts)) + Checksum.WordSum(payload)
  }

  /** `calculate_checksum_ipv4`: the address words, the protocol and `tcp_length` added as values, then the segment. */
  function ChecksumIpv4(h: TcpHeader, opts: seq<TcpOption>, payload: seq<uint8>, src: Ipv4Address, dst: Ipv4Address): uint16
  {
    0xFFFF - Checksum.Fold(Checksum.WordSum(src) + Checksum.WordSum(dst) + TcpProtocol
                           + SegmentLength(h, |payload|) + SegmentSum(h, opts, payload))
  }

  /** `calculate_checksum_ipv6`: the address words, then `tcp_length` and the next header added as values, then the segment. */
  function ChecksumIpv6(h: TcpHeader, opts: seq<TcpOption>, payload: seq<uint8>, src: Ipv6Address, dst: Ipv6Address): uint16
  {
    0xFFFF - Checksum.Fold(Checksum.WordSum(src) + Checksum.WordSum(dst) + SegmentLength(h, |payload|)
                           + TcpProtocol + SegmentSum(h, opts, payload))
  }

  /** The IPv4 pseudo-header of RFC 9293 section 3.1: addresses, a zero byte, the protocol, the 16-bit TCP length. */
  function PseudoHeaderIpv4(src: Ipv4Address, dst: Ipv4Address, length: uint16): (p: seq<uint8>)
    ensures |p| == 12
  {
    src + dst + [0, TcpProtocol] + BeBytes16(length)
  }

  /** The IPv6 pseudo-header of RFC 8200 section 8.1: addresses, the 32-bit length, three zero bytes, the next header. */
  function PseudoHeaderIpv6(src: Ipv6Address, dst: Ipv6Address, length: uint32): (p: seq<uint8>)
    ensures |p| == 40
  {
    src + dst + BeBytes32(length) + [0, 0, 0, TcpProtocol]
  }

  /** `update_data_offset` adds five header words to the option words in a u8 without overflow. */
  predicate CanFinalize(opts: seq<TcpOption>)
  {
    OptionsWords(opts) <= 250
  }

  function WithDataOffset(h: TcpHeader, opts: seq<TcpOption>): TcpHeader
    requires CanFinalize(opts)
  {
    h.(dataOffset := 5 + OptionsWords(opts))
  }

  /** The header as `to_bytes_ipv4` leaves it: data offset, then checksum, recomputed. */
  function FinalizedIpv4(h: TcpHeader, opts: seq<TcpOption>, payload: seq<uint8>, src: Ipv4Address, dst: Ipv4Address): (f: TcpHeader)
    requires CanFinalize(opts)
    ensures f.(dataOffset := h.dataOffset, checksum := h.checksum) == h
  {
    var d := WithDataOffset(h, opts);
    d.(checksum := ChecksumIpv4(d, opts, payload, src, dst))
  }

  /** The header as `to_bytes_ipv6` leaves it. */
  function FinalizedIpv6(h: TcpHeader, opts: seq<TcpOption>, payload: seq<uint8>, src: Ipv6Address, dst: Ipv6Address): (f: TcpHeader)
    requires CanFinalize(opts)
    ensures f.(dataOffset := h.dataOffset, checksum := h.checksum) == h
  {
    var d := WithDataOffset(h, opts);
    d.(checksum := ChecksumIpv6(d, opts, payload, src, dst))
  }

  /** The bytes `to_bytes_ipv4` returns. */
  function ImageIpv4(h: TcpHeader, opts: seq<TcpOption>, payload: seq<uint8>, src: Ipv4Address, dst: Ipv4Address): seq<uint8>
    requires CanFinalize(opts)
  {
    FinalizedIpv4(h, opts, payload, src, dst).Encode() + EncodeOptions(opts) + payload
  }

  /** The bytes `to_bytes_ipv6` returns. */
  function ImageIpv6(h: TcpHeader, opts: seq<TcpOption>, payload: seq<uint8>, src: Ipv6Address, dst: Ipv6Address): seq<uint8>
    requires CanFinalize(opts)
  {
    FinalizedIpv6(h, opts, payload, src, dst).Encode() + EncodeOptions(opts) + payload
  }

  class TcpPacket {
    var header: TcpHeader
    var options: TcpOptions
    var payload: seq<uint8>

    constructor (sourcePort: uint16, destinationPort: uint16, payload: seq<uint8>)
      ensures header == TcpHeader.New(sourcePort, destinationPort)
      ensures fresh(options) && options.options == []
      ensures this.payload == payload
    {
      header := TcpHeader.New(sourcePort, destinationPort);
      options := new TcpOptions();
      this.payload := payload;
    }

    /** `update_data_offset`: five header words plus the option words; nothing else changes. */
    method UpdateDataOffset()
      requires CanFinalize(options.options)
      modifies this
      ensures options == old(options) && payload == old(payload)
      ensures header == WithDataOffset(old(header), options.options)
    {
      var headerWords := 5;
      var optionWords := options.WordsNeeded();
      header := header.(dataOffset := headerWords + optionWords);
    }

    method CalculateChecksumIpv4(src: Ipv4Address, dst: Ipv4Address) returns (checksum: uint16)
      ensures checksum == ChecksumIpv4(header, options.options, payload, src, dst)
    {
      var sum := 0;
      sum := sum + FromBe16(src[0], src[1]);
      sum := sum + FromBe16(src[2], src[3]);
      sum := sum + FromBe16(dst[0], dst[1]);
      sum := sum + FromBe16(dst[2], dst[3]);
      sum := sum + TcpProtocol;
      var tcpLength := header.dataOffset as int * 4 + |payload|;
      sum := sum + tcpLength;
      var headerBytes := header.ToBytes();
      headerBytes := headerBytes[16 := 0];
      headerBytes := headerBytes[17 := 0];
      var optionBytes := options.ToBytes();
      headerBytes := headerBytes + optionBytes;
      sum := Checksum.AddWords(sum, headerBytes);
      sum := Checksum.AddWords(sum, payload);
      WordSumOfAddress(src);
      WordSumOfAddress(dst);
      checksum := Checksum.FoldAndComplement(sum);
    }

    method CalculateChecksumIpv6(src: Ipv6Address, dst: Ipv6Address) returns (checksum: uint16)
      ensures checksum == ChecksumIpv6(header, options.options, payload, src, dst)
    {
      var sum := 0;
      sum := Checksum.AddWords(sum, src);
      sum := Checksum.AddWords(sum, dst);
      var tcpLength := header.dataOffset as int * 4 + |payload|;
      sum := sum + tcpLength;
      sum := sum + TcpProtocol;
      var headerBytes := header.ToBytes();
      headerBytes := headerBytes[16 := 0];
      headerBytes := headerBytes[17 := 0];
      var optionBytes := options.ToBytes();
      headerBytes := headerBytes + optionBytes;
      sum := Checksum.AddWords(sum, headerBytes);
      sum := Checksum.AddWords(sum, payload);
      checksum := Checksum.FoldAndComplement(sum);
    }

    /** `to_bytes_ipv4`: finalizes the header in place, then serialises the segment. */
    method ToBytesIpv4(src: Ipv4Address, dst: Ipv4Address) returns (bytes: seq<uint8>)
      requires CanFinalize(options.options)
      modifies this
      ensures options == old(options) && payload == old(payload)
      ensures header == FinalizedIpv4(old(header), options.options, payload, src, dst)
      ensures bytes == ImageIpv4(old(header), options.options, payload, src, dst)
    {
      UpdateDataOffset();
      var checksum := CalculateChecksumIpv4(src, dst);
      header := header.(checksum := checksum);
      bytes := header.ToBytes();
      var optionBytes := options.ToBytes();
      bytes := bytes + optionBytes;
      bytes := bytes + payload;
    }

    /** `to_bytes_ipv6`: the same with the IPv6 checksum. */
    method ToBytesIpv6(src: Ipv6Address, dst: Ipv6Address) returns (bytes: seq<uint8>)
      requires CanFinalize(options.options)
      modifies this
      ensures options == old(options) && payload == old(payload)
      ensures header == FinalizedIpv6(old(header), options.options, payload, src, dst)
      ensures bytes == ImageIpv6(old(header), options.options, payload, src, dst)
    {
      UpdateDataOffset();
      var checksum := CalculateChecksumIpv6(src, dst);
      header := header.(checksum := checksum);
      bytes := header.ToBytes();
      var optionBytes := options.ToBytes();
      bytes := bytes + optionBytes;
      bytes := bytes + payload;
    }
  }

  /** The two explicit `from_be_bytes` pairs of an IPv4 address are its word sum. */
  lemma WordSumOfAddress(a: Ipv4Address)
    ensures Checksum.WordSum(a) == FromBe16(a[0], a[1]) + FromBe16(a[2], a[3])
  {
    var t := a[2..];
    assert t[2..] == [];
    assert Checksum.WordSum(t) == t[0] as int * 0x100 + t[1];
  }

  /** A 32-bit value's two words sum to the value modulo 0xFFFF. */
  lemma WordSumBe32(v: uint32)
    ensures Checksum.WordSum(BeBytes32(v)) % 0xFFFF == v % 0xFFFF
  {
    var b := BeBytes32(v);
    var hi, lo := v / 0x1_0000, v % 0x1_0000;
    var t := b[2..];
    assert t[2..] == [];
    assert Checksum.WordSum(t) == t[0] as int * 0x100 + t[1];
    assert Checksum.WordSum(b) == b[0] as int * 0x100 + b[1] + (b[2] as int * 0x100 + b[3]);
    assert b[2] as int * 0x100 + b[3] == lo;
    assert b[0] as int * 0x100 + b[1] == hi;
    assert v == 0xFFFF * hi + (hi + lo);
    Checksum.ModMultipleAdd(hi, hi + lo);
  }

  /** Sums with the same residue modulo 0xFFFF that are both zero or both positive fold to the same word. */
  lemma FoldCongruent(s: nat, t: nat)
    requires s % 0xFFFF == t % 0xFFFF && (s == 0 <==> t == 0)
    ensures Checksum.Fold(s) == Checksum.Fold(t)
  {
    var a, b := Checksum.Fold(s), Checksum.Fold(t);
    assert a % 0xFFFF == b % 0xFFFF;
    if a == 0xFFFF || b == 0xFFFF {
      assert a != 0 && b != 0;
    }
  }

  /** Clearing bytes 16-17 of the encoding is encoding with a zero checksum. */
  lemma SegmentBytesZeroField(h: TcpHeader, opts: seq<TcpOption>)
    ensures SegmentBytes(h, opts) == h.(checksum := 0).Encode() + EncodeOptions(opts)
  {
    var z := h.(checksum := 0);
    assert z.Front() == h.Front();
    var cleared := h.Encode()[16 := 0][17 := 0];
    assert cleared == h.Front() + [0, 0] + BeBytes16(h.urgentPointer);
  }

  /** The summed segment does not depend on the checksum value already stored in the header. */
  lemma SegmentSumIgnoresStoredField(h: TcpHeader, opts: seq<TcpOption>, payload: seq<uint8>, stored: uint16)
    ensures SegmentSum(h.(checksum := stored), opts, payload) == SegmentSum(h, opts, payload)
  {
    SegmentBytesZeroField(h, opts);
    SegmentBytesZeroField(h.(checksum := stored), opts);
    assert h.(checksum := stored).(checksum := 0) == h.(checksum := 0);
  }

  /** The pseudo-header of RFC 9293 section 3.1 sums to the values `calculate_checksum_ipv4` adds. */
  lemma PseudoHeaderIpv4Sum(src: Ipv4Address, dst: Ipv4Address, length: uint16)
    ensures Checksum.WordSum(PseudoHeaderIpv4(src, dst, length))
      == Checksum.WordSum(src) + Checksum.WordSum(dst) + TcpProtocol + length
  {
    var protocol: seq<uint8> := [0, TcpProtocol];
    assert protocol[2..] == [];
    Checksum.WordSumAppend(src, dst);
    Checksum.WordSumAppend(src + dst, protocol);
    Checksum.WordSumAppend(src + dst + protocol, BeBytes16(length));
    Checksum.WordSumBe16(length);
  }

  /** The pseudo-header of RFC 8200 section 8.1 sums to the values `calculate_checksum_ipv6` adds, modulo 0xFFFF. */
  lemma PseudoHeaderIpv6Sum(src: Ipv6Address, dst: Ipv6Address, length: uint32)
    ensures Checksum.WordSum(PseudoHeaderIpv6(src, dst, length))
      == Checksum.WordSum(src) + Checksum.WordSum(dst) + Checksum.WordSum(BeBytes32(length)) + TcpProtocol
  {
    var next: seq<uint8> := [0, 0, 0, TcpProtocol];
    assert next[2..] == [0, TcpProtocol] && next[2..][2..] == [];
    assert Checksum.WordSum(next[2..]) == TcpProtocol;
    assert Checksum.WordSum(next) == TcpProtocol;
    Checksum.WordSumAppend(src, dst);
    Checksum.WordSumAppend(src + dst, BeBytes32(length));
    Checksum.WordSumAppend(src + dst + BeBytes32(length), next);
  }

  /** An even-length pseudo-header followed by the segment sums to the pseudo-header plus `SegmentSum`. */
  lemma PrefixedSegmentSum(ph: seq<uint8>, h: TcpHeader, opts: seq<TcpOption>, payload: seq<uint8>)
    requires |ph| % 2 == 0 && SumLengths(opts) <= 1020
    ensures Checksum.WordSum(ph + SegmentBytes(h, opts) + payload)
      == Checksum.WordSum(ph) + SegmentSum(h, opts, payload)
  {
    var s := SegmentBytes(h, opts);
    EncodedLength(opts);
    assert |s| % 2 == 0;
    Checksum.WordSumAppend3(ph, s, payload);
  }

  /**
   * `calculate_checksum_ipv4` is the RFC 1071 checksum of the RFC 9293
   * pseudo-header followed by the segment with its checksum cleared,
   * provided the option bytes have even length and `tcp_length` fits its
   * 16-bit field. The length is the one the header's current data offset
   * gives, whatever the options are.
   */
  lemma Ipv4PseudoHeaderEquivalence(h: TcpHeader, opts: seq<TcpOption>, payload: seq<uint8>, src: Ipv4Address, dst: Ipv4Address)
    requires SumLengths(opts) <= 1020 && SegmentLength(h, |payload|) < 0x1_0000
    ensures ChecksumIpv4(h, opts, payload, src, dst)
      == Checksum.InternetChecksum(PseudoHeaderIpv4(src, dst, SegmentLength(h, |payload|)) + SegmentBytes(h, opts) + payload)
  {
    var len := SegmentLength(h, |payload|);
    PseudoHeaderIpv4Sum(src, dst, len);
    PrefixedSegmentSum(PseudoHeaderIpv4(src, dst, len), h, opts, payload);
  }

  /**
   * `calculate_checksum_ipv6` is the RFC 1071 checksum of the RFC 8200
   * pseudo-header followed by the segment, for any length that fits the
   * pseudo-header's 32-bit field: adding the length as one value and as two
   * words agrees modulo 0xFFFF.
   */
  lemma Ipv6PseudoHeaderEquivalence(h: TcpHeader, opts: seq<TcpOption>, payload: seq<uint8>, src: Ipv6Address, dst: Ipv6Address)
    requires SumLengths(opts) <= 1020 && SegmentLength(h, |payload|) < 0x1_0000_0000
    ensures ChecksumIpv6(h, opts, payload, src, dst)
      == Checksum.InternetChecksum(PseudoHeaderIpv6(src, dst, SegmentLength(h, |payload|)) + SegmentBytes(h, opts) + payload)
  {
    var len := SegmentLength(h, |payload|);
    PseudoHeaderIpv6Sum(src, dst, len);
    PrefixedSegmentSum(PseudoHeaderIpv6(src, dst, len), h, opts, payload);
    var rest := Checksum.WordSum(src) + Checksum.WordSum(dst) + TcpProtocol + SegmentSum(h, opts, payload);
    WordSumBe32(len);
    SameResidueFold(len, Checksum.WordSum(BeBytes32(len)), rest);
  }

  /** Adding values with the same residue modulo 0xFFFF to a positive sum folds to the same word. */
  lemma SameResidueFold(x: nat, y: nat, rest: nat)
    requires x % 0xFFFF == y % 0xFFFF && rest > 0
    ensures Checksum.Fold(rest + x) == Checksum.Fold(rest + y)
  {
    var r := x % 0xFFFF;
    assert x == 0xFFFF * (x / 0xFFFF) + r;
    assert y == 0xFFFF * (y / 0xFFFF) + r;
    Checksum.ModMultipleAdd(x / 0xFFFF, rest + r);
    Checksum.ModMultipleAdd(y / 0xFFFF, rest + r);
    assert rest + x == 0xFFFF * (x / 0xFFFF) + (rest + r);
    assert rest + y == 0xFFFF * (y / 0xFFFF) + (rest + r);
    FoldCongruent(rest + x, rest + y);
  }

  /** Neither checksum depends on the checksum value already stored in the header. */
  lemma ChecksumIgnoresStoredField(h: TcpHeader, opts: seq<TcpOption>, payload: seq<uint8>, stored: uint16)
    ensures forall src: Ipv4Address, dst: Ipv4Address {:trigger ChecksumIpv4(h, opts, payload, src, dst)} ::
      ChecksumIpv4(h.(checksum := stored), opts, payload, src, dst) == ChecksumIpv4(h, opts, payload, src, dst)
    ensures forall src: Ipv6Address, dst: Ipv6Address {:trigger ChecksumIpv6(h, opts, payload, src, dst)} ::
      ChecksumIpv6(h.(checksum := stored), opts, payload, src, dst) == ChecksumIpv6(h, opts, payload, src, dst)
  {
    SegmentSumIgnoresStoredField(h, opts, payload, stored);
  }

  /** The checksum `to_bytes_ipv4` stores is the checksum of the finished header itself. */
  lemma FinalizedChecksumIpv4(h: TcpHeader, opts: seq<TcpOption>, payload: seq<uint8>, src: Ipv4Address, dst: Ipv4Address)
    requires CanFinalize(opts)
    ensures var f := FinalizedIpv4(h, opts, payload, src, dst);
      f.checksum == ChecksumIpv4(f, opts, payload, src, dst)
  {
    var d := WithDataOffset(h, opts);
    SegmentSumIgnoresStoredField(d, opts, payload, ChecksumIpv4(d, opts, payload, src, dst));
  }

  /** The checksum `to_bytes_ipv6` stores is the checksum of the finished header itself. */
  lemma FinalizedChecksumIpv6(h: TcpHeader, opts: seq<TcpOption>, payload: seq<uint8>, src: Ipv6Address, dst: Ipv6Address)
    requires CanFinalize(opts)
    ensures var f := FinalizedIpv6(h, opts, payload, src, dst);
      f.checksum == ChecksumIpv6(f, opts, payload, src, dst)
  {
    var d := WithDataOffset(h, opts);
    SegmentSumIgnoresStoredField(d, opts, payload, ChecksumIpv6(d, opts, payload, src, dst));
  }

  /** Finalizing twice changes nothing, so a second `to_bytes_ipv4` returns the same bytes. */
  lemma ToBytesIpv4Idempotent(h: TcpHeader, opts: seq<TcpOption>, payload: seq<uint8>, src: Ipv4Address, dst: Ipv4Address)
    requires CanFinalize(opts)
    ensures FinalizedIpv4(FinalizedIpv4(h, opts, payload, src, dst), opts, payload, src, dst)
      == FinalizedIpv4(h, opts, payload, src, dst)
    ensures ImageIpv4(FinalizedIpv4(h, opts, payload, src, dst), opts, payload, src, dst)
      == ImageIpv4(h, opts, payload, src, dst)
  {
    FinalizedChecksumIpv4(h, opts, payload, src, dst);
    var f := FinalizedIpv4(h, opts, payload, src, dst);
    assert WithDataOffset(f, opts) == f;
  }

  /** Finalizing twice changes nothing, so a second `to_bytes_ipv6` returns the same bytes. */
  lemma ToBytesIpv6Idempotent(h: TcpHeader, opts: seq<TcpOption>, payload: seq<uint8>, src: Ipv6Address, dst: Ipv6Address)
    requires CanFinalize(opts)
    ensures FinalizedIpv6(FinalizedIpv6(h, opts, payload, src, dst), opts, payload, src, dst)
      == FinalizedIpv6(h, opts, payload, src, dst)
    ensures ImageIpv6(FinalizedIpv6(h, opts, payload, src, dst), opts, payload, src, dst)
      == ImageIpv6(h, opts, payload, src, dst)
  {
    FinalizedChecksumIpv6(h, opts, payload, src, dst);
    var f := FinalizedIpv6(h, opts, payload, src, dst);
    assert WithDataOffset(f, opts) == f;
  }

  /**
   * Layout of a serialised segment whose data offset was set from the
   * options: `20 + 4 * words_needed() + |payload|` bytes, which is the
   * `tcp_length` the checksum used; the header, then the padded options,
   * then the payload; bytes 16-17 hold the stored checksum; and with at
   * most 40 option bytes the high nibble of byte 12 is the data offset.
   */
  lemma SegmentLayout(f: TcpHeader, opts: seq<TcpOption>, payload: seq<uint8>)
    requires CanFinalize(opts) && SumLengths(opts) <= 1020 && f.dataOffset == 5 + OptionsWords(opts)
    ensures var img := f.Encode() + EncodeOptions(opts) + payload;
      && |img| == 20 + 4 * OptionsWords(opts) as int + |payload| == SegmentLength(f, |payload|)
      && img[..20] == f.Encode() && img[20..] == EncodeOptions(opts) + payload
      && FromBe16(img[16], img[17]) == f.checksum
      && (SumLengths(opts) <= 40 ==> img[12] / 0x10 == f.dataOffset)
  {
    EncodedLength(opts);
    TcpHeaderCodec.EncodeLayout(f);
    var img := f.Encode() + EncodeOptions(opts) + payload;
    assert img[..20] == f.Encode();
    assert img[12] == f.Encode()[12] && img[16] == f.Encode()[16] && img[17] == f.Encode()[17];
  }

  /**
   * Writing the checksum of a pseudo-header and a cleared segment into
   * bytes 16-17 of the segment makes the checksum of the whole 0.
   */
  lemma StoredChecksumVerifies(f: TcpHeader, opts: seq<TcpOption>, payload: seq<uint8>, ph: seq<uint8>)
    requires |ph| % 2 == 0
    requires Checksum.InternetChecksum(ph + SegmentBytes(f, opts) + payload) == f.checksum
    ensures Checksum.InternetChecksum(ph + (f.Encode() + EncodeOptions(opts) + payload)) == 0
  {
    var pre, post := ph + f.Front(), BeBytes16(f.urgentPointer) + EncodeOptions(opts) + payload;
    SegmentAroundChecksum(f, opts, payload, ph);
    Checksum.ChecksumVerifies(pre, post, f.checksum);
  }

  /** The message summed and the message emitted differ only in the two checksum bytes after the header's first 16. */
  lemma SegmentAroundChecksum(f: TcpHeader, opts: seq<TcpOption>, payload: seq<uint8>, ph: seq<uint8>)
    ensures var pre, post := ph + f.Front(), BeBytes16(f.urgentPointer) + EncodeOptions(opts) + payload;
      && ph + SegmentBytes(f, opts) + payload == pre + [0, 0] + post
      && ph + (f.Encode() + EncodeOptions(opts) + payload) == pre + BeBytes16(f.checksum) + post
  {
    SegmentBytesZeroField(f, opts);
    var front, urgent, enc := f.Front(), BeBytes16(f.urgentPointer), EncodeOptions(opts);
    assert f.(checksum := 0).Front() == front;
    assert SegmentBytes(f, opts) == front + [0, 0] + urgent + enc;
  }

  /**
   * The receiver's check over IPv4: the checksum of the pseudo-header for
   * the emitted length followed by the emitted segment, checksum included,
   * is 0.
   */
  lemma EmittedSegmentVerifiesIpv4(h: TcpHeader, opts: seq<TcpOption>, payload: seq<uint8>, src: Ipv4Address, dst: Ipv4Address)
    requires CanFinalize(opts) && SumLengths(opts) <= 1020
    requires |ImageIpv4(h, opts, payload, src, dst)| < 0x1_0000
    ensures var img := ImageIpv4(h, opts, payload, src, dst);
      Checksum.InternetChecksum(PseudoHeaderIpv4(src, dst, |img|) + img) == 0
  {
    var f := FinalizedIpv4(h, opts, payload, src, dst);
    var img := ImageIpv4(h, opts, payload, src, dst);
    assert img == f.Encode() + EncodeOptions(opts) + payload;
    SegmentLayout(f, opts, payload);
    FinalizedChecksumIpv4(h, opts, payload, src, dst);
    Ipv4PseudoHeaderEquivalence(f, opts, payload, src, dst);
    var ph := PseudoHeaderIpv4(src, dst, |img|);
    var zeroed := ph + SegmentBytes(f, opts) + payload;
    assert Checksum.InternetChecksum(zeroed) == f.checksum;
    StoredChecksumVerifies(f, opts, payload, ph);
  }

  /** The receiver's check over IPv6, for any length that fits the pseudo-header's 32-bit field. */
  lemma EmittedSegmentVerifiesIpv6(h: TcpHeader, opts: seq<TcpOption>, payload: seq<uint8>, src: Ipv6Address, dst: Ipv6Address)
    requires CanFinalize(opts) && SumLengths(opts) <= 1020
    requires |ImageIpv6(h, opts, payload, src, dst)| < 0x1_0000_0000
    ensures var img := ImageIpv6(h, opts, payload, src, dst);
      Checksum.InternetChecksum(PseudoHeaderIpv6(src, dst, |img|) + img) == 0
  {
    var f := FinalizedIpv6(h, opts, payload, src, dst);
    var img := ImageIpv6(h, opts, payload, src, dst);
    assert img == f.Encode() + EncodeOptions(opts) + payload;
    SegmentLayout(f, opts, payload);
    FinalizedChecksumIpv6(h, opts, payload, src, dst);
    Ipv6PseudoHeaderEquivalence(f, opts, payload, src, dst);
    var ph := PseudoHeaderIpv6(src, dst, |img|);
    var zeroed := ph + SegmentBytes(f, opts) + payload;
    assert Checksum.InternetChecksum(zeroed) == f.checksum;
    StoredChecksumVerifies(f, opts, payload, ph);
  }

  /**
   * The first bytes of the `to_bytes_ipv4` output: the two ports, byte 12
   * with the recomputed data offset, the flag byte, then the options.
   */
  lemma ImageIpv4Prefix(h: TcpHeader, opts: seq<TcpOption>, payload: seq<uint8>, src: Ipv4Address, dst: Ipv4Address)
    requires CanFinalize(opts)
    ensures var img := ImageIpv4(h, opts, payload, src, dst);
      && |img| == 20 + |EncodeOptions(opts)| + |payload|
      && img[..4] == BeBytes16(h.sourcePort) + BeBytes16(h.destinationPort)
      && img[12] == WithDataOffset(h, opts).OffsetByte() && img[13] == h.flags.Bits() as int
      && img[20..20 + |EncodeOptions(opts)|] == EncodeOptions(opts)
  {
    var f := FinalizedIpv4(h, opts, payload, src, dst);
    var img := f.Encode() + EncodeOptions(opts) + payload;
    assert f.OffsetByte() == WithDataOffset(h, opts).OffsetByte();
    assert img[..16] == f.Front();
    assert img[..4] == f.Front()[..4];
  }

  /**
   * A SYN from port 12345 to port 80 with sequence number 0x12345678,
   * window 65535 and an MSS of 1460: 24 bytes, data offset 6, the SYN bit
   * alone in byte 13, and the option after the header.
   */
  lemma ExampleSynWithMss(h: TcpHeader, src: Ipv4Address, dst: Ipv4Address)
    requires h == TcpHeader.New(12345, 80).(flags := TcpFlags.New().(syn := true),
                                             sequenceNumber := 0x12345678, window := 65535)
    ensures CanFinalize([MaximumSegmentSize(1460)])
    ensures var img := ImageIpv4(h, [MaximumSegmentSize(1460)], [], src, dst);
      && |img| == 24 && img[..4] == [0x30, 0x39, 0x00, 0x50]
      && img[12] == 0x60 && img[13] == 0x02
      && img[20..24] == [2, 4, 0x05, 0xb4]
  {
    var opts := [MaximumSegmentSize(1460)];
    MssOptionBytes();
    var d := WithDataOffset(h, opts);
    assert d.dataOffset == 6 && d.reserved == 0;
    assert d.OffsetByte() == 0x60;
    ImageIpv4Prefix(h, opts, [], src, dst);
    assert h.flags.Bits() == 0x02;
    assert BeBytes16(12345) == [0x30, 0x39] && BeBytes16(80) == [0x00, 0x50];
  }

  /** A single MSS option of 1460 fills one word: kind 2, length 4, then 0x05B4. */
  lemma MssOptionBytes()
    ensures SumLengths([MaximumSegmentSize(1460)]) == 4 && OptionsWords([MaximumSegmentSize(1460)]) == 1
    ensures EncodeOptions([MaximumSegmentSize(1460)]) == [2, 4, 0x05, 0xb4]
  {
    var opts := [MaximumSegmentSize(1460)];
    assert opts[1..] == [];
    assert Serialized(opts) == [2, 4, 0x05, 0xb4];
  }
}

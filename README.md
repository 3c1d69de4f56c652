# packet-builder: a verified model of the header codecs

This project models the byte-exact core of the `packet-builder` Rust crate in Dafny:

- the IPv4 header codec, its options codec and the IPv4 packet assembler (RFC 791 section 3.1);
- the TCP header codec, its options codec and the TCP segment assembler (RFC 9293 sections 3.1 and 3.2);
- the Ethernet header and frame splitter and the EtherType table;
- the MAC address predicates and their colon-separated hex display;
- the one's-complement Internet checksum of RFC 1071 section 1, shared by the IPv4 header and by TCP
  over IPv4 (RFC 9293 section 3.1 pseudo-header) and over IPv6 (RFC 8200 section 8.1 pseudo-header).

One module per source file:

| module | file | models |
|---|---|---|
| `Bytes` | `bytes.dfy` | byte and integer widths, big-endian conversions, zero padding |
| `Checksum` | `checksum.dfy` | the pure checksum `InternetChecksum` and the two loops that compute it |
| `Ipv4HeaderCodec` | `ipv4_header.dfy` | `src/network/ipv4/header.rs` |
| `Ipv4OptionsCodec` | `ipv4_options.dfy` | `src/network/ipv4/options.rs` |
| `Ipv4PacketAssembly` | `ipv4_packet.dfy` | `src/network/ipv4/mod.rs` |
| `TcpHeaderCodec` | `tcp_header.dfy` | `src/transport/tcp/header.rs` |
| `TcpOptionsCodec` | `tcp_options.dfy` | `src/transport/tcp/options.rs` |
| `TcpPacketAssembly` | `tcp_packet.dfy` | `src/transport/tcp/mod.rs` |
| `EtherTypeTable` | `ethertype.dfy` | `src/datalink/ethernet/ethertype.rs` |
| `EthernetCodec` | `ethernet.dfy` | `src/datalink/ethernet/header.rs` and `mod.rs` |
| `MacAddresses` | `mac_addr.dfy` | `src/address/mac_addr.rs` and its duplicate `src/address/mac_address.rs` |

How the model is built:

- Values are datatypes: headers, flags, options, EtherTypes and MAC addresses.
- The three objects the source mutates are classes with `modifies` clauses: the two option lists
  and the two packets. Their methods keep the source's loops and field updates.
- Each such method is proved equal to a pure function. For example, `Ipv4Packet.ToBytes` returns
  `Image(old(header), ...)` and leaves the header as `Finalized(old(header), ...)`.
- The properties are then lemmas about those functions: round trips, field layouts, error cases,
  idempotence, and the fact that a checksum written into its packet verifies to zero.
- Byte, u16 and u32 values are the integer ranges `uint8`, `uint16` and `uint32`.
- Shifts and masks are written arithmetically, for example `(x << 4) as u8` as
  `(x * 16) % 256` and `x & 0x0F` as `x % 16`.
- The TCP flag byte is an 8-bit vector, because the source builds it with `|=` and tests it with `&`.

All three copies of the checksum loop are proved equal to one function,
`Checksum.InternetChecksum`, which:

1. sums the big-endian 16-bit words, with an odd last byte as the high byte of a word;
2. folds the carries;
3. complements the result.

The copies are in `src/network/ipv4/mod.rs` and in both checksum methods of
`src/transport/tcp/mod.rs`. All three call the same two methods, `Checksum.AddWords` and
`Checksum.FoldAndComplement`.

## Model

| member | source | states |
|---|---|---|
| Bytes.BeBytes16 | src/network/ipv4/header.rs:110 | `to_be_bytes` on a u16 gives two bytes, high byte first, that recombine to the value |
| Bytes.FromBe16Inverse | src/network/ipv4/header.rs:162 | `from_be_bytes` of two bytes, re-encoded, gives those two bytes back |
| Bytes.BeBytes32 | src/transport/tcp/header.rs:122 | a u32 becomes four big-endian bytes that recombine to the value |
| Bytes.FromBe32Inverse | src/transport/tcp/header.rs:152 | `from_be_bytes` of four bytes, re-encoded, gives those four bytes back |
| Bytes.ByteConversion | src/transport/tcp/header.rs:157 | a byte value and its 8-bit vector are the same number |
| Bytes.VectorConversion | src/transport/tcp/header.rs:130 | an 8-bit vector is below 256 and converts back to itself |
| Bytes.NibblesRecombine | src/transport/tcp/header.rs:155 | shifting the high nibble back into place and adding the low nibble restores a byte |
| Bytes.Zeros | src/network/ipv4/options.rs:113 | the zero padding has the requested length and holds only zeros |
| Checksum.Fold | src/network/ipv4/mod.rs:63-65 | folding the carries gives a 16-bit value congruent to the sum modulo 0xFFFF, and zero only for a zero sum |
| Checksum.WordSumAppend | src/network/ipv4/mod.rs:54-60 | the word sum of an even-length prefix plus a suffix is the sum of the two word sums |
| Checksum.WordSumAppend3 | src/transport/tcp/mod.rs:57-72 | the same for three parts whose first two have even length, as in the TCP header-then-payload loops |
| Checksum.WordSumBe16 | src/network/ipv4/mod.rs:56 | the word sum of a u16's two bytes is the u16 |
| Checksum.WordSumBound | src/transport/tcp/mod.rs:35 | the word sum is at most 0xFFFF per word, which bounds the accumulator |
| Checksum.ChecksumOfZeros | src/network/ipv4/mod.rs:62-68 | an all-zero input sums to 0 and its checksum is 0xFFFF, never 0 |
| Checksum.FoldOfMultiple | src/network/ipv4/mod.rs:63-65 | a positive multiple of 0xFFFF folds to 0xFFFF |
| Checksum.WordSumSplice | src/network/ipv4/mod.rs:46-47 | a 16-bit word placed at an even offset adds its value to the word sum |
| Checksum.FoldWithComplement | src/network/ipv4/mod.rs:62-68 | adding a sum's own checksum to it folds to 0xFFFF |
| Checksum.ChecksumVerifies | src/network/ipv4/mod.rs:62-78 | writing the checksum computed over a zeroed field into that field makes the checksum of the whole zero |
| Checksum.AddWords | src/network/ipv4/mod.rs:54-60 | the `chunks(2)` loop adds the word sum of its input, an odd last byte padded as the high byte |
| Checksum.FoldAndComplement | src/network/ipv4/mod.rs:62-68 | the carry-fold loop and `!sum as u16` give 0xFFFF minus the folded sum |
| Ipv4HeaderCodec.Ipv4Flags.Word | src/network/ipv4/header.rs:47-59 | bits 15, 14 and 13 are the reserved, DF and MF flags, and the low 13 bits are the fragment offset |
| Ipv4HeaderCodec.Ipv4Flags.ToU16 | src/network/ipv4/header.rs:47-59 | the conditional OR-assignments of `to_u16` compute that word |
| Ipv4HeaderCodec.Ipv4Flags.FromU16 | src/network/ipv4/header.rs:62-70 | the offset read is below 0x2000, and re-packing the flags and offset that `from_u16` reads gives back any 16-bit value |
| Ipv4HeaderCodec.FlagsRoundTrip | src/network/ipv4/header.rs:47-70 | `from_u16(to_u16(f, off))` is `(f, off & 0x1FFF)` |
| Ipv4HeaderCodec.Ipv4Header.New | src/network/ipv4/header.rs:80-95 | `new` gives version 4, IHL 5, TTL 64, all flags clear, the given protocol and addresses, and every other field 0 |
| Ipv4HeaderCodec.Ipv4Header.Front | src/network/ipv4/header.rs:104-126 | the part before the checksum field is 10 bytes |
| Ipv4HeaderCodec.Ipv4Header.Encode | src/network/ipv4/header.rs:100-135 | `to_bytes` is always exactly 20 bytes |
| Ipv4HeaderCodec.Ipv4Header.ToBytes | src/network/ipv4/header.rs:100-135 | the push and extend sequence of `to_bytes` builds that encoding |
| Ipv4HeaderCodec.Ipv4Header.Decode | src/network/ipv4/header.rs:140-200 | `from_bytes` fails with the length, version and IHL errors exactly when each applies, in that order; on success, version is 4, IHL is 5..15, the offset is 13 bits and the header re-encodes to bytes 0-19 |
| Ipv4HeaderCodec.ParseEncodes | src/network/ipv4/header.rs:146-199 | for version 4, the field reads re-encode to the 20 input bytes |
| Ipv4HeaderCodec.EncodeLayout | src/network/ipv4/header.rs:104-132 | every field of `to_bytes` lies at its RFC 791 offset: version and IHL in byte 0, flags and offset in bytes 6-7, addresses in bytes 12-19 |
| Ipv4HeaderCodec.ParseInvertsLayout | src/network/ipv4/header.rs:146-199 | bytes holding a valid header's fields parse back to that header |
| Ipv4HeaderCodec.RoundTrip | src/network/ipv4/header.rs:100-200 | `from_bytes(to_bytes(h)) == Ok(h)` whenever version is 4, IHL is 5..15 and the offset is below 0x2000; a set reserved flag survives |
| Ipv4HeaderCodec.NewRoundTrip | src/network/ipv4/header.rs:80-200 | every header built by `new` round-trips |
| Ipv4HeaderCodec.DecodeReadsTwentyBytes | src/network/ipv4/header.rs:146-184 | trailing bytes after byte 19 do not change the result of `from_bytes` |
| Ipv4OptionsCodec.Ipv4Option.OptionType | src/network/ipv4/options.rs:20-25 | the type code is 0 exactly for end-of-list and 1 for no-op |
| Ipv4OptionsCodec.Ipv4Option.Length | src/network/ipv4/options.rs:28-33 | every IPv4 option is one byte long; `ToBytes` emits and `OptionRoundTrip` consumes exactly that many bytes |
| Ipv4OptionsCodec.Ipv4Option.ToBytes | src/network/ipv4/options.rs:36-41 | an option encodes to its length in bytes, starting with its type code |
| Ipv4OptionsCodec.Ipv4Option.FromBytes | src/network/ipv4/options.rs:44-55 | empty input and a first byte above 1 fail with their own errors; otherwise one byte is consumed and it re-encodes to that byte |
| Ipv4OptionsCodec.Ipv4Options.constructor | src/network/ipv4/options.rs:67-71 | `new` holds no options |
| Ipv4OptionsCodec.OptionRoundTrip | src/network/ipv4/options.rs:36-55 | decoding an option's encoding, whatever follows, gives the option and its length |
| Ipv4OptionsCodec.Ipv4Options.Add | src/network/ipv4/options.rs:74-76 | `add` appends one option and keeps the earlier ones |
| Ipv4OptionsCodec.Ipv4Options.TotalLength | src/network/ipv4/options.rs:79-92 | the summing loop and the padding give the padded option length |
| Ipv4OptionsCodec.Ipv4Options.WordsNeeded | src/network/ipv4/options.rs:95-98 | `words_needed` is the padded length over 4, truncated to a u8 |
| Ipv4OptionsCodec.Ipv4Options.ToBytes | src/network/ipv4/options.rs:101-117 | the extend loop and the `resize` padding compute the padded encoding |
| Ipv4OptionsCodec.Ipv4Options.FromBytes | src/network/ipv4/options.rs:120-136 | the `while pos < len` loop computes the list decoder |
| Ipv4OptionsCodec.OptionsLengthIsPaddedCount | src/network/ipv4/options.rs:79-98 | `total_length` is the option count rounded up to a multiple of 4, and `words_needed` times 4 is `total_length` |
| Ipv4OptionsCodec.SerializedLayout | src/network/ipv4/options.rs:104-107 | the unpadded encoding holds one type code per option, in insertion order |
| Ipv4OptionsCodec.SerializedLength | src/network/ipv4/options.rs:104-107 | the unpadded encoding has one byte per option |
| Ipv4OptionsCodec.EncodedLength | src/network/ipv4/options.rs:101-117 | `to_bytes` is `total_length` bytes long |
| Ipv4OptionsCodec.EncodeLayout | src/network/ipv4/options.rs:101-117 | `to_bytes` is a multiple of 4 long, the option codes come first in insertion order, and the rest are zeros |
| Ipv4OptionsCodec.DecodeEmptyAndZeros | src/network/ipv4/options.rs:120-136 | empty input decodes to no options; all-zero input of any positive length decodes to exactly one end-of-list |
| Ipv4OptionsCodec.DecodeFailsIff | src/network/ipv4/options.rs:124-127 | decoding fails exactly when a byte above 1 appears before the first zero byte |
| Ipv4OptionsCodec.DecodeAfterNops | src/network/ipv4/options.rs:124-133 | a run of no-op bytes decodes to that many no-ops in front of whatever follows |
| Ipv4OptionsCodec.RoundTripToEndOfList | src/network/ipv4/options.rs:101-136 | a list whose only end-of-list is its last element round-trips through `to_bytes` and `from_bytes` |
| Ipv4OptionsCodec.RoundTripWithoutEndOfList | src/network/ipv4/options.rs:101-136 | a list of no-ops round-trips when its length is a multiple of 4, and otherwise gains one end-of-list from the padding |
| Ipv4OptionsCodec.ExampleNopNopEol | src/network/ipv4/options.rs:251-260 | NOP, NOP, EOL encodes to `[1, 1, 0, 0]`, which decodes back to those three options |
| Ipv4PacketAssembly.Finalized | src/network/ipv4/mod.rs:72-78 | `to_bytes` changes only the IHL, the total length and the checksum of the header |
| Ipv4PacketAssembly.Ipv4Packet.constructor | src/network/ipv4/mod.rs:18-24 | a new packet holds the `new` header, no options and the payload |
| Ipv4PacketAssembly.Ipv4Packet.UpdateIhl | src/network/ipv4/mod.rs:27-31 | the IHL becomes 5 plus the option words, and nothing else changes |
| Ipv4PacketAssembly.Ipv4Packet.UpdateTotalLength | src/network/ipv4/mod.rs:34-38 | the total length becomes IHL times 4 plus the payload length cast to u16, and nothing else changes |
| Ipv4PacketAssembly.Ipv4Packet.CalculateHeaderChecksum | src/network/ipv4/mod.rs:41-69 | the method computes the Internet checksum of the header with bytes 10-11 cleared, followed by the options |
| Ipv4PacketAssembly.Ipv4Packet.ToBytes | src/network/ipv4/mod.rs:72-86 | the header is left finalized, and the output is that header's encoding, then the options, then the payload |
| Ipv4PacketAssembly.ChecksumInputZeroesField | src/network/ipv4/mod.rs:45-51 | clearing bytes 10-11 of the encoding is the same as encoding a zero checksum |
| Ipv4PacketAssembly.ChecksumIgnoresStoredField | src/network/ipv4/mod.rs:41-69 | the header checksum does not depend on the stored checksum value |
| Ipv4PacketAssembly.FinalizedChecksum | src/network/ipv4/mod.rs:72-78 | the finalized header stores the checksum of itself |
| Ipv4PacketAssembly.ToBytesIdempotent | src/network/ipv4/mod.rs:72-86 | finalizing twice is finalizing once, so a second `to_bytes` emits the same bytes |
| Ipv4PacketAssembly.ImageLength | src/network/ipv4/mod.rs:72-86 | the output is 20 plus `total_length` of the options plus the payload length, and IHL times 4 is the header length |
| Ipv4PacketAssembly.ImageLengthField | src/network/ipv4/mod.rs:27-38 | the emitted total-length field equals the output length, and byte 0 is 0x40 plus the IHL |
| Ipv4PacketAssembly.EmittedHeaderVerifies | src/network/ipv4/mod.rs:62-81 | the checksum of the emitted header and options, checksum included, is 0, and bytes 10-11 hold the stored checksum |
| Ipv4PacketAssembly.ExampleNoOptions | src/network/ipv4/mod.rs:127-161 | the UDP packet with a 4-byte payload and no options is 24 bytes, with byte 0 0x45 and total length 0x0018 |
| Ipv4PacketAssembly.ExampleWithOptions | src/network/ipv4/mod.rs:164-201 | with NOP and EOL it is 28 bytes, with byte 0 0x46 and options `[1, 0, 0, 0]` |
| Ipv4PacketAssembly.ExampleFragment | src/network/ipv4/mod.rs:204-229 | MF with offset 185 and identification 0xABCD give bytes 4-7 `[0xAB, 0xCD, 0x20, 0xB9]` |
| TcpHeaderCodec.TcpFlags.New | src/transport/tcp/header.rs:30-41 | `new` clears every flag, so its byte is 0 |
| TcpHeaderCodec.TcpFlags.Bits | src/transport/tcp/header.rs:43-72 | each flag owns one bit of the byte: FIN bit 0 up to CWR bit 7 |
| TcpHeaderCodec.TcpFlags.ToU16 | src/transport/tcp/header.rs:45-72 | the OR-assigning accumulator of `to_u16` gives that byte, below 256 |
| TcpHeaderCodec.TcpFlags.FromByte | src/transport/tcp/header.rs:75-86 | reading the eight bits of a byte gives flags whose byte is that byte |
| TcpHeaderCodec.TcpFlags.FromU16 | src/transport/tcp/header.rs:75-86 | `from_u16` reads bits 0-7 and ignores the bits above them |
| TcpHeaderCodec.FromByteOfBits | src/transport/tcp/header.rs:45-86 | reading back the byte built from flags gives those flags |
| TcpHeaderCodec.FlagsRoundTrip | src/transport/tcp/header.rs:45-86 | `from_u16(to_u16(f)) == f` for every flag combination |
| TcpHeaderCodec.SingleFlagValues | src/transport/tcp/header.rs:47-70 | FIN, SYN, RST, PSH, ACK, URG, ECE and CWR alone give 0x01, 0x02, 0x04, 0x08, 0x10, 0x20, 0x40 and 0x80 |
| TcpHeaderCodec.PackOffsetByte | src/transport/tcp/header.rs:128 | byte 12 holds the data offset, truncated to 4 bits, in its high nibble, and `reserved & 0x07` in its low nibble |
| TcpHeaderCodec.TcpHeader.New | src/transport/tcp/header.rs:96-109 | `new` keeps the two ports, sets data offset 5, clears the flags and zeroes every other field |
| TcpHeaderCodec.TcpHeader.Front | src/transport/tcp/header.rs:116-133 | the part before the checksum is 16 bytes |
| TcpHeaderCodec.TcpHeader.Encode | src/transport/tcp/header.rs:112-142 | `to_bytes` is always exactly 20 bytes |
| TcpHeaderCodec.TcpHeader.ToBytes | src/transport/tcp/header.rs:112-142 | the push and extend sequence of `to_bytes` builds that encoding |
| TcpHeaderCodec.EncodeLayout | src/transport/tcp/header.rs:112-142 | every field lies at its RFC 9293 offset: ports at 0 and 2, sequence and acknowledgment numbers at 4 and 8, byte 12 packed, flags at 13, window at 14, checksum at 16, urgent pointer at 18 |
| TcpHeaderCodec.DecodeInvertsLayout | src/transport/tcp/header.rs:150-161 | bytes holding a header's fields (offset and reserved within their bits) read back to that header when reserved is taken from bits 0-2 |
| TcpHeaderCodec.OffsetByteAtTwelve | src/transport/tcp/header.rs:128-129 | byte 12 of the encoding is the packed data-offset and reserved byte |
| TcpHeaderCodec.DecodeAsWritten | src/transport/tcp/header.rs:145-172 | `from_bytes` as written: data offset and reserved fit 4 and 3 bits, and reserved is bits 1-3 of byte 12 |
| TcpHeaderCodec.Decode | src/transport/tcp/header.rs:145-172 | the corrected decoder, reading reserved from bits 0-2: it re-encodes to bytes 0-19 exactly when bit 3 of byte 12 is clear |
| TcpHeaderCodec.UnpackOffsetByte | src/transport/tcp/header.rs:155-156 | re-packing the high nibble and the low three bits restores byte 12 exactly when its bit 3 is clear |
| TcpHeaderCodec.ReadFieldsFront | src/transport/tcp/header.rs:150-159 | the fields read from bytes 0-15 re-encode to those bytes |
| TcpHeaderCodec.ReadFieldsEncode | src/transport/tcp/header.rs:150-161 | the fields read from 20 bytes re-encode to them exactly when bit 3 of byte 12 is clear |
| TcpHeaderCodec.RoundTrip | src/transport/tcp/header.rs:112-172 | the corrected decoder inverts `to_bytes` for every data offset up to 15 and reserved field up to 7 |
| TcpHeaderCodec.RoundTripAsWritten | src/transport/tcp/header.rs:112-172 | as written, `from_bytes(to_bytes(h)) == h` when the reserved field is 0 and the data offset is at most 15 |
| TcpHeaderCodec.AsWrittenShiftsReserved | src/transport/tcp/header.rs:128-156 | as written, the reserved field read back is the written one shifted right by a bit, so no nonzero reserved field survives |
| TcpHeaderCodec.ReservedMismatch | src/transport/tcp/header.rs:128-156 | data offset 5 with reserved 1 encodes byte 12 as 0x51, which `from_bytes` reads back as reserved 0 |
| TcpHeaderCodec.DecodeReadsTwentyBytes | src/transport/tcp/header.rs:150-161 | trailing bytes after byte 19 do not change either decoder's result |
| TcpOptionsCodec.TcpOption.Kind | src/transport/tcp/options.rs:15-21 | the kind is 0, 1 or 2, and 0 only for end-of-list |
| TcpOptionsCodec.TcpOption.Length | src/transport/tcp/options.rs:24-30 | an option is 1 or 4 bytes long |
| TcpOptionsCodec.TcpOption.ToBytes | src/transport/tcp/options.rs:33-43 | the encoding has the option's length and starts with its kind, and MSS(v) is `[2, 4]` then v big-endian |
| TcpOptionsCodec.TcpOption.FromBytes | src/transport/tcp/options.rs:46-66 | empty input, a short MSS, an MSS length byte other than 4 and a kind above 2 each fail with their own error, exactly when they apply; success consumes the option's length and re-encodes to the bytes consumed |
| TcpOptionsCodec.OptionRoundTrip | src/transport/tcp/options.rs:33-66 | decoding an option's encoding, whatever follows, gives the option and its length |
| TcpOptionsCodec.TcpOptions.constructor | src/transport/tcp/options.rs:76-80 | `new` holds no options |
| TcpOptionsCodec.TcpOptions.Add | src/transport/tcp/options.rs:83-85 | `add` appends one option and keeps the earlier ones |
| TcpOptionsCodec.TcpOptions.TotalLength | src/transport/tcp/options.rs:88-90 | `total_length` is the length of the unpadded option encodings (via `SerializedLength`) |
| TcpOptionsCodec.TcpOptions.WordsNeeded | src/transport/tcp/options.rs:94-97 | `words_needed` is the fewest 32-bit words covering the encodings, up to 1020 bytes where `as u8` does not truncate (via `WordsCeiling`) |
| TcpOptionsCodec.TcpOptions.ToBytes | src/transport/tcp/options.rs:100-117 | the extend loop and the `while` padding loop compute the padded encoding |
| TcpOptionsCodec.TcpOptions.FromBytes | src/transport/tcp/options.rs:120-141 | the `while offset < len` loop computes the list decoder |
| TcpOptionsCodec.SerializedAppend | src/transport/tcp/options.rs:104-106 | appending an option appends its encoding |
| TcpOptionsCodec.SerializedLength | src/transport/tcp/options.rs:88-90 | the unpadded encoding is `total_length` bytes long |
| TcpOptionsCodec.EncodeLayout | src/transport/tcp/options.rs:94-117 | `words_needed` is the ceiling of `total_length` over 4, and `to_bytes` is the option encodings followed by zeros up to 4 times `words_needed` |
| TcpOptionsCodec.EncodedLength | src/transport/tcp/options.rs:100-117 | `to_bytes` is 4 times `words_needed` long, so it has even length |
| TcpOptionsCodec.WordsCeiling | src/transport/tcp/options.rs:94-97 | `(n + 3) / 4` is not truncated by `as u8` for up to 1020 bytes, and is the least word count covering n bytes |
| TcpOptionsCodec.DecodeSerialized | src/transport/tcp/options.rs:120-141 | option encodings without end-of-list, followed by nothing or a zero byte, decode to those options |
| TcpOptionsCodec.RoundTrip | src/transport/tcp/options.rs:100-141 | a list without end-of-list round-trips through `to_bytes` and `from_bytes` |
| TcpOptionsCodec.DecodeNeverYieldsEndOfList | src/transport/tcp/options.rs:124-137 | a zero byte at an option boundary ends the scan, so a decoded list never holds end-of-list |
| TcpOptionsCodec.ExampleNopMss | src/transport/tcp/options.rs:233-249 | NOP then MSS(1460) encodes to `[1, 2, 4, 0x05, 0xb4, 0, 0, 0]` |
| TcpPacketAssembly.SegmentBytes | src/transport/tcp/mod.rs:48-54 | the header with bytes 16-17 cleared, followed by the options, is 20 bytes plus the options |
| TcpPacketAssembly.PseudoHeaderIpv4 | src/transport/tcp/mod.rs:37-45 | the RFC 9293 section 3.1 pseudo-header is 12 bytes |
| TcpPacketAssembly.PseudoHeaderIpv6 | src/transport/tcp/mod.rs:87-97 | the RFC 8200 section 8.1 pseudo-header is 40 bytes |
| TcpPacketAssembly.FinalizedIpv4 | src/transport/tcp/mod.rs:136-141 | `to_bytes_ipv4` changes only the data offset and the checksum of the header |
| TcpPacketAssembly.FinalizedIpv6 | src/transport/tcp/mod.rs:152-157 | `to_bytes_ipv6` changes only the data offset and the checksum of the header |
| TcpPacketAssembly.TcpPacket.constructor | src/transport/tcp/mod.rs:18-24 | a new segment holds the `new` header, no options and the payload |
| TcpPacketAssembly.TcpPacket.UpdateDataOffset | src/transport/tcp/mod.rs:27-31 | the data offset becomes 5 plus the option words, and nothing else changes |
| TcpPacketAssembly.TcpPacket.CalculateChecksumIpv4 | src/transport/tcp/mod.rs:34-81 | the additions and loops of `calculate_checksum_ipv4` compute the modelled IPv4 checksum |
| TcpPacketAssembly.TcpPacket.CalculateChecksumIpv6 | src/transport/tcp/mod.rs:84-133 | the additions and loops of `calculate_checksum_ipv6` compute the modelled IPv6 checksum |
| TcpPacketAssembly.TcpPacket.ToBytesIpv4 | src/transport/tcp/mod.rs:136-149 | the header is left finalized, and the output is its encoding, then the options, then the payload |
| TcpPacketAssembly.TcpPacket.ToBytesIpv6 | src/transport/tcp/mod.rs:152-165 | the same for IPv6 |
| TcpPacketAssembly.WordSumOfAddress | src/transport/tcp/mod.rs:38-41 | the four explicit address words add up to the word sum of the two addresses |
| TcpPacketAssembly.WordSumBe32 | src/transport/tcp/mod.rs:95-96 | a 32-bit length added as a plain value agrees, modulo 0xFFFF, with the word sum of its four bytes |
| TcpPacketAssembly.FoldCongruent | src/transport/tcp/mod.rs:74-77 | two sums congruent modulo 0xFFFF, both zero or both nonzero, fold to the same value |
| TcpPacketAssembly.SegmentBytesZeroField | src/transport/tcp/mod.rs:48-54 | clearing bytes 16-17 is encoding a zero checksum |
| TcpPacketAssembly.SegmentSumIgnoresStoredField | src/transport/tcp/mod.rs:48-72 | the segment's word sum does not depend on the stored checksum |
| TcpPacketAssembly.PseudoHeaderIpv4Sum | src/transport/tcp/mod.rs:37-45 | adding the address words, the protocol and the length as values is summing the IPv4 pseudo-header |
| TcpPacketAssembly.PseudoHeaderIpv6Sum | src/transport/tcp/mod.rs:87-97 | adding the address words, the length and the next header as values is summing the IPv6 pseudo-header, with the length as four bytes |
| TcpPacketAssembly.PrefixedSegmentSum | src/transport/tcp/mod.rs:57-72 | summing the header and options, then the payload, in separate loops gives the word sum of the concatenation |
| TcpPacketAssembly.Ipv4PseudoHeaderEquivalence | src/transport/tcp/mod.rs:34-81 | `calculate_checksum_ipv4` is the Internet checksum of the pseudo-header followed by the zeroed segment |
| TcpPacketAssembly.Ipv6PseudoHeaderEquivalence | src/transport/tcp/mod.rs:84-133 | `calculate_checksum_ipv6` is the Internet checksum of the IPv6 pseudo-header followed by the zeroed segment |
| TcpPacketAssembly.SameResidueFold | src/transport/tcp/mod.rs:74-77 | adding congruent parts to a positive sum folds to the same value |
| TcpPacketAssembly.ChecksumIgnoresStoredField | src/transport/tcp/mod.rs:48-50 | both checksums ignore the stored checksum value |
| TcpPacketAssembly.FinalizedChecksumIpv4 | src/transport/tcp/mod.rs:136-141 | the finalized header stores its own IPv4 checksum |
| TcpPacketAssembly.FinalizedChecksumIpv6 | src/transport/tcp/mod.rs:152-157 | the finalized header stores its own IPv6 checksum |
| TcpPacketAssembly.ToBytesIpv4Idempotent | src/transport/tcp/mod.rs:136-149 | finalizing twice is finalizing once, so a second `to_bytes_ipv4` emits the same bytes |
| TcpPacketAssembly.ToBytesIpv6Idempotent | src/transport/tcp/mod.rs:152-165 | the same for `to_bytes_ipv6` |
| TcpPacketAssembly.SegmentLayout | src/transport/tcp/mod.rs:144-148 | the output is 20 plus 4 times the option words plus the payload, equal to `tcp_length`; bytes 16-17 hold the stored checksum; the data offset is in the high nibble of byte 12 |
| TcpPacketAssembly.StoredChecksumVerifies | src/transport/tcp/mod.rs:74-81 | a checksum computed over the zeroed field and then stored makes the checksum of prefix plus segment zero |
| TcpPacketAssembly.SegmentAroundChecksum | src/transport/tcp/mod.rs:48-54 | the zeroed segment and the emitted segment differ only in the two checksum bytes |
| TcpPacketAssembly.EmittedSegmentVerifiesIpv4 | src/transport/tcp/mod.rs:136-149 | the checksum of the IPv4 pseudo-header followed by the emitted segment is 0 |
| TcpPacketAssembly.EmittedSegmentVerifiesIpv6 | src/transport/tcp/mod.rs:152-165 | the checksum of the IPv6 pseudo-header followed by the emitted segment is 0 |
| TcpPacketAssembly.ImageIpv4Prefix | src/transport/tcp/mod.rs:136-149 | the emitted segment holds the ports in bytes 0-3, the recomputed byte 12, the flag byte at 13 and the options from byte 20 |
| TcpPacketAssembly.MssOptionBytes | src/transport/tcp/options.rs:252-260 | MSS(1460) alone is one word, encoded as `[2, 4, 0x05, 0xb4]` |
| TcpPacketAssembly.ExampleSynWithMss | src/transport/tcp/mod.rs:200-238 | SYN with MSS(1460) from port 12345 to 80 is 24 bytes, with byte 12 0x60, byte 13 0x02 and bytes 20-23 `[2, 4, 0x05, 0xb4]` |
| EtherTypeTable.EtherType.ToBytes | src/datalink/ethernet/ethertype.rs:22-29 | the code is two bytes, and only Unknown maps to `[0, 0]` |
| EtherTypeTable.EtherType.TryFromArray | src/datalink/ethernet/ethertype.rs:35-42 | the array conversion never fails; a known code maps to its variant and every other pair maps to Unknown |
| EtherTypeTable.EtherType.TryFromSlice | src/datalink/ethernet/ethertype.rs:48-54 | the slice conversion fails exactly when the length is not 2, and otherwise is the array conversion |
| EtherTypeTable.EtherType.FromBytes | src/datalink/ethernet/ethertype.rs:13-19 | `from_bytes` never fails, returns Unknown for a wrong length, and a known result re-encodes to the input |
| EtherTypeTable.FromBytesOfToBytes | src/datalink/ethernet/ethertype.rs:13-42 | `from_bytes(to_bytes(e)) == e` for all four variants |
| EtherTypeTable.ToBytesOfFromBytes | src/datalink/ethernet/ethertype.rs:22-42 | `to_bytes(from_bytes(b)) == b` exactly when b is one of the three known codes or `[0, 0]` |
| EthernetCodec.EthernetHeader.Fields | src/datalink/ethernet/header.rs:2-6 | destination, source and EtherType together are 14 bytes |
| EthernetCodec.EthernetHeader.FromBytes | src/datalink/ethernet/header.rs:9-19 | destination, source and EtherType are bytes 0-5, 6-11 and 12-13 |
| EthernetCodec.EthernetFrame.FromBytes | src/datalink/ethernet/mod.rs:8-12 | the header is parsed from bytes 0-13, the payload is the rest, and together they reproduce the input |
| EthernetCodec.HeaderReadsFourteenBytes | src/datalink/ethernet/header.rs:11-17 | bytes after index 13 do not change the header |
| EthernetCodec.HeaderRoundTrip | src/datalink/ethernet/header.rs:9-19 | parsing a header's 14 bytes gives the header back |
| EthernetCodec.FrameRoundTrip | src/datalink/ethernet/mod.rs:8-12 | parsing a header's bytes followed by a payload gives that header and payload |
| MacAddresses.MacAddr.Broadcast | src/address/mac_addr.rs:14-16 | every octet of the broadcast address is 0xff |
| MacAddresses.MacAddr.Octets | src/address/mac_addr.rs:18-20 | `octets` is the six octets in order |
| MacAddresses.MacAddr.IsBroadcast | src/address/mac_addr.rs:22-24 | `is_broadcast` holds iff all six octets are 0xff (also `BroadcastIffAllOnes`) |
| MacAddresses.MacAddr.IsMulticast | src/address/mac_addr.rs:26-28 | `is_multicast` holds iff the first octet is odd, its 0x01 group bit set; it reads nothing else (`ClassifiedByFirstOctet`) |
| MacAddresses.MacAddr.IsUnicast | src/address/mac_addr.rs:30-32 | `is_unicast` holds iff the group bit of the first octet is clear, the negation of `is_multicast` |
| MacAddresses.MacAddr.IsLocal | src/address/mac_addr.rs:34-36 | `is_local` holds iff the 0x02 bit of the first octet is set; it reads nothing else (`ClassifiedByFirstOctet`) |
| MacAddresses.MacAddr.IsUniversal | src/address/mac_addr.rs:38-40 | `is_universal` holds iff the 0x02 bit of the first octet is clear, the negation of `is_local` |
| MacAddresses.MacAddr.ToString | src/address/mac_addr.rs:43-51 | the display string is 17 characters |
| MacAddresses.OctetsInjective | src/address/mac_addr.rs:18-20 | two addresses have the same octets exactly when they are equal |
| MacAddresses.BroadcastIffAllOnes | src/address/mac_addr.rs:14-24 | `is_broadcast` holds exactly when all six octets are 0xff, and `broadcast()` satisfies it |
| MacAddresses.BroadcastIsMulticast | src/address/mac_addr.rs:14-32 | the broadcast address is multicast and not unicast |
| MacAddresses.ClassifiedByFirstOctet | src/address/mac_address.rs:24-38 | the multicast, unicast, local and universal tests depend only on the first octet |
| MacAddresses.HexDigit | src/address/mac_addr.rs:47 | each lowercase hex digit reads back as its value |
| MacAddresses.Hex2 | src/address/mac_addr.rs:47 | `{:02x}` gives two digits that read back as the byte |
| MacAddresses.GroupThenRest | src/address/mac_addr.rs:47 | a two-digit group followed by ':' keeps the group at offset 0 and the rest from offset 3 |
| MacAddresses.DisplayLayout | src/address/mac_addr.rs:43-51 | the display is six two-digit groups, one per octet in order, separated by ':' at offsets 2, 5, 8, 11 and 14 |
| MacAddresses.ExampleDisplay | src/address/mac_addr.rs:43-51 | the address 00:01:02:03:04:05 displays as `"00:01:02:03:04:05"` |

## Findings

| source | as written | input that shows it | evidently intended | confidence | as-written member | corrected member |
|---|---|---|---|---|---|---|
| src/transport/tcp/header.rs:156 | `from_bytes` reads the reserved field as `(b12 & 0x0E) >> 1`, that is bits 1-3 of byte 12, while `to_bytes` (line 128) writes it into bits 0-2 | a header with data offset 5 and reserved 1 encodes byte 12 as 0x51, which is read back as reserved 0 | read the field where it is written, `b12 & 0x07`, so that every header with data offset up to 15 and reserved up to 7 round-trips | not executed | TcpHeaderCodec.ReservedMismatch | TcpHeaderCodec.RoundTrip |

The as-written decoder is `TcpHeaderCodec.DecodeAsWritten`. `AsWrittenShiftsReserved` proves that it
shifts every reserved value right by one bit. `RoundTripAsWritten` proves that it still round-trips
when the reserved field is 0.

The corrected decoder is `TcpHeaderCodec.Decode`. `RoundTrip` proves the intended round trip for it.
The segment assembler encodes headers and never decodes them, so the mismatch does not reach it.
The fix could equally go into the encoder. The comments at lines 11 and 127 of
`src/transport/tcp/header.rs` count 9 flag bits, and with a ninth flag in bit 0 of byte 12 the
reserved field would sit in bits 1-3, where the decoder reads it. The model corrects the decoder
because the encoder agrees with RFC 9293 section 3.1, whose control bits fill byte 13 alone and whose
reserved bits fill the low nibble of byte 12.

## Left out

Not modelled:

- `src/lib.rs` `PacketBuilder` is a plain constructor and is not part of this model. It builds an
  `EthernetHeader` from `MacAddr` values, which do not match the `[u8; 6]` fields of
  `src/datalink/ethernet/header.rs`.
- `src/address/ipv4_addr.rs` is a plain wrapper and is not part of this model. Addresses are
  sequences of 4 or 16 bytes.
- The test modules and `tests/tcp_acceptance_test.rs` are not modelled as code. Their vectors appear
  as the `Example...` lemmas.
- `MacAddress` in `src/address/mac_address.rs` has the same fields and predicates as `MacAddr`, minus
  `Display`. Both share the one `MacAddr` model.
- `Display` is modelled as a pure string function. The `fmt::Formatter` plumbing is left out.
- The Rust lifetimes of borrowed payloads and the `Vec` allocation are left out. Payloads are
  sequences.
- `Ipv4Options::from_bytes` and `TcpOptions::from_bytes` are modelled as returning the decoded list
  inside a `Result`, rather than a fresh options object.
- `Default` impls and `Ipv4Flags::new` are not modelled separately. Their values are the flags fields
  in `Ipv4Header.New` and `TcpFlags.New`.

Overflow and panics:

- Checksum.AddWords: the u32 accumulator `sum` is unbounded in the model, because Rust would panic
  or wrap only past 4 GiB of input. `WordSumBound` bounds the sum by 0xFFFF per word.
- Ipv4Packet.UpdateIhl, TcpPacket.UpdateDataOffset: the u8 addition `5 + words_needed` is a
  precondition (at most 250 option words) rather than a debug-build panic.
- Ipv4Packet.UpdateTotalLength: the u16 addition is a precondition rather than a panic. The `as u16`
  cast of the payload length is modelled exactly, as the length modulo 65536.
- `words_needed` keeps its `as u8` truncation in both option codecs.
  - TcpOptionsCodec.EncodeLayout assumes at most 1020 option bytes, where the truncation does not
    occur.
  - Ipv4OptionsCodec.OptionsLengthIsPaddedCount states `words_needed * 4 == total_length` only below
    1024 bytes.
- Ipv4PacketAssembly.ImageLength, Ipv4PacketAssembly.ImageLengthField: stated for at most 40
  options, so that the IHL fits its 4 bits. Above that, `(ihl & 0x0F)` silently drops the high bits,
  as the source does.
- The TCP segment assembler does not check that the data offset fits 4 bits, and neither does the
  model. `SegmentLayout` states the offset nibble only for at most 40 option bytes.
- TcpHeaderCodec.DecodeAsWritten, TcpHeaderCodec.Decode: the panic of `from_bytes` below 20 bytes
  is the precondition `|bytes| >= 20`. The same holds for the Ethernet slicing below 14 bytes.

Deliberate limits and unmodelled claims:

- The flag byte, `TcpHeaderCodec.TcpFlags.Bits`, is the one 8-bit vector among integer-valued bytes. It is
  built and read with bitwise OR and AND, which the solver handles far more cheaply on `bv8` than as
  integer arithmetic. `Bytes.ByteConversion` and `Bytes.VectorConversion` bridge it to the integer
  bytes of the header encoding.
- The end-of-list break at line 135 of `src/transport/tcp/options.rs` is kept in the model's loop,
  although it cannot be reached: the loop stops on a zero byte first. `DecodeNeverYieldsEndOfList`
  states the consequence.
- TcpPacketAssembly.ExampleSynWithMss: the source test asserts a nonzero checksum for particular
  addresses. The model states the layout for every address pair instead, and leaves out the
  inequality, which holds only for those inputs.
- MacAddresses.MacAddr.IsMulticast, MacAddresses.MacAddr.IsLocal: the source's mask tests
  `(o1 & 0x01) == 0x01` and `(o1 & 0x02) == 0x02` are written as arithmetic single-bit tests on the
  integer octet. They agree on every byte but are not proved equal to the bitwise form.

RFC 9293 section 3.1 puts the reserved bits in the low nibble of byte 12. The encoder writes them
there; the decoder reads bits 1-3 (see Findings).

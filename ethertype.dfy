/**
 * The EtherType table of the Ethernet II header: IPv4 0x0800, IPv6 0x86DD,
 * ARP 0x0806, and `Unknown`, which encodes as 0x0000 and is what every
 * other code decodes to.
 */
module EtherTypeTable {
  import opened Bytes

  datatype EtherType = Ipv4 | Ipv6 | Arp | Unknown
  {
    /** `to_bytes`: the two-byte code in network byte order. */
    function ToBytes(): (b: seq<uint8>)
      ensures |b| == 2
      ensures this != Unknown ==> b != [0x00, 0x00]
    {
      match this
      case Ipv4 => [0x08, 0x00]
      case Ipv6 => [0x86, 0xDD]
      case Arp => [0x08, 0x06]
      case Unknown => [0x00, 0x00]
    }

    /** `try_from([u8; 2])`: never fails; a code that is not in the table maps to `Unknown`. */
    static function TryFromArray(b0: uint8, b1: uint8): (r: Result<EtherType, ()>)
      ensures r.Ok?
      ensures r.value != Unknown ==> r.value.ToBytes() == [b0, b1]
      ensures r.value == Unknown <==> forall e: EtherType :: e != Unknown ==> e.ToBytes() != [b0, b1]
    {
      if b0 == 0x08 && b1 == 0x00 then Ok(Ipv4)
      else if b0 == 0x86 && b1 == 0xDD then Ok(Ipv6)
      else if b0 == 0x08 && b1 == 0x06 then Ok(Arp)
      else Ok(Unknown)
    }

    /** `try_from(&[u8])`: fails exactly on a slice whose length is not 2. */
    static function TryFromSlice(bytes: seq<uint8>): (r: Result<EtherType, ()>)
      ensures r.Err? <==> |bytes| != 2
      ensures r.Ok? ==> r == TryFromArray(bytes[0], bytes[1])
    {
      if |bytes| != 2 then Err(())
      else TryFromArray(bytes[0], bytes[1])
    }

    /** `from_bytes`: never fails; a slice of the wrong length gives `Unknown`. */
    static function FromBytes(bytes: seq<uint8>): (e: EtherType)
      ensures |bytes| != 2 ==> e == Unknown
      ensures e != Unknown ==> e.ToBytes() == bytes
    {
      match TryFromSlice(bytes)
      case Ok(e) => e
      case Err(_) => Unknown
    }
  }

  /** Every variant, `Unknown` included, survives `to_bytes` then `from_bytes`. */
  lemma FromBytesOfToBytes(e: EtherType)
    ensures EtherType.FromBytes(e.ToBytes()) == e
  {
  }

  /**
   * `to_bytes(from_bytes(b)) == b` exactly for the three known codes and
   * 0x0000; any other two bytes come back as 0x0000.
   */
  lemma ToBytesOfFromBytes(bytes: seq<uint8>)
    requires |bytes| == 2
    ensures EtherType.FromBytes(bytes).ToBytes() == bytes
      <==> bytes == [0x08, 0x00] || bytes == [0x86, 0xDD] || bytes == [0x08, 0x06] || bytes == [0x00, 0x00]
  {
    var e := EtherType.FromBytes(bytes);
    if e == EtherType.Unknown {
      assert e.ToBytes() == [0x00, 0x00];
    }
  }
}

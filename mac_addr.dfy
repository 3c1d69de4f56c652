/**
 * IEEE 802 MAC addresses: six octets, with the group (multicast) bit 0x01
 * and the locally-administered bit 0x02 of the first octet, and the
 * colon-separated lowercase hexadecimal display form.
 */
module MacAddresses {
  import opened Bytes

  const MulticastBit: uint8 := 0x01
  const LocalBit: uint8 := 0x02

  datatype MacAddr = MacAddr(o1: uint8, o2: uint8, o3: uint8, o4: uint8, o5: uint8, o6: uint8)
  {
    /** `broadcast`: all six octets 0xff. */
    static function Broadcast(): (m: MacAddr)
      ensures forall i :: 0 <= i < 6 ==> m.Octets()[i] == 0xff
    {
      MacAddr(0xff, 0xff, 0xff, 0xff, 0xff, 0xff)
    }

    /** `octets`: the six fields in order. */
    function Octets(): (o: seq<uint8>)
      ensures |o| == 6 && o[0] == o1 && o[1] == o2 && o[2] == o3
      ensures o[3] == o4 && o[4] == o5 && o[5] == o6
    {
      [o1, o2, o3, o4, o5, o6]
    }

    /** `is_broadcast`: equality with the broadcast address, that is, every octet 0xff. */
    predicate IsBroadcast()
      ensures IsBroadcast() <==> o1 == o2 == o3 == o4 == o5 == o6 == 0xff
    {
      this == Broadcast()
    }

    /** `is_multicast`: `first & MULTICAST_BIT == MULTICAST_BIT`. */
    predicate IsMulticast()
      ensures IsMulticast() <==> o1 % 2 == 1
    {
      HasBit(o1, MulticastBit)
    }

    /** `is_unicast`: the group bit of the first octet is clear. */
    predicate IsUnicast()
      ensures IsUnicast() <==> o1 % 2 == 0
    {
      !IsMulticast()
    }

    /** `is_local`: `first & LOCAL_BIT == LOCAL_BIT`. */
    predicate IsLocal()
      ensures IsLocal() <==> o1 % 4 >= 2
    {
      HasBit(o1, LocalBit)
    }

    /** `is_universal`: the locally-administered bit of the first octet is clear. */
    predicate IsUniversal()
      ensures IsUniversal() <==> o1 % 4 < 2
    {
      !IsLocal()
    }

    /** `Display`: `{:02x}` for each octet, joined by ':'. */
    function ToString(): (s: string)
      ensures |s| == 17
    {
      Hex2(o1) + ":" + Hex2(o2) + ":" + Hex2(o3) + ":" + Hex2(o4) + ":" + Hex2(o5) + ":" + Hex2(o6)
    }
  }

  /** The address shared by mac_address.rs, which repeats the same predicates without the display form. */
  type MacAddress = MacAddr

  /** Two addresses are equal exactly when their octets are. */
  lemma OctetsInjective(a: MacAddr, b: MacAddr)
    ensures a.Octets() == b.Octets() <==> a == b
  {
    if a.Octets() == b.Octets() {
      assert a.o2 == a.Octets()[1] == b.Octets()[1] == b.o2;
      assert a.o3 == a.Octets()[2] == b.Octets()[2] == b.o3;
      assert a.o4 == a.Octets()[3] == b.Octets()[3] == b.o4;
      assert a.o5 == a.Octets()[4] == b.Octets()[4] == b.o5;
      assert a.o6 == a.Octets()[5] == b.Octets()[5] == b.o6;
    }
  }

  /** `is_broadcast` holds exactly when all six octets are 0xff, so `broadcast()` satisfies it. */
  lemma BroadcastIffAllOnes(m: MacAddr)
    ensures m.IsBroadcast() <==> forall i :: 0 <= i < 6 ==> m.Octets()[i] == 0xff
    ensures MacAddr.Broadcast().IsBroadcast()
  {
    if forall i :: 0 <= i < 6 ==> m.Octets()[i] == 0xff {
      OctetsInjective(m, MacAddr.Broadcast());
    }
  }

  /** The broadcast address is a group address, so not unicast. */
  lemma BroadcastIsMulticast()
    ensures MacAddr.Broadcast().IsMulticast() && !MacAddr.Broadcast().IsUnicast()
  {
  }

  /** The four classifying predicates depend on the first octet only. */
  lemma ClassifiedByFirstOctet(a: MacAddr, b: MacAddr)
    requires a.o1 == b.o1
    ensures a.IsMulticast() == b.IsMulticast() && a.IsUnicast() == b.IsUnicast()
    ensures a.IsLocal() == b.IsLocal() && a.IsUniversal() == b.IsUniversal()
  {
  }

  /** Lowercase hexadecimal digit for a nibble. */
  function HexDigit(n: nat): (c: char)
    requires n < 16
    ensures HexValue(c) == n
  {
    "0123456789abcdef"[n]
  }

  /** The value of a lowercase hexadecimal digit, or 16 for any other character. */
  function HexValue(c: char): nat
  {
    if '0' <= c <= '9' then c as int - '0' as int
    else if 'a' <= c <= 'f' then c as int - 'a' as int + 10
    else 16
  }

  /** `{:02x}`: two lowercase hexadecimal digits, high nibble first. */
  function Hex2(b: uint8): (s: string)
    ensures |s| == 2 && GroupAt(s, 0, b)
  {
    [HexDigit(b / 16), HexDigit(b % 16)]
  }

  /** Offsets `k` and `k + 1` of `s` hold the two lowercase hexadecimal digits of `b`. */
  predicate GroupAt(s: string, k: nat, b: uint8)
    requires k + 2 <= |s|
  {
    HexValue(s[k]) < 16 && HexValue(s[k + 1]) < 16 && HexValue(s[k]) * 16 + HexValue(s[k + 1]) == b
  }

  /** A group followed by a separator and the rest of the string: the group's digits stay at the front. */
  lemma GroupThenRest(g: string, b: uint8, rest: string)
    requires |g| == 2 && GroupAt(g, 0, b)
    ensures var s := g + ":" + rest;
      |s| == 3 + |rest| && GroupAt(s, 0, b) && s[2] == ':' && s[3..] == rest
  {
    var s := g + ":" + rest;
    assert s[0] == g[0] && s[1] == g[1];
  }

  /**
   * The display form is six two-digit groups at offsets 0, 3, ..., 15,
   * each holding its octet, separated by ':' at offsets 2, 5, ..., 14.
   */
  lemma DisplayLayout(m: MacAddr)
    ensures var s := m.ToString();
      && s[2] == ':' && s[5] == ':' && s[8] == ':' && s[11] == ':' && s[14] == ':'
      && GroupAt(s, 0, m.o1) && GroupAt(s, 3, m.o2) && GroupAt(s, 6, m.o3)
      && GroupAt(s, 9, m.o4) && GroupAt(s, 12, m.o5) && GroupAt(s, 15, m.o6)
  {
    var g6 := Hex2(m.o6);
    var r5 := Hex2(m.o5) + ":" + g6;
    var r4 := Hex2(m.o4) + ":" + r5;
    var r3 := Hex2(m.o3) + ":" + r4;
    var r2 := Hex2(m.o2) + ":" + r3;
    var s := Hex2(m.o1) + ":" + r2;
    assert s == m.ToString();
    GroupThenRest(Hex2(m.o1), m.o1, r2);
    GroupThenRest(Hex2(m.o2), m.o2, r3);
    GroupThenRest(Hex2(m.o3), m.o3, r4);
    GroupThenRest(Hex2(m.o4), m.o4, r5);
    GroupThenRest(Hex2(m.o5), m.o5, g6);
    assert s[3..][3..][3..][3..][3..] == g6;
  }

  /** The display form of 00:01:02:03:04:05. */
  lemma ExampleDisplay()
    ensures MacAddr(0, 1, 2, 3, 4, 5).ToString() == "00:01:02:03:04:05"
  {
  }
}

/**
 * TCP options of RFC 9293 section 3.2: end of option list (kind 0), no
 * operation (kind 1) and maximum segment size (kind 2, length 4), zero-padded
 * to a 32-bit boundary. The list decoder treats a zero byte at an option
 * boundary as the start of padding and stops there without decoding it.
 */
module TcpOptionsCodec {
  import opened Bytes

  /** The four failures of `TcpOption::from_bytes`. */
  datatype TcpOptionError = EmptyBytes | MssTooShort | MssBadLength | UnknownKind

  datatype TcpOption = EndOfOptionList | NoOperation | MaximumSegmentSize(mss: uint16)
  {
    function Kind(): (k: uint8)
      ensures k <= 2 && (k == 0 <==> this == EndOfOptionList)
    {
      match this
      case EndOfOptionList => 0
      case NoOperation => 1
      case MaximumSegmentSize(_) => 2
    }

    /** Length in bytes, kind and length fields included. */
    function Length(): (n: uint8)
      ensures n == 1 || n == 4
    {
      match this
      case EndOfOptionList => 1
      case NoOperation => 1
      case MaximumSegmentSize(_) => 4
    }

    /** The option on the wire: its kind byte, then for MSS the length 4 and the big-endian value. */
    function ToBytes(): (b: seq<uint8>)
      ensures |b| == Length() && b[0] == Kind()
      ensures MaximumSegmentSize? ==> b[1] == 4 && FromBe16(b[2], b[3]) == mss
    {
      match this
      case EndOfOptionList => [0]
      case NoOperation => [1]
      case MaximumSegmentSize(value) => [2, 4] + BeBytes16(value)
    }

    /**
     * Decodes one option and the number of bytes it took: empty input, a
     * short or mis-sized MSS, and a kind above 2 are errors.
     */
    static function FromBytes(bytes: seq<uint8>): (r: Result<(TcpOption, nat), TcpOptionError>)
      ensures r == Err(EmptyBytes) <==> |bytes| == 0
      ensures r == Err(MssTooShort) <==> 0 < |bytes| < 4 && bytes[0] == 2
      ensures r == Err(MssBadLength) <==> |bytes| >= 4 && bytes[0] == 2 && bytes[1] != 4
      ensures r == Err(UnknownKind) <==> |bytes| > 0 && bytes[0] > 2
      ensures r.Ok? ==> var (o, n) := r.value; n == o.Length() as int && n <= |bytes| && o.ToBytes() == bytes[..n]
    {
      if |bytes| == 0 then Err(EmptyBytes)
      else if bytes[0] == 0 then Ok((EndOfOptionList, 1))
      else if bytes[0] == 1 then Ok((NoOperation, 1))
      else if bytes[0] == 2 then
        if |bytes| < 4 then Err(MssTooShort)
        else if bytes[1] != 4 then Err(MssBadLength)
        else
          var mss := FromBe16(bytes[2], bytes[3]);
          FromBe16Inverse(bytes[2], bytes[3]);
          assert MaximumSegmentSize(mss).ToBytes() == [2, 4, bytes[2], bytes[3]] == bytes[..4];
          Ok((MaximumSegmentSize(mss), 4))
      else Err(UnknownKind)
    }
  }

  /** Decoding an option's encoding, whatever follows it, gives the option and its length. */
  lemma OptionRoundTrip(o: TcpOption, rest: seq<uint8>)
    ensures TcpOption.FromBytes(o.ToBytes() + rest) == Ok((o, o.Length() as nat))
  {
    var b := o.ToBytes() + rest;
    if o.MaximumSegmentSize? {
      assert b[..4] == o.ToBytes();
      FromBe16Inverse(b[2], b[3]);
    }
  }

  /** `total_length`: the sum of the option lengths, before padding. */
  function SumLengths(opts: seq<TcpOption>): nat
  {
    if |opts| == 0 then 0 else opts[0].Length() as nat + SumLengths(opts[1..])
  }

  /** `words_needed`: the length rounded up to whole 32-bit words, truncated by `as u8`. */
  function OptionsWords(opts: seq<TcpOption>): uint8
  {
    ((SumLengths(opts) + 3) / 4) % 0x100
  }

  /** The option encodings in insertion order, without padding. */
  function Serialized(opts: seq<TcpOption>): seq<uint8>
  {
    if |opts| == 0 then [] else opts[0].ToBytes() + Serialized(opts[1..])
  }

  /** `to_bytes`: the encodings, then zeros up to `4 * words_needed()` bytes. */
  function EncodeOptions(opts: seq<TcpOption>): seq<uint8>
  {
    var bytes := Serialized(opts);
    var target := 4 * OptionsWords(opts) as int;
    bytes + Zeros(if |bytes| < target then target - |bytes| else 0)
  }

  /** Adds a list of options decoded earlier in front of the rest of a decode. */
  function Prepend(front: seq<TcpOption>, rest: Result<seq<TcpOption>, TcpOptionError>): Result<seq<TcpOption>, TcpOptionError>
  {
    match rest
    case Ok(tail) => Ok(front + tail)
    case Err(e) => Err(e)
  }

  lemma PrependEmpty(rest: Result<seq<TcpOption>, TcpOptionError>)
    ensures Prepend([], rest) == rest
  {
    if rest.Ok? {
      assert [] + rest.value == rest.value;
    }
  }

  lemma PrependNested(a: seq<TcpOption>, b: seq<TcpOption>, rest: Result<seq<TcpOption>, TcpOptionError>)
    ensures Prepend(a, Prepend(b, rest)) == Prepend(a + b, rest)
  {
    if rest.Ok? {
      assert a + (b + rest.value) == (a + b) + rest.value;
    }
  }

  /**
   * `TcpOptions::from_bytes`: stops at the end of the input or at a zero
   * byte where an option would start; otherwise decodes one option and
   * carries on, ending after an explicit end-of-list option.
   */
  function DecodeOptions(bytes: seq<uint8>): Result<seq<TcpOption>, TcpOptionError>
    decreases |bytes|
  {
    if |bytes| == 0 || bytes[0] == 0 then Ok([])
    else
      match TcpOption.FromBytes(bytes)
      case Err(e) => Err(e)
      case Ok((option, consumed)) =>
        if option == EndOfOptionList then Ok([option])
        else Prepend([option], DecodeOptions(bytes[consumed..]))
  }

  /** The options of a TCP segment, in insertion order. */
  class TcpOptions {
    var options: seq<TcpOption>

    constructor ()
      ensures options == []
    {
      options := [];
    }

    /** Appends one option; the options before it are unchanged. */
    method Add(option: TcpOption)
      modifies this
      ensures options == old(options) + [option]
    {
      options := options + [option];
    }

    /** `total_length`: the unpadded length of the option encodings. */
    function TotalLength(): (n: nat)
      reads this
      ensures n == |Serialized(options)|
    {
      SerializedLength(options);
      SumLengths(options)
    }

    /** `words_needed`: the fewest 32-bit words that hold the encodings, while that fits a u8. */
    function WordsNeeded(): (w: uint8)
      reads this
      ensures |Serialized(options)| <= 1020 ==>
        |Serialized(options)| <= 4 * w < |Serialized(options)| + 4
    {
      SerializedLength(options);
      if SumLengths(options) <= 1020 then
        WordsCeiling(SumLengths(options));
        OptionsWords(options)
      else
        OptionsWords(options)
    }

    /** `to_bytes`: concatenates the option encodings, then pushes zeros up to the word boundary. */
    method ToBytes() returns (bytes: seq<uint8>)
      ensures bytes == EncodeOptions(options)
    {
      bytes := [];
      for i := 0 to |options|
        invariant bytes == Serialized(options[..i])
      {
        SerializedAppend(options[..i], options[i]);
        assert options[..i + 1] == options[..i] + [options[i]];
        bytes := bytes + options[i].ToBytes();
      }
      assert options[..|options|] == options;
      var wordsNeeded := WordsNeeded();
      var targetLength := wordsNeeded as int * 4;
      ghost var unpadded := bytes;
      while |bytes| < targetLength
        invariant |unpadded| <= |bytes| && (|unpadded| < targetLength ==> |bytes| <= targetLength)
        invariant |unpadded| >= targetLength ==> bytes == unpadded
        invariant bytes == unpadded + Zeros(|bytes| - |unpadded|)
        decreases targetLength - |bytes|
      {
        bytes := bytes + [0];
      }
    }

    /** `from_bytes`: the `while offset < len` loop, returning the decoded list. */
    static method FromBytes(bytes: seq<uint8>) returns (r: Result<seq<TcpOption>, TcpOptionError>)
      ensures r == DecodeOptions(bytes)
    {
      var options: seq<TcpOption> := [];
      var offset := 0;
      assert bytes[offset..] == bytes;
      PrependEmpty(DecodeOptions(bytes));
      while offset < |bytes|
        invariant 0 <= offset <= |bytes|
        invariant DecodeOptions(bytes) == Prepend(options, DecodeOptions(bytes[offset..]))
      {
        if bytes[offset] == 0 {
          break;
        }
        var parsed := TcpOption.FromBytes(bytes[offset..]);
        if parsed.Err? {
          return Err(parsed.error);
        }
        var (option, consumed) := parsed.value;
        if option == EndOfOptionList {
          return Ok(options + [option]);
        }
        PrependNested(options, [option], DecodeOptions(bytes[offset + consumed..]));
        options := options + [option];
        offset := offset + consumed;
      }
      assert DecodeOptions(bytes[offset..]) == Ok([]);
      assert options + [] == options;
      return Ok(options);
    }
  }

  lemma {:induction false} SerializedAppend(opts: seq<TcpOption>, o: TcpOption)
    ensures Serialized(opts + [o]) == Serialized(opts) + o.ToBytes()
  {
    if |opts| == 0 {
      assert [o][1..] == [];
      assert opts + [o] == [o];
    } else {
      assert (opts + [o])[1..] == opts[1..] + [o];
      SerializedAppend(opts[1..], o);
    }
  }

  lemma {:induction false} SerializedLength(opts: seq<TcpOption>)
    ensures |Serialized(opts)| == SumLengths(opts)
  {
    if |opts| > 0 {
      SerializedLength(opts[1..]);
    }
  }

  /**
   * `words_needed` is the ceiling of `total_length / 4` while it fits in a
   * byte; `to_bytes` then has length `4 * words_needed`, starts with the
   * option encodings and is zero after them.
   */
  lemma EncodeLayout(opts: seq<TcpOption>)
    requires SumLengths(opts) <= 1020
    ensures 4 * OptionsWords(opts) as int - 4 < SumLengths(opts) <= 4 * OptionsWords(opts) as int
    ensures |EncodeOptions(opts)| == 4 * OptionsWords(opts) as int
    ensures EncodeOptions(opts)[..SumLengths(opts)] == Serialized(opts)
    ensures forall i :: SumLengths(opts) <= i < |EncodeOptions(opts)| ==> EncodeOptions(opts)[i] == 0
  {
    SerializedLength(opts);
    WordsCeiling(SumLengths(opts));
  }

  /** Without wrap-around of `words_needed`, `to_bytes` has `4 * words_needed()` bytes, so an even number. */
  lemma EncodedLength(opts: seq<TcpOption>)
    requires SumLengths(opts) <= 1020
    ensures |EncodeOptions(opts)| == 4 * OptionsWords(opts) as int
    ensures |EncodeOptions(opts)| % 2 == 0
  {
    EncodeLayout(opts);
    var w := OptionsWords(opts) as int;
    assert 4 * w == 2 * (2 * w);
  }

  /** Up to 1020 bytes, `(n + 3) / 4` fits a u8 and four times it is the least multiple of 4 not below `n`. */
  lemma WordsCeiling(n: nat)
    requires n <= 1020
    ensures ((n + 3) / 4) % 0x100 == (n + 3) / 4
    ensures n <= 4 * ((n + 3) / 4) < n + 4
  {
    var q := (n + 3) / 4;
    assert n + 3 == 4 * q + (n + 3) % 4;
    assert q < 0x100;
  }

  /**
   * Options without end-of-list, followed by a zero byte, decode back to
   * themselves: nothing after the zero is inspected.
   */
  lemma {:induction false} DecodeSerialized(opts: seq<TcpOption>, tail: seq<uint8>)
    requires forall i :: 0 <= i < |opts| ==> opts[i] != EndOfOptionList
    requires |tail| == 0 || tail[0] == 0
    ensures DecodeOptions(Serialized(opts) + tail) == Ok(opts)
  {
    if |opts| == 0 {
      assert Serialized(opts) + tail == tail;
    } else {
      var o, rest := opts[0], opts[1..];
      var after := Serialized(rest) + tail;
      assert Serialized(opts) + tail == o.ToBytes() + after;
      OptionRoundTrip(o, after);
      assert (o.ToBytes() + after)[o.Length()..] == after;
      DecodeSerialized(rest, tail);
      assert opts == [o] + rest;
    }
  }

  /** Every list without end-of-list survives `to_bytes` then `from_bytes`. */
  lemma RoundTrip(opts: seq<TcpOption>)
    requires forall i :: 0 <= i < |opts| ==> opts[i] != EndOfOptionList
    ensures DecodeOptions(EncodeOptions(opts)) == Ok(opts)
  {
    var bytes := Serialized(opts);
    var target := 4 * OptionsWords(opts) as int;
    var padding := Zeros(if |bytes| < target then target - |bytes| else 0);
    DecodeSerialized(opts, padding);
  }

  /** A decoded list never holds an end-of-list option: a zero byte stops the scan before it is decoded. */
  lemma {:induction false} DecodeNeverYieldsEndOfList(bytes: seq<uint8>)
    ensures DecodeOptions(bytes).Ok? ==>
      forall i :: 0 <= i < |DecodeOptions(bytes).value| ==> DecodeOptions(bytes).value[i] != EndOfOptionList
  {
    if |bytes| > 0 && bytes[0] != 0 {
      var parsed := TcpOption.FromBytes(bytes);
      if parsed.Ok? {
        var (option, consumed) := parsed.value;
        assert option.Kind() == bytes[0];
        DecodeNeverYieldsEndOfList(bytes[consumed..]);
      }
    }
  }

  /** No-op then MSS 1460 encodes to five bytes and three bytes of padding. */
  lemma ExampleNopMss()
    ensures EncodeOptions([NoOperation, MaximumSegmentSize(1460)]) == [1, 2, 4, 0x05, 0xb4, 0, 0, 0]
  {
    var opts := [NoOperation, MaximumSegmentSize(1460)];
    assert opts[1..] == [MaximumSegmentSize(1460)] && opts[1..][1..] == [];
    assert SumLengths(opts) == 5;
    assert Serialized(opts) == [1, 2, 4, 0x05, 0xb4];
  }
}

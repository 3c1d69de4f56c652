/**
 * IPv4 options of RFC 791 section 3.1: the single-byte types 0 (end of
 * option list) and 1 (no operation), zero-padded to a 4-byte boundary.
 * The decoder keeps a type-0 byte as an option and stops right after it.
 */
module Ipv4OptionsCodec {
  import opened Bytes

  /** The two failures of `Ipv4Option::from_bytes`. */
  datatype Ipv4OptionError = EmptyOptionBytes | UnknownOptionType

  datatype Ipv4Option = EndOfOptionsList | NoOperation
  {
    /** The option type code. */
    function OptionType(): (t: uint8)
      ensures t <= 1 && (t == 0 <==> this == EndOfOptionsList)
    {
      match this
      case EndOfOptionsList => 0
      case NoOperation => 1
    }

    /** Length in bytes: both kinds are a single byte. */
    function Length(): (n: nat)
      ensures n == 1
    {
      match this
      case EndOfOptionsList => 1
      case NoOperation => 1
    }

    function ToBytes(): (b: seq<uint8>)
      ensures |b| == Length() && b[0] == OptionType()
    {
      match this
      case EndOfOptionsList => [0]
      case NoOperation => [1]
    }

    /** Decodes one option and the number of bytes it took. */
    static function FromBytes(bytes: seq<uint8>): (r: Result<(Ipv4Option, nat), Ipv4OptionError>)
      ensures |bytes| == 0 ==> r == Err(EmptyOptionBytes)
      ensures |bytes| > 0 && bytes[0] > 1 ==> r == Err(UnknownOptionType)
      ensures r.Ok? <==> |bytes| > 0 && bytes[0] <= 1
      ensures r.Ok? ==> r.value.1 == 1 && r.value.0.ToBytes() == bytes[..1]
    {
      if |bytes| == 0 then Err(EmptyOptionBytes)
      else if bytes[0] == 0 then Ok((EndOfOptionsList, 1))
      else if bytes[0] == 1 then Ok((NoOperation, 1))
      else Err(UnknownOptionType)
    }
  }

  /** Decoding an option's own encoding, whatever follows, gives the option back. */
  lemma OptionRoundTrip(o: Ipv4Option, rest: seq<uint8>)
    ensures Ipv4Option.FromBytes(o.ToBytes() + rest) == Ok((o, o.Length()))
  {
  }

  /** Sum of the option lengths, before padding. */
  function SumLengths(opts: seq<Ipv4Option>): nat
  {
    if |opts| == 0 then 0 else SumLengths(opts[..|opts| - 1]) + opts[|opts| - 1].Length()
  }

  /** `n` rounded up to the next 32-bit boundary, as `total_length` and `to_bytes` pad. */
  function RoundUp4(n: nat): nat
  {
    if n % 4 != 0 then n + (4 - n % 4) else n
  }

  /** `total_length`: encoded size of the list including padding. */
  function OptionsLength(opts: seq<Ipv4Option>): nat
  {
    RoundUp4(SumLengths(opts))
  }

  /** `words_needed`: the padded size in 32-bit words, truncated by `as u8`. */
  function OptionsWords(opts: seq<Ipv4Option>): uint8
  {
    (OptionsLength(opts) / 4) % 0x100
  }

  /** The option encodings in insertion order, without padding. */
  function Serialized(opts: seq<Ipv4Option>): seq<uint8>
  {
    if |opts| == 0 then [] else Serialized(opts[..|opts| - 1]) + opts[|opts| - 1].ToBytes()
  }

  /** `to_bytes`: the encodings, then zeros up to the next multiple of 4. */
  function EncodeOptions(opts: seq<Ipv4Option>): seq<uint8>
  {
    var bytes := Serialized(opts);
    bytes + Zeros(RoundUp4(|bytes|) - |bytes|)
  }

  /** Adds a list of options decoded earlier in front of the rest of a decode. */
  function Prepend(front: seq<Ipv4Option>, rest: Result<seq<Ipv4Option>, Ipv4OptionError>): Result<seq<Ipv4Option>, Ipv4OptionError>
  {
    match rest
    case Ok(tail) => Ok(front + tail)
    case Err(e) => Err(e)
  }

  lemma PrependEmpty(rest: Result<seq<Ipv4Option>, Ipv4OptionError>)
    ensures Prepend([], rest) == rest
  {
    if rest.Ok? {
      assert [] + rest.value == rest.value;
    }
  }

  lemma PrependNested(a: seq<Ipv4Option>, b: seq<Ipv4Option>, rest: Result<seq<Ipv4Option>, Ipv4OptionError>)
    ensures Prepend(a, Prepend(b, rest)) == Prepend(a + b, rest)
  {
    if rest.Ok? {
      assert a + (b + rest.value) == (a + b) + rest.value;
    }
  }

  /**
   * `Ipv4Options::from_bytes`: decodes options one byte at a time, keeps an
   * end-of-list option and stops right after it; an unknown type fails.
   */
  function DecodeOptions(bytes: seq<uint8>): Result<seq<Ipv4Option>, Ipv4OptionError>
    decreases |bytes|
  {
    if |bytes| == 0 then Ok([])
    else
      match Ipv4Option.FromBytes(bytes)
      case Err(e) => Err(e)
      case Ok((option, consumed)) =>
        if option == EndOfOptionsList then Ok([option])
        else Prepend([option], DecodeOptions(bytes[consumed..]))
  }

  /** The options of an IPv4 packet, in insertion order. */
  class Ipv4Options {
    var options: seq<Ipv4Option>

    constructor ()
      ensures options == []
    {
      options := [];
    }

    /** Appends one option; the options before it are unchanged. */
    method Add(option: Ipv4Option)
      modifies this
      ensures options == old(options) + [option]
    {
      options := options + [option];
    }

    method TotalLength() returns (length: nat)
      ensures length == OptionsLength(options)
    {
      length := 0;
      for i := 0 to |options|
        invariant length == SumLengths(options[..i])
      {
        assert options[..i + 1][..i] == options[..i];
        length := length + options[i].Length();
      }
      assert options[..|options|] == options;
      var remainder := length % 4;
      if remainder != 0 {
        length := length + (4 - remainder);
      }
    }

    method WordsNeeded() returns (words: uint8)
      ensures words == OptionsWords(options)
    {
      var totalBytes := TotalLength();
      words := (totalBytes / 4) % 0x100;
    }

    method ToBytes() returns (bytes: seq<uint8>)
      ensures bytes == EncodeOptions(options)
    {
      bytes := [];
      for i := 0 to |options|
        invariant bytes == Serialized(options[..i])
      {
        assert options[..i + 1][..i] == options[..i];
        bytes := bytes + options[i].ToBytes();
      }
      assert options[..|options|] == options;
      var remainder := |bytes| % 4;
      if remainder != 0 {
        var paddingNeeded := 4 - remainder;
        bytes := bytes + Zeros(paddingNeeded);
      }
    }

    /** `from_bytes`: the `while pos < len` loop, returning the decoded list. */
    static method FromBytes(bytes: seq<uint8>) returns (r: Result<seq<Ipv4Option>, Ipv4OptionError>)
      ensures r == DecodeOptions(bytes)
    {
      var options: seq<Ipv4Option> := [];
      var pos := 0;
      assert bytes[pos..] == bytes;
      PrependEmpty(DecodeOptions(bytes));
      while pos < |bytes|
        invariant 0 <= pos <= |bytes|
        invariant DecodeOptions(bytes) == Prepend(options, DecodeOptions(bytes[pos..]))
      {
        var parsed := Ipv4Option.FromBytes(bytes[pos..]);
        if parsed.Err? {
          return Err(parsed.error);
        }
        var (option, consumed) := parsed.value;
        if option == EndOfOptionsList {
          return Ok(options + [option]);
        }
        PrependNested(options, [option], DecodeOptions(bytes[pos + consumed..]));
        options := options + [option];
        pos := pos + consumed;
      }
      assert bytes[pos..] == [];
      assert options + [] == options;
      return Ok(options);
    }
  }

  /** `total_length` is the option count rounded up to a multiple of 4; `words_needed` its quarter. */
  lemma {:induction false} OptionsLengthIsPaddedCount(opts: seq<Ipv4Option>)
    ensures SumLengths(opts) == |opts|
    ensures OptionsLength(opts) % 4 == 0 && |opts| <= OptionsLength(opts) < |opts| + 4
    ensures OptionsLength(opts) < 0x400 ==> OptionsWords(opts) as int * 4 == OptionsLength(opts)
  {
    if |opts| > 0 {
      OptionsLengthIsPaddedCount(opts[..|opts| - 1]);
    }
  }

  lemma {:induction false} SerializedLayout(opts: seq<Ipv4Option>)
    ensures |Serialized(opts)| == |opts|
    ensures forall i :: 0 <= i < |opts| ==> Serialized(opts)[i] == opts[i].OptionType()
  {
    if |opts| > 0 {
      var init := opts[..|opts| - 1];
      SerializedLayout(init);
      forall i | 0 <= i < |opts| - 1 ensures opts[i] == init[i] {
      }
    }
  }

  /** `to_bytes` has length `total_length`. */
  lemma EncodedLength(opts: seq<Ipv4Option>)
    ensures |EncodeOptions(opts)| == OptionsLength(opts)
  {
    SerializedLength(opts);
    OptionsLengthIsPaddedCount(opts);
    var bytes := Serialized(opts);
    assert |bytes + Zeros(RoundUp4(|bytes|) - |bytes|)| == RoundUp4(|bytes|);
  }

  /** One byte per option. */
  lemma {:induction false} SerializedLength(opts: seq<Ipv4Option>)
    ensures |Serialized(opts)| == |opts|
  {
    if |opts| > 0 {
      SerializedLength(opts[..|opts| - 1]);
    }
  }

  /**
   * `to_bytes` has length `total_length`, a multiple of 4; its first bytes
   * are the option codes in insertion order and the rest are zero.
   */
  lemma EncodeLayout(opts: seq<Ipv4Option>)
    ensures |EncodeOptions(opts)| == OptionsLength(opts) && |EncodeOptions(opts)| % 4 == 0
    ensures |opts| <= |EncodeOptions(opts)| < |opts| + 4
    ensures forall i :: 0 <= i < |opts| ==> EncodeOptions(opts)[i] == opts[i].OptionType()
    ensures forall i :: |opts| <= i < |EncodeOptions(opts)| ==> EncodeOptions(opts)[i] == 0
  {
    SerializedLayout(opts);
    OptionsLengthIsPaddedCount(opts);
  }

  /** Empty input decodes to no options; all-zero input of any positive length to one end-of-list. */
  lemma DecodeEmptyAndZeros(bytes: seq<uint8>)
    requires forall i :: 0 <= i < |bytes| ==> bytes[i] == 0
    ensures DecodeOptions(bytes) == if |bytes| == 0 then Ok([]) else Ok([EndOfOptionsList])
  {
  }

  /** Decoding fails exactly when a byte above 1 comes before the first zero byte. */
  lemma {:induction false} DecodeFailsIff(bytes: seq<uint8>)
    ensures DecodeOptions(bytes).Err? <==>
      exists i :: 0 <= i < |bytes| && bytes[i] > 1 && forall j :: 0 <= j < i ==> bytes[j] != 0
  {
    if |bytes| == 0 {
    } else if bytes[0] > 1 {
      assert bytes[0] > 1;
    } else if bytes[0] == 0 {
      forall i | 0 < i < |bytes| && bytes[i] > 1 ensures exists j :: 0 <= j < i && bytes[j] == 0 {
        assert bytes[0] == 0;
      }
    } else {
      var rest := bytes[1..];
      DecodeFailsIff(rest);
      assert DecodeOptions(bytes) == Prepend([NoOperation], DecodeOptions(rest));
      if DecodeOptions(rest).Err? {
        var i :| 0 <= i < |rest| && rest[i] > 1 && forall j :: 0 <= j < i ==> rest[j] != 0;
        assert bytes[i + 1] > 1;
        forall j | 0 <= j < i + 1 ensures bytes[j] != 0 {
          if j > 0 {
            assert bytes[j] == rest[j - 1];
          }
        }
      } else {
        forall i | 0 <= i < |bytes| && bytes[i] > 1 ensures exists j :: 0 <= j < i && bytes[j] == 0 {
          assert i > 0;
          assert rest[i - 1] > 1;
          var j :| 0 <= j < i - 1 && rest[j] == 0;
          assert bytes[j + 1] == 0;
        }
      }
    }
  }

  /** A run of no-operation bytes decodes to that many no-operation options. */
  lemma {:induction false} DecodeAfterNops(nops: seq<uint8>, tail: seq<uint8>)
    requires forall i :: 0 <= i < |nops| ==> nops[i] == 1
    ensures DecodeOptions(nops + tail) == Prepend(seq(|nops|, _ => NoOperation), DecodeOptions(tail))
  {
    if |nops| > 0 {
      var rest := nops[1..];
      assert (nops + tail)[1..] == rest + tail;
      DecodeAfterNops(rest, tail);
      var front: seq<Ipv4Option> := seq(|nops|, _ => NoOperation);
      assert front == [NoOperation] + seq(|rest|, _ => NoOperation);
      PrependNested([NoOperation], seq(|rest|, _ => NoOperation), DecodeOptions(tail));
    } else {
      assert nops + tail == tail;
      assert seq(|nops|, _ => NoOperation) == [];
      PrependEmpty(DecodeOptions(tail));
    }
  }

  /** A list whose only end-of-list is its last element decodes back to itself. */
  lemma RoundTripToEndOfList(opts: seq<Ipv4Option>)
    requires |opts| > 0 && opts[|opts| - 1] == EndOfOptionsList
    requires forall i :: 0 <= i < |opts| - 1 ==> opts[i] == NoOperation
    ensures DecodeOptions(EncodeOptions(opts)) == Ok(opts)
  {
    var n := |opts| - 1;
    var enc := EncodeOptions(opts);
    EncodeLayout(opts);
    var nops, tail := enc[..n], enc[n..];
    assert enc == nops + tail;
    forall i | 0 <= i < n ensures nops[i] == 1 {
      assert nops[i] == enc[i] == opts[i].OptionType();
    }
    DecodeAfterNops(nops, tail);
    assert tail[0] == 0;
    assert DecodeOptions(tail) == Ok([EndOfOptionsList]);
    assert opts == seq(n, _ => NoOperation) + [EndOfOptionsList];
  }

  /**
   * A list without end-of-list decodes back to itself when it fills whole
   * words; otherwise the first padding zero comes back as an end-of-list.
   */
  lemma RoundTripWithoutEndOfList(opts: seq<Ipv4Option>)
    requires forall i :: 0 <= i < |opts| ==> opts[i] == NoOperation
    ensures DecodeOptions(EncodeOptions(opts)) ==
      if |opts| % 4 == 0 then Ok(opts) else Ok(opts + [EndOfOptionsList])
  {
    var n := |opts|;
    var enc := EncodeOptions(opts);
    EncodeLayout(opts);
    var nops, tail := enc[..n], enc[n..];
    assert enc == nops + tail;
    forall i | 0 <= i < n ensures nops[i] == 1 {
      assert nops[i] == enc[i] == opts[i].OptionType();
    }
    DecodeAfterNops(nops, tail);
    assert opts == seq(n, _ => NoOperation);
    DecodeEmptyAndZeros(tail);
    if n % 4 == 0 {
      assert |tail| == 0;
      assert opts + [] == opts;
    } else {
      assert |tail| > 0;
    }
  }

  /** The padded bytes `[1, 1, 0, 0]` and the list no-op, no-op, end-of-list encode to each other. */
  lemma ExampleNopNopEol()
    ensures EncodeOptions([NoOperation, NoOperation, EndOfOptionsList]) == [1, 1, 0, 0]
    ensures DecodeOptions([1, 1, 0, 0]) == Ok([NoOperation, NoOperation, EndOfOptionsList])
  {
    var l := [NoOperation, NoOperation, EndOfOptionsList];
    EncodeLayout(l);
    var e := EncodeOptions(l);
    assert e[0] == 1 && e[1] == 1 && e[2] == 0 && e[3] == 0;
    assert e == [1, 1, 0, 0];
    RoundTripToEndOfList(l);
  }
}

/**
 * The Internet checksum of RFC 1071 section 1, shared by the IPv4 header
 * checksum and the TCP checksum (IPv4 and IPv6 pseudo-headers).
 *
 * `InternetChecksum` is the one specification: sum the bytes as big-endian
 * 16-bit words (an odd final byte is the high byte of a zero-padded word),
 * fold the carries above bit 15 back in, and complement the low 16 bits.
 * The library repeats the summing loop and the folding loop in three places;
 * `AddWords` and `FoldAndComplement` are those two loops, and each caller is
 * proved equal to the specification.
 */
module Checksum {
  import opened Bytes

  /** Sum of the big-endian 16-bit words of `b`, an odd last byte padded as the high byte. */
  function WordSum(b: seq<uint8>): nat
    decreases |b|
  {
    if |b| == 0 then 0
    else if |b| == 1 then b[0] as int * 0x100
    else b[0] as int * 0x100 + b[1] + WordSum(b[2..])
  }

  /**
   * End-around carry: add the bits above bit 15 back into the low 16 bits
   * until nothing is left above bit 15. The result keeps the residue modulo
   * 0xFFFF, and is zero only for a zero sum.
   */
  function Fold(s: nat): (r: nat)
    ensures r < 0x1_0000
    ensures r % 0xFFFF == s % 0xFFFF
    ensures r == 0 <==> s == 0
    decreases s
  {
    if s < 0x1_0000 then s
    else
      var q, lo := s / 0x1_0000, s % 0x1_0000;
      assert s == 0xFFFF * q + (lo + q);
      ModMultipleAdd(q, lo + q);
      Fold(lo + q)
  }

  /** One's complement of the folded word sum of `b`. */
  function InternetChecksum(b: seq<uint8>): uint16
  {
    0xFFFF - Fold(WordSum(b))
  }

  lemma ModMultipleAdd(q: nat, x: nat)
    ensures (0xFFFF * q + x) % 0xFFFF == x % 0xFFFF
  {
    var r := x % 0xFFFF;
    assert x == 0xFFFF * (x / 0xFFFF) + r;
    assert 0xFFFF * q + x == 0xFFFF * (q + x / 0xFFFF) + r;
  }

  /** Summing a concatenation whose first part has even length sums the parts. */
  lemma {:induction false} WordSumAppend(a: seq<uint8>, b: seq<uint8>)
    requires |a| % 2 == 0
    ensures WordSum(a + b) == WordSum(a) + WordSum(b)
  {
    if |a| > 0 {
      assert (a + b)[2..] == a[2..] + b;
      WordSumAppend(a[2..], b);
    } else {
      assert a + b == b;
    }
  }

  /** Three parts, the first two of even length, sum part by part. */
  lemma WordSumAppend3(a: seq<uint8>, b: seq<uint8>, c: seq<uint8>)
    requires |a| % 2 == 0 && |b| % 2 == 0
    ensures WordSum(a + b + c) == WordSum(a) + WordSum(b) + WordSum(c)
  {
    WordSumAppend(a, b);
    WordSumAppend(a + b, c);
  }

  /** The sum of a big-endian encoded 16-bit value is that value. */
  lemma WordSumBe16(v: uint16)
    ensures WordSum(BeBytes16(v)) == v
  {
    var b := BeBytes16(v);
    assert b[2..] == [];
  }

  /** Each word is at most 0xFFFF, so the sum is bounded by the word count. */
  lemma {:induction false} WordSumBound(b: seq<uint8>)
    ensures WordSum(b) <= 0xFFFF * ((|b| + 1) / 2)
  {
    if |b| >= 2 {
      WordSumBound(b[2..]);
    }
  }

  /** An all-zero input (the empty one included) has the checksum 0xFFFF, never 0. */
  lemma {:induction false} ChecksumOfZeros(b: seq<uint8>)
    requires forall i :: 0 <= i < |b| ==> b[i] == 0
    ensures WordSum(b) == 0
    ensures InternetChecksum(b) == 0xFFFF
  {
    if |b| >= 2 {
      ChecksumOfZeros(b[2..]);
    }
  }

  /** A positive sum that is a multiple of 0xFFFF folds to 0xFFFF, whose checksum is 0. */
  lemma FoldOfMultiple(s: nat)
    requires s > 0 && s % 0xFFFF == 0
    ensures Fold(s) == 0xFFFF
  {
    var r := Fold(s);
    assert r != 0 && r < 0x1_0000 && r % 0xFFFF == 0;
  }

  /** Replacing the word at an even offset changes the sum by the difference of the words. */
  lemma WordSumSplice(pre: seq<uint8>, w: uint16, post: seq<uint8>)
    requires |pre| % 2 == 0
    ensures WordSum(pre + BeBytes16(w) + post) == WordSum(pre) + w + WordSum(post)
  {
    assert pre + BeBytes16(w) + post == pre + (BeBytes16(w) + post);
    WordSumAppend(pre, BeBytes16(w) + post);
    WordSumAppend(BeBytes16(w), post);
    WordSumBe16(w);
  }

  /** Adding the complement of the folded sum gives a sum that folds to 0xFFFF. */
  lemma FoldWithComplement(s: nat)
    ensures Fold(s + (0xFFFF - Fold(s))) == 0xFFFF
  {
    var f := Fold(s);
    var q := s / 0xFFFF;
    assert s == 0xFFFF * q + s % 0xFFFF;
    if f == 0xFFFF {
      assert s % 0xFFFF == 0;
      assert s + (0xFFFF - f) == 0xFFFF * q;
      ModMultipleAdd(q, 0);
    } else {
      assert f % 0xFFFF == f;
      assert s + (0xFFFF - f) == 0xFFFF * (q + 1);
      ModMultipleAdd(q + 1, 0);
    }
    FoldOfMultiple(s + (0xFFFF - f));
  }

  /**
   * The receiver's check on a message split around a zeroed 16-bit field
   * at an even offset: write the checksum of the message into that field
   * and the checksum of the result is 0.
   */
  lemma ChecksumVerifies(pre: seq<uint8>, post: seq<uint8>, c: uint16)
    requires |pre| % 2 == 0 && c == InternetChecksum(pre + [0, 0] + post)
    ensures InternetChecksum(pre + BeBytes16(c) + post) == 0
  {
    assert BeBytes16(0) == [0, 0];
    WordSumSplice(pre, 0, post);
    WordSumSplice(pre, c, post);
    FoldWithComplement(WordSum(pre + [0, 0] + post));
  }

  /**
   * The `for chunk in bytes.chunks(2)` loop: add each big-endian word of
   * `data` to the accumulator, padding an odd last byte with a low zero.
   */
  method AddWords(sum0: nat, data: seq<uint8>) returns (sum: nat)
    ensures sum == sum0 + WordSum(data)
  {
    sum := sum0;
    var i := 0;
    while i < |data|
      invariant 0 <= i <= |data|
      invariant sum + WordSum(data[i..]) == sum0 + WordSum(data)
    {
      if i + 1 < |data| {
        assert data[i..][2..] == data[i + 2..];
        sum := sum + (data[i] as int * 0x100 + data[i + 1]);
        i := i + 2;
      } else {
        sum := sum + data[i] as int * 0x100;
        i := i + 1;
      }
    }
  }

  /**
   * The carry-folding `while (sum >> 16) != 0` loop followed by
   * `!sum as u16`, the low 16 bits of the complemented accumulator.
   */
  method FoldAndComplement(sum0: nat) returns (checksum: uint16)
    ensures checksum == 0xFFFF - Fold(sum0)
  {
    var sum := sum0;
    while sum / 0x1_0000 != 0
      invariant Fold(sum) == Fold(sum0)
      decreases sum
    {
      sum := sum % 0x1_0000 + sum / 0x1_0000;
    }
    checksum := 0xFFFF - sum % 0x1_0000;
  }
}

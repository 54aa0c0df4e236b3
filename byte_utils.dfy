/** Conversions between 8-character bit strings and byte values, most significant bit first. */
module ByteUtils {

  /** One byte, as Python yields it when iterating over a `bytes` object. */
  type Byte = b: int | 0 <= b < 256

  /** Every character of `s` is a binary digit. */
  predicate IsBitString(s: string) {
    forall i | 0 <= i < |s| :: s[i] == '0' || s[i] == '1'
  }

  /** A bit string of exactly eight digits. */
  predicate IsOctet(s: string) {
    |s| == 8 && IsBitString(s)
  }

  function Pow2(n: nat): (r: nat)
    ensures r >= 1
  {
    if n == 0 then 1 else 2 * Pow2(n - 1)
  }

  /** The number a string of binary digits denotes, most significant digit first. */
  function BinaryValue(s: string): nat
    decreases |s|
  {
    if s == [] then 0 else 2 * BinaryValue(s[..|s| - 1]) + (if s[|s| - 1] == '1' then 1 else 0)
  }

  lemma {:induction false} BinaryValueBound(s: string)
    ensures BinaryValue(s) < Pow2(|s|)
  {
    if s != [] {
      BinaryValueBound(s[..|s| - 1]);
    }
  }

  /** The `width` lowest bits of `v`, most significant first. */
  function ToBinary(v: nat, width: nat): (s: string)
    requires v < Pow2(width)
    ensures |s| == width && IsBitString(s)
    ensures BinaryValue(s) == v
    decreases width
  {
    if width == 0 then []
    else
      var prefix := ToBinary(v / 2, width - 1);
      var s := prefix + [if v % 2 == 1 then '1' else '0'];
      assert s[..|s| - 1] == prefix;
      s
  }

  function OctetValue(s: string): (b: Byte)
    requires IsOctet(s)
    ensures b == BinaryValue(s)
  {
    BinaryValueBound(s);
    BinaryValue(s)
  }

  /** `bitstrings_to_bytes`: one byte per input string, each the big-endian value of its digits. */
  function BitstringsToBytes(bitstrings: seq<string>): (r: seq<Byte>)
    requires forall i | 0 <= i < |bitstrings| :: IsOctet(bitstrings[i])
    ensures |r| == |bitstrings|
    ensures forall i | 0 <= i < |r| :: r[i] == BinaryValue(bitstrings[i])
  {
    seq(|bitstrings|, i requires 0 <= i < |bitstrings| => OctetValue(bitstrings[i]))
  }

  /** `byte_to_bitstring`: the eight bits of `b`, most significant first. */
  function ByteToBitstring(b: Byte): (s: string)
    ensures IsOctet(s)
    ensures BinaryValue(s) == b
  {
    assert Pow2(8) == 256;
    ToBinary(b, 8)
  }

  /** A bit string is determined by its length and its value. */
  lemma {:induction false} ToBinaryOfValue(s: string)
    requires IsBitString(s)
    ensures BinaryValue(s) < Pow2(|s|)
    ensures ToBinary(BinaryValue(s), |s|) == s
    decreases |s|
  {
    BinaryValueBound(s);
    if s != [] {
      var prefix := s[..|s| - 1];
      assert IsBitString(prefix);
      ToBinaryOfValue(prefix);
      assert BinaryValue(s) / 2 == BinaryValue(prefix);
      assert s == prefix + [s[|s| - 1]];
    }
  }

  /** Expanding the value of an octet gives the octet back. */
  lemma OctetValueRoundTrip(s: string)
    requires IsOctet(s)
    ensures ByteToBitstring(OctetValue(s)) == s
  {
    ToBinaryOfValue(s);
    assert Pow2(8) == 256;
  }

  /** Packing an octet and expanding the byte again gives the octet back. */
  lemma OctetRoundTrip(s: string)
    requires IsOctet(s)
    ensures |BitstringsToBytes([s])| == 1
    ensures ByteToBitstring(BitstringsToBytes([s])[0]) == s
  {
    OctetValueRoundTrip(s);
  }

  /** Expanding a byte and packing the octet again gives the byte back. */
  lemma ByteRoundTrip(b: Byte)
    ensures BitstringsToBytes([ByteToBitstring(b)]) == [b]
  {
  }

  /** Distinct bytes expand to distinct octets. */
  lemma ByteToBitstringInjective(a: Byte, b: Byte)
    requires ByteToBitstring(a) == ByteToBitstring(b)
    ensures a == b
  {
  }
}

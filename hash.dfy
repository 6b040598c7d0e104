/**
 * Hash.java: an immutable wrapper over the bytes of a digest, with the
 * proof-of-work validity test, its lowercase hexadecimal rendering (the
 * base16 alphabet of section 8 of RFC 4648, in lower case) and
 * structural equality.
 */
module Hashes {
  import opened Options
  import opened JavaInts

  datatype Hash = Hash(data: seq<Int8>)

  /** `getData`: the bytes the hash was built from. */
  function GetData(h: Hash): (bytes: seq<Int8>)
    ensures Hash(bytes) == h
  {
    h.data
  }

  /** `isValid`: the first three bytes are zero; a hash shorter than three bytes is never valid. */
  function IsValid(h: Hash): (r: bool)
    ensures r <==> |h.data| >= 3 && h.data[..3] == [0, 0, 0]
  {
    if |h.data| < 3 then false else h.data[0] == 0 && h.data[1] == 0 && h.data[2] == 0
  }

  /** Only the first three bytes decide validity. */
  lemma ValidityIgnoresTail(h: Hash, k: Hash)
    requires |h.data| >= 3 && |k.data| >= 3 && h.data[..3] == k.data[..3]
    ensures IsValid(h) == IsValid(k)
  {
  }

  /** `equals`: same length and the same byte at every position. */
  function Equals(h: Hash, other: Hash): (r: bool)
    ensures r <==> |h.data| == |other.data| && forall i :: 0 <= i < |h.data| ==> h.data[i] == other.data[i]
    ensures r <==> h == other
  {
    h.data == other.data
  }

  /** `equals` is an equivalence relation. */
  lemma EqualsIsEquivalence(h: Hash, k: Hash, m: Hash)
    ensures Equals(h, h)
    ensures Equals(h, k) == Equals(k, h)
    ensures Equals(h, k) && Equals(k, m) ==> Equals(h, m)
  {
  }

  predicate IsHexDigit(c: char)
  {
    '0' <= c <= '9' || 'a' <= c <= 'f'
  }

  /** The lowercase hexadecimal digit for a value below 16. */
  function HexDigit(d: nat): (c: char)
    requires d < 16
    ensures IsHexDigit(c)
  {
    if d < 10 then ('0' as int + d) as char else ('a' as int + d - 10) as char
  }

  /** The value of a lowercase hexadecimal digit; None for any other character. */
  function HexValue(c: char): (r: Option<nat>)
    ensures r.Some? <==> IsHexDigit(c)
    ensures r.Some? ==> r.value < 16 && HexDigit(r.value) == c
  {
    if '0' <= c <= '9' then Some(c as int - '0' as int)
    else if 'a' <= c <= 'f' then Some(c as int - 'a' as int + 10)
    else None
  }

  /** `String.format("%02x", Byte.toUnsignedInt(b))`. */
  function ByteHex(b: Int8): (s: string)
  {
    var u := Unsigned8(b);
    [HexDigit(u / 16), HexDigit(u % 16)]
  }

  /** The text `toString` builds: each byte's two digits, in byte order. */
  function Hex(bytes: seq<Int8>): (s: string)
    ensures |s| == 2 * |bytes|
    ensures forall i :: 0 <= i < |s| ==> IsHexDigit(s[i])
  {
    if bytes == [] then "" else Hex(bytes[..|bytes| - 1]) + ByteHex(bytes[|bytes| - 1])
  }

  /** The byte whose unsigned value has the two digits hi and lo. */
  function PairValue(hi: char, lo: char): (b: Int8)
    requires IsHexDigit(hi) && IsHexDigit(lo)
    ensures Unsigned8(b) == HexValue(hi).value * 16 + HexValue(lo).value
  {
    Signed8(HexValue(hi).value * 16 + HexValue(lo).value)
  }

  /** Reads digit pairs back into bytes; None when the text is not a well-formed rendering. */
  function FromHex(s: string): (r: Option<seq<Int8>>)
    ensures r.Some? <==> |s| % 2 == 0 && forall i :: 0 <= i < |s| ==> IsHexDigit(s[i])
    ensures r.Some? ==> 2 * |r.value| == |s|
  {
    if |s| % 2 == 1 || exists i :: 0 <= i < |s| && !IsHexDigit(s[i]) then None
    else Some(seq(|s| / 2, i requires 0 <= i < |s| / 2 => PairValue(s[2 * i], s[2 * i + 1])))
  }

  /** `toString`: appends each byte's two digits to a builder, in byte order. */
  method ToString(h: Hash) returns (s: string)
    ensures s == Hex(h.data)
  {
    s := "";
    for i := 0 to |h.data|
      invariant s == Hex(h.data[..i])
    {
      assert h.data[..i + 1][..i] == h.data[..i];
      s := s + ByteHex(h.data[i]);
    }
    assert h.data[..|h.data|] == h.data;
  }

  /** Byte i occupies positions 2i and 2i+1: high nibble, then low nibble of its unsigned value. */
  lemma {:induction false} HexAt(bytes: seq<Int8>, i: nat)
    requires i < |bytes|
    ensures Hex(bytes)[2 * i] == HexDigit(Unsigned8(bytes[i]) / 16)
    ensures Hex(bytes)[2 * i + 1] == HexDigit(Unsigned8(bytes[i]) % 16)
  {
    var n := |bytes| - 1;
    if i < n {
      HexAt(bytes[..n], i);
      assert Hex(bytes) == Hex(bytes[..n]) + ByteHex(bytes[n]);
    }
  }

  /** Reading a digit gives back its value. */
  lemma HexValueOfDigit(d: nat)
    requires d < 16
    ensures HexValue(HexDigit(d)) == Some(d)
  {
  }

  /** The pair of digits at positions 2i and 2i+1 of a rendering reads back as byte i. */
  lemma PairValueAt(bytes: seq<Int8>, i: nat)
    requires i < |bytes|
    ensures PairValue(Hex(bytes)[2 * i], Hex(bytes)[2 * i + 1]) == bytes[i]
  {
    var u := Unsigned8(bytes[i]);
    HexAt(bytes, i);
    HexValueOfDigit(u / 16);
    HexValueOfDigit(u % 16);
    assert (u / 16) * 16 + u % 16 == u;
  }

  /** A byte's two digits read back as the high and low nibble of its unsigned value. */
  lemma ByteHexDigits(b: Int8)
    ensures |ByteHex(b)| == 2
    ensures HexValue(ByteHex(b)[0]) == Some(Unsigned8(b) / 16)
    ensures HexValue(ByteHex(b)[1]) == Some(Unsigned8(b) % 16)
  {
    HexValueOfDigit(Unsigned8(b) / 16);
    HexValueOfDigit(Unsigned8(b) % 16);
  }

  /** Decoding the rendering gives back the bytes. */
  lemma HexRoundTrip(bytes: seq<Int8>)
    ensures FromHex(Hex(bytes)) == Some(bytes)
  {
    var s := Hex(bytes);
    var r := FromHex(s).value;
    assert |r| == |bytes|;
    forall i | 0 <= i < |bytes|
      ensures r[i] == bytes[i]
    {
      PairValueAt(bytes, i);
    }
    assert r == bytes;
  }

  /** Two hashes with the same rendering hold the same bytes. */
  lemma HexInjective(a: seq<Int8>, b: seq<Int8>)
    requires Hex(a) == Hex(b)
    ensures a == b
  {
    HexRoundTrip(a);
    HexRoundTrip(b);
  }

  /** The bytes [0, 0, 0, 1] form a valid hash rendered as "00000001". */
  lemma LeadingZerosExample()
    ensures IsValid(Hash([0, 0, 0, 1]))
    ensures Hex([0, 0, 0, 1]) == "00000001"
  {
    var b: seq<Int8> := [0, 0, 0, 1];
    assert b[..3] == [0, 0, 0];
    var s := Hex(b);
    HexAt(b, 0);
    HexAt(b, 1);
    HexAt(b, 2);
    HexAt(b, 3);
    assert HexDigit(0) == '0' && HexDigit(1) == '1';
    assert s[0] == '0' && s[1] == '0' && s[2] == '0' && s[3] == '0';
    assert s[4] == '0' && s[5] == '0' && s[6] == '0' && s[7] == '1';
    assert s == "00000001";
  }
}

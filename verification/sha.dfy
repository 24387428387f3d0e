/**
 * `NewSha`: a hexadecimal object name becomes the 20-byte array Git uses as
 * an object identifier. Decoding follows Go's `encoding/hex`, which accepts
 * both lower- and upper-case digits; encoding writes lower case.
 */
module Sha {

  newtype byte = x: int | 0 <= x < 256

  /** `sha1.Size`: bytes in an object identifier. */
  const ShaSize: nat := 20

  const HexDigits: string := "0123456789abcdef"

  predicate IsHexDigit(c: char) {
    '0' <= c <= '9' || 'a' <= c <= 'f' || 'A' <= c <= 'F'
  }

  /** What `hex.DecodeString` decodes without error: an even number of hex digits. */
  predicate IsHex(s: string) {
    |s| % 2 == 0 && forall i :: 0 <= i < |s| ==> IsHexDigit(s[i])
  }

  predicate IsLowerDigit(c: char) {
    '0' <= c <= '9' || 'a' <= c <= 'f'
  }

  predicate IsLowerHex(s: string) {
    |s| % 2 == 0 && forall i :: 0 <= i < |s| ==> IsLowerDigit(s[i])
  }

  /** Every digit `EncodeHex` writes is a lower-case hex digit. */
  lemma DigitIsLower(n: nat)
    requires n < 16
    ensures IsLowerDigit(HexDigits[n])
  {
  }

  function DigitValue(c: char): (v: nat)
    requires IsHexDigit(c)
    ensures v < 16
  {
    if '0' <= c <= '9' then (c - '0') as nat
    else if 'a' <= c <= 'f' then (c - 'a') as nat + 10
    else (c - 'A') as nat + 10
  }

  /** The byte spelled by two hex digits, high nibble first. */
  function PairValue(hi: char, lo: char): byte
    requires IsHexDigit(hi) && IsHexDigit(lo)
  {
    (16 * DigitValue(hi) + DigitValue(lo)) as byte
  }

  /** `hex.DecodeString` on valid input: one byte per pair of digits. */
  function DecodeHex(s: string): (r: seq<byte>)
    requires IsHex(s)
    ensures |r| == |s| / 2
    ensures forall i :: 0 <= i < |r| ==> r[i] == PairValue(s[2 * i], s[2 * i + 1])
    decreases |s|
  {
    if |s| == 0 then []
    else
      var tail := s[2..];
      var rest := DecodeHex(tail);
      var r := [PairValue(s[0], s[1])] + rest;
      forall i | 1 <= i < |r|
        ensures r[i] == PairValue(s[2 * i], s[2 * i + 1])
      {
        var j := i - 1;
        assert r[i] == rest[j] == PairValue(tail[2 * j], tail[2 * j + 1]);
        assert tail[2 * j] == s[2 * i] && tail[2 * j + 1] == s[2 * i + 1];
      }
      r
  }

  /** `hex.EncodeToString`: two lower-case digits per byte. */
  function EncodeHex(b: seq<byte>): (r: string)
    ensures |r| == 2 * |b|
    ensures IsLowerHex(r)
    ensures forall i :: 0 <= i < |b| ==>
      r[2 * i] == HexDigits[b[i] as int / 16] && r[2 * i + 1] == HexDigits[b[i] as int % 16]
  {
    if |b| == 0 then ""
    else
      var tail := b[1..];
      var rest := EncodeHex(tail);
      var hi, lo := b[0] as int / 16, b[0] as int % 16;
      DigitIsLower(hi);
      DigitIsLower(lo);
      var r := [HexDigits[hi], HexDigits[lo]] + rest;
      assert forall j :: 2 <= j < |r| ==> r[j] == rest[j - 2];
      forall i | 1 <= i < |b|
        ensures r[2 * i] == HexDigits[b[i] as int / 16] && r[2 * i + 1] == HexDigits[b[i] as int % 16]
      {
        var j := i - 1;
        assert tail[j] == b[i];
        assert r[2 * i] == rest[2 * j] && r[2 * i + 1] == rest[2 * j + 1];
      }
      r
  }

  lemma LowerHexIsHex(s: string)
    requires IsLowerHex(s)
    ensures IsHex(s)
  {
  }

  /** The two digits written for a byte read back as that byte. */
  lemma ByteRoundTrip(x: byte)
    ensures IsHexDigit(HexDigits[x as int / 16]) && IsHexDigit(HexDigits[x as int % 16])
    ensures PairValue(HexDigits[x as int / 16], HexDigits[x as int % 16]) == x
  {
    var hi, lo := x as int / 16, x as int % 16;
    assert DigitValue(HexDigits[hi]) == hi;
    assert DigitValue(HexDigits[lo]) == lo;
    assert 16 * hi + lo == x as int;
  }

  /** Decoding undoes encoding: every byte string survives a trip through hex. */
  lemma DecodeEncode(b: seq<byte>)
    ensures IsHex(EncodeHex(b))
    ensures DecodeHex(EncodeHex(b)) == b
  {
    var s := EncodeHex(b);
    LowerHexIsHex(s);
    forall i | 0 <= i < |b|
      ensures DecodeHex(s)[i] == b[i]
    {
      ByteRoundTrip(b[i]);
    }
  }

  lemma NibbleSplit(hi: nat, lo: nat)
    requires hi < 16 && lo < 16
    ensures (16 * hi + lo) / 16 == hi && (16 * hi + lo) % 16 == lo
  {
  }

  /** A lower-case digit is the one `EncodeHex` writes for its value. */
  lemma DigitOfValue(c: char)
    requires IsLowerDigit(c)
    ensures IsHexDigit(c) && HexDigits[DigitValue(c)] == c
  {
  }

  /** Encoding undoes decoding for lower-case hex, the form Git writes object names in. */
  lemma {:induction false} EncodeDecode(s: string)
    requires IsLowerHex(s)
    ensures IsHex(s)
    ensures EncodeHex(DecodeHex(s)) == s
    decreases |s|
  {
    LowerHexIsHex(s);
    if |s| > 0 {
      var tail := s[2..];
      assert IsLowerHex(tail) by {
        assert forall j :: 0 <= j < |tail| ==> tail[j] == s[j + 2];
      }
      EncodeDecode(tail);
      var b := DecodeHex(s);
      assert b[0] == PairValue(s[0], s[1]);
      assert b[1..] == DecodeHex(tail);
      PairDigits(s[0], s[1]);
      assert s == [s[0], s[1]] + tail;
    }
  }

  /** Re-encoding the byte two lower-case digits spell gives those digits. */
  lemma PairDigits(hi: char, lo: char)
    requires IsLowerDigit(hi) && IsLowerDigit(lo)
    ensures IsHexDigit(hi) && IsHexDigit(lo)
    ensures var v := PairValue(hi, lo) as int;
      HexDigits[v / 16] == hi && HexDigits[v % 16] == lo
  {
    DigitOfValue(hi);
    DigitOfValue(lo);
    var h, l := DigitValue(hi), DigitValue(lo);
    NibbleSplit(h, l);
    var v := PairValue(hi, lo) as int;
    assert v == 16 * h + l;
    assert v / 16 == h && v % 16 == l;
  }

  /** Go's `NewSha`: decode the hex string and copy its bytes into a zeroed
      20-byte array. Inputs the source leaves undefined (invalid hex, an odd
      number of digits, more than 40 digits) are excluded. */
  method NewSha(str: string) returns (sha: seq<byte>)
    requires IsHex(str) && |str| <= 2 * ShaSize
    ensures |sha| == ShaSize
    ensures forall i :: 0 <= i < |str| / 2 ==> sha[i] == PairValue(str[2 * i], str[2 * i + 1])
    ensures forall i :: |str| / 2 <= i < ShaSize ==> sha[i] == 0
  {
    var bts := DecodeHex(str);
    sha := seq(ShaSize, _ => 0);
    var i := 0;
    while i < |bts|
      invariant 0 <= i <= |bts|
      invariant |sha| == ShaSize
      invariant forall j :: 0 <= j < i ==> sha[j] == bts[j]
      invariant forall j :: i <= j < ShaSize ==> sha[j] == 0
    {
      sha := sha[i := bts[i]];
      i := i + 1;
    }
  }

  /** The 40-digit spelling of an identifier, read back by `NewSha`, is
      that identifier. A round trip stated as a method only because
      `NewSha` is one. */
  method ShaOfName(id: seq<byte>) returns (sha: seq<byte>)
    requires |id| == ShaSize
    ensures sha == id
  {
    DecodeEncode(id);
    sha := NewSha(EncodeHex(id));
    assert forall i :: 0 <= i < ShaSize ==> sha[i] == DecodeHex(EncodeHex(id))[i];
  }
}

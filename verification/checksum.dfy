/**
 * The checksum helpers: `compute_checksum` renders the SHA-256 digest of a
 * string as lowercase Base16 (section 8 of RFC 4648), and `verify_checksum`
 * compares that rendering with an expected string.
 *
 * SHA-256 itself (FIPS 180-4) and the UTF-8 encoding of the content are not
 * modelled: they enter as a `Hasher`, any function from content to a 32-byte
 * digest.
 */
module Checksum {
  import opened Wrappers
  import opened Strings

  type byte = b: int | 0 <= b < 256

  /** The 32 bytes of a SHA-256 digest. */
  type Digest = d: seq<byte> | |d| == 32 witness ZeroDigest

  const ZeroDigest: seq<byte> := seq(32, _ => 0)

  /** SHA-256 of the UTF-8 bytes of a string. */
  type Hasher = string -> Digest

  predicate IsLowerHexDigit(c: char) { IsAsciiDigit(c) || 'a' <= c <= 'f' }

  predicate IsLowerHex(s: string) { forall i :: 0 <= i < |s| ==> IsLowerHexDigit(s[i]) }

  /** The Base16 alphabet of RFC 4648, lowercase. */
  function HexDigit(n: nat): (c: char)
    requires n < 16
    ensures IsLowerHexDigit(c)
  {
    if n < 10 then DigitChar(n) else ('a' as int + n - 10) as char
  }

  function HexValue(c: char): (n: nat)
    requires IsLowerHexDigit(c)
    ensures n < 16 && HexDigit(n) == c
  {
    if IsAsciiDigit(c) then DigitValue(c) else c as int - 'a' as int + 10
  }

  /** `hex::encode`: two lowercase digits per byte, high nibble first. */
  function HexEncode(bytes: seq<byte>): (s: string)
    ensures |s| == 2 * |bytes|
    ensures IsLowerHex(s)
  {
    if bytes == [] then []
    else [HexDigit(bytes[0] / 16), HexDigit(bytes[0] % 16)] + HexEncode(bytes[1..])
  }

  /** The inverse of `HexEncode`: lowercase digits in pairs, nothing else. */
  function HexDecode(s: string): Option<seq<byte>>
    decreases |s|
  {
    if s == [] then Some([])
    else if |s| < 2 || !IsLowerHexDigit(s[0]) || !IsLowerHexDigit(s[1]) then None
    else match HexDecode(s[2..])
      case None => None
      case Some(rest) => Some([16 * HexValue(s[0]) + HexValue(s[1])] + rest)
  }

  lemma {:induction false} DecodeEncode(bytes: seq<byte>)
    ensures HexDecode(HexEncode(bytes)) == Some(bytes)
    decreases |bytes|
  {
    if bytes != [] {
      var s := HexEncode(bytes);
      assert s[2..] == HexEncode(bytes[1..]);
      DecodeEncode(bytes[1..]);
      assert [bytes[0]] + bytes[1..] == bytes;
    }
  }

  lemma {:induction false} EncodeDecode(s: string)
    requires HexDecode(s).Some?
    ensures HexEncode(HexDecode(s).value) == s
    decreases |s|
  {
    if s != [] {
      EncodeDecode(s[2..]);
      var hi, lo := HexValue(s[0]), HexValue(s[1]);
      var x: byte := 16 * hi + lo;
      assert x / 16 == hi && x % 16 == lo;
      var b := HexDecode(s).value;
      assert b == [x] + HexDecode(s[2..]).value;
      assert b[1..] == HexDecode(s[2..]).value;
      assert HexEncode(b) == [HexDigit(hi), HexDigit(lo)] + s[2..];
      assert [s[0], s[1]] + s[2..] == s;
    }
  }

  /** `compute_checksum`: the lowercase hex rendering of the content's digest. */
  function ComputeChecksum(sha256: Hasher, content: string): (c: string)
    ensures |c| == 64 && IsLowerHex(c)
    ensures HexDecode(c) == Some(sha256(content))
  {
    DecodeEncode(sha256(content));
    HexEncode(sha256(content))
  }

  /** `verify_checksum`: exact, case-sensitive comparison with the computed checksum. */
  function VerifyChecksum(sha256: Hasher, content: string, expected: string): (ok: bool)
    ensures ok ==> |expected| == 64 && IsLowerHex(expected)
  {
    ComputeChecksum(sha256, content) == expected
  }

  /** What `compute_checksum` produces, `verify_checksum` accepts. */
  lemma VerifyAcceptsComputed(sha256: Hasher, content: string)
    ensures VerifyChecksum(sha256, content, ComputeChecksum(sha256, content))
  {
  }

  /** Accepting a checksum is the same as its hex decoding being the content's digest. */
  lemma VerifyIffDigestMatches(sha256: Hasher, content: string, expected: string)
    ensures VerifyChecksum(sha256, content, expected) <==> HexDecode(expected) == Some(sha256(content))
  {
    if HexDecode(expected) == Some(sha256(content)) {
      EncodeDecode(expected);
    }
  }

  /** Two contents share a checksum exactly when they share a digest. */
  lemma ChecksumsEqualIffDigestsEqual(sha256: Hasher, a: string, b: string)
    ensures ComputeChecksum(sha256, a) == ComputeChecksum(sha256, b) <==> sha256(a) == sha256(b)
  {
  }
}

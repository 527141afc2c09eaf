// samplr/git-go/hash.go: the 20-uint8 SHA-1 object name and its hexadecimal
// text form.
module GitHash {
  type uint8 = b: int | 0 <= b < 256

  /** A SHA-1 hash: exactly twenty bytes. */
  type Hash = h: seq<uint8> | |h| == 20
    witness [0, 0, 0, 0, 0, 0, 0, 0, 0, 0, 0, 0, 0, 0, 0, 0, 0, 0, 0, 0]

  const ZeroHash: Hash := [0, 0, 0, 0, 0, 0, 0, 0, 0, 0, 0, 0, 0, 0, 0, 0, 0, 0, 0, 0]

  predicate IsLowerHexDigit(c: char) { '0' <= c <= '9' || 'a' <= c <= 'f' }

  /** A character `encoding/hex` decodes: a digit or a letter a-f in either case. */
  predicate IsHexDigit(c: char) { '0' <= c <= '9' || 'a' <= c <= 'f' || 'A' <= c <= 'F' }

  function HexValue(c: char): (v: nat)
    requires IsHexDigit(c)
    ensures v < 16
  {
    if '0' <= c <= '9' then c as int - '0' as int
    else if 'a' <= c <= 'f' then c as int - 'a' as int + 10
    else c as int - 'A' as int + 10
  }

  function LowerHexDigit(v: nat): (c: char)
    requires v < 16
    ensures IsLowerHexDigit(c) && HexValue(c) == v
  {
    if v < 10 then ('0' as int + v) as char else ('a' as int + v - 10) as char
  }

  /** `hex.EncodeToString`: two lower-case digits per uint8, high nibble first. */
  function HexEncode(b: seq<uint8>): (s: string)
    ensures |s| == 2 * |b|
    ensures forall i :: 0 <= i < |s| ==> IsLowerHexDigit(s[i])
  {
    if b == [] then ""
    else [LowerHexDigit(b[0] / 16), LowerHexDigit(b[0] % 16)] + HexEncode(b[1..])
  }

  /**
   * The bytes `hex.DecodeString` hands back: the bytes of the complete,
   * valid digit pairs before the first invalid character or a trailing
   * odd digit (its error is discarded by NewHash).
   */
  function HexDecodePrefix(s: string): (b: seq<uint8>)
    ensures |b| <= |s| / 2
  {
    if |s| < 2 || !IsHexDigit(s[0]) || !IsHexDigit(s[1]) then []
    else [HexValue(s[0]) * 16 + HexValue(s[1])] + HexDecodePrefix(s[2..])
  }

  /** NewHash: decode what can be decoded, copy at most 20 bytes, zero the rest. */
  function NewHash(s: string): (h: Hash)
  {
    var b := HexDecodePrefix(s);
    seq(20, i requires 0 <= i < 20 => if i < |b| then b[i] else 0)
  }

  predicate IsZero(h: Hash) { h == ZeroHash }

  /** Hash.String: 40 lower-case hexadecimal digits. */
  function String(h: Hash): (s: string)
    ensures |s| == 40
    ensures forall i :: 0 <= i < 40 ==> IsLowerHexDigit(s[i])
  {
    HexEncode(h)
  }

  /** Decoding the encoding of any uint8 sequence gives it back. */
  lemma {:induction false} DecodeEncode(b: seq<uint8>)
    ensures HexDecodePrefix(HexEncode(b)) == b
  {
    if b != [] {
      var s := HexEncode(b);
      assert s[2..] == HexEncode(b[1..]);
      DecodeEncode(b[1..]);
      assert HexValue(s[0]) * 16 + HexValue(s[1]) == b[0];
    }
  }

  /** Encoding the decoding of lower-case hex of even length gives it back. */
  lemma {:induction false} EncodeDecode(s: string)
    requires |s| % 2 == 0
    requires forall i :: 0 <= i < |s| ==> IsLowerHexDigit(s[i])
    ensures HexEncode(HexDecodePrefix(s)) == s
  {
    if |s| >= 2 {
      var b := HexDecodePrefix(s);
      EncodeDecode(s[2..]);
      assert b[1..] == HexDecodePrefix(s[2..]);
      var v := HexValue(s[0]) * 16 + HexValue(s[1]);
      assert v / 16 == HexValue(s[0]) && v % 16 == HexValue(s[1]);
      assert HexEncode(b) == [LowerHexDigit(v / 16), LowerHexDigit(v % 16)] + s[2..];
    }
  }

  /** NewHash(h.String()) == h. */
  lemma NewHashOfString(h: Hash)
    ensures NewHash(String(h)) == h
  {
    DecodeEncode(h);
  }

  /** h.String() gives back any 40-digit lower-case hex text h was made from. */
  lemma StringOfNewHash(s: string)
    requires |s| == 40
    requires forall i :: 0 <= i < 40 ==> IsLowerHexDigit(s[i])
    ensures String(NewHash(s)) == s
  {
    EncodeDecode(s);
    var b := HexDecodePrefix(s);
    assert |HexEncode(b)| == 40;
    assert NewHash(s) == b;
  }

  /** IsZero holds exactly when every uint8 is zero. */
  lemma IsZeroIffAllZero(h: Hash)
    ensures IsZero(h) <==> forall i :: 0 <= i < 20 ==> h[i] == 0
  {
  }

  /** The decoded prefix of valid hex text is exactly one uint8 per digit pair. */
  lemma {:induction false} DecodeValidLength(s: string)
    requires forall i :: 0 <= i < |s| ==> IsHexDigit(s[i])
    ensures |HexDecodePrefix(s)| == |s| / 2
  {
    if |s| >= 2 { DecodeValidLength(s[2..]); }
  }

  /** Shorter valid input fills the leading bytes and zeroes the rest. */
  lemma NewHashPads(s: string)
    requires |s| <= 40
    requires forall i :: 0 <= i < |s| ==> IsHexDigit(s[i])
    ensures NewHash(s)[..|s| / 2] == HexDecodePrefix(s)
    ensures forall i :: |s| / 2 <= i < 20 ==> NewHash(s)[i] == 0
  {
    DecodeValidLength(s);
  }

  /** Longer input keeps only the bytes of its first forty digits. */
  lemma NewHashTruncates(s: string)
    requires |s| >= 40
    ensures NewHash(s) == HexDecodePrefix(s[..40]) + seq(20 - |HexDecodePrefix(s[..40])|, _ => 0)
  {
    DecodePrefixOfPrefix(s, 40);
  }

  /** The first k/2 decoded bytes depend only on the first k digits. */
  lemma {:induction false} DecodePrefixOfPrefix(s: string, k: nat)
    requires k <= |s| && k % 2 == 0
    ensures var b := HexDecodePrefix(s[..k]);
      |b| <= |HexDecodePrefix(s)| && HexDecodePrefix(s)[..|b|] == b
      && (|b| < k / 2 ==> |b| == |HexDecodePrefix(s)|)
  {
    if k >= 2 && IsHexDigit(s[0]) && IsHexDigit(s[1]) {
      assert s[..k][2..] == s[2..][..k - 2];
      DecodePrefixOfPrefix(s[2..], k - 2);
    }
  }
}

/**
 * The hex rendering of a password digest in hashPassword: every byte of
 * the digest is appended to a StringBuilder as String.format("%02x", b).
 */
module HexDigest {

  /** A Java `byte`: signed, two's complement, eight bits. */
  newtype JavaByte = b: int | -128 <= b < 128

  /** The value %x prints for a Byte argument: a negative byte has 2^8 added to it. */
  function Unsigned(b: JavaByte): (v: nat)
    ensures v < 256
    ensures v % 256 == (b as int) % 256
  {
    if b < 0 then b as int + 256 else b as int
  }

  /** The byte whose unsigned value is `v`. */
  function Signed(v: nat): (b: JavaByte)
    requires v < 256
    ensures Unsigned(b) == v
  {
    if v < 128 then v as JavaByte else (v - 256) as JavaByte
  }

  predicate IsLowerHexChar(c: char) { '0' <= c <= '9' || 'a' <= c <= 'f' }

  predicate IsLowerHex(s: string) { forall k :: 0 <= k < |s| ==> IsLowerHexChar(s[k]) }

  /** The lower-case hex digit of a value below 16, as %x prints it. */
  function HexDigit(d: nat): (c: char)
    requires d < 16
    ensures IsLowerHexChar(c)
  {
    if d < 10 then ('0' as int + d) as char else ('a' as int + d - 10) as char
  }

  /** The value of a lower-case hex digit; undoes HexDigit. */
  function HexValue(c: char): (d: nat)
    requires IsLowerHexChar(c)
    ensures d < 16 && HexDigit(d) == c
  {
    if c <= '9' then c as int - '0' as int else c as int - 'a' as int + 10
  }

  /** String.format("%02x", b): two digits, high nibble first, zero-padded. */
  function ByteToHex(b: JavaByte): (s: string)
    ensures |s| == 2 && IsLowerHex(s)
  {
    [HexDigit(Unsigned(b) / 16), HexDigit(Unsigned(b) % 16)]
  }

  /** The StringBuilder's contents once the bytes of `bs` have been appended in order. */
  function Hex(bs: seq<JavaByte>): (s: string)
    ensures |s| == 2 * |bs|
    ensures IsLowerHex(s)
  {
    if bs == [] then [] else Hex(bs[..|bs| - 1]) + ByteToHex(bs[|bs| - 1])
  }

  /** Reads a hex string back into the bytes it renders, two digits per byte. */
  function Unhex(s: string): (bs: seq<JavaByte>)
    requires |s| % 2 == 0 && IsLowerHex(s)
    ensures |bs| == |s| / 2
  {
    if s == [] then []
    else Unhex(s[..|s| - 2]) + [Signed(16 * HexValue(s[|s| - 2]) + HexValue(s[|s| - 1]))]
  }

  /** The two digits %02x prints for a byte read back give the byte. */
  lemma ByteRoundTrip(b: JavaByte)
    ensures Signed(16 * HexValue(ByteToHex(b)[0]) + HexValue(ByteToHex(b)[1])) == b
  {
    var v := Unsigned(b);
    var hi, lo := v / 16, v % 16;
    assert HexValue(HexDigit(hi)) == hi;
    assert HexValue(HexDigit(lo)) == lo;
    assert 16 * hi + lo == v;
  }

  /** Reading the rendering of a digest gives the digest back. */
  lemma {:induction false} UnhexHex(bs: seq<JavaByte>)
    ensures Unhex(Hex(bs)) == bs
  {
    if bs != [] {
      var init, last := bs[..|bs| - 1], bs[|bs| - 1];
      var s, h := Hex(bs), ByteToHex(last);
      assert s == Hex(init) + h;
      assert s[..|s| - 2] == Hex(init);
      assert s[|s| - 2] == h[0] && s[|s| - 1] == h[1];
      UnhexHex(init);
      ByteRoundTrip(last);
      assert bs == init + [last];
    }
  }

  /** Two digests render to the same string exactly when they are the same digest. */
  lemma HexInjective(a: seq<JavaByte>, b: seq<JavaByte>)
    ensures Hex(a) == Hex(b) <==> a == b
  {
    UnhexHex(a);
    UnhexHex(b);
  }

  /** The for-each loop of hashPassword over the digest bytes. */
  method EncodeHex(bytes: seq<JavaByte>) returns (s: string)
    ensures s == Hex(bytes)
  {
    s := "";
    for i := 0 to |bytes|
      invariant s == Hex(bytes[..i])
    {
      assert bytes[..i + 1][..i] == bytes[..i];
      s := s + ByteToHex(bytes[i]);
    }
    assert bytes[..|bytes|] == bytes;
  }
}

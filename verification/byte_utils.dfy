/**
 * Big-endian conversions between unsigned integers and bytes
 * (Windows/src/ByteUtils.cpp). Encoding is total; decoding is bounds-checked and
 * reports a short buffer through its boolean result, leaving the caller's
 * output value as it was.
 */
module ByteUtils {
  import opened Common

  /** 256 to the power n: the number of distinct values n bytes can hold. */
  function Pow256(n: nat): (r: nat)
    ensures r > 0
  {
    if n == 0 then 1 else 256 * Pow256(n - 1)
  }

  /** The reference reading of a byte string: most significant byte first. */
  function BigEndianValue(s: seq<byte>): (v: nat)
    ensures v < Pow256(|s|)
    decreases |s|
  {
    if s == [] then 0 else BigEndianValue(s[..|s| - 1]) * 256 + s[|s| - 1]
  }

  /** Two byte strings of one length with the same big-endian value are equal. */
  lemma {:induction false} BigEndianInjective(a: seq<byte>, b: seq<byte>)
    requires |a| == |b|
    requires BigEndianValue(a) == BigEndianValue(b)
    ensures a == b
    decreases |a|
  {
    if a != [] {
      var n := |a| - 1;
      var x, y := BigEndianValue(a[..n]), BigEndianValue(b[..n]);
      assert x * 256 + a[n] == y * 256 + b[n];
      assert a[n] == b[n] && x == y by {
        assert (x * 256 + a[n]) % 256 == a[n];
        assert (y * 256 + b[n]) % 256 == b[n];
      }
      BigEndianInjective(a[..n], b[..n]);
      assert a == a[..n] + [a[n]] && b == b[..n] + [b[n]];
    }
  }

  lemma BigEndian4(s: seq<byte>)
    requires |s| == 4
    ensures BigEndianValue(s) == s[0] as int * 0x100_0000 + s[1] as int * 0x1_0000 + s[2] as int * 0x100 + s[3]
  {
    assert s[..3][..2] == s[..2] && s[..2][..1] == s[..1] && s[..1][..0] == [];
    assert BigEndianValue(s[..1]) == s[0];
    assert BigEndianValue(s[..2]) == s[0] as int * 0x100 + s[1];
    assert BigEndianValue(s[..3]) == s[0] as int * 0x1_0000 + s[1] as int * 0x100 + s[2];
  }

  lemma BigEndian2(s: seq<byte>)
    requires |s| == 2
    ensures BigEndianValue(s) == s[0] as int * 0x100 + s[1]
  {
    assert s[..1][..0] == [];
  }

  /** ByteUtils::uint32ToBytes: four bytes, most significant first. */
  function Uint32ToBytes(value: u32): (r: seq<byte>)
    ensures |r| == 4 && BigEndianValue(r) == value
  {
    Digits32(value);
    var r := [value / 0x100_0000, (value / 0x1_0000) % 0x100, (value / 0x100) % 0x100, value % 0x100];
    BigEndian4(r);
    r
  }

  /** The four base-256 digits of a 32-bit value, by repeated division. */
  lemma Digits32(value: u32)
    ensures value / 0x100_0000 < 0x100
    ensures value == (value / 0x100_0000) * 0x100_0000 + ((value / 0x1_0000) % 0x100) * 0x1_0000
                     + ((value / 0x100) % 0x100) * 0x100 + value % 0x100
  {
    var q1 := value / 0x100;
    var q2 := q1 / 0x100;
    var q3 := q2 / 0x100;
    assert value == q1 * 0x100 + value % 0x100;
    assert q1 == q2 * 0x100 + q1 % 0x100;
    assert q2 == q3 * 0x100 + q2 % 0x100;
    assert value / 0x1_0000 == q2;
    assert value / 0x100_0000 == q3;
  }

  /** ByteUtils::uint16ToBytes: two bytes, most significant first. */
  function Uint16ToBytes(value: u16): (r: seq<byte>)
    ensures |r| == 2 && BigEndianValue(r) == value
  {
    var r := [value / 0x100, value % 0x100];
    BigEndian2(r);
    r
  }

  /**
   * The out-parameter overload ByteUtils::bytesToUint32(bytes, offset, value):
   * the pair is (returned flag, value of the out-parameter afterwards).
   */
  function TryBytesToUint32(bytes: seq<byte>, offset: nat, value: u32): (r: (bool, u32))
    ensures r.0 <==> offset + 4 <= |bytes|
    ensures !r.0 ==> r.1 == value
    ensures r.0 ==> r.1 == BigEndianValue(bytes[offset..offset + 4])
  {
    if |bytes| < offset + 4 then (false, value)
    else
      var s := bytes[offset..offset + 4];
      BigEndian4(s);
      (true, bytes[offset] as int * 0x100_0000 + bytes[offset + 1] as int * 0x1_0000 + bytes[offset + 2] as int * 0x100 + bytes[offset + 3])
  }

  /** The out-parameter overload ByteUtils::bytesToUint16(bytes, offset, value). */
  function TryBytesToUint16(bytes: seq<byte>, offset: nat, value: u16): (r: (bool, u16))
    ensures r.0 <==> offset + 2 <= |bytes|
    ensures !r.0 ==> r.1 == value
    ensures r.0 ==> r.1 == BigEndianValue(bytes[offset..offset + 2])
  {
    if |bytes| < offset + 2 then (false, value)
    else
      var s := bytes[offset..offset + 2];
      BigEndian2(s);
      (true, bytes[offset] as int * 0x100 + bytes[offset + 1])
  }

  /** The convenience overload: the out-parameter starts at 0 and is returned. */
  function BytesToUint32(bytes: seq<byte>, offset: nat): (v: u32)
    ensures offset + 4 <= |bytes| ==> v == BigEndianValue(bytes[offset..offset + 4])
    ensures offset + 4 > |bytes| ==> v == 0
  {
    TryBytesToUint32(bytes, offset, 0).1
  }

  /** The convenience overload for 16 bits. */
  function BytesToUint16(bytes: seq<byte>, offset: nat): (v: u16)
    ensures offset + 2 <= |bytes| ==> v == BigEndianValue(bytes[offset..offset + 2])
    ensures offset + 2 > |bytes| ==> v == 0
  {
    TryBytesToUint16(bytes, offset, 0).1
  }

  /** Encoding then decoding gives the value back; decoding then encoding gives the bytes back. */
  lemma Uint32RoundTrip(value: u32, s: seq<byte>)
    requires |s| == 4
    ensures TryBytesToUint32(Uint32ToBytes(value), 0, 0) == (true, value)
    ensures Uint32ToBytes(BytesToUint32(s, 0)) == s
  {
    assert s[0..4] == s;
    BigEndianInjective(Uint32ToBytes(BytesToUint32(s, 0)), s);
  }

  lemma Uint16RoundTrip(value: u16, s: seq<byte>)
    requires |s| == 2
    ensures TryBytesToUint16(Uint16ToBytes(value), 0, 0) == (true, value)
    ensures Uint16ToBytes(BytesToUint16(s, 0)) == s
  {
    assert s[0..2] == s;
    BigEndianInjective(Uint16ToBytes(BytesToUint16(s, 0)), s);
  }

  /** Decoding at an offset reads exactly the four bytes that were encoded there. */
  lemma Uint32AtOffset(prefix: seq<byte>, value: u32, suffix: seq<byte>)
    ensures BytesToUint32(prefix + Uint32ToBytes(value) + suffix, |prefix|) == value
  {
    var s := prefix + Uint32ToBytes(value) + suffix;
    assert s[|prefix|..|prefix| + 4] == Uint32ToBytes(value);
  }

  lemma Uint16AtOffset(prefix: seq<byte>, value: u16, suffix: seq<byte>)
    ensures BytesToUint16(prefix + Uint16ToBytes(value) + suffix, |prefix|) == value
  {
    var s := prefix + Uint16ToBytes(value) + suffix;
    assert s[|prefix|..|prefix| + 2] == Uint16ToBytes(value);
  }

  /**
   * The convenience overloads cannot tell a short buffer from an encoded zero:
   * both read as 0.
   */
  lemma ShortReadsLikeZero(bytes: seq<byte>, offset: nat)
    requires |bytes| < offset + 4
    ensures BytesToUint32(bytes, offset) == BytesToUint32(Uint32ToBytes(0), 0) == 0
    ensures |bytes| < offset + 2 ==> BytesToUint16(bytes, offset) == BytesToUint16(Uint16ToBytes(0), 0) == 0
  {
  }
}

/**
 * String shaping in Windows/src/UUIDGenerator.cpp: the 8-4-4-4-12 rendering
 * of the first 16 bytes of a hash with the version and variant characters
 * patched in place, and the random key formatter. SHA-256 and the system RNG
 * are inputs: `hash` and `randomBytes`.
 */
module UuidGenerator {
  import opened Common

  /** The lowercase hexadecimal digit of a nibble, as `std::hex` prints it. */
  function HexDigit(n: nat): (c: char)
    requires n < 16
    ensures n < 10 ==> '0' <= c <= '9'
    ensures n >= 10 ==> 'a' <= c <= 'f'
  {
    if n < 10 then ('0' as int + n) as char else ('a' as int + n - 10) as char
  }

  /** The value of a lowercase hex digit, as the variant patch computes it. */
  function HexValue(c: char): int
  {
    if c >= 'a' then c as int - 'a' as int + 10 else c as int - '0' as int
  }

  predicate IsDashPosition(p: nat)
  {
    p == 8 || p == 13 || p == 18 || p == 23
  }

  /** How many dashes come before position p of the 36-character layout. */
  function DashesBefore(p: nat): nat
  {
    (if p > 8 then 1 else 0) + (if p > 13 then 1 else 0) + (if p > 18 then 1 else 0) + (if p > 23 then 1 else 0)
  }

  /** Character p of the 8-4-4-4-12 rendering of bytes[0..16]: a dash, or the high or low nibble of one byte. */
  function LayoutChar(bytes: seq<byte>, p: nat): char
    requires |bytes| >= 16 && p < 36
  {
    if IsDashPosition(p) then '-'
    else
      var d := p - DashesBefore(p);
      var b := bytes[d / 2] as nat;
      if d % 2 == 0 then HexDigit(b / 16) else HexDigit(b % 16)
  }

  /** The whole rendering. */
  function Layout(bytes: seq<byte>): (s: string)
    requires |bytes| >= 16
    ensures |s| == 36
    ensures forall p :: 0 <= p < 36 ==> (s[p] == '-' <==> IsDashPosition(p))
  {
    seq(36, p requires 0 <= p < 36 => LayoutChar(bytes, p))
  }

  /** RFC 4122 name-based version 5: the high nibble of byte 6 becomes 5 and the top bits of byte 8 become 10. */
  function VersionedBytes(hash: seq<byte>): (v: seq<byte>)
    requires |hash| >= 16
    ensures |v| == 16
  {
    hash[..16][6 := (0x50 + hash[6] as nat % 16) as byte][8 := (0x80 + hash[8] as nat % 64) as byte]
  }

  /** The dashes the loop has written before byte i. */
  function DashesWritten(i: nat): nat
  {
    (if i > 4 then 1 else 0) + (if i > 6 then 1 else 0) + (if i > 8 then 1 else 0) + (if i > 10 then 1 else 0)
  }

  /** The stringstream loop of uuidFromString: dashes before bytes 4, 6, 8 and 10, two hex digits per byte. */
  method HexLayout(hash: seq<byte>) returns (s: string)
    requires |hash| >= 16
    ensures s == Layout(hash)
  {
    s := [];
    for i := 0 to 16
      invariant |s| == 2 * i + DashesWritten(i)
      invariant forall p :: 0 <= p < |s| ==> s[p] == LayoutChar(hash, p)
    {
      if i == 4 || i == 6 || i == 8 || i == 10 {
        s := s + "-";
      }
      var q := |s|;
      assert q == 2 * i + DashesBefore(q) && !IsDashPosition(q) && !IsDashPosition(q + 1);
      assert DashesBefore(q + 1) == DashesBefore(q);
      s := s + [HexDigit(hash[i] as nat / 16), HexDigit(hash[i] as nat % 16)];
    }
  }

  /** What `uuidStr[15] & 0x0F` followed by the re-encoding makes of a hex digit: 'a'..'f' become '1'..'6'. */
  function LowNibbleAsWritten(c: char): char
  {
    var lowNibble := c as int % 16;
    if lowNibble >= 10 then ('a' as int + (lowNibble - 10)) as char else ('0' as int + lowNibble) as char
  }

  /** The variant patch of index 19: keep the low two bits of the digit, set the top bits to 10. */
  function VariantChar(c: char): char
  {
    var variantValue := HexValue(c) % 4 + 8;
    if variantValue >= 10 then ('a' as int + (variantValue - 10)) as char else ('0' as int + variantValue) as char
  }

  /** Byte 8 of the versioned bytes has high nibble 8 + the low two bits of the original high nibble. */
  lemma VariantNibble(b: nat)
    requires b < 256
    ensures (0x80 + b % 64) / 16 == 8 + (b / 16) % 4
    ensures (0x80 + b % 64) % 16 == b % 16
  {
  }

  /** Reading a hex digit back gives its nibble. */
  lemma HexValueOfDigit(n: nat)
    requires n < 16
    ensures HexValue(HexDigit(n)) == n
  {
  }

  /** What the as-written index-15 patch makes of each digit: 0..9 survive, a..f become 1..6. */
  lemma AsWrittenDigit(n: nat)
    requires n < 16
    ensures n < 10 ==> LowNibbleAsWritten(HexDigit(n)) == HexDigit(n)
    ensures n >= 10 ==> LowNibbleAsWritten(HexDigit(n)) == ('0' as int + n - 9) as char
  {
  }

  /** Positions 14, 15 and 19 of the rendering: both nibbles of byte 6 and the high nibble of byte 8. */
  lemma PatchedPositions(bytes: seq<byte>)
    requires |bytes| >= 16
    ensures Layout(bytes)[14] == HexDigit(bytes[6] as nat / 16)
    ensures Layout(bytes)[15] == HexDigit(bytes[6] as nat % 16)
    ensures Layout(bytes)[19] == HexDigit(bytes[8] as nat / 16)
  {
    assert Layout(bytes)[14] == LayoutChar(bytes, 14);
    assert Layout(bytes)[15] == LayoutChar(bytes, 15);
    assert Layout(bytes)[19] == LayoutChar(bytes, 19);
  }

  /**
   * Writing '5' at index 14, the low nibble of byte 6 at index 15 and the
   * variant digit at index 19 turns the rendering of the hash into the
   * rendering of the versioned bytes.
   */
  lemma VersionPatch(hash: seq<byte>)
    requires |hash| >= 16
    ensures var s := Layout(hash);
      s[14 := '5'][15 := HexDigit(hash[6] as nat % 16)][19 := VariantChar(s[19])] == Layout(VersionedBytes(hash))
  {
    var v := VersionedBytes(hash);
    var s := Layout(hash);
    var t := s[14 := '5'][15 := HexDigit(hash[6] as nat % 16)][19 := VariantChar(s[19])];
    PatchedPositions(hash);
    PatchedPositions(v);
    VariantNibble(hash[8] as nat);
    HexValueOfDigit(hash[8] as nat / 16);
    forall p | 0 <= p < 36
      ensures t[p] == Layout(v)[p]
    {
      if p != 14 && p != 15 && p != 19 {
        assert t[p] == LayoutChar(hash, p) && Layout(v)[p] == LayoutChar(v, p);
        UnpatchedPosition(hash, p);
      }
    }
  }

  /** Every other position renders the same character before and after versioning. */
  lemma UnpatchedPosition(hash: seq<byte>, p: nat)
    requires |hash| >= 16 && p < 36 && p != 14 && p != 15 && p != 19
    ensures LayoutChar(hash, p) == LayoutChar(VersionedBytes(hash), p)
  {
    if !IsDashPosition(p) {
      var k := (p - DashesBefore(p)) / 2;
      assert k != 6;
      assert k == 8 ==> p == 20;
      VariantNibble(hash[8] as nat);
    }
  }

  /**
   * UUIDGenerator::uuidFromString after hashing, as written. Every character
   * is that of the RFC 4122 version-5 rendering of the hash except index 15,
   * which keeps the low nibble only when it is a decimal digit; a hex letter
   * 'a'..'f' there turns into '1'..'6'.
   */
  method UuidFromHash(hash: seq<byte>) returns (uuid: string)
    requires |hash| >= 16
    ensures |uuid| == 36
    ensures forall p :: 0 <= p < 36 && p != 15 ==> uuid[p] == Layout(VersionedBytes(hash))[p]
    ensures hash[6] % 16 < 10 ==> uuid[15] == Layout(VersionedBytes(hash))[15]
    ensures hash[6] % 16 >= 10 ==> uuid[15] == ('0' as int + hash[6] as int % 16 - 9) as char
    ensures '0' <= uuid[15] <= '9'
  {
    uuid := HexLayout(hash);
    var lowNibble := LowNibbleAsWritten(uuid[15]);
    uuid := uuid[14 := '5'][15 := lowNibble];
    uuid := uuid[19 := VariantChar(uuid[19])];
    PatchedPositions(hash);
    PatchedPositions(VersionedBytes(hash));
    AsWrittenDigit(hash[6] as nat % 16);
    VersionPatch(hash);
    ghost var intended := Layout(VersionedBytes(hash));
    assert forall p :: 0 <= p < 36 && p != 15 ==> uuid[p] == intended[p];
  }

  /**
   * The evidently intended uuidFromString: index 15 keeps the low nibble of
   * byte 6, so the result is exactly the rendering of the versioned bytes.
   */
  method UuidFromHashCorrected(hash: seq<byte>) returns (uuid: string)
    requires |hash| >= 16
    ensures uuid == Layout(VersionedBytes(hash))
  {
    uuid := HexLayout(hash);
    var lowNibble := HexValue(uuid[15]);
    var lowChar := if lowNibble >= 10 then ('a' as int + (lowNibble - 10)) as char else ('0' as int + lowNibble) as char;
    PatchedPositions(hash);
    HexValueOfDigit(hash[6] as nat % 16);
    assert lowChar == HexDigit(hash[6] as nat % 16);
    uuid := uuid[14 := '5'][15 := lowChar];
    uuid := uuid[19 := VariantChar(uuid[19])];
    VersionPatch(hash);
  }

  /** The rendering of the versioned bytes has '5' at index 14 and one of 8, 9, a, b at index 19. */
  lemma VersionAndVariant(hash: seq<byte>)
    requires |hash| >= 16
    ensures Layout(VersionedBytes(hash))[14] == '5'
    ensures Layout(VersionedBytes(hash))[19] in {'8', '9', 'a', 'b'}
  {
    VariantNibble(hash[8] as nat);
  }

  /** As written, a low nibble of 10..15 in byte 6 comes out as a decimal digit where the rendering has a letter. */
  lemma LowNibbleLost(hash: seq<byte>)
    requires |hash| >= 16 && hash[6] % 16 >= 10
    ensures 'a' <= Layout(VersionedBytes(hash))[15] <= 'f'
    ensures Layout(VersionedBytes(hash))[15] != ('0' as int + hash[6] as int % 16 - 9) as char
  {
  }

  /** Distinct 16-byte prefixes give distinct renderings. */
  lemma LayoutInjective(a: seq<byte>, b: seq<byte>)
    requires |a| >= 16 && |b| >= 16 && Layout(a) == Layout(b)
    ensures a[..16] == b[..16]
  {
    forall k | 0 <= k < 16
      ensures a[k] == b[k]
    {
      var p := 2 * k + DashesWritten(k + 1);
      assert p - DashesBefore(p) == 2 * k && !IsDashPosition(p) && !IsDashPosition(p + 1);
      assert DashesBefore(p + 1) == DashesBefore(p);
      assert LayoutChar(a, p) == LayoutChar(b, p) && LayoutChar(a, p + 1) == LayoutChar(b, p + 1);
      HexDigitInjective(a[k] as nat / 16, b[k] as nat / 16);
      HexDigitInjective(a[k] as nat % 16, b[k] as nat % 16);
    }
  }

  lemma HexDigitInjective(m: nat, n: nat)
    requires m < 16 && n < 16 && HexDigit(m) == HexDigit(n)
    ensures m == n
  {
  }

  /** The key alphabet: no I, O, 0 or 1. */
  const ALPHABET: string := "ABCDEFGHJKLMNPQRSTUVWXYZ23456789"

  /** `s` is the rendering of `randomBytes`: one alphabet character per byte, byte b giving ALPHABET[b % 32]. */
  predicate Renders(s: string, randomBytes: seq<byte>)
  {
    && |s| == |randomBytes|
    && forall j :: 0 <= j < |s| ==> s[j] == ALPHABET[randomBytes[j] as int % |ALPHABET|]
  }

  /** UUIDGenerator::generateRandomString with the random bytes given: byte b becomes ALPHABET[b % 32]. */
  method GenerateRandomString(randomBytes: seq<byte>) returns (s: string)
    ensures Renders(s, randomBytes)
    ensures NoDash(s) && forall i :: 0 <= i < |s| ==> s[i] in ALPHABET
  {
    s := [];
    for i := 0 to |randomBytes|
      invariant |s| == i
      invariant forall k :: 0 <= k < i ==> s[k] == ALPHABET[randomBytes[k] as int % |ALPHABET|]
    {
      var index := randomBytes[i] as int % |ALPHABET|;
      s := s + [ALPHABET[index]];
    }
  }

  /** The parts joined with single dashes between them. */
  function JoinWithDashes(parts: seq<string>): string
  {
    if parts == [] then ""
    else if |parts| == 1 then parts[0]
    else JoinWithDashes(parts[..|parts| - 1]) + "-" + parts[|parts| - 1]
  }

  /** UUIDGenerator::generateFormattedKey with one random byte string per segment. */
  method GenerateFormattedKey(segmentBytes: seq<seq<byte>>) returns (key: string)
    ensures exists segments: seq<string> ::
      && |segments| == |segmentBytes|
      && (forall i :: 0 <= i < |segments| ==> Renders(segments[i], segmentBytes[i]) && NoDash(segments[i]))
      && key == JoinWithDashes(segments)
    ensures |segmentBytes| >= 1 ==> CountDashes(key) == |segmentBytes| - 1
  {
    key := [];
    ghost var segments: seq<string> := [];
    for i := 0 to |segmentBytes|
      invariant |segments| == i
      invariant forall k :: 0 <= k < i ==> Renders(segments[k], segmentBytes[k]) && NoDash(segments[k])
      invariant key == JoinWithDashes(segments)
    {
      if i > 0 {
        key := key + "-";
      }
      var segment := GenerateRandomString(segmentBytes[i]);
      key := key + segment;
      assert segments + [segment] == segments[..i] + [segment];
      segments := segments + [segment];
    }
    if |segmentBytes| >= 1 {
      JoinedDashCount(segments);
    }
  }

  predicate NoDash(s: string)
  {
    forall i :: 0 <= i < |s| ==> s[i] != '-'
  }

  function CountDashes(s: string): nat
  {
    if s == [] then 0 else CountDashes(s[..|s| - 1]) + (if s[|s| - 1] == '-' then 1 else 0)
  }

  lemma {:induction false} CountDashesAppend(a: string, b: string)
    ensures CountDashes(a + b) == CountDashes(a) + CountDashes(b)
    decreases |b|
  {
    if b == [] {
      assert a + b == a;
    } else {
      assert (a + b)[..|a + b| - 1] == a + b[..|b| - 1];
      CountDashesAppend(a, b[..|b| - 1]);
    }
  }

  lemma {:induction false} NoDashCountsZero(s: string)
    requires NoDash(s)
    ensures CountDashes(s) == 0
    decreases |s|
  {
    if s != [] {
      NoDashCountsZero(s[..|s| - 1]);
    }
  }

  /** s segments without dashes joined give exactly s - 1 dashes. */
  lemma {:induction false} JoinedDashCount(parts: seq<string>)
    requires |parts| >= 1
    requires forall i :: 0 <= i < |parts| ==> NoDash(parts[i])
    ensures CountDashes(JoinWithDashes(parts)) == |parts| - 1
    decreases |parts|
  {
    if |parts| == 1 {
      NoDashCountsZero(parts[0]);
    } else {
      var init := parts[..|parts| - 1];
      JoinedDashCount(init);
      CountDashesAppend(JoinWithDashes(init), "-");
      CountDashesAppend(JoinWithDashes(init) + "-", parts[|parts| - 1]);
      NoDashCountsZero(parts[|parts| - 1]);
      assert CountDashes("-") == 1 by {
        assert "-"[..0] == [];
      }
    }
  }
}

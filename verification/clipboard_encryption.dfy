/**
 * The payload cipher (P2Pclipbord2/src/ClipboardEncryption.cpp): a single
 * process-wide key slot, a password-to-key derivation following HKDF
 * (RFC 5869) with one output block, and an AES-256-GCM envelope laid out as
 * nonce(12) || ciphertext || tag(16).
 *
 * HMAC-SHA-256 and AES-GCM sealing/opening are not modelled: they are function
 * values in `Primitives`, and the two facts the proofs need about them are
 * stated once, in `SealLengths` and `OpensSealed`. The random nonce is a parameter.
 */
module ClipboardEncryption {
  import opened Common

  const NONCE_SIZE: nat := 12
  const TAG_SIZE: nat := 16
  const KEY_SIZE: nat := 32
  /** `decrypt` refuses anything shorter: nonce, at least one ciphertext byte, tag. */
  const MIN_ENVELOPE_SIZE: nat := 29

  /** An HMAC-SHA-256 output: the source's helper always returns a 32-byte vector. */
  type Digest = s: seq<byte> | |s| == 32 witness seq(32, _ => 0)

  /**
   * The platform primitives:
   *  - hmac(key, data): HMAC-SHA-256;
   *  - seal(key, nonce, plaintext): AES-GCM encryption, giving (ciphertext, tag),
   *    or None when any of the platform calls on the way fails;
   *  - open(key, nonce, ciphertext, tag): AES-GCM decryption, or None when the
   *    tag does not authenticate or a platform call fails.
   */
  datatype Primitives = Primitives(
    hmac: (seq<byte>, seq<byte>) -> Digest,
    seal: (seq<byte>, seq<byte>, seq<byte>) -> Option<(seq<byte>, seq<byte>)>,
    open: (seq<byte>, seq<byte>, seq<byte>, seq<byte>) -> Option<seq<byte>>)

  /**
   * What the proofs assume of AES-GCM, in two parts that AES-256-GCM itself
   * meets: a successful seal gives a ciphertext as long as the plaintext and a
   * 16-byte tag (`SealLengths`), and opening a sealed message under the same
   * key and nonce gives the plaintext back (`OpensSealed`). Nothing is assumed
   * about opening under another key; a lemma that needs that takes it as a
   * hypothesis about the one envelope it concerns.
   */
  ghost predicate SealLengths(p: Primitives)
  {
    forall k, n, m :: p.seal(k, n, m).Some? ==>
      |p.seal(k, n, m).value.0| == |m| && |p.seal(k, n, m).value.1| == TAG_SIZE
  }

  ghost predicate OpensSealed(p: Primitives)
  {
    forall k, n, m :: p.seal(k, n, m).Some? ==>
      p.open(k, n, p.seal(k, n, m).value.0, p.seal(k, n, m).value.1) == Some(m)
  }

  ghost predicate Lawful(p: Primitives)
  {
    SealLengths(p) && OpensSealed(p)
  }

  /** A `std::string` constant as the bytes of its characters (all ASCII here). */
  function StringBytes(s: string): (r: seq<byte>)
    requires forall i :: 0 <= i < |s| ==> s[i] as int < 0x100
    ensures |r| == |s| && forall i :: 0 <= i < |s| ==> r[i] == s[i] as int
  {
    seq(|s|, i requires 0 <= i < |s| => s[i] as int)
  }

  function Salt(): seq<byte> { StringBytes("P2PClipboardSyncSalt2025") }
  function Info(): seq<byte> { StringBytes("P2PClipboardEncryptionContext") }

  // ---------------------------------------------------------------------------
  // HKDF as RFC 5869 defines it, for any output length (the reference).

  /** Section 2.2 of RFC 5869: PRK = HMAC-Hash(salt, IKM). */
  function HkdfExtract(p: Primitives, salt: seq<byte>, ikm: seq<byte>): Digest
  {
    p.hmac(salt, ikm)
  }

  /** Section 2.3 of RFC 5869: T(0) = empty, T(i) = HMAC-Hash(PRK, T(i-1) | info | i). */
  function HkdfBlock(p: Primitives, prk: seq<byte>, info: seq<byte>, i: nat): (t: seq<byte>)
    requires i <= 255
    ensures i > 0 ==> |t| == 32
  {
    if i == 0 then [] else p.hmac(prk, HkdfBlock(p, prk, info, i - 1) + info + [i])
  }

  /** T(1) | T(2) | ... | T(n). */
  function HkdfBlocks(p: Primitives, prk: seq<byte>, info: seq<byte>, n: nat): (okm: seq<byte>)
    requires n <= 255
    ensures |okm| == 32 * n
  {
    if n == 0 then [] else HkdfBlocks(p, prk, info, n - 1) + HkdfBlock(p, prk, info, n)
  }

  /** Section 2.3 of RFC 5869: the first L octets of T(1) | T(2) | ..., with L <= 255 * HashLen. */
  function HkdfExpand(p: Primitives, prk: seq<byte>, info: seq<byte>, len: nat): (okm: seq<byte>)
    requires len <= 255 * 32
    ensures |okm| == len
  {
    HkdfBlocks(p, prk, info, (len + 31) / 32)[..len]
  }

  // ---------------------------------------------------------------------------
  // The source's derivation and envelope.

  /**
   * ClipboardEncryption::deriveSymmetricKey: PRK = HMAC(salt, password), then
   * the single block HMAC(PRK, info || 0x01) copied into a 32-byte key.
   */
  function DeriveSymmetricKey(p: Primitives, password: seq<byte>): (key: seq<byte>)
    ensures |key| == KEY_SIZE
  {
    var prk := p.hmac(Salt(), password);
    var lastT := p.hmac(prk, Info() + [0x01]);
    lastT
  }

  /** The derived key is HKDF-Expand(HKDF-Extract(salt, password), info, 32). */
  lemma DeriveIsHkdf(p: Primitives, password: seq<byte>)
    ensures DeriveSymmetricKey(p, password) == HkdfExpand(p, HkdfExtract(p, Salt(), password), Info(), KEY_SIZE)
  {
    var prk := HkdfExtract(p, Salt(), password);
    assert HkdfBlock(p, prk, Info(), 0) + Info() + [1] == Info() + [0x01];
    assert HkdfBlocks(p, prk, Info(), 1) == HkdfBlock(p, prk, Info(), 1);
  }

  /** nonce || ciphertext || tag. */
  function Envelope(nonce: seq<byte>, ciphertext: seq<byte>, tag: seq<byte>): (e: seq<byte>)
    requires |nonce| == NONCE_SIZE && |tag| == TAG_SIZE
    ensures |e| == NONCE_SIZE + |ciphertext| + TAG_SIZE
    ensures e[..NONCE_SIZE] == nonce && e[|e| - TAG_SIZE..] == tag
    ensures e[NONCE_SIZE..|e| - TAG_SIZE] == ciphertext
  {
    nonce + ciphertext + tag
  }

  /** The split `decrypt` performs: first 12 bytes, the middle, last 16 bytes. */
  function SplitEnvelope(e: seq<byte>): (parts: (seq<byte>, seq<byte>, seq<byte>))
    requires |e| >= NONCE_SIZE + TAG_SIZE
    ensures |parts.0| == NONCE_SIZE && |parts.2| == TAG_SIZE
    ensures parts.0 + parts.1 + parts.2 == e
  {
    (e[..NONCE_SIZE], e[NONCE_SIZE..|e| - TAG_SIZE], e[|e| - TAG_SIZE..])
  }

  /** Splitting inverts the concatenation, and the concatenation inverts the split. */
  lemma SplitJoin(nonce: seq<byte>, ciphertext: seq<byte>, tag: seq<byte>, e: seq<byte>)
    requires |nonce| == NONCE_SIZE && |tag| == TAG_SIZE
    requires |e| >= NONCE_SIZE + TAG_SIZE
    ensures SplitEnvelope(Envelope(nonce, ciphertext, tag)) == (nonce, ciphertext, tag)
    ensures Envelope(SplitEnvelope(e).0, SplitEnvelope(e).1, SplitEnvelope(e).2) == e
  {
  }

  /**
   * What ClipboardEncryption::encrypt returns with `key` in the slot and `nonce`
   * the outcome of the random generator (None when it fails). Every failure is
   * the empty vector.
   */
  function EncryptWithKey(p: Primitives, key: seq<byte>, data: seq<byte>, nonce: Option<seq<byte>>): (r: seq<byte>)
    requires nonce.Some? ==> |nonce.value| == NONCE_SIZE
    ensures key == [] || nonce.None? || p.seal(key, nonce.value, data).None? ==> r == []
    ensures r != [] ==>
      && key != [] && nonce.Some? && p.seal(key, nonce.value, data).Some?
      && |r| >= NONCE_SIZE + TAG_SIZE && r[..NONCE_SIZE] == nonce.value
      && (SplitEnvelope(r).1, SplitEnvelope(r).2) == p.seal(key, nonce.value, data).value
  {
    if key == [] || nonce.None? then []
    else match p.seal(key, nonce.value, data)
      case None => []
      case Some(sealed) =>
        if |sealed.1| != TAG_SIZE then [] else Envelope(nonce.value, sealed.0, sealed.1)
  }

  /** What ClipboardEncryption::decrypt returns with `key` in the slot. */
  function DecryptWithKey(p: Primitives, key: seq<byte>, data: seq<byte>): (r: seq<byte>)
    ensures key == [] || |data| < MIN_ENVELOPE_SIZE ==> r == []
    ensures r != [] ==>
      && |data| >= MIN_ENVELOPE_SIZE
      && p.open(key, SplitEnvelope(data).0, SplitEnvelope(data).1, SplitEnvelope(data).2) == Some(r)
  {
    if key == [] || |data| < MIN_ENVELOPE_SIZE then []
    else
      var (nonce, ciphertext, tag) := SplitEnvelope(data);
      match p.open(key, nonce, ciphertext, tag)
      case None => []
      case Some(plaintext) => plaintext
  }

  /** With no key in the slot both directions fail closed. */
  lemma NoKeyFailsClosed(p: Primitives, data: seq<byte>, nonce: Option<seq<byte>>)
    requires nonce.Some? ==> |nonce.value| == NONCE_SIZE
    ensures EncryptWithKey(p, [], data, nonce) == []
    ensures DecryptWithKey(p, [], data) == []
  {
  }

  /** A successful encryption is nonce || ciphertext || tag, 28 bytes longer than the plaintext. */
  lemma EncryptLayout(p: Primitives, key: seq<byte>, data: seq<byte>, nonce: seq<byte>)
    requires SealLengths(p) && |nonce| == NONCE_SIZE
    ensures var r := EncryptWithKey(p, key, data, Some(nonce));
      r != [] <==> key != [] && p.seal(key, nonce, data).Some?
    ensures var r := EncryptWithKey(p, key, data, Some(nonce));
      r != [] ==> && |r| == NONCE_SIZE + |data| + TAG_SIZE
                  && r[..NONCE_SIZE] == nonce
                  && r[NONCE_SIZE..|r| - TAG_SIZE] == p.seal(key, nonce, data).value.0
                  && r[|r| - TAG_SIZE..] == p.seal(key, nonce, data).value.1
  {
  }

  /** Anything shorter than 29 bytes never decrypts, whatever the key and the primitives. */
  lemma ShortNeverDecrypts(p: Primitives, key: seq<byte>, data: seq<byte>)
    ensures |data| < MIN_ENVELOPE_SIZE ==> DecryptWithKey(p, key, data) == []
  {
  }

  /** In particular the 28-byte envelope of an empty plaintext never decrypts. */
  lemma EmptyPlaintextNeverDecrypts(p: Primitives, key: seq<byte>, nonce: Option<seq<byte>>)
    requires SealLengths(p)
    requires nonce.Some? ==> |nonce.value| == NONCE_SIZE
    ensures DecryptWithKey(p, key, EncryptWithKey(p, key, [], nonce)) == []
  {
  }

  /** Encrypting a non-empty plaintext and decrypting under the same key gives it back. */
  lemma EncryptDecryptRoundTrip(p: Primitives, key: seq<byte>, data: seq<byte>, nonce: seq<byte>)
    requires Lawful(p) && |nonce| == NONCE_SIZE
    requires key != [] && p.seal(key, nonce, data).Some?
    requires data != []
    ensures DecryptWithKey(p, key, EncryptWithKey(p, key, data, Some(nonce))) == data
  {
    var sealed := p.seal(key, nonce, data).value;
    var e := EncryptWithKey(p, key, data, Some(nonce));
    assert e == Envelope(nonce, sealed.0, sealed.1);
    SplitJoin(nonce, sealed.0, sealed.1, e);
  }

  /**
   * An envelope made under one password's key is refused under another
   * password's key whenever AES-GCM refuses that ciphertext and tag under the
   * other key: `decrypt` hands `open` exactly what `encrypt` sealed.
   */
  lemma WrongPasswordRejected(p: Primitives, password: seq<byte>, other: seq<byte>, data: seq<byte>, nonce: seq<byte>)
    requires |nonce| == NONCE_SIZE
    requires var k := DeriveSymmetricKey(p, password);
      p.seal(k, nonce, data).Some? ==>
        p.open(DeriveSymmetricKey(p, other), nonce, p.seal(k, nonce, data).value.0, p.seal(k, nonce, data).value.1).None?
    ensures DecryptWithKey(p, DeriveSymmetricKey(p, other),
                           EncryptWithKey(p, DeriveSymmetricKey(p, password), data, Some(nonce))) == []
  {
    var k := DeriveSymmetricKey(p, password);
    var e := EncryptWithKey(p, k, data, Some(nonce));
    if e != [] && |e| >= MIN_ENVELOPE_SIZE {
      var sealed := p.seal(k, nonce, data).value;
      assert e == Envelope(nonce, sealed.0, sealed.1);
      SplitJoin(nonce, sealed.0, sealed.1, e);
    }
  }

  /**
   * The process-wide key slot (the static `symmetricKey` vector); an empty key
   * means "no password set".
   */
  class KeySlot {
    const prims: Primitives
    var symmetricKey: seq<byte>

    constructor (prims: Primitives)
      ensures this.prims == prims && symmetricKey == []
    {
      this.prims := prims;
      symmetricKey := [];
    }

    /** ClipboardEncryption::isPasswordSet. */
    function IsPasswordSet(): bool
      reads this
    {
      symmetricKey != []
    }

    /**
     * ClipboardEncryption::setPassword: an empty password is refused and the
     * slot is left as it was (a key set earlier stays); otherwise the derived
     * 32-byte key replaces whatever was there.
     */
    method SetPassword(password: seq<byte>) returns (ok: bool)
      modifies this
      ensures ok <==> password != []
      ensures ok ==> symmetricKey == DeriveSymmetricKey(prims, password) && IsPasswordSet()
      ensures !ok ==> symmetricKey == old(symmetricKey)
    {
      if password == [] {
        return false;
      }
      symmetricKey := DeriveSymmetricKey(prims, password);
      return true;
    }

    /** ClipboardEncryption::clearPassword. */
    method ClearPassword()
      modifies this
      ensures symmetricKey == [] && !IsPasswordSet()
    {
      symmetricKey := [];
    }

    /** ClipboardEncryption::encrypt, with the random generator's outcome as `nonce`. */
    method Encrypt(data: seq<byte>, nonce: Option<seq<byte>>) returns (result: seq<byte>)
      requires nonce.Some? ==> |nonce.value| == NONCE_SIZE
      ensures result == EncryptWithKey(prims, symmetricKey, data, nonce)
    {
      if symmetricKey == [] {
        return [];
      }
      if nonce.None? {
        return [];
      }
      var sealed := prims.seal(symmetricKey, nonce.value, data);
      if sealed.None? {
        return [];
      }
      var (ciphertext, tag) := sealed.value;
      if |tag| != TAG_SIZE {
        return [];
      }
      result := [];
      result := result + nonce.value;
      result := result + ciphertext;
      result := result + tag;
    }

    /** ClipboardEncryption::decrypt. */
    method Decrypt(encryptedData: seq<byte>) returns (plaintext: seq<byte>)
      ensures plaintext == DecryptWithKey(prims, symmetricKey, encryptedData)
    {
      if symmetricKey == [] {
        return [];
      }
      if |encryptedData| < MIN_ENVELOPE_SIZE {
        return [];
      }
      var nonce := encryptedData[..NONCE_SIZE];
      var tag := encryptedData[|encryptedData| - TAG_SIZE..];
      var ciphertext := encryptedData[NONCE_SIZE..|encryptedData| - TAG_SIZE];
      var decrypted := prims.open(symmetricKey, nonce, ciphertext, tag);
      if decrypted.None? {
        return [];
      }
      plaintext := decrypted.value;
    }
  }
}

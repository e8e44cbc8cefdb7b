# Clipboard sync core, modelled in Dafny

This project models the logic at the heart of a peer-to-peer clipboard
synchroniser. Two Windows machines exchange clipboard content over TCP or
Bluetooth LE. The model covers:

- **Byte codec** (`ByteUtils`): 16- and 32-bit big-endian integers, with
  bounds-checked reads and "0 on a short buffer" convenience reads.
- **Key slot and envelope** (`ClipboardEncryption`): a key is derived from the
  shared password with HKDF-SHA-256. A plaintext is sealed with AES-256-GCM
  into `nonce(12) || ciphertext || tag(16)`. A missing key, a short buffer or
  a failed tag check all give the empty result.
- **Chunk header** (`WireFormat`): the 19-byte header `totalLength u32,
  version u16, contentType u8, transferId u32, chunkIndex u32, totalChunks u32`.
- **UTF-8-aware splitting** (`Chunking`): the data is split into pieces of at
  most 512 bytes for BLE, and no piece after the first starts with a UTF-8
  continuation byte.
- **Reassembly order** (`Reassembly`): received chunks are sorted by index and
  their payloads joined.
- **Framer and reassembler** (`MessageProtocol`): the transfer-id counter,
  `encodeMessage`, `decodeData` with its table of partial transfers, and the
  timed cleanup of that table. `ProtocolFraming` holds the proofs that relate
  the two sides.
- **BLE advertisement payload** (`BlePayload`): manufacturer data with company
  0x0006 and magic byte 0xC5, or a custom 0xA0 data section. Both are parsed
  back into `{version, deviceName, deviceId}`.
- **UUID and key formatting** (`UuidGenerator`): the 8-4-4-4-12 rendering of a
  hash with the version and variant digits patched in, the random string
  alphabet, and the dash-joined key.
- **Image-handler helpers** (`ClipboardImageHandler`): image-URL detection by
  file extension, and the format to extension and MIME-type tables.
- **Echo suppression** (`ClipboardManager`): writing a peer's content arms an
  "ignore next change" flag. The next clipboard event consumes the flag.
  Content is reported only when its hash differs from the last one reported.

Mutable state is modelled as classes:

- `ClipboardEncryption.KeySlot` holds the symmetric key.
- `MessageProtocol.ProtocolSession` holds the partial-message table, its
  timestamps and the transfer-id counter. The source keeps these in static
  members.
- `ClipboardManager.ClipboardManager` holds the flag and the last hash.

Each loop of the source is a method proved against a reference function. For
example, `ChunkedData` is proved against `Pieces`, `HexLayout` against
`Layout`, and `TryParseAdvertisement` against `ParseAdvertisement`.

Fixed-width arithmetic is written out explicitly:

- the transfer counter, `totalLength` and the chunk count wrap modulo 2^32;
- the age of a partial transfer is computed modulo 2^64;
- the advertisement length bytes wrap modulo 256.

Some behaviour is supplied from outside the model rather than modelled:

- **Cryptography.** HMAC-SHA-256 and AES-GCM seal/open are function values in
  `ClipboardEncryption.Primitives`. Two predicates state what the proofs
  assume of AES-GCM, and AES-256-GCM meets both:
  - `SealLengths`: a successful seal gives a ciphertext as long as the
    plaintext and a 16-byte tag;
  - `OpensSealed`: opening what was sealed, under the same key and nonce,
    gives the plaintext back.

  `Lawful` is the two together. Each lemma requires only the ones its proof
  uses. Nothing is assumed about opening under a different key:
  `WrongPasswordRejected` takes that as a hypothesis about its one envelope.
- **Other inputs, passed as parameters:**
  - the random nonce;
  - the clock (`now`);
  - the random bytes of the key generator;
  - the SHA-256 digest that feeds the UUID;
  - what a clipboard read returns;
  - whether a clipboard write succeeded;
  - `std::hash`.

Where the code and its documentation disagree, the model follows the code:

- Both TCP and BLE frames carry the plaintext payload, while `decodeData`
  decrypts what it receives (see Findings).
- A multi-chunk transfer completes when the number of stored chunks equals the
  chunk's `totalChunks`. Duplicates are counted.
- A transfer whose decryption fails stays in the table, sorted.
- The image test in `isImageURL` is by extension only.

## Model

| member | source | states |
|---|---|---|
| ByteUtils.Uint32ToBytes | Windows/src/ByteUtils.cpp:3-10 | exactly four bytes, most significant first, whose big-endian value is the input |
| ByteUtils.Uint16ToBytes | Windows/src/ByteUtils.cpp:12-17 | exactly two bytes whose big-endian value is the input |
| ByteUtils.TryBytesToUint32 | Windows/src/ByteUtils.cpp:19-29 | succeeds iff offset + 4 <= size; on failure the out-value is the one passed in, on success it is the big-endian value of bytes[offset..offset+4] |
| ByteUtils.TryBytesToUint16 | Windows/src/ByteUtils.cpp:31-39 | the same for two bytes |
| ByteUtils.BytesToUint32 | Windows/src/ByteUtils.cpp:41-45 | the big-endian value when four bytes are available at the offset, 0 otherwise |
| ByteUtils.BytesToUint16 | Windows/src/ByteUtils.cpp:47-51 | the big-endian value when two bytes are available at the offset, 0 otherwise |
| ByteUtils.Uint32RoundTrip | Windows/src/ByteUtils.cpp:3-29 | decoding an encoded value gives it back, and encoding any four decoded bytes gives those bytes back |
| ByteUtils.Uint16RoundTrip | Windows/src/ByteUtils.cpp:12-39 | the same two-way round trip for 16-bit values |
| ByteUtils.Uint32AtOffset | Windows/src/ByteUtils.cpp:19-29 | an encoded value embedded after any prefix and before any suffix reads back at the prefix's length |
| ByteUtils.Uint16AtOffset | Windows/src/ByteUtils.cpp:31-39 | the same for 16-bit values |
| ByteUtils.ShortReadsLikeZero | Windows/src/ByteUtils.cpp:41-51 | a convenience read past the end gives 0, the same result as reading an encoded 0 |
| ClipboardEncryption.DeriveSymmetricKey | P2Pclipbord2/src/ClipboardEncryption.cpp:34-57 | the derived key is 32 bytes long |
| ClipboardEncryption.DeriveIsHkdf | P2Pclipbord2/src/ClipboardEncryption.cpp:34-57 | the derived key is HKDF-Expand(HKDF-Extract(salt, password), info, 32) as defined in RFC 5869 sections 2.2 and 2.3, with the fixed salt and info strings |
| ClipboardEncryption.Envelope | P2Pclipbord2/src/ClipboardEncryption.cpp:163-167 | the envelope is nonce, ciphertext and tag at their fixed offsets, 28 bytes longer than the ciphertext |
| ClipboardEncryption.SplitEnvelope | P2Pclipbord2/src/ClipboardEncryption.cpp:184-191 | splitting gives a 12-byte nonce and a 16-byte tag, and the three parts concatenate back to the input |
| ClipboardEncryption.SplitJoin | P2Pclipbord2/src/ClipboardEncryption.cpp:163-191 | splitting and building an envelope are mutual inverses |
| ClipboardEncryption.NoKeyFailsClosed | P2Pclipbord2/src/ClipboardEncryption.cpp:77-81 | with no key in the slot both encryption and decryption give the empty result |
| ClipboardEncryption.EncryptWithKey | P2Pclipbord2/src/ClipboardEncryption.cpp:77-170 | with no key, no nonce or a failed seal the result is empty; a non-empty result starts with the nonce, and splitting it as decryption does gives exactly the sealed ciphertext and tag |
| ClipboardEncryption.DecryptWithKey | P2Pclipbord2/src/ClipboardEncryption.cpp:172-258 | with no key or fewer than 29 bytes the result is empty; a non-empty result is what opening the split nonce, ciphertext and tag gives |
| ClipboardEncryption.EncryptLayout | P2Pclipbord2/src/ClipboardEncryption.cpp:77-169 | assuming only the seal lengths: encryption succeeds iff a key is set and sealing succeeds; the result is then nonce, sealed ciphertext and tag, 28 bytes longer than the plaintext |
| ClipboardEncryption.ShortNeverDecrypts | P2Pclipbord2/src/ClipboardEncryption.cpp:178-182 | input shorter than 29 bytes never decrypts, whatever the key and the primitives |
| ClipboardEncryption.EmptyPlaintextNeverDecrypts | P2Pclipbord2/src/ClipboardEncryption.cpp:163-182 | assuming only the seal lengths: the 28-byte envelope of an empty plaintext never decrypts |
| ClipboardEncryption.EncryptDecryptRoundTrip | Windows/tests/test_clipboardencryption.cpp:34-49 | decrypting what was encrypted under the same key gives back any non-empty plaintext |
| ClipboardEncryption.WrongPasswordRejected | Windows/tests/test_clipboardencryption.cpp:51-64 | an envelope sealed under one password's key is rejected under another password's key whenever AES-GCM refuses that ciphertext and tag under the other key |
| ClipboardEncryption.KeySlot.constructor | P2Pclipbord2/src/ClipboardEncryption.cpp:8 | the slot starts empty |
| ClipboardEncryption.KeySlot.SetPassword | P2Pclipbord2/src/ClipboardEncryption.cpp:59-67 | succeeds iff the password is non-empty; on success the slot holds the derived key, on failure it is unchanged |
| ClipboardEncryption.KeySlot.ClearPassword | P2Pclipbord2/src/ClipboardEncryption.cpp:73-75 | the slot is empty and no password is set |
| ClipboardEncryption.KeySlot.Encrypt | P2Pclipbord2/src/ClipboardEncryption.cpp:77-170 | the result is the envelope defined by EncryptWithKey for the slot's key |
| ClipboardEncryption.KeySlot.Decrypt | P2Pclipbord2/src/ClipboardEncryption.cpp:172-258 | the result is the plaintext defined by DecryptWithKey for the slot's key |
| WireFormat.ContentTypeByte | P2Pclipbord2/src/MessageProtocol.h:10-17 | every content type is sent as a byte in 1..6 |
| WireFormat.ContentTypeOfByte | P2Pclipbord2/src/MessageProtocol.cpp:160-165 | a byte is accepted iff it is in 1..6, and the accepted type is sent as that same byte |
| WireFormat.ContentTypeRoundTrip | P2Pclipbord2/src/MessageProtocol.h:10-17 | decoding the byte of a content type gives that type |
| WireFormat.SerializeHeader | P2Pclipbord2/src/MessageProtocol.cpp:60-75 | the header is exactly 19 bytes |
| WireFormat.ParseSerialized | P2Pclipbord2/src/MessageProtocol.cpp:144-151 | every field of a serialised header reads back, and the payload starts at byte 19 |
| WireFormat.ParseHeader | P2Pclipbord2/src/MessageProtocol.cpp:144-151 | the parse loses nothing: serialising the parsed header gives the first 19 bytes back |
| WireFormat.Frame | P2Pclipbord2/src/MessageProtocol.cpp:49-80 | a frame is 19 + n bytes and its bytes after the header are the piece |
| WireFormat.FrameFields | P2Pclipbord2/src/MessageProtocol.cpp:53-78 | a frame's header reads back, its type byte decodes to its content type, and its first four bytes give its length when that fits in 32 bits |
| Chunking.BackOff | P2Pclipbord2/src/MessageProtocol.cpp:284-291 | the cut stays within [position, endPos]; every byte skipped is a continuation byte, and a cut after position is on a byte that is not |
| Chunking.PieceEnd | P2Pclipbord2/src/MessageProtocol.cpp:281-291 | a piece is at most chunkSize bytes; a cut before the end lands on a lead byte or stalls at position; near the end the piece runs to the end |
| Chunking.ChunkedData | P2Pclipbord2/src/MessageProtocol.cpp:272-302 | the loop produces exactly the reference pieces |
| Chunking.PiecesConcat | P2Pclipbord2/src/MessageProtocol.cpp:272-302 | the pieces concatenate back to the input |
| Chunking.PiecesBounded | P2Pclipbord2/src/MessageProtocol.cpp:279-299 | there are no more pieces than bytes, and each piece is non-empty and at most chunkSize bytes |
| Chunking.PiecesAligned | P2Pclipbord2/src/MessageProtocol.cpp:283-291 | every piece after the first is non-empty and starts on a byte that is not a continuation byte |
| Chunking.PiecesShape | P2Pclipbord2/src/MessageProtocol.cpp:279-299 | both of the above together |
| Chunking.SmallInputPieces | P2Pclipbord2/src/MessageProtocol.cpp:279-299 | empty input gives no pieces, and input of at most chunkSize bytes gives itself as the only piece |
| Chunking.StallsOnContinuationRun | P2Pclipbord2/src/MessageProtocol.cpp:287-291 | when every byte of the window is a continuation byte, the cut falls back to position and the loop never ends |
| Chunking.LeadBytesGiveProgress | P2Pclipbord2/src/MessageProtocol.cpp:279-299 | when chunkSize > 0 and every window holds a lead byte, the loop terminates |
| Reassembly.InsertByIndex | P2Pclipbord2/src/MessageProtocol.cpp:213-216 | inserting into a sorted list keeps it sorted by chunkIndex, and the result holds exactly the old chunks plus the new one |
| Reassembly.SortByIndex | P2Pclipbord2/src/MessageProtocol.cpp:213-216 | the result is sorted by chunkIndex and is a permutation of the input |
| Reassembly.JoinPayloadsIsFlatten | P2Pclipbord2/src/MessageProtocol.cpp:218-221 | joining the chunks gives the concatenation of their payloads in order |
| Reassembly.SortedOrderUnique | P2Pclipbord2/src/MessageProtocol.cpp:213-216 | a sorted list and a strictly sorted list holding the same chunks are equal |
| Reassembly.SortRestoresOrder | P2Pclipbord2/src/MessageProtocol.cpp:210-221 | sorting any arrival order of chunks with distinct indices restores the sent order and the joined payload |
| MessageProtocol.BleFrames | P2Pclipbord2/src/MessageProtocol.cpp:84-122 | there is one frame per piece, the count taken modulo 2^32, and frame i passes the decoder's checks and reads back as chunk i of that count, carrying piece i |
| MessageProtocol.Decodable | P2Pclipbord2/src/MessageProtocol.cpp:139-162 | the decoder goes on past its checks iff there are at least 19 bytes and the type byte is between 1 and 6 |
| MessageProtocol.ChunkFromData | P2Pclipbord2/src/MessageProtocol.cpp:144-166 | each chunk field is the value whose big-endian bytes sit at its offset (type at 6, id at 7, index at 11, count at 15), and the payload is everything after byte 19 |
| MessageProtocol.GetStringPayload | P2Pclipbord2/src/MessageProtocol.cpp:14-21 | types other than text and HTML give ""; text and HTML give one character per payload byte, with the same code |
| MessageProtocol.ExpiredIds | P2Pclipbord2/src/MessageProtocol.cpp:259-263 | an id is selected iff it has a timestamp whose unsigned age is more than olderThan |
| MessageProtocol.SortKeepsMembership | P2Pclipbord2/src/MessageProtocol.cpp:213-216 | sorting a stored list keeps its length and its chunks' transfer id |
| MessageProtocol.FramePieces | P2Pclipbord2/src/MessageProtocol.cpp:84-122 | frame i is the header for chunk i of the 32-bit piece count, followed by piece i |
| MessageProtocol.JoinChunks | P2Pclipbord2/src/MessageProtocol.cpp:218-221 | the loop produces the reference join of the payloads |
| MessageProtocol.ProtocolSession.constructor | P2Pclipbord2/src/MessageProtocol.cpp:10-12 | both tables start empty and the counter starts at 0 |
| MessageProtocol.ProtocolSession.GenerateTransferId | P2Pclipbord2/src/MessageProtocol.cpp:28-32 | returns the counter and advances it modulo 2^32 |
| MessageProtocol.ProtocolSession.EncodeMessage | P2Pclipbord2/src/MessageProtocol.cpp:34-124 | one id is consumed; a failed encryption gives no frames; TCP gives one frame "0 of 1" carrying the payload; BLE gives one frame per UTF-8-aware 512-byte piece of the payload; the table invariant is kept |
| MessageProtocol.ProtocolSession.EncodeTextMessage | P2Pclipbord2/src/MessageProtocol.cpp:126-132 | the text's bytes are encoded as a plain-text message, with the same outcomes as EncodeMessage |
| MessageProtocol.ProtocolSession.EncodeMessageCorrected | P2Pclipbord2/src/MessageProtocol.cpp:34-124 | as EncodeMessage, but the frames carry the sealed envelope |
| MessageProtocol.ProtocolSession.DecodeData | P2Pclipbord2/src/MessageProtocol.cpp:134-250 | see the table below |
| MessageProtocol.ProtocolSession.AcceptChunk | P2Pclipbord2/src/MessageProtocol.cpp:187-249 | the multi-chunk part of DecodeData, stated for a chunk already parsed |
| MessageProtocol.ProtocolSession.StoreChunk | P2Pclipbord2/src/MessageProtocol.cpp:204-205 | the chunk is appended to its transfer's list and the transfer is stamped with now; nothing else changes |
| MessageProtocol.ProtocolSession.CompleteTransfer | P2Pclipbord2/src/MessageProtocol.cpp:210-246 | the stored list is sorted and joined, then decrypted; on success the transfer leaves both maps, on failure it stays, sorted |
| MessageProtocol.ProtocolSession.CleanupPartialMessages | P2Pclipbord2/src/MessageProtocol.cpp:253-270 | both maps lose exactly the expired ids, and the table invariant is kept |
| MessageProtocol.FrameDecodes | P2Pclipbord2/src/MessageProtocol.cpp:139-166 | every frame the encoder builds passes the decoder's checks and reads back as the chunk it was built from |
| ProtocolFraming.TcpFrameShape | P2Pclipbord2/src/MessageProtocol.cpp:49-80 | the TCP frame is 19 + n bytes, decodes as chunk 0 of 1 with the whole payload and version 1, and carries its own length |
| ProtocolFraming.FramesDecode | P2Pclipbord2/src/MessageProtocol.cpp:84-122 | each BLE frame is at most 531 bytes and decodes as the matching chunk of the transfer |
| ProtocolFraming.BleFramesShape | P2Pclipbord2/src/MessageProtocol.cpp:82-123 | the BLE frame count equals the piece count; each frame is at most 531 bytes and decodes as chunk i; the payload regions concatenate back to the payload; an empty payload gives no frames |
| ProtocolFraming.BleReassemblyAnyOrder | P2Pclipbord2/src/MessageProtocol.cpp:210-221 | whatever order a BLE transfer's chunks arrive in, sorting and joining gives the encoded payload back |
| ProtocolFraming.PlaintextFrameRejected | P2Pclipbord2/src/MessageProtocol.cpp:78 | a TCP frame of fewer than 29 plaintext bytes passes the header checks, but its payload never decrypts under any key |
| ProtocolFraming.SealedFrameOpens | P2Pclipbord2/src/MessageProtocol.cpp:168-185 | a TCP frame carrying the envelope decodes, under the same key, to the original type, id and plaintext |
| ProtocolFraming.TcpShortTextAsWritten | Windows/tests/test_messageprotocol.cpp:10-30 | encoding a text shorter than 29 bytes over TCP and decoding the frame in the same session gives no message |
| ProtocolFraming.TcpMessageCorrected | Windows/tests/test_messageprotocol.cpp:10-45 | with the corrected encoder, the same exchange gives back the message with its type, id and payload |
| BlePayload.EncodeFields | Windows/src/BLEPayload.h:51-60 | version, then the name's length mod 256 and the name, then the id's length mod 256 and the id |
| BlePayload.CreateAdvertisement | Windows/src/BLEPayload.h:27-69 | one manufacturer entry for company 0x0006 holding 0xC5 and the fields, and no data sections |
| BlePayload.CreateCustomTypeAdvertisement | Windows/src/BLEPayload.h:143-176 | one 0xA0 data section holding the fields, and no manufacturer data |
| BlePayload.DecodeFields | Windows/src/BLEPayload.h:92-103 | reading never gives Rejected; a successful read is a payload whose encoding is a prefix of the remaining bytes |
| BlePayload.DecodeRecord | Windows/src/BLEPayload.h:83-105 | with the magic byte expected, the record is rejected iff its first byte is not 0xC5; without it, the record is never rejected |
| BlePayload.EncodedPrefixParses | Windows/src/BLEPayload.h:92-103 | any record that begins with a well-formed encoding reads back as that payload |
| BlePayload.FirstOurEntry | Windows/src/BLEPayload.h:74-76 | the index of the first 0x0006 entry, or None iff there is none |
| BlePayload.FirstOurSection | Windows/src/BLEPayload.h:110-111 | the index of the first 0xA0 section, or None iff there is none |
| BlePayload.ReadRecord | Windows/src/BLEPayload.h:79-105 | the cursor-based reader gives exactly the reference outcome |
| BlePayload.ParseAdvertisement | Windows/src/BLEPayload.h:72-139 | anything but a rejection needs a 0x0006 entry or a 0xA0 section; a parsed payload fits the length bytes and its encoding sits at the front of such an entry, after the magic byte, or of such a section |
| BlePayload.TryParseAdvertisement | Windows/src/BLEPayload.h:72-139 | the two search loops give exactly the reference outcome |
| BlePayload.CreateAdvertisementRoundTrip | Windows/src/BLEPayload.h:27-105 | when both lengths fit in a byte, parsing the manufacturer-data advertisement gives the payload back |
| BlePayload.CreateCustomTypeRoundTrip | Windows/src/BLEPayload.h:109-176 | when both lengths fit in a byte, parsing the custom-section advertisement gives the payload back |
| BlePayload.ManufacturerEntryDecides | Windows/src/BLEPayload.h:74-107 | when a 0x0006 entry is present, the data sections do not affect the outcome |
| BlePayload.BadEntryHidesSection | Windows/src/BLEPayload.h:79-90 | a short or magic-less 0x0006 entry makes the parse fail, even when a valid 0xA0 section follows |
| BlePayload.LongNameDoesNotRoundTrip | Windows/src/BLEPayload.h:55-56 | a 256-byte name is written with length byte 0 and does not read back |
| UuidGenerator.HexDigit | Windows/src/UUIDGenerator.cpp:19 | nibbles 0..9 print as '0'..'9' and 10..15 as 'a'..'f' |
| UuidGenerator.Layout | Windows/src/UUIDGenerator.cpp:14-20 | the rendering has 36 characters, with dashes exactly at positions 8, 13, 18 and 23 |
| UuidGenerator.HexLayout | Windows/src/UUIDGenerator.cpp:12-22 | the stream loop produces exactly the reference rendering of the first 16 hash bytes |
| UuidGenerator.VersionPatch | Windows/src/UUIDGenerator.cpp:24-48 | patching positions 14, 15 and 19 of the rendering gives the rendering of the version-5, variant-10 bytes |
| UuidGenerator.UuidFromHash | Windows/src/UUIDGenerator.cpp:7-51 | as written: every character except index 15 matches the version-5 rendering; index 15 matches it only for a decimal nibble and is always a decimal digit |
| UuidGenerator.UuidFromHashCorrected | Windows/src/UUIDGenerator.cpp:27-36 | the result is exactly the rendering of the version-5, variant-10 bytes |
| UuidGenerator.VersionAndVariant | Windows/src/UUIDGenerator.cpp:24-48 | the intended rendering has '5' at index 14 and one of 8, 9, a, b at index 19 |
| UuidGenerator.LowNibbleLost | Windows/src/UUIDGenerator.cpp:28-36 | when the low nibble of byte 6 is 10..15, the intended character is a letter and the as-written one differs from it |
| UuidGenerator.LayoutInjective | Windows/src/UUIDGenerator.cpp:15-20 | equal renderings come from equal first 16 bytes |
| UuidGenerator.GenerateRandomString | Windows/src/UUIDGenerator.cpp:110-123 | character i is ALPHABET[byte i mod 32], so every character is in the alphabet and none is a dash |
| UuidGenerator.GenerateFormattedKey | Windows/src/UUIDGenerator.cpp:97-108 | the key is the segments joined by dashes, where segment i renders byte string i one alphabet character per byte (byte b as ALPHABET[b % 32]) and holds no dash, so n segments give n - 1 dashes |
| UuidGenerator.JoinedDashCount | Windows/src/UUIDGenerator.cpp:97-108 | joining n >= 1 dash-free parts with dashes gives exactly n - 1 dashes |
| ClipboardImageHandler.FindLastOf | P2Pclipbord2/src/ClipboardImageHandler.cpp:214 | None iff the character is absent; otherwise the index of an occurrence with none after it |
| ClipboardImageHandler.IsImageURL | P2Pclipbord2/src/ClipboardImageHandler.cpp:207-223 | a URL is an image URL iff some suffix of it, lowercased, is one of the listed extensions: the match ignores case and is anchored at the end |
| ClipboardImageHandler.ExtensionMatchCharacterised | P2Pclipbord2/src/ClipboardImageHandler.cpp:213-222 | the lowercased suffix from the last dot is a listed extension iff some lowercased suffix is, since every listed extension has one dot, at its front |
| ClipboardImageHandler.ExtensionsShape | P2Pclipbord2/src/ClipboardImageHandler.cpp:209-211 | every listed extension is a dot followed by lowercase characters and no other dot |
| ClipboardImageHandler.NoDotIsNotImage | P2Pclipbord2/src/ClipboardImageHandler.cpp:214-222 | a URL without a dot is never an image URL |
| ClipboardImageHandler.UpperCaseExtensionMatches | P2Pclipbord2/src/ClipboardImageHandler.cpp:215-222 | "A.PNG" is an image URL, because matching ignores case |
| ClipboardImageHandler.QueryStringDefeatsMatch | P2Pclipbord2/src/ClipboardImageHandler.cpp:215-222 | "x.png?v=1" is not an image URL |
| ClipboardImageHandler.PathAfterExtensionDefeatsMatch | P2Pclipbord2/src/ClipboardImageHandler.cpp:215-222 | "a.png/b" is not an image URL |
| ClipboardImageHandler.GetContentType | P2Pclipbord2/src/ClipboardImageHandler.cpp:301-303 | the format's underlying value: PNG 3 and JPEG 4, the wire type codes |
| ClipboardImageHandler.GetFileExtension | P2Pclipbord2/src/ClipboardImageHandler.cpp:305-314 | ".jpg" iff JPEG, ".png" iff PNG, ".bin" iff neither |
| ClipboardImageHandler.GetMimeType | P2Pclipbord2/src/ClipboardImageHandler.cpp:316-325 | "image/jpeg" iff JPEG, "image/png" iff PNG, "application/octet-stream" iff neither |
| ClipboardImageHandler.NamedFormatsAreImageExtensions | P2Pclipbord2/src/ClipboardImageHandler.cpp:305-314 | the extension of PNG and of JPEG is one the image-URL test accepts |
| ClipboardManager.GetClipboardContent | Windows/src/ClipboardManager.cpp:207-224 | a successfully read image wins and is tagged JPEG; otherwise the text is tagged plain text; the content is empty iff what was chosen is empty |
| ClipboardManager.ClipboardManager.constructor | Windows/src/ClipboardManager.cpp:8-11 | the flag starts clear and no callback is registered |
| ClipboardManager.ClipboardManager.SetClipboardUpdateCallback | Windows/src/ClipboardManager.cpp:226-228 | a callback is registered afterwards |
| ClipboardManager.ClipboardManager.ResetIgnoreFlag | Windows/src/ClipboardManager.cpp:269-271 | the flag is clear afterwards |
| ClipboardManager.ClipboardManager.OnClipboardUpdate | Windows/src/ClipboardManager.cpp:274-304 | with the flag set, the event only clears it; otherwise content is reported and its hash remembered iff it is non-empty and its hash differs from the last one; a report always carries non-empty data whose hash is now remembered |
| ClipboardManager.ClipboardManager.ProcessRemoteMessage | Windows/src/ClipboardManager.cpp:231-263 | a successful text write arms the flag and keeps the hash; a successful JPEG or PNG write arms the flag and remembers the hash; other types change nothing |
| ClipboardManager.RemoteWriteIsNotEchoed | Windows/src/ClipboardManager.cpp:231-304 | after a successful remote write, the next clipboard event is not reported and the flag is cleared |
| ClipboardManager.SameContentReportedOnce | Windows/src/ClipboardManager.cpp:283-300 | the same content seen in two successive events is reported at most once |
| ClipboardManager.RemoteTextReportedOnSecondEvent | Windows/src/ClipboardManager.cpp:235-300 | remote text does not update the remembered hash, so the event after the echo reports that text again |

`MessageProtocol.ProtocolSession.DecodeData` states each outcome of
`decodeData`. In every case the table invariant is kept: both maps have the
same keys, and every stored list is non-empty and belongs to its key.

- A buffer shorter than 19 bytes, or one with a type byte outside 1..6, gives no message. The table is unchanged.
- `totalChunks == 1` gives the decrypted payload, or no message if decryption fails. The table is unchanged.
- Any other `totalChunks`, with the transfer still incomplete, gives no message. The chunk is appended under its `transferId` and stamped with `now`.
- Any other `totalChunks`, with the transfer complete and decryption failing, gives no message. The transfer's list stays in the table, sorted by index.
- Any other `totalChunks`, with the transfer complete and decryption succeeding, gives the decrypted, joined payload. The transfer leaves both maps.

## Left out

- Cryptography is not implemented. HMAC-SHA-256, AES-256-GCM and SHA-256 are function values or inputs, and the BCrypt error paths inside them are not modelled. The proofs assume two things of AES-GCM: the ciphertext and tag lengths (`SealLengths`) and that opening sealed data with the same key and nonce gives it back (`OpensSealed`).
- ClipboardEncryption.WrongPasswordRejected: does not promise that every other key is refused, because no such law holds for AES-GCM in general; it takes the other key's refusal of the one sealed ciphertext and tag as a hypothesis.
- Randomness, the clock and the OS are parameters: the nonce, `getCurrentTimeMillis`, BCryptGenRandom's bytes, clipboard reads, whether a clipboard write succeeded, and `std::hash`.
- Text conversion is not modelled: strings are byte sequences with one byte per character. This covers UTF-8/UTF-16 conversion, `to_hstring`/`to_string`, and `DataReader::ReadString` counting code units.
- Concurrency is not modelled: the mutex and atomic flag around the static tables and the clipboard manager's state.
- Windows messaging and clipboard I/O are not modelled: creating the hidden window, message types other than WM_CLIPBOARDUPDATE, setting clipboard content, and image encoding and decoding.
- The BLE GATT transport, TCP networking and the application's main loop are not part of this model.
- Message::getBinaryPayload is a plain accessor and is read directly as `Message.payload`.
- MessageProtocol::getCurrentTimeMillis is the `now` parameter.
- ClipboardManager::shouldIgnoreNextChange is modelled as `ShouldIgnoreNextChange` with no contract of its own; `OnClipboardUpdate` states what it decides.
- ClipboardEncryption::isPasswordSet is modelled as `IsPasswordSet` with no contract of its own; `SetPassword` and `ClearPassword` state its value.
- Chunking.ChunkedData: requires `Progresses`. The source loops forever on inputs where a whole 512-byte window after a cut is continuation bytes, and that non-terminating case is only characterised, by `StallsOnContinuationRun`. The size_t overflow of `position + chunkSize` and negative `chunkSize` are not modelled.
- MessageProtocol.ProtocolSession.EncodeMessage: requires `Progresses` on the payload for BLE, for the same reason.
- MessageProtocol.ProtocolSession.EncodeMessageCorrected: requires `Progresses` on the envelope for BLE. Ciphertext bytes are arbitrary, so a 512-byte run of continuation bytes is possible in principle.
- Reassembly.SortByIndex: a stable insertion sort stands for std::sort, which is not stable. They differ only when a transfer holds two chunks with the same index, where std::sort's order is unspecified.
- ClipboardEncryption.EncryptWithKey: a seal result whose tag is not 16 bytes is treated as a failure, because the source always writes a fixed 16-byte tag buffer.
- UuidGenerator.UuidFromHash: requires at least 16 hash bytes. A failed SHA-256 that returns an empty hash is not modelled.
- UuidGenerator.GenerateRandomString: takes its random bytes as input, so a failed BCryptGenRandom call is not modelled.
- ClipboardManager.ClipboardManager.constructor: the initial `lastContentHash` is a parameter, because Windows/src/ClipboardManager.h is not part of this model.
- ClipboardManager.ClipboardManager.OnClipboardUpdate: the clipboard contents are parameters even when the flag is set, so the contract cannot state that no clipboard read happens then.

## Findings

| source | as written | input that shows it | evidently intended | confidence | as-written member | corrected member |
|---|---|---|---|---|---|---|
| Windows/src/UUIDGenerator.cpp:28-36 | `uuidStr[15] & 0x0F` takes the low four bits of the ASCII code, so 'a'..'f' (0x61..0x66) become 1..6 and are printed as '1'..'6'. The `lowNibble >= 10` branch can never be taken | any hash whose byte 6 has low nibble 0xA, e.g. byte 6 = 0x3A: index 15 is '1' where the rendering has 'a' | keep the hex value of the digit (as the variant patch at index 19 does), so the UUID is the RFC 4122 version-5 rendering of the hash | high (not executed) | UuidGenerator.UuidFromHash, UuidGenerator.LowNibbleLost | UuidGenerator.UuidFromHashCorrected |
| P2Pclipbord2/src/MessageProtocol.cpp:43-84 | `encodeMessage` computes `encryptedPayload` but frames `payload`, the plaintext. `decodeData` (lines 175, 229) decrypts what it receives, so a peer holding the same key decrypts plaintext | `encodeTextMessage("Hello, world!", TCP)` then `decodeData` on the frame, as in Windows/tests/test_messageprotocol.cpp:10-30: 13 bytes are shorter than an envelope, so decryption fails and no message comes back | frame the envelope, so the receiver decrypts back to the message | high (not executed) | MessageProtocol.ProtocolSession.EncodeMessage, ProtocolFraming.PlaintextFrameRejected, ProtocolFraming.TcpShortTextAsWritten | MessageProtocol.ProtocolSession.EncodeMessageCorrected, ProtocolFraming.SealedFrameOpens, ProtocolFraming.TcpMessageCorrected |

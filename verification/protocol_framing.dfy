/**
 * Framing-level round trips for the chunks `encodeMessage` emits
 * (P2Pclipbord2/src/MessageProtocol.cpp): what `decodeData` reads back from each
 * frame, and that reassembly in any arrival order gives the framed payload back.
 *
 * The frames carry the plaintext payload (the source discards the ciphertext),
 * so these statements stop at the bytes handed to decryption.
 */
module ProtocolFraming {
  import opened Common
  import opened ByteUtils
  import opened WireFormat
  import opened Chunking
  import opened Reassembly
  import opened MessageProtocol
  import CE = ClipboardEncryption

  /** The bytes after the header of every frame. */
  function PayloadRegions(frames: seq<seq<byte>>): (regions: seq<seq<byte>>)
    requires forall i :: 0 <= i < |frames| ==> |frames[i]| >= HEADER_SIZE
    ensures |regions| == |frames|
  {
    seq(|frames|, i requires 0 <= i < |frames| => frames[i][HEADER_SIZE..])
  }

  /** The chunks of a BLE transfer: piece i as chunk i of |pieces|. */
  function BleChunks(contentType: ContentType, transferId: u32, pieces: seq<seq<byte>>): (chunks: seq<MessageChunk>)
    ensures |chunks| == TruncateU32(|pieces|)
  {
    var total := TruncateU32(|pieces|);
    seq(total, i requires 0 <= i < total => MessageChunk(contentType, transferId, i, total, pieces[i]))
  }

  /** Frame i is at most 19 + 512 bytes, passes the decoder's checks and reads back as chunk i. */
  predicate ReadBackAs(frames: seq<seq<byte>>, chunks: seq<MessageChunk>)
  {
    && |frames| == |chunks|
    && forall i :: 0 <= i < |frames| ==>
         && |frames[i]| <= HEADER_SIZE + BLE_MAX_CHUNK_SIZE
         && Decodable(frames[i])
         && ChunkFromData(frames[i]) == chunks[i]
  }

  /**
   * The TCP branch: one frame whose header says index 0 of 1, whose payload
   * region is the whole input, and whose first four bytes give its own length.
   */
  lemma TcpFrameShape(contentType: ContentType, transferId: u32, payload: seq<byte>)
    ensures var f := Frame(contentType, transferId, 0, 1, payload);
      && |f| == HEADER_SIZE + |payload|
      && Decodable(f)
      && ChunkFromData(f) == MessageChunk(contentType, transferId, 0, 1, payload)
      && ParseHeader(f).version == PROTOCOL_VERSION
      && (|f| < U32_MODULUS ==> BytesToUint32(f, 0) == |f|)
  {
    FrameFields(contentType, transferId, 0, 1, payload);
  }

  /**
   * The BLE branch: frame i is chunk i of |frames| of the same transfer and
   * type, each at most 19 + 512 bytes, the payload regions concatenate back to
   * the input, and an empty payload gives no frames.
   */
  lemma BleFramesShape(contentType: ContentType, transferId: u32, payload: seq<byte>)
    requires Progresses(payload, 0, BLE_MAX_CHUNK_SIZE)
    requires |payload| < U32_MODULUS
    ensures var pieces := Pieces(payload, 0, BLE_MAX_CHUNK_SIZE);
            var frames := BleFrames(contentType, transferId, pieces);
      && |frames| == |pieces|
      && ReadBackAs(frames, BleChunks(contentType, transferId, pieces))
      && Flatten(PayloadRegions(frames)) == payload
      && (frames == [] <==> payload == [])
  {
    var pieces := Pieces(payload, 0, BLE_MAX_CHUNK_SIZE);
    PiecesShape(payload, 0, BLE_MAX_CHUNK_SIZE);
    PiecesConcat(payload, 0, BLE_MAX_CHUNK_SIZE);
    FramesDecode(contentType, transferId, pieces);
    var frames := BleFrames(contentType, transferId, pieces);
    assert PayloadRegions(frames) == pieces;
    if payload != [] {
      assert Flatten(pieces) != [];
    }
  }

  /** Each BLE frame of pieces no longer than 512 bytes is decodable, bounded, and reads back as its chunk. */
  lemma FramesDecode(contentType: ContentType, transferId: u32, pieces: seq<seq<byte>>)
    requires |pieces| < U32_MODULUS
    requires forall k :: 0 <= k < |pieces| ==> |pieces[k]| <= BLE_MAX_CHUNK_SIZE
    ensures var frames := BleFrames(contentType, transferId, pieces);
      && |frames| == |pieces|
      && ReadBackAs(frames, BleChunks(contentType, transferId, pieces))
  {
  }

  /**
   * Reassembly is order-independent: whatever order the chunks of one BLE
   * transfer arrive in, sorting them by index and joining the payloads gives
   * the encoded payload back.
   */
  lemma BleReassemblyAnyOrder(contentType: ContentType, transferId: u32, payload: seq<byte>,
                              arrival: seq<MessageChunk>)
    requires Progresses(payload, 0, BLE_MAX_CHUNK_SIZE)
    requires |payload| < U32_MODULUS
    requires multiset(arrival) == multiset(BleChunks(contentType, transferId, Pieces(payload, 0, BLE_MAX_CHUNK_SIZE)))
    ensures JoinPayloads(SortByIndex(arrival)) == payload
  {
    var pieces := Pieces(payload, 0, BLE_MAX_CHUNK_SIZE);
    PiecesShape(payload, 0, BLE_MAX_CHUNK_SIZE);
    var ordered := BleChunks(contentType, transferId, pieces);
    assert |ordered| == |pieces|;
    assert StrictlySortedByIndex(ordered);
    SortRestoresOrder(arrival, ordered);
    JoinPayloadsIsFlatten(ordered, pieces);
    PiecesConcat(payload, 0, BLE_MAX_CHUNK_SIZE);
  }

  // ---------------------------------------------------------------------------
  // End to end over TCP: encodeMessage frames the plaintext, decodeData decrypts.

  /**
   * As written, the TCP frame carries the plaintext, so the receiver decrypts
   * the plaintext itself: any message shorter than an envelope (29 bytes) is
   * refused by the peer whatever the key.
   */
  lemma PlaintextFrameRejected(p: CE.Primitives, key: seq<byte>, contentType: ContentType, transferId: u32,
                               payload: seq<byte>)
    requires |payload| < CE.MIN_ENVELOPE_SIZE
    ensures var f := Frame(contentType, transferId, 0, 1, payload);
      && Decodable(f) && ChunkFromData(f).totalChunks == 1
      && CE.DecryptWithKey(p, key, ChunkFromData(f).payload) == []
  {
    FrameDecodes(contentType, transferId, 0, 1, payload);
    CE.ShortNeverDecrypts(p, key, payload);
  }

  /**
   * With the envelope in the frame, as intended, the receiver holding the same
   * key decrypts the frame's payload region back to the message.
   */
  lemma SealedFrameOpens(p: CE.Primitives, key: seq<byte>, contentType: ContentType, transferId: u32,
                         payload: seq<byte>, nonce: seq<byte>)
    requires CE.Lawful(p) && |nonce| == CE.NONCE_SIZE
    requires key != [] && p.seal(key, nonce, payload).Some? && payload != []
    ensures var f := Frame(contentType, transferId, 0, 1, CE.EncryptWithKey(p, key, payload, Some(nonce)));
      && Decodable(f) && ChunkFromData(f).totalChunks == 1
      && ChunkFromData(f).contentType == contentType && ChunkFromData(f).transferId == transferId
      && CE.DecryptWithKey(p, key, ChunkFromData(f).payload) == payload
  {
    var sealed := CE.EncryptWithKey(p, key, payload, Some(nonce));
    FrameDecodes(contentType, transferId, 0, 1, sealed);
    CE.EncryptDecryptRoundTrip(p, key, payload, nonce);
  }

  /**
   * One session sends a short text over TCP ("Hello, world!" is 13 bytes) and
   * the same session, holding the same key, receives the frame: as written the
   * message is lost.
   */
  method TcpShortTextAsWritten(session: ProtocolSession, text: seq<byte>, nonce: seq<byte>, now: u64)
    returns (message: Option<Message>)
    requires session.Valid() && |nonce| == CE.NONCE_SIZE
    requires |text| < CE.MIN_ENVELOPE_SIZE
    modifies session
    ensures message == None
  {
    var chunks := session.EncodeTextMessage(text, TCP, Some(nonce));
    if chunks == [] {
      return None;
    }
    PlaintextFrameRejected(session.cipher.prims, session.cipher.symmetricKey, PlainText,
                           old(session.nextTransferId), text);
    message := session.DecodeData(chunks[0], now);
  }

  /** The same exchange with the corrected encoder delivers the message. */
  method TcpMessageCorrected(session: ProtocolSession, contentType: ContentType, payload: seq<byte>,
                             nonce: seq<byte>, now: u64) returns (message: Option<Message>)
    requires session.Valid() && |nonce| == CE.NONCE_SIZE
    requires CE.Lawful(session.cipher.prims) && session.cipher.symmetricKey != []
    requires session.cipher.prims.seal(session.cipher.symmetricKey, nonce, payload).Some?
    requires payload != []
    modifies session
    ensures message == Some(Message(contentType, old(session.nextTransferId), payload))
  {
    var chunks := session.EncodeMessageCorrected(contentType, payload, TCP, Some(nonce));
    SealedFrameOpens(session.cipher.prims, session.cipher.symmetricKey, contentType,
                     old(session.nextTransferId), payload, nonce);
    message := session.DecodeData(chunks[0], now);
  }
}

/**
 * The message framer and reassembler (P2Pclipbord2/src/MessageProtocol.cpp).
 *
 * The source keeps its state in static members: the reassembly table
 * `partialMessages`, the parallel `partialMessageTimestamps`, and the
 * `nextTransferId` counter. Here they are the fields of one `ProtocolSession`
 * object, which also holds the key slot it encrypts and decrypts with. The clock
 * and the random nonce are parameters.
 *
 * Facts of the source this model keeps:
 *  - `encodeMessage` encrypts the payload but only tests the result for
 *    emptiness; the chunks it emits carry the plaintext payload, while
 *    `decodeData` decrypts what it receives;
 *  - a multi-chunk transfer completes when the number of stored chunks equals
 *    this chunk's totalChunks, so duplicates count and totalChunks == 0 never
 *    completes;
 *  - when decryption of a complete transfer fails, the (now sorted) entry
 *    stays in the table.
 */
module MessageProtocol {
  import opened Common
  import opened ByteUtils
  import opened WireFormat
  import opened Chunking
  import opened Reassembly
  import CE = ClipboardEncryption

  const BLE_MAX_CHUNK_SIZE: nat := 512

  datatype TransportType = BLE | TCP

  /** MessageProtocol::Message, the decoder's result. */
  datatype Message = Message(contentType: ContentType, transferId: u32, payload: seq<byte>)

  /** Message::getStringPayload: the payload bytes as characters, for text and HTML only. */
  function GetStringPayload(m: Message): (s: string)
    ensures m.contentType != PlainText && m.contentType != HtmlContent ==> s == ""
    ensures m.contentType == PlainText || m.contentType == HtmlContent ==>
      |s| == |m.payload| && forall i :: 0 <= i < |s| ==> s[i] as int == m.payload[i]
  {
    if m.contentType != PlainText && m.contentType != HtmlContent then ""
    else seq(|m.payload|, i requires 0 <= i < |m.payload| => m.payload[i] as char)
  }

  /**
   * The frames the BLE branch of `encodeMessage` emits for the given pieces:
   * one per piece (the count taken modulo 2^32), frame i reading back as chunk
   * i of that count, carrying piece i.
   */
  function BleFrames(contentType: ContentType, transferId: u32, pieces: seq<seq<byte>>): (frames: seq<seq<byte>>)
    ensures |frames| == TruncateU32(|pieces|)
    ensures forall i :: 0 <= i < |frames| ==>
      && Decodable(frames[i])
      && ChunkFromData(frames[i]) == MessageChunk(contentType, transferId, i, |frames|, pieces[i])
  {
    var total := TruncateU32(|pieces|);
    FramesOfPiecesDecode(contentType, transferId, total, pieces);
    seq(total, i requires 0 <= i < total => Frame(contentType, transferId, i, total, pieces[i]))
  }

  /** The checks `decodeData` makes before it looks at totalChunks: a full header and a type byte in 1..6. */
  predicate Decodable(data: seq<byte>): (ok: bool)
    ensures ok <==> |data| >= HEADER_SIZE && 1 <= data[6] <= 6
  {
    |data| >= HEADER_SIZE && ContentTypeOfByte(data[6]).Some?
  }

  /**
   * The chunk `decodeData` builds from a decodable buffer: each field is the
   * value whose big-endian bytes sit at its offset, and the payload is
   * everything after byte 19.
   */
  function ChunkFromData(data: seq<byte>): (c: MessageChunk)
    requires Decodable(data)
    ensures ContentTypeByte(c.contentType) == data[6]
    ensures Uint32ToBytes(c.transferId) == data[7..11]
    ensures Uint32ToBytes(c.chunkIndex) == data[11..15]
    ensures Uint32ToBytes(c.totalChunks) == data[15..19]
    ensures c.payload == data[HEADER_SIZE..]
  {
    var h := ParseHeader(data);
    Uint32Field(data, 7);
    Uint32Field(data, 11);
    Uint32Field(data, 15);
    MessageChunk(ContentTypeOfByte(data[6]).value, h.transferId, h.chunkIndex, h.totalChunks, data[HEADER_SIZE..])
  }

  /** A frame reads back as the chunk it was built from. */
  lemma FrameDecodes(contentType: ContentType, transferId: u32, index: u32, total: u32, piece: seq<byte>)
    ensures Decodable(Frame(contentType, transferId, index, total, piece))
    ensures ChunkFromData(Frame(contentType, transferId, index, total, piece))
            == MessageChunk(contentType, transferId, index, total, piece)
  {
    FrameFields(contentType, transferId, index, total, piece);
  }

  /** Every frame numbered below `total` reads back as its chunk. */
  lemma FramesOfPiecesDecode(contentType: ContentType, transferId: u32, total: u32, pieces: seq<seq<byte>>)
    requires total as int <= |pieces|
    ensures forall i :: 0 <= i < total ==>
      && Decodable(Frame(contentType, transferId, i, total, pieces[i]))
      && ChunkFromData(Frame(contentType, transferId, i, total, pieces[i]))
         == MessageChunk(contentType, transferId, i, total, pieces[i])
  {
    forall i | 0 <= i < total
      ensures Decodable(Frame(contentType, transferId, i, total, pieces[i]))
      ensures ChunkFromData(Frame(contentType, transferId, i, total, pieces[i]))
              == MessageChunk(contentType, transferId, i, total, pieces[i])
    {
      FrameDecodes(contentType, transferId, i, total, pieces[i]);
    }
  }

  /** `currentTime - timestamp > olderThan` in unsigned 64-bit arithmetic. */
  predicate Expired(timestamp: u64, now: u64, olderThan: u64)
  {
    (now - timestamp) % U64_MODULUS > olderThan
  }

  /** The transfers a cleanup at time `now` drops. */
  function ExpiredIds(timestamps: map<u32, u64>, now: u64, olderThan: u64): (ids: set<u32>)
    ensures forall id :: id in ids <==> id in timestamps && Expired(timestamps[id], now, olderThan)
  {
    set id | id in timestamps && Expired(timestamps[id], now, olderThan)
  }

  /** Every chunk is part of transfer `id`, a transfer that does not claim exactly one chunk. */
  predicate BelongsTo(chunks: seq<MessageChunk>, id: u32)
  {
    forall k :: 0 <= k < |chunks| ==> chunks[k].transferId == id && chunks[k].totalChunks != 1
  }

  /** Sorting keeps the chunks, so it keeps BelongsTo and non-emptiness. */
  lemma SortKeepsMembership(chunks: seq<MessageChunk>, id: u32)
    requires BelongsTo(chunks, id)
    ensures BelongsTo(SortByIndex(chunks), id)
    ensures |SortByIndex(chunks)| == |chunks|
  {
    var sorted := SortByIndex(chunks);
    assert |multiset(sorted)| == |multiset(chunks)|;
    forall k | 0 <= k < |sorted|
      ensures sorted[k].transferId == id && sorted[k].totalChunks != 1
    {
      assert sorted[k] in multiset(chunks);
    }
  }

  /** The loop of encodeMessage's BLE branch: one frame per piece, numbered from 0. */
  method FramePieces(contentType: ContentType, transferId: u32, pieces: seq<seq<byte>>) returns (chunks: seq<seq<byte>>)
    ensures chunks == BleFrames(contentType, transferId, pieces)
  {
    var totalChunks := TruncateU32(|pieces|);
    chunks := [];
    var index: u32 := 0;
    while index < totalChunks
      invariant index <= totalChunks
      invariant |chunks| == index as int
      invariant forall i :: 0 <= i < index ==> chunks[i] == Frame(contentType, transferId, i, totalChunks, pieces[i])
    {
      chunks := chunks + [Frame(contentType, transferId, index, totalChunks, pieces[index])];
      index := index + 1;
    }
  }

  /** The loop of decodeData that appends the sorted chunks' payloads. */
  method JoinChunks(sorted: seq<MessageChunk>) returns (fullPayload: seq<byte>)
    ensures fullPayload == JoinPayloads(sorted)
  {
    fullPayload := [];
    var k := 0;
    while k < |sorted|
      invariant k <= |sorted|
      invariant fullPayload == JoinPayloads(sorted[..k])
    {
      assert sorted[..k + 1][..k] == sorted[..k];
      fullPayload := fullPayload + sorted[k].payload;
      k := k + 1;
    }
    assert sorted[..k] == sorted;
  }

  class ProtocolSession {
    const cipher: CE.KeySlot
    var partialMessages: map<u32, seq<MessageChunk>>
    var partialMessageTimestamps: map<u32, u64>
    var nextTransferId: u32

    /**
     * The table invariant: both maps have the same keys, every stored list is
     * non-empty, and every stored chunk belongs to its key and is part of a
     * transfer that does not claim to have exactly one chunk.
     */
    ghost predicate Valid()
      reads this
    {
      && partialMessages.Keys == partialMessageTimestamps.Keys
      && (forall id :: id in partialMessages ==> partialMessages[id] != [] && BelongsTo(partialMessages[id], id))
    }

    /** The static initialisation: empty tables, counter at 0. */
    constructor (cipher: CE.KeySlot)
      ensures Valid() && this.cipher == cipher
      ensures partialMessages == map[] && partialMessageTimestamps == map[] && nextTransferId == 0
    {
      this.cipher := cipher;
      partialMessages := map[];
      partialMessageTimestamps := map[];
      nextTransferId := 0;
    }

    /** What ClipboardEncryption::decrypt returns for `data` with the current key. */
    function Decrypt(data: seq<byte>): seq<byte>
      reads cipher
    {
      CE.DecryptWithKey(cipher.prims, cipher.symmetricKey, data)
    }

    /** The chunks stored under `id`, or none. */
    function Stored(id: u32): seq<MessageChunk>
      reads this
    {
      if id in partialMessages then partialMessages[id] else []
    }

    /** MessageProtocol::generateTransferId: hand out the counter, then increment it (wrapping). */
    method GenerateTransferId() returns (id: u32)
      modifies this`nextTransferId
      ensures id == old(nextTransferId)
      ensures nextTransferId == TruncateU32(id + 1)
    {
      id := nextTransferId;
      nextTransferId := TruncateU32(nextTransferId + 1);
    }

    /**
     * MessageProtocol::encodeMessage. One transfer id is consumed whatever
     * happens. If encryption fails the result is empty; otherwise TCP gives one
     * frame and BLE one frame per 512-byte piece, each carrying the PLAINTEXT
     * payload, exactly as the source does.
     */
    method EncodeMessage(contentType: ContentType, payload: seq<byte>, transport: TransportType,
                         nonce: Option<seq<byte>>) returns (chunks: seq<seq<byte>>)
      requires Valid()
      requires nonce.Some? ==> |nonce.value| == CE.NONCE_SIZE
      requires transport == BLE ==> Progresses(payload, 0, BLE_MAX_CHUNK_SIZE)
      modifies this`nextTransferId
      ensures Valid()
      ensures nextTransferId == TruncateU32(old(nextTransferId) + 1)
      ensures CE.EncryptWithKey(cipher.prims, cipher.symmetricKey, payload, nonce) == [] ==> chunks == []
      ensures CE.EncryptWithKey(cipher.prims, cipher.symmetricKey, payload, nonce) != [] && transport == TCP ==>
        chunks == [Frame(contentType, old(nextTransferId), 0, 1, payload)]
      ensures CE.EncryptWithKey(cipher.prims, cipher.symmetricKey, payload, nonce) != [] && transport == BLE ==>
        chunks == BleFrames(contentType, old(nextTransferId), Pieces(payload, 0, BLE_MAX_CHUNK_SIZE))
    {
      var transferId := GenerateTransferId();
      var encryptedPayload := cipher.Encrypt(payload, nonce);
      if encryptedPayload == [] {
        return [];
      }
      if transport == TCP {
        return [Frame(contentType, transferId, 0, 1, payload)];
      }
      var pieces := ChunkedData(payload, BLE_MAX_CHUNK_SIZE);
      chunks := FramePieces(contentType, transferId, pieces);
    }

    /** MessageProtocol::encodeTextMessage: the text's bytes, encoded as a PLAIN_TEXT message. */
    method EncodeTextMessage(text: seq<byte>, transport: TransportType, nonce: Option<seq<byte>>)
      returns (chunks: seq<seq<byte>>)
      requires Valid()
      requires nonce.Some? ==> |nonce.value| == CE.NONCE_SIZE
      requires transport == BLE ==> Progresses(text, 0, BLE_MAX_CHUNK_SIZE)
      modifies this`nextTransferId
      ensures Valid()
      ensures nextTransferId == TruncateU32(old(nextTransferId) + 1)
      ensures CE.EncryptWithKey(cipher.prims, cipher.symmetricKey, text, nonce) == [] ==> chunks == []
      ensures CE.EncryptWithKey(cipher.prims, cipher.symmetricKey, text, nonce) != [] && transport == TCP ==>
        chunks == [Frame(PlainText, old(nextTransferId), 0, 1, text)]
      ensures CE.EncryptWithKey(cipher.prims, cipher.symmetricKey, text, nonce) != [] && transport == BLE ==>
        chunks == BleFrames(PlainText, old(nextTransferId), Pieces(text, 0, BLE_MAX_CHUNK_SIZE))
    {
      chunks := EncodeMessage(PlainText, text, transport, nonce);
    }

    /**
     * `encodeMessage` as its comments and its `encryptedPayload` variable
     * intend: the frames carry the sealed envelope, which is what `decodeData`
     * decrypts on the other side.
     */
    method EncodeMessageCorrected(contentType: ContentType, payload: seq<byte>, transport: TransportType,
                                  nonce: Option<seq<byte>>) returns (chunks: seq<seq<byte>>)
      requires Valid()
      requires nonce.Some? ==> |nonce.value| == CE.NONCE_SIZE
      requires transport == BLE ==>
        Progresses(CE.EncryptWithKey(cipher.prims, cipher.symmetricKey, payload, nonce), 0, BLE_MAX_CHUNK_SIZE)
      modifies this`nextTransferId
      ensures Valid()
      ensures nextTransferId == TruncateU32(old(nextTransferId) + 1)
      ensures var sealed := CE.EncryptWithKey(cipher.prims, cipher.symmetricKey, payload, nonce);
        && (sealed == [] ==> chunks == [])
        && (sealed != [] && transport == TCP ==> chunks == [Frame(contentType, old(nextTransferId), 0, 1, sealed)])
        && (sealed != [] && transport == BLE ==>
              chunks == BleFrames(contentType, old(nextTransferId), Pieces(sealed, 0, BLE_MAX_CHUNK_SIZE)))
    {
      var transferId := GenerateTransferId();
      var encryptedPayload := cipher.Encrypt(payload, nonce);
      if encryptedPayload == [] {
        return [];
      }
      if transport == TCP {
        return [Frame(contentType, transferId, 0, 1, encryptedPayload)];
      }
      var pieces := ChunkedData(encryptedPayload, BLE_MAX_CHUNK_SIZE);
      chunks := FramePieces(contentType, transferId, pieces);
    }

    /**
     * MessageProtocol::decodeData, at time `now`.
     *  - A buffer shorter than the header or with a type byte outside 1..6 is
     *    refused and nothing changes.
     *  - totalChunks == 1: the payload is decrypted at once, the table is not
     *    touched, and a message comes back only if decryption gives bytes.
     *  - Any other totalChunks, 0 included: the chunk is appended under its
     *    transferId and the timestamp set to `now`; when the stored count equals
     *    this chunk's totalChunks the list is sorted in place by chunkIndex, the
     *    payloads joined and decrypted; on success the entry is erased from both
     *    maps, on failure it is kept (sorted).
     */
    method DecodeData(data: seq<byte>, now: u64) returns (message: Option<Message>)
      requires Valid()
      modifies this`partialMessages, this`partialMessageTimestamps
      ensures Valid()
      ensures message.Some? ==> message.value.payload != []
      ensures !Decodable(data) ==>
        && message == None
        && partialMessages == old(partialMessages)
        && partialMessageTimestamps == old(partialMessageTimestamps)
      ensures Decodable(data) && ChunkFromData(data).totalChunks == 1 ==>
        var c := ChunkFromData(data);
        var plaintext := Decrypt(c.payload);
        && partialMessages == old(partialMessages)
        && partialMessageTimestamps == old(partialMessageTimestamps)
        && message == (if plaintext == [] then None else Some(Message(c.contentType, c.transferId, plaintext)))
      ensures Decodable(data) && ChunkFromData(data).totalChunks != 1 ==>
        var c := ChunkFromData(data);
        var stored := old(Stored(c.transferId)) + [c];
        if |stored| != c.totalChunks then
          && message == None
          && partialMessages == old(partialMessages)[c.transferId := stored]
          && partialMessageTimestamps == old(partialMessageTimestamps)[c.transferId := now]
        else
          var sorted := SortByIndex(stored);
          var plaintext := Decrypt(JoinPayloads(sorted));
          if plaintext == [] then
            && message == None
            && partialMessages == old(partialMessages)[c.transferId := sorted]
            && partialMessageTimestamps == old(partialMessageTimestamps)[c.transferId := now]
          else
            && message == Some(Message(c.contentType, c.transferId, plaintext))
            && partialMessages == old(partialMessages) - {c.transferId}
            && partialMessageTimestamps == old(partialMessageTimestamps) - {c.transferId}
    {
      if |data| < HEADER_SIZE {
        return None;
      }
      var version := BytesToUint16(data, 4);
      var typeRaw := data[6];
      var transferId := BytesToUint32(data, 7);
      var chunkIndex := BytesToUint32(data, 11);
      var totalChunks := BytesToUint32(data, 15);
      if typeRaw < 1 || typeRaw > 6 {
        return None;
      }
      var contentType := ContentTypeOfByte(typeRaw).value;
      var payload := data[HEADER_SIZE..];

      if totalChunks == 1 {
        var decryptedPayload := cipher.Decrypt(payload);
        if decryptedPayload == [] {
          return None;
        }
        return Some(Message(contentType, transferId, decryptedPayload));
      }

      // Both branches of the source's `version == 1` test take the bytes after offset 19.
      var chunk := MessageChunk(contentType, transferId, chunkIndex, totalChunks, data[HEADER_SIZE..]);
      assert chunk == ChunkFromData(data);
      message := AcceptChunk(chunk, now);
    }

    /** The multi-chunk branch of decodeData for a chunk already read from its frame. */
    method AcceptChunk(c: MessageChunk, now: u64) returns (message: Option<Message>)
      requires Valid() && c.totalChunks != 1
      modifies this`partialMessages, this`partialMessageTimestamps
      ensures Valid()
      ensures message.Some? ==> message.value.payload != []
      ensures
        var stored := old(Stored(c.transferId)) + [c];
        if |stored| != c.totalChunks then
          && message == None
          && partialMessages == old(partialMessages)[c.transferId := stored]
          && partialMessageTimestamps == old(partialMessageTimestamps)[c.transferId := now]
        else
          var sorted := SortByIndex(stored);
          var plaintext := Decrypt(JoinPayloads(sorted));
          if plaintext == [] then
            && message == None
            && partialMessages == old(partialMessages)[c.transferId := sorted]
            && partialMessageTimestamps == old(partialMessageTimestamps)[c.transferId := now]
          else
            && message == Some(Message(c.contentType, c.transferId, plaintext))
            && partialMessages == old(partialMessages) - {c.transferId}
            && partialMessageTimestamps == old(partialMessageTimestamps) - {c.transferId}
    {
      StoreChunk(c, now);
      if |partialMessages[c.transferId]| == c.totalChunks {
        ghost var stored := partialMessages;
        ghost var stamps := partialMessageTimestamps;
        ghost var sorted := SortByIndex(stored[c.transferId]);
        assert stored[c.transferId := sorted] == old(partialMessages)[c.transferId := sorted];
        assert stored - {c.transferId} == old(partialMessages) - {c.transferId};
        assert stamps - {c.transferId} == old(partialMessageTimestamps) - {c.transferId};
        message := CompleteTransfer(c.transferId, c.contentType);
      } else {
        message := None;
      }
    }

    /** The append half of decodeData: the chunk joins its transfer's list, stamped with `now`. */
    method StoreChunk(chunk: MessageChunk, now: u64)
      requires Valid() && chunk.totalChunks != 1
      modifies this`partialMessages, this`partialMessageTimestamps
      ensures Valid()
      ensures partialMessages == old(partialMessages)[chunk.transferId := old(Stored(chunk.transferId)) + [chunk]]
      ensures partialMessageTimestamps == old(partialMessageTimestamps)[chunk.transferId := now]
    {
      partialMessageTimestamps := partialMessageTimestamps[chunk.transferId := now];
      partialMessages := partialMessages[chunk.transferId := Stored(chunk.transferId) + [chunk]];
    }

    /**
     * The completion half of decodeData: the list stored under `transferId` is
     * sorted in place, the payloads joined and decrypted; on success the
     * transfer leaves both maps, on failure it stays, sorted.
     */
    method CompleteTransfer(transferId: u32, contentType: ContentType) returns (message: Option<Message>)
      requires Valid() && transferId in partialMessages
      modifies this`partialMessages, this`partialMessageTimestamps
      ensures Valid()
      ensures
        var sorted := SortByIndex(old(partialMessages)[transferId]);
        var plaintext := Decrypt(JoinPayloads(sorted));
        if plaintext == [] then
          && message == None
          && partialMessages == old(partialMessages)[transferId := sorted]
          && partialMessageTimestamps == old(partialMessageTimestamps)
        else
          && message == Some(Message(contentType, transferId, plaintext))
          && partialMessages == old(partialMessages) - {transferId}
          && partialMessageTimestamps == old(partialMessageTimestamps) - {transferId}
    {
      var sorted := SortByIndex(partialMessages[transferId]);
      SortKeepsMembership(partialMessages[transferId], transferId);
      partialMessages := partialMessages[transferId := sorted];
      var fullPayload := JoinChunks(sorted);
      var decryptedPayload := cipher.Decrypt(fullPayload);
      if decryptedPayload == [] {
        return None;
      }
      partialMessages := partialMessages - {transferId};
      partialMessageTimestamps := partialMessageTimestamps - {transferId};
      return Some(Message(contentType, transferId, decryptedPayload));
    }

    /**
     * MessageProtocol::cleanupPartialMessages at time `now`: exactly the
     * transfers whose timestamp is more than `olderThan` milliseconds old
     * (unsigned subtraction) are dropped from both maps.
     */
    method CleanupPartialMessages(olderThan: u64, now: u64)
      requires Valid()
      modifies this`partialMessages, this`partialMessageTimestamps
      ensures Valid()
      ensures partialMessages == old(partialMessages) - ExpiredIds(old(partialMessageTimestamps), now, olderThan)
      ensures partialMessageTimestamps == old(partialMessageTimestamps) - ExpiredIds(old(partialMessageTimestamps), now, olderThan)
    {
      // Collect the ids to remove.
      var idsToRemove: seq<u32> := [];
      var unvisited := partialMessageTimestamps.Keys;
      while unvisited != {}
        invariant partialMessages == old(partialMessages)
        invariant partialMessageTimestamps == old(partialMessageTimestamps)
        invariant unvisited <= partialMessageTimestamps.Keys
        invariant forall id :: id in idsToRemove <==>
          id in partialMessageTimestamps && id !in unvisited && Expired(partialMessageTimestamps[id], now, olderThan)
        decreases unvisited
      {
        var id :| id in unvisited;
        if Expired(partialMessageTimestamps[id], now, olderThan) {
          idsToRemove := idsToRemove + [id];
        }
        unvisited := unvisited - {id};
      }
      ghost var expired := ExpiredIds(partialMessageTimestamps, now, olderThan);
      assert forall id :: id in idsToRemove <==> id in expired;

      // Remove them from both maps.
      ghost var removed: set<u32> := {};
      var k := 0;
      while k < |idsToRemove|
        invariant k <= |idsToRemove|
        invariant forall id :: id in removed <==> id in idsToRemove[..k]
        invariant partialMessages == old(partialMessages) - removed
        invariant partialMessageTimestamps == old(partialMessageTimestamps) - removed
      {
        assert idsToRemove[..k + 1] == idsToRemove[..k] + [idsToRemove[k]];
        partialMessages := partialMessages - {idsToRemove[k]};
        partialMessageTimestamps := partialMessageTimestamps - {idsToRemove[k]};
        removed := removed + {idsToRemove[k]};
        k := k + 1;
      }
      assert idsToRemove[..k] == idsToRemove;
      assert removed == expired;
    }
  }
}

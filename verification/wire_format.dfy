/**
 * The chunk header of the clipboard protocol (P2Pclipbord2/src/MessageProtocol.h
 * and the header-writing and header-reading parts of MessageProtocol.cpp):
 *
 *   offset 0  u32 totalLength   (header + payload)
 *   offset 4  u16 protocolVersion (1)
 *   offset 6  u8  contentType   (1..6)
 *   offset 7  u32 transferId
 *   offset 11 u32 chunkIndex
 *   offset 15 u32 totalChunks
 *   offset 19 payload
 *
 * all integers big-endian.
 */
module WireFormat {
  import opened Common
  import opened ByteUtils

  const HEADER_SIZE: nat := 19
  const PROTOCOL_VERSION: u16 := 1

  /** MessageContentType, with its wire values 1..6. */
  datatype ContentType = PlainText | RtfText | PngImage | JpegImage | PdfDocument | HtmlContent

  /** static_cast<uint8_t>(contentType). */
  function ContentTypeByte(t: ContentType): (b: byte)
    ensures 1 <= b <= 6
  {
    match t
    case PlainText => 1
    case RtfText => 2
    case PngImage => 3
    case JpegImage => 4
    case PdfDocument => 5
    case HtmlContent => 6
  }

  /** The decoder's check `typeRaw < 1 || typeRaw > 6` and the cast back to the enum. */
  function ContentTypeOfByte(b: byte): (t: Option<ContentType>)
    ensures t.Some? <==> 1 <= b <= 6
    ensures t.Some? ==> ContentTypeByte(t.value) == b
  {
    if b == 1 then Some(PlainText)
    else if b == 2 then Some(RtfText)
    else if b == 3 then Some(PngImage)
    else if b == 4 then Some(JpegImage)
    else if b == 5 then Some(PdfDocument)
    else if b == 6 then Some(HtmlContent)
    else None
  }

  lemma ContentTypeRoundTrip(t: ContentType)
    ensures ContentTypeOfByte(ContentTypeByte(t)) == Some(t)
  {
  }

  datatype Header = Header(totalLength: u32, version: u16, typeRaw: byte,
                           transferId: u32, chunkIndex: u32, totalChunks: u32)

  /** The header bytes `encodeMessage` appends, field by field. */
  function SerializeHeader(h: Header): (r: seq<byte>)
    ensures |r| == HEADER_SIZE
  {
    Uint32ToBytes(h.totalLength) + Uint16ToBytes(h.version) + [h.typeRaw]
      + Uint32ToBytes(h.transferId) + Uint32ToBytes(h.chunkIndex) + Uint32ToBytes(h.totalChunks)
  }

  /**
   * The header fields `decodeData` reads with the convenience overloads; the
   * parse loses nothing, since serialising it gives the first 19 bytes back.
   */
  function ParseHeader(data: seq<byte>): (h: Header)
    requires |data| >= HEADER_SIZE
    ensures SerializeHeader(h) == data[..HEADER_SIZE]
  {
    Uint32Field(data, 0);
    Uint32Field(data, 7);
    Uint32Field(data, 11);
    Uint32Field(data, 15);
    Uint16Field(data, 4);
    assert data[..HEADER_SIZE] == data[0..4] + data[4..6] + [data[6]] + data[7..11] + data[11..15] + data[15..19];
    Header(BytesToUint32(data, 0), BytesToUint16(data, 4), data[6],
           BytesToUint32(data, 7), BytesToUint32(data, 11), BytesToUint32(data, 15))
  }

  /** Parsing a serialised header gives every field back and leaves the payload after byte 19. */
  lemma ParseSerialized(h: Header, payload: seq<byte>)
    ensures ParseHeader(SerializeHeader(h) + payload) == h
    ensures (SerializeHeader(h) + payload)[HEADER_SIZE..] == payload
  {
    var d := SerializeHeader(h) + payload;
    assert d[0..4] == Uint32ToBytes(h.totalLength);
    assert d[4..6] == Uint16ToBytes(h.version);
    assert d[7..11] == Uint32ToBytes(h.transferId);
    assert d[11..15] == Uint32ToBytes(h.chunkIndex);
    assert d[15..19] == Uint32ToBytes(h.totalChunks);
    assert d[6] == h.typeRaw;
  }

  lemma Uint32Field(data: seq<byte>, offset: nat)
    requires offset + 4 <= |data|
    ensures Uint32ToBytes(BytesToUint32(data, offset)) == data[offset..offset + 4]
  {
    var s := data[offset..offset + 4];
    assert s[0..4] == s;
    Uint32RoundTrip(0, s);
  }

  lemma Uint16Field(data: seq<byte>, offset: nat)
    requires offset + 2 <= |data|
    ensures Uint16ToBytes(BytesToUint16(data, offset)) == data[offset..offset + 2]
  {
    var s := data[offset..offset + 2];
    assert s[0..2] == s;
    Uint16RoundTrip(0, s);
  }

  /**
   * One framed chunk as `encodeMessage` builds it: totalLength is
   * HEADER_SIZE + static_cast<uint32_t>(piece.size()) in 32-bit arithmetic.
   */
  function Frame(contentType: ContentType, transferId: u32, index: u32, total: u32, piece: seq<byte>): (r: seq<byte>)
    ensures |r| == HEADER_SIZE + |piece|
    ensures r[HEADER_SIZE..] == piece
  {
    SerializeHeader(Header(TruncateU32(HEADER_SIZE + |piece|), PROTOCOL_VERSION, ContentTypeByte(contentType),
                           transferId, index, total)) + piece
  }

  /** Every field of a frame reads back; its first four bytes give its own length when that fits in 32 bits. */
  lemma FrameFields(contentType: ContentType, transferId: u32, index: u32, total: u32, piece: seq<byte>)
    ensures var r := Frame(contentType, transferId, index, total, piece);
      && ParseHeader(r) == Header(TruncateU32(HEADER_SIZE + |piece|), PROTOCOL_VERSION, ContentTypeByte(contentType),
                                  transferId, index, total)
      && ContentTypeOfByte(r[6]) == Some(contentType)
      && (|r| < U32_MODULUS ==> BytesToUint32(r, 0) == |r|)
  {
    var h := Header(TruncateU32(HEADER_SIZE + |piece|), PROTOCOL_VERSION, ContentTypeByte(contentType),
                    transferId, index, total);
    ParseSerialized(h, piece);
  }
}

/**
 * MessageProtocol::chunkedData (P2Pclipbord2/src/MessageProtocol.cpp): split a
 * byte string into pieces of at most `chunkSize` bytes, moving each cut back
 * so that no piece after the first starts with a UTF-8 continuation byte.
 *
 * The source's back-off loop can reach the start of the current piece, in
 * which case the piece is empty and the outer loop never advances. The
 * predicate `Progresses` names exactly the inputs on which the loop ends;
 * `ChunkedData` requires it.
 */
module Chunking {
  import opened Common

  /** `(b & 0xC0) == 0x80`: a UTF-8 continuation byte 10xxxxxx. */
  predicate IsContinuation(b: byte)
  {
    0x80 <= b < 0xC0
  }

  /**
   * The inner `while (endPos > position && (data[endPos] & 0xC0) == 0x80) endPos--;`
   * The result is the largest cut in [position, endPos] that is either
   * `position` itself or sits on a byte that is not a continuation byte.
   */
  function BackOff(data: seq<byte>, position: nat, endPos: nat): (cut: nat)
    requires position <= endPos < |data|
    ensures position <= cut <= endPos
    ensures cut > position ==> !IsContinuation(data[cut])
    ensures forall j :: cut < j <= endPos ==> IsContinuation(data[j])
    decreases endPos
  {
    if endPos > position && IsContinuation(data[endPos]) then BackOff(data, position, endPos - 1) else endPos
  }

  /** Where the piece starting at `position` ends: min(position + chunkSize, |data|), backed off unless at the end. */
  function PieceEnd(data: seq<byte>, position: nat, chunkSize: nat): (end: nat)
    requires position < |data|
    ensures position <= end <= |data| && end - position <= chunkSize
    ensures end < |data| ==> end == position || !IsContinuation(data[end])
    ensures position + chunkSize >= |data| ==> end == |data|
  {
    var endPos := if position + chunkSize < |data| then position + chunkSize else |data|;
    if endPos < |data| then BackOff(data, position, endPos) else endPos
  }

  /** The splitting loop, started at `position`, always advances and so ends. */
  predicate Progresses(data: seq<byte>, position: nat, chunkSize: nat)
    requires position <= |data|
    decreases |data| - position
  {
    position == |data| ||
    (PieceEnd(data, position, chunkSize) > position && Progresses(data, PieceEnd(data, position, chunkSize), chunkSize))
  }

  /** The pieces the loop produces from `position` on (the reference for `ChunkedData`). */
  function Pieces(data: seq<byte>, position: nat, chunkSize: nat): (pieces: seq<seq<byte>>)
    requires position <= |data| && Progresses(data, position, chunkSize)
    decreases |data| - position
  {
    if position == |data| then []
    else
      var end := PieceEnd(data, position, chunkSize);
      [data[position..end]] + Pieces(data, end, chunkSize)
  }

  /** MessageProtocol::chunkedData, on the inputs for which it terminates. */
  method ChunkedData(data: seq<byte>, chunkSize: nat) returns (chunks: seq<seq<byte>>)
    requires Progresses(data, 0, chunkSize)
    ensures chunks == Pieces(data, 0, chunkSize)
  {
    chunks := [];
    var position: nat := 0;
    while position < |data|
      invariant position <= |data| && Progresses(data, position, chunkSize)
      invariant chunks + Pieces(data, position, chunkSize) == Pieces(data, 0, chunkSize)
      decreases |data| - position
    {
      var endPos := if position + chunkSize < |data| then position + chunkSize else |data|;
      if endPos < |data| {
        ghost var target := BackOff(data, position, endPos);
        while endPos > position && IsContinuation(data[endPos])
          invariant position <= endPos < |data|
          invariant BackOff(data, position, endPos) == target
        {
          endPos := endPos - 1;
        }
      }
      assert endPos == PieceEnd(data, position, chunkSize);
      chunks := chunks + [data[position..endPos]];
      position := endPos;
    }
  }

  // ---------------------------------------------------------------------------
  // What the pieces satisfy.

  /** The pieces concatenate back to the input. */
  lemma {:induction false} PiecesConcat(data: seq<byte>, position: nat, chunkSize: nat)
    requires position <= |data| && Progresses(data, position, chunkSize)
    ensures Flatten(Pieces(data, position, chunkSize)) == data[position..]
    decreases |data| - position
  {
    if position < |data| {
      var end := PieceEnd(data, position, chunkSize);
      PiecesConcat(data, end, chunkSize);
      FlattenConcat([data[position..end]], Pieces(data, end, chunkSize));
      assert Flatten([data[position..end]]) == data[position..end] by {
        FlattenAppend([], data[position..end]);
      }
      assert data[position..] == data[position..end] + data[end..];
    }
  }

  /** There are at most as many pieces as bytes, each non-empty and at most `chunkSize` bytes. */
  lemma {:induction false} PiecesBounded(data: seq<byte>, position: nat, chunkSize: nat)
    requires position <= |data| && Progresses(data, position, chunkSize)
    ensures var pieces := Pieces(data, position, chunkSize);
      && |pieces| <= |data| - position
      && (forall k :: 0 <= k < |pieces| ==> 0 < |pieces[k]| <= chunkSize)
    decreases |data| - position
  {
    if position < |data| {
      var end := PieceEnd(data, position, chunkSize);
      PiecesBounded(data, end, chunkSize);
      var rest := Pieces(data, end, chunkSize);
      var pieces := Pieces(data, position, chunkSize);
      assert pieces == [data[position..end]] + rest;
      assert forall k :: 0 < k < |pieces| ==> pieces[k] == rest[k - 1];
    }
  }

  /** A non-empty piece whose first byte is not a continuation byte. */
  predicate StartsOnLeadByte(piece: seq<byte>)
  {
    |piece| > 0 && !IsContinuation(piece[0])
  }

  /** No piece after the first starts with a continuation byte. */
  lemma {:induction false} PiecesAligned(data: seq<byte>, position: nat, chunkSize: nat)
    requires position <= |data| && Progresses(data, position, chunkSize)
    ensures forall k :: 0 < k < |Pieces(data, position, chunkSize)| ==> StartsOnLeadByte(Pieces(data, position, chunkSize)[k])
    decreases |data| - position
  {
    PiecesBounded(data, position, chunkSize);
    if position < |data| {
      var end := PieceEnd(data, position, chunkSize);
      PiecesAligned(data, end, chunkSize);
      var rest := Pieces(data, end, chunkSize);
      if rest != [] {
        assert rest[0] == data[end..PieceEnd(data, end, chunkSize)];
        assert position < end < |data| && rest[0][0] == data[end];
      }
      var pieces := Pieces(data, position, chunkSize);
      assert pieces == [data[position..end]] + rest;
      forall k | 0 < k < |pieces|
        ensures StartsOnLeadByte(pieces[k])
      {
        assert pieces[k] == rest[k - 1];
      }
    }
  }

  /**
   * Each piece is non-empty and at most `chunkSize` bytes, and no piece after
   * the first starts with a continuation byte.
   */
  lemma PiecesShape(data: seq<byte>, position: nat, chunkSize: nat)
    requires position <= |data| && Progresses(data, position, chunkSize)
    ensures var pieces := Pieces(data, position, chunkSize);
      && |pieces| <= |data| - position
      && (forall k :: 0 <= k < |pieces| ==> 0 < |pieces[k]| <= chunkSize)
      && (forall k :: 0 < k < |pieces| ==> !IsContinuation(pieces[k][0]))
  {
    PiecesBounded(data, position, chunkSize);
    PiecesAligned(data, position, chunkSize);
    var pieces := Pieces(data, position, chunkSize);
    assert forall k :: 0 < k < |pieces| ==> StartsOnLeadByte(pieces[k]);
  }

  /** Empty input gives no pieces; input of 1..chunkSize bytes gives itself as the only piece. */
  lemma SmallInputPieces(data: seq<byte>, chunkSize: nat)
    requires |data| <= chunkSize
    ensures Progresses(data, 0, chunkSize)
    ensures data == [] ==> Pieces(data, 0, chunkSize) == []
    ensures data != [] ==> Pieces(data, 0, chunkSize) == [data]
  {
    if data != [] {
      assert PieceEnd(data, 0, chunkSize) == |data|;
      assert data[0..|data|] == data;
    }
  }

  /**
   * Why the requirement is needed: when every byte of the window after
   * `position` is a continuation byte, the back-off returns to `position`
   * and the loop makes no progress.
   */
  lemma StallsOnContinuationRun(data: seq<byte>, position: nat, chunkSize: nat)
    requires position + chunkSize < |data|
    requires forall j :: position < j <= position + chunkSize ==> IsContinuation(data[j])
    ensures PieceEnd(data, position, chunkSize) == position
    ensures !Progresses(data, position, chunkSize)
  {
  }

  /** A window after `position` holding a byte that is not a continuation byte. */
  predicate HasLeadByte(data: seq<byte>, position: nat, chunkSize: nat)
  {
    exists j :: position < j <= position + chunkSize && j < |data| && !IsContinuation(data[j])
  }

  /**
   * A sufficient condition for termination: chunkSize > 0 and every window of
   * chunkSize bytes that the back-off could scan holds a non-continuation
   * byte. Well-formed UTF-8 text meets it for any chunkSize >= 4.
   */
  lemma {:induction false} LeadBytesGiveProgress(data: seq<byte>, position: nat, chunkSize: nat)
    requires position <= |data| && chunkSize > 0
    requires forall p :: 0 <= p && p + chunkSize < |data| ==> HasLeadByte(data, p, chunkSize)
    ensures Progresses(data, position, chunkSize)
    decreases |data| - position
  {
    if position < |data| {
      var end := PieceEnd(data, position, chunkSize);
      if position + chunkSize < |data| {
        assert HasLeadByte(data, position, chunkSize);
        var j :| position < j <= position + chunkSize && j < |data| && !IsContinuation(data[j]);
        assert end >= j;
      }
      LeadBytesGiveProgress(data, end, chunkSize);
    }
  }
}
